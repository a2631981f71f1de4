/**
 * The Bean Validation constraints the request DTOs use, each read the way
 * Hibernate Validator reads it. Only @NotNull and @NotBlank reject null;
 * @Size, @Pattern, @Email, @Past and @Future accept it. @Email's rule is
 * Hibernate Validator's own, so it is a parameter here.
 */
module Constraints {
  import opened Basics

  /** Characters `String.trim()` removes: everything up to U+0020. */
  predicate Trimmed(c: char)
  {
    c <= ' '
  }

  /** @NotBlank: not null, and something is left after trimming. */
  predicate NotBlank(s: NullableString)
  {
    s.Some? && exists i :: 0 <= i < |s.value| && !Trimmed(s.value[i])
  }

  /** @Size(max = n): null, or at most n characters. */
  predicate SizeMax(s: NullableString, n: nat)
  {
    s.None? || |s.value| <= n
  }

  /** @Size(min = lo, max = hi). */
  predicate SizeBetween(s: NullableString, lo: nat, hi: nat)
  {
    s.None? || lo <= |s.value| <= hi
  }

  /** `\s` in a Java regular expression. */
  predicate IsRegexWhitespace(c: char)
  {
    c == ' ' || c == '\t' || c == '\n' || c == '\U{000B}' || c == '\U{000C}' || c == '\r'
  }

  /** The character class `[0-9\s-()]`. */
  predicate PhoneChar(c: char)
  {
    '0' <= c <= '9' || IsRegexWhitespace(c) || c == '-' || c == '(' || c == ')'
  }

  /** `[0-9\s-()]{8,20}` matching a whole string. */
  predicate PhoneDigits(s: string)
  {
    8 <= |s| <= 20 && forall i :: 0 <= i < |s| ==> PhoneChar(s[i])
  }

  /** `^\+?[0-9\s-()]{8,20}$` matching a whole string. */
  predicate PhoneMatches(s: string)
  {
    PhoneDigits(s) || (|s| > 0 && s[0] == '+' && PhoneDigits(s[1..]))
  }

  /** A phone number that matches is 8 to 21 characters long, and only its first may be '+'. */
  lemma PhoneMatchesShape(s: string)
    requires PhoneMatches(s)
    ensures 8 <= |s| <= 21
    ensures forall i :: 0 < i < |s| ==> PhoneChar(s[i])
    ensures |s| == 21 ==> s[0] == '+'
  {
    if !PhoneDigits(s) {
      assert forall i :: 0 < i < |s| ==> s[i] == s[1..][i - 1];
    }
  }

  /** @Pattern(regexp = "^\\+?[0-9\\s-()]{8,20}$"): null or a match. */
  predicate PhonePattern(s: NullableString)
  {
    s.None? || PhoneMatches(s.value)
  }

  /** @Pattern(regexp = "^$|^\\+?[0-9\\s-()]{8,20}$"): null, empty, or a match. */
  predicate OptionalPhonePattern(s: NullableString)
  {
    s.None? || s.value == "" || PhoneMatches(s.value)
  }

  /** @Email under the given address rule: null accepted. */
  predicate EmailFormat(s: NullableString, isEmail: string -> bool)
  {
    s.None? || isEmail(s.value)
  }

  /** @Past: null, or strictly before now. */
  predicate Past(d: NullableDate, now: Date)
  {
    d.None? || d.value < now
  }

  /** @Future: null, or strictly after now. */
  predicate Future(d: NullableDate, now: Date)
  {
    d.None? || d.value > now
  }

  /** A phone number made only of whitespace matches the pattern, so the @NotBlank beside it is not redundant. */
  lemma BlankPhoneMatchesPattern()
    ensures PhonePattern(Some("        ")) && !NotBlank(Some("        "))
  {
    var s := "        ";
    assert forall i :: 0 <= i < |s| ==> s[i] == ' ';
  }

  /** The empty alternative phone passes its own pattern but not the main phone pattern. */
  lemma EmptyAlternativePhone()
    ensures OptionalPhonePattern(Some("")) && !PhonePattern(Some(""))
  {
  }
}
