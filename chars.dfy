/** Character classes used by the six validation patterns of the user handler.
    `\w` and `\d` are taken in their ASCII sense: word characters are
    `[A-Za-z0-9_]`, digits are `[0-9]`. */
module Chars {

  predicate IsAsciiLetter(c: char) {
    'A' <= c <= 'Z' || 'a' <= c <= 'z'
  }

  /** `\d` */
  predicate IsDigit(c: char) {
    '0' <= c <= '9'
  }

  /** `\w` */
  predicate IsWordChar(c: char) {
    IsAsciiLetter(c) || IsDigit(c) || c == '_'
  }

  /** The range `一-龥` (CJK unified ideographs) that three patterns share. */
  predicate IsCjk(c: char) {
    '\U{4E00}' <= c <= '\U{9FA5}'
  }

  /** `[$@$!%*#?&]`, the punctuation a password must contain one of. */
  predicate IsPasswordSpecial(c: char) {
    c == '$' || c == '@' || c == '!' || c == '%' || c == '*' || c == '#' || c == '?' || c == '&'
  }

  /** `[A-Za-z\d$@$!%*#?&]`, the alphabet a password is drawn from. */
  predicate IsPasswordChar(c: char) {
    IsAsciiLetter(c) || IsDigit(c) || IsPasswordSpecial(c)
  }

  /** `[一-龥_a-zA-Z0-9]` */
  predicate IsNicknameChar(c: char) {
    IsCjk(c) || c == '_' || 'a' <= c <= 'z' || 'A' <= c <= 'Z' || '0' <= c <= '9'
  }

  /** `[一-龥，。]`: ideographs plus the full-width comma U+FF0C and
      the ideographic full stop U+3002. */
  predicate IsIntroductionChar(c: char) {
    IsCjk(c) || c == '\U{FF0C}' || c == '\U{3002}'
  }

  /** `[-+.]`, the separators allowed between word runs before the `@`. */
  predicate IsLocalSeparator(c: char) {
    c == '-' || c == '+' || c == '.'
  }

  /** `[-.]`, the separators allowed between word runs after the `@`. */
  predicate IsDomainSeparator(c: char) {
    c == '-' || c == '.'
  }

  /** What `.` matches: every character except a line feed. */
  predicate IsNotNewline(c: char) {
    c != '\n'
  }

  /** The nickname class is exactly: an ideograph, `_`, or a word character.
      (So it is `\w` widened by the ideographs.) */
  lemma NicknameCharIsWordOrCjk(c: char)
    ensures IsNicknameChar(c) <==> IsWordChar(c) || IsCjk(c)
  {
  }

  /** No separator of either email separator class is a word character, and
      neither `@` nor a line feed is in any of the classes the email and
      password patterns repeat. */
  lemma ClassesDisjoint(c: char)
    ensures IsLocalSeparator(c) ==> !IsWordChar(c)
    ensures IsDomainSeparator(c) ==> IsLocalSeparator(c)
    ensures IsPasswordChar(c) ==> IsNotNewline(c)
    ensures c == '@' ==> !IsWordChar(c) && !IsLocalSeparator(c)
  {
  }
}
