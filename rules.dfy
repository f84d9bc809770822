/** The six field rules of the user handler (webook/internal/web/user.go,
    lines 29-34). For each rule:
      - `Matches...Pattern` transcribes the anchored pattern with the
        constructs of module Regex (ghost: it describes how the pattern
        matches);
      - `Is...` is the explicit predicate the handler decisions use;
      - a lemma proves the two accept the same strings. */
module Rules {
  import opened Chars
  import opened Regex

  // ---------------------------------------------------------------------
  // Email: ^\w+([-+.]\w+)*@\w+([-.]\w+)*\.\w+([-.]\w+)*$

  /** The pattern matched with its `@` at i and its literal `\.` at j. */
  ghost predicate EmailPatternAt(s: string, i: int, j: int) {
    && 0 <= i < j < |s|
    && SeparatedRuns(s[..i], IsWordChar, IsLocalSeparator)
    && s[i] == '@'
    && SeparatedRuns(s[i + 1..j], IsWordChar, IsDomainSeparator)
    && s[j] == '.'
    && SeparatedRuns(s[j + 1..], IsWordChar, IsDomainSeparator)
  }

  ghost predicate MatchesEmailPattern(s: string) {
    exists i, j :: EmailPatternAt(s, i, j)
  }

  /** Word runs separated by single `-`, `+` or `.`. */
  predicate IsLocalPart(s: string) {
    IsSeparatedRuns(s, IsWordChar, IsLocalSeparator)
  }

  /** Word runs separated by single `-` or `.`, at least one of them a `.`. */
  predicate IsDomain(s: string) {
    IsSeparatedRuns(s, IsWordChar, IsDomainSeparator) && '.' in s
  }

  predicate IsEmailAt(s: string, i: int) {
    0 <= i < |s| && s[i] == '@' && IsLocalPart(s[..i]) && IsDomain(s[i + 1..])
  }

  /** A local part, `@`, a domain. */
  predicate IsEmail(s: string) {
    exists i | 0 <= i < |s| :: IsEmailAt(s, i)
  }

  lemma EmailClassesDisjoint()
    ensures Disjoint(IsWordChar, IsLocalSeparator)
    ensures Disjoint(IsWordChar, IsDomainSeparator)
  {
  }

  lemma EmailPatternIff(s: string)
    ensures MatchesEmailPattern(s) <==> IsEmail(s)
  {
    if MatchesEmailPattern(s) {
      var i, j :| EmailPatternAt(s, i, j);
      EmailPatternSound(s, i, j);
    }
    if IsEmail(s) {
      var i :| 0 <= i < |s| && IsEmailAt(s, i);
      EmailPatternComplete(s, i);
    }
  }

  lemma EmailPatternSound(s: string, i: int, j: int)
    requires EmailPatternAt(s, i, j)
    ensures IsEmailAt(s, i)
  {
    var a, b := s[i + 1..j], s[j + 1..];
    SeparatedRunsSound(s[..i], IsWordChar, IsLocalSeparator);
    SeparatedRunsSound(a, IsWordChar, IsDomainSeparator);
    SeparatedRunsSound(b, IsWordChar, IsDomainSeparator);
    SeparatedRunsJoin(a, '.', b, IsWordChar, IsDomainSeparator);
    var d, m := s[i + 1..], j - i - 1;
    assert d[..m] == a && d[m] == '.' && d[m + 1..] == b;
    assert d == d[..m] + [d[m]] + d[m + 1..];
  }

  lemma EmailPatternComplete(s: string, i: int)
    requires IsEmailAt(s, i)
    ensures EmailPatternAt(s, i, i + 1 + Find(s[i + 1..], '.'))
  {
    EmailClassesDisjoint();
    var d := s[i + 1..];
    var j' := Find(d, '.');
    SeparatedRunsSplit(d, j', IsWordChar, IsDomainSeparator);
    var j := i + 1 + j';
    assert d[..j'] == s[i + 1..j];
    assert d[j' + 1..] == s[j + 1..];
    SeparatedRunsComplete(s[..i], IsWordChar, IsLocalSeparator);
    SeparatedRunsComplete(s[i + 1..j], IsWordChar, IsDomainSeparator);
    SeparatedRunsComplete(s[j + 1..], IsWordChar, IsDomainSeparator);
  }

  /** Index of the first occurrence of c in s. */
  function Find(s: string, c: char): (k: nat)
    requires c in s
    ensures k < |s| && s[k] == c
    ensures c !in s[..k]
  {
    if s[0] == c then 0
    else
      assert c in s[1..];
      assert s[1..][..Find(s[1..], c)] == s[1..1 + Find(s[1..], c)];
      1 + Find(s[1..], c)
  }

  /** An accepted address has exactly one `@`: everything before it is the
      local part, everything after it the domain. */
  lemma EmailHasOneAt(s: string, i: int, i': int)
    requires IsEmail(s)
    requires 0 <= i < |s| && s[i] == '@'
    requires 0 <= i' < |s| && s[i'] == '@'
    ensures i == i'
  {
  }

  /** An address with separators on both sides of the `@` passes. */
  lemma EmailAccepted()
    ensures IsEmail("a.b+c@d-e.f")
  {
    assert IsEmailAt("a.b+c@d-e.f", 5) by {
      assert "a.b+c@d-e.f"[..5] == "a.b+c";
      assert "a.b+c@d-e.f"[6..] == "d-e.f";
    }
  }

  /** A domain needs a `.`. */
  lemma EmailWithoutDotRejected()
    ensures !IsEmail("a@b")
  {
  }

  /** Two separators in a row are rejected. */
  lemma EmailDoubleSeparatorRejected()
    ensures !IsEmail("a..b@c.d")
  {
    var s := "a..b@c.d";
    assert !IsLocalPart(s[..4]) by {
      assert s[..4] == "a..b";
      assert !IsWordChar(s[..4][1]) && !IsWordChar(s[..4][2]);
    }
  }

  // ---------------------------------------------------------------------
  // Password: ^(?=.*[A-Za-z])(?=.*\d)(?=.*[$@$!%*#?&])[A-Za-z\d$@$!%*#?&]{8,}$

  ghost predicate MatchesPasswordPattern(s: string) {
    && LookaheadAtStart(s, IsAsciiLetter)
    && LookaheadAtStart(s, IsDigit)
    && LookaheadAtStart(s, IsPasswordSpecial)
    && Repeat(s, IsPasswordChar, 8, Unbounded)
  }

  /** At least 8 characters, all letters, digits or one of `$@!%*#?&`, with
      at least one of each of the three kinds. */
  predicate IsStrongPassword(s: string) {
    && |s| >= 8
    && AllIn(s, IsPasswordChar)
    && SomeIn(s, IsAsciiLetter)
    && SomeIn(s, IsDigit)
    && SomeIn(s, IsPasswordSpecial)
  }

  lemma PasswordPatternIff(s: string)
    ensures MatchesPasswordPattern(s) <==> IsStrongPassword(s)
  {
    RepeatIff(s, IsPasswordChar, 8, Unbounded);
    if AllIn(s, IsPasswordChar) {
      assert AllIn(s, IsNotNewline) by {
        forall i | 0 <= i < |s| ensures IsNotNewline(s[i]) {
          ClassesDisjoint(s[i]);
        }
      }
      LookaheadIff(s, IsAsciiLetter);
      LookaheadIff(s, IsDigit);
      LookaheadIff(s, IsPasswordSpecial);
    }
  }

  // ---------------------------------------------------------------------
  // Birthday: ^(19|20)\d{2}-\d{2}-\d{2}$

  ghost predicate MatchesBirthdayPattern(s: string) {
    exists century, year, month, day |
      && (century == "19" || century == "20")
      && Repeat(year, IsDigit, 2, Finite(2))
      && Repeat(month, IsDigit, 2, Finite(2))
      && Repeat(day, IsDigit, 2, Finite(2))
      :: s == century + year + "-" + month + "-" + day
  }

  /** Exactly ten characters: `19` or `20`, two digits, `-`, two digits,
      `-`, two digits. */
  predicate IsBirthday(s: string) {
    && |s| == 10
    && ((s[0] == '1' && s[1] == '9') || (s[0] == '2' && s[1] == '0'))
    && IsDigit(s[2]) && IsDigit(s[3])
    && s[4] == '-'
    && IsDigit(s[5]) && IsDigit(s[6])
    && s[7] == '-'
    && IsDigit(s[8]) && IsDigit(s[9])
  }

  lemma DigitPairIff(x: string)
    ensures Repeat(x, IsDigit, 2, Finite(2)) <==> |x| == 2 && IsDigit(x[0]) && IsDigit(x[1])
  {
    RepeatIff(x, IsDigit, 2, Finite(2));
  }

  lemma BirthdayPatternIff(s: string)
    ensures MatchesBirthdayPattern(s) <==> IsBirthday(s)
  {
    if MatchesBirthdayPattern(s) {
      var century, year, month, day :|
        && (century == "19" || century == "20")
        && Repeat(year, IsDigit, 2, Finite(2))
        && Repeat(month, IsDigit, 2, Finite(2))
        && Repeat(day, IsDigit, 2, Finite(2))
        && s == century + year + "-" + month + "-" + day;
      DigitPairIff(year);
      DigitPairIff(month);
      DigitPairIff(day);
      assert s[2] == year[0] && s[3] == year[1];
      assert s[5] == month[0] && s[6] == month[1];
      assert s[8] == day[0] && s[9] == day[1];
    }
    if IsBirthday(s) {
      var century, year, month, day := s[..2], s[2..4], s[5..7], s[8..];
      DigitPairIff(year);
      DigitPairIff(month);
      DigitPairIff(day);
      assert century == "19" || century == "20";
      assert s == century + year + "-" + month + "-" + day;
    }
  }

  /** The fields an accepted birthday string is made of. Only the shape is
      checked: month and day may be any two digits. */
  datatype BirthdayFields = BirthdayFields(century: nat, year: nat, month: nat, day: nat)

  predicate ValidFields(b: BirthdayFields) {
    (b.century == 19 || b.century == 20) && b.year < 100 && b.month < 100 && b.day < 100
  }

  function DigitChar(d: nat): (c: char)
    requires d < 10
    ensures IsDigit(c)
  {
    ('0' as int + d) as char
  }

  function DigitValue(c: char): (d: nat)
    requires IsDigit(c)
    ensures d < 10 && DigitChar(d) == c
  {
    c as int - '0' as int
  }

  /** Two digits, with a leading zero when n < 10. */
  function TwoDigits(n: nat): string
    requires n < 100
  {
    [DigitChar(n / 10), DigitChar(n % 10)]
  }

  function FormatBirthday(b: BirthdayFields): (s: string)
    requires ValidFields(b)
    ensures IsBirthday(s)
  {
    TwoDigits(b.century) + TwoDigits(b.year) + "-" + TwoDigits(b.month) + "-" + TwoDigits(b.day)
  }

  function PairValue(c0: char, c1: char): nat
    requires IsDigit(c0) && IsDigit(c1)
  {
    DigitValue(c0) * 10 + DigitValue(c1)
  }

  function ParseBirthday(s: string): (b: BirthdayFields)
    requires IsBirthday(s)
    ensures ValidFields(b)
  {
    BirthdayFields(PairValue(s[0], s[1]), PairValue(s[2], s[3]), PairValue(s[5], s[6]), PairValue(s[8], s[9]))
  }

  lemma TwoDigitsValue(n: nat)
    requires n < 100
    ensures PairValue(TwoDigits(n)[0], TwoDigits(n)[1]) == n
  {
    assert DigitValue(DigitChar(n / 10)) == n / 10;
    assert DigitValue(DigitChar(n % 10)) == n % 10;
  }

  lemma PairValueDigits(c0: char, c1: char)
    requires IsDigit(c0) && IsDigit(c1)
    ensures TwoDigits(PairValue(c0, c1)) == [c0, c1]
  {
    var n := PairValue(c0, c1);
    assert n / 10 == DigitValue(c0) && n % 10 == DigitValue(c1);
  }

  /** Reading the fields back out of a formatted birthday gives the same
      fields. */
  lemma ParseFormat(b: BirthdayFields)
    requires ValidFields(b)
    ensures ParseBirthday(FormatBirthday(b)) == b
  {
    var s := FormatBirthday(b);
    TwoDigitsValue(b.century);
    TwoDigitsValue(b.year);
    TwoDigitsValue(b.month);
    TwoDigitsValue(b.day);
    assert s[0] == TwoDigits(b.century)[0] && s[1] == TwoDigits(b.century)[1];
    assert s[2] == TwoDigits(b.year)[0] && s[3] == TwoDigits(b.year)[1];
    assert s[5] == TwoDigits(b.month)[0] && s[6] == TwoDigits(b.month)[1];
    assert s[8] == TwoDigits(b.day)[0] && s[9] == TwoDigits(b.day)[1];
  }

  /** Every accepted birthday is the zero-padded form of its fields. */
  lemma FormatParse(s: string)
    requires IsBirthday(s)
    ensures FormatBirthday(ParseBirthday(s)) == s
  {
    PairValueDigits(s[0], s[1]);
    PairValueDigits(s[2], s[3]);
    PairValueDigits(s[5], s[6]);
    PairValueDigits(s[8], s[9]);
    assert s == s[..2] + s[2..4] + "-" + s[5..7] + "-" + s[8..];
  }

  /** The birthday rule accepts exactly the zero-padded `CCYY-MM-DD`
      strings whose century is 19 or 20, for any two-digit month and day. */
  lemma BirthdayAcceptsExactlyPaddedDates(s: string)
    ensures IsBirthday(s) <==> exists b :: ValidFields(b) && FormatBirthday(b) == s
  {
    if IsBirthday(s) {
      FormatParse(s);
    }
  }

  /** The example `1999-1-28` that the rejection message gives as correct is
      itself rejected (it has nine characters and a one-digit month); the
      zero-padded `1999-01-28` is accepted, and so is `2000-99-99`, which is
      no calendar date. */
  lemma BirthdayExamples()
    ensures !IsBirthday("1999-1-28")
    ensures IsBirthday("1999-01-28")
    ensures IsBirthday("2000-99-99")
    ensures !IsBirthday("2100-01-01")
  {
  }

  // ---------------------------------------------------------------------
  // Nickname: ^[一-龥_a-zA-Z0-9]{2,10}$

  ghost predicate MatchesNicknamePattern(s: string) {
    Repeat(s, IsNicknameChar, 2, Finite(10))
  }

  predicate IsNickname(s: string) {
    2 <= |s| <= 10 && AllIn(s, IsNicknameChar)
  }

  lemma NicknamePatternIff(s: string)
    ensures MatchesNicknamePattern(s) <==> IsNickname(s)
  {
    RepeatIff(s, IsNicknameChar, 2, Finite(10));
  }

  // ---------------------------------------------------------------------
  // Introduction: ^[一-龥，。]{10,300}$

  ghost predicate MatchesIntroductionPattern(s: string) {
    Repeat(s, IsIntroductionChar, 10, Finite(300))
  }

  predicate IsIntroduction(s: string) {
    10 <= |s| <= 300 && AllIn(s, IsIntroductionChar)
  }

  lemma IntroductionPatternIff(s: string)
    ensures MatchesIntroductionPattern(s) <==> IsIntroduction(s)
  {
    RepeatIff(s, IsIntroductionChar, 10, Finite(300));
  }

  // ---------------------------------------------------------------------
  // Location: ^[一-龥]{3,60}$

  ghost predicate MatchesLocationPattern(s: string) {
    Repeat(s, IsCjk, 3, Finite(60))
  }

  predicate IsLocation(s: string) {
    3 <= |s| <= 60 && AllIn(s, IsCjk)
  }

  lemma LocationPatternIff(s: string)
    ensures MatchesLocationPattern(s) <==> IsLocation(s)
  {
    RepeatIff(s, IsCjk, 3, Finite(60));
  }

  // ---------------------------------------------------------------------

  /** No rule accepts the empty string: every pattern needs at least two
      characters. An empty field passes Edit only because Edit skips it. */
  lemma RulesRejectEmpty()
    ensures !IsEmail("") && !IsStrongPassword("") && !IsBirthday("")
    ensures !IsNickname("") && !IsIntroduction("") && !IsLocation("")
  {
  }
}
