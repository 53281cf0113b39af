/**
 * The two input validators of the contact book, as the languages their
 * regular expressions accept. Each pattern is read left to right as a chain of
 * stages; a stage holds of the part of the input still to be matched.
 */
module Pattern {
  import opened Text

  /** `[-.\s]`: one separator between phone-number groups. */
  predicate IsSeparator(c: char) {
    c == '-' || c == '.' || IsSpace(c)
  }

  predicate AllDigits(s: string) {
    forall i | 0 <= i < |s| :: IsDigit(s[i])
  }

  /** Number of decimal digits in `s`. */
  function DigitCount(s: string): nat {
    if s == [] then 0 else (if IsDigit(s[0]) then 1 else 0) + DigitCount(s[1..])
  }

  lemma {:induction false} DigitCountConcat(a: string, b: string)
    ensures DigitCount(a + b) == DigitCount(a) + DigitCount(b)
    decreases |a|
  {
    if a == [] {
      assert a + b == b;
    } else {
      assert (a + b)[1..] == a[1..] + b;
      DigitCountConcat(a[1..], b);
    }
  }

  lemma {:induction false} DigitCountAll(s: string)
    requires AllDigits(s)
    ensures DigitCount(s) == |s|
    decreases |s|
  {
    if s != [] {
      DigitCountAll(s[1..]);
    }
  }

  /** A leading run of `i` digits contributes `i` to the count. */
  lemma DigitsThen(s: string, i: nat)
    requires i <= |s| && AllDigits(s[..i])
    ensures DigitCount(s) == i + DigitCount(s[i..])
  {
    assert s == s[..i] + s[i..];
    DigitCountConcat(s[..i], s[i..]);
    DigitCountAll(s[..i]);
  }

  // ---------------------------------------------------------------------
  // ^\+?\d{1,3}?[-.\s]?\(?\d{1,4}\)?[-.\s]?\d{1,4}[-.\s]?\d{1,9}$
  // `{1,3}?` is the lazy form of `{1,3}`: it changes which match is found
  // first, never whether a full match exists.
  // ---------------------------------------------------------------------

  /** `\d{1,9}$` */
  predicate LastGroup(s: string) {
    1 <= |s| <= 9 && AllDigits(s)
  }

  /** `[-.\s]?\d{1,9}$` */
  predicate AfterThirdGroup(s: string) {
    LastGroup(s) || (|s| > 0 && IsSeparator(s[0]) && LastGroup(s[1..]))
  }

  /** `\d{1,4}[-.\s]?\d{1,9}$` */
  predicate AfterSecondSeparator(s: string) {
    exists i | 1 <= i <= 4 && i <= |s| :: AllDigits(s[..i]) && AfterThirdGroup(s[i..])
  }

  /** `[-.\s]?\d{1,4}...` */
  predicate AfterParen(s: string) {
    AfterSecondSeparator(s) || (|s| > 0 && IsSeparator(s[0]) && AfterSecondSeparator(s[1..]))
  }

  /** `\)?[-.\s]?\d{1,4}...` */
  predicate AfterSecondGroup(s: string) {
    AfterParen(s) || (|s| > 0 && s[0] == ')' && AfterParen(s[1..]))
  }

  /** `\d{1,4}\)?...` */
  predicate AfterOpening(s: string) {
    exists i | 1 <= i <= 4 && i <= |s| :: AllDigits(s[..i]) && AfterSecondGroup(s[i..])
  }

  /** `\(?\d{1,4}...` */
  predicate AfterFirstSeparator(s: string) {
    AfterOpening(s) || (|s| > 0 && s[0] == '(' && AfterOpening(s[1..]))
  }

  /** `[-.\s]?\(?...` */
  predicate AfterFirstGroup(s: string) {
    AfterFirstSeparator(s) || (|s| > 0 && IsSeparator(s[0]) && AfterFirstSeparator(s[1..]))
  }

  /** `\d{1,3}?[-.\s]?...` */
  predicate AfterPlus(s: string) {
    exists i | 1 <= i <= 3 && i <= |s| :: AllDigits(s[..i]) && AfterFirstGroup(s[i..])
  }

  /** `is_valid_phone`: `re.fullmatch` of the whole phone pattern. */
  predicate IsValidPhone(s: string) {
    AfterPlus(s) || (|s| > 0 && s[0] == '+' && AfterPlus(s[1..]))
  }

  // Digit and length bounds, stage by stage.

  lemma AfterThirdGroupBounds(s: string)
    requires AfterThirdGroup(s)
    ensures 1 <= DigitCount(s) <= 9 && |s| <= 10
  {
    if LastGroup(s) {
      DigitCountAll(s);
    } else {
      DigitCountAll(s[1..]);
    }
  }

  lemma AfterSecondSeparatorBounds(s: string)
    requires AfterSecondSeparator(s)
    ensures 2 <= DigitCount(s) <= 13 && |s| <= 14
  {
    var i :| 1 <= i <= 4 && i <= |s| && AllDigits(s[..i]) && AfterThirdGroup(s[i..]);
    DigitsThen(s, i);
    AfterThirdGroupBounds(s[i..]);
  }

  lemma AfterSecondGroupBounds(s: string)
    requires AfterSecondGroup(s)
    ensures 2 <= DigitCount(s) <= 13 && |s| <= 16
  {
    if AfterParen(s) {
      AfterParenBounds(s);
    } else {
      AfterParenBounds(s[1..]);
    }
  }

  lemma AfterParenBounds(s: string)
    requires AfterParen(s)
    ensures 2 <= DigitCount(s) <= 13 && |s| <= 15
  {
    if AfterSecondSeparator(s) {
      AfterSecondSeparatorBounds(s);
    } else {
      AfterSecondSeparatorBounds(s[1..]);
    }
  }

  lemma AfterOpeningBounds(s: string)
    requires AfterOpening(s)
    ensures 3 <= DigitCount(s) <= 17 && |s| <= 20
  {
    var i :| 1 <= i <= 4 && i <= |s| && AllDigits(s[..i]) && AfterSecondGroup(s[i..]);
    DigitsThen(s, i);
    AfterSecondGroupBounds(s[i..]);
  }

  lemma AfterFirstGroupBounds(s: string)
    requires AfterFirstGroup(s)
    ensures 3 <= DigitCount(s) <= 17 && |s| <= 22
  {
    if AfterFirstSeparator(s) {
      AfterFirstSeparatorBounds(s);
    } else {
      AfterFirstSeparatorBounds(s[1..]);
    }
  }

  lemma AfterFirstSeparatorBounds(s: string)
    requires AfterFirstSeparator(s)
    ensures 3 <= DigitCount(s) <= 17 && |s| <= 21
  {
    if AfterOpening(s) {
      AfterOpeningBounds(s);
    } else {
      AfterOpeningBounds(s[1..]);
    }
  }

  lemma AfterPlusBounds(s: string)
    requires AfterPlus(s)
    ensures 4 <= DigitCount(s) <= 20 && |s| <= 25
  {
    var i :| 1 <= i <= 3 && i <= |s| && AllDigits(s[..i]) && AfterFirstGroup(s[i..]);
    DigitsThen(s, i);
    AfterFirstGroupBounds(s[i..]);
  }

  /** An accepted phone number has 4 to 20 digits and at most 26 characters. */
  lemma PhoneBounds(s: string)
    requires IsValidPhone(s)
    ensures 4 <= DigitCount(s) <= 20 && |s| <= 26
  {
    if AfterPlus(s) {
      AfterPlusBounds(s);
    } else {
      AfterPlusBounds(s[1..]);
    }
  }

  /** An accepted phone number starts with `+` or a digit: the first digit group is not optional. */
  lemma PhoneStart(s: string)
    requires IsValidPhone(s)
    ensures |s| > 0 && (s[0] == '+' || IsDigit(s[0]))
  {
    if AfterPlus(s) {
      var i :| 1 <= i <= 3 && i <= |s| && AllDigits(s[..i]) && AfterFirstGroup(s[i..]);
      assert s[..i][0] == s[0];
    }
  }

  /** A number written with its area code in parentheses, as `(050)123-45-67`, is rejected. */
  lemma PhoneRejectsLeadingParen(s: string)
    requires |s| > 0 && s[0] == '('
    ensures !IsValidPhone(s)
  {
    if IsValidPhone(s) {
      PhoneStart(s);
    }
  }

  lemma PhoneRejectsParenExample()
    ensures !IsValidPhone("(050)123-45-67")
  {
    PhoneRejectsLeadingParen("(050)123-45-67");
  }

  /** Digit groups of 3, 4, 4 and the rest, with no separators. */
  lemma PhonePlainDigits(s: string)
    requires |s| == 10 && AllDigits(s)
    ensures IsValidPhone(s)
  {
    var t := s[3..];
    assert AllDigits(t[..4]) && t[4..] == s[7..];
    var u := s[7..];
    assert AllDigits(u[..1]) && LastGroup(u[1..]);
    assert AfterThirdGroup(u[1..]);
    assert AfterSecondSeparator(u);
    assert AfterSecondGroup(t[4..]);
    assert AfterOpening(t);
    assert AfterFirstGroup(t);
    assert AllDigits(s[..3]) && AfterFirstGroup(s[3..]);
  }

  lemma PhoneAcceptsLocal()
    ensures IsValidPhone("0501234567")
  {
    PhonePlainDigits("0501234567");
  }

  /** A plus sign followed by twelve digits, as `+380501234567`. */
  lemma PhonePlusTwelveDigits(s: string)
    requires |s| == 13 && s[0] == '+' && AllDigits(s[1..])
    ensures IsValidPhone(s)
  {
    var p := s[1..];
    var t := p[3..];
    var u := t[4..];
    assert AllDigits(u[..4]) && LastGroup(u[4..]);
    assert AfterSecondSeparator(u);
    assert AllDigits(t[..4]) && AfterSecondGroup(t[4..]);
    assert AfterFirstGroup(t);
    assert AllDigits(p[..3]) && AfterFirstGroup(p[3..]);
  }

  lemma PhoneAcceptsInternational()
    ensures IsValidPhone("+380501234567")
  {
    PhonePlusTwelveDigits("+380501234567");
  }

  /** Groups of 3, 3, 2 and 2 digits joined by separators, as `050-123-45-67`. */
  lemma PhoneSeparatedGroups(s: string)
    requires |s| == 13 && IsSeparator(s[3]) && IsSeparator(s[7]) && IsSeparator(s[10])
    requires AllDigits(s[..3]) && AllDigits(s[4..7]) && AllDigits(s[8..10]) && AllDigits(s[11..])
    ensures IsValidPhone(s)
  {
    var t := s[4..];
    var u := t[4..];
    assert t[..3] == s[4..7] && u[..2] == s[8..10] && u[3..] == s[11..];
    assert AllDigits(u[..2]) && LastGroup(u[3..]);
    assert AfterThirdGroup(u[2..]);
    assert AfterSecondSeparator(u);
    assert AfterParen(t[3..]);
    assert AllDigits(t[..3]) && AfterSecondGroup(t[3..]);
    assert AfterFirstGroup(s[3..]);
  }

  lemma PhoneAcceptsDashed()
    ensures IsValidPhone("050-123-45-67")
  {
    var s := "050-123-45-67";
    assert AllDigits(s[..3]) && AllDigits(s[4..7]) && AllDigits(s[8..10]) && AllDigits(s[11..]);
    PhoneSeparatedGroups(s);
  }

  /** An opening parenthesis needs no closing one: `0(501234567` is accepted. */
  lemma PhoneAcceptsUnbalanced()
    ensures IsValidPhone("0(501234567")
  {
    var s := "0(501234567";
    var t := s[2..];
    var u := t[4..];
    assert AllDigits(u[..1]) && LastGroup(u[1..]);
    assert AfterSecondSeparator(u);
    assert AllDigits(t[..4]) && AfterSecondGroup(t[4..]);
    assert AfterFirstSeparator(s[1..]);
    assert AllDigits(s[..1]) && AfterFirstGroup(s[1..]);
  }

  // ---------------------------------------------------------------------
  // ^[a-zA-Z0-9_.+-]+@[a-zA-Z0-9-]+\.[a-zA-Z0-9-.]+$ under `re.match`
  // ---------------------------------------------------------------------

  /** `[a-zA-Z0-9_.+-]` */
  predicate IsLocalChar(c: char) {
    IsAsciiLetter(c) || IsDigit(c) || c == '_' || c == '.' || c == '+' || c == '-'
  }

  /** `[a-zA-Z0-9-]` */
  predicate IsLabelChar(c: char) {
    IsAsciiLetter(c) || IsDigit(c) || c == '-'
  }

  /** `[a-zA-Z0-9-.]` */
  predicate IsSuffixChar(c: char) {
    IsAsciiLetter(c) || IsDigit(c) || c == '-' || c == '.'
  }

  /** `[a-zA-Z0-9-]+\.[a-zA-Z0-9-.]+` over the whole of `s`. */
  predicate IsDomain(s: string) {
    exists j | 0 < j < |s| - 1 :: s[j] == '.' && (forall k | 0 <= k < j :: IsLabelChar(s[k]))
      && (forall k | j < k < |s| :: IsSuffixChar(s[k]))
  }

  /** The whole pattern matched by all of `s`. */
  predicate IsAddress(s: string) {
    exists i | 0 < i < |s| :: s[i] == '@' && (forall k | 0 <= k < i :: IsLocalChar(s[k])) && IsDomain(s[i + 1..])
  }

  /**
   * `is_valid_email`. `re.match` anchors only the start; `$` matches at the
   * end of the string or just before a final newline.
   */
  predicate IsValidEmail(s: string) {
    IsAddress(s) || (|s| > 0 && s[|s| - 1] == '\n' && IsAddress(s[..|s| - 1]))
  }

  /** `c` occurs in `s` at position `i` and nowhere else. */
  lemma {:induction false} CountOnce(s: string, i: nat, c: char)
    requires i < |s| && s[i] == c
    requires forall j | 0 <= j < |s| && j != i :: s[j] != c
    ensures Count(s, c) == 1
    decreases |s|
  {
    if i == 0 {
      CountAbsent(s[1..], c);
    } else {
      CountOnce(s[1..], i - 1, c);
    }
  }

  lemma DomainAvoidsAt(d: string)
    requires IsDomain(d)
    ensures forall k | 0 <= k < |d| :: d[k] != '@'
  {
  }

  lemma AddressOneAt(s: string)
    requires IsAddress(s)
    ensures Count(s, '@') == 1
  {
    var i :| 0 < i < |s| && s[i] == '@' && (forall k | 0 <= k < i :: IsLocalChar(s[k])) && IsDomain(s[i + 1..]);
    var d := s[i + 1..];
    DomainAvoidsAt(d);
    forall j | 0 <= j < |s| && j != i
      ensures s[j] != '@'
    {
      if j > i {
        assert s[j] == d[j - i - 1];
      }
    }
    CountOnce(s, i, '@');
  }

  /** An accepted address holds exactly one `@`. */
  lemma EmailOneAt(s: string)
    requires IsValidEmail(s)
    ensures Count(s, '@') == 1
  {
    if IsAddress(s) {
      AddressOneAt(s);
    } else {
      var t := s[..|s| - 1];
      assert s == t + "\n";
      AddressOneAt(t);
      CountConcat(t, "\n", '@');
    }
  }

  /** One trailing newline is let through: the address with it is accepted exactly when the address is. */
  lemma EmailTrailingNewline(t: string)
    ensures IsValidEmail(t + "\n") <==> IsAddress(t)
  {
    var s := t + "\n";
    assert s[..|s| - 1] == t;
    assert !IsSuffixChar(s[|s| - 1]);
  }

  /** Dots and plus signs before the `@`, a dash in the domain, dots in the suffix. */
  lemma EmailAcceptsExample()
    ensures IsValidEmail("j.doe+x@my-box.co.ua")
  {
    var s := "j.doe+x@my-box.co.ua";
    var d := s[8..];
    assert d == "my-box.co.ua" && d[6] == '.';
    assert IsDomain(d);
    assert s[7] == '@' && IsAddress(s);
  }

  /** The address with one trailing newline passes too. */
  lemma EmailAcceptsNewlineExample()
    ensures IsValidEmail("a@b.c\n")
  {
    var t := "a@b.c";
    var d := t[2..];
    assert d == "b.c" && d[1] == '.';
    assert IsDomain(d);
    assert t[1] == '@' && IsAddress(t);
    EmailTrailingNewline(t);
    assert t + "\n" == "a@b.c\n";
  }

  /** Without a dot after the `@` an address is rejected. */
  lemma EmailRejectsNoDotExample()
    ensures !IsValidEmail("admin@localhost")
  {
    var s := "admin@localhost";
    assert !IsSuffixChar(s[|s| - 1]) ==> false;
    assert forall i | 0 < i < |s| && s[i] == '@' :: i == 5;
    assert !IsDomain(s[6..]);
  }
}
