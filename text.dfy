/**
 * The pieces of Python's `str` that the three managers use: character classes,
 * `lower`/`upper`, `strip`, `startswith`, substring tests, `find`, `split` and `join`.
 */
module Text {
  import opened Wrappers

  predicate IsDigit(c: char) { '0' <= c <= '9' }
  predicate IsAsciiLower(c: char) { 'a' <= c <= 'z' }
  predicate IsAsciiUpper(c: char) { 'A' <= c <= 'Z' }
  predicate IsAsciiLetter(c: char) { IsAsciiLower(c) || IsAsciiUpper(c) }

  /** `str.isspace()` for one character: the 29 code points Python treats as whitespace. */
  predicate IsSpace(c: char) {
    var n := c as int;
    (0x09 <= n <= 0x0D) || (0x1C <= n <= 0x20) || n == 0x85 || n == 0xA0 || n == 0x1680
    || (0x2000 <= n <= 0x200A) || n == 0x2028 || n == 0x2029 || n == 0x202F || n == 0x205F
    || n == 0x3000
  }

  /** Lower-case Cyrillic letters of the Russian and Ukrainian alphabets (U+0430..U+045F and ґ). */
  predicate IsCyrillicLower(c: char) { 0x430 <= c as int <= 0x45F || c as int == 0x491 }
  /** Their upper-case counterparts (U+0400..U+042F and Ґ). */
  predicate IsCyrillicUpper(c: char) { 0x400 <= c as int <= 0x42F || c as int == 0x490 }

  /** `str.lower()` on one character, for ASCII and the Cyrillic block. */
  function LowerChar(c: char): (r: char)
    ensures IsAsciiUpper(c) ==> IsAsciiLower(r)
    ensures IsCyrillicUpper(c) ==> IsCyrillicLower(r)
    ensures !IsAsciiUpper(c) && !IsCyrillicUpper(c) ==> r == c
  {
    var n := c as int;
    if IsAsciiUpper(c) then (n + 32) as char
    else if 0x410 <= n <= 0x42F then (n + 0x20) as char
    else if 0x400 <= n <= 0x40F then (n + 0x50) as char
    else if n == 0x490 then 0x491 as char
    else c
  }

  /** `str.upper()` on one character, for ASCII and the Cyrillic block. */
  function UpperChar(c: char): (r: char)
    ensures IsAsciiLower(c) ==> IsAsciiUpper(r)
    ensures IsCyrillicLower(c) ==> IsCyrillicUpper(r)
    ensures !IsAsciiLower(c) && !IsCyrillicLower(c) ==> r == c
  {
    var n := c as int;
    if IsAsciiLower(c) then (n - 32) as char
    else if 0x430 <= n <= 0x44F then (n - 0x20) as char
    else if 0x450 <= n <= 0x45F then (n - 0x50) as char
    else if n == 0x491 then 0x490 as char
    else c
  }

  /** Upper-casing is one-to-one on lower-case Cyrillic letters and undone by lower-casing. */
  lemma UpperCyrillicInverse(c: char)
    requires IsCyrillicLower(c)
    ensures LowerChar(UpperChar(c)) == c
  {
  }

  function Lower(s: string): string {
    seq(|s|, i requires 0 <= i < |s| => LowerChar(s[i]))
  }

  function Upper(s: string): string {
    seq(|s|, i requires 0 <= i < |s| => UpperChar(s[i]))
  }

  /** `s.startswith(prefix)`. */
  predicate StartsWith(s: string, prefix: string) {
    |prefix| <= |s| && s[..|prefix|] == prefix
  }

  /** `q` occurs in `s` starting at position `i`. */
  predicate OccursAt(s: string, q: string, i: int) {
    0 <= i && i + |q| <= |s| && s[i..i + |q|] == q
  }

  lemma OccursShift(s: string, q: string, i: int)
    requires |s| > 0 && i >= 0
    ensures OccursAt(s[1..], q, i) <==> OccursAt(s, q, i + 1)
  {
    if 0 <= i && i + |q| <= |s| - 1 {
      assert s[1..][i..i + |q|] == s[i + 1..i + 1 + |q|];
    }
  }

  /** Python's `q in s` on strings: `q` occurs in `s` as a contiguous piece. */
  predicate Contains(s: string, q: string)
    decreases |s|
  {
    StartsWith(s, q) || (|s| > 0 && Contains(s[1..], q))
  }

  /** `Contains` holds exactly when `q` sits at some position of `s`. */
  lemma {:induction false} ContainsAt(s: string, q: string)
    ensures Contains(s, q) <==> exists i :: OccursAt(s, q, i)
    decreases |s|
  {
    assert StartsWith(s, q) <==> OccursAt(s, q, 0);
    if |s| > 0 {
      ContainsAt(s[1..], q);
      if Contains(s[1..], q) {
        var i :| OccursAt(s[1..], q, i);
        OccursShift(s, q, i);
      }
      if exists i :: OccursAt(s, q, i) {
        var i :| OccursAt(s, q, i);
        if i > 0 {
          OccursShift(s, q, i - 1);
        }
      }
    }
  }

  /** Drops leading whitespace (the left half of `str.strip()`). */
  function TrimStart(s: string): (r: string)
    ensures |r| <= |s| && r == s[|s| - |r|..]
    ensures forall k :: 0 <= k < |s| - |r| ==> IsSpace(s[k])
    ensures |r| > 0 ==> !IsSpace(r[0])
    decreases |s|
  {
    if |s| > 0 && IsSpace(s[0]) then TrimStart(s[1..]) else s
  }

  /** Drops trailing whitespace (the right half of `str.strip()`). */
  function TrimEnd(s: string): (r: string)
    ensures |r| <= |s| && r == s[..|r|]
    ensures forall k :: |r| <= k < |s| ==> IsSpace(s[k])
    ensures |r| > 0 ==> !IsSpace(r[|r| - 1])
    decreases |s|
  {
    if |s| > 0 && IsSpace(s[|s| - 1]) then TrimEnd(s[..|s| - 1]) else s
  }

  /** `r` is the piece of `s` starting at `a`, and everything of `s` around it is whitespace. */
  predicate Trimmed(s: string, r: string, a: int) {
    && 0 <= a <= |s| - |r|
    && r == s[a..a + |r|]
    && (forall k | 0 <= k < a :: IsSpace(s[k]))
    && (forall k | a + |r| <= k < |s| :: IsSpace(s[k]))
  }

  /** `str.strip()` without arguments: `s` with the whitespace at both ends gone. */
  function Strip(s: string): (r: string)
    ensures exists a :: Trimmed(s, r, a)
    ensures r == [] || (!IsSpace(r[0]) && !IsSpace(r[|r| - 1]))
  {
    var t := TrimStart(s);
    var r := TrimEnd(t);
    assert Trimmed(s, r, |s| - |t|);
    r
  }

  /** Stripping a string that starts with a non-space keeps that first character. */
  lemma StripKeepsHead(s: string)
    requires |s| > 0 && !IsSpace(s[0])
    ensures |Strip(s)| > 0 && Strip(s)[0] == s[0]
  {
    assert TrimStart(s) == s;
    assert s[..1] == [s[0]];
  }

  /** `strip()` only removes characters: whatever it keeps was in the input. */
  lemma StripKeepsChars(s: string)
    ensures forall c | c in Strip(s) :: c in s
  {
    var t := TrimStart(s);
    assert forall c | c in t :: c in s by {
      forall c | c in t ensures c in s {
        var k :| 0 <= k < |t| && t[k] == c;
        assert s[|s| - |t| + k] == c;
      }
    }
    assert forall c | c in TrimEnd(t) :: c in t by {
      forall c | c in TrimEnd(t) ensures c in t {
        var k :| 0 <= k < |TrimEnd(t)| && TrimEnd(t)[k] == c;
        assert t[k] == c;
      }
    }
  }

  /** A stripped string neither starts nor ends with whitespace. */
  lemma StripEdges(s: string)
    ensures var r := Strip(s); r == [] || (!IsSpace(r[0]) && !IsSpace(r[|r| - 1]))
  {
    var t := TrimStart(s);
    var r := TrimEnd(t);
    if r != [] {
      assert r[0] == t[0];
    }
  }

  /** A leading whitespace character is dropped by `TrimStart`. */
  lemma TrimStartSpace(c: char, s: string)
    requires IsSpace(c)
    ensures TrimStart([c] + s) == TrimStart(s)
  {
    assert ([c] + s)[1..] == s;
  }

  /** A string without whitespace at either end is left alone by `strip()`. */
  lemma StripFixed(s: string)
    requires s == [] || (!IsSpace(s[0]) && !IsSpace(s[|s| - 1]))
    ensures Strip(s) == s
  {
    assert TrimStart(s) == s;
  }

  /** `strip()` is idempotent. */
  lemma StripIdempotent(s: string)
    ensures Strip(Strip(s)) == Strip(s)
  {
    StripEdges(s);
    StripFixed(Strip(s));
  }

  /** A string containing a non-empty `q` contains `q`'s first character. */
  lemma ContainsHead(s: string, q: string)
    requires |q| > 0 && Contains(s, q)
    ensures q[0] in s
  {
    ContainsAt(s, q);
    var i :| OccursAt(s, q, i);
    assert s[i] == s[i..i + |q|][0];
  }

  /** Number of occurrences of `c` in `s`. */
  function Count(s: string, c: char): nat {
    if s == [] then 0 else (if s[0] == c then 1 else 0) + Count(s[1..], c)
  }

  lemma {:induction false} CountConcat(a: string, b: string, c: char)
    ensures Count(a + b, c) == Count(a, c) + Count(b, c)
    decreases |a|
  {
    if a != [] {
      assert (a + b)[0] == a[0] && (a + b)[1..] == a[1..] + b;
      CountConcat(a[1..], b, c);
      assert Count(a + b, c) == (if a[0] == c then 1 else 0) + Count(a[1..] + b, c);
    } else {
      assert a + b == b;
    }
  }

  /** Position of the first occurrence of `sep` in `s` (`str.find`, `None` for -1). */
  function Find(s: string, sep: string): (r: Option<nat>)
    requires |sep| > 0
    ensures r.Some? ==> OccursAt(s, sep, r.value)
    ensures forall j :: OccursAt(s, sep, j) ==> r.Some? && r.value <= j
    decreases |s|
  {
    if |s| < |sep| then None
    else if s[..|sep|] == sep then Some(0)
    else
      var rest := Find(s[1..], sep);
      assert forall j :: OccursAt(s, sep, j) ==> j > 0 && OccursAt(s[1..], sep, j - 1) by {
        forall j | OccursAt(s, sep, j) ensures j > 0 && OccursAt(s[1..], sep, j - 1) {
          if j > 0 {
            OccursShift(s, sep, j - 1);
          }
        }
      }
      match rest
      case None => None
      case Some(i) =>
        OccursShift(s, sep, i);
        Some(i + 1)
  }

  /** `s.split(sep)` for a non-empty separator: the pieces between the leftmost occurrences. */
  function Split(s: string, sep: string): (r: seq<string>)
    requires |sep| > 0
    ensures |r| > 0
    decreases |s|
  {
    match Find(s, sep)
    case None => [s]
    case Some(i) => [s[..i]] + Split(s[i + |sep|..], sep)
  }

  /** `sep.join(parts)`. */
  function Join(parts: seq<string>, sep: string): string {
    if |parts| == 0 then ""
    else if |parts| == 1 then parts[0]
    else parts[0] + sep + Join(parts[1..], sep)
  }

  /** Splitting on one character yields one piece more than there are occurrences of it. */
  lemma {:induction false} SplitCount(s: string, c: char)
    ensures |Split(s, [c])| == Count(s, c) + 1
    decreases |s|
  {
    match Find(s, [c])
    case None =>
      assert forall j :: 0 <= j < |s| ==> s[j] != c by {
        forall j | 0 <= j < |s| ensures s[j] != c {
          assert s[j..j + 1] == [s[j]];
          assert !OccursAt(s, [c], j);
        }
      }
      CountAbsent(s, c);
    case Some(i) =>
      assert s == s[..i] + [c] + s[i + 1..];
      assert forall j :: 0 <= j < i ==> s[..i][j] != c by {
        forall j | 0 <= j < i ensures s[..i][j] != c {
          assert s[j..j + 1] == [s[j]];
          assert !OccursAt(s, [c], j);
        }
      }
      CountAbsent(s[..i], c);
      CountConcat(s[..i] + [c], s[i + 1..], c);
      CountConcat(s[..i], [c], c);
      SplitCount(s[i + 1..], c);
  }

  /** No piece of `s.split(c)` contains `c`. */
  lemma {:induction false} SplitAvoids(s: string, c: char)
    ensures forall k | 0 <= k < |Split(s, [c])| :: c !in Split(s, [c])[k]
    decreases |s|
  {
    match Find(s, [c])
    case None =>
      forall j | 0 <= j < |s| ensures s[j] != c {
        assert s[j..j + 1] == [s[j]];
        assert !OccursAt(s, [c], j);
      }
    case Some(i) =>
      forall j | 0 <= j < i ensures s[..i][j] != c {
        assert s[j..j + 1] == [s[j]];
        assert !OccursAt(s, [c], j);
      }
      SplitAvoids(s[i + 1..], c);
      assert Split(s, [c]) == [s[..i]] + Split(s[i + 1..], [c]);
  }

  lemma {:induction false} CountAbsent(s: string, c: char)
    requires forall j :: 0 <= j < |s| ==> s[j] != c
    ensures Count(s, c) == 0
    decreases |s|
  {
    if s != [] {
      CountAbsent(s[1..], c);
    }
  }

  /**
   * For a two-character separator whose characters differ, an occurrence of it
   * right after a piece that does not contain it is the first one.
   */
  lemma {:induction false} FindAfterPiece(p: string, sep: string, rest: string)
    requires |sep| == 2 && sep[0] != sep[1]
    requires !Contains(p, sep)
    ensures Find(p + sep + rest, sep) == Some(|p|)
    decreases |p|
  {
    var s := p + sep + rest;
    if p == [] {
      assert s[..|sep|] == sep;
    } else {
      assert s[1..] == p[1..] + sep + rest;
      assert !Contains(p[1..], sep);
      FindAfterPiece(p[1..], sep, rest);
      if |p| >= 2 {
        assert s[..2] == p[..2];
      } else {
        assert s[..2] == [p[0], sep[0]];
      }
    }
  }

  /**
   * `split` undoes `join` when there is at least one piece and no piece contains
   * the separator (for a separator of two different characters, such as ", ").
   */
  lemma {:induction false} SplitJoin(parts: seq<string>, sep: string)
    requires |sep| == 2 && sep[0] != sep[1]
    requires |parts| > 0
    requires forall k :: 0 <= k < |parts| ==> !Contains(parts[k], sep)
    ensures Split(Join(parts, sep), sep) == parts
    decreases |parts|
  {
    if |parts| == 1 {
      var s := parts[0];
      ContainsAt(s, sep);
      if Find(s, sep).Some? {
        assert OccursAt(s, sep, Find(s, sep).value);
      }
    } else {
      var p, tail := parts[0], Join(parts[1..], sep);
      var s := p + sep + tail;
      FindAfterPiece(p, sep, tail);
      assert s[..|p|] == p;
      assert s[|p| + |sep|..] == tail;
      SplitJoin(parts[1..], sep);
      assert Split(s, sep) == [p] + Split(tail, sep);
    }
  }
  /** Python's `<` on strings: code-point lexicographic order, a proper prefix first. */
  predicate StrLess(a: string, b: string)
    decreases |a|
  {
    |b| > 0 && (|a| == 0 || a[0] < b[0] || (a[0] == b[0] && StrLess(a[1..], b[1..])))
  }

  lemma {:induction false} StrLessIrreflexive(a: string)
    ensures !StrLess(a, a)
    decreases |a|
  {
    if |a| > 0 {
      StrLessIrreflexive(a[1..]);
    }
  }

  lemma {:induction false} StrLessTransitive(a: string, b: string, c: string)
    requires StrLess(a, b) && StrLess(b, c)
    ensures StrLess(a, c)
    decreases |a|
  {
    if |a| > 0 && a[0] == b[0] && b[0] == c[0] {
      StrLessTransitive(a[1..], b[1..], c[1..]);
    }
  }

  /** Any two different strings are ordered one way or the other. */
  lemma {:induction false} StrLessTotal(a: string, b: string)
    requires a != b
    ensures StrLess(a, b) || StrLess(b, a)
    decreases |a|
  {
    if |a| > 0 && |b| > 0 && a[0] == b[0] {
      assert a == [a[0]] + a[1..] && b == [b[0]] + b[1..];
      StrLessTotal(a[1..], b[1..]);
    }
  }

  /** Strictly ascending in `StrLess` order. */
  predicate Ascending(s: seq<string>) {
    forall i, j | 0 <= i < j < |s| :: StrLess(s[i], s[j])
  }

  /** Inserts a new string into an ascending sequence at its place. */
  function Insert(x: string, s: seq<string>): (r: seq<string>)
    requires Ascending(s) && x !in s
    ensures Ascending(r) && |r| == |s| + 1
    ensures forall y :: y in r <==> y == x || y in s
  {
    if s == [] then [x]
    else if StrLess(x, s[0]) then
      assert Ascending([x] + s) by {
        forall j | 0 < j < |s| {
          StrLessTransitive(x, s[0], s[j]);
        }
      }
      [x] + s
    else
      StrLessTotal(x, s[0]);
      var rest := Insert(x, s[1..]);
      assert forall y | y in rest :: StrLess(s[0], y);
      [s[0]] + rest
  }

  /** `sorted(keys)` for keys without repetitions (the keys of a dict). */
  function Sorted(keys: seq<string>): (r: seq<string>)
    requires forall i, j | 0 <= i < j < |keys| :: keys[i] != keys[j]
    ensures Ascending(r) && |r| == |keys|
    ensures forall y :: y in r <==> y in keys
  {
    if keys == [] then [] else Insert(keys[0], Sorted(keys[1..]))
  }

  /** Two ascending sequences with the same elements start alike. */
  lemma AscendingHead(a: seq<string>, b: seq<string>)
    requires Ascending(a) && Ascending(b) && a != [] && b != []
    requires forall y :: y in a <==> y in b
    ensures a[0] == b[0]
  {
    assert a[0] in a && b[0] in b;
    var i :| 0 <= i < |b| && b[i] == a[0];
    var j :| 0 <= j < |a| && a[j] == b[0];
    if i != 0 && j != 0 {
      StrLessTransitive(a[0], b[0], a[0]);
      StrLessIrreflexive(a[0]);
      assert false;
    }
  }

  /** A sequence without members is empty. */
  lemma NoMembersEmpty<T>(s: seq<T>)
    ensures (forall y :: y !in s) ==> s == []
  {
    if s != [] {
      assert s[0] in s;
    }
  }

  /** An ascending sequence is determined by its elements. */
  lemma {:induction false} AscendingUnique(a: seq<string>, b: seq<string>)
    requires Ascending(a) && Ascending(b)
    requires forall y :: y in a <==> y in b
    ensures a == b
    decreases |a|
  {
    if a != [] && b != [] {
      AscendingHead(a, b);
      forall y ensures y in a[1..] <==> y in b[1..] {
        if y in a[1..] {
          var k :| 0 < k < |a| && a[k] == y;
          assert StrLess(a[0], y);
          StrLessIrreflexive(y);
          assert y in b;
          var m :| 0 <= m < |b| && b[m] == y;
          assert m > 0 && b[1..][m - 1] == y;
        }
        if y in b[1..] {
          var k :| 0 < k < |b| && b[k] == y;
          assert StrLess(b[0], y);
          StrLessIrreflexive(y);
          assert y in a;
          var m :| 0 <= m < |a| && a[m] == y;
          assert m > 0 && a[1..][m - 1] == y;
        }
      }
      AscendingUnique(a[1..], b[1..]);
    } else {
      NoMembersEmpty(a);
      NoMembersEmpty(b);
    }
  }
}
