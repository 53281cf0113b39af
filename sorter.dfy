/**
 * The file organizer of sorter_manager.py: the transliteration table, `normalize`,
 * `get_extension`, the routing of a file to a subfolder, and (further below) the
 * placement of one file and the one-level walk over a directory.
 */
module Sorter {
  import opened Wrappers
  import opened Text

  // ---------------------------------------------------------------------------
  // The transliteration table (sorter_manager.py:12-20)
  // ---------------------------------------------------------------------------

  /** The 37 lower-case letters, in the order of the source literal. */
  const CyrillicSymbols: string := "абвгдеёжзийклмнопрстуфхцчшщъыьэюяєіїґ"

  /** The 37 replacements, paired with the letters above position by position. */
  const Translation: seq<string> :=
    ["a", "b", "v", "g", "d", "e", "e", "j", "z", "i", "j", "k", "l", "m", "n", "o", "p", "r", "s", "t", "u",
     "f", "h", "ts", "ch", "sh", "sch", "", "y", "", "e", "yu", "u", "ja", "je", "ji", "g"]

  /**
   * The position of a letter in CyrillicSymbols, computed from its code point:
   * а..е and ж..я are two runs of consecutive code points, ё sits between them.
   */
  function LetterIndex(c: char): int {
    if c == 'ё' then 6
    else if c == 'є' then 33
    else if c == 'і' then 34
    else if c == 'ї' then 35
    else if c == 'ґ' then 36
    else if c <= 'е' then c as int - 0x430
    else c as int - 0x430 + 1
  }

  /** What a table entry may map to: at most three ASCII letters. */
  predicate IsReplacement(t: string) {
    |t| <= 3 && forall k | 0 <= k < |t| :: IsAsciiLetter(t[k])
  }

  lemma UpperReplacement(t: string)
    requires IsReplacement(t)
    ensures IsReplacement(Upper(t))
  {
    forall k | 0 <= k < |t| ensures IsAsciiLetter(Upper(t)[k]) {
      assert IsAsciiLetter(t[k]);
    }
  }

  /**
   * Letters the loop can pair up under the case mapping `up`: no letter equals
   * the upper-case form of any letter, and neither the letters nor their
   * upper-case forms repeat.
   */
  predicate Distinct(letters: string, up: char -> char) {
    forall i, j | 0 <= i < |letters| && 0 <= j < |letters| ::
      letters[i] != up(letters[j]) && (i != j ==> letters[i] != letters[j] && up(letters[i]) != up(letters[j]))
  }

  /** Each letter sits at the position LetterIndex computes for it. */
  lemma LetterPositions()
    ensures |CyrillicSymbols| == 37
    ensures forall i | 0 <= i < 37 :: LetterIndex(CyrillicSymbols[i]) == i
  {
  }

  lemma LettersLower()
    ensures |CyrillicSymbols| == 37
    ensures forall i | 0 <= i < 37 :: IsCyrillicLower(CyrillicSymbols[i])
  {
  }

  lemma TranslationShort()
    ensures |Translation| == 37
    ensures forall i | 0 <= i < 37 :: IsReplacement(Translation[i])
  {
  }

  lemma LiteralLengths()
    ensures |CyrillicSymbols| == 37 && |Translation| == 37
  {
  }

  /** The literals of sorter_manager.py:12-14: 37 of each, distinct letters in both cases, short replacements. */
  lemma LiteralFacts()
    ensures |CyrillicSymbols| == 37 && |Translation| == 37
    ensures Distinct(CyrillicSymbols, UpperChar)
    ensures forall i | 0 <= i < 37 :: IsCyrillicLower(CyrillicSymbols[i]) && IsCyrillicUpper(UpperChar(CyrillicSymbols[i]))
    ensures forall i | 0 <= i < 37 :: IsReplacement(Translation[i])
  {
    LetterPositions();
    LettersLower();
    TranslationShort();
    var s := CyrillicSymbols;
    forall i, j | 0 <= i < 37 && 0 <= j < 37
      ensures s[i] != UpperChar(s[j]) && (i != j ==> s[i] != s[j] && UpperChar(s[i]) != UpperChar(s[j]))
    {
      UpperCyrillicInverse(s[i]);
      UpperCyrillicInverse(s[j]);
    }
  }

  /**
   * The dictionary after the first `k` rounds of the loop over
   * `zip(letters, repl)`: each round stores the letter and its upper-case form
   * `up(letter)` (sorter_manager.py:18-20).
   */
  function Table(letters: string, repl: seq<string>, up: char -> char, k: nat): map<char, string>
    requires k <= |letters| <= |repl|
  {
    if k == 0 then map[]
    else
      var c, l := letters[k - 1], repl[k - 1];
      Table(letters, repl, up, k - 1)[c := l][up(c) := Upper(l)]
  }

  /**
   * After `k` rounds the table maps the first `k` letters to their replacements
   * and their upper-case forms to the upper-cased replacements.
   */
  lemma {:induction false} TableValues(letters: string, repl: seq<string>, up: char -> char, k: nat)
    requires k <= |letters| <= |repl| && Distinct(letters, up)
    ensures forall i | 0 <= i < k ::
      (letters[i] in Table(letters, repl, up, k) && Table(letters, repl, up, k)[letters[i]] == repl[i])
    ensures forall i | 0 <= i < k ::
      (up(letters[i]) in Table(letters, repl, up, k) && Table(letters, repl, up, k)[up(letters[i])] == Upper(repl[i]))
  {
    if k > 0 {
      TableValues(letters, repl, up, k - 1);
      var t := Table(letters, repl, up, k - 1);
      var t' := Table(letters, repl, up, k);
      assert t' == t[letters[k - 1] := repl[k - 1]][up(letters[k - 1]) := Upper(repl[k - 1])];
      forall i | 0 <= i < k
        ensures letters[i] in t' && t'[letters[i]] == repl[i]
        ensures up(letters[i]) in t' && t'[up(letters[i])] == Upper(repl[i])
      {
        if i < k - 1 {
          assert t'[letters[i]] == t[letters[i]];
          assert t'[up(letters[i])] == t[up(letters[i])];
        }
      }
    }
  }

  /** The table has no keys but the first `k` letters and their upper-case forms. */
  lemma {:induction false} TableKeys(letters: string, repl: seq<string>, up: char -> char, k: nat)
    requires k <= |letters| <= |repl|
    ensures forall x | x in Table(letters, repl, up, k) ::
      exists i | 0 <= i < k :: x == letters[i] || x == up(letters[i])
  {
    if k > 0 {
      TableKeys(letters, repl, up, k - 1);
      var t := Table(letters, repl, up, k - 1);
      forall x | x in Table(letters, repl, up, k) ensures exists i | 0 <= i < k :: x == letters[i] || x == up(letters[i]) {
        if x in t {
          var i :| 0 <= i < k - 1 && (x == letters[i] || x == up(letters[i]));
        }
      }
    }
  }

  /** With lower-case Cyrillic letters mapped to upper-case ones, every key is a Cyrillic letter. */
  lemma TableCyrillicKeys(letters: string, repl: seq<string>, up: char -> char, k: nat)
    requires k <= |letters| <= |repl|
    requires forall i | 0 <= i < |letters| :: IsCyrillicLower(letters[i]) && IsCyrillicUpper(up(letters[i]))
    ensures forall x | x in Table(letters, repl, up, k) :: IsCyrillicLower(x) || IsCyrillicUpper(x)
  {
    TableKeys(letters, repl, up, k);
  }

  /** With short ASCII replacements, every value of the table is one, in either case. */
  lemma {:induction false} TableReplacements(letters: string, repl: seq<string>, up: char -> char, k: nat)
    requires k <= |letters| <= |repl|
    requires forall i | 0 <= i < |repl| :: IsReplacement(repl[i])
    ensures forall x | x in Table(letters, repl, up, k) :: IsReplacement(Table(letters, repl, up, k)[x])
  {
    if k > 0 {
      TableReplacements(letters, repl, up, k - 1);
      UpperReplacement(repl[k - 1]);
    }
  }

  /** Every round adds two new keys, so after `k` rounds there are `2 * k`. */
  lemma {:induction false} TableSize(letters: string, repl: seq<string>, up: char -> char, k: nat)
    requires k <= |letters| <= |repl| && Distinct(letters, up)
    ensures |Table(letters, repl, up, k)| == 2 * k
  {
    if k > 0 {
      TableSize(letters, repl, up, k - 1);
      TableKeys(letters, repl, up, k - 1);
      var t := Table(letters, repl, up, k - 1);
      var c, u := letters[k - 1], up(letters[k - 1]);
      assert c !in t && u !in t;
      assert |t[c := repl[k - 1]]| == |t| + 1;
      assert u !in t[c := repl[k - 1]];
    }
  }

  /** The finished table `TRANS` (sorter_manager.py:16-20). */
  function Trans(): map<char, string> {
    LiteralFacts();
    Table(CyrillicSymbols, Translation, UpperChar, |CyrillicSymbols|)
  }

  /** The table has 74 keys: each of the 37 letters in both cases. */
  lemma TransSize()
    ensures |Trans()| == 74
  {
    LiteralFacts();
    TableSize(CyrillicSymbols, Translation, UpperChar, 37);
  }

  /** The table pairs the letters with the replacements position by position, in both cases. */
  lemma TransPairs()
    ensures forall i | 0 <= i < 37 ::
      (CyrillicSymbols[i] in Trans() && Trans()[CyrillicSymbols[i]] == Translation[i])
    ensures forall i | 0 <= i < 37 ::
      (UpperChar(CyrillicSymbols[i]) in Trans() && Trans()[UpperChar(CyrillicSymbols[i])] == Upper(Translation[i]))
  {
    LiteralFacts();
    TableValues(CyrillicSymbols, Translation, UpperChar, 37);
  }

  /** Every key is a Cyrillic letter and every replacement at most three ASCII letters. */
  lemma TransKeys()
    ensures forall x | x in Trans() :: IsCyrillicLower(x) || IsCyrillicUpper(x)
    ensures forall x | x in Trans() :: IsReplacement(Trans()[x])
  {
    LiteralFacts();
    TableCyrillicKeys(CyrillicSymbols, Translation, UpperChar, 37);
    TableReplacements(CyrillicSymbols, Translation, UpperChar, 37);
  }

  /**
   * The pairing is by position, not by sound: from я on the Ukrainian letters
   * get the replacements of their neighbours (я→u, є→ja, і→je, ї→ji, ґ→g);
   * the hard and soft signs vanish.
   */
  lemma TransExamples()
    ensures 'я' in Trans() && Trans()['я'] == "u"
    ensures 'є' in Trans() && Trans()['є'] == "ja"
    ensures 'і' in Trans() && Trans()['і'] == "je"
    ensures 'ї' in Trans() && Trans()['ї'] == "ji"
    ensures 'ґ' in Trans() && Trans()['ґ'] == "g"
    ensures 'ъ' in Trans() && Trans()['ъ'] == "" && 'Ь' in Trans() && Trans()['Ь'] == ""
    ensures 'Щ' in Trans() && Trans()['Щ'] == "SCH"
  {
    TransPairs();
    var s := CyrillicSymbols;
    assert s[32] == 'я' && s[33] == 'є' && s[34] == 'і' && s[35] == 'ї' && s[36] == 'ґ';
    assert s[27] == 'ъ' && s[29] == 'ь' && s[26] == 'щ';
    assert UpperChar('ь') == 'Ь' && UpperChar('щ') == 'Щ';
    assert Upper("sch") == "SCH" && Upper("") == "";
  }

  // ---------------------------------------------------------------------------
  // normalize (sorter_manager.py:31-33)
  // ---------------------------------------------------------------------------

  /** `str.translate` with a dictionary from characters to strings. */
  function Translate(table: map<char, string>, s: string): string
    decreases |s|
  {
    if s == [] then []
    else (if s[0] in table then table[s[0]] else [s[0]]) + Translate(table, s[1..])
  }

  /** The characters the pattern `[^a-zA-Z0-9.]` leaves alone. */
  predicate IsKept(c: char) { IsAsciiLetter(c) || IsDigit(c) || c == '.' }

  /** The characters a normalized name is made of: `[A-Za-z0-9._]`. */
  predicate IsNameChar(c: char) { IsKept(c) || c == '_' }

  /** `re.sub(r'[^a-zA-Z0-9.]', '_', s)`. */
  function Sanitize(s: string): string {
    seq(|s|, i requires 0 <= i < |s| => if IsKept(s[i]) then s[i] else '_')
  }

  /** `normalize`: transliterate, then replace every other character by `_`. */
  function Normalize(name: string): (r: string)
    ensures forall k | 0 <= k < |r| :: IsNameChar(r[k])
    ensures name == [] ==> r == []
  {
    Sanitize(Translate(Trans(), name))
  }

  lemma {:induction false} TranslateConcat(table: map<char, string>, a: string, b: string)
    ensures Translate(table, a + b) == Translate(table, a) + Translate(table, b)
    decreases |a|
  {
    if a == [] {
      assert a + b == b;
    } else {
      assert (a + b)[0] == a[0] && (a + b)[1..] == a[1..] + b;
      TranslateConcat(table, a[1..], b);
    }
  }

  /** `normalize` works character by character. */
  lemma NormalizeConcat(a: string, b: string)
    ensures Normalize(a + b) == Normalize(a) + Normalize(b)
  {
    TranslateConcat(Trans(), a, b);
    var ta, tb := Translate(Trans(), a), Translate(Trans(), b);
    assert Sanitize(ta + tb) == Sanitize(ta) + Sanitize(tb);
  }

  /**
   * One character: a table letter becomes its replacement (possibly nothing),
   * an ASCII letter, digit or `.` stays, anything else (`_` included) becomes
   * exactly one `_`. So each character yields at most three.
   */
  lemma NormalizeChar(c: char)
    ensures c in Trans() ==> Normalize([c]) == Trans()[c]
    ensures c !in Trans() && IsKept(c) ==> Normalize([c]) == [c]
    ensures c !in Trans() && !IsKept(c) ==> Normalize([c]) == "_"
    ensures |Normalize([c])| <= 3
  {
    TransKeys();
    assert [c][1..] == [];
    if c in Trans() {
      var t := Trans()[c];
      assert Translate(Trans(), [c]) == t + [];
      assert t + [] == t;
    } else {
      assert Translate(Trans(), [c]) == [c] + [];
    }
  }

  /** Every input character contributes at most three output characters. */
  lemma {:induction false} NormalizeLength(s: string)
    ensures |Normalize(s)| <= 3 * |s|
    decreases |s|
  {
    if s != [] {
      assert s == [s[0]] + s[1..];
      NormalizeConcat([s[0]], s[1..]);
      NormalizeChar(s[0]);
      NormalizeLength(s[1..]);
    }
  }

  /** Names made of `[A-Za-z0-9._]` go through the table untouched. */
  lemma {:induction false} TranslateNameChars(s: string)
    requires forall k | 0 <= k < |s| :: IsNameChar(s[k])
    ensures Translate(Trans(), s) == s
    decreases |s|
  {
    if s != [] {
      TransKeys();
      assert s[0] !in Trans();
      TranslateNameChars(s[1..]);
      assert s == [s[0]] + s[1..];
    }
  }

  /** Normalizing a normalized name changes nothing. */
  lemma NormalizeIdempotent(s: string)
    ensures Normalize(Normalize(s)) == Normalize(s)
  {
    var r := Normalize(s);
    TranslateNameChars(r);
    assert Sanitize(r) == r;
  }

  // ---------------------------------------------------------------------------
  // get_extension (sorter_manager.py:35-36)
  // ---------------------------------------------------------------------------

  /** Index of the last `.` in `s` (`str.rfind('.')`, `None` for -1). */
  function LastDot(s: string): (r: Option<nat>)
    ensures r.Some? ==> r.value < |s| && s[r.value] == '.'
    ensures r.Some? ==> forall k | r.value < k < |s| :: s[k] != '.'
    ensures r.None? ==> forall k | 0 <= k < |s| :: s[k] != '.'
    decreases |s|
  {
    if s == [] then None
    else if s[|s| - 1] == '.' then Some(|s| - 1)
    else LastDot(s[..|s| - 1])
  }

  /** `PurePath(name).suffix` for a final path component `name`. */
  function Suffix(name: string): string {
    match LastDot(name)
    case Some(i) => if 0 < i < |name| - 1 then name[i..] else ""
    case None => ""
  }

  /** `get_extension`: the suffix without its dot, upper-cased. */
  function GetExtension(name: string): string {
    var suffix := Suffix(name);
    Upper(if suffix == "" then "" else suffix[1..])
  }

  /** The extension is the upper-cased text after the last dot, when that dot is neither first nor last. */
  lemma ExtensionAfterLastDot(name: string, i: nat)
    requires 0 < i < |name| - 1 && name[i] == '.'
    requires forall k | i < k < |name| :: name[k] != '.'
    ensures GetExtension(name) == Upper(name[i + 1..])
    ensures forall k | 0 <= k < |GetExtension(name)| :: GetExtension(name)[k] != '.'
  {
    var j := LastDot(name).value;
    assert j == i;
    assert name[i..][1..] == name[i + 1..];
  }

  /** The extension is empty exactly when there is no dot, the only dot comes first, or the name ends with a dot. */
  lemma ExtensionEmpty(name: string)
    ensures GetExtension(name) == "" <==>
      (forall k | 0 <= k < |name| :: name[k] != '.')
      || (|name| > 0 && name[|name| - 1] == '.')
      || (|name| > 0 && name[0] == '.' && forall k | 0 < k < |name| :: name[k] != '.')
  {
    match LastDot(name)
    case None =>
    case Some(i) =>
      if 0 < i < |name| - 1 {
        assert name[i] == '.';
        assert |name[i..][1..]| > 0;
      }
  }

  // ---------------------------------------------------------------------------
  // The extension table and the routing rule (sorter_manager.py:22-28, 39-45)
  // ---------------------------------------------------------------------------

  const KnownExtensions: map<string, set<string>> := map[
    "Images" := {"JPEG", "JPG", "PNG", "SVG"},
    "Video" := {"AVI", "MP4", "MOV", "MKV"},
    "Documents" := {"DOC", "DOCX", "TXT", "PDF", "XLSX", "PPTX"},
    "Audio" := {"MP3", "OGG", "WAV", "AMR"},
    "Archives" := {"ZIP", "GZ", "TAR"}
  ]

  /** The fallback subfolder. */
  const OtherFolder: string := "MY_OTHER"

  /** The 21 extensions of the table, as one flat set. */
  const Listed: set<string> :=
    {"JPEG", "JPG", "PNG", "SVG", "AVI", "MP4", "MOV", "MKV", "DOC", "DOCX", "TXT", "PDF", "XLSX", "PPTX",
     "MP3", "OGG", "WAV", "AMR", "ZIP", "GZ", "TAR"}

  /** `{ext for exts in table.values() for ext in exts}`. */
  function AllExtensions(table: map<string, set<string>>): (r: set<string>)
    ensures forall k, e | k in table && e in table[k] :: e in r
    ensures forall e | e in r :: exists k :: k in table && e in table[k]
  {
    set k, e | k in table && e in table[k] :: e
  }

  /** Every extension of the five categories is in the flat set... */
  lemma ListedCovers()
    ensures Listed <= AllExtensions(KnownExtensions)
  {
    var r := AllExtensions(KnownExtensions);
    assert KnownExtensions["Images"] <= r;
    assert KnownExtensions["Video"] <= r;
    assert KnownExtensions["Documents"] <= r;
    assert KnownExtensions["Audio"] <= r;
    assert KnownExtensions["Archives"] <= r;
  }

  /** ...and the flat set holds nothing else. */
  lemma ListedExact()
    ensures AllExtensions(KnownExtensions) <= Listed
  {
    assert KnownExtensions.Keys == {"Images", "Video", "Documents", "Audio", "Archives"};
    forall e | e in AllExtensions(KnownExtensions) ensures e in Listed {
      var k :| k in KnownExtensions && e in KnownExtensions[k];
      if k == "Images" {
      } else if k == "Video" {
      } else if k == "Documents" {
      } else if k == "Audio" {
      } else {
        assert k == "Archives";
      }
    }
  }

  /** The subfolder a file goes to: named after its extension when known, `MY_OTHER` otherwise. */
  function Subfolder(name: string): string {
    var extension := GetExtension(name);
    if extension in AllExtensions(KnownExtensions) then extension else OtherFolder
  }

  /** Upper-casing leaves no ASCII lower-case letter. */
  lemma UpperHasNoLower(s: string)
    ensures forall k | 0 <= k < |Upper(s)| :: !IsAsciiLower(Upper(s)[k])
  {
  }

  /** The category names, in the order of the dictionary literal. */
  const Categories: seq<string> := ["Images", "Video", "Documents", "Audio", "Archives"]

  /** The table has exactly the five categories as keys. */
  lemma CategoryKeys()
    ensures |Categories| == 5
    ensures forall k :: k in KnownExtensions <==> k in Categories
  {
  }

  /** No extension belongs to two categories. */
  lemma ExtensionsDisjoint()
    ensures forall i, j | 0 <= i < j < |Categories| ::
      KnownExtensions[Categories[i]] !! KnownExtensions[Categories[j]]
  {
    var m, c := KnownExtensions, Categories;
    assert m[c[0]] !! m[c[1]] && m[c[0]] !! m[c[2]] && m[c[0]] !! m[c[3]] && m[c[0]] !! m[c[4]];
    assert m[c[1]] !! m[c[2]] && m[c[1]] !! m[c[3]] && m[c[1]] !! m[c[4]];
    assert m[c[2]] !! m[c[3]] && m[c[2]] !! m[c[4]];
    assert m[c[3]] !! m[c[4]];
  }

  lemma ExtensionSizes()
    ensures |KnownExtensions["Images"]| == 4 && |KnownExtensions["Video"]| == 4
    ensures |KnownExtensions["Documents"]| == 6 && |KnownExtensions["Audio"]| == 4
    ensures |KnownExtensions["Archives"]| == 3
  {
  }

  /** The union of the five sets has 21 members, the sum of their sizes. */
  lemma ListedSize()
    ensures |Listed| == 21
  {
    ExtensionSizes();
    ExtensionsDisjoint();
    ListedUnion();
    var m, c := KnownExtensions, Categories;
    assert c[0] == "Images" && c[1] == "Video" && c[2] == "Documents" && c[3] == "Audio" && c[4] == "Archives";
    var a, b, d, e, f := m[c[0]], m[c[1]], m[c[2]], m[c[3]], m[c[4]];
    DisjointUnion(a, b);
    DisjointUnion(a + b, d);
    DisjointUnion(a + b + d, e);
    DisjointUnion(a + b + d + e, f);
  }

  lemma DisjointUnion(a: set<string>, b: set<string>)
    requires a !! b
    ensures |a + b| == |a| + |b|
  {
  }

  /** The flat set is the union of the five sets. */
  lemma ListedUnion()
    ensures Listed == KnownExtensions["Images"] + KnownExtensions["Video"] + KnownExtensions["Documents"]
      + KnownExtensions["Audio"] + KnownExtensions["Archives"]
  {
  }

  /** Each listed extension is a non-empty word of upper-case letters and digits. */
  lemma ListedNames()
    ensures forall e | e in Listed :: |e| >= 2 && forall k | 0 <= k < |e| :: IsAsciiUpper(e[k]) || IsDigit(e[k])
  {
  }

  /** Each category name has a lower-case letter in second position. */
  lemma CategoryNames()
    ensures forall k | k in KnownExtensions :: |k| > 1 && IsAsciiLower(k[1])
  {
  }

  /**
   * A file goes to the folder named after its own extension when that is one of
   * the 21 listed, and to `MY_OTHER` otherwise (no extension included).
   */
  lemma SubfolderRule(name: string)
    ensures GetExtension(name) in Listed ==> Subfolder(name) == GetExtension(name)
    ensures GetExtension(name) !in Listed ==> Subfolder(name) == OtherFolder
    ensures GetExtension(name) == "" ==> Subfolder(name) == OtherFolder
  {
    ListedCovers();
    ListedExact();
    ListedNames();
  }

  /**
   * A file never goes to a category folder such as `Images`: every category
   * name has a lower-case letter and a subfolder name has none.
   */
  lemma SubfolderNotCategory(name: string)
    ensures Subfolder(name) !in KnownExtensions
  {
    UpperHasNoLower(if Suffix(name) == "" then "" else Suffix(name)[1..]);
    CategoryNames();
    OtherFolderUpper();
  }

  lemma OtherFolderUpper()
    ensures |OtherFolder| > 1 && IsAsciiUpper(OtherFolder[1])
  {
  }

  /** A known extension is matched whatever its case. */
  lemma SubfolderCaseExample()
    ensures Subfolder("photo.jpg") == "JPG"
  {
    ExtensionAfterLastDot("photo.jpg", 5);
    assert Upper("jpg") == "JPG";
    SubfolderRule("photo.jpg");
  }

  /** Only the last suffix counts. */
  lemma SubfolderLastSuffixExample()
    ensures Subfolder("backup.tar.Gz") == "GZ"
  {
    ExtensionAfterLastDot("backup.tar.Gz", 10);
    assert Upper("Gz") == "GZ";
    SubfolderRule("backup.tar.Gz");
  }

  /** A name without a dot, with only a leading dot, or ending in a dot goes to `MY_OTHER`. */
  lemma SubfolderOtherExamples()
    ensures Subfolder("README") == OtherFolder
    ensures Subfolder(".bashrc") == OtherFolder
    ensures Subfolder("song.mp3.") == OtherFolder
  {
    ExtensionEmpty("README");
    SubfolderRule("README");
    ExtensionEmpty(".bashrc");
    SubfolderRule(".bashrc");
    ExtensionEmpty("song.mp3.");
    SubfolderRule("song.mp3.");
  }
}
