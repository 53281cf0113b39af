/**
 * The notes list of the assistant. A note has a text and a list of tags, each
 * stored with a leading `#`. Notes are added from a stream of entries, edited
 * in place by position, searched by text or tag, deleted by a 1-based choice
 * among the matches of a query, and listed grouped by tag.
 */
module Notes {
  import opened Wrappers
  import opened Text
  import opened Lists

  /** How one comma-separated piece of a tag line is stored. */
  function FormatTag(piece: string): (r: string)
    ensures |r| > 0 && r[0] == '#'
  {
    if StartsWith(piece, "#") then
      assert piece[0] == "#"[0];
      StripKeepsHead(piece);
      Strip(piece)
    else "#" + Strip(piece)
  }

  /** The tags made from one input line: one per comma-separated piece, each formatted. */
  function FormatTags(line: string): (r: seq<string>)
    ensures |r| == Count(line, ',') + 1
    ensures forall k | 0 <= k < |r| :: |r[k]| > 0 && r[k][0] == '#'
  {
    var pieces := Split(line, ",");
    SplitCount(line, ',');
    seq(|pieces|, k requires 0 <= k < |pieces| => FormatTag(pieces[k]))
  }

  /** Formatting a stored tag again changes nothing. */
  lemma FormatTagIdempotent(piece: string)
    ensures FormatTag(FormatTag(piece)) == FormatTag(piece)
  {
    var r := FormatTag(piece);
    assert StartsWith(r, "#") by {
      assert r[..1] == [r[0]];
    }
    if StartsWith(piece, "#") {
      StripIdempotent(piece);
    } else {
      StripEdges(piece);
      StripFixed(r);
    }
  }

  /** One leading space is dropped by `strip()` from a string without whitespace at its ends. */
  lemma LeadingSpaceStripped(q: string)
    requires q == [] || (!IsSpace(q[0]) && !IsSpace(q[|q| - 1]))
    ensures Strip(" " + q) == q
  {
    assert " " + q == [' '] + q;
    TrimStartSpace(' ', q);
    StripFixed(q);
  }

  /**
   * The `#` check looks at the raw piece, before stripping: a piece with a
   * space before its `#` gets a second `#`.
   */
  lemma FormatTagSpacedHash(q: string)
    requires StartsWith(q, "#") && !IsSpace(q[|q| - 1])
    ensures FormatTag(" " + q) == "#" + q
  {
    assert q[0] == q[..1][0] == '#';
    assert (" " + q)[..1][0] == ' ';
    LeadingSpaceStripped(q);
  }

  lemma FormatTagSpacedHashExample()
    ensures FormatTag(" #x") == "##x"
  {
    var q := "#x";
    assert q[..1] == "#";
    assert " " + q == " #x" && "#" + q == "##x";
    FormatTagSpacedHash(q);
  }

  /** No stored tag contains a comma. */
  lemma FormatTagsAvoidComma(line: string)
    ensures forall k | 0 <= k < |FormatTags(line)| :: ',' !in FormatTags(line)[k]
  {
    var pieces := Split(line, ",");
    SplitAvoids(line, ',');
    forall k | 0 <= k < |pieces| ensures ',' !in FormatTag(pieces[k]) {
      StripKeepsChars(pieces[k]);
    }
  }

  /** The `tags` column as `dump_notes` writes it. */
  function DumpTags(tags: seq<string>): string {
    Join(tags, ", ")
  }

  /** The tag list as `load_notes` reads the column back. */
  function LoadTags(field: string): (r: seq<string>)
    ensures |r| > 0
  {
    Split(field, ", ")
  }

  /** A non-empty tag list none of whose tags contains ", " survives a dump and a load. */
  lemma TagsRoundTrip(tags: seq<string>)
    requires |tags| > 0
    requires forall k | 0 <= k < |tags| :: !Contains(tags[k], ", ")
    ensures LoadTags(DumpTags(tags)) == tags
  {
    SplitJoin(tags, ", ");
  }

  /** The tags a note gets from a tag line always survive a dump and a load. */
  lemma FormattedTagsRoundTrip(line: string)
    ensures LoadTags(DumpTags(FormatTags(line))) == FormatTags(line)
  {
    var tags := FormatTags(line);
    FormatTagsAvoidComma(line);
    forall k | 0 <= k < |tags| ensures !Contains(tags[k], ", ") {
      if Contains(tags[k], ", ") {
        ContainsHead(tags[k], ", ");
      }
    }
    TagsRoundTrip(tags);
  }

  /** An empty tag list comes back as one empty tag; a tag containing ", " comes back split. */
  lemma TagsRoundTripFails()
    ensures LoadTags(DumpTags([])) == [""]
    ensures LoadTags(DumpTags(["a, b"])) == ["a", "b"]
  {
    var s := "a, b";
    assert s[..2] != ", " by {
      assert s[..2][0] == 'a';
    }
    assert s[1..] == ", b" && ", b"[..2] == ", ";
    assert Find(s, ", ") == Some(1);
    assert s[3..] == "b";
    assert Find("b", ", ") == None;
    assert s[..1] == "a";
    assert Split(s, ", ") == ["a"] + Split("b", ", ");
  }

  /** A note: the text and tags that `edit_note` overwrites in place. */
  class Note {
    var text: string
    var tags: seq<string>

    /** A missing tag list becomes the empty list. */
    constructor(text: string, tags: Option<seq<string>>)
      ensures this.text == text && this.tags == tags.GetOr([])
    {
      this.text := text;
      this.tags := tags.GetOr([]);
    }
  }

  /** The ways a note can match a query. */
  datatype Criterion =
    | ByText(query: string)       // search by text
    | ByTag(query: string)        // search by tag
    | ForDeletion(query: string)  // the match rule of deletion

  predicate Hit(n: Note, c: Criterion)
    reads n
  {
    match c
    case ByText(q) => Contains(Lower(n.text), Lower(q))
    case ByTag(q) => exists k | 0 <= k < |n.tags| :: Contains(Lower(n.tags[k]), Lower(q))
    case ForDeletion(q) => Contains(Lower(n.text), Lower(q)) || Lower(q) in n.tags
  }

  /** The notes of `ns` that match `c`, in list order. */
  function Select(ns: seq<Note>, c: Criterion): (r: seq<Note>)
    reads ns
    ensures IsSubsequence(r, ns)
    ensures forall k | 0 <= k < |r| :: r[k] in ns && Hit(r[k], c)
    ensures forall k | 0 <= k < |ns| && Hit(ns[k], c) :: ns[k] in r
    decreases |ns|
  {
    if ns == [] then []
    else
      var rest := Select(ns[1..], c);
      if Hit(ns[0], c) then [ns[0]] + rest
      else
        rest
  }

  /** The selected notes are exactly the matching notes of the list. */
  lemma SelectMembers(ns: seq<Note>, c: Criterion)
    ensures forall n :: n in Select(ns, c) <==> n in ns && Hit(n, c)
  {
  }

  /** One answer of the add loop: a text and, unless the text stops the loop, a tag line. */
  datatype Entry = Entry(text: string, tagLine: string)

  predicate IsStopWord(text: string) {
    Lower(text) == "закінчити" || Lower(text) == "вийти"
  }

  /** The entries that become notes: those before the first stop word. */
  function Accepted(entries: seq<Entry>): (r: seq<Entry>)
    ensures |r| <= |entries| && r == entries[..|r|]
    ensures forall k | 0 <= k < |r| :: !IsStopWord(r[k].text)
    ensures |r| < |entries| ==> IsStopWord(entries[|r|].text)
  {
    if entries == [] || IsStopWord(entries[0].text) then []
    else [entries[0]] + Accepted(entries[1..])
  }

  lemma AcceptedStep(entries: seq<Entry>, i: nat)
    requires i < |entries| && !IsStopWord(entries[i].text)
    ensures entries[..i] + Accepted(entries[i..]) == entries[..i + 1] + Accepted(entries[i + 1..])
  {
    var rest := entries[i..];
    assert rest[0] == entries[i] && rest[1..] == entries[i + 1..];
    assert Accepted(rest) == [entries[i]] + Accepted(entries[i + 1..]);
    assert entries[..i + 1] == entries[..i] + [entries[i]];
  }

  /** The search query in effect once the keyword has been read. */
  function TextQuery(keyword: string, query: string, given: Option<string>): Option<string> {
    if keyword == "текст" then Some(query) else given
  }

  function TagQuery(keyword: string, query: string, given: Option<string>): Option<string> {
    if keyword == "текст" then given else if keyword == "тег" then Some(query) else given
  }

  /** With no query given beforehand, the keyword alone decides which search runs. */
  lemma KeywordDispatch(keyword: string, query: string)
    ensures TextQuery(keyword, query, None) == if keyword == "текст" then Some(query) else None
    ensures TagQuery(keyword, query, None) == if keyword == "тег" then Some(query) else None
  {
    assert "текст" != "тег" by {
      assert |"текст"| == 5 && |"тег"| == 3;
    }
  }

  /** A note found by the text query or by the tag query, whichever are given. */
  predicate SearchHit(n: Note, textQuery: Option<string>, tagQuery: Option<string>)
    reads n
  {
    (textQuery.Some? && Hit(n, ByText(textQuery.value))) || (tagQuery.Some? && Hit(n, ByTag(tagQuery.value)))
  }

  /** The search result: the text matches, then the tag matches. */
  function Matching(ns: seq<Note>, textQuery: Option<string>, tagQuery: Option<string>): seq<Note>
    reads ns
  {
    (match textQuery case Some(q) => Select(ns, ByText(q)) case None => [])
    + (match tagQuery case Some(q) => Select(ns, ByTag(q)) case None => [])
  }

  /** A note is in the search result exactly when it is stored and one of the given queries hits it. */
  lemma MatchingMembers(ns: seq<Note>, textQuery: Option<string>, tagQuery: Option<string>)
    ensures forall n :: n in Matching(ns, textQuery, tagQuery) <==> n in ns && SearchHit(n, textQuery, tagQuery)
  {
    SelectMembers(ns, ByText(textQuery.GetOr("")));
    SelectMembers(ns, ByTag(tagQuery.GetOr("")));
  }

  /**
   * With no query given beforehand, `текст` searches the texts, `тег` the
   * tags, and any other keyword finds nothing.
   */
  lemma MatchingDispatch(ns: seq<Note>, keyword: string, query: string)
    ensures Matching(ns, TextQuery(keyword, query, None), TagQuery(keyword, query, None))
      == if keyword == "текст" then Select(ns, ByText(query))
         else if keyword == "тег" then Select(ns, ByTag(query))
         else []
  {
    KeywordDispatch(keyword, query);
    if keyword == "текст" {
      assert Select(ns, ByText(query)) + [] == Select(ns, ByText(query));
    } else if keyword == "тег" {
      assert [] + Select(ns, ByTag(query)) == Select(ns, ByTag(query));
    }
  }

  /** The notes carrying `tag`, a note once per occurrence of `tag` in its tags. */
  function Occurrences(n: Note, tags: seq<string>, tag: string): (r: seq<Note>)
    ensures forall k | 0 <= k < |r| :: r[k] == n && tag in tags
    ensures tag in tags ==> n in r
  {
    if tags == [] then []
    else Occurrences(n, tags[..|tags| - 1], tag) + (if tags[|tags| - 1] == tag then [n] else [])
  }

  /** The note is filed under `tag` exactly as many times as `tag` occurs in its tags. */
  lemma {:induction false} OccurrencesCount(n: Note, tags: seq<string>, tag: string)
    ensures |Occurrences(n, tags, tag)| == multiset(tags)[tag]
    decreases |tags|
  {
    if tags != [] {
      OccurrencesCount(n, tags[..|tags| - 1], tag);
      assert tags == tags[..|tags| - 1] + [tags[|tags| - 1]];
    }
  }

  lemma OccurrencesStep(n: Note, tags: seq<string>, j: nat, tag: string)
    requires j < |tags|
    ensures Occurrences(n, tags[..j + 1], tag) == Occurrences(n, tags[..j], tag) + (if tags[j] == tag then [n] else [])
  {
    assert tags[..j + 1][..j] == tags[..j];
  }

  /** The notes listed under `tag`, in list order, once per occurrence of the tag. */
  function Tagged(ns: seq<Note>, tag: string): (r: seq<Note>)
    reads ns
    ensures forall k | 0 <= k < |r| :: r[k] in ns && tag in r[k].tags
    ensures forall k | 0 <= k < |ns| && tag in ns[k].tags :: ns[k] in r
  {
    if ns == [] then []
    else
      var last := ns[|ns| - 1];
      var front := Tagged(ns[..|ns| - 1], tag);
      assert forall k | 0 <= k < |ns| - 1 :: ns[k] == ns[..|ns| - 1][k];
      front + Occurrences(last, last.tags, tag)
  }

  /** Tagging one more note of the list adds its occurrences at the end. */
  lemma TaggedStep(ns: seq<Note>, i: nat, tag: string)
    requires i < |ns|
    ensures Tagged(ns[..i + 1], tag) == Tagged(ns[..i], tag) + Occurrences(ns[i], ns[i].tags, tag)
  {
    assert ns[..i + 1][..i] == ns[..i];
  }

  /**
   * `byTag` files the notes of `done`, then `note` once per occurrence in
   * `tags`, under each tag; a tag without notes has no entry.
   */
  ghost predicate Grouping(byTag: map<string, seq<Note>>, done: seq<Note>, note: Note, tags: seq<string>)
    reads done
  {
    forall t ::
      && (t in byTag ==> byTag[t] == Tagged(done, t) + Occurrences(note, tags, t) && byTag[t] != [])
      && (t !in byTag ==> Tagged(done, t) + Occurrences(note, tags, t) == [])
  }

  /** `byTag` files the notes of `done` under each tag; a tag without notes has no entry. */
  ghost predicate Grouped(byTag: map<string, seq<Note>>, done: seq<Note>)
    reads done
  {
    forall t ::
      && (t in byTag ==> byTag[t] == Tagged(done, t) && byTag[t] != [])
      && (t !in byTag ==> Tagged(done, t) == [])
  }

  lemma GroupingStart(byTag: map<string, seq<Note>>, done: seq<Note>, note: Note)
    requires Grouped(byTag, done)
    ensures Grouping(byTag, done, note, [])
  {
    assert forall t :: Tagged(done, t) + Occurrences(note, [], t) == Tagged(done, t);
  }

  /** `keys` lists the keys of `byTag`, each once. */
  ghost predicate KeyOrder(keys: seq<string>, byTag: map<string, seq<Note>>) {
    && (forall t :: t in keys <==> t in byTag)
    && (forall a, b | 0 <= a < b < |keys| :: keys[a] != keys[b])
  }

  /** One step of the inner loop keeps the grouping. */
  lemma GroupingStep(before: map<string, seq<Note>>, done: seq<Note>, note: Note, tags: seq<string>, j: nat)
    requires j < |tags| && Grouping(before, done, note, tags[..j])
    ensures Grouping(before[tags[j] := (if tags[j] in before then before[tags[j]] else []) + [note]],
                     done, note, tags[..j + 1])
  {
    forall t {
      OccurrencesStep(note, tags, j, t);
    }
  }

  /** Moving on to the next note of the list keeps the grouping. */
  lemma GroupingNext(byTag: map<string, seq<Note>>, ns: seq<Note>, i: nat)
    requires i < |ns| && Grouping(byTag, ns[..i], ns[i], ns[i].tags)
    ensures Grouped(byTag, ns[..i + 1])
  {
    forall t {
      TaggedStep(ns, i, t);
    }
  }

  /**
   * The inner loop of the grouping: files `note` under each of its tags, a new
   * tag getting an empty list first and its key appended after the earlier ones.
   */
  method FileUnderTags(note: Note, ghost done: seq<Note>, byTag0: map<string, seq<Note>>, keys0: seq<string>)
    returns (byTag: map<string, seq<Note>>, keyOrder: seq<string>)
    requires Grouped(byTag0, done) && KeyOrder(keys0, byTag0)
    ensures Grouping(byTag, done, note, note.tags) && KeyOrder(keyOrder, byTag)
    ensures |keys0| <= |keyOrder| && keyOrder[..|keys0|] == keys0
    ensures forall k | |keys0| <= k < |keyOrder| :: keyOrder[k] in note.tags
  {
    byTag, keyOrder := byTag0, keys0;
    GroupingStart(byTag, done, note);
    var j := 0;
    while j < |note.tags|
      invariant 0 <= j <= |note.tags|
      invariant Grouping(byTag, done, note, note.tags[..j]) && KeyOrder(keyOrder, byTag)
      invariant |keys0| <= |keyOrder| && keyOrder[..|keys0|] == keys0
      invariant forall k | |keys0| <= k < |keyOrder| :: keyOrder[k] in note.tags[..j]
    {
      var tag := note.tags[j];
      GroupingStep(byTag, done, note, note.tags, j);
      if tag !in byTag {
        byTag := byTag[tag := []];
        keyOrder := keyOrder + [tag];
      }
      byTag := byTag[tag := byTag[tag] + [note]];
      j := j + 1;
    }
    assert note.tags[..j] == note.tags;
  }

  predicate HasTag(ns: seq<Note>, tag: string)
    reads ns
  {
    exists k | 0 <= k < |ns| :: tag in ns[k].tags
  }

  lemma TaggedNonEmpty(ns: seq<Note>, tag: string)
    ensures Tagged(ns, tag) != [] <==> HasTag(ns, tag)
  {
    var r := Tagged(ns, tag);
    if r != [] {
      assert r[0] in r;
    }
    NoMembersEmpty(r);
  }

  /** One line of the tag table. */
  datatype Row = Row(tag: string, text: string)

  /** The rows shown under one tag. */
  function Group(tag: string, ms: seq<Note>): (r: seq<Row>)
    reads ms
    ensures |r| == |ms| && forall k | 0 <= k < |r| :: r[k].tag == tag
  {
    if ms == [] then [] else Group(tag, ms[..|ms| - 1]) + [Row(tag, ms[|ms| - 1].text)]
  }

  /** The inner display loop: one row per note filed under `tag`. */
  method AddRows(rows0: seq<Row>, tag: string, tagNotes: seq<Note>) returns (rows: seq<Row>)
    ensures rows == rows0 + Group(tag, tagNotes)
  {
    rows := rows0;
    var b := 0;
    while b < |tagNotes|
      invariant 0 <= b <= |tagNotes|
      invariant rows == rows0 + Group(tag, tagNotes[..b])
    {
      assert tagNotes[..b + 1][..b] == tagNotes[..b];
      rows := rows + [Row(tag, tagNotes[b].text)];
      b := b + 1;
    }
    assert tagNotes[..b] == tagNotes;
  }

  /** The whole table: for each tag in turn, the notes carrying it. */
  function Listing(tags: seq<string>, ns: seq<Note>): seq<Row>
    reads ns
  {
    if tags == [] then []
    else Listing(tags[..|tags| - 1], ns) + Group(tags[|tags| - 1], Tagged(ns, tags[|tags| - 1]))
  }

  lemma ListingStep(tags: seq<string>, a: nat, ns: seq<Note>)
    requires a < |tags|
    ensures Listing(tags[..a + 1], ns) == Listing(tags[..a], ns) + Group(tags[a], Tagged(ns, tags[a]))
  {
    assert tags[..a + 1][..a] == tags[..a];
  }

  /** The display loop: for each tag in `tags`, a row per note filed under it. */
  method Display(tags: seq<string>, byTag: map<string, seq<Note>>, ns: seq<Note>) returns (rows: seq<Row>)
    requires forall t | t in tags :: t in byTag && byTag[t] == Tagged(ns, t)
    ensures rows == Listing(tags, ns)
  {
    rows := [];
    for a := 0 to |tags|
      invariant rows == Listing(tags[..a], ns)
    {
      ListingStep(tags, a, ns);
      rows := AddRows(rows, tags[a], byTag[tags[a]]);
    }
    assert tags[..|tags|] == tags;
  }

  /** Every row carries one of the listed tags, and ascending tags give an ordered tag column. */
  lemma {:induction false} ListingOrdered(tags: seq<string>, ns: seq<Note>)
    requires Ascending(tags)
    ensures forall i | 0 <= i < |Listing(tags, ns)| :: Listing(tags, ns)[i].tag in tags
    ensures forall i, j | 0 <= i < j < |Listing(tags, ns)| ::
      Listing(tags, ns)[i].tag == Listing(tags, ns)[j].tag || StrLess(Listing(tags, ns)[i].tag, Listing(tags, ns)[j].tag)
    decreases |tags|
  {
    if tags != [] {
      var init, last := tags[..|tags| - 1], tags[|tags| - 1];
      assert Ascending(init);
      ListingOrdered(init, ns);
      var front, group := Listing(init, ns), Group(last, Tagged(ns, last));
      var rows := front + group;
      assert rows == Listing(tags, ns);
      assert forall i | 0 <= i < |front| :: front[i].tag in init;
      forall i | 0 <= i < |front| ensures rows[i].tag in tags && StrLess(rows[i].tag, last) {
        assert front[i].tag in init;
        var m :| 0 <= m < |init| && init[m] == front[i].tag;
        assert tags[m] == init[m];
      }
      forall i | |front| <= i < |rows| ensures rows[i].tag == last {
        assert rows[i] == group[i - |front|];
      }
    }
  }

  /** The notes list, changed in place. */
  class NotesManager {
    var notes: seq<Note>

    /** Every note object is in the list once. */
    ghost predicate Valid()
      reads this
    {
      Distinct(notes)
    }

    constructor(loaded: seq<Note>)
      requires Distinct(loaded)
      ensures notes == loaded && Valid()
    {
      notes := loaded;
    }

    /** `notes.append(note)` for a note not yet in the list. */
    method Append(note: Note)
      requires Valid() && note !in notes
      modifies this
      ensures Valid() && notes == old(notes) + [note]
    {
      notes := notes + [note];
    }

    /**
     * `add_note`: one new note at the end per entry, up to the first entry
     * whose text is a stop word; earlier notes are left as they were.
     */
    method AddNote(entries: seq<Entry>)
      requires Valid()
      modifies this
      ensures Valid()
      ensures |notes| == |old(notes)| + |Accepted(entries)|
      ensures notes[..|old(notes)|] == old(notes)
      ensures forall k | 0 <= k < |old(notes)| :: notes[k].text == old(notes[k].text) && notes[k].tags == old(notes[k].tags)
      ensures forall k | |old(notes)| <= k < |notes| ::
        && fresh(notes[k])
        && notes[k].text == Accepted(entries)[k - |old(notes)|].text
        && notes[k].tags == FormatTags(Accepted(entries)[k - |old(notes)|].tagLine)
    {
      var i := 0;
      while i < |entries| && !IsStopWord(entries[i].text)
        invariant 0 <= i <= |entries|
        invariant Accepted(entries) == entries[..i] + Accepted(entries[i..])
        invariant Valid()
        invariant |notes| == |old(notes)| + i && notes[..|old(notes)|] == old(notes)
        invariant forall k | |old(notes)| <= k < |notes| ::
          && fresh(notes[k])
          && notes[k].text == entries[k - |old(notes)|].text
          && notes[k].tags == FormatTags(entries[k - |old(notes)|].tagLine)
      {
        AcceptedStep(entries, i);
        var formatted := FormatTags(entries[i].tagLine);
        var note := new Note(entries[i].text, Some(formatted));
        Append(note);
        i := i + 1;
      }
    }

    /** `edit_note`: a valid position gets the new text and tags; any other index changes nothing. */
    method EditNote(index: int, newText: string, tagLine: string)
      requires Valid()
      modifies if 0 <= index < |notes| then {notes[index]} else {}
      ensures notes == old(notes) && Valid()
      ensures 0 <= index < |notes| ==> notes[index].text == newText && notes[index].tags == FormatTags(tagLine)
      ensures forall k | 0 <= k < |notes| && k != index ::
        notes[k].text == old(notes[k].text) && notes[k].tags == old(notes[k].tags)
    {
      if 0 <= index < |notes| {
        var note := notes[index];
        note.text := newText;
        note.tags := FormatTags(tagLine);
      }
    }

    /**
     * `search_notes`: the keyword `текст` sets the text query and `тег` the tag
     * query; the text matches come first, then the tag matches.
     */
    method SearchNotes(keyword: string, query: string, textQuery: Option<string>, tagQuery: Option<string>)
      returns (found: seq<Note>)
      ensures found == Matching(notes, TextQuery(keyword, query, textQuery), TagQuery(keyword, query, tagQuery))
      ensures forall n :: n in found <==>
        n in notes && SearchHit(n, TextQuery(keyword, query, textQuery), TagQuery(keyword, query, tagQuery))
    {
      var tq, gq := TextQuery(keyword, query, textQuery), TagQuery(keyword, query, tagQuery);
      found := Matching(notes, tq, gq);
      MatchingMembers(notes, tq, gq);
    }

    /**
     * `delete_note`: among the notes matching `query`, a choice `1..n` removes
     * that match; 0, unparsable input (`None`) or a choice out of range keeps
     * the list.
     */
    method DeleteNote(query: string, choice: Option<int>) returns (deleted: Option<Note>)
      requires Valid()
      modifies this
      ensures Valid()
      ensures var matching, k := old(Select(notes, ForDeletion(query))), choice.GetOr(0);
        if 0 < k <= |matching| then deleted == Some(matching[k - 1]) && notes == RemoveFirst(old(notes), matching[k - 1])
        else deleted == None && notes == old(notes)
      ensures deleted.Some? ==>
        && |notes| == |old(notes)| - 1
        && forall n :: n in notes <==> n in old(notes) && n != deleted.value
    {
      var matching := Select(notes, ForDeletion(query));
      deleted := None;
      if |matching| > 0 {
        var k := choice.GetOr(0);
        if 0 < k <= |matching| {
          var victim := matching[k - 1];
          RemoveDistinct(notes, victim);
          notes := RemoveFirst(notes, victim);
          deleted := Some(victim);
        }
      }
    }

    /** The tag dictionary: each tag with the notes carrying it, and its keys, each listed once. */
    method GroupByTag() returns (byTag: map<string, seq<Note>>, keyOrder: seq<string>)
      ensures forall t :: t in byTag <==> Tagged(notes, t) != []
      ensures forall t | t in byTag :: byTag[t] == Tagged(notes, t)
      ensures KeyOrder(keyOrder, byTag)
    {
      byTag, keyOrder := map[], [];
      var i := 0;
      while i < |notes|
        invariant 0 <= i <= |notes|
        invariant Grouped(byTag, notes[..i]) && KeyOrder(keyOrder, byTag)
      {
        byTag, keyOrder := FileUnderTags(notes[i], notes[..i], byTag, keyOrder);
        GroupingNext(byTag, notes, i);
        i := i + 1;
      }
      assert notes[..i] == notes;
    }

    /**
     * `sort_notes_by_tags`: the tags in ascending order, and under each tag the
     * notes carrying it, in list order, once per occurrence.
     */
    method SortNotesByTags() returns (sortedTags: seq<string>, rows: seq<Row>)
      ensures Ascending(sortedTags)
      ensures forall t :: t in sortedTags <==> HasTag(notes, t)
      ensures rows == Listing(sortedTags, notes)
      ensures notes == [] ==> rows == []
    {
      if notes == [] {
        return [], [];
      }
      var byTag, keyOrder := GroupByTag();
      forall t ensures t in keyOrder <==> HasTag(notes, t) {
        TaggedNonEmpty(notes, t);
      }
      sortedTags := Sorted(keyOrder);
      rows := Display(sortedTags, byTag, notes);
    }

  }
}
