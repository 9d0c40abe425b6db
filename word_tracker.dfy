/**
 * The word tracker's processing of one input file into the tree of
 * records, the lookup of a record by key, and the writing of the report
 * in one of its three formats.
 */
module Tracker {
  import opened Outcomes
  import opened JavaText
  import opened Words
  import opened TreeNodes
  import opened Trees
  import opened LineCleaning
  import opened Ingest

  // ---------------------------------------------------------------------
  // The tree's records as an index
  // ---------------------------------------------------------------------

  /** Each record's key with its occurrence state, in the order given. */
  function Snapshot(ws: seq<Word>): (r: seq<(string, Tally)>)
    reads ws
    ensures |r| == |ws|
  {
    seq(|ws|, i reads ws requires 0 <= i < |ws| => (ws[i].word, ws[i].State()))
  }

  /** The pairs as a map from key to state, a later pair overriding an earlier one. */
  function ToIndex(s: seq<(string, Tally)>): Index
  {
    if |s| == 0 then map[] else ToIndex(s[..|s| - 1])[s[|s| - 1].0 := s[|s| - 1].1]
  }

  predicate DistinctKeys(s: seq<(string, Tally)>)
  {
    forall i, j :: 0 <= i < j < |s| ==> s[i].0 != s[j].0
  }

  function KeysOf(s: seq<(string, Tally)>): set<string>
  {
    set i | 0 <= i < |s| :: s[i].0
  }

  /** With distinct keys, the map holds exactly the keys of the pairs, each with its own state. */
  lemma {:induction false} ToIndexHolds(s: seq<(string, Tally)>)
    requires DistinctKeys(s)
    ensures ToIndex(s).Keys == KeysOf(s)
    ensures forall i :: 0 <= i < |s| ==> ToIndex(s)[s[i].0] == s[i].1
    decreases |s|
  {
    if |s| > 0 {
      var init := s[..|s| - 1];
      ToIndexHolds(init);
      assert KeysOf(s) == KeysOf(init) + {s[|s| - 1].0} by {
        assert forall i :: 0 <= i < |s| - 1 ==> s[i] == init[i];
      }
    }
  }

  /** Replacing the state at one position of distinct keys updates the map at that key. */
  lemma {:induction false} ToIndexUpdate(s: seq<(string, Tally)>, i: nat, t: Tally)
    requires DistinctKeys(s) && i < |s|
    ensures ToIndex(s[i := (s[i].0, t)]) == ToIndex(s)[s[i].0 := t]
    decreases |s|
  {
    var s', init, last := s[i := (s[i].0, t)], s[..|s| - 1], s[|s| - 1];
    if i == |s| - 1 {
      assert s'[..|s'| - 1] == init;
    } else {
      assert DistinctKeys(init);
      ToIndexUpdate(init, i, t);
      assert s'[..|s'| - 1] == init[i := (s[i].0, t)];
      assert s[i].0 != last.0;
    }
  }

  /** Inserting a pair whose key is new anywhere adds that key to the map. */
  lemma {:induction false} ToIndexInsert(a: seq<(string, Tally)>, b: seq<(string, Tally)>, k: string, t: Tally)
    requires forall j :: 0 <= j < |b| ==> b[j].0 != k
    ensures ToIndex(a + [(k, t)] + b) == ToIndex(a + b)[k := t]
    decreases |b|
  {
    if |b| == 0 {
      assert a + [(k, t)] + b == a + [(k, t)];
      assert a + b == a;
    } else {
      var init, last := b[..|b| - 1], b[|b| - 1];
      ToIndexInsert(a, init, k, t);
      assert (a + [(k, t)] + b)[..|a| + |b|] == a + [(k, t)] + init;
      assert (a + b)[..|a| + |b| - 1] == a + init;
    }
  }

  /** An ascending sequence of records gives distinct keys, the keys the tree holds. */
  lemma SnapshotOfAscending(ws: seq<Word>)
    requires Ascending(ws)
    ensures DistinctKeys(Snapshot(ws))
    ensures KeysOf(Snapshot(ws)) == KeySet(ws)
  {
    var s := Snapshot(ws);
    forall i, j | 0 <= i < j < |s|
      ensures s[i].0 != s[j].0
    {
      AscendingDistinct(ws, i, j);
    }
    forall k | k in KeySet(ws)
      ensures k in KeysOf(s)
    {
      var w :| w in ws && w.word == k;
      var i :| 0 <= i < |ws| && ws[i] == w;
      assert s[i].0 == k;
    }
  }

  /** The index the tree's records make up: each key with its record's state. */
  ghost function IndexOf(tree: BSTree): Index
    reads tree, tree.Repr, tree.Elements()
    requires tree.Valid()
  {
    ToIndex(Snapshot(tree.Elements()))
  }

  /** The index holds exactly the tree's keys. */
  lemma IndexOfKeys(tree: BSTree)
    requires tree.Valid()
    ensures IndexOf(tree).Keys == KeySet(tree.Elements())
  {
    var ws := tree.Elements();
    InOrderIsSorted(tree);
    SnapshotOfAscending(ws);
    ToIndexHolds(Snapshot(ws));
  }

  /** Each record's key maps to that record's state. */
  lemma IndexOfHolds(tree: BSTree)
    requires tree.Valid()
    ensures forall w :: w in tree.Elements() ==> w.word in IndexOf(tree) && IndexOf(tree)[w.word] == w.State()
  {
    var ws := tree.Elements();
    InOrderIsSorted(tree);
    SnapshotOfAscending(ws);
    ToIndexHolds(Snapshot(ws));
    forall w | w in ws
      ensures IndexOf(tree)[w.word] == w.State()
    {
      var i :| 0 <= i < |ws| && ws[i] == w;
      assert Snapshot(ws)[i] == (w.word, w.State());
    }
  }

  /** The tree's size is the number of keys in its index. */
  lemma SizeIsKeyCount(tree: BSTree)
    requires tree.Valid()
    ensures |IndexOf(tree)| == tree.Size()
  {
    IndexOfKeys(tree);
    InOrderIsSorted(tree);
    assert IndexOf(tree).Keys == KeySet(tree.Elements());
  }

  // ---------------------------------------------------------------------
  // findWordInTree
  // ---------------------------------------------------------------------

  /** findWordInTree(target): the tree's record with the target's key, or null when there is none. */
  function FindWordInTree(tree: BSTree, target: Word): (r: Word?)
    reads tree, tree.Repr
    requires tree.Valid()
    ensures r != null <==> target.word in KeySet(tree.Elements())
    ensures r != null ==> r in tree.Elements() && r.word == target.word
  {
    if tree.Contains(target) == Ok(true) then
      var found := tree.Search(target).value;
      found.GetData()
    else null
  }

  // ---------------------------------------------------------------------
  // processInputFile
  // ---------------------------------------------------------------------

  /** The records the tree holds, as the objects a change to their states may touch. */
  ghost function Records(tree: BSTree): set<Word>
    reads tree, tree.Repr
    requires tree.Valid()
  {
    set w | w in tree.Elements()
  }

  /** Every record the tree holds now was held on entry or has been created since. */
  twostate predicate RecordsKnown(tree: BSTree)
    reads tree, tree.Repr
    requires old(tree.Valid()) && tree.Valid()
  {
    forall w :: w in tree.Elements() ==> w in old(tree.Elements()) || fresh(w)
  }

  /** A record the tree holds: its in-order position, which no other record takes, and its pair in the index. */
  lemma HeldRecord(tree: BSTree, w: Word) returns (i: nat)
    requires tree.Valid() && w in tree.Elements()
    ensures i < |tree.Elements()| && tree.Elements()[i] == w
    ensures forall j :: 0 <= j < |tree.Elements()| && j != i ==> tree.Elements()[j] != w
    ensures DistinctKeys(Snapshot(tree.Elements()))
    ensures w.word in IndexOf(tree) && IndexOf(tree)[w.word] == w.State()
  {
    var ws := tree.Elements();
    SnapshotOfAscending(ws);
    ToIndexHolds(Snapshot(ws));
    i :| 0 <= i < |ws| && ws[i] == w;
    assert Snapshot(ws)[i] == (w.word, w.State());
    forall j | 0 <= j < |ws| && j != i
      ensures ws[j] != w
    {
      AscendingDistinct(ws, i, j);
    }
  }

  /** Records that keep the pairs of a snapshot at every position but one have that snapshot updated there. */
  lemma SnapshotReplace(ws: seq<Word>, i: int, before: seq<(string, Tally)>)
    requires 0 <= i < |ws| == |before|
    requires forall j :: 0 <= j < |ws| && j != i ==> before[j] == (ws[j].word, ws[j].State())
    ensures Snapshot(ws) == before[i := (ws[i].word, ws[i].State())]
  {
  }

  /** A token whose key is already held adds an occurrence to that record; only its state changes. */
  method AddToExisting(tree: BSTree, existing: Word, filename: string, lineNumber: int)
    requires tree.Valid() && existing in tree.Elements()
    modifies existing
    ensures tree.Valid() && tree.Elements() == old(tree.Elements())
    ensures IndexOf(tree) == Record(old(IndexOf(tree)), existing.word, filename, lineNumber)
  {
    ghost var ws := tree.Elements();
    ghost var i := HeldRecord(tree, existing);
    ghost var before := Snapshot(ws);
    existing.AddOccurrence(filename, lineNumber);
    assert tree.Valid() && tree.Elements() == ws;
    SnapshotReplace(ws, i, before);
    ToIndexUpdate(before, i, existing.State());
  }

  /** A record whose key the records after it do not have adds its key and state to their index. */
  lemma IndexAfterInsert(front: seq<Word>, back: seq<Word>, word: Word)
    requires forall j :: 0 <= j < |back| ==> back[j].word != word.word
    ensures ToIndex(Snapshot(front + [word] + back)) == ToIndex(Snapshot(front + back))[word.word := word.State()]
  {
    assert Snapshot(front + [word] + back) == Snapshot(front) + [(word.word, word.State())] + Snapshot(back);
    assert Snapshot(front + back) == Snapshot(front) + Snapshot(back);
    ToIndexInsert(Snapshot(front), Snapshot(back), word.word, word.State());
  }

  /** Inserting a record with a new key anywhere among records adds just that key and state to their index. */
  lemma InsertedRecords(ws: seq<Word>, pos: nat, word: Word, els: seq<Word>)
    requires pos <= |ws| && els == ws[..pos] + [word] + ws[pos..]
    requires word.word !in KeySet(ws)
    ensures forall w :: w in els ==> w in ws || w == word
    ensures ToIndex(Snapshot(els)) == ToIndex(Snapshot(ws))[word.word := word.State()]
  {
    var front, back := ws[..pos], ws[pos..];
    assert ws == front + back;
    forall j | 0 <= j < |back|
      ensures back[j].word != word.word
    {
      assert back[j] in ws;
    }
    IndexAfterInsert(front, back, word);
  }

  /** Adding a record whose key is new to the tree: the record joins the index with its state. */
  method InsertRecord(tree: BSTree, word: Word)
    requires tree.Valid() && word.word !in KeySet(tree.Elements())
    modifies tree, tree.Repr
    ensures tree.Valid() && fresh(tree.Repr - old(tree.Repr))
    ensures forall w :: w in tree.Elements() ==> w in old(tree.Elements()) || w == word
    ensures tree.Size() == old(tree.Size()) + 1
    ensures IndexOf(tree) == old(IndexOf(tree))[word.word := word.State()]
  {
    ghost var ws := tree.Elements();
    ghost var before := Snapshot(ws);
    var r, pos := tree.Add(word);
    assert Snapshot(ws) == before;
    InsertedRecords(ws, pos, word, tree.Elements());
  }

  /** A token with a new key: a fresh record takes its first occurrence, then joins the tree. */
  method AddNewWord(tree: BSTree, word: Word, filename: string, lineNumber: int)
    requires tree.Valid() && word.word !in KeySet(tree.Elements()) && word.State() == NoOccurrences
    modifies tree, tree.Repr, word
    ensures tree.Valid() && fresh(tree.Repr - old(tree.Repr))
    ensures forall w :: w in tree.Elements() ==> w in old(tree.Elements()) || w == word
    ensures tree.Size() == old(tree.Size()) + 1
    ensures IndexOf(tree) == Record(old(IndexOf(tree)), word.word, filename, lineNumber)
  {
    assert Lookup(IndexOf(tree), word.word) == NoOccurrences by {
      IndexOfKeys(tree);
    }
    assert word !in tree.Elements();
    word.AddOccurrence(filename, lineNumber);
    InsertRecord(tree, word);
  }

  /**
   * One non-empty word of a line (the body of the token loop): a new
   * record for its lower-cased key, the existing record's addOccurrence
   * when the key is present, otherwise the new record's addOccurrence and
   * its insertion. The result says whether a record was added.
   */
  method RecordWord(tree: BSTree, filename: string, lineNumber: int, wordStr: string) returns (added: bool)
    requires tree.Valid()
    modifies tree, tree.Repr, Records(tree)
    ensures tree.Valid() && RecordsKnown(tree) && (forall n :: n in tree.Repr ==> n in old(tree.Repr) || fresh(n))
    ensures added <==> ToLower(wordStr) !in old(IndexOf(tree))
    ensures tree.Size() == old(tree.Size()) + (if added then 1 else 0)
    ensures IndexOf(tree) == Record(old(IndexOf(tree)), ToLower(wordStr), filename, lineNumber)
  {
    IndexOfKeys(tree);
    var word := new Word(wordStr);
    var existing := FindWordInTree(tree, word);
    if existing != null {
      AddToExisting(tree, existing, filename, lineNumber);
      added := false;
    } else {
      AddNewWord(tree, word, filename, lineNumber);
      added := true;
    }
  }

  /**
   * The words of one line, cleaned and split, each non-empty one recorded
   * on the given line; the result counts the records added.
   */
  method RecordLine(tree: BSTree, filename: string, lineNumber: int, line: string) returns (added: int)
    requires tree.Valid()
    modifies tree, tree.Repr, Records(tree)
    ensures tree.Valid() && RecordsKnown(tree) && (forall n :: n in tree.Repr ==> n in old(tree.Repr) || fresh(n))
    ensures IndexOf(tree) == IngestWords(old(IndexOf(tree)), filename, lineNumber, Tokens(line))
    ensures tree.Size() == old(tree.Size()) + added
  {
    var words := CleanAndSplitLine(line);
    ghost var start := IndexOf(tree);
    added := 0;
    for k := 0 to |words|
      invariant tree.Valid() && RecordsKnown(tree) && (forall n :: n in tree.Repr ==> n in old(tree.Repr) || fresh(n))
      invariant IndexOf(tree) == IngestWords(start, filename, lineNumber, words[..k])
      invariant tree.Size() == old(tree.Size()) + added
    {
      IngestWordsStep(start, filename, lineNumber, words, k);
      if |words[k]| > 0 {
        var isNew := RecordWord(tree, filename, lineNumber, words[k]);
        if isNew {
          added := added + 1;
        }
      }
    }
    assert words[..|words|] == words;
  }

  /** What processInputFile reports: the lines read and the new unique words added. */
  datatype Summary = Summary(linesRead: int, wordsAdded: int)

  /**
   * The reading loop of processInputFile: every line in turn, numbered
   * from 1, has its words recorded; the summary holds the number of lines
   * and the number of records added.
   */
  method ReadLines(tree: BSTree, filename: string, lines: seq<string>) returns (summary: Summary)
    requires tree.Valid()
    modifies tree, tree.Repr, Records(tree)
    ensures tree.Valid() && RecordsKnown(tree) && (forall n :: n in tree.Repr ==> n in old(tree.Repr) || fresh(n))
    ensures IndexOf(tree) == IngestLines(old(IndexOf(tree)), filename, lines)
    ensures summary.linesRead == |lines| && summary.wordsAdded == tree.Size() - old(tree.Size())
  {
    ghost var start := IndexOf(tree);
    var wordsAdded := 0;
    var lineNumber := 0;
    while lineNumber < |lines|
      invariant 0 <= lineNumber <= |lines|
      invariant tree.Valid() && RecordsKnown(tree) && (forall n :: n in tree.Repr ==> n in old(tree.Repr) || fresh(n))
      invariant IndexOf(tree) == IngestLines(start, filename, lines[..lineNumber])
      invariant tree.Size() == old(tree.Size()) + wordsAdded
    {
      lineNumber := lineNumber + 1;
      var line := lines[lineNumber - 1];
      IngestLinesStep(start, filename, lines, lineNumber);
      var added := RecordLine(tree, filename, lineNumber, line);
      wordsAdded := wordsAdded + added;
    }
    assert lines[..lineNumber] == lines;
    summary := Summary(lineNumber, wordsAdded);
  }

  /**
   * processInputFile(filename): a missing file is an error and changes
   * nothing; otherwise all its lines are recorded, and the summary counts
   * the lines and the keys that were new. The file's existence and its
   * lines are given as parameters.
   */
  method ProcessInputFile(tree: BSTree, filename: string, fileExists: bool, lines: seq<string>) returns (r: Result<Summary>)
    requires tree.Valid()
    modifies tree, tree.Repr, Records(tree)
    ensures tree.Valid()
    ensures forall n :: n in tree.Repr ==> n in old(tree.Repr) || fresh(n)
    ensures !fileExists ==> r == Err(InputNotFound) && IndexOf(tree) == old(IndexOf(tree)) && tree.Size() == old(tree.Size())
    ensures fileExists ==> r.Ok? && r.value.linesRead == |lines|
    ensures fileExists ==> r.Ok? && r.value.wordsAdded == tree.Size() - old(tree.Size())
    ensures fileExists ==> IndexOf(tree) == IngestLines(old(IndexOf(tree)), filename, lines)
  {
    if !fileExists {
      r := Err(InputNotFound);
    } else {
      var summary := ReadLines(tree, filename, lines);
      r := Ok(summary);
    }
  }

  // ---------------------------------------------------------------------
  // generateOutput
  // ---------------------------------------------------------------------

  /** The report formats: files only, lines and files, and the complete record. */
  predicate KnownMode(mode: string)
  {
    mode == "-pf" || mode == "-pl" || mode == "-po"
  }

  /** The line a format writes for a record, its files listed in the given order. */
  function Rendering(mode: string, word: string, t: Tally, order: seq<string>): string
    requires KnownMode(mode)
  {
    if mode == "-pf" then FilesText(word, order)
    else if mode == "-pl" then LinesAndFilesText(word, t, order)
    else CompleteText(word, t, order)
  }

  /** line is the rendering, in the format, of a record with this key and state, its files listed once each in the order given. */
  predicate RendersAs(mode: string, word: string, t: Tally, line: string, order: seq<string>)
  {
    && KnownMode(mode)
    && IsEnumeration(order, t.locations.Keys)
    && line == Rendering(mode, word, t, order)
  }

  /** The switch on the mode for one record: its line in a known format, nothing otherwise. */
  method RenderRecord(word: Word, mode: string) returns (out: seq<string>, ghost orders: seq<seq<string>>)
    ensures |out| == |orders| == if KnownMode(mode) then 1 else 0
    ensures |out| == 1 ==> RendersAs(mode, word.word, word.State(), out[0], orders[0])
  {
    out, orders := [], [];
    if mode == "-pf" {
      var line, order := word.ToStringFiles();
      out, orders := [line], [order];
    } else if mode == "-pl" {
      var line, order := word.ToStringLinesAndFiles();
      out, orders := [line], [order];
    } else if mode == "-po" {
      var line, order := word.ToStringComplete();
      out, orders := [line], [order];
    }
  }

  /** Appending the lines of the next record keeps every line the rendering of its record. */
  lemma RenderedStep(mode: string, records: seq<(string, Tally)>, report: seq<string>, orders: seq<seq<string>>,
                     out: seq<string>, os: seq<seq<string>>)
    requires |report| == |orders| && |out| == |os| <= 1
    requires forall i :: 0 <= i < |report| ==> i < |records| && RendersAs(mode, records[i].0, records[i].1, report[i], orders[i])
    requires |out| == 1 ==> |report| < |records| && RendersAs(mode, records[|report|].0, records[|report|].1, out[0], os[0])
    ensures forall i :: 0 <= i < |report + out| ==>
              i < |records| && RendersAs(mode, records[i].0, records[i].1, (report + out)[i], (orders + os)[i])
  {
  }

  /**
   * generateOutput(mode): one line per record, in ascending key order, in
   * the chosen format; a mode that is none of the three writes nothing.
   * The lines are returned rather than written.
   */
  method GenerateOutput(tree: BSTree, mode: string) returns (report: seq<string>, ghost orders: seq<seq<string>>)
    requires tree.Valid()
    ensures |report| == |orders| == if KnownMode(mode) then tree.Size() else 0
    ensures forall i :: 0 <= i < |report| ==>
              RendersAs(mode, tree.Elements()[i].word, tree.Elements()[i].State(), report[i], orders[i])
    ensures forall i, j :: 0 <= i < j < |report| ==> Less(tree.Elements()[i].word, tree.Elements()[j].word)
  {
    InOrderIsSorted(tree);
    ghost var ws := tree.Elements();
    ghost var records := Snapshot(ws);
    var it := tree.InorderIterator();
    report, orders := [], [];
    while it.HasNext()
      invariant it.Valid() && it.elements == ws
      invariant |report| == |orders| == if KnownMode(mode) then it.currentIndex else 0
      invariant forall i :: 0 <= i < |report| ==> RendersAs(mode, records[i].0, records[i].1, report[i], orders[i])
      decreases |it.elements| - it.currentIndex
    {
      ghost var k := it.currentIndex;
      var next := it.Next();
      var word := next.value;
      assert word == ws[k] && Snapshot(ws) == records;
      var out, os := RenderRecord(word, mode);
      RenderedStep(mode, records, report, orders, out, os);
      report, orders := report + out, orders + os;
    }
  }
}
