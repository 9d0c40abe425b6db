/**
 * The per-word occurrence record: a lower-cased key, for every file the
 * duplicate-free list of lines the word was seen on, and a counter of all
 * recorded occurrences (duplicates included), plus its three renderings.
 */
module Words {
  import opened JavaText

  predicate NoDuplicates<T(==)>(s: seq<T>)
  {
    forall i, j :: 0 <= i < j < |s| ==> s[i] != s[j]
  }

  /** order lists every key of the set exactly once (an iteration of HashMap.keySet). */
  predicate IsEnumeration(order: seq<string>, keys: set<string>)
  {
    && NoDuplicates(order)
    && (forall f :: f in order ==> f in keys)
    && (forall f :: f in keys ==> f in order)
  }

  // ---------------------------------------------------------------------
  // The occurrence state as a value
  // ---------------------------------------------------------------------

  /** The mutable part of a record: fileLocations and totalFrequency. */
  datatype Tally = Tally(locations: map<string, seq<int>>, frequency: int)

  /** The state of a freshly constructed record. */
  const NoOccurrences: Tally := Tally(map[], 0)

  /** The line list of a file, empty when the file was never recorded. */
  function LinesOf(t: Tally, filename: string): seq<int>
  {
    if filename in t.locations then t.locations[filename] else []
  }

  /** addOccurrence: record the line unless that file already lists it, and count the call. */
  function AddOcc(t: Tally, filename: string, line: int): Tally
  {
    var lines := LinesOf(t, filename);
    Tally(t.locations[filename := if line in lines then lines else lines + [line]], t.frequency + 1)
  }

  /**
   * The counter grows by one on every call; the file's list grows by the
   * line only when the line is new to that file; no other file changes.
   */
  lemma AddOccurrenceEffect(t: Tally, filename: string, line: int)
    ensures AddOcc(t, filename, line).frequency == t.frequency + 1
    ensures filename in AddOcc(t, filename, line).locations
    ensures line in LinesOf(AddOcc(t, filename, line), filename)
    ensures line in LinesOf(t, filename) ==>
              LinesOf(AddOcc(t, filename, line), filename) == LinesOf(t, filename)
    ensures line !in LinesOf(t, filename) ==>
              LinesOf(AddOcc(t, filename, line), filename) == LinesOf(t, filename) + [line]
    ensures forall g :: g != filename ==>
              (g in AddOcc(t, filename, line).locations <==> g in t.locations) &&
              LinesOf(AddOcc(t, filename, line), g) == LinesOf(t, g)
  {
  }

  // ---------------------------------------------------------------------
  // The record invariant
  // ---------------------------------------------------------------------

  function LengthAt(m: map<string, seq<int>>, f: string): nat
  {
    if f in m then |m[f]| else 0
  }

  /** The sum of the list lengths of the given files. */
  ghost function LinesIn(m: map<string, seq<int>>, files: set<string>): nat
    decreases files
  {
    if files == {} then 0
    else var f :| f in files; LengthAt(m, f) + LinesIn(m, files - {f})
  }

  /** The number of distinct (file, line) pairs recorded. */
  ghost function TotalLines(m: map<string, seq<int>>): nat
  {
    LinesIn(m, m.Keys)
  }

  /**
   * What every record satisfies: each recorded file has a non-empty list
   * without repeats, and the lists hold no more lines than the counter.
   */
  ghost predicate WellFormed(t: Tally)
  {
    && (forall f :: f in t.locations ==> |t.locations[f]| > 0 && NoDuplicates(t.locations[f]))
    && TotalLines(t.locations) <= t.frequency
  }

  /** The sum does not depend on the file picked first. */
  lemma {:induction false} LinesInRemove(m: map<string, seq<int>>, files: set<string>, f: string)
    requires f in files
    ensures LinesIn(m, files) == LengthAt(m, f) + LinesIn(m, files - {f})
    decreases files
  {
    var g :| g in files && LinesIn(m, files) == LengthAt(m, g) + LinesIn(m, files - {g});
    if g != f {
      LinesInRemove(m, files - {g}, f);
      LinesInRemove(m, files - {f}, g);
      assert files - {g} - {f} == files - {f} - {g};
    }
  }

  /** Maps that agree on the lengths of the given files have the same sum. */
  lemma {:induction false} LinesInAgree(m: map<string, seq<int>>, m': map<string, seq<int>>, files: set<string>)
    requires forall f :: f in files ==> LengthAt(m, f) == LengthAt(m', f)
    ensures LinesIn(m, files) == LinesIn(m', files)
    decreases files
  {
    if files != {} {
      var f :| f in files;
      LinesInRemove(m, files, f);
      LinesInRemove(m', files, f);
      LinesInAgree(m, m', files - {f});
    }
  }

  /** A single list in the sum is bounded by the sum. */
  lemma LengthAtMostTotal(m: map<string, seq<int>>, f: string)
    requires f in m
    ensures |m[f]| <= TotalLines(m)
  {
    LinesInRemove(m, m.Keys, f);
  }

  /** No file has more lines than all files together. */
  lemma EachLengthAtMostTotal(m: map<string, seq<int>>)
    ensures forall f :: f in m ==> |m[f]| <= TotalLines(m)
  {
    forall f | f in m
      ensures |m[f]| <= TotalLines(m)
    {
      LengthAtMostTotal(m, f);
    }
  }

  /** addOccurrence keeps the record invariant. */
  lemma AddOccurrencePreservesWellFormed(t: Tally, filename: string, line: int)
    requires WellFormed(t)
    ensures WellFormed(AddOcc(t, filename, line))
  {
    var m := t.locations;
    var t' := AddOcc(t, filename, line);
    var m' := t'.locations;
    var lines := LinesOf(t, filename);
    assert NoDuplicates(m'[filename]);
    LinesInAgree(m, m', m.Keys - {filename});
    LinesInRemove(m', m'.Keys, filename);
    assert m'.Keys - {filename} == m.Keys - {filename};
    if filename in m {
      LinesInRemove(m, m.Keys, filename);
    } else {
      assert m.Keys - {filename} == m.Keys;
    }
  }

  // ---------------------------------------------------------------------
  // The three renderings, as values
  // ---------------------------------------------------------------------

  /** The decimal texts of the line numbers. */
  function Numerals(lines: seq<int>): (r: seq<string>)
    ensures |r| == |lines|
  {
    seq(|lines|, i requires 0 <= i < |lines| => IntToString(lines[i]))
  }

  lemma NumeralsSnoc(lines: seq<int>, i: nat)
    requires i < |lines|
    ensures Numerals(lines[..i + 1]) == Numerals(lines[..i]) + [IntToString(lines[i])]
  {
  }

  /** " found in file: f on lines: l1,l2,...," (every line list ends in a comma). */
  function FileSection(filename: string, lines: seq<int>): string
  {
    " found in file: " + filename + " on lines: " + Join(Numerals(lines), ",") + ","
  }

  /** toStringFiles: the key, then the file names separated by ", " when there are any. */
  function FilesText(word: string, order: seq<string>): string
  {
    "Key = ===" + word + "===" + if |order| == 0 then "" else " found in file: " + Join(order, ", ")
  }

  /** One more file extends the text by the lead-in or a separator, then the file's name. */
  lemma FilesTextSnoc(word: string, order: seq<string>, f: string)
    ensures FilesText(word, order + [f]) ==
            FilesText(word, order) + (if |order| == 0 then " found in file: " else ", ") + f
  {
    JoinSnoc(order, f, ", ");
    var head := "Key = ===" + word + "===";
    if |order| == 0 {
      assert FilesText(word, order + [f]) == head + (" found in file: " + f);
    } else {
      assert FilesText(word, order + [f]) == head + (" found in file: " + (Join(order, ", ") + ", " + f));
    }
  }

  /** toStringLinesAndFiles, one file section per file in iteration order. */
  function LinesAndFilesText(word: string, t: Tally, order: seq<string>): string
  {
    if |order| == 0 then "Key = ===" + word + "==="
    else
      var f := order[|order| - 1];
      LinesAndFilesText(word, t, order[..|order| - 1]) + FileSection(f, LinesOf(t, f))
  }

  /** toStringComplete, one file section per file in iteration order. */
  function CompleteText(word: string, t: Tally, order: seq<string>): string
  {
    if |order| == 0 then "===" + word + "=== number of entries: " + IntToString(t.frequency)
    else
      var f := order[|order| - 1];
      CompleteText(word, t, order[..|order| - 1]) + FileSection(f, LinesOf(t, f))
  }

  /** The file sections alone. */
  function Sections(t: Tally, order: seq<string>): string
  {
    if |order| == 0 then ""
    else
      var f := order[|order| - 1];
      Sections(t, order[..|order| - 1]) + FileSection(f, LinesOf(t, f))
  }

  /** The -pl and -po renderings differ only in what precedes the file sections. */
  lemma {:induction false} RenderingsShareSections(word: string, t: Tally, order: seq<string>)
    ensures LinesAndFilesText(word, t, order) == "Key = ===" + word + "===" + Sections(t, order)
    ensures CompleteText(word, t, order) ==
              "===" + word + "=== number of entries: " + IntToString(t.frequency) + Sections(t, order)
  {
    if |order| > 0 {
      RenderingsShareSections(word, t, order[..|order| - 1]);
    }
  }

  /** A sequence without repeats has as many elements as members. */
  lemma {:induction false} DistinctCount(s: seq<string>)
    requires NoDuplicates(s)
    ensures |set x | x in s| == |s|
  {
    if |s| > 0 {
      var init := s[..|s| - 1];
      DistinctCount(init);
      assert (set x | x in s) == (set x | x in init) + {s[|s| - 1]} by {
        assert s == init + [s[|s| - 1]];
      }
      assert s[|s| - 1] !in init;
    }
  }

  /** A set with one key has a single iteration order. */
  lemma SingleKeyEnumeration(order: seq<string>, f: string)
    requires IsEnumeration(order, {f})
    ensures order == [f]
  {
    DistinctCount(order);
    assert (set x | x in order) == {f};
    assert order[0] in order;
  }

  /** The record of "apple" after addOccurrence("test1.txt", 1) and addOccurrence("test1.txt", 3). */
  lemma AppleTally()
    ensures AddOcc(AddOcc(NoOccurrences, "test1.txt", 1), "test1.txt", 3) ==
              Tally(map["test1.txt" := [1, 3]], 2)
  {
    var once := AddOcc(NoOccurrences, "test1.txt", 1);
    assert LinesOf(NoOccurrences, "test1.txt") == [];
    assert [] + [1] == [1];
    assert once == Tally(map["test1.txt" := [1]], 1);
    assert LinesOf(once, "test1.txt") == [1];
    assert 3 !in [1];
    assert [1] + [3] == [1, 3];
  }

  /** Its single file section. */
  lemma AppleSection()
    ensures Sections(Tally(map["test1.txt" := [1, 3]], 2), ["test1.txt"]) ==
              " found in file: test1.txt on lines: 1,3,"
  {
    var t := Tally(map["test1.txt" := [1, 3]], 2);
    assert ["test1.txt"][..0] == [];
    assert LinesOf(t, "test1.txt") == [1, 3];
    assert Numerals([1, 3]) == ["1", "3"];
    assert Join(["1", "3"], ",") == "1,3" by {
      assert ["1", "3"][..1] == ["1"];
    }
  }

  /** toStringFiles of that record, whatever the iteration order of its one file. */
  lemma AppleFilesText(order: seq<string>)
    requires IsEnumeration(order, {"test1.txt"})
    ensures FilesText("apple", order) == "Key = ===apple===" + " found in file: test1.txt"
  {
    SingleKeyEnumeration(order, "test1.txt");
    assert Join(["test1.txt"], ", ") == "test1.txt";
  }

  /** toStringLinesAndFiles of that record. */
  lemma AppleLinesAndFilesText(order: seq<string>)
    requires IsEnumeration(order, {"test1.txt"})
    ensures LinesAndFilesText("apple", Tally(map["test1.txt" := [1, 3]], 2), order) ==
              "Key = ===apple===" + " found in file: test1.txt on lines: 1,3,"
  {
    SingleKeyEnumeration(order, "test1.txt");
    AppleSection();
    RenderingsShareSections("apple", Tally(map["test1.txt" := [1, 3]], 2), order);
  }

  /** toStringComplete of that record. */
  lemma AppleCompleteText(order: seq<string>)
    requires IsEnumeration(order, {"test1.txt"})
    ensures CompleteText("apple", Tally(map["test1.txt" := [1, 3]], 2), order) ==
              "===apple=== number of entries: 2" + " found in file: test1.txt on lines: 1,3,"
  {
    SingleKeyEnumeration(order, "test1.txt");
    AppleSection();
    RenderingsShareSections("apple", Tally(map["test1.txt" := [1, 3]], 2), order);
    AppleCount(IntToString(2));
  }

  lemma AppleCount(two: string)
    requires two == IntToString(2)
    ensures "===" + "apple" + "=== number of entries: " + two == "===apple=== number of entries: 2"
  {
    assert two == "2";
  }

  // ---------------------------------------------------------------------
  // The record object
  // ---------------------------------------------------------------------

  class Word {
    const word: string
    var fileLocations: map<string, seq<int>>
    var totalFrequency: int

    /** The occurrence state as a value. */
    function State(): Tally
      reads this
    {
      Tally(fileLocations, totalFrequency)
    }

    ghost predicate Valid()
      reads this
    {
      WellFormed(State())
    }

    /** Word(word): the key is the lower-cased text; no occurrences yet. */
    constructor (word: string)
      ensures this.word == ToLower(word)
      ensures State() == NoOccurrences && Valid()
    {
      this.word := ToLower(word);
      fileLocations := map[];
      totalFrequency := 0;
      new;
      assert LinesIn(map[], {}) == 0;
    }

    /** addOccurrence(filename, lineNumber). */
    method AddOccurrence(filename: string, lineNumber: int)
      modifies this
      ensures State() == AddOcc(old(State()), filename, lineNumber)
      ensures old(Valid()) ==> Valid()
    {
      ghost var before := State();
      var lineNumbers: seq<int>;
      if filename !in fileLocations {
        lineNumbers := [];
        fileLocations := fileLocations[filename := lineNumbers];
      } else {
        lineNumbers := fileLocations[filename];
      }
      if lineNumber !in lineNumbers {
        lineNumbers := lineNumbers + [lineNumber];
        fileLocations := fileLocations[filename := lineNumbers];
      }
      totalFrequency := totalFrequency + 1;
      if WellFormed(before) {
        AddOccurrencePreservesWellFormed(before, filename, lineNumber);
      }
    }

    function GetWord(): string
    {
      word
    }

    /** getFileLocations: in a valid record every file has a non-empty list of distinct lines. */
    function GetFileLocations(): (r: map<string, seq<int>>)
      reads this
      ensures Valid() ==> forall f :: f in r ==> |r[f]| > 0 && NoDuplicates(r[f])
    {
      fileLocations
    }

    /** getTotalFrequency: in a valid record no file has more lines than the total. */
    function GetTotalFrequency(): (r: int)
      reads this
      ensures Valid() ==> r >= 0 && forall f :: f in fileLocations ==> |fileLocations[f]| <= r
    {
      EachLengthAtMostTotal(fileLocations);
      totalFrequency
    }

    /**
     * getFrequencyInFile: the length of the file's list, 0 for a file never
     * recorded; in a well-formed record it is 0 only for such a file and
     * never exceeds the total frequency.
     */
    function GetFrequencyInFile(filename: string): (r: int)
      reads this
      ensures r == LengthAt(fileLocations, filename)
      ensures Valid() ==> (r == 0 <==> filename !in fileLocations)
      ensures Valid() ==> r <= totalFrequency
    {
      if filename in fileLocations then
        LengthAtMostTotal(fileLocations, filename);
        |fileLocations[filename]|
      else 0
    }

    /** getLineNumbers: null for a file never recorded; otherwise a non-empty list without repeats. */
    function GetLineNumbers(filename: string): (r: Option<seq<int>>)
      reads this
      ensures r.None? <==> filename !in fileLocations
      ensures r.Some? ==> r.value == fileLocations[filename]
      ensures r.Some? && Valid() ==> |r.value| > 0 && NoDuplicates(r.value)
    {
      if filename in fileLocations then Some(fileLocations[filename]) else None
    }

    /** getFilenames: every recorded file once, in the map's iteration order. */
    method GetFilenames() returns (names: seq<string>)
      ensures IsEnumeration(names, fileLocations.Keys)
    {
      names := [];
      var remaining := fileLocations.Keys;
      while remaining != {}
        invariant NoDuplicates(names)
        invariant forall f :: f in fileLocations.Keys <==> f in names || f in remaining
        invariant forall f :: f in names ==> f !in remaining
        decreases remaining
      {
        var f :| f in remaining;
        names := names + [f];
        remaining := remaining - {f};
      }
    }

    /** compareTo: the order of the keys. */
    function CompareTo(other: Word): (r: int)
      ensures r == 0 <==> word == other.word
      ensures r == -JavaText.CompareTo(other.word, word)
    {
      CompareToZeroIffEqual(word, other.word);
      CompareToAntisymmetric(word, other.word);
      JavaText.CompareTo(word, other.word)
    }

    /** equals: the same object, or another record with the same key; consistent with compareTo. */
    predicate Equals(other: Word?)
      ensures Equals(other) <==> other != null && word == other.word
      ensures Equals(other) <==> other != null && CompareTo(other) == 0
    {
      other != null && (this == other || word == other.word)
    }

    /** toStringFiles, with the files in the map's iteration order. */
    method ToStringFiles() returns (s: string, ghost order: seq<string>)
      ensures IsEnumeration(order, fileLocations.Keys)
      ensures s == FilesText(word, order)
    {
      var sb := "Key = ===" + word + "===";
      var first := true;
      var remaining := fileLocations.Keys;
      order := [];
      while remaining != {}
        invariant NoDuplicates(order)
        invariant forall f :: f in fileLocations.Keys <==> f in order || f in remaining
        invariant forall f :: f in order ==> f !in remaining
        invariant first <==> |order| == 0
        invariant sb == FilesText(word, order)
        decreases remaining
      {
        var filename :| filename in remaining;
        if first {
          sb := sb + " found in file: ";
          first := false;
        } else {
          sb := sb + ", ";
        }
        sb := sb + filename;
        FilesTextSnoc(word, order, filename);
        order := order + [filename];
        remaining := remaining - {filename};
      }
      s := sb;
    }

    /** Appends one file's section: " found in file: f on lines: " and the lines, each followed by ",". */
    method AppendSection(sb: string, filename: string, lines: seq<int>) returns (out: string)
      ensures out == sb + FileSection(filename, lines)
    {
      var numbers := "";
      var i := 0;
      while i < |lines|
        invariant 0 <= i <= |lines|
        invariant numbers == Join(Numerals(lines[..i]), ",")
      {
        NumeralsSnoc(lines, i);
        JoinSnoc(Numerals(lines[..i]), IntToString(lines[i]), ",");
        if i > 0 {
          numbers := numbers + ",";
        }
        numbers := numbers + IntToString(lines[i]);
        i := i + 1;
      }
      assert lines[..i] == lines;
      out := sb + (" found in file: " + filename + " on lines: " + numbers + ",");
    }

    /** toStringLinesAndFiles, with the files in the map's iteration order. */
    method ToStringLinesAndFiles() returns (s: string, ghost order: seq<string>)
      ensures IsEnumeration(order, fileLocations.Keys)
      ensures s == LinesAndFilesText(word, State(), order)
    {
      var sb := "Key = ===" + word + "===";
      var remaining := fileLocations.Keys;
      order := [];
      while remaining != {}
        invariant NoDuplicates(order)
        invariant forall f :: f in fileLocations.Keys <==> f in order || f in remaining
        invariant forall f :: f in order ==> f !in remaining
        invariant sb == LinesAndFilesText(word, State(), order)
        decreases remaining
      {
        var filename :| filename in remaining;
        var lines := fileLocations[filename];
        sb := AppendSection(sb, filename, lines);
        assert (order + [filename])[..|order|] == order;
        order := order + [filename];
        remaining := remaining - {filename};
      }
      s := sb;
    }

    /** toStringComplete, with the files in the map's iteration order. */
    method ToStringComplete() returns (s: string, ghost order: seq<string>)
      ensures IsEnumeration(order, fileLocations.Keys)
      ensures s == CompleteText(word, State(), order)
    {
      var sb := "===" + word + "=== number of entries: " + IntToString(totalFrequency);
      var remaining := fileLocations.Keys;
      order := [];
      while remaining != {}
        invariant NoDuplicates(order)
        invariant forall f :: f in fileLocations.Keys <==> f in order || f in remaining
        invariant forall f :: f in order ==> f !in remaining
        invariant sb == CompleteText(word, State(), order)
        decreases remaining
      {
        var filename :| filename in remaining;
        var lines := fileLocations[filename];
        sb := AppendSection(sb, filename, lines);
        assert (order + [filename])[..|order|] == order;
        order := order + [filename];
        remaining := remaining - {filename};
      }
      s := sb;
    }
  }

  /** Two records compare as 0 exactly when they are equal, and both depend on the key alone. */
  lemma CompareToConsistentWithEquals(a: Word, b: Word)
    ensures a.CompareTo(b) == 0 <==> a.Equals(b)
    ensures a.Equals(b) <==> a.word == b.word
    ensures a.CompareTo(b) == -b.CompareTo(a)
  {
    CompareToZeroIffEqual(a.word, b.word);
    CompareToAntisymmetric(a.word, b.word);
  }

  datatype Option<+T> = None | Some(value: T)
}
