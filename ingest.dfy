/**
 * What reading an input file does to the index, stated on values: the
 * index maps every key to its occurrence state, and each word of line
 * n of the file records one occurrence on line n.
 */
module Ingest {
  import opened JavaText
  import opened Words
  import opened LineCleaning

  /** The occurrence state of every key held. */
  type Index = map<string, Tally>

  /** The state of a key, the fresh record's state when the key is not held. */
  function Lookup(idx: Index, key: string): Tally
  {
    if key in idx then idx[key] else NoOccurrences
  }

  /** One occurrence of key on line n of file f: the existing record's addOccurrence, or a new record's. */
  function Record(idx: Index, key: string, f: string, n: int): Index
  {
    idx[key := AddOcc(Lookup(idx, key), f, n)]
  }

  /** The words of one line, each recorded on line n of file f; empty strings are skipped. */
  function IngestWords(idx: Index, f: string, n: int, words: seq<string>): Index
  {
    if |words| == 0 then idx
    else
      var before := IngestWords(idx, f, n, words[..|words| - 1]);
      var w := words[|words| - 1];
      if |w| > 0 then Record(before, ToLower(w), f, n) else before
  }

  /** The lines of file f, line k (counted from 1) holding lines[k - 1]. */
  function IngestLines(idx: Index, f: string, lines: seq<string>): Index
  {
    if |lines| == 0 then idx
    else IngestWords(IngestLines(idx, f, lines[..|lines| - 1]), f, |lines|, Tokens(lines[|lines| - 1]))
  }

  /** All words of a file, line after line. */
  function FileWords(lines: seq<string>): seq<string>
  {
    if |lines| == 0 then [] else FileWords(lines[..|lines| - 1]) + Tokens(lines[|lines| - 1])
  }

  /** The keys that a list of words records. */
  function KeysOfWords(words: seq<string>): set<string>
  {
    set w | w in words && |w| > 0 :: ToLower(w)
  }

  /** How many of the words record an occurrence of key. */
  function Occurrences(key: string, words: seq<string>): nat
  {
    if |words| == 0 then 0
    else
      var w := words[|words| - 1];
      Occurrences(key, words[..|words| - 1]) + if |w| > 0 && ToLower(w) == key then 1 else 0
  }

  /** The counter of a key, 0 when it is not held. */
  function FrequencyOf(idx: Index, key: string): int
  {
    Lookup(idx, key).frequency
  }

  // ---------------------------------------------------------------------
  // One line
  // ---------------------------------------------------------------------

  /** Recording a line's words one at a time, in order, as its token loop does. */
  lemma IngestWordsStep(idx: Index, f: string, n: int, words: seq<string>, k: nat)
    requires k < |words|
    ensures IngestWords(idx, f, n, words[..k + 1]) ==
            if |words[k]| > 0 then Record(IngestWords(idx, f, n, words[..k]), ToLower(words[k]), f, n)
            else IngestWords(idx, f, n, words[..k])
  {
    assert words[..k + 1][..k] == words[..k];
  }

  /** The keys after a line are the keys before and the keys of its words. */
  lemma {:induction false} IngestWordsKeys(idx: Index, f: string, n: int, words: seq<string>)
    ensures IngestWords(idx, f, n, words).Keys == idx.Keys + KeysOfWords(words)
    decreases |words|
  {
    if |words| > 0 {
      var init := words[..|words| - 1];
      IngestWordsKeys(idx, f, n, init);
      assert words == init + [words[|words| - 1]];
    }
  }

  /** The counter of every key grows by the number of its occurrences in the line. */
  lemma {:induction false} IngestWordsFrequency(idx: Index, f: string, n: int, words: seq<string>, key: string)
    ensures FrequencyOf(IngestWords(idx, f, n, words), key) == FrequencyOf(idx, key) + Occurrences(key, words)
    decreases |words|
  {
    if |words| > 0 {
      IngestWordsFrequency(idx, f, n, words[..|words| - 1], key);
    }
  }

  /** Every word of the line has line n on record for file f. */
  lemma {:induction false} IngestWordsRecordsLine(idx: Index, f: string, n: int, words: seq<string>)
    ensures forall w :: w in words && |w| > 0 ==> n in LinesOf(Lookup(IngestWords(idx, f, n, words), ToLower(w)), f)
    decreases |words|
  {
    if |words| > 0 {
      var init := words[..|words| - 1];
      var before := IngestWords(idx, f, n, init);
      IngestWordsRecordsLine(idx, f, n, init);
      forall w | w in words && |w| > 0
        ensures n in LinesOf(Lookup(IngestWords(idx, f, n, words), ToLower(w)), f)
      {
        var key := ToLower(w);
        if w != words[|words| - 1] {
          assert w in init;
          KeepsLines(before, ToLower(words[|words| - 1]), f, n, key);
        } else {
          AddOccurrenceEffect(Lookup(before, key), f, n);
        }
      }
    }
  }

  /** One occurrence removes no recorded line of any key and any file. */
  lemma KeepsLines(idx: Index, key: string, f: string, n: int, k: string)
    ensures forall g, x :: x in LinesOf(Lookup(idx, k), g) ==> x in LinesOf(Lookup(Record(idx, key, f, n), k), g)
  {
    if k == key {
      AddOccurrenceEffect(Lookup(idx, k), f, n);
    }
  }

  /** A line removes no recorded line of any key and any file. */
  lemma {:induction false} IngestWordsKeepsLines(idx: Index, f: string, n: int, words: seq<string>, k: string)
    ensures forall g, x :: x in LinesOf(Lookup(idx, k), g) ==> x in LinesOf(Lookup(IngestWords(idx, f, n, words), k), g)
    decreases |words|
  {
    if |words| > 0 {
      var init := words[..|words| - 1];
      var w := words[|words| - 1];
      IngestWordsKeepsLines(idx, f, n, init, k);
      if |w| > 0 {
        KeepsLines(IngestWords(idx, f, n, init), ToLower(w), f, n, k);
      }
    }
  }

  /** The line lists of the other files do not change. */
  lemma {:induction false} IngestWordsOtherFiles(idx: Index, f: string, n: int, words: seq<string>, k: string, g: string)
    requires g != f
    ensures LinesOf(Lookup(IngestWords(idx, f, n, words), k), g) == LinesOf(Lookup(idx, k), g)
    decreases |words|
  {
    if |words| > 0 {
      var init := words[..|words| - 1];
      var w := words[|words| - 1];
      IngestWordsOtherFiles(idx, f, n, init, k, g);
      if |w| > 0 && ToLower(w) == k {
        AddOccurrenceEffect(Lookup(IngestWords(idx, f, n, init), k), f, n);
      }
    }
  }

  /** Every record of the index is well formed. */
  ghost predicate AllWellFormed(idx: Index)
  {
    forall k :: k in idx ==> WellFormed(idx[k])
  }

  /** The fresh record is well formed. */
  lemma NoOccurrencesWellFormed()
    ensures WellFormed(NoOccurrences)
  {
    assert LinesIn(map[], {}) == 0;
  }

  /** A line keeps every record well formed. */
  lemma {:induction false} IngestWordsWellFormed(idx: Index, f: string, n: int, words: seq<string>)
    requires AllWellFormed(idx)
    ensures AllWellFormed(IngestWords(idx, f, n, words))
    decreases |words|
  {
    if |words| > 0 {
      var init := words[..|words| - 1];
      var w := words[|words| - 1];
      IngestWordsWellFormed(idx, f, n, init);
      if |w| > 0 {
        var before := IngestWords(idx, f, n, init);
        NoOccurrencesWellFormed();
        AddOccurrencePreservesWellFormed(Lookup(before, ToLower(w)), f, n);
      }
    }
  }

  // ---------------------------------------------------------------------
  // A whole file
  // ---------------------------------------------------------------------

  lemma {:induction false} OccurrencesAppend(key: string, a: seq<string>, b: seq<string>)
    ensures Occurrences(key, a + b) == Occurrences(key, a) + Occurrences(key, b)
    decreases |b|
  {
    if |b| > 0 {
      OccurrencesAppend(key, a, b[..|b| - 1]);
      assert (a + b)[..|a + b| - 1] == a + b[..|b| - 1];
    } else {
      assert a + b == a;
    }
  }

  lemma KeysOfWordsAppend(a: seq<string>, b: seq<string>)
    ensures KeysOfWords(a + b) == KeysOfWords(a) + KeysOfWords(b)
  {
    assert forall w :: w in a + b <==> w in a || w in b;
  }

  /** The words of a file are lower-case and non-empty, so each is its own key. */
  lemma {:induction false} FileWordsAreKeys(lines: seq<string>)
    ensures forall w :: w in FileWords(lines) ==> IsWord(w) && ToLower(w) == w
    ensures KeysOfWords(FileWords(lines)) == set w | w in FileWords(lines)
    decreases |lines|
  {
    if |lines| > 0 {
      var init := lines[..|lines| - 1];
      FileWordsAreKeys(init);
      TokensSpellLetters(lines[|lines| - 1]);
      TokensAreKeys(lines[|lines| - 1]);
    }
  }

  /** After a file, the keys are the keys before and the words of the file. */
  lemma {:induction false} IngestLinesKeys(idx: Index, f: string, lines: seq<string>)
    ensures IngestLines(idx, f, lines).Keys == idx.Keys + set w | w in FileWords(lines)
    decreases |lines|
  {
    FileWordsAreKeys(lines);
    if |lines| > 0 {
      var init := lines[..|lines| - 1];
      var last := lines[|lines| - 1];
      IngestLinesKeys(idx, f, init);
      IngestWordsKeys(IngestLines(idx, f, init), f, |lines|, Tokens(last));
      FileWordsAreKeys(init);
      KeysOfWordsAppend(FileWords(init), Tokens(last));
    }
  }

  /** After a file, the counter of every key has grown by the number of times the file holds it. */
  lemma {:induction false} IngestLinesFrequency(idx: Index, f: string, lines: seq<string>, key: string)
    ensures FrequencyOf(IngestLines(idx, f, lines), key) == FrequencyOf(idx, key) + Occurrences(key, FileWords(lines))
    decreases |lines|
  {
    if |lines| > 0 {
      var init := lines[..|lines| - 1];
      var last := lines[|lines| - 1];
      IngestLinesFrequency(idx, f, init, key);
      IngestWordsFrequency(IngestLines(idx, f, init), f, |lines|, Tokens(last), key);
      OccurrencesAppend(key, FileWords(init), Tokens(last));
    }
  }

  /** A file removes no recorded line of any key and any file. */
  lemma {:induction false} IngestLinesKeepsLines(idx: Index, f: string, lines: seq<string>, k: string)
    ensures forall g, x :: x in LinesOf(Lookup(idx, k), g) ==> x in LinesOf(Lookup(IngestLines(idx, f, lines), k), g)
    decreases |lines|
  {
    if |lines| > 0 {
      var init := lines[..|lines| - 1];
      IngestLinesKeepsLines(idx, f, init, k);
      IngestWordsKeepsLines(IngestLines(idx, f, init), f, |lines|, Tokens(lines[|lines| - 1]), k);
    }
  }

  /** Every word of line i + 1 of the file has that line on record for the file. */
  lemma {:induction false} IngestLinesRecordsEveryLine(idx: Index, f: string, lines: seq<string>)
    ensures forall i, w :: 0 <= i < |lines| && w in Tokens(lines[i]) ==>
              i + 1 in LinesOf(Lookup(IngestLines(idx, f, lines), w), f)
    decreases |lines|
  {
    if |lines| > 0 {
      var init := lines[..|lines| - 1];
      var last := lines[|lines| - 1];
      var before := IngestLines(idx, f, init);
      IngestLinesRecordsEveryLine(idx, f, init);
      IngestWordsRecordsLine(before, f, |lines|, Tokens(last));
      TokensSpellLetters(last);
      TokensAreKeys(last);
      forall i, w | 0 <= i < |lines| && w in Tokens(lines[i])
        ensures i + 1 in LinesOf(Lookup(IngestLines(idx, f, lines), w), f)
      {
        if i < |lines| - 1 {
          assert lines[i] == init[i];
          IngestWordsKeepsLines(before, f, |lines|, Tokens(last), w);
        } else {
          assert |w| > 0 && ToLower(w) == w;
        }
      }
    }
  }

  /** A file leaves the line lists of the other files as they were. */
  lemma {:induction false} IngestLinesOtherFiles(idx: Index, f: string, lines: seq<string>, k: string, g: string)
    requires g != f
    ensures LinesOf(Lookup(IngestLines(idx, f, lines), k), g) == LinesOf(Lookup(idx, k), g)
    decreases |lines|
  {
    if |lines| > 0 {
      var init := lines[..|lines| - 1];
      IngestLinesOtherFiles(idx, f, init, k, g);
      IngestWordsOtherFiles(IngestLines(idx, f, init), f, |lines|, Tokens(lines[|lines| - 1]), k, g);
    }
  }

  /** A file keeps every record well formed. */
  lemma {:induction false} IngestLinesWellFormed(idx: Index, f: string, lines: seq<string>)
    requires AllWellFormed(idx)
    ensures AllWellFormed(IngestLines(idx, f, lines))
    decreases |lines|
  {
    if |lines| > 0 {
      var init := lines[..|lines| - 1];
      IngestLinesWellFormed(idx, f, init);
      IngestWordsWellFormed(IngestLines(idx, f, init), f, |lines|, Tokens(lines[|lines| - 1]));
    }
  }

  /** Recording a file line after line, line k being numbered k, as its reading loop does. */
  lemma IngestLinesStep(idx: Index, f: string, lines: seq<string>, k: nat)
    requires 0 < k <= |lines|
    ensures IngestLines(idx, f, lines[..k]) == IngestWords(IngestLines(idx, f, lines[..k - 1]), f, k, Tokens(lines[k - 1]))
  {
    assert lines[..k][..k - 1] == lines[..k - 1];
  }

  /** The keys a file adds are its words not held before: the count of new unique words. */
  lemma NewKeysCount(idx: Index, f: string, lines: seq<string>)
    ensures |IngestLines(idx, f, lines)| == |idx| + |(set w | w in FileWords(lines)) - idx.Keys|
  {
    IngestLinesKeys(idx, f, lines);
    KeysGrowth(idx, IngestLines(idx, f, lines), set w | w in FileWords(lines));
  }

  /** A map whose keys grow by a set of keys grows by the number of those it did not hold. */
  lemma KeysGrowth<K, V>(m: map<K, V>, m': map<K, V>, keys: set<K>)
    requires m'.Keys == m.Keys + keys
    ensures |m'| == |m| + |keys - m.Keys|
  {
    var added := keys - m.Keys;
    assert m'.Keys == m.Keys + added && m.Keys !! added;
    assert |m'| == |m'.Keys| && |m| == |m.Keys|;
  }
}
