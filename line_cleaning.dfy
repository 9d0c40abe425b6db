/**
 * Cleaning and splitting one line of input text into words, as the word
 * tracker's cleanAndSplitLine does with String.replaceAll, toLowerCase,
 * trim and split.
 */
module LineCleaning {
  import opened JavaText

  // ---------------------------------------------------------------------
  // Character classes of the cleaned text
  // ---------------------------------------------------------------------

  /** The characters [a-zA-Z0-9] that the cleaning expression keeps besides whitespace. */
  predicate IsAlphanumeric(c: char)
  {
    IsUpper(c) || IsLower(c) || IsDigit(c)
  }

  /** A character a word may consist of once the line is lower-cased. */
  predicate IsWordChar(c: char)
  {
    IsLower(c) || IsDigit(c)
  }

  /** Text that replaceAll("[^a-zA-Z0-9\\s]", "") leaves unchanged. */
  predicate IsStrippedText(s: string)
  {
    forall i :: 0 <= i < |s| ==> IsAlphanumeric(s[i]) || IsWhitespace(s[i])
  }

  /** Stripped text that is also lower-case. */
  predicate IsCleanText(s: string)
  {
    forall i :: 0 <= i < |s| ==> IsWordChar(s[i]) || IsWhitespace(s[i])
  }

  /** A word as the tracker files it: a non-empty run of lower-case letters and digits. */
  predicate IsWord(w: string)
  {
    |w| > 0 && forall i :: 0 <= i < |w| ==> IsWordChar(w[i])
  }

  // ---------------------------------------------------------------------
  // replaceAll("[^a-zA-Z0-9\\s]", "")
  // ---------------------------------------------------------------------

  /** Every character that is neither alphanumeric nor whitespace dropped. */
  function Strip(s: string): (r: string)
    ensures |r| <= |s|
  {
    if |s| == 0 then ""
    else
      var c := s[|s| - 1];
      Strip(s[..|s| - 1]) + if IsAlphanumeric(c) || IsWhitespace(c) then [c] else ""
  }

  /** Stripping leaves only alphanumerics and whitespace. */
  lemma {:induction false} StripIsStripped(s: string)
    ensures IsStrippedText(Strip(s))
    decreases |s|
  {
    if |s| > 0 {
      StripIsStripped(s[..|s| - 1]);
    }
  }

  /** Stripping distributes over concatenation. */
  lemma {:induction false} StripAppend(a: string, b: string)
    ensures Strip(a + b) == Strip(a) + Strip(b)
    decreases |b|
  {
    if |b| == 0 {
      assert a + b == a;
    } else {
      StripAppend(a, b[..|b| - 1]);
      assert (a + b)[..|a + b| - 1] == a + b[..|b| - 1];
    }
  }

  /** Stripping text that is already stripped changes nothing, so stripping is idempotent. */
  lemma {:induction false} StripKeepsStripped(s: string)
    requires IsStrippedText(s)
    ensures Strip(s) == s
    decreases |s|
  {
    if |s| > 0 {
      StripKeepsStripped(s[..|s| - 1]);
    }
  }

  // ---------------------------------------------------------------------
  // trim
  // ---------------------------------------------------------------------

  /** How many leading characters are at or below the space (the first loop of String.trim). */
  function Leading(s: string): (k: nat)
    ensures k <= |s|
  {
    if |s| > 0 && s[0] <= ' ' then 1 + Leading(s[1..]) else 0
  }

  /** How many trailing characters are at or below the space (the second loop of String.trim). */
  function Trailing(s: string): (k: nat)
    ensures k <= |s|
  {
    if |s| > 0 && s[|s| - 1] <= ' ' then 1 + Trailing(s[..|s| - 1]) else 0
  }

  /** String.trim: the leading and then the trailing characters at or below the space removed. */
  function Trim(s: string): string
  {
    var t := s[Leading(s)..];
    t[..|t| - Trailing(t)]
  }

  /** The leading count stops at the first character above the space. */
  lemma {:induction false} LeadingStops(s: string)
    ensures forall i :: 0 <= i < Leading(s) ==> s[i] <= ' '
    ensures Leading(s) < |s| ==> s[Leading(s)] > ' '
    decreases |s|
  {
    if |s| > 0 && s[0] <= ' ' {
      LeadingStops(s[1..]);
      assert forall i :: 1 <= i < |s| ==> s[i] == s[1..][i - 1];
    }
  }

  /** The trailing count stops at the last character above the space. */
  lemma {:induction false} TrailingStops(s: string)
    ensures forall i :: |s| - Trailing(s) <= i < |s| ==> s[i] <= ' '
    ensures Trailing(s) < |s| ==> s[|s| - Trailing(s) - 1] > ' '
    decreases |s|
  {
    if |s| > 0 && s[|s| - 1] <= ' ' {
      TrailingStops(s[..|s| - 1]);
    }
  }

  /** The first loop of trim splits off the characters at or below the space in front. */
  lemma LeadingSplit(s: string) returns (front: string, rest: string)
    ensures s == front + rest && rest == s[Leading(s)..]
    ensures forall i :: 0 <= i < |front| ==> front[i] <= ' '
    ensures |rest| > 0 ==> rest[0] > ' '
  {
    LeadingStops(s);
    front, rest := s[..Leading(s)], s[Leading(s)..];
    assert s == front + rest;
    assert forall i :: 0 <= i < |front| ==> front[i] == s[i];
  }

  /** The second loop of trim splits off the characters at or below the space at the back. */
  lemma TrailingSplit(s: string) returns (middle: string, back: string)
    ensures s == middle + back && middle == s[..|s| - Trailing(s)]
    ensures forall i :: 0 <= i < |back| ==> back[i] <= ' '
    ensures |middle| > 0 ==> middle[|middle| - 1] > ' '
  {
    var n := |s| - Trailing(s);
    middle, back := s[..n], s[n..];
    assert s == middle + back;
    assert forall i :: 0 <= i < |back| ==> back[i] <= ' ' by {
      TrailingStops(s);
      assert forall i :: 0 <= i < |back| ==> back[i] == s[n + i];
    }
    assert n > 0 ==> middle[n - 1] > ' ' by {
      TrailingStops(s);
    }
  }

  /**
   * trim splits its argument into the characters at or below the space
   * that it removes in front, the part it returns and the characters at
   * or below the space that it removes at the back.
   */
  lemma TrimIsMiddle(s: string) returns (front: string, back: string)
    ensures s == front + Trim(s) + back
    ensures forall i :: 0 <= i < |front| ==> front[i] <= ' '
    ensures forall i :: 0 <= i < |back| ==> back[i] <= ' '
  {
    var rest, middle;
    front, rest := LeadingSplit(s);
    middle, back := TrailingSplit(rest);
    assert s == front + middle + back by {
      assert front + (middle + back) == front + middle + back;
    }
  }

  /** What trim returns starts and ends above the space. */
  lemma TrimEnds(s: string)
    ensures |Trim(s)| > 0 ==> Trim(s)[0] > ' ' && Trim(s)[|Trim(s)| - 1] > ' '
  {
    var front, rest := LeadingSplit(s);
    var middle, back := TrailingSplit(rest);
    if |middle| > 0 {
      assert middle[0] == rest[0];
    }
  }

  // ---------------------------------------------------------------------
  // The cleaned line
  // ---------------------------------------------------------------------

  /** Lower-casing stripped text gives clean text. */
  lemma LoweredIsClean(s: string)
    requires IsStrippedText(s)
    ensures IsCleanText(ToLower(s))
  {
    forall i | 0 <= i < |s|
      ensures IsWordChar(ToLower(s)[i]) || IsWhitespace(ToLower(s)[i])
    {
      assert ToLower(s)[i] == LowerChar(s[i]);
    }
  }

  /** A suffix of clean text is clean. */
  lemma SuffixIsClean(s: string, k: nat)
    requires IsCleanText(s) && k <= |s|
    ensures IsCleanText(s[k..])
  {
    forall i | 0 <= i < |s| - k
      ensures IsWordChar(s[k..][i]) || IsWhitespace(s[k..][i])
    {
      assert s[k..][i] == s[k + i];
    }
  }

  /** A prefix of clean text is clean. */
  lemma PrefixIsClean(s: string, k: nat)
    requires IsCleanText(s) && k <= |s|
    ensures IsCleanText(s[..k])
  {
    forall i | 0 <= i < k
      ensures IsWordChar(s[..k][i]) || IsWhitespace(s[..k][i])
    {
      assert s[..k][i] == s[i];
    }
  }

  /** Trimming keeps clean text clean. */
  lemma TrimmedIsClean(s: string)
    requires IsCleanText(s)
    ensures IsCleanText(Trim(s))
  {
    var t := s[Leading(s)..];
    SuffixIsClean(s, Leading(s));
    PrefixIsClean(t, |t| - Trailing(t));
  }

  /** The line as cleaned before splitting: characters other than letters, digits and whitespace removed, lower-cased, trimmed. */
  function Clean(line: string): (r: string)
    ensures IsCleanText(r)
  {
    StripIsStripped(line);
    LoweredIsClean(Strip(line));
    TrimmedIsClean(ToLower(Strip(line)));
    Trim(ToLower(Strip(line)))
  }

  // ---------------------------------------------------------------------
  // split("\\s+") followed by the filter of empty strings
  // ---------------------------------------------------------------------

  /** The parts between whitespace characters: one more part than there are whitespace characters. */
  function Pieces(s: string): (r: seq<string>)
    ensures |r| > 0
  {
    if |s| == 0 then [""]
    else
      var init := Pieces(s[..|s| - 1]);
      var c := s[|s| - 1];
      if IsWhitespace(c) then init + [""]
      else init[..|init| - 1] + [init[|init| - 1] + [c]]
  }

  /** Appending a character either starts a new part or extends the last one. */
  lemma PiecesSnoc(s: string, d: char)
    ensures var init := Pieces(s);
      Pieces(s + [d]) == if IsWhitespace(d) then init + [""] else init[..|init| - 1] + [init[|init| - 1] + [d]]
  {
    assert (s + [d])[..|s|] == s;
  }

  /** Whitespace characters all read as a space. */
  function Blank(s: string): string
  {
    seq(|s|, i requires 0 <= i < |s| => if IsWhitespace(s[i]) then ' ' else s[i])
  }

  /** The characters of s that are not whitespace, in order. */
  function NonBlank(s: string): string
  {
    if |s| == 0 then ""
    else NonBlank(s[..|s| - 1]) + if IsWhitespace(s[|s| - 1]) then "" else [s[|s| - 1]]
  }

  /** Every character of a part is a character of the text other than whitespace. */
  lemma {:induction false} PiecesDrawFrom(s: string)
    ensures forall p, i :: p in Pieces(s) && 0 <= i < |p| ==> p[i] in s && !IsWhitespace(p[i])
    decreases |s|
  {
    if |s| > 0 {
      PiecesDrawFrom(s[..|s| - 1]);
      var init := Pieces(s[..|s| - 1]);
      assert forall p :: p in init[..|init| - 1] ==> p in init;
      assert forall c :: c in s[..|s| - 1] ==> c in s;
    }
  }

  /** A whitespace character more adds a separator to the joined parts. */
  lemma JoinPiecesBlank(t: string, c: char)
    requires IsWhitespace(c)
    ensures Join(Pieces(t + [c]), " ") == Join(Pieces(t), " ") + [' ']
  {
    var init := Pieces(t);
    PiecesSnoc(t, c);
    calc {
      Join(Pieces(t + [c]), " ");
      Join(init + [""], " ");
      { JoinSnoc(init, "", " "); }
      Join(init, " ") + " " + "";
      { assert " " + "" == [' ']; }
      Join(init, " ") + [' '];
    }
  }

  /** Any other character more is added to the joined parts as it is. */
  lemma JoinPiecesChar(t: string, c: char)
    requires !IsWhitespace(c)
    ensures Join(Pieces(t + [c]), " ") == Join(Pieces(t), " ") + [c]
  {
    var init := Pieces(t);
    var front, last := init[..|init| - 1], init[|init| - 1];
    PiecesSnoc(t, c);
    calc {
      Join(Pieces(t + [c]), " ");
      Join(front + [last + [c]], " ");
      { JoinSnoc(front, last + [c], " "); }
      if |front| == 0 then last + [c] else Join(front, " ") + " " + (last + [c]);
      { assert Join(front, " ") + " " + (last + [c]) == Join(front, " ") + " " + last + [c]; }
      (if |front| == 0 then last else Join(front, " ") + " " + last) + [c];
      { assert init == front + [last]; JoinSnoc(front, last, " "); }
      Join(init, " ") + [c];
    }
  }

  /** Joining the parts with single spaces gives back the text with its whitespace read as spaces. */
  lemma {:induction false} JoinPieces(s: string)
    ensures Join(Pieces(s), " ") == Blank(s)
    decreases |s|
  {
    if |s| > 0 {
      var t, c := s[..|s| - 1], s[|s| - 1];
      assert s == t + [c];
      JoinPieces(t);
      if IsWhitespace(c) {
        JoinPiecesBlank(t, c);
      } else {
        JoinPiecesChar(t, c);
      }
      assert Blank(s) == Blank(t) + [if IsWhitespace(c) then ' ' else c];
    }
  }

  /** Concatenating the parts gives the characters of the text other than whitespace. */
  lemma {:induction false} ConcatPieces(s: string)
    ensures Concat(Pieces(s)) == NonBlank(s)
    decreases |s|
  {
    if |s| > 0 {
      var t := s[..|s| - 1];
      var c := s[|s| - 1];
      var init := Pieces(t);
      ConcatPieces(t);
      if IsWhitespace(c) {
        ConcatAppend(init, [""]);
        assert [""][..0] == [];
      } else {
        var front, last := init[..|init| - 1], init[|init| - 1];
        assert init == front + [last];
        ConcatAppend(front, [last]);
        ConcatAppend(front, [last + [c]]);
        assert [last][..0] == [] && [last + [c]][..0] == [];
      }
    }
  }

  /** A run without whitespace is a single part. */
  lemma {:induction false} PiecesOfWord(w: string)
    requires forall i :: 0 <= i < |w| ==> !IsWhitespace(w[i])
    ensures Pieces(w) == [w]
    decreases |w|
  {
    if |w| > 0 {
      PiecesOfWord(w[..|w| - 1]);
      assert w[..|w| - 1] + [w[|w| - 1]] == w;
    }
  }

  /** The non-empty parts, in order (the filter loop of cleanAndSplitLine). */
  function NonEmpty(ps: seq<string>): seq<string>
  {
    if |ps| == 0 then []
    else NonEmpty(ps[..|ps| - 1]) + if |ps[|ps| - 1]| > 0 then [ps[|ps| - 1]] else []
  }

  /** The filter keeps exactly the non-empty parts. */
  lemma {:induction false} NonEmptyKeeps(ps: seq<string>)
    ensures forall p :: p in NonEmpty(ps) <==> p in ps && |p| > 0
    decreases |ps|
  {
    if |ps| > 0 {
      NonEmptyKeeps(ps[..|ps| - 1]);
      assert ps == ps[..|ps| - 1] + [ps[|ps| - 1]];
    }
  }

  /** Dropping empty parts does not change their concatenation. */
  lemma {:induction false} ConcatNonEmpty(ps: seq<string>)
    ensures Concat(NonEmpty(ps)) == Concat(ps)
    decreases |ps|
  {
    if |ps| > 0 {
      var init, p := ps[..|ps| - 1], ps[|ps| - 1];
      ConcatNonEmpty(init);
      if |p| > 0 {
        assert NonEmpty(ps) == NonEmpty(init) + [p];
        ConcatAppend(NonEmpty(init), [p]);
        assert [p][..0] == [];
      } else {
        assert NonEmpty(ps) == NonEmpty(init);
        assert Concat(ps) == Concat(init) + p;
      }
    }
  }

  // ---------------------------------------------------------------------
  // The words of a line
  // ---------------------------------------------------------------------

  /** Appending one part adds it unless it is empty. */
  lemma NonEmptySnoc(ps: seq<string>, p: string)
    ensures NonEmpty(ps + [p]) == NonEmpty(ps) + if |p| > 0 then [p] else []
  {
    assert (ps + [p])[..|ps|] == ps;
  }

  /** split("\\s+") with the empty parts filtered out. */
  function SplitWords(s: string): seq<string>
  {
    NonEmpty(Pieces(s))
  }

  /** Text made of whitespace only. */
  predicate AllWhitespace(s: string)
  {
    forall i :: 0 <= i < |s| ==> IsWhitespace(s[i])
  }

  /** A whitespace character more leaves the words alone. */
  lemma SplitBlank(s: string, c: char)
    requires IsWhitespace(c)
    ensures SplitWords(s + [c]) == SplitWords(s)
  {
    var ps := Pieces(s);
    PiecesSnoc(s, c);
    NonEmptySnoc(ps, "");
  }

  /** Any other character more extends the last word when the text ends inside one. */
  lemma SplitExtends(s: string, c: char)
    requires !IsWhitespace(c) && |s| > 0 && !IsWhitespace(s[|s| - 1])
    ensures var ws := SplitWords(s);
      |ws| > 0 && SplitWords(s + [c]) == ws[..|ws| - 1] + [ws[|ws| - 1] + [c]]
  {
    var ps := Pieces(s);
    var front, last := ps[..|ps| - 1], ps[|ps| - 1];
    assert ps == front + [last];
    assert |last| > 0;
    NonEmptySnoc(front, last);
    PiecesSnoc(s, c);
    NonEmptySnoc(front, last + [c]);
  }

  /** Any other character more starts a new word when the text is empty or ends in whitespace. */
  lemma SplitStarts(s: string, c: char)
    requires !IsWhitespace(c) && (|s| == 0 || IsWhitespace(s[|s| - 1]))
    ensures SplitWords(s + [c]) == SplitWords(s) + [[c]]
  {
    var ps := Pieces(s);
    var front, last := ps[..|ps| - 1], ps[|ps| - 1];
    assert ps == front + [last];
    assert last == "" && last + [c] == [c];
    NonEmptySnoc(front, last);
    PiecesSnoc(s, c);
    NonEmptySnoc(front, [c]);
  }

  /** Trailing whitespace adds no word. */
  lemma {:induction false} SplitBlankSuffix(s: string, b: string)
    requires AllWhitespace(b)
    ensures SplitWords(s + b) == SplitWords(s)
    decreases |b|
  {
    if |b| == 0 {
      assert s + b == s;
    } else {
      var init := b[..|b| - 1];
      SplitBlankSuffix(s, init);
      assert s + b == (s + init) + [b[|b| - 1]];
      SplitBlank(s + init, b[|b| - 1]);
    }
  }

  /** Leading whitespace adds no word. */
  lemma {:induction false} SplitBlankPrefix(b: string, s: string)
    requires AllWhitespace(b)
    ensures SplitWords(b + s) == SplitWords(s)
    decreases |s|
  {
    if |s| == 0 {
      SplitBlankSuffix("", b);
      assert "" + b == b + s;
    } else {
      var init, c := s[..|s| - 1], s[|s| - 1];
      SplitBlankPrefix(b, init);
      assert b + s == (b + init) + [c];
      assert s == init + [c];
      if IsWhitespace(c) {
        SplitBlank(b + init, c);
        SplitBlank(init, c);
      } else if |init| > 0 && !IsWhitespace(init[|init| - 1]) {
        assert (b + init)[|b + init| - 1] == init[|init| - 1];
        SplitExtends(b + init, c);
        SplitExtends(init, c);
      } else {
        assert |b + init| == 0 || IsWhitespace((b + init)[|b + init| - 1]) by {
          if |init| > 0 {
            assert (b + init)[|b + init| - 1] == init[|init| - 1];
          } else {
            assert b + init == b;
          }
        }
        SplitStarts(b + init, c);
        SplitStarts(init, c);
      }
    }
  }

  /** Clean text is its trimmed text with whitespace before and after it. */
  lemma TrimOfClean(s: string) returns (front: string, back: string)
    requires IsCleanText(s)
    ensures s == front + Trim(s) + back
    ensures AllWhitespace(front) && AllWhitespace(back)
  {
    front, back := TrimIsMiddle(s);
    forall i | 0 <= i < |front|
      ensures IsWhitespace(front[i])
    {
      assert front[i] == s[i];
    }
    forall i | 0 <= i < |back|
      ensures IsWhitespace(back[i])
    {
      assert back[i] == s[|s| - |back| + i];
    }
  }

  /** Trimming clean text does not change the words it splits into. */
  lemma SplitTrimmed(s: string)
    requires IsCleanText(s)
    ensures SplitWords(Trim(s)) == SplitWords(s)
  {
    var front, back := TrimOfClean(s);
    SplitBlankSuffix(Trim(s), back);
    SplitBlankPrefix(front, Trim(s) + back);
    assert s == front + (Trim(s) + back);
  }

  // ---------------------------------------------------------------------
  // The words of a line, read character by character
  // ---------------------------------------------------------------------

  /** The last character of the line that the cleaning keeps is a letter or digit: the line ends inside a word. */
  predicate EndsInWord(line: string)
    decreases |line|
  {
    && |line| > 0
    && var c := line[|line| - 1];
      IsAlphanumeric(c) || (!IsWhitespace(c) && EndsInWord(line[..|line| - 1]))
  }

  /**
   * The words of a line, read left to right: a letter or digit, lower-cased,
   * extends the word in progress or starts a new one, whitespace ends the
   * word in progress, and any other character is skipped.
   */
  function Tokens(line: string): (r: seq<string>)
    ensures EndsInWord(line) ==> |r| > 0
    decreases |line|
  {
    if |line| == 0 then []
    else
      var init, c := line[..|line| - 1], line[|line| - 1];
      var ws := Tokens(init);
      if !IsAlphanumeric(c) then ws
      else if EndsInWord(init) then ws[..|ws| - 1] + [ws[|ws| - 1] + [LowerChar(c)]]
      else ws + [[LowerChar(c)]]
  }

  /** The lower-cased, stripped text of a line one character longer. */
  lemma LoweredSnoc(t: string, c: char)
    ensures ToLower(Strip(t + [c])) ==
      ToLower(Strip(t)) + if IsAlphanumeric(c) then [LowerChar(c)] else if IsWhitespace(c) then [c] else ""
  {
    assert (t + [c])[..|t|] == t;
    var kept := if IsAlphanumeric(c) || IsWhitespace(c) then [c] else "";
    assert Strip(t + [c]) == Strip(t) + kept;
    ToLowerAppend(Strip(t), kept);
  }

  /** A line ends inside a word exactly when its lower-cased, stripped text ends in a character other than whitespace. */
  lemma {:induction false} EndsInWordLowered(line: string)
    ensures var l := ToLower(Strip(line)); EndsInWord(line) <==> |l| > 0 && !IsWhitespace(l[|l| - 1])
    decreases |line|
  {
    if |line| > 0 {
      var t, c := line[..|line| - 1], line[|line| - 1];
      assert line == t + [c];
      EndsInWordLowered(t);
      LoweredSnoc(t, c);
    }
  }

  /** Read character by character, a line gives the words its lower-cased, stripped text splits into. */
  lemma {:induction false} TokensSplitLowered(line: string)
    ensures Tokens(line) == SplitWords(ToLower(Strip(line)))
    decreases |line|
  {
    if |line| == 0 {
      assert ToLower(Strip(line)) == "";
      assert SplitWords("") == NonEmpty([""]);
      assert [""][..0] == [];
    } else {
      var t, c := line[..|line| - 1], line[|line| - 1];
      assert line == t + [c];
      TokensSplitLowered(t);
      LoweredSnoc(t, c);
      EndsInWordLowered(t);
      var l := ToLower(Strip(t));
      if IsAlphanumeric(c) {
        if EndsInWord(t) {
          SplitExtends(l, LowerChar(c));
        } else {
          SplitStarts(l, LowerChar(c));
        }
      } else if IsWhitespace(c) {
        SplitBlank(l, c);
      } else {
        assert ToLower(Strip(line)) == l;
      }
    }
  }

  /**
   * The words read character by character are exactly what
   * cleanAndSplitLine computes: replaceAll, toLowerCase and trim, then
   * split at runs of whitespace and the empty parts dropped.
   */
  lemma TokensAreSplit(line: string)
    ensures Tokens(line) == NonEmpty(Pieces(Clean(line)))
  {
    TokensSplitLowered(line);
    StripIsStripped(line);
    LoweredIsClean(Strip(line));
    SplitTrimmed(ToLower(Strip(line)));
  }

  /** The letters and digits of a line, lower-cased, in order. */
  function Letters(line: string): string
  {
    if |line| == 0 then ""
    else
      var c := line[|line| - 1];
      Letters(line[..|line| - 1]) + if IsAlphanumeric(c) then [LowerChar(c)] else ""
  }

  /** A single character is kept unless it is whitespace. */
  lemma NonBlankOfChar(c: char)
    ensures NonBlank([c]) == if IsWhitespace(c) then "" else [c]
  {
    assert [c][..0] == [];
  }

  lemma {:induction false} NonBlankAppend(a: string, b: string)
    ensures NonBlank(a + b) == NonBlank(a) + NonBlank(b)
    decreases |b|
  {
    if |b| == 0 {
      assert a + b == a;
    } else {
      NonBlankAppend(a, b[..|b| - 1]);
      assert (a + b)[..|a + b| - 1] == a + b[..|b| - 1];
    }
  }

  /** Lower-casing distributes over concatenation. */
  lemma ToLowerAppend(a: string, b: string)
    ensures ToLower(a + b) == ToLower(a) + ToLower(b)
  {
  }

  /** The characters of the lower-cased, stripped line other than whitespace are its lower-cased letters and digits. */
  lemma {:induction false} NonBlankOfLowered(line: string)
    ensures NonBlank(ToLower(Strip(line))) == Letters(line)
    decreases |line|
  {
    if |line| > 0 {
      var t, c := line[..|line| - 1], line[|line| - 1];
      assert line == t + [c];
      NonBlankOfLowered(t);
      LoweredSnoc(t, c);
      var added := if IsAlphanumeric(c) then [LowerChar(c)] else if IsWhitespace(c) then [c] else "";
      NonBlankAppend(ToLower(Strip(t)), added);
      if IsAlphanumeric(c) {
        NonBlankOfChar(LowerChar(c));
      } else if IsWhitespace(c) {
        NonBlankOfChar(c);
      }
    }
  }

  /** The text of whitespace characters holds nothing else. */
  lemma {:induction false} AllBlank(s: string)
    requires AllWhitespace(s)
    ensures NonBlank(s) == ""
    decreases |s|
  {
    if |s| > 0 {
      AllBlank(s[..|s| - 1]);
    }
  }

  /** The characters trim removes from clean text are whitespace, so no other character goes. */
  lemma NonBlankOfTrim(s: string)
    requires IsCleanText(s)
    ensures NonBlank(Trim(s)) == NonBlank(s)
  {
    var front, back := TrimOfClean(s);
    AllBlank(front);
    AllBlank(back);
    NonBlankAppend(front + Trim(s), back);
    NonBlankAppend(front, Trim(s));
  }

  /**
   * The words of a line are non-empty runs of lower-case letters and
   * digits, and together they spell out exactly the line's letters and
   * digits, lower-cased, in order.
   */
  lemma TokensSpellLetters(line: string)
    ensures forall w :: w in Tokens(line) ==> IsWord(w)
    ensures Concat(Tokens(line)) == Letters(line)
  {
    var lowered := ToLower(Strip(line));
    var cleaned := Clean(line);
    TokensAreSplit(line);
    NonEmptyKeeps(Pieces(cleaned));
    PiecesDrawFrom(cleaned);
    ConcatNonEmpty(Pieces(cleaned));
    ConcatPieces(cleaned);
    StripIsStripped(line);
    LoweredIsClean(Strip(line));
    NonBlankOfTrim(lowered);
    NonBlankOfLowered(line);
  }

  /** The words of a line are already lower-case, so the record key of a word is the word itself. */
  lemma TokensAreKeys(line: string)
    ensures forall w :: w in Tokens(line) ==> ToLower(w) == w
  {
    TokensSpellLetters(line);
  }

  /**
   * cleanAndSplitLine(line): the words of the cleaned line, in order,
   * empty parts filtered out by the loop.
   */
  method CleanAndSplitLine(line: string) returns (words: seq<string>)
    ensures words == Tokens(line)
    ensures forall w :: w in words ==> IsWord(w)
    ensures Concat(words) == Letters(line)
  {
    var cleaned := Clean(line);
    var parts := Pieces(cleaned);
    words := [];
    for k := 0 to |parts|
      invariant words == NonEmpty(parts[..k])
    {
      assert parts[..k + 1][..k] == parts[..k];
      if |parts[k]| > 0 {
        words := words + [parts[k]];
      }
    }
    assert parts[..|parts|] == parts;
    TokensAreSplit(line);
    TokensSpellLetters(line);
  }

  /** A line yields no word exactly when it has no letter or digit (a blank or punctuation-only line). */
  lemma NoWordsIffNoLetters(line: string)
    ensures Tokens(line) == [] <==> Letters(line) == ""
  {
    TokensSpellLetters(line);
    var ts := Tokens(line);
    if |ts| > 0 {
      assert ts[|ts| - 1] in ts;
      assert Concat(ts) == Concat(ts[..|ts| - 1]) + ts[|ts| - 1];
    }
  }

  /**
   * A character other than a letter, digit or whitespace is removed, not
   * a separator: the words around it join up.
   */
  lemma {:induction false} PunctuationSkipped(a: string, p: char, b: string)
    requires !IsAlphanumeric(p) && !IsWhitespace(p)
    ensures Tokens(a + [p] + b) == Tokens(a + b)
    ensures EndsInWord(a + [p] + b) == EndsInWord(a + b)
    decreases |b|
  {
    if |b| == 0 {
      assert a + [p] + b == a + [p] && (a + [p])[..|a|] == a;
      assert a + b == a;
    } else {
      var init, c := b[..|b| - 1], b[|b| - 1];
      PunctuationSkipped(a, p, init);
      assert (a + [p] + b)[..|a + [p] + b| - 1] == a + [p] + init;
      assert (a + b)[..|a + b| - 1] == a + init;
    }
  }

  /** A run of letters and digits is a single word, lower-cased. */
  lemma {:induction false} RunIsOneWord(w: string)
    requires |w| > 0 && forall i :: 0 <= i < |w| ==> IsAlphanumeric(w[i])
    ensures Tokens(w) == [ToLower(w)]
    ensures EndsInWord(w)
    decreases |w|
  {
    var init, c := w[..|w| - 1], w[|w| - 1];
    assert w == init + [c];
    assert ToLower([c]) == [LowerChar(c)];
    ToLowerAppend(init, [c]);
    if |init| > 0 {
      forall i | 0 <= i < |init|
        ensures IsAlphanumeric(init[i])
      {
        assert init[i] == w[i];
      }
      RunIsOneWord(init);
    }
  }

  /** An apostrophe is removed, not a separator: "it's" is the single word "its". */
  lemma ApostropheTokens()
    ensures Tokens("it's") == ["its"]
  {
    assert "it's" == "it" + ['\''] + "s" && "it" + "s" == "its";
    PunctuationSkipped("it", '\'', "s");
    RunIsOneWord("its");
    assert ToLower("its") == "its";
  }



}
