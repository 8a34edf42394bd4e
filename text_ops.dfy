/**
 * The value-level meaning of the editor's line operations: case conversion,
 * substring search as std::string::find does it, the whole-word search of
 * searchText, the substring filter of filterLines, and the word and
 * character counts.
 */
module TextOps {
  import opened Ascii
  import opened Optional

  // ---------------------------------------------------------------------------
  // Case conversion

  /** toUpper: every byte through toupper. */
  function Upper(s: Text): (r: Text)
    ensures |r| == |s|
    ensures forall i :: 0 <= i < |s| ==> !IsLower(r[i]) && LowerByte(r[i]) == LowerByte(s[i])
  {
    seq(|s|, i requires 0 <= i < |s| => UpperByte(s[i]))
  }

  /** toLower: every byte through tolower. */
  function Lower(s: Text): (r: Text)
    ensures |r| == |s|
    ensures forall i :: 0 <= i < |s| ==> !IsUpper(r[i]) && UpperByte(r[i]) == UpperByte(s[i])
  {
    seq(|s|, i requires 0 <= i < |s| => LowerByte(s[i]))
  }

  lemma UpperIdempotent(s: Text)
    ensures Upper(Upper(s)) == Upper(s)
  {
  }

  lemma LowerIdempotent(s: Text)
    ensures Lower(Lower(s)) == Lower(s)
  {
  }

  /**
   * The loop of toTitle from a given value of its newWord flag: a letter met
   * while newWord is set is upper-cased and clears the flag, whitespace sets
   * the flag and is kept, every other byte is lower-cased and leaves the flag
   * as it was (so a digit or punctuation after whitespace does not end the
   * "new word" state).
   */
  function TitleFrom(s: Text, newWord: bool): (r: Text)
    ensures |r| == |s|

  {
    if s == [] then []
    else if newWord && IsAlpha(s[0]) then [UpperByte(s[0])] + TitleFrom(s[1..], false)
    else if IsSpace(s[0]) then [s[0]] + TitleFrom(s[1..], true)
    else [LowerByte(s[0])] + TitleFrom(s[1..], newWord)
  }

  /** The newWord flag after the toTitle loop has seen byte c. */
  function NextFlag(c: byte, newWord: bool): (r: bool)
    ensures IsSpace(c) ==> r
    ensures r && !IsSpace(c) ==> newWord && !IsAlpha(c)
  {
    if newWord && IsAlpha(c) then false else if IsSpace(c) then true else newWord
  }

  /** toTitle */
  function Title(s: Text): (r: Text)
    ensures |r| == |s|
  {
    TitleFrom(s, true)
  }

  /** The toTitle loop changes nothing but letter case: each byte comes out upper- or lower-cased. */
  lemma {:induction false} TitleFromChangesOnlyCase(s: Text, newWord: bool)
    ensures forall i :: 0 <= i < |s| ==>
              TitleFrom(s, newWord)[i] == UpperByte(s[i]) || TitleFrom(s, newWord)[i] == LowerByte(s[i])
  {
    if s != [] {
      var t := s[1..];
      assert s == [s[0]] + t;
      TitleFromCons(s[0], t, newWord);
      TitleFromChangesOnlyCase(t, NextFlag(s[0], newWord));
      var r := TitleFrom(s, newWord);
      assert r[0] == UpperByte(s[0]) || r[0] == LowerByte(s[0]);
      forall i | 1 <= i < |s|
        ensures r[i] == UpperByte(s[i]) || r[i] == LowerByte(s[i])
      {
        assert r[i] == TitleFrom(t, NextFlag(s[0], newWord))[i - 1] && s[i] == t[i - 1];
      }
    }
  }

  /** Title-casing twice is title-casing once. */
  lemma {:induction false} TitleFromIdempotent(s: Text, newWord: bool)
    ensures TitleFrom(TitleFrom(s, newWord), newWord) == TitleFrom(s, newWord)
  {
    if s != [] {
      var t := TitleFrom(s, newWord);
      var c := s[0];
      var next := NextFlag(c, newWord);
      assert t[1..] == TitleFrom(s[1..], next);
      TitleFromIdempotent(s[1..], next);
    }
  }

  lemma TitleIdempotent(s: Text)
    ensures Title(Title(s)) == Title(s)
  {
    TitleFromIdempotent(s, true);
  }

  /** Title-casing does not depend on the case the letters had. */
  lemma {:induction false} TitleFromIgnoresCase(s: Text, newWord: bool)
    ensures TitleFrom(Upper(s), newWord) == TitleFrom(s, newWord)
    ensures TitleFrom(Lower(s), newWord) == TitleFrom(s, newWord)
  {
    if s != [] {
      CaseMapsForgetCase(s[0]);
      var next := NextFlag(s[0], newWord);
      assert Upper(s)[1..] == Upper(s[1..]);
      assert Lower(s)[1..] == Lower(s[1..]);
      TitleFromIgnoresCase(s[1..], next);
    }
  }

  lemma TitleIgnoresCase(s: Text)
    ensures Title(Upper(s)) == Title(s) && Title(Lower(s)) == Title(s)
  {
    TitleFromIgnoresCase(s, true);
  }

  /** One step of the toTitle loop: the first byte, then the rest from the updated flag. */
  lemma TitleFromCons(x: byte, t: Text, newWord: bool)
    ensures TitleFrom([x] + t, newWord) == TitleFrom([x], newWord) + TitleFrom(t, NextFlag(x, newWord))
  {
    assert ([x] + t)[0] == x;
    assert ([x] + t)[1..] == t;
    assert [x][1..] == [];
  }

  /** Whitespace resets the word state: what follows it is title-cased as a line of its own. */
  lemma {:induction false} TitleFromSplitsAtSpace(a: Text, c: byte, b: Text, newWord: bool)
    requires IsSpace(c)
    ensures TitleFrom(a + [c] + b, newWord) == TitleFrom(a, newWord) + [c] + TitleFrom(b, true)
  {
    if a == [] {
      assert a + [c] + b == [c] + b;
      TitleFromCons(c, b, newWord);
    } else {
      var x, t := a[0], a[1..];
      assert a == [x] + t;
      assert a + [c] + b == [x] + (t + [c] + b);
      TitleFromCons(x, t + [c] + b, newWord);
      TitleFromCons(x, t, newWord);
      TitleFromSplitsAtSpace(t, c, b, NextFlag(x, newWord));
    }
  }

  /** Inside a word whose first letter has been seen, every byte is lower-cased. */
  lemma {:induction false} TitleFromRestOfWord(w: Text)
    requires forall i :: 0 <= i < |w| ==> !IsSpace(w[i])
    ensures TitleFrom(w, false) == Lower(w)
  {
    if w != [] {
      TitleFromCons(w[0], w[1..], false);
      TitleFromRestOfWord(w[1..]);
      assert w == [w[0]] + w[1..];
      assert Lower(w) == [LowerByte(w[0])] + Lower(w[1..]);
    }
  }

  /** A word that starts with a letter: that letter is upper-cased and the rest lower-cased. */
  lemma TitleLetterFirst(x: byte, t: Text)
    requires IsAlpha(x) && forall i :: 0 <= i < |t| ==> !IsSpace(t[i])
    ensures Title([x] + t) == [UpperByte(x)] + Lower(t)
  {
    TitleFromCons(x, t, true);
    assert TitleFrom([x], true) == [UpperByte(x)];
    TitleFromRestOfWord(t);
  }

  /** A byte that is neither a letter nor whitespace is kept and leaves the word start pending. */
  lemma TitleOtherFirst(x: byte, t: Text)
    requires !IsAlpha(x) && !IsSpace(x)
    ensures Title([x] + t) == [x] + Title(t)
  {
    TitleFromCons(x, t, true);
    assert TitleFrom([x], true) == [LowerByte(x)];
  }

  /** A non-letter byte in front of a word whose title case is known is kept in front of it. */
  lemma TitleWordStep(p: Text, x: byte, r: Text)
    requires p != [] && !IsAlpha(p[0]) && !IsSpace(p[0])
    requires Title(p[1..] + [x] + r) == p[1..] + [UpperByte(x)] + Lower(r)
    ensures Title(p + [x] + r) == p + [UpperByte(x)] + Lower(r)
  {
    var c, q := p[0], p[1..];
    var s := q + [x] + r;
    assert p + [x] + r == [c] + s;
    TitleOtherFirst(c, s);
    assert p + [UpperByte(x)] + Lower(r) == [c] + (q + [UpperByte(x)] + Lower(r));
  }

  /**
   * toTitle on one word (no whitespace) p + [x] + r whose first letter is x:
   * the bytes of p are not letters and stay as they are, x is upper-cased,
   * and every byte of r is lower-cased.
   */
  lemma {:induction false} TitleWord(p: Text, x: byte, r: Text)
    requires forall i :: 0 <= i < |p| ==> !IsAlpha(p[i]) && !IsSpace(p[i])
    requires IsAlpha(x) && forall i :: 0 <= i < |r| ==> !IsSpace(r[i])
    ensures Title(p + [x] + r) == p + [UpperByte(x)] + Lower(r)
  {
    if p == [] {
      assert p + [x] + r == [x] + r;
      assert p + [UpperByte(x)] + Lower(r) == [UpperByte(x)] + Lower(r);
      TitleLetterFirst(x, r);
    } else {
      TitleWord(p[1..], x, r);
      TitleWordStep(p, x, r);
    }
  }

  /** Two words separated by whitespace, each starting with a letter, are title-cased independently. */
  lemma TitleTwoWords(x: byte, r: Text, c: byte, y: byte, t: Text)
    requires IsAlpha(x) && forall i :: 0 <= i < |r| ==> !IsSpace(r[i])
    requires IsSpace(c)
    requires IsAlpha(y) && forall i :: 0 <= i < |t| ==> !IsSpace(t[i])
    ensures Title(([x] + r) + [c] + ([y] + t)) == ([UpperByte(x)] + Lower(r)) + [c] + ([UpperByte(y)] + Lower(t))
  {
    TitleFromSplitsAtSpace([x] + r, c, [y] + t, true);
    TitleLetterFirst(x, r);
    TitleLetterFirst(y, t);
  }

  /** The case conversion changeAllLinesCase selects: 1 upper, 2 lower, 3 title, anything else none. */
  function ConvertCase(caseType: int, s: Text): (r: Text)
    ensures |r| == |s|
    ensures caseType !in {1, 2, 3} ==> r == s
  {
    if caseType == 1 then Upper(s)
    else if caseType == 2 then Lower(s)
    else if caseType == 3 then Title(s)
    else s
  }

  /** The selected conversion applied to every line. */
  function ConvertAll(caseType: int, lines: seq<Text>): (r: seq<Text>)
    ensures |r| == |lines|
    ensures forall i :: 0 <= i < |lines| ==> |r[i]| == |lines[i]|
  {
    seq(|lines|, i requires 0 <= i < |lines| => ConvertCase(caseType, lines[i]))
  }

  /** Converting the whole buffer a second time with the same mode changes nothing more. */
  lemma ConvertAllIdempotent(caseType: int, lines: seq<Text>)
    ensures ConvertAll(caseType, ConvertAll(caseType, lines)) == ConvertAll(caseType, lines)
  {
    forall i | 0 <= i < |lines|
      ensures ConvertCase(caseType, ConvertCase(caseType, lines[i])) == ConvertCase(caseType, lines[i])
    {
      UpperIdempotent(lines[i]);
      LowerIdempotent(lines[i]);
      TitleIdempotent(lines[i]);
    }
  }

  // ---------------------------------------------------------------------------
  // Substring search

  /** The keyword occurs in the line starting at position j. */
  predicate OccursAt(line: Text, keyword: Text, j: nat)
  {
    j + |keyword| <= |line| && forall i :: 0 <= i < |keyword| ==> line[j + i] == keyword[i]
  }

  /** std::string::find(keyword, pos): the first occurrence at or after pos, if any. */
  function Find(line: Text, keyword: Text, pos: nat): (r: Option<nat>)
    ensures r.Some? ==> pos <= r.value && OccursAt(line, keyword, r.value)
    decreases |line| - pos
  {
    if pos + |keyword| > |line| then None
    else if OccursAt(line, keyword, pos) then Some(pos)
    else Find(line, keyword, pos + 1)
  }

  /** find returns the first occurrence: none lies between pos and the result, and none at all after pos when it fails. */
  lemma {:induction false} FindIsFirst(line: Text, keyword: Text, pos: nat)
    ensures Find(line, keyword, pos).Some? ==>
              forall j :: pos <= j < Find(line, keyword, pos).value ==> !OccursAt(line, keyword, j)
    ensures Find(line, keyword, pos).None? ==> forall j :: pos <= j ==> !OccursAt(line, keyword, j)
    decreases |line| - pos
  {
    if pos + |keyword| <= |line| && !OccursAt(line, keyword, pos) {
      FindIsFirst(line, keyword, pos + 1);
    }
  }

  /** The keyword occurs somewhere in the line. */
  ghost predicate Contains(line: Text, keyword: Text)
  {
    exists j :: OccursAt(line, keyword, j)
  }

  /** line.find(keyword) != npos decides containment. */
  lemma FindDecidesContains(line: Text, keyword: Text)
    ensures Find(line, keyword, 0).Some? <==> Contains(line, keyword)
  {
    FindIsFirst(line, keyword, 0);
    if Find(line, keyword, 0).Some? {
      assert OccursAt(line, keyword, Find(line, keyword, 0).value);
    }
  }

  /** The occurrence at j is a whole word: bounded by non-alphanumerics or the ends of the line. */
  predicate WholeWordAt(line: Text, keyword: Text, j: nat)
  {
    && OccursAt(line, keyword, j)
    && (j == 0 || !IsAlnum(line[j - 1]))
    && (j + |keyword| == |line| || !IsAlnum(line[j + |keyword|]))
  }

  /**
   * The inner loop of searchText on one line, from position pos: find the next
   * occurrence; report the line if it is a whole word, otherwise continue the
   * search |keyword| bytes further on.
   */
  function LineMatches(line: Text, keyword: Text, pos: nat): bool
    requires |keyword| > 0
    decreases |line| - pos
  {
    match Find(line, keyword, pos)
    case None => false
    case Some(j) => WholeWordAt(line, keyword, j) || LineMatches(line, keyword, j + |keyword|)
  }

  /** One round of the search loop: the occurrence found decides, or the search goes on after it. */
  lemma LineMatchesStep(line: Text, keyword: Text, pos: nat)
    requires |keyword| > 0
    ensures Find(line, keyword, pos).None? ==> !LineMatches(line, keyword, pos)
    ensures Find(line, keyword, pos).Some? ==>
              var j := Find(line, keyword, pos).value;
              LineMatches(line, keyword, pos) == (WholeWordAt(line, keyword, j) || LineMatches(line, keyword, j + |keyword|))
  {
  }

  /** Soundness: a reported line has a whole-word occurrence of the keyword. */
  lemma {:induction false} LineMatchesSound(line: Text, keyword: Text, pos: nat)
    requires |keyword| > 0 && LineMatches(line, keyword, pos)
    ensures exists j :: pos <= j && WholeWordAt(line, keyword, j)
    decreases |line| - pos
  {
    var j := Find(line, keyword, pos).value;
    if !WholeWordAt(line, keyword, j) {
      LineMatchesSound(line, keyword, j + |keyword|);
    }
  }

  /**
   * Completeness for keywords made of letters and digits: then an occurrence
   * overlapping a skipped one is preceded by an alphanumeric byte of that
   * skipped occurrence, so no whole-word occurrence is jumped over.
   */
  lemma {:induction false} LineMatchesCompleteForAlnum(line: Text, keyword: Text, pos: nat, w: nat)
    requires |keyword| > 0 && forall k :: 0 <= k < |keyword| ==> IsAlnum(keyword[k])
    requires pos <= w && WholeWordAt(line, keyword, w)
    ensures LineMatches(line, keyword, pos)
    decreases |line| - pos
  {
    FindIsFirst(line, keyword, pos);
    var j := Find(line, keyword, pos).value;
    if !WholeWordAt(line, keyword, j) {
      assert j != w;
      if w < j + |keyword| {
        OverlapPrecededByAlnum(line, keyword, j, w);
      }
      LineMatchesCompleteForAlnum(line, keyword, j + |keyword|, w);
    }
  }

  /** An occurrence that starts inside an earlier one of an alphanumeric keyword follows an alphanumeric byte. */
  lemma OverlapPrecededByAlnum(line: Text, keyword: Text, j: nat, w: nat)
    requires forall k :: 0 <= k < |keyword| ==> IsAlnum(keyword[k])
    requires OccursAt(line, keyword, j) && j < w < j + |keyword|
    ensures IsAlnum(line[w - 1])
  {
    assert line[j + (w - 1 - j)] == keyword[w - 1 - j];
  }

  /** For an alphanumeric keyword, searchText reports a line exactly when it holds the keyword as a whole word. */
  lemma LineMatchesIffWholeWord(line: Text, keyword: Text)
    requires |keyword| > 0 && forall k :: 0 <= k < |keyword| ==> IsAlnum(keyword[k])
    ensures LineMatches(line, keyword, 0) <==> exists j :: WholeWordAt(line, keyword, j)
  {
    if LineMatches(line, keyword, 0) {
      LineMatchesSound(line, keyword, 0);
    }
    if w :| WholeWordAt(line, keyword, w) {
      LineMatchesCompleteForAlnum(line, keyword, 0, w);
    }
  }

  /**
   * Without that restriction the skip misses matches: in "xa-a-a" the keyword
   * "a-a" is a whole word at position 3, but the search rejects the occurrence
   * at 1, resumes at 4 and finds nothing more.
   */
  lemma OverlappingWholeWordMissed()
    ensures WholeWordAt([0x78, 0x61, 0x2D, 0x61, 0x2D, 0x61], [0x61, 0x2D, 0x61], 3)
    ensures !LineMatches([0x78, 0x61, 0x2D, 0x61, 0x2D, 0x61], [0x61, 0x2D, 0x61], 0)
  {
    var line: Text := [0x78, 0x61, 0x2D, 0x61, 0x2D, 0x61];
    var kw: Text := [0x61, 0x2D, 0x61];
    assert line[3..6] == kw;
    assert line[0..3][0] != kw[0];
    assert line[1..4] == kw;
    assert Find(line, kw, 0) == Some(1);
    assert !WholeWordAt(line, kw, 1);
    assert Find(line, kw, 4) == None;
  }

  // ---------------------------------------------------------------------------
  // Filtering

  /** filterLines: the lines where line.find(keyword) succeeds, in their original order. */
  function Filtered(lines: seq<Text>, keyword: Text): (r: seq<Text>)
    ensures |r| <= |lines|
  {
    if lines == [] then []
    else
      var last := lines[|lines| - 1];
      Filtered(lines[..|lines| - 1], keyword) + (if Find(last, keyword, 0).Some? then [last] else [])
  }

  /**
   * r is the order-preserving selection of lines at the strictly increasing
   * positions idx, and idx holds exactly the positions whose line contains
   * the keyword.
   */
  ghost predicate SelectsContaining(r: seq<Text>, lines: seq<Text>, keyword: Text, idx: seq<nat>)
  {
    && |idx| == |r|
    && (forall k :: 0 <= k < |idx| ==> idx[k] < |lines| && r[k] == lines[idx[k]])
    && (forall k, l :: 0 <= k < l < |idx| ==> idx[k] < idx[l])
    && (forall i :: 0 <= i < |lines| ==> (i in idx <==> Contains(lines[i], keyword)))
  }

  /** The positions Filtered keeps: strictly increasing, and exactly those of the lines that contain the keyword. */
  lemma {:induction false} FilteredIndices(lines: seq<Text>, keyword: Text) returns (idx: seq<nat>)
    ensures |idx| == |Filtered(lines, keyword)|
    ensures forall k :: 0 <= k < |idx| ==> idx[k] < |lines| && Filtered(lines, keyword)[k] == lines[idx[k]]
    ensures forall k, l :: 0 <= k < l < |idx| ==> idx[k] < idx[l]
    ensures forall i :: 0 <= i < |lines| ==> (i in idx <==> Contains(lines[i], keyword))
  {
    if lines == [] {
      idx := [];
    } else {
      var init := lines[..|lines| - 1];
      var last := |lines| - 1;
      idx := FilteredIndices(init, keyword);
      FindDecidesContains(lines[last], keyword);
      assert last !in idx;
      if Find(lines[last], keyword, 0).Some? {
        idx := idx + [last];
      }
      forall i | 0 <= i < |lines|
        ensures i in idx <==> Contains(lines[i], keyword)
      {
        if i < last {
          assert lines[i] == init[i];
        }
      }
    }
  }

  /** The lines Filtered keeps are exactly those that contain the keyword. */
  lemma {:induction false} FilteredMembers(lines: seq<Text>, keyword: Text)
    ensures forall x :: x in Filtered(lines, keyword) <==> x in lines && Contains(x, keyword)
  {
    if lines != [] {
      var init := lines[..|lines| - 1];
      FilteredMembers(init, keyword);
      FindDecidesContains(lines[|lines| - 1], keyword);
      assert lines == init + [lines[|lines| - 1]];
    }
  }

  /**
   * The filter keeps every line that contains the keyword and no other, in
   * their original order, repeated lines included.
   */
  lemma FilteredSpec(lines: seq<Text>, keyword: Text)
    ensures exists idx :: SelectsContaining(Filtered(lines, keyword), lines, keyword, idx)
    ensures forall x :: x in Filtered(lines, keyword) <==> x in lines && Contains(x, keyword)
  {
    var idx := FilteredIndices(lines, keyword);
    assert SelectsContaining(Filtered(lines, keyword), lines, keyword, idx);
    FilteredMembers(lines, keyword);
  }

  /** Every line contains the empty keyword, so filtering by it keeps the buffer. */
  lemma {:induction false} FilterEmptyKeepsAll(lines: seq<Text>)
    ensures Filtered(lines, []) == lines
  {
    if lines != [] {
      assert OccursAt(lines[|lines| - 1], [], 0);
      FilterEmptyKeepsAll(lines[..|lines| - 1]);
    }
  }

  // ---------------------------------------------------------------------------
  // Counts

  /** The run of non-whitespace bytes that starts s. */
  function LeadingWord(s: Text): (w: Text)
    ensures w <= s
    ensures forall k :: 0 <= k < |w| ==> !IsSpace(w[k])
    ensures |w| < |s| ==> IsSpace(s[|w|])
  {
    if s == [] || IsSpace(s[0]) then [] else [s[0]] + LeadingWord(s[1..])
  }

  /** What `istringstream >> word` extracts from a line, one word after the other. */
  function Words(s: Text): (ws: seq<Text>)
    ensures forall k :: 0 <= k < |ws| ==> |ws[k]| > 0
    decreases |s|
  {
    if s == [] then []
    else if IsSpace(s[0]) then Words(s[1..])
    else
      var w := LeadingWord(s);
      [w] + Words(s[|w|..])
  }

  /**
   * The number of word starts in s: positions holding a non-whitespace byte
   * whose predecessor is whitespace (prevSpace stands for the byte before s).
   */
  function WordStarts(s: Text, prevSpace: bool): nat
  {
    if s == [] then 0
    else (if prevSpace && !IsSpace(s[0]) then 1 else 0) + WordStarts(s[1..], IsSpace(s[0]))
  }

  /** Inside a word no new word starts. */
  lemma {:induction false} NoStartsInsideWord(w: Text, rest: Text)
    requires forall k :: 0 <= k < |w| ==> !IsSpace(w[k])
    ensures WordStarts(w + rest, false) == WordStarts(rest, false)
  {
    if w != [] {
      var s := w + rest;
      assert s[0] == w[0] && !IsSpace(s[0]);
      assert s[1..] == w[1..] + rest;
      assert WordStarts(s, false) == WordStarts(s[1..], false);
      NoStartsInsideWord(w[1..], rest);
    } else {
      assert w + rest == rest;
    }
  }

  /** The tokenizer finds one word per word start. */
  lemma {:induction false} WordsCountStarts(s: Text)
    ensures |Words(s)| == WordStarts(s, true)
    decreases |s|
  {
    if s != [] {
      if IsSpace(s[0]) {
        WordsCountStarts(s[1..]);
      } else {
        var w := LeadingWord(s);
        var rest := s[|w|..];
        assert s == w + rest;
        assert s[1..] == w[1..] + rest;
        NoStartsInsideWord(w[1..], rest);
        WordsCountStarts(rest);
        if rest != [] {
          assert WordStarts(rest, false) == WordStarts(rest, true);
        }
      }
    }
  }

  /** Words in one line. */
  function WordCount(s: Text): nat
  {
    |Words(s)|
  }

  /** Words in the whole buffer. */
  function TotalWords(lines: seq<Text>): nat
  {
    if lines == [] then 0 else TotalWords(lines[..|lines| - 1]) + WordCount(lines[|lines| - 1])
  }

  /** Bytes in the whole buffer, without line terminators. */
  function TotalChars(lines: seq<Text>): nat
  {
    if lines == [] then 0 else TotalChars(lines[..|lines| - 1]) + |lines[|lines| - 1]|
  }

  /** Any transformation that keeps the number of lines and every line's length keeps the character count. */
  lemma {:induction false} TotalCharsByLengths(a: seq<Text>, b: seq<Text>)
    requires |a| == |b| && forall i :: 0 <= i < |a| ==> |a[i]| == |b[i]|
    ensures TotalChars(a) == TotalChars(b)
  {
    if a != [] {
      TotalCharsByLengths(a[..|a| - 1], b[..|b| - 1]);
    }
  }

  /** The character count of the buffer is at least the words it holds. */
  lemma {:induction false} WordsAtMostChars(lines: seq<Text>)
    ensures TotalWords(lines) <= TotalChars(lines)
  {
    if lines != [] {
      WordsAtMostChars(lines[..|lines| - 1]);
      WordsAtMostLength(lines[|lines| - 1]);
    }
  }

  lemma {:induction false} WordsAtMostLength(s: Text)
    ensures |Words(s)| <= |s|
    decreases |s|
  {
    if s != [] {
      if IsSpace(s[0]) {
        WordsAtMostLength(s[1..]);
      } else {
        WordsAtMostLength(s[|LeadingWord(s)|..]);
      }
    }
  }
}
