/** The sentence splitter applied to each chunk's joined fragments: a regular-expression
    split on whitespace runs that follow `.`, `!` or `?`, then a filter that drops empty
    pieces. */
module Segmenter {
  import opened Wrappers
  import opened Text
  import opened Seqs

  predicate IsTerminalMark(c: char)
  {
    c == '.' || c == '!' || c == '?'
  }

  /** The pattern `(?<=[.!?])\s+` can start matching at index `q` of `s`: the character
      before `q` is a terminal mark and the one at `q` is whitespace. */
  ghost predicate BreakAt(s: string, q: int)
  {
    1 <= q < |s| && IsTerminalMark(s[q - 1]) && IsWhitespace(s[q])
  }

  /** No terminal mark in `s` is immediately followed by whitespace. */
  ghost predicate NoBreak(s: string)
  {
    forall q :: !BreakAt(s, q)
  }

  /** The first index at or after `from` where the pattern matches. */
  function FirstBreak(s: string, from: nat): (r: Option<nat>)
    ensures r.Some? ==> from <= r.value && BreakAt(s, r.value)
    ensures r.Some? ==> forall q :: from <= q < r.value ==> !BreakAt(s, q)
    ensures r.None? ==> forall q :: from <= q ==> !BreakAt(s, q)
    decreases |s| - from
  {
    if from >= |s| then None
    else if 1 <= from && IsTerminalMark(s[from - 1]) && IsWhitespace(s[from]) then Some(from)
    else FirstBreak(s, from + 1)
  }

  /** Where the greedy `\s+` that starts at `q` stops: the end of the whitespace run. */
  function RunEnd(s: string, q: nat): (e: nat)
    requires q <= |s|
    ensures q <= e <= |s|
    ensures forall k :: q <= k < e ==> IsWhitespace(s[k])
    ensures e == |s| || !IsWhitespace(s[e])
    decreases |s| - q
  {
    if q < |s| && IsWhitespace(s[q]) then RunEnd(s, q + 1) else q
  }

  /** `String.prototype.split` with the separator pattern `(?<=[.!?])\s+`: cut at every
      break and drop the whitespace run the pattern consumed. The search resumes after the
      run, where the look-behind sees whitespace, so index 0 of the rest is never a break. */
  function SplitAtBreaks(s: string): (r: seq<string>)
    ensures |r| >= 1
    decreases |s|
  {
    match FirstBreak(s, 1)
    case None => [s]
    case Some(q) => [s[..q]] + SplitAtBreaks(s[RunEnd(s, q)..])
  }

  /** The pieces, each followed by its gap: `r[0] + gaps[0] + r[1] + gaps[1] + ...`. */
  function Weave(r: seq<string>, gaps: seq<string>): string
    requires |gaps| == |r|
    decreases |r|
  {
    if r == [] then "" else r[0] + gaps[0] + Weave(r[1..], gaps[1..])
  }

  /** `gaps` are the whitespace runs a split consumed: the gap after each piece but the last
      is a non-empty whitespace run followed by a piece that is empty or does not start with
      whitespace (so the run is maximal), and a non-empty gap follows a piece ending in a
      terminal mark. The gap after the last piece is trailing whitespace. */
  ghost predicate ConsumedRuns(r: seq<string>, gaps: seq<string>)
    decreases |r|
  {
    && |gaps| == |r|
    && (r != [] ==>
      && AllWhitespace(gaps[0])
      && (gaps[0] != "" ==> r[0] != "" && IsTerminalMark(r[0][|r[0]| - 1]))
      && (|r| > 1 ==> gaps[0] != "" && (r[1] == "" || !IsWhitespace(r[1][0])))
      && ConsumedRuns(r[1..], gaps[1..]))
  }

  /** Reference definition of what the splitter keeps: `s` with every whitespace run that
      follows a terminal mark deleted, and nothing else. `afterMark` holds when the last
      character kept was a terminal mark (whitespace since then has been deleted). */
  function DropBreakRuns(s: string, afterMark: bool): string
    decreases |s|
  {
    if s == [] then ""
    else if afterMark && IsWhitespace(s[0]) then DropBreakRuns(s[1..], true)
    else [s[0]] + DropBreakRuns(s[1..], IsTerminalMark(s[0]))
  }

  /** The sentences broadcast for one chunk's joined text. */
  function SplitSentences(text: string): seq<string>
  {
    Without(SplitAtBreaks(text), "")
  }

  /** No sentence is empty; every sentence but the last ends in a terminal mark; no sentence
      holds a mark followed by whitespace; and the sentences concatenate to the text with
      exactly the whitespace runs after marks deleted. */
  lemma SplitSentencesSpec(text: string)
    ensures var r := SplitSentences(text);
      && (forall i :: 0 <= i < |r| ==> r[i] != "")
      && (forall i :: 0 <= i < |r| - 1 ==> IsTerminalMark(r[i][|r[i]| - 1]))
      && (forall i :: 0 <= i < |r| ==> NoBreak(r[i]))
      && Join(r, "") == DropBreakRuns(text, false)
  {
    SplitAtBreaksPieces(text);
    SplitAtBreaksContent(text);
    DropEmptyKeepsCuts(SplitAtBreaks(text));
  }

  /** Where the cuts fall: the text is the sentences woven with the whitespace runs that
      follow their marks. Each run is maximal (the next sentence does not start with
      whitespace), and only a run after the last sentence may be left over. */
  lemma SplitSentencesCuts(text: string)
    ensures exists gaps :: ConsumedRuns(SplitSentences(text), gaps) && Weave(SplitSentences(text), gaps) == text
  {
    var pieces := SplitAtBreaks(text);
    SplitAtBreaksPieces(text);
    var gaps := SplitAtBreaksRejoin(text);
    var g := DropEmptyKeepsRuns(pieces, gaps);
    assert ConsumedRuns(SplitSentences(text), g) && Weave(SplitSentences(text), g) == text;
  }

  /** The converse of `SplitSentencesSpec` and `SplitSentencesCuts`: non-empty pieces cut
      at breaks and woven with maximal whitespace runs into `text` are exactly the sentences
      the splitter returns for `text`, so those clauses fix every cut. */
  lemma {:induction false} SplitSentencesUnique(text: string, r: seq<string>, gaps: seq<string>)
    requires forall i :: 0 <= i < |r| ==> r[i] != ""
    requires CutAtBreaks(r) && ConsumedRuns(r, gaps) && Weave(r, gaps) == text
    ensures SplitSentences(text) == r
    decreases |r|
  {
    if r == [] {
      assert text == "";
      assert SplitAtBreaks(text) == [""];
      assert Without([""], "") == Without([], "");
    } else {
      var x, gx, rest := r[0], gaps[0], r[1..];
      var t := Weave(rest, gaps[1..]);
      assert text == x + gx + t;
      if gx == "" {
        assert |r| == 1 && t == "" && text == x;
        assert Without([x], "") == [x] + Without([], "");
        assert NoBreak(text);
        assert FirstBreak(text, 1).None?;
      } else {
        var q, e := |x|, |x| + |gx|;
        assert text[..q] == x && text[q..e] == gx && text[e..] == t;
        forall k | 1 <= k < q
          ensures !BreakAt(text, k)
        {
          assert !BreakAt(x, k);
        }
        FirstBreakIs(text, q);
        if rest != [] {
          WeaveStart(rest, gaps[1..]);
          assert text[e] == t[0];
        }
        RunEndIs(text, q, e);
        CutAtBreaksTail(r);
        SplitSentencesUnique(t, rest, gaps[1..]);
        assert SplitAtBreaks(text) == [x] + SplitAtBreaks(t);
        assert ([x] + SplitAtBreaks(t))[1..] == SplitAtBreaks(t);
        assert r == [x] + rest;
      }
    }
  }

  /** A break with none before it is the first one. */
  lemma FirstBreakIs(s: string, q: nat)
    requires BreakAt(s, q)
    requires forall k :: 1 <= k < q ==> !BreakAt(s, k)
    ensures FirstBreak(s, 1) == Some(q)
  {
  }

  /** The greedy whitespace run ends at the first non-whitespace character. */
  lemma RunEndIs(s: string, q: nat, e: nat)
    requires q <= e <= |s|
    requires forall k :: q <= k < e ==> IsWhitespace(s[k])
    requires e == |s| || !IsWhitespace(s[e])
    ensures RunEnd(s, q) == e
  {
  }

  /** Every piece but the last ends in a terminal mark, and no piece holds a break. */
  ghost predicate CutAtBreaks(r: seq<string>)
  {
    && (forall i :: 0 <= i < |r| - 1 ==> r[i] != "" && IsTerminalMark(r[i][|r[i]| - 1]))
    && (forall i :: 0 <= i < |r| ==> NoBreak(r[i]))
  }

  lemma {:induction false} SplitAtBreaksPieces(s: string)
    ensures CutAtBreaks(SplitAtBreaks(s))
    decreases |s|
  {
    var r := SplitAtBreaks(s);
    match FirstBreak(s, 1)
    case None =>
      assert r == [s];
    case Some(q) =>
      var e := RunEnd(s, q);
      var rest := SplitAtBreaks(s[e..]);
      SplitAtBreaksPieces(s[e..]);
      assert r == [s[..q]] + rest;
      forall k
        ensures !BreakAt(s[..q], k)
      {
        if 1 <= k < q {
          assert !BreakAt(s, k);
        }
      }
      assert r[0] == s[..q] && r[0][q - 1] == s[q - 1];
      forall i | 1 <= i < |r|
        ensures r[i] == rest[i - 1] && NoBreak(r[i])
        ensures i < |r| - 1 ==> r[i] != "" && IsTerminalMark(r[i][|r[i]| - 1])
      {
        assert NoBreak(rest[i - 1]);
        if i < |r| - 1 {
          assert i - 1 < |rest| - 1;
          assert rest[i - 1] != "" && IsTerminalMark(rest[i - 1][|rest[i - 1]| - 1]);
        }
      }
  }

  /** Concatenating the pieces reproduces the text minus the consumed whitespace runs. */
  lemma {:induction false} SplitAtBreaksContent(s: string)
    ensures Join(SplitAtBreaks(s), "") == DropBreakRuns(s, false)
    decreases |s|
  {
    match FirstBreak(s, 1)
    case None =>
      if s != [] {
        KeepUpTo(s, |s|, false);
        assert s[..|s|] == s && s[|s|..] == [];
      }
      assert Join([s], "") == s;
    case Some(q) =>
      var e := RunEnd(s, q);
      var rest := SplitAtBreaks(s[e..]);
      SplitAtBreaksContent(s[e..]);
      KeepUpTo(s, q, false);
      SkipRun(s, q, e);
      StartStateIrrelevant(s[e..]);
      assert SplitAtBreaks(s) == [s[..q]] + rest;
      assert (([s[..q]] + rest)[1..]) == rest;
      JoinHead([s[..q]] + rest, "");
      assert s[..q] + "" == s[..q];
  }

  /** The text is the pieces woven with the whitespace runs the pattern consumed; the gap
      after the last piece is empty. */
  lemma {:induction false} SplitAtBreaksRejoin(s: string) returns (gaps: seq<string>)
    ensures ConsumedRuns(SplitAtBreaks(s), gaps) && Weave(SplitAtBreaks(s), gaps) == s
    ensures |gaps| >= 1 && gaps[|gaps| - 1] == ""
    decreases |s|
  {
    match FirstBreak(s, 1)
    case None =>
      ConsumedRunsCons(s, "", [], []);
      assert s + "" + "" == s;
      gaps := [""];
    case Some(q) =>
      var e := RunEnd(s, q);
      var rest := SplitAtBreaks(s[e..]);
      var g := SplitAtBreaksRejoin(s[e..]);
      CutStep(s, q, e, rest, g);
      gaps := [s[q..e]] + g;
      assert gaps[|gaps| - 1] == g[|g| - 1];
  }

  /** One cut: the piece before the break, the run the pattern consumed, then the rest. */
  lemma CutStep(s: string, q: nat, e: nat, rest: seq<string>, g: seq<string>)
    requires BreakAt(s, q) && q <= e <= |s|
    requires forall k :: q <= k < e ==> IsWhitespace(s[k])
    requires e == |s| || !IsWhitespace(s[e])
    requires |rest| >= 1 && ConsumedRuns(rest, g) && Weave(rest, g) == s[e..]
    ensures ConsumedRuns([s[..q]] + rest, [s[q..e]] + g)
    ensures Weave([s[..q]] + rest, [s[q..e]] + g) == s
  {
    var x, gx := s[..q], s[q..e];
    assert AllWhitespace(gx) by {
      assert forall k :: 0 <= k < |gx| ==> gx[k] == s[q + k];
    }
    assert gx != "" && x != "" && IsTerminalMark(x[|x| - 1]) by {
      assert e > q && x[q - 1] == s[q - 1];
    }
    assert rest[0] == "" || !IsWhitespace(rest[0][0]) by {
      if rest[0] != "" {
        WeaveStart(rest, g);
        assert s[e..][0] == s[e];
      }
    }
    ConsumedRunsCons(x, gx, rest, g);
    assert s == x + gx + s[e..];
  }

  /** A weave starts with its first piece. */
  lemma WeaveStart(r: seq<string>, gaps: seq<string>)
    requires |gaps| == |r| && r != [] && r[0] != ""
    ensures Weave(r, gaps) != "" && Weave(r, gaps)[0] == r[0][0]
  {
    assert Weave(r, gaps) == r[0] + (gaps[0] + Weave(r[1..], gaps[1..]));
  }

  /** Weaving one more piece and its gap in front. */
  lemma ConsumedRunsCons(x: string, gx: string, rest: seq<string>, g: seq<string>)
    requires AllWhitespace(gx) && ConsumedRuns(rest, g)
    requires gx != "" ==> x != "" && IsTerminalMark(x[|x| - 1])
    requires rest != [] ==> gx != "" && (rest[0] == "" || !IsWhitespace(rest[0][0]))
    ensures ConsumedRuns([x] + rest, [gx] + g)
    ensures Weave([x] + rest, [gx] + g) == x + gx + Weave(rest, g)
  {
    assert ([x] + rest)[1..] == rest && ([gx] + g)[1..] == g;
  }

  /** With no break before `q`, the reference keeps the first `q` characters. */
  lemma {:induction false} KeepUpTo(s: string, q: nat, afterMark: bool)
    requires 1 <= q <= |s|
    requires afterMark ==> !IsWhitespace(s[0])
    requires forall k :: 1 <= k < q ==> !BreakAt(s, k)
    ensures DropBreakRuns(s, afterMark) == s[..q] + DropBreakRuns(s[q..], IsTerminalMark(s[q - 1]))
    decreases q
  {
    if q > 1 {
      var t := s[1..];
      assert !BreakAt(s, 1);
      forall k | 1 <= k < q - 1
        ensures !BreakAt(t, k)
      {
        assert !BreakAt(s, k + 1);
      }
      KeepUpTo(t, q - 1, IsTerminalMark(s[0]));
      assert t[q - 1..] == s[q..];
      assert s[..q] == [s[0]] + t[..q - 1];
    }
  }

  /** The whitespace run after a mark is deleted entirely. */
  lemma {:induction false} SkipRun(s: string, q: nat, e: nat)
    requires q <= e <= |s|
    requires forall k :: q <= k < e ==> IsWhitespace(s[k])
    ensures DropBreakRuns(s[q..], true) == DropBreakRuns(s[e..], true)
    decreases e - q
  {
    if q < e {
      assert s[q..][1..] == s[q + 1..];
      SkipRun(s, q + 1, e);
    }
  }

  /** Text that does not start with whitespace is treated alike in both states. */
  lemma StartStateIrrelevant(t: string)
    requires t == [] || !IsWhitespace(t[0])
    ensures DropBreakRuns(t, true) == DropBreakRuns(t, false)
  {
  }

  /** `.filter(Boolean)` keeps the cut shape and the concatenation. */
  lemma {:induction false} DropEmptyKeepsCuts(xs: seq<string>)
    requires |xs| >= 1
    requires CutAtBreaks(xs)
    ensures CutAtBreaks(Without(xs, ""))
    ensures Join(Without(xs, ""), "") == Join(xs, "")
    decreases |xs|
  {
    var tail := xs[1..];
    if xs[0] == "" {
      assert |xs| == 1;
      assert Without(xs, "") == Without(tail, "") && tail == [];
    } else {
      assert Without(xs, "") == [xs[0]] + Without(tail, "");
      if tail == [] {
        assert xs == [xs[0]];
      } else {
        CutAtBreaksTail(xs);
        DropEmptyKeepsCuts(tail);
        var rest := Without(tail, "");
        CutAtBreaksCons(xs[0], rest);
        JoinCons(xs[0], rest);
        JoinCons(xs[0], tail);
        assert [xs[0]] + tail == xs;
      }
    }
  }

  /** One more cut piece in front. */
  lemma CutAtBreaksCons(x: string, rest: seq<string>)
    requires CutAtBreaks(rest) && NoBreak(x)
    requires rest != [] ==> x != "" && IsTerminalMark(x[|x| - 1])
    ensures CutAtBreaks([x] + rest)
  {
    assert forall i :: 1 <= i < |rest| + 1 ==> ([x] + rest)[i] == rest[i - 1];
  }

  /** Joining with no separator: the first piece, then the join of the others. */
  lemma JoinCons(x: string, rest: seq<string>)
    ensures Join([x] + rest, "") == x + Join(rest, "")
  {
    if rest == [] {
      assert [x] + rest == [x] && x + "" == x;
    } else {
      assert ([x] + rest)[1..] == rest;
      assert x + "" + Join(rest, "") == x + Join(rest, "");
    }
  }

  /** `.filter(Boolean)` keeps the weave: an empty piece can only be the last one, and its
      gap is empty, so the gap before it becomes the trailing one. */
  lemma {:induction false} DropEmptyKeepsRuns(xs: seq<string>, gaps: seq<string>) returns (g: seq<string>)
    requires CutAtBreaks(xs) && ConsumedRuns(xs, gaps)
    ensures ConsumedRuns(Without(xs, ""), g) && Weave(Without(xs, ""), g) == Weave(xs, gaps)
    decreases |xs|
  {
    if xs == [] || xs[0] == "" {
      if xs != [] {
        assert |xs| == 1 && gaps[0] == "";
        assert Without(xs, "") == Without(xs[1..], "") && xs[1..] == [];
        assert Weave(xs, gaps) == "" + "" + Weave(xs[1..], gaps[1..]);
      }
      g := [];
    } else {
      var tail := xs[1..];
      CutAtBreaksTail(xs);
      var g' := DropEmptyKeepsRuns(tail, gaps[1..]);
      var rest := Without(tail, "");
      assert Without(xs, "") == [xs[0]] + rest;
      WithoutEmptyFirst(tail);
      ConsumedRunsCons(xs[0], gaps[0], rest, g');
      assert Weave(xs, gaps) == xs[0] + gaps[0] + Weave(tail, gaps[1..]);
      g := [gaps[0]] + g';
    }
  }

  lemma CutAtBreaksTail(xs: seq<string>)
    requires xs != [] && CutAtBreaks(xs)
    ensures CutAtBreaks(xs[1..])
  {
    assert forall i :: 0 <= i < |xs| - 1 ==> xs[1..][i] == xs[i + 1];
  }

  /** Only the last piece can be empty, so filtering keeps the first piece in front. */
  lemma WithoutEmptyFirst(xs: seq<string>)
    requires CutAtBreaks(xs)
    ensures Without(xs, "") != [] ==> xs != [] && Without(xs, "")[0] == xs[0]
  {
    if xs != [] {
      if xs[0] == "" {
        assert |xs| == 1;
        assert Without(xs, "") == Without(xs[1..], "") && xs[1..] == [];
      } else {
        assert Without(xs, "") == [xs[0]] + Without(xs[1..], "");
      }
    }
  }

  /** A sentence as the splitter emits it when it is followed by more text: non-empty, not
      starting with whitespace, ending in a terminal mark, with no break inside. */
  ghost predicate WholeSentence(s: string)
  {
    s != [] && !IsWhitespace(s[0]) && IsTerminalMark(s[|s| - 1]) && NoBreak(s)
  }

  /** Inverse direction: sentences joined by single spaces, as the handler joins fragments,
      are split back into exactly those sentences. The last one need not end in a mark. */
  lemma SplitSentencesOfJoin(sentences: seq<string>)
    requires |sentences| >= 1
    requires forall i :: 0 <= i < |sentences| - 1 ==> WholeSentence(sentences[i])
    requires var last := sentences[|sentences| - 1];
      last != [] && !IsWhitespace(last[0]) && NoBreak(last)
    ensures SplitSentences(Join(sentences, " ")) == sentences
  {
    SentencesNonEmpty(sentences);
    SplitAtBreaksOfJoin(sentences);
    WithoutAbsent(sentences, "");
  }

  /** None of the sentences a join is built from is empty. */
  lemma SentencesNonEmpty(sentences: seq<string>)
    requires |sentences| >= 1
    requires forall i :: 0 <= i < |sentences| - 1 ==> WholeSentence(sentences[i])
    requires var last := sentences[|sentences| - 1];
      last != [] && !IsWhitespace(last[0]) && NoBreak(last)
    ensures "" !in sentences
  {
    forall i | 0 <= i < |sentences|
      ensures sentences[i] != ""
    {
      if i < |sentences| - 1 {
        assert WholeSentence(sentences[i]);
      }
    }
  }

  lemma {:induction false} SplitAtBreaksOfJoin(sentences: seq<string>)
    requires |sentences| >= 1
    requires forall i :: 0 <= i < |sentences| - 1 ==> WholeSentence(sentences[i])
    requires var last := sentences[|sentences| - 1];
      last != [] && !IsWhitespace(last[0]) && NoBreak(last)
    ensures SplitAtBreaks(Join(sentences, " ")) == sentences
    decreases |sentences|
  {
    var head := sentences[0];
    if |sentences| == 1 {
      match FirstBreak(head, 1)
      case None =>
      case Some(q) =>
        assert false;
    } else {
      var rest := sentences[1..];
      var tail := Join(rest, " ");
      var text := Join(sentences, " ");
      var q := |head|;
      assert text == head + " " + tail;
      JoinStart(rest, " ");
      assert rest[0] == sentences[1];
      assert rest[0] != [] && !IsWhitespace(rest[0][0]);
      assert tail[0] == rest[0][0];
      assert text[q] == ' ' && text[q + 1] == tail[0];
      assert BreakAt(text, q);
      forall k | 1 <= k < q
        ensures !BreakAt(text, k)
      {
        assert !BreakAt(head, k);
      }
      match FirstBreak(text, 1)
      case None =>
        assert false;
      case Some(v) =>
        assert v == q;
        var e := RunEnd(text, q);
        assert e == q + 1;
        assert text[..q] == head;
        assert text[e..] == tail;
        assert forall i :: 0 <= i < |rest| ==> rest[i] == sentences[i + 1];
        SplitAtBreaksOfJoin(rest);
        assert sentences == [head] + rest;
    }
  }

  /** A join of non-empty pieces starts with the first piece. */
  lemma JoinStart(xs: seq<string>, sep: string)
    requires |xs| >= 1 && xs[0] != []
    ensures |Join(xs, sep)| >= |xs[0]| && Join(xs, sep)[..|xs[0]|] == xs[0]
  {
  }
}
