/** String primitives of the JavaScript runtime that the client code relies on:
    whitespace, `trim`, `split` on a one-character separator and `Array.prototype.join`. */
module Text {

  /** The ECMAScript WhiteSpace and LineTerminator code points (the Unicode "Zs" category
      plus tab, vertical tab, form feed, the byte-order mark, line feed, carriage return and
      the line and paragraph separators). `String.prototype.trim` strips exactly these, and
      the regular-expression class `\s` matches exactly these. */
  const Whitespace: set<char> :=
    {'\t', '\n', '\U{000B}', '\U{000C}', '\r', ' ', '\U{00A0}', '\U{1680}',
     '\U{2000}', '\U{2001}', '\U{2002}', '\U{2003}', '\U{2004}', '\U{2005}',
     '\U{2006}', '\U{2007}', '\U{2008}', '\U{2009}', '\U{200A}',
     '\U{2028}', '\U{2029}', '\U{202F}', '\U{205F}', '\U{3000}', '\U{FEFF}'}

  predicate IsWhitespace(c: char)
  {
    c in Whitespace
  }

  ghost predicate AllWhitespace(s: string)
  {
    forall k :: 0 <= k < |s| ==> IsWhitespace(s[k])
  }

  /** Neither end of `s` is whitespace. */
  ghost predicate Trimmed(s: string)
  {
    s == [] || (!IsWhitespace(s[0]) && !IsWhitespace(s[|s| - 1]))
  }

  /** `r` is `s` with some whitespace removed from each end and nothing else. */
  ghost predicate PaddedBy(s: string, r: string)
  {
    exists i :: 0 <= i <= |s| - |r| && s[i..i + |r|] == r && AllWhitespace(s[..i]) && AllWhitespace(s[i + |r|..])
  }

  function TrimStart(s: string): (r: string)
    ensures |r| <= |s| && r == s[|s| - |r|..]
    ensures AllWhitespace(s[..|s| - |r|])
    ensures r == [] || !IsWhitespace(r[0])
    decreases |s|
  {
    if |s| > 0 && IsWhitespace(s[0]) then
      var r := TrimStart(s[1..]);
      assert s[..|s| - |r|] == [s[0]] + s[1..][..|s| - 1 - |r|];
      r
    else s
  }

  function TrimEnd(s: string): (r: string)
    ensures |r| <= |s| && r == s[..|r|]
    ensures AllWhitespace(s[|r|..])
    ensures r == [] || !IsWhitespace(r[|r| - 1])
    decreases |s|
  {
    if |s| > 0 && IsWhitespace(s[|s| - 1]) then
      var r := TrimEnd(s[..|s| - 1]);
      assert s[|r|..] == s[..|s| - 1][|r|..] + [s[|s| - 1]];
      r
    else s
  }

  /** `String.prototype.trim`: the longest infix of `s` with no whitespace at either end. */
  function Trim(s: string): (r: string)
    ensures Trimmed(r)
  {
    TrimEnd(TrimStart(s))
  }

  /** What `trim` removes is whitespace, from the two ends only. */
  lemma TrimRemovesPadding(s: string)
    ensures PaddedBy(s, Trim(s))
  {
    TrimWitness(s, TrimStart(s), Trim(s));
  }

  lemma TrimWitness(s: string, t: string, r: string)
    requires |t| <= |s| && t == s[|s| - |t|..] && AllWhitespace(s[..|s| - |t|])
    requires |r| <= |t| && r == t[..|r|] && AllWhitespace(t[|r|..])
    ensures PaddedBy(s, r)
  {
    var i := |s| - |t|;
    assert s[i..i + |r|] == r;
    assert s[i + |r|..] == t[|r|..];
  }

  /** Trimming a string that is already trimmed changes nothing. */
  lemma TrimTrimmed(s: string)
    requires Trimmed(s)
    ensures Trim(s) == s
  {
  }

  /** Trimming removes exactly the whitespace added around a trimmed string. */
  lemma TrimPadded(pre: string, p: string, post: string)
    requires AllWhitespace(pre) && AllWhitespace(post) && Trimmed(p)
    ensures Trim(pre + p + post) == p
  {
    var s := pre + p + post;
    if p == [] {
      assert s == pre + post;
    } else {
      assert s == pre + (p + post);
      TrimStartWhitespace(pre, p + post);
      TrimEndWhitespace(p, post);
    }
  }

  lemma {:induction false} TrimStartWhitespace(pre: string, u: string)
    requires AllWhitespace(pre)
    requires u == [] || !IsWhitespace(u[0])
    ensures TrimStart(pre + u) == u
    decreases |pre|
  {
    if pre == [] {
      assert pre + u == u;
    } else {
      assert (pre + u)[1..] == pre[1..] + u;
      TrimStartWhitespace(pre[1..], u);
    }
  }

  lemma {:induction false} TrimEndWhitespace(u: string, post: string)
    requires AllWhitespace(post)
    requires u == [] || !IsWhitespace(u[|u| - 1])
    ensures TrimEnd(u + post) == u
    decreases |post|
  {
    if post == [] {
      assert u + post == u;
    } else {
      var s := u + post;
      assert s[..|s| - 1] == u + post[..|post| - 1];
      TrimEndWhitespace(u, post[..|post| - 1]);
    }
  }

  /** `Array.prototype.join(sep)`: the elements with `sep` between neighbours. */
  function Join(xs: seq<string>, sep: string): string
    decreases |xs|
  {
    if |xs| == 0 then ""
    else if |xs| == 1 then xs[0]
    else xs[0] + sep + Join(xs[1..], sep)
  }

  /** `String.prototype.split(sep)` for a one-character separator: the maximal
      separator-free pieces, one more than the number of separators. */
  function SplitOn(s: string, sep: char): (r: seq<string>)
    ensures |r| >= 1
    ensures forall i :: 0 <= i < |r| ==> sep !in r[i]
    decreases |s|
  {
    if |s| == 0 then [""]
    else
      var rest := SplitOn(s[1..], sep);
      assert s == [s[0]] + s[1..];
      if s[0] == sep then [""] + rest
      else [[s[0]] + rest[0]] + rest[1..]
  }

  /** Joining the pieces back with the separator gives the original string. */
  lemma {:induction false} JoinSplitOn(s: string, sep: char)
    ensures Join(SplitOn(s, sep), [sep]) == s
    decreases |s|
  {
    if |s| > 0 {
      var rest := SplitOn(s[1..], sep);
      var pieces := SplitOn(s, sep);
      JoinSplitOn(s[1..], sep);
      assert Join(rest, [sep]) == s[1..];
      if s[0] == sep {
        assert pieces == [""] + rest;
        JoinHead(pieces, [sep]);
        assert pieces[1..] == rest;
      } else if |rest| == 1 {
        assert pieces == [[s[0]] + rest[0]];
      } else {
        assert pieces == [[s[0]] + rest[0]] + rest[1..];
        JoinHead(rest, [sep]);
        JoinHead(pieces, [sep]);
        assert pieces[1..] == rest[1..];
      }
    }
  }

  lemma JoinHead(xs: seq<string>, sep: string)
    requires |xs| > 1
    ensures Join(xs, sep) == xs[0] + sep + Join(xs[1..], sep)
  {
  }

  /** A separator-free prefix glues onto the first piece of what follows. */
  lemma {:induction false} SplitOnFreePrefix(x: string, t: string, sep: char)
    requires sep !in x
    ensures SplitOn(x + t, sep) == [x + SplitOn(t, sep)[0]] + SplitOn(t, sep)[1..]
    decreases |x|
  {
    if x != [] {
      assert (x + t)[1..] == x[1..] + t;
      SplitOnFreePrefix(x[1..], t, sep);
      assert [x[0]] + (x[1..] + SplitOn(t, sep)[0]) == x + SplitOn(t, sep)[0];
    } else {
      assert x + t == t;
      assert x + SplitOn(t, sep)[0] == SplitOn(t, sep)[0];
    }
  }

  /** Splitting a join of separator-free pieces gives the pieces back. */
  lemma {:induction false} SplitOnJoin(xs: seq<string>, sep: char)
    requires |xs| >= 1
    requires forall i :: 0 <= i < |xs| ==> sep !in xs[i]
    ensures SplitOn(Join(xs, [sep]), sep) == xs
    decreases |xs|
  {
    if |xs| == 1 {
      SplitOnFreePrefix(xs[0], "", sep);
      assert xs[0] + "" == xs[0];
    } else {
      var tail := Join(xs[1..], [sep]);
      SplitOnJoin(xs[1..], sep);
      assert Join(xs, [sep]) == xs[0] + ([sep] + tail);
      SplitOnFreePrefix(xs[0], [sep] + tail, sep);
      assert ([sep] + tail)[1..] == tail;
      assert SplitOn([sep] + tail, sep) == [""] + xs[1..];
      assert xs[0] + "" == xs[0];
      assert xs == [xs[0]] + xs[1..];
    }
  }
}
