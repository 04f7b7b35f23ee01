/** Character classes and string helpers the upload segmenter is built from:
    JavaScript whitespace, longest-prefix spans, `trim()`, splitting on line
    feeds and ASCII lower-casing. */
module Strings {

  /** The characters JavaScript's `\s` matches and `String.prototype.trim` strips:
      the WhiteSpace and LineTerminator code points of ECMAScript. */
  predicate IsSpace(c: char) {
    || ('\t' <= c <= '\r')                  // tab, line feed, vertical tab, form feed, carriage return
    || c == ' ' || c == '\U{A0}' || c == '\U{1680}'
    || ('\U{2000}' <= c <= '\U{200A}')
    || c == '\U{2028}' || c == '\U{2029}' || c == '\U{202F}'
    || c == '\U{205F}' || c == '\U{3000}' || c == '\U{FEFF}'
  }

  predicate NotNewline(c: char) {
    c != '\n'
  }

  ghost predicate AllSpace(s: string) {
    forall i :: 0 <= i < |s| ==> IsSpace(s[i])
  }

  /** Length of the longest prefix of `s` whose characters all satisfy `p`. */
  function SpanLength(s: string, p: char -> bool): (n: nat)
    ensures n <= |s|
    ensures forall i :: 0 <= i < n ==> p(s[i])
    ensures n < |s| ==> !p(s[n])
    decreases |s|
  {
    if s == [] || !p(s[0]) then 0 else 1 + SpanLength(s[1..], p)
  }

  /** Length of the longest suffix of `s` whose characters all satisfy `p`. */
  function BackSpanLength(s: string, p: char -> bool): (n: nat)
    ensures n <= |s|
    ensures forall i :: |s| - n <= i < |s| ==> p(s[i])
    ensures n < |s| ==> !p(s[|s| - n - 1])
    decreases |s|
  {
    if s == [] || !p(s[|s| - 1]) then 0 else 1 + BackSpanLength(s[..|s| - 1], p)
  }

  /** A prefix whose characters all satisfy `p` is spanned whole. */
  lemma {:induction false} SpanAll(a: string, b: string, p: char -> bool)
    requires forall i :: 0 <= i < |a| ==> p(a[i])
    ensures SpanLength(a + b, p) == |a| + SpanLength(b, p)
    decreases |a|
  {
    if a != [] {
      assert (a + b)[0] == a[0] && p(a[0]);
      assert (a + b)[1..] == a[1..] + b;
      assert forall i :: 0 <= i < |a[1..]| ==> p(a[1..][i]);
      SpanAll(a[1..], b, p);
    } else {
      assert a + b == b;
    }
  }

  /** The span of `a + b` is exactly `a` when `a` satisfies `p` and `b` does
      not start with a character that does. */
  lemma SpanExact(a: string, b: string, p: char -> bool)
    requires forall i :: 0 <= i < |a| ==> p(a[i])
    requires b == [] || !p(b[0])
    ensures SpanLength(a + b, p) == |a|
  {
    SpanAll(a, b, p);
  }

  /** A suffix whose characters all satisfy `p` is spanned whole. */
  lemma {:induction false} BackSpanAll(a: string, b: string, p: char -> bool)
    requires forall i :: 0 <= i < |b| ==> p(b[i])
    ensures BackSpanLength(a + b, p) == |b| + BackSpanLength(a, p)
    decreases |b|
  {
    if b != [] {
      var b' := b[..|b| - 1];
      assert (a + b)[|a + b| - 1] == b[|b| - 1] && p(b[|b| - 1]);
      assert (a + b)[..|a + b| - 1] == a + b';
      assert forall i :: 0 <= i < |b'| ==> p(b'[i]);
      BackSpanAll(a, b', p);
    } else {
      assert a + b == a;
    }
  }

  /** A string with no leading or trailing whitespace. */
  predicate IsTrimmed(s: string) {
    s == [] || (!IsSpace(s[0]) && !IsSpace(s[|s| - 1]))
  }

  /** `s` without its leading whitespace (TrimStartDrops says what is cut). */
  function TrimStart(s: string): (r: string)
    ensures |r| <= |s|
    ensures r == [] || !IsSpace(r[0])
    decreases |s|
  {
    if s != [] && IsSpace(s[0]) then TrimStart(s[1..]) else s
  }

  /** `s` without its trailing whitespace (TrimEndDrops says what is cut). */
  function TrimEnd(s: string): (r: string)
    ensures |r| <= |s|
    ensures r == [] || !IsSpace(r[|r| - 1])
    decreases |s|
  {
    if s != [] && IsSpace(s[|s| - 1]) then TrimEnd(s[..|s| - 1]) else s
  }

  /** `TrimStart` cuts a run of whitespace off the front and keeps the rest. */
  lemma {:induction false} TrimStartDrops(s: string)
    ensures var r := TrimStart(s);
            r == s[|s| - |r|..] && AllSpace(s[..|s| - |r|])
    decreases |s|
  {
    if s != [] && IsSpace(s[0]) {
      var r := TrimStart(s[1..]);
      TrimStartDrops(s[1..]);
      assert s[1..][|s| - 1 - |r|..] == s[|s| - |r|..];
      assert forall i :: 0 < i < |s| - |r| ==> s[i] == s[1..][..|s| - 1 - |r|][i - 1];
    }
  }

  /** `TrimEnd` cuts a run of whitespace off the back and keeps the rest. */
  lemma {:induction false} TrimEndDrops(s: string)
    ensures var r := TrimEnd(s);
            r == s[..|r|] && AllSpace(s[|r|..])
    decreases |s|
  {
    if s != [] && IsSpace(s[|s| - 1]) {
      var r := TrimEnd(s[..|s| - 1]);
      TrimEndDrops(s[..|s| - 1]);
      assert s[..|s| - 1][..|r|] == s[..|r|];
      assert forall i :: |r| <= i < |s| - 1 ==> s[i] == s[..|s| - 1][|r|..][i - |r|];
    }
  }

  /** `String.prototype.trim`: whitespace removed from both ends; the result is
      empty exactly when `s` is all whitespace (TrimSlice says which part is kept). */
  function Trim(s: string): (r: string)
    ensures IsTrimmed(r)
    ensures r == [] <==> AllSpace(s)
  {
    var t := TrimStart(s);
    var r := TrimEnd(t);
    TrimStartDrops(s);
    TrimEndDrops(t);
    TrimEnds(t, r);
    TrimEmpty(s, t, r);
    r
  }

  /** What `Trim` keeps is one slice of `s`, with only whitespace around it. */
  lemma TrimSlice(s: string)
    ensures var r := Trim(s);
            exists i :: 0 <= i <= |s| - |r| && r == s[i..i + |r|]
                        && AllSpace(s[..i]) && AllSpace(s[i + |r|..])
  {
    var t := TrimStart(s);
    var r := TrimEnd(t);
    TrimStartDrops(s);
    TrimEndDrops(t);
    var i := |s| - |t|;
    TrimWhere(s, t, r);
    assert r == s[i..i + |r|] && AllSpace(s[..i]) && AllSpace(s[i + |r|..]);
  }

  /** Trimming never brings in a line feed. */
  lemma TrimOneLine(s: string)
    ensures '\n' !in s ==> '\n' !in Trim(s)
  {
    var t := TrimStart(s);
    var r := TrimEnd(t);
    TrimStartDrops(s);
    TrimEndDrops(t);
    assert r == s[|s| - |t|..|s| - |t| + |r|];
    NoNewlineSlice(s, |s| - |t|, |s| - |t| + |r|);
  }

  lemma TrimEnds(t: string, r: string)
    requires t == [] || !IsSpace(t[0])
    requires |r| <= |t| && r == t[..|r|] && (r == [] || !IsSpace(r[|r| - 1]))
    ensures IsTrimmed(r)
  {
    if r != [] {
      assert r[0] == t[0];
    }
  }

  lemma TrimWhere(s: string, t: string, r: string)
    requires |t| <= |s| && t == s[|s| - |t|..] && AllSpace(s[..|s| - |t|])
    requires |r| <= |t| && r == t[..|r|] && AllSpace(t[|r|..])
    ensures r == s[|s| - |t|..|s| - |t| + |r|]
    ensures AllSpace(s[|s| - |t| + |r|..])
  {
    assert s[|s| - |t| + |r|..] == t[|r|..];
  }

  lemma TrimEmpty(s: string, t: string, r: string)
    requires |t| <= |s| && t == s[|s| - |t|..] && AllSpace(s[..|s| - |t|])
    requires t == [] || !IsSpace(t[0])
    requires |r| <= |t| && r == t[..|r|] && AllSpace(t[|r|..])
    ensures r == [] <==> AllSpace(s)
  {
    var i := |s| - |t|;
    if r == [] {
      assert t[|r|..] == t;
      AllSpaceJoin(s, i);
    }
    if t != [] {
      assert t[0] == s[i];
    }
  }

  lemma AllSpaceJoin(s: string, k: nat)
    requires k <= |s|
    requires AllSpace(s[..k]) && AllSpace(s[k..])
    ensures AllSpace(s)
  {
    forall i | 0 <= i < |s| ensures IsSpace(s[i]) {
      if i < k {
        assert s[i] == s[..k][i];
      } else {
        assert s[i] == s[k..][i - k];
      }
    }
  }

  lemma NoNewlineSlice(s: string, i: nat, j: nat)
    requires i <= j <= |s|
    ensures '\n' !in s ==> '\n' !in s[i..j]
  {
    if '\n' in s[i..j] {
      var k :| 0 <= k < j - i && s[i..j][k] == '\n';
      assert s[i + k] == '\n';
    }
  }

  /** Trimming a trimmed string changes nothing. */
  lemma TrimTrimmed(s: string)
    requires IsTrimmed(s)
    ensures Trim(s) == s
  {
  }

  /** Trailing whitespace after a trimmed, non-empty string is all that goes. */
  lemma TrimPadded(x: string, w: string)
    requires x != [] && IsTrimmed(x) && AllSpace(w)
    ensures Trim(x + w) == x
  {
    assert (x + w)[0] == x[0];
    TrimEndPadded(x, w);
  }

  lemma {:induction false} TrimEndPadded(x: string, w: string)
    requires x != [] && !IsSpace(x[|x| - 1]) && AllSpace(w)
    ensures TrimEnd(x + w) == x
    decreases |w|
  {
    if w == [] {
      assert x + w == x;
    } else {
      var w' := w[..|w| - 1];
      assert (x + w)[..|x + w| - 1] == x + w';
      assert (x + w)[|x + w| - 1] == w[|w| - 1];
      TrimEndPadded(x, w');
    }
  }

  /** `s.split('\n')`: the pieces between line feeds, in order. */
  function SplitLines(s: string): (r: seq<string>)
    ensures |r| > 0
    ensures forall i :: 0 <= i < |r| ==> '\n' !in r[i]
    decreases |s|
  {
    var k := SpanLength(s, NotNewline);
    assert forall c :: c in s[..k] ==> NotNewline(c);
    if k == |s| then [s] else [s[..k]] + SplitLines(s[k + 1..])
  }

  /** `pieces.join(sep)`. */
  function JoinWith(pieces: seq<string>, sep: string): (r: string)
    decreases |pieces|
  {
    if |pieces| == 0 then []
    else if |pieces| == 1 then pieces[0]
    else pieces[0] + sep + JoinWith(pieces[1..], sep)
  }

  lemma JoinCons(first: string, rest: seq<string>, sep: string)
    requires |rest| > 0
    ensures JoinWith([first] + rest, sep) == first + sep + JoinWith(rest, sep)
  {
    assert ([first] + rest)[1..] == rest;
  }

  /** Splitting on line feeds and joining with line feeds gives back the text. */
  lemma {:induction false} JoinSplitLines(s: string)
    ensures JoinWith(SplitLines(s), "\n") == s
    decreases |s|
  {
    var k := SpanLength(s, NotNewline);
    if k < |s| {
      var rest := SplitLines(s[k + 1..]);
      assert SplitLines(s) == [s[..k]] + rest;
      JoinSplitLines(s[k + 1..]);
      JoinCons(s[..k], rest, "\n");
      assert JoinWith(SplitLines(s), "\n") == s[..k] + "\n" + s[k + 1..];
      assert s[..k] + "\n" + s[k + 1..] == s by {
        assert s[k] == '\n';
        assert s == s[..k] + [s[k]] + s[k + 1..];
      }
    } else {
      assert SplitLines(s) == [s];
      assert JoinWith([s], "\n") == s;
    }
  }

  /** Joining lines that hold no line feed and splitting again gives back the lines. */
  lemma {:induction false} SplitJoinLines(lines: seq<string>)
    requires |lines| > 0
    requires forall i :: 0 <= i < |lines| ==> '\n' !in lines[i]
    ensures SplitLines(JoinWith(lines, "\n")) == lines
    decreases |lines|
  {
    var s := JoinWith(lines, "\n");
    if |lines| > 1 {
      var rest := JoinWith(lines[1..], "\n");
      assert s == lines[0] + ("\n" + rest);
      SpanNoNewline(lines[0], "\n" + rest);
      var k := |lines[0]|;
      assert s[..k] == lines[0];
      assert s[k + 1..] == rest;
      assert SplitLines(s) == [lines[0]] + SplitLines(rest);
      SplitJoinLines(lines[1..]);
      assert lines == [lines[0]] + lines[1..];
    } else {
      assert s == lines[0] + [];
      SpanNoNewline(lines[0], []);
    }
  }

  /** The span of non-line-feeds stops exactly where the first line feed is. */
  lemma SpanNoNewline(a: string, b: string)
    requires '\n' !in a
    requires b == [] || b[0] == '\n'
    ensures SpanLength(a + b, NotNewline) == |a|
    decreases |a|
  {
    if a != [] {
      assert (a + b)[1..] == a[1..] + b;
      SpanNoNewline(a[1..], b);
    }
  }

  /** ASCII upper-case letters become lower-case; every other character is kept.
      No other character lower-cases to one of the letters of "json" or "txt". */
  function LowerChar(c: char): (r: char)
    ensures 'A' <= c <= 'Z' ==> 'a' <= r <= 'z'
    ensures !('A' <= c <= 'Z') ==> r == c
  {
    if 'A' <= c <= 'Z' then (c as int + 32) as char else c
  }

  /** `String.prototype.toLowerCase`, on ASCII letters. */
  function Lower(s: string): (r: string)
    ensures |r| == |s|
    ensures forall i :: 0 <= i < |s| ==> r[i] == LowerChar(s[i])
  {
    seq(|s|, i requires 0 <= i < |s| => LowerChar(s[i]))
  }

  /** Lower-casing twice is lower-casing once. */
  lemma LowerIdempotent(s: string)
    ensures Lower(Lower(s)) == Lower(s)
  {
  }

  /** Lower-casing commutes with dropping a prefix. */
  lemma LowerDrop(s: string, k: int)
    requires 0 <= k <= |s|
    ensures Lower(s[k..]) == Lower(s)[k..]
  {
  }

  /** Lower-casing commutes with taking a prefix. */
  lemma LowerTake(s: string, k: int)
    requires 0 <= k <= |s|
    ensures Lower(s[..k]) == Lower(s)[..k]
  {
  }

  /** Lower-casing commutes with taking a slice. */
  lemma LowerSlice(s: string, i: int, j: int)
    requires 0 <= i <= j <= |s|
    ensures Lower(s[i..j]) == Lower(s)[i..j]
  {
  }
}
