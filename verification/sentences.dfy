/** Sentence splitting of one line of an uploaded text file: the global match
    of the pattern `[^.!?]+[.!?]*\s*` in server.js:117, with the `g` flag.

    `MatchAll` follows the regular expression the way a backtracking engine runs
    a global match: at each position it tries the greedy pattern, and when the
    character there is a terminator the attempt fails and the search moves one
    character on. `Scan` is an independent reading of the same line by a
    four-state automaton; `MatchAllIsScan` proves the two agree. */
module Sentences {
  import opened Strings

  /** The sentence terminators of the pattern's `[.!?]` class. */
  predicate IsTerminator(c: char) {
    c == '.' || c == '!' || c == '?'
  }

  predicate NotTerminator(c: char) {
    !IsTerminator(c)
  }

  /** Length of the match of `[^.!?]+[.!?]*\s*` that starts at `s[0]`:
      every part is greedy and the parts after the first may be empty,
      so no backtracking ever shortens the first part. */
  function MatchLength(s: string): (n: nat)
    requires s != [] && NotTerminator(s[0])
    ensures 0 < n <= |s|
  {
    var a := SpanLength(s, NotTerminator);
    var b := SpanLength(s[a..], IsTerminator);
    var w := SpanLength(s[a + b..], IsSpace);
    a + b + w
  }

  /** All matches of the global pattern, left to right; `[]` stands for the
      `null` that `String.prototype.match` returns when nothing matches. */
  function MatchAll(s: string): (r: seq<string>)
    ensures forall i :: 0 <= i < |r| ==> r[i] != [] && NotTerminator(r[i][0])
    ensures '\n' !in s ==> forall i :: 0 <= i < |r| ==> '\n' !in r[i]
    decreases |s|
  {
    if s == [] then []
    else if IsTerminator(s[0]) then MatchAll(s[1..])
    else
      var n := MatchLength(s);
      [s[..n]] + MatchAll(s[n..])
  }

  /** Where a left-to-right reading of a line stands. */
  datatype Mode =
    | Between      // no match is open: a match may start at the next character
    | Body         // inside the `[^.!?]+` part of the open match
    | Terminators  // inside its `[.!?]*` part
    | Trailing     // inside its `\s*` part

  /** What happens to one character: it is lost, it extends the open match,
      or it opens a new match. */
  datatype Action = Skip | Extend | Open

  /** The automaton's transition. A character is skipped only when it is a
      terminator read where no match can start: at the start of the line, after
      another skipped character, or right after a match's trailing whitespace. */
  function Next(m: Mode, c: char): (Mode, Action) {
    match m
    case Between =>
      if IsTerminator(c) then (Between, Skip) else (Body, Open)
    case Body =>
      if IsTerminator(c) then (Terminators, Extend) else (Body, Extend)
    case Terminators =>
      if IsTerminator(c) then (Terminators, Extend)
      else if IsSpace(c) then (Trailing, Extend)
      else (Body, Open)
    case Trailing =>
      if IsSpace(c) then (Trailing, Extend)
      else if IsTerminator(c) then (Between, Skip)
      else (Body, Open)
  }

  /** Runs the automaton from mode `m` over `s`: the characters that still extend
      the match open on entry, and the matches opened afterwards. */
  function Lex(s: string, m: Mode): (string, seq<string>)
    decreases |s|
  {
    if s == [] then ([], [])
    else
      var step := Next(m, s[0]);
      var rest := Lex(s[1..], step.0);
      match step.1
      case Skip => ([], rest.1)
      case Extend => ([s[0]] + rest.0, rest.1)
      case Open => ([], [[s[0]] + rest.0] + rest.1)
  }

  /** The matches of a whole line, read by the automaton. */
  function Scan(s: string): seq<string> {
    Lex(s, Between).1
  }

  /** Nothing is pending when no match is open. */
  lemma BetweenPendsNothing(s: string)
    ensures Lex(s, Between).0 == []
  {
  }

  /** Length of the whitespace run that ends an open match. */
  function TrailLength(t: string): nat {
    SpanLength(t, IsSpace)
  }

  /** Length of the terminator run and the whitespace after it. */
  function TermLength(t: string): nat {
    var b := SpanLength(t, IsTerminator);
    b + TrailLength(t[b..])
  }

  /** Length of the rest of a `[^.!?]+` run, its terminators and its whitespace. */
  function BodyLength(t: string): nat {
    var a := SpanLength(t, NotTerminator);
    a + TermLength(t[a..])
  }

  /** Reading one character off the front of `t` and then `k` more is reading
      `k + 1` characters of `t`. */
  lemma ConsSlices(t: string, k: nat)
    requires k < |t|
    ensures [t[0]] + t[1..][..k] == t[..k + 1]
    ensures t[1..][k..] == t[k + 1..]
  {
  }

  /** One step of the automaton that extends the open match. */
  lemma ExtendStep(t: string, m: Mode, m': Mode, k: nat)
    requires t != [] && Next(m, t[0]) == (m', Extend)
    requires k < |t|
    requires Lex(t[1..], m') == (t[1..][..k], Scan(t[1..][k..]))
    ensures Lex(t, m) == (t[..k + 1], Scan(t[k + 1..]))
  {
    ConsSlices(t, k);
  }

  /** In the trailing-whitespace part the open match takes the whitespace run,
      and the rest of the line is read as if no match were open. */
  lemma {:induction false} LexTrailing(t: string)
    ensures Lex(t, Trailing) == (t[..TrailLength(t)], Scan(t[TrailLength(t)..]))
    decreases |t|
  {
    if t != [] && IsSpace(t[0]) {
      LexTrailing(t[1..]);
      ExtendStep(t, Trailing, Trailing, TrailLength(t[1..]));
    }
  }

  /** In the terminator part the open match takes the terminator run and the
      whitespace after it. */
  lemma {:induction false} LexTerminators(t: string)
    ensures Lex(t, Terminators) == (t[..TermLength(t)], Scan(t[TermLength(t)..]))
    decreases |t|, 1
  {
    if t != [] {
      if IsTerminator(t[0]) {
        TerminatorsStep(t);
      } else if IsSpace(t[0]) {
        TerminatorsToTrailing(t);
      } else {
        TerminatorsClose(t);
      }
    }
  }

  lemma TerminatorsStep(t: string)
    requires t != [] && IsTerminator(t[0])
    ensures Lex(t, Terminators) == (t[..TermLength(t)], Scan(t[TermLength(t)..]))
    decreases |t|, 0
  {
    LexTerminators(t[1..]);
    var b := SpanLength(t[1..], IsTerminator);
    assert t[1..][b..] == t[b + 1..];
    assert TermLength(t) == 1 + TermLength(t[1..]);
    ExtendStep(t, Terminators, Terminators, TermLength(t[1..]));
  }

  lemma TerminatorsToTrailing(t: string)
    requires t != [] && IsSpace(t[0])
    ensures Lex(t, Terminators) == (t[..TermLength(t)], Scan(t[TermLength(t)..]))
  {
    SpaceNotTerminator(t[0]);
    TermAtSpace(t);
    TrailStep(t);
    LexTrailing(t[1..]);
    ExtendStep(t, Terminators, Trailing, TrailLength(t[1..]));
  }

  lemma SpaceNotTerminator(c: char)
    requires IsSpace(c)
    ensures NotTerminator(c)
  {
  }

  /** Where the terminator run is empty, only the whitespace run is left. */
  lemma TermAtSpace(t: string)
    requires t != [] && NotTerminator(t[0])
    ensures TermLength(t) == TrailLength(t)
  {
    assert t[0..] == t;
  }

  lemma TrailStep(t: string)
    requires t != [] && IsSpace(t[0])
    ensures TrailLength(t) == 1 + TrailLength(t[1..])
  {
  }

  lemma TerminatorsClose(t: string)
    requires t != [] && NotTerminator(t[0]) && !IsSpace(t[0])
    ensures Lex(t, Terminators) == (t[..TermLength(t)], Scan(t[TermLength(t)..]))
  {
    assert t[0..] == t;
    assert TermLength(t) == 0;
    assert Lex(t, Terminators) == Lex(t, Between);
  }

  /** In the body part the open match takes the rest of its `[^.!?]+` run and
      then behaves as in the terminator part. */
  lemma {:induction false} LexBody(t: string)
    ensures Lex(t, Body) == (t[..BodyLength(t)], Scan(t[BodyLength(t)..]))
    decreases |t|, 1
  {
    if t != [] {
      if IsTerminator(t[0]) {
        BodyAtTerminator(t);
      } else {
        BodyStep(t);
      }
    }
  }


  lemma BodyStep(t: string)
    requires t != [] && NotTerminator(t[0])
    ensures Lex(t, Body) == (t[..BodyLength(t)], Scan(t[BodyLength(t)..]))
    decreases |t|, 0
  {
    LexBody(t[1..]);
    BodyLengthStep(t);
    ExtendStep(t, Body, Body, BodyLength(t[1..]));
  }

  /** A terminator read in the body part starts the terminator part. */
  lemma BodyAtTerminator(t: string)
    requires t != [] && IsTerminator(t[0])
    ensures Lex(t, Body) == (t[..BodyLength(t)], Scan(t[BodyLength(t)..]))
  {
    LexTerminators(t);
    assert t[0..] == t;
    assert BodyLength(t) == TermLength(t);
  }

  lemma BodyLengthStep(t: string)
    requires t != [] && NotTerminator(t[0])
    ensures BodyLength(t) == 1 + BodyLength(t[1..])
  {
    var a := SpanLength(t[1..], NotTerminator);
    assert t[1..][a..] == t[a + 1..];
  }

  /** The length of a match is one character plus what the automaton's body
      part takes after it. */
  lemma MatchLengthIsBody(s: string)
    requires s != [] && NotTerminator(s[0])
    ensures MatchLength(s) == 1 + BodyLength(s[1..])
  {
    var a := SpanLength(s[1..], NotTerminator);
    assert s[1..][a..] == s[a + 1..];
  }

  /** The regular-expression reading and the automaton reading of a line
      produce the same matches, in the same order. */
  lemma {:induction false} MatchAllIsScan(s: string)
    ensures MatchAll(s) == Scan(s)
    decreases |s|
  {
    if s != [] {
      if IsTerminator(s[0]) {
        MatchAllIsScan(s[1..]);
      } else {
        var n := MatchLength(s);
        MatchLengthIsBody(s);
        LexBody(s[1..]);
        ConsSlices(s, n - 1);
        MatchAllIsScan(s[n..]);
      }
    }
  }

  /** A line yields no match exactly when every character is a terminator;
      that is when server.js falls back to the whole line. */
  lemma {:induction false} NoMatchIffAllTerminators(s: string)
    ensures MatchAll(s) == [] <==> forall i :: 0 <= i < |s| ==> IsTerminator(s[i])
    decreases |s|
  {
    if s != [] && IsTerminator(s[0]) {
      NoMatchIffAllTerminators(s[1..]);
      assert forall i :: 1 <= i < |s| ==> s[i] == s[1..][i - 1];
    }
  }

  /** A non-empty line without terminators is one match: the whole line. */
  lemma NoTerminatorOneMatch(s: string)
    requires s != []
    requires forall i :: 0 <= i < |s| ==> NotTerminator(s[i])
    ensures MatchAll(s) == [s]
  {
    SpanExact(s, [], NotTerminator);
    assert s + [] == s;
    assert s[|s|..] == [];
    MatchLengthParts(s, |s|, 0, 0);
    assert s[..|s|] == s;
  }

  /** No terminator occurs in `s`. */
  predicate NoTerminatorIn(s: string) {
    '.' !in s && '!' !in s && '?' !in s
  }

  /** One sentence at the front of a line: a terminator-free run, its
      terminators and its trailing whitespace form the first match, and the
      search goes on after them. */
  lemma MatchAllSentence(x: string, t: string, w: string, rest: string)
    requires x != [] && NoTerminatorIn(x)
    requires t != [] && forall i :: 0 <= i < |t| ==> IsTerminator(t[i])
    requires AllSpace(w)
    requires rest == [] || (NotTerminator(rest[0]) && !IsSpace(rest[0]))
    ensures MatchAll(x + t + w + rest) == [x + t + w] + MatchAll(rest)
  {
    var s := x + t + w + rest;
    MatchLengthSentence(x, t, w, rest);
    var n := |x| + |t| + |w|;
    assert s[..n] == x + t + w;
    assert s[n..] == rest;
  }

  lemma MatchLengthSentence(x: string, t: string, w: string, rest: string)
    requires x != [] && NoTerminatorIn(x)
    requires t != [] && forall i :: 0 <= i < |t| ==> IsTerminator(t[i])
    requires AllSpace(w)
    requires rest == [] || (NotTerminator(rest[0]) && !IsSpace(rest[0]))
    ensures x + t + w + rest != [] && NotTerminator((x + t + w + rest)[0])
    ensures MatchLength(x + t + w + rest) == |x| + |t| + |w|
  {
    var v := w + rest;
    var u := t + v;
    var s := x + u;
    Associate(x, t, w, rest);
    NoTerminatorInAll(x);
    SpanExact(x, u, NotTerminator);
    SpaceRunEnds(w, rest);
    SpanExact(t, v, IsTerminator);
    SpanExact(w, rest, IsSpace);
    SliceAfter(x, u);
    SliceAfterMore(x, u, |t|);
    SliceAfter(t, v);
    assert s[0] == x[0];
    MatchLengthParts(s, |x|, |t|, |w|);
  }

  lemma Associate(x: string, t: string, w: string, rest: string)
    ensures x + (t + (w + rest)) == x + t + w + rest
  {
  }

  /** Dropping a prefix leaves what followed it. */
  lemma SliceAfter(a: string, b: string)
    ensures (a + b)[|a|..] == b
  {
  }

  /** Dropping a prefix and `k` more characters leaves the rest of what followed it. */
  lemma SliceAfterMore(a: string, b: string, k: nat)
    requires k <= |b|
    ensures (a + b)[|a| + k..] == b[k..]
  {
  }

  /** The match length is put together from its three spans. */
  lemma MatchLengthParts(s: string, a: nat, b: nat, w: nat)
    requires s != [] && NotTerminator(s[0])
    requires SpanLength(s, NotTerminator) == a
    requires a <= |s| && SpanLength(s[a..], IsTerminator) == b
    requires a + b <= |s| && SpanLength(s[a + b..], IsSpace) == w
    ensures MatchLength(s) == a + b + w
  {
  }

  /** Whitespace followed by something that is not a terminator does not start
      with a terminator. */
  lemma SpaceRunEnds(w: string, rest: string)
    requires AllSpace(w)
    requires rest == [] || NotTerminator(rest[0])
    ensures w + rest == [] || NotTerminator((w + rest)[0])
  {
    if w != [] {
      assert (w + rest)[0] == w[0];
    } else {
      assert w + rest == rest;
    }
  }

  lemma NoTerminatorInAll(x: string)
    requires NoTerminatorIn(x)
    ensures forall i :: 0 <= i < |x| ==> NotTerminator(x[i])
  {
    forall i | 0 <= i < |x| ensures NotTerminator(x[i]) {
      assert x[i] in x;
    }
  }

  /** Which characters of `s` the automaton loses, read from mode `m`. */
  function Skips(s: string, m: Mode): (r: seq<bool>)
    ensures |r| == |s|
    ensures forall i :: 0 <= i < |s| && r[i] ==> IsTerminator(s[i])
    decreases |s|
  {
    if s == [] then []
    else
      var step := Next(m, s[0]);
      [step.1 == Skip] + Skips(s[1..], step.0)
  }

  /** The characters of `s` whose flag in `skip` is false, in order. */
  function Select(s: string, skip: seq<bool>): (r: string)
    requires |skip| == |s|
    ensures |r| <= |s|
    decreases |s|
  {
    if s == [] then []
    else (if skip[0] then [] else [s[0]]) + Select(s[1..], skip[1..])
  }

  /** Concatenation of a list of strings. */
  function Flatten(ss: seq<string>): string
    decreases |ss|
  {
    if ss == [] then [] else ss[0] + Flatten(ss[1..])
  }

  lemma FlattenCons(a: string, ss: seq<string>)
    ensures Flatten([a] + ss) == a + Flatten(ss)
  {
    assert ([a] + ss)[1..] == ss;
  }

  /** The pending characters and the later matches, put together, are the input
      with exactly the skipped characters removed. */
  lemma {:induction false} LexKeeps(s: string, m: Mode)
    ensures Lex(s, m).0 + Flatten(Lex(s, m).1) == Select(s, Skips(s, m))
    decreases |s|
  {
    if s != [] {
      var step := Next(m, s[0]);
      LexKeeps(s[1..], step.0);
      var rest := Lex(s[1..], step.0);
      if step.1 == Skip {
        BetweenPendsNothing(s[1..]);
      } else if step.1 == Open {
        FlattenCons([s[0]] + rest.0, rest.1);
      }
    }
  }

  /** Concatenating the matches of a line gives the line with only skipped
      terminators removed. */
  lemma MatchesKeepLine(s: string)
    ensures Flatten(MatchAll(s)) == Select(s, Skips(s, Between))
  {
    MatchAllIsScan(s);
    LexKeeps(s, Between);
    BetweenPendsNothing(s);
  }
}
