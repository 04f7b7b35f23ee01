/** The upload segmenter of server.js:109-128: an uploaded file becomes the
    ordered list of `{ source, translation }` rows to insert. */
module Segmenter {
  import opened Wrappers
  import opened Strings
  import opened Sentences

  /** A value of the parsed JSON object, told apart only as far as `value || ''`
      and the SQLite binding can tell them apart. Numbers are integers here. */
  datatype JsValue =
    | JStr(s: string)
    | JNum(n: int)
    | JBool(b: bool)
    | JNull
    | JCompound   // an array or an object

  /** JavaScript truthiness. */
  predicate Truthy(v: JsValue) {
    match v
    case JStr(s) => s != []
    case JNum(n) => n != 0
    case JBool(b) => b
    case JNull => false
    case JCompound => true
  }

  /** The values JavaScript's ToBoolean maps to false, among those modelled:
      the empty string, zero, `false` and `null`. */
  lemma FalsyValues(v: JsValue)
    ensures !Truthy(v) <==> v == JStr("") || v == JNum(0) || v == JBool(false) || v == JNull
  {
  }

  /** `value || ''`: a truthy value is kept, any other becomes the empty
      string, so the result is the value itself exactly when it is truthy or
      already the empty string. */
  function OrEmpty(v: JsValue): (r: JsValue)
    ensures Truthy(r) || r == JStr("")
    ensures r == v <==> Truthy(v) || v == JStr("")
  {
    if Truthy(v) then v else JStr("")
  }

  /** One row waiting to be inserted into `segments`. */
  datatype Pending = Pending(source: string, translation: JsValue)

  /** The `for (const key in jsonObject)` loop of server.js:111 over the object's
      entries in enumeration order: one row per key, the key as its source, and
      the value as its translation unless the value is falsy. */
  function JsonSegments(entries: seq<(string, JsValue)>): (r: seq<Pending>)
    ensures |r| == |entries|
    ensures forall i :: 0 <= i < |r| ==> r[i].source == entries[i].0
    ensures forall i :: 0 <= i < |r| && Truthy(entries[i].1) ==> r[i].translation == entries[i].1
    ensures forall i :: 0 <= i < |r| ==> (r[i].translation == JStr("") <==> !Truthy(entries[i].1))
  {
    seq(|entries|, i requires 0 <= i < |entries| => Pending(entries[i].0, OrEmpty(entries[i].1)))
  }

  /** `s` without one trailing carriage return. */
  function DropCR(s: string): string {
    if s != [] && s[|s| - 1] == '\r' then s[..|s| - 1] else s
  }

  /** `content.split(/\r?\n/)`: the text between line breaks, where a break is a
      line feed together with a carriage return right before it. */
  function Paragraphs(content: string): (r: seq<string>)
    ensures |r| == |SplitLines(content)|
    ensures forall i :: 0 <= i < |r| ==> '\n' !in r[i]
  {
    var pieces := SplitLines(content);
    seq(|pieces|, i requires 0 <= i < |pieces| =>
      if i + 1 < |pieces| then DropCR(pieces[i]) else pieces[i])
  }

  /** Each line followed by a carriage return, except the last. */
  function WithCR(lines: seq<string>): (r: seq<string>)
    ensures |r| == |lines|
    decreases |lines|
  {
    if |lines| <= 1 then lines else [lines[0] + "\r"] + WithCR(lines[1..])
  }

  lemma {:induction false} JoinCRLF(lines: seq<string>)
    ensures JoinWith(lines, "\r\n") == JoinWith(WithCR(lines), "\n")
    decreases |lines|
  {
    if |lines| > 1 {
      JoinCRLF(lines[1..]);
      assert WithCR(lines)[1..] == WithCR(lines[1..]);
    }
  }

  lemma {:induction false} WithCRShape(lines: seq<string>)
    requires forall i :: 0 <= i < |lines| ==> '\n' !in lines[i]
    ensures forall i :: 0 <= i < |lines| ==> '\n' !in WithCR(lines)[i]
    ensures forall i :: 0 <= i && i + 1 < |lines| ==> WithCR(lines)[i] == lines[i] + "\r"
    ensures |lines| > 0 ==> WithCR(lines)[|lines| - 1] == lines[|lines| - 1]
    decreases |lines|
  {
    if |lines| > 1 {
      WithCRShape(lines[1..]);
      assert WithCR(lines)[1..] == WithCR(lines[1..]);
    }
  }

  /** Lines joined with "\r\n" come back as the same lines. */
  lemma ParagraphsCRLF(lines: seq<string>)
    requires |lines| > 0
    requires forall i :: 0 <= i < |lines| ==> '\n' !in lines[i]
    ensures Paragraphs(JoinWith(lines, "\r\n")) == lines
  {
    var content := JoinWith(lines, "\r\n");
    JoinCRLF(lines);
    WithCRShape(lines);
    SplitJoinLines(WithCR(lines));
    DropCRPieces(content, lines);
  }

  /** Dropping the added carriage returns from the pieces gives back the lines. */
  lemma DropCRPieces(content: string, lines: seq<string>)
    requires |lines| > 0
    requires SplitLines(content) == WithCR(lines)
    requires forall i :: 0 <= i && i + 1 < |lines| ==> WithCR(lines)[i] == lines[i] + "\r"
    requires WithCR(lines)[|lines| - 1] == lines[|lines| - 1]
    ensures Paragraphs(content) == lines
  {
    var r := Paragraphs(content);
    forall i | 0 <= i < |lines|
      ensures r[i] == lines[i]
    {
      if i + 1 < |lines| {
        DropAddedCR(lines[i]);
      }
    }
  }

  lemma DropAddedCR(x: string)
    ensures DropCR(x + "\r") == x
  {
    assert (x + "\r")[..|x|] == x;
  }

  /** Lines joined with "\n" come back as the same lines, when no line but the
      last ends in a carriage return. */
  lemma ParagraphsLF(lines: seq<string>)
    requires |lines| > 0
    requires forall i :: 0 <= i < |lines| ==> '\n' !in lines[i]
    requires forall i :: 0 <= i && i + 1 < |lines| ==> lines[i] == [] || lines[i][|lines[i]| - 1] != '\r'
    ensures Paragraphs(JoinWith(lines, "\n")) == lines
  {
    SplitJoinLines(lines);
  }

  /** `paragraph.match(...) || [paragraph]` (server.js:117). */
  function SentencesOf(p: string): (r: seq<string>)
    ensures '\n' !in p ==> forall i :: 0 <= i < |r| ==> '\n' !in r[i]
  {
    var m := MatchAll(p);
    if m == [] then [p] else m
  }

  /** Each chunk trimmed, the empty ones dropped (server.js:118-122). */
  function KeepTrimmed(chunks: seq<string>): (r: seq<string>)
    ensures |r| <= |chunks|
    ensures forall i :: 0 <= i < |r| ==> r[i] != [] && IsTrimmed(r[i])
    ensures (forall k :: 0 <= k < |chunks| ==> '\n' !in chunks[k]) ==>
              forall i :: 0 <= i < |r| ==> '\n' !in r[i]
    decreases |chunks|
  {
    if chunks == [] then []
    else
      var t := Trim(chunks[0]);
      TrimOneLine(chunks[0]);
      (if t == [] then [] else [t]) + KeepTrimmed(chunks[1..])
  }

  /** Trimming distributes over the chunks: the result for `a + b` is the
      result for `a` followed by the result for `b`. */
  lemma {:induction false} KeepTrimmedAppend(a: seq<string>, b: seq<string>)
    ensures KeepTrimmed(a + b) == KeepTrimmed(a) + KeepTrimmed(b)
    decreases |a|
  {
    if a == [] {
      assert a + b == b;
    } else {
      assert (a + b)[0] == a[0];
      assert (a + b)[1..] == a[1..] + b;
      KeepTrimmedAppend(a[1..], b);
    }
  }

  /** One chunk is kept, trimmed, exactly when it is not all whitespace. */
  lemma KeepTrimmedOne(c: string)
    ensures KeepTrimmed([c]) == if AllSpace(c) then [] else [Trim(c)]
  {
    assert [c][1..] == [];
  }

  /** Every chunk with content survives, trimmed. */
  lemma {:induction false} KeepTrimmedKeeps(chunks: seq<string>, i: int)
    requires 0 <= i < |chunks| && !AllSpace(chunks[i])
    ensures Trim(chunks[i]) in KeepTrimmed(chunks)
    decreases |chunks|
  {
    if i > 0 {
      KeepTrimmedKeeps(chunks[1..], i - 1);
    }
  }

  /** The sources one line contributes (server.js:116-123). */
  function LineSources(p: string): (r: seq<string>)
    ensures AllSpace(p) ==> r == []
    ensures forall i :: 0 <= i < |r| ==> r[i] != [] && IsTrimmed(r[i])
    ensures '\n' !in p ==> forall i :: 0 <= i < |r| ==> '\n' !in r[i]
  {
    if Trim(p) == [] then [] else KeepTrimmed(SentencesOf(p))
  }

  /** A line that is not blank loses only whitespace-only chunks: every other
      match (or the line itself, when nothing matches) becomes a source. */
  lemma LineSourcesKeeps(p: string, i: int)
    requires !AllSpace(p)
    requires 0 <= i < |SentencesOf(p)| && !AllSpace(SentencesOf(p)[i])
    ensures Trim(SentencesOf(p)[i]) in LineSources(p)
  {
    KeepTrimmedKeeps(SentencesOf(p), i);
  }

  /** The sources of all lines, line after line. */
  function SourcesOf(lines: seq<string>): (r: seq<string>)
    ensures forall i :: 0 <= i < |r| ==> r[i] != [] && IsTrimmed(r[i])
    ensures (forall k :: 0 <= k < |lines| ==> '\n' !in lines[k]) ==>
              forall i :: 0 <= i < |r| ==> '\n' !in r[i]
    decreases |lines|
  {
    if lines == [] then []
    else LineSources(lines[0]) + SourcesOf(lines[1..])
  }

  /** The sources of a text upload. */
  function TextSources(content: string): (r: seq<string>)
    ensures forall i :: 0 <= i < |r| ==> r[i] != [] && IsTrimmed(r[i]) && '\n' !in r[i]
  {
    SourcesOf(Paragraphs(content))
  }

  /** The rows of a text upload (server.js:114-124): every source is non-empty,
      trimmed and on one line, and every translation is the empty string. */
  function TextSegments(content: string): (r: seq<Pending>)
    ensures forall i :: 0 <= i < |r| ==>
              && r[i].source != [] && IsTrimmed(r[i].source)
              && '\n' !in r[i].source && r[i].translation == JStr("")
  {
    var sources := TextSources(content);
    seq(|sources|, i requires 0 <= i < |sources| => Pending(sources[i], JStr("")))
  }

  /** The first line's sources come first, then those of the rest of the text. */
  lemma TextSourcesFirstLine(a: string, b: string)
    requires '\n' !in a
    ensures TextSources(a + "\n" + b) == LineSources(DropCR(a)) + TextSources(b)
  {
    SpanNoNewline(a, "\n" + b);
    var s := a + "\n" + b;
    assert s == a + ("\n" + b);
    assert s[..|a|] == a;
    assert s[|a| + 1..] == b;
    assert SplitLines(s) == [a] + SplitLines(b);
    assert Paragraphs(s) == [DropCR(a)] + Paragraphs(b);
  }

  /** A text without line feeds is one line. */
  lemma TextSourcesLastLine(b: string)
    requires '\n' !in b
    ensures TextSources(b) == LineSources(b)
  {
    SpanNoNewline(b, []);
    assert b + [] == b;
    assert SplitLines(b) == [b];
    assert Paragraphs(b) == [b];
    assert SourcesOf([b]) == LineSources(b) + SourcesOf([b][1..]);
    assert [b][1..] == [];
    assert LineSources(b) + [] == LineSources(b);
  }

  /** A line of whitespace contributes nothing. */
  lemma BlankLineSkipped(a: string, b: string)
    requires '\n' !in a && AllSpace(a)
    ensures TextSources(a + "\n" + b) == TextSources(b)
  {
    TextSourcesFirstLine(a, b);
    assert AllSpace(DropCR(a));
  }

  /** A line made only of terminators is kept whole, through the
      `|| [paragraph]` fallback. */
  lemma TerminatorLineKeptWhole(p: string)
    requires p != []
    requires forall i :: 0 <= i < |p| ==> IsTerminator(p[i])
    ensures LineSources(p) == [p]
  {
    NoMatchIffAllTerminators(p);
    assert IsTrimmed(p);
    TrimTrimmed(p);
  }

  /** A line without terminators is one source: the line, trimmed. */
  lemma PlainLineOneSource(p: string)
    requires !AllSpace(p)
    requires forall i :: 0 <= i < |p| ==> NotTerminator(p[i])
    ensures LineSources(p) == [Trim(p)]
  {
    NoTerminatorOneMatch(p);
  }

  /** A line holding two sentences, each closed by its terminators and
      separated by whitespace, gives both sentences with the whitespace cut. */
  lemma TwoSentenceLine(x: string, t: string, w: string, y: string, u: string)
    requires x != [] && IsTrimmed(x) && NoTerminatorIn(x)
    requires y != [] && IsTrimmed(y) && NoTerminatorIn(y)
    requires t != [] && forall i :: 0 <= i < |t| ==> IsTerminator(t[i])
    requires u != [] && forall i :: 0 <= i < |u| ==> IsTerminator(u[i])
    requires AllSpace(w)
    ensures LineSources(x + t + w + y + u) == [x + t, y + u]
  {
    var p := x + t + w + (y + u);
    assert p == x + t + w + y + u;
    TwoSentenceMatches(x, t, w, y, u);
    TerminatedTrimmed(x, t);
    TerminatedTrimmed(y, u);
    TrimPadded(x + t, w);
    TrimTrimmed(y + u);
    assert p[0] == x[0];
    assert !AllSpace(p);
    assert Trim(p) != [];
    assert SentencesOf(p) == [x + t + w, y + u];
    assert LineSources(p) == KeepTrimmed([x + t + w, y + u]);
    KeepTrimmedTwo(x + t + w, y + u);
  }

  lemma KeepTrimmedTwo(a: string, b: string)
    requires Trim(a) != [] && Trim(b) != []
    ensures KeepTrimmed([a, b]) == [Trim(a), Trim(b)]
  {
    assert [a, b][1..] == [b];
    assert [b][1..] == [];
  }

  lemma TwoSentenceMatches(x: string, t: string, w: string, y: string, u: string)
    requires x != [] && NoTerminatorIn(x)
    requires y != [] && IsTrimmed(y) && NoTerminatorIn(y)
    requires t != [] && forall i :: 0 <= i < |t| ==> IsTerminator(t[i])
    requires u != [] && forall i :: 0 <= i < |u| ==> IsTerminator(u[i])
    requires AllSpace(w)
    ensures MatchAll(x + t + w + (y + u)) == [x + t + w, y + u]
  {
    assert (y + u)[0] == y[0];
    NoTerminatorInAll(y);
    MatchAllSentence(x, t, w, y + u);
    OneSentence(y, u);
  }

  lemma OneSentence(y: string, u: string)
    requires y != [] && NoTerminatorIn(y)
    requires u != [] && forall i :: 0 <= i < |u| ==> IsTerminator(u[i])
    ensures MatchAll(y + u) == [y + u]
  {
    var e: string := [];
    MatchAllSentence(y, u, e, e);
    assert y + u + e == y + u;
    assert y + u + e + e == y + u;
    assert MatchAll(e) == [];
  }

  /** A trimmed text followed by terminators is trimmed. */
  lemma TerminatedTrimmed(x: string, t: string)
    requires x != [] && IsTrimmed(x)
    requires t != [] && forall i :: 0 <= i < |t| ==> IsTerminator(t[i])
    ensures x + t != [] && IsTrimmed(x + t)
  {
    assert (x + t)[0] == x[0];
    assert (x + t)[|x + t| - 1] == t[|t| - 1];
  }

  /** The two-line text `"Hello world. Bye!\nSecond line"` gives the sources
      "Hello world.", "Bye!" and "Second line", in that order. */
  lemma HelloExample()
    ensures TextSources("Hello world. Bye!\nSecond line") == ["Hello world.", "Bye!", "Second line"]
  {
    HelloSplit();
    TextSourcesFirstLine("Hello world. Bye!", "Second line");
    HelloKeepsLast();
    HelloFirstLine();
    TextSourcesLastLine("Second line");
    SecondLineSources();
    HelloConcat();
  }

  // The helper lemmas below each state facts about string literals on their
  // own, so that each fact is proved apart from the others.

  lemma HelloSplit()
    ensures "Hello world. Bye!\nSecond line" == "Hello world. Bye!" + "\n" + "Second line"
    ensures '\n' !in "Hello world. Bye!" && '\n' !in "Second line"
  {
  }

  lemma HelloKeepsLast()
    ensures DropCR("Hello world. Bye!") == "Hello world. Bye!"
  {
  }

  lemma HelloFirstLine()
    ensures LineSources("Hello world. Bye!") == ["Hello world.", "Bye!"]
  {
    HelloSentenceParts();
    HelloWorldShape();
    ByeShape();
    TwoSentenceLine("Hello world", ".", " ", "Bye", "!");
    HelloSentenceJoin();
  }

  lemma HelloSentenceParts()
    ensures "Hello world" + "." + " " + "Bye" + "!" == "Hello world. Bye!"
  {
  }

  lemma HelloSentenceJoin()
    ensures "Hello world" + "." == "Hello world." && "Bye" + "!" == "Bye!"
  {
  }

  lemma HelloWorldShape()
    ensures "Hello world" != [] && IsTrimmed("Hello world") && NoTerminatorIn("Hello world")
    ensures "." != [] && forall i :: 0 <= i < |"."| ==> IsTerminator("."[i])
    ensures AllSpace(" ")
  {
  }

  lemma ByeShape()
    ensures "Bye" != [] && IsTrimmed("Bye") && NoTerminatorIn("Bye")
    ensures "!" != [] && forall i :: 0 <= i < |"!"| ==> IsTerminator("!"[i])
  {
  }

  lemma SecondLineSources()
    ensures LineSources("Second line") == ["Second line"]
  {
    SecondLineShape();
    PlainLineOneSource("Second line");
    TrimTrimmed("Second line");
  }

  lemma SecondLineShape()
    ensures !AllSpace("Second line") && IsTrimmed("Second line")
    ensures forall i :: 0 <= i < |"Second line"| ==> NotTerminator("Second line"[i])
  {
    assert !IsSpace("Second line"[0]);
  }

  lemma HelloConcat()
    ensures ["Hello world.", "Bye!"] + ["Second line"] == ["Hello world.", "Bye!", "Second line"]
  {
  }

  /** The upload formats server.js:109,112 tell apart. */
  datatype Format = Json | Txt | Unsupported

  predicate IsSlash(c: char) {
    c == '/'
  }

  predicate NotSlash(c: char) {
    c != '/'
  }

  predicate NotDot(c: char) {
    c != '.'
  }

  /** A path without its trailing slashes. */
  function DropSlashes(path: string): string {
    path[..|path| - BackSpanLength(path, IsSlash)]
  }

  /** The last component of a path without trailing slashes. */
  function LastPart(stem: string): string {
    stem[|stem| - BackSpanLength(stem, NotSlash)..]
  }

  /** The extension of one path component: from its last '.' to its end;
      empty when it has no '.', when that '.' starts it (".json"), or when
      the component is "..". */
  function PartExtension(part: string): (r: string)
    ensures r == [] || r[0] == '.'
  {
    var dot := |part| - BackSpanLength(part, NotDot) - 1;
    if dot <= 0 || part == ".." then [] else part[dot..]
  }

  /** `path.extname` of Node's POSIX path module. */
  function Extname(path: string): (r: string)
    ensures r == [] || r[0] == '.'
  {
    PartExtension(LastPart(DropSlashes(path)))
  }

  /** `path.extname(file.originalname).toLowerCase()` compared with ".json" and ".txt". */
  function FormatOf(name: string): (r: Format)
    ensures r == Json <==> Lower(Extname(name)) == ".json"
    ensures r == Txt <==> Lower(Extname(name)) == ".txt"
  {
    var ext := Lower(Extname(name));
    if ext == ".json" then Json else if ext == ".txt" then Txt else Unsupported
  }

  /** Lower-casing never makes or unmakes a slash or a dot. */
  lemma SlashDotLower()
    ensures forall c :: IsSlash(LowerChar(c)) == IsSlash(c)
    ensures forall c :: NotSlash(LowerChar(c)) == NotSlash(c)
    ensures forall c :: NotDot(LowerChar(c)) == NotDot(c)
  {
    forall c ensures LowerChar(c) == '/' <==> c == '/' {
      if 'A' <= c <= 'Z' {
        assert 'a' <= LowerChar(c) <= 'z';
      }
    }
    forall c ensures LowerChar(c) == '.' <==> c == '.' {
      if 'A' <= c <= 'Z' {
        assert 'a' <= LowerChar(c) <= 'z';
      }
    }
  }

  /** A predicate that cannot tell a character from its lower-case form
      measures the same span on a lower-cased string. */
  lemma {:induction false} BackSpanLower(s: string, p: char -> bool)
    requires forall c :: p(LowerChar(c)) == p(c)
    ensures BackSpanLength(Lower(s), p) == BackSpanLength(s, p)
    decreases |s|
  {
    if s != [] {
      LowerTake(s, |s| - 1);
      BackSpanLower(s[..|s| - 1], p);
    }
  }

  lemma DropSlashesLower(path: string)
    ensures DropSlashes(Lower(path)) == Lower(DropSlashes(path))
  {
    SlashDotLower();
    BackSpanLower(path, IsSlash);
    LowerTake(path, |path| - BackSpanLength(path, IsSlash));
  }

  lemma LastPartLower(stem: string)
    ensures LastPart(Lower(stem)) == Lower(LastPart(stem))
  {
    SlashDotLower();
    BackSpanLower(stem, NotSlash);
    LowerDrop(stem, |stem| - BackSpanLength(stem, NotSlash));
  }

  lemma PartExtensionLower(part: string)
    ensures PartExtension(Lower(part)) == Lower(PartExtension(part))
  {
    SlashDotLower();
    BackSpanLower(part, NotDot);
    DotDotLower(part);
    var dot := |part| - BackSpanLength(part, NotDot) - 1;
    if 0 < dot {
      LowerDrop(part, dot);
    }
  }

  lemma DotDotLower(part: string)
    ensures Lower(part) == ".." <==> part == ".."
  {
    if part == ".." {
      assert Lower(part) == [LowerChar('.'), LowerChar('.')];
    }
    if Lower(part) == ".." {
      assert LowerChar(part[0]) == '.' && LowerChar(part[1]) == '.';
    }
  }

  /** Lower-casing a file name lower-cases its extension and nothing more. */
  lemma ExtnameLower(name: string)
    ensures Extname(Lower(name)) == Lower(Extname(name))
  {
    DropSlashesLower(name);
    LastPartLower(DropSlashes(name));
    PartExtensionLower(LastPart(DropSlashes(name)));
  }

  /** The format is chosen without regard to letter case. */
  lemma FormatCaseInsensitive(name: string)
    ensures FormatOf(Lower(name)) == FormatOf(name)
  {
    ExtnameLower(name);
    LowerIdempotent(Extname(name));
  }

  /** The extension of a file name is its last dotted suffix, whatever the
      non-empty stem before it. */
  lemma ExtnameOfSuffix(stem: string, ext: string)
    requires stem != [] && '/' !in stem
    requires ext != [] && ext[0] == '.' && '.' !in ext[1..] && '/' !in ext
    requires stem + ext != ".."
    ensures Extname(stem + ext) == ext
  {
    var name := stem + ext;
    assert name[|name| - 1] == ext[|ext| - 1];
    assert ext[|ext| - 1] in ext;
    assert BackSpanLength(name, IsSlash) == 0;
    assert DropSlashes(name) == name;
    forall i | 0 <= i < |name| ensures NotSlash(name[i]) {
      if i < |stem| {
        assert name[i] == stem[i] && stem[i] in stem;
      } else {
        assert name[i] == ext[i - |stem|] && ext[i - |stem|] in ext;
      }
    }
    BackSpanWhole(name, NotSlash);
    assert LastPart(name) == name[0..] == name;
    BackSpanDot(stem, ext);
    assert name != "..";
    assert name[|stem|..] == ext;
  }

  lemma {:induction false} BackSpanWhole(s: string, p: char -> bool)
    requires forall i :: 0 <= i < |s| ==> p(s[i])
    ensures BackSpanLength(s, p) == |s|
    decreases |s|
  {
    if s != [] {
      BackSpanWhole(s[..|s| - 1], p);
    }
  }

  lemma BackSpanDot(stem: string, ext: string)
    requires ext != [] && ext[0] == '.' && '.' !in ext[1..]
    ensures BackSpanLength(stem + ext, NotDot) == |ext| - 1
  {
    var name := stem + ext;
    forall i | |stem| + 1 <= i < |name| ensures NotDot(name[i]) {
      assert name[i] == ext[1..][i - |stem| - 1];
      assert ext[1..][i - |stem| - 1] in ext[1..];
    }
    assert !NotDot(name[|stem|]);
  }

  /** The extension's letter case does not matter. */
  lemma UpperCaseTxt()
    ensures FormatOf("Notes.TXT") == Txt
  {
    NotesTxtSplit();
    NotesTxtShape();
    ExtnameOfSuffix("Notes", ".TXT");
    UpperTxtLower();
  }

  // Literal facts for the file-name examples, one small lemma each.

  lemma NotesTxtSplit()
    ensures "Notes.TXT" == "Notes" + ".TXT"
  {
  }

  lemma NotesTxtShape()
    ensures "Notes" != [] && '/' !in "Notes"
    ensures ".TXT"[0] == '.' && '.' !in ".TXT"[1..] && '/' !in ".TXT"
    ensures "Notes" + ".TXT" != ".."
  {
  }

  lemma UpperTxtLower()
    ensures Lower(".TXT") == ".txt"
  {
  }

  lemma MixedCaseJson()
    ensures FormatOf("messages.Json") == Json
  {
    MessagesJsonSplit();
    MessagesJsonShape();
    ExtnameOfSuffix("messages", ".Json");
    MixedJsonLower();
  }

  lemma MessagesJsonSplit()
    ensures "messages.Json" == "messages" + ".Json"
  {
  }

  lemma MessagesJsonShape()
    ensures "messages" != [] && '/' !in "messages"
    ensures ".Json"[0] == '.' && '.' !in ".Json"[1..] && '/' !in ".Json"
    ensures "messages" + ".Json" != ".."
  {
  }

  lemma MixedJsonLower()
    ensures Lower(".Json") == ".json"
  {
  }

  /** Any other extension is unsupported. */
  lemma PdfUnsupported()
    ensures FormatOf("report.pdf") == Unsupported
  {
    ReportPdfSplit();
    ReportPdfShape();
    ExtnameOfSuffix("report", ".pdf");
    PdfLower();
  }

  lemma ReportPdfSplit()
    ensures "report.pdf" == "report" + ".pdf"
  {
  }

  lemma ReportPdfShape()
    ensures "report" != [] && '/' !in "report"
    ensures ".pdf"[0] == '.' && '.' !in ".pdf"[1..] && '/' !in ".pdf"
    ensures "report" + ".pdf" != ".."
  {
  }

  lemma PdfLower()
    ensures Lower(".pdf") != ".json" && Lower(".pdf") != ".txt"
  {
    assert Lower(".pdf")[1] == 'p';
  }

  /** A dot-file named ".json" has no extension, so it is unsupported. */
  lemma DotJsonUnsupported()
    ensures FormatOf(".json") == Unsupported
  {
    DotFile(".json");
  }

  /** A name whose only dot starts it has no extension. */
  lemma DotFile(name: string)
    requires name != [] && name[0] == '.' && '.' !in name[1..] && '/' !in name
    ensures Extname(name) == []
  {
    assert BackSpanLength(name, IsSlash) == 0 by {
      assert name[|name| - 1] in name;
    }
    assert DropSlashes(name) == name;
    forall i | 0 <= i < |name| ensures NotSlash(name[i]) {
      assert name[i] in name;
    }
    BackSpanWhole(name, NotSlash);
    assert LastPart(name) == name[0..] == name;
    BackSpanDot([], name);
    assert [] + name == name;
  }

  /** A file as multer hands it over: the client's file name and the content
      that `fs.readFileSync(path, 'utf-8')` returns. */
  datatype UploadedFile = UploadedFile(originalName: string, content: string)

  /** Why segmentation produced no rows. */
  datatype SegmentError =
    | UnsupportedFormat   // answered with 400 (server.js:125-127)
    | ParseError          // JSON.parse threw; answered with 500 by the outer catch

  /** The rows of an upload (server.js:109-128). `parse` stands for `JSON.parse`
      followed by the `for ... in` enumeration: the entries in enumeration order,
      or None when it throws. */
  function SegmentFile(file: UploadedFile, parse: string -> Option<seq<(string, JsValue)>>)
    : (r: Result<seq<Pending>, SegmentError>)
    ensures r == Failure(UnsupportedFormat) <==> FormatOf(file.originalName) == Unsupported
    ensures r == Failure(ParseError) <==>
              FormatOf(file.originalName) == Json && parse(file.content).None?
    ensures FormatOf(file.originalName) == Txt ==> r == Success(TextSegments(file.content))
    ensures FormatOf(file.originalName) == Json && parse(file.content).Some? ==>
              r == Success(JsonSegments(parse(file.content).value))
  {
    match FormatOf(file.originalName)
    case Json =>
      (match parse(file.content)
       case None => Failure(ParseError)
       case Some(entries) => Success(JsonSegments(entries)))
    case Txt => Success(TextSegments(file.content))
    case Unsupported => Failure(UnsupportedFormat)
  }
}
