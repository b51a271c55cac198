/** Whole requests through the parser: what a request is read as, byte for byte, and which
    first lines are accepted. */
module HttpRequests {
  import opened HttpSpec
  import opened HttpMessages

  // ---------------------------------------------------------------------------
  // Header fields with any white space
  // ---------------------------------------------------------------------------

  /** A header line as it may arrive: white space around the value. */
  datatype RawField = RawField(name: string, left: string, value: string, right: string)

  function RawText(f: RawField): string {
    f.name + ":" + (f.left + f.value + f.right)
  }

  predicate AllSpace(s: string) {
    forall i :: 0 <= i < |s| ==> IsSpace(s[i])
  }

  predicate GoodRaw(f: RawField) {
    ':' !in f.name && NoCrlf(RawText(f)) && AllSpace(f.left) && AllSpace(f.right) && Trimmed(f.value)
  }

  lemma {:induction false} TrimsLeft(left: string, rest: string)
    requires AllSpace(left)
    ensures TrimLeft(left + rest) == TrimLeft(rest)
  {
    if left == [] {
      assert left + rest == rest;
    } else {
      assert (left + rest)[1..] == left[1..] + rest;
      TrimsLeft(left[1..], rest);
    }
  }

  lemma {:induction false} TrimsRight(value: string, right: string)
    requires AllSpace(right)
    ensures TrimRight(value + right) == TrimRight(value)
  {
    if right == [] {
      assert value + right == value;
    } else {
      var s := value + right;
      assert s[..|s| - 1] == value + right[..|right| - 1];
      TrimsRight(value, right[..|right| - 1]);
    }
  }

  lemma TrimsBoth(left: string, value: string, right: string)
    requires AllSpace(left) && AllSpace(right) && Trimmed(value)
    ensures TrimRight(TrimLeft(left + value + right)) == value
  {
    assert left + value + right == left + (value + right);
    TrimsLeft(left, value + right);
    if value == [] {
      assert value + right == right && right + "" == right;
      TrimsLeft(right, "");
    } else {
      assert TrimLeft(value + right) == value + right;
      TrimsRight(value, right);
    }
  }

  lemma RawTurn(r: Request, f: RawField)
    requires GoodRaw(f)
    ensures HttpTurn(Context(ExpectHeaders, r), RawText(f)) == Advance(Context(ExpectHeaders, r.(headers := r.headers[f.name := f.value])))
  {
    var padded := f.left + f.value + f.right;
    assert RawText(f) == Joined(f.name, ':', padded);
    JoinedParts(f.name, ':', padded);
    TrimsBoth(f.left, f.value, f.right);
  }

  // ---------------------------------------------------------------------------
  // The header lines of a request
  // ---------------------------------------------------------------------------

  function Lines(fields: seq<RawField>): string {
    if fields == [] then "" else RawText(fields[0]) + "\r\n" + Lines(fields[1..])
  }

  ghost function Collect(h: map<string, string>, fields: seq<RawField>): map<string, string>
    decreases |fields|
  {
    if fields == [] then h else Collect(h[fields[0].name := fields[0].value], fields[1..])
  }

  /** The names are those of the fields, and the last field of a name gives its value. */
  ghost predicate HeaderMap(h: map<string, string>, fields: seq<RawField>) {
    && (forall k :: k in h ==> exists i :: 0 <= i < |fields| && fields[i].name == k)
    && (forall i :: 0 <= i < |fields| ==> fields[i].name in h)
    && (forall i :: 0 <= i < |fields| && LastOfName(fields, i) ==> h[fields[i].name] == fields[i].value)
  }

  predicate LastOfName(fields: seq<RawField>, i: nat)
    requires i < |fields|
  {
    forall j :: i < j < |fields| ==> fields[j].name != fields[i].name
  }

  lemma {:induction false} CollectMore(h: map<string, string>, fields: seq<RawField>, f: RawField)
    ensures Collect(h, fields + [f]) == Collect(h, fields)[f.name := f.value]
    decreases |fields|
  {
    if fields == [] {
      assert (fields + [f])[1..] == [];
    } else {
      assert (fields + [f])[1..] == fields[1..] + [f];
      CollectMore(h[fields[0].name := fields[0].value], fields[1..], f);
    }
  }

  lemma {:induction false} CollectIsHeaderMap(fields: seq<RawField>)
    ensures HeaderMap(Collect(map[], fields), fields)
  {
    if fields != [] {
      var front, f := fields[..|fields| - 1], fields[|fields| - 1];
      CollectIsHeaderMap(front);
      CollectMore(map[], front, f);
      assert fields == front + [f];
      HeaderMapMore(Collect(map[], front), front, f);
    }
  }

  lemma HeaderMapMore(h: map<string, string>, front: seq<RawField>, f: RawField)
    requires HeaderMap(h, front)
    ensures HeaderMap(h[f.name := f.value], front + [f])
  {
    var fields, h' := front + [f], h[f.name := f.value];
    assert fields[|front|] == f;
    forall k | k in h' ensures exists i :: 0 <= i < |fields| && fields[i].name == k {
      if k != f.name {
        var i :| 0 <= i < |front| && front[i].name == k;
        assert fields[i].name == k;
      }
    }
    forall i | 0 <= i < |fields| && LastOfName(fields, i) ensures h'[fields[i].name] == fields[i].value {
      if i < |front| {
        assert fields[|front|].name != fields[i].name;
        forall j | i < j < |front| ensures front[j].name != front[i].name { assert fields[j] == front[j]; }
        assert LastOfName(front, i);
      }
    }
  }

  /** Header lines, a line without a colon, and whatever follows: the fields are stored, the
      colon-less line ends the headers, and what follows is not touched. */
  lemma {:induction false} HeadersAreRead(r: Request, fields: seq<RawField>, last: string, rest: string)
    requires (forall i :: 0 <= i < |fields| ==> GoodRaw(fields[i])) && ':' !in last && NoCrlf(last)
    ensures var s := Lines(fields) + (last + "\r\n" + rest);
      Parse(HttpTurn, Context(ExpectHeaders, r), s) ==
      Outcome(true, Context(GotAll, r.(headers := Collect(r.headers, fields))), |s| - |rest|)
    decreases |fields|
  {
    var end := last + "\r\n" + rest;
    if fields == [] {
      assert Lines(fields) + end == end;
      LastLine(r, last, rest);
    } else {
      var f, tail := fields[0], Lines(fields[1..]) + end;
      assert Lines(fields) + end == RawText(f) + CRLF + tail;
      var next := r.(headers := r.headers[f.name := f.value]);
      HeadersAreRead(next, fields[1..], last, rest);
      OneField(r, f, tail);
    }
  }

  lemma OneField(r: Request, f: RawField, tail: string)
    requires GoodRaw(f)
    ensures Parse(HttpTurn, Context(ExpectHeaders, r), RawText(f) + CRLF + tail) ==
      Later(Parse(HttpTurn, Context(ExpectHeaders, r.(headers := r.headers[f.name := f.value])), tail), |RawText(f)| + 2)
  {
    LineEnds(RawText(f), tail);
    RawTurn(r, f);
    ParseOneLine(HttpTurn, Context(ExpectHeaders, r), RawText(f) + CRLF + tail, |RawText(f)|, RawText(f), tail);
  }

  lemma LastLine(r: Request, last: string, rest: string)
    requires ':' !in last && NoCrlf(last)
    ensures Parse(HttpTurn, Context(ExpectHeaders, r), last + "\r\n" + rest) == Outcome(true, Context(GotAll, r), |last| + 2)
  {
    LineEnds(last, rest);
    FindUnique(last, ':', |last|);
    ParseOneLine(HttpTurn, Context(ExpectHeaders, r), last + CRLF + rest, |last|, last, rest);
  }

  // ---------------------------------------------------------------------------
  // A whole request
  // ---------------------------------------------------------------------------

  function VersionText(version: Version): string {
    if version == Http11 then "HTTP/1.1" else "HTTP/1.0"
  }

  function LineText(verb: Method, target: string, version: Version): string {
    MethodString(verb) + " " + target + " " + VersionText(version)
  }

  lemma LineTextIsJoined(verb: Method, target: string, version: Version)
    ensures LineText(verb, target, version) == RequestLine(MethodString(verb), target, VersionText(version))
  {
    var m, v := MethodString(verb), VersionText(version);
    assert m + " " + target + " " + v == m + [' '] + (target + [' '] + v);
  }

  /** The request line on an empty request: the parts written out. */
  lemma LineFillsRequest(verb: Method, where: string, query: string, version: Version)
    requires verb != Invalid && version != Unknown
    requires ' ' !in where && ' ' !in query && '?' !in where && (query == "" || query[0] == '?')
    ensures ProcessLine(Request(Invalid, Unknown, "", "", map[]), LineText(verb, where + query, version)) ==
      LineResult(true, Request(verb, version, if where == "/" then "public/index.html" else "public" + where, query, map[]))
  {
    var r, target := Request(Invalid, Unknown, "", "", map[]), where + query;
    MethodNames(MethodString(verb), verb);
    LineTextIsJoined(verb, target, version);
    LineIsRead(r, MethodString(verb), target, VersionText(version));
    FindUnique(target, '?', |where|);
    assert target[..|where|] == where && target[|where|..] == query;
    assert query == "" ==> target == where;
    VersionTexts();
  }

  lemma VersionTexts()
    ensures VersionText(Http10) == "HTTP/1.0" && VersionText(Http11) == "HTTP/1.1" && "HTTP/1.0" != "HTTP/1.1"
  {
    assert "HTTP/1.0"[7] != "HTTP/1.1"[7];
  }

  function RequestText(verb: Method, target: string, version: Version, fields: seq<RawField>, last: string, rest: string): string {
    LineText(verb, target, version) + "\r\n" + (Lines(fields) + (last + "\r\n" + rest))
  }

  /** A whole request, as its bytes, is read as what it says; exactly its bytes are consumed. */
  lemma RequestIsRead(verb: Method, where: string, query: string, version: Version, fields: seq<RawField>, last: string, rest: string)
    returns (headers: map<string, string>)
    requires verb != Invalid && version != Unknown && NoCrlf(LineText(verb, where + query, version))
    requires ' ' !in where && ' ' !in query && '?' !in where && (query == "" || query[0] == '?')
    requires (forall i :: 0 <= i < |fields| ==> GoodRaw(fields[i])) && ':' !in last && NoCrlf(last)
    ensures HeaderMap(headers, fields)
    ensures var s := RequestText(verb, where + query, version, fields, last, rest);
      Parse(HttpTurn, Context(ExpectRequestLine, Request(Invalid, Unknown, "", "", map[])), s) ==
      Outcome(true,
              Context(GotAll, Request(verb, version, if where == "/" then "public/index.html" else "public" + where, query, headers)),
              |s| - |rest|)
  {
    var r := Request(verb, version, if where == "/" then "public/index.html" else "public" + where, query, map[]);
    headers := Collect(map[], fields);
    CollectIsHeaderMap(fields);
    LineFillsRequest(verb, where, query, version);
    HeadersAreRead(r, fields, last, rest);
    FirstLine(LineText(verb, where + query, version), Lines(fields) + (last + "\r\n" + rest), Request(Invalid, Unknown, "", "", map[]), r);
  }

  lemma FirstLine(line: string, tail: string, r0: Request, r: Request)
    requires NoCrlf(line) && ProcessLine(r0, line) == LineResult(true, r)
    ensures Parse(HttpTurn, Context(ExpectRequestLine, r0), line + "\r\n" + tail) ==
      Later(Parse(HttpTurn, Context(ExpectHeaders, r), tail), |line| + 2)
  {
    LineEnds(line, tail);
    ParseOneLine(HttpTurn, Context(ExpectRequestLine, r0), line + CRLF + tail, |line|, line, tail);
  }

  // ---------------------------------------------------------------------------
  // Which first lines are accepted
  // ---------------------------------------------------------------------------

  ghost predicate Shaped(line: string) {
    exists verb: Method, target: string, version: Version ::
      verb != Invalid && version != Unknown && ' ' !in target && line == LineText(verb, target, version)
  }

  lemma ShapedIsAccepted(r: Request, line: string)
    ensures ProcessLine(r, line).ok <==> Shaped(line)
  {
    if Shaped(line) {
      var verb: Method, target: string, version: Version :|
        verb != Invalid && version != Unknown && ' ' !in target && line == LineText(verb, target, version);
      MethodNames(MethodString(verb), verb);
      LineTextIsJoined(verb, target, version);
      LineIsRead(r, MethodString(verb), target, VersionText(version));
    }
    if ProcessLine(r, line).ok {
      var m, target, v := AcceptedLineHasShape(r, line);
      MethodNames(m, Invalid);
      var version := if v == "HTTP/1.1" then Http11 else Http10;
      LineTextIsJoined(MethodOf(m), target, version);
      assert line == LineText(MethodOf(m), target, version);
    }
  }

  /** Headers are never rejected. */
  lemma {:induction false} HeadersNeverFail(r: Request, s: string)
    ensures var o := Parse(HttpTurn, Context(ExpectHeaders, r), s);
      o.ok && (o.ctx.state == ExpectHeaders || o.ctx.state == GotAll)
    decreases |s|
  {
    var k := FindCrlf(s);
    if k != -1 {
      var t := HttpTurn(Context(ExpectHeaders, r), s[..k]);
      if t.Advance? { HeadersNeverFail(t.ctx.request, s[k + 2..]); }
    }
  }

  /** The first line decides: without a CRLF nothing happens; with one, the parser goes on to
      the headers if and only if the line has the shape of a request line, and otherwise
      fails with the line unread. */
  lemma FirstLineDecides(r: Request, s: string)
    ensures var o := Parse(HttpTurn, Context(ExpectRequestLine, r), s); var k := FindCrlf(s);
      && (k == -1 ==> o == Outcome(true, Context(ExpectRequestLine, r), 0))
      && (k != -1 && Shaped(s[..k]) ==> o.ok && (o.ctx.state == ExpectHeaders || o.ctx.state == GotAll) && o.consumed >= k + 2)
      && (k != -1 && !Shaped(s[..k]) ==> !o.ok && o.ctx.state == ExpectRequestLine && o.consumed == 0)
  {
    var k := FindCrlf(s);
    if k != -1 {
      ShapedIsAccepted(r, s[..k]);
      ParseOneLine(HttpTurn, Context(ExpectRequestLine, r), s, k, s[..k], s[k + 2..]);
      HeadersNeverFail(ProcessLine(r, s[..k]).request, s[k + 2..]);
    }
  }
}
