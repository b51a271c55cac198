/** What the parser reads back: request lines of the accepted shape, and the header
    block that the response printer writes. */
module HttpMessages {
  import opened HttpSpec
  import opened HttpContext

  const CRLF: string := "\r\n"

  // ---------------------------------------------------------------------------
  // Request lines
  // ---------------------------------------------------------------------------

  function Joined(a: string, c: char, b: string): string {
    a + [c] + b
  }

  lemma JoinedParts(a: string, c: char, b: string)
    requires c !in a
    ensures var s := Joined(a, c, b); Find(s, c) == |a| < |s| && s[..|a|] == a && s[|a| + 1..] == b
  {
    FindUnique(Joined(a, c, b), c, |a|);
  }

  lemma FoundParts(s: string, c: char)
    requires Find(s, c) < |s|
    ensures var k := Find(s, c); c !in s[..k] && s == Joined(s[..k], c, s[k + 1..])
  {
  }

  function RequestLine(m: string, target: string, version: string): string {
    Joined(m, ' ', Joined(target, ' ', version))
  }

  predicate GoodLine(m: string, target: string, version: string) {
    MethodOf(m) != Invalid && ' ' !in target && (version == "HTTP/1.0" || version == "HTTP/1.1")
  }

  lemma MethodHasNoSpace(m: string)
    requires MethodOf(m) != Invalid
    ensures ' ' !in m
  {
  }

  lemma VersionShape(r: Request, v: string)
    ensures WithVersion(r, v).ok <==> v == "HTTP/1.0" || v == "HTTP/1.1"
    ensures WithVersion(r, v).ok ==> WithVersion(r, v).request == r.(version := if v == "HTTP/1.1" then Http11 else Http10)
  {
    var ten, eleven := "HTTP/1.0", "HTTP/1.1";
    assert ten[..7] == "HTTP/1." == eleven[..7];
    if |v| == 8 && v[..7] == "HTTP/1." {
      assert v == v[..7] + [v[7]];
      assert v[7] == '0' ==> v == ten;
      assert v[7] == '1' ==> v == eleven;
    }
  }

  /** What `ProcessLine` does once both blanks are found. */
  lemma LineParts(r: Request, m: string, target: string, version: string)
    requires MethodOf(m) != Invalid && ' ' !in target
    ensures ProcessLine(r, RequestLine(m, target, version)) == WithVersion(WithTarget(r.(verb := MethodOf(m)), target), version)
  {
    MethodHasNoSpace(m);
    JoinedParts(m, ' ', Joined(target, ' ', version));
    JoinedParts(target, ' ', version);
  }

  /** A line of that shape is accepted, with exactly its parts in the request. */
  lemma LineIsRead(r: Request, m: string, target: string, version: string)
    requires GoodLine(m, target, version)
    ensures ProcessLine(r, RequestLine(m, target, version)) ==
      LineResult(true, WithTarget(r.(verb := MethodOf(m)), target).(version := if version == "HTTP/1.1" then Http11 else Http10))
  {
    LineParts(r, m, target, version);
    VersionShape(WithTarget(r.(verb := MethodOf(m)), target), version);
  }

  lemma AcceptedParts(r: Request, line: string) returns (m: string, target: string, version: string, filled: Request)
    requires ProcessLine(r, line).ok
    ensures MethodOf(m) != Invalid && ' ' !in target && WithVersion(filled, version).ok
    ensures line == RequestLine(m, target, version)
  {
    var sp := Find(line, ' ');
    var rest := line[sp + 1..];
    var sp2 := Find(rest, ' ');
    m, target, version := line[..sp], rest[..sp2], rest[sp2 + 1..];
    filled := WithTarget(r.(verb := MethodOf(m)), target);
    SplitTwice(line, sp, rest, sp2);
  }

  lemma SplitTwice(line: string, sp: nat, rest: string, sp2: nat)
    requires sp == Find(line, ' ') < |line| && rest == line[sp + 1..] && sp2 == Find(rest, ' ') < |rest|
    ensures ' ' !in rest[..sp2] && line == RequestLine(line[..sp], rest[..sp2], rest[sp2 + 1..])
  {
    FoundParts(line, ' ');
    FoundParts(rest, ' ');
  }

  /** Only lines of that shape are accepted. */
  lemma AcceptedLineHasShape(r: Request, line: string) returns (m: string, target: string, version: string)
    requires ProcessLine(r, line).ok
    ensures GoodLine(m, target, version) && line == RequestLine(m, target, version)
  {
    var filled;
    m, target, version, filled := AcceptedParts(r, line);
    VersionShape(filled, version);
  }

  // ---------------------------------------------------------------------------
  // The response printer
  // ---------------------------------------------------------------------------

  datatype Field = Field(name: string, value: string)

  function FieldLine(f: Field): string {
    Joined(f.name, ':', " " + f.value)
  }

  /** Field lines, then the empty line. */
  function Block(fields: seq<Field>): string {
    if fields == [] then CRLF else FieldLine(fields[0]) + CRLF + Block(fields[1..])
  }

  function Connection(close: bool): Field {
    Field("Connection", if close then "close" else "Keep-Alive")
  }

  function StatusLine(code: string, message: string): string {
    "HTTP/1.0 " + code + " " + message + CRLF
  }

  /** The first line, split at its first two blanks: protocol, code and message. */
  lemma StatusLineParts(code: string, message: string)
    requires ' ' !in code
    ensures var l := StatusLine(code, message); var a := Find(l, ' ');
      && a < |l| && l[..a] == "HTTP/1.0"
      && var rest := l[a + 1..]; var b := Find(rest, ' ');
         b < |rest| && rest[..b] == code && rest[b + 1..] == message + "\r\n"
  {
    var end := message + CRLF;
    var rest := Joined(code, ' ', end);
    assert StatusLine(code, message) == Joined("HTTP/1.0", ' ', rest) by {
      assert "HTTP/1.0 " == "HTTP/1.0" + [' '];
      assert "HTTP/1.0" + [' '] + code + " " + message + CRLF == "HTTP/1.0" + [' '] + (code + [' '] + end);
    }
    JoinedParts("HTTP/1.0", ' ', rest);
    JoinedParts(code, ' ', end);
  }

  /** The fields of a header map, in the order of `keys`. */
  function FieldsOf(headers: map<string, string>, keys: seq<string>): (fs: seq<Field>)
    requires forall k :: k in keys ==> k in headers
    ensures |fs| == |keys|
  {
    seq(|keys|, i requires 0 <= i < |keys| => Field(keys[i], headers[keys[i]]))
  }

  /** `HttpResponse`, as far as `appendToBuffer` uses it. */
  class Response {
    var headers: map<string, string>
    var statusCode: string
    var statusMessage: string
    var closeConnection: bool

    constructor (close: bool)
      ensures headers == map[] && closeConnection == close
    {
      headers, statusCode, statusMessage, closeConnection := map[], "0", "", close;
    }

    /** `appendToBuffer`; `keys` is the order in which the map is walked. */
    method AppendToBuffer(out: Buffer, keys: seq<string>)
      requires out.Valid() && forall k :: k in keys ==> k in headers
      modifies out
      ensures out.Valid()
      ensures out.Readable() == old(out.Readable()) + StatusLine(statusCode, statusMessage)
        + Block([Connection(closeConnection)] + FieldsOf(headers, keys))
    {
      out.Append(StatusLine(statusCode, statusMessage));
      ghost var start := out.Readable();
      if closeConnection { out.Append("Connection: close" + CRLF); } else { out.Append("Connection: Keep-Alive" + CRLF); }
      ConnectionLine(closeConnection);
      ghost var fields := FieldsOf(headers, keys);
      BlockStart(start, Connection(closeConnection), fields);
      AppendHeaders(out, keys);
    }

    method AppendHeaders(out: Buffer, keys: seq<string>)
      requires out.Valid() && forall k :: k in keys ==> k in headers
      modifies out
      ensures out.Valid()
      ensures out.Readable() == old(out.Readable()) + Block(FieldsOf(headers, keys))
    {
      ghost var fields := FieldsOf(headers, keys);
      ghost var all := out.Readable() + Block(fields);
      assert fields[0..] == fields;
      for i := 0 to |keys|
        invariant out.Valid() && out.Readable() + Block(fields[i..]) == all
      {
        BlockStep(out.Readable(), fields, i, all);
        out.Append(FieldLine(Field(keys[i], headers[keys[i]])) + CRLF);
      }
      out.Append(CRLF);
    }
  }

  lemma BlockStart(start: string, f: Field, fields: seq<Field>)
    ensures start + (FieldLine(f) + CRLF) + Block(fields) == start + Block([f] + fields)
  {
    assert ([f] + fields)[1..] == fields;
  }

  lemma BlockStep(start: string, fields: seq<Field>, i: nat, all: string)
    requires i < |fields| && start + Block(fields[i..]) == all
    ensures start + (FieldLine(fields[i]) + CRLF) + Block(fields[i + 1..]) == all
  {
    assert fields[i..][1..] == fields[i + 1..];
    BlockStart(start, fields[i], fields[i + 1..]);
    assert [fields[i]] + fields[i + 1..] == fields[i..];
  }

  lemma ConnectionLine(close: bool)
    ensures FieldLine(Connection(close)) + CRLF == if close then "Connection: close" + CRLF else "Connection: Keep-Alive" + CRLF
  {
  }

  // ---------------------------------------------------------------------------
  // Reading the block back
  // ---------------------------------------------------------------------------

  predicate NoCrlf(s: string) {
    forall i :: 0 <= i < |s| ==> !CrlfAt(s, i)
  }

  predicate Trimmed(s: string) {
    s == [] || (!IsSpace(s[0]) && !IsSpace(s[|s| - 1]))
  }

  /** Names without a colon, nothing with a CRLF, values without outer white space. */
  predicate GoodField(f: Field) {
    ':' !in f.name && NoCrlf(f.name) && NoCrlf(f.value) && Trimmed(f.value)
  }

  lemma FieldLineHasNoCrlf(f: Field)
    requires GoodField(f)
    ensures NoCrlf(FieldLine(f))
  {
    var line, n := FieldLine(f), |f.name|;
    forall i | 0 <= i < |line| ensures !CrlfAt(line, i) {
      if i < n {
        assert !CrlfAt(f.name, i);
        assert line[n] == ':';
      } else if i >= n + 2 {
        assert !CrlfAt(f.value, i - (n + 2));
      }
    }
  }

  lemma LineEnds(line: string, rest: string)
    requires NoCrlf(line)
    ensures FindCrlf(line + CRLF + rest) == |line|
    ensures (line + CRLF + rest)[..|line|] == line && (line + CRLF + rest)[|line| + 2..] == rest
  {
    var s := line + CRLF + rest;
    assert s[|line|] == '\r' && s[|line| + 1] == '\n';
    forall i | 0 <= i < |line| ensures !CrlfAt(s, i) { assert !CrlfAt(line, i); }
    CrlfUnique(s, |line|);
  }

  lemma TrimsBack(v: string)
    requires Trimmed(v)
    ensures TrimRight(TrimLeft(" " + v)) == v
  {
    assert (" " + v)[1..] == v;
    assert TrimLeft(" " + v) == TrimLeft(v) == v;
  }

  ghost function Applied(h: map<string, string>, fields: seq<Field>): map<string, string>
    decreases |fields|
  {
    if fields == [] then h else Applied(h[fields[0].name := fields[0].value], fields[1..])
  }

  lemma FieldTurn(r: Request, f: Field)
    requires GoodField(f)
    ensures HttpTurn(Context(ExpectHeaders, r), FieldLine(f)) == Advance(Context(ExpectHeaders, r.(headers := r.headers[f.name := f.value])))
  {
    JoinedParts(f.name, ':', " " + f.value);
    TrimsBack(f.value);
  }

  lemma FieldIsRead(r: Request, f: Field, rest: string)
    requires GoodField(f)
    ensures var s := FieldLine(f) + CRLF + rest; var c := Context(ExpectHeaders, r);
      Parse(HttpTurn, c, s) ==
      Later(Parse(HttpTurn, c.(request := r.(headers := r.headers[f.name := f.value])), rest), |FieldLine(f)| + 2)
  {
    var line, c := FieldLine(f), Context(ExpectHeaders, r);
    FieldLineHasNoCrlf(f);
    LineEnds(line, rest);
    ParseOneLine(HttpTurn, c, line + CRLF + rest, |line|, line, rest);
    FieldTurn(r, f);
  }

  /** The block ends in `GotAll`, every byte consumed, with the fields applied in order. */
  lemma {:induction false} BlockIsRead(r: Request, fields: seq<Field>)
    requires forall i :: 0 <= i < |fields| ==> GoodField(fields[i])
    ensures Parse(HttpTurn, Context(ExpectHeaders, r), Block(fields)) ==
      Outcome(true, Context(GotAll, r.(headers := Applied(r.headers, fields))), |Block(fields)|)
    decreases |fields|
  {
    if fields == [] {
      var c := Context(ExpectHeaders, r);
      LineEnds("", "");
      assert "" + CRLF + "" == CRLF;
      ParseOneLine(HttpTurn, c, CRLF, 0, "", "");
    } else {
      FieldIsRead(r, fields[0], Block(fields[1..]));
      BlockIsRead(r.(headers := r.headers[fields[0].name := fields[0].value]), fields[1..]);
    }
  }

  lemma {:induction false} AppliedMap(h: map<string, string>, m: map<string, string>, keys: seq<string>)
    requires forall k :: k in keys ==> k in m
    ensures Applied(h, FieldsOf(m, keys)) == h + (map k | k in keys :: m[k])
    decreases |keys|
  {
    if keys != [] {
      var fs := FieldsOf(m, keys);
      assert fs[1..] == FieldsOf(m, keys[1..]);
      AppliedMap(h[keys[0] := m[keys[0]]], m, keys[1..]);
    }
  }

  /** The header block that `appendToBuffer` writes for any header map, read by the
      parser's header loop: the Connection entry overridden by the map, `GotAll`, and
      every byte consumed. */
  lemma PrintedHeadersReadBack(r: Request, headers: map<string, string>, close: bool, keys: seq<string>)
    requires (set k | k in keys) == headers.Keys
    requires forall k :: k in headers ==> GoodField(Field(k, headers[k]))
    ensures forall k :: k in keys ==> k in headers
    ensures var block := Block([Connection(close)] + FieldsOf(headers, keys));
      Parse(HttpTurn, Context(ExpectHeaders, r.(headers := map[])), block) ==
      Outcome(true, Context(GotAll, r.(headers := map["Connection" := if close then "close" else "Keep-Alive"] + headers)), |block|)
  {
    assert forall k :: k in keys ==> k in (set x | x in keys);
    var rest := FieldsOf(headers, keys);
    var conn := Connection(close);
    var fields := [conn] + rest;
    ConnectionIsGood(close);
    forall i | 0 <= i < |fields| ensures GoodField(fields[i]) {
      if i > 0 { assert keys[i - 1] in headers; }
    }
    var r0 := r.(headers := map[]);
    BlockIsRead(r0, fields);
    AppliedBoth(conn, headers, keys);
  }

  lemma ConnectionIsGood(close: bool)
    ensures GoodField(Connection(close))
  {
    var name, value := Connection(close).name, Connection(close).value;
    assert value[0] == (if close then 'c' else 'K') && value[|value| - 1] == 'e';
    NoReturn(name);
    NoReturn(value);
  }

  lemma NoReturn(s: string)
    requires '\r' !in s
    ensures NoCrlf(s)
  {
  }

  lemma AppliedBoth(conn: Field, headers: map<string, string>, keys: seq<string>)
    requires (set k | k in keys) == headers.Keys
    requires forall k :: k in keys ==> k in headers
    ensures Applied(map[], [conn] + FieldsOf(headers, keys)) == map[conn.name := conn.value] + headers
  {
    var fields := FieldsOf(headers, keys);
    assert ([conn] + fields)[1..] == fields;
    AppliedMap(map[conn.name := conn.value], headers, keys);
    forall k | k in headers ensures k in keys { assert k in (set x | x in keys); }
    assert (map k | k in keys :: headers[k]) == headers;
  }
}
