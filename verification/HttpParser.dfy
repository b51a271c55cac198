/** The incremental HTTP/1.x request parser (request line and headers as in
    sections 5.1 and 4.2 of RFC 2616) over a buffer that grows by chunks. */
module HttpSpec {
  datatype Method = Invalid | Get | Post | Head | Put | Delete

  datatype Version = Unknown | Http10 | Http11

  datatype Request = Request(
    verb: Method,
    version: Version,
    path: string,
    query: string,
    headers: map<string, string>)

  datatype ParseState = ExpectRequestLine | ExpectHeaders | ExpectBody | GotAll

  datatype Context = Context(state: ParseState, request: Request)

  // ---------------------------------------------------------------------------
  // Searching
  // ---------------------------------------------------------------------------

  /** A carriage return followed by a line feed at position `i`. */
  predicate CrlfAt(s: string, i: int) {
    0 <= i < |s| - 1 && s[i] == '\r' && s[i + 1] == '\n'
  }

  /** `find_crlf`: the first CRLF, or -1. */
  function FindCrlf(s: string): (k: int)
    ensures -1 <= k && k + 2 <= (if |s| < 1 then 1 else |s|)
  {
    if |s| < 2 then -1
    else if CrlfAt(s, 0) then 0
    else var k := FindCrlf(s[1..]); if k == -1 then -1 else k + 1
  }

  lemma {:induction false} FirstCrlf(s: string)
    ensures var k := FindCrlf(s);
      && (k == -1 || CrlfAt(s, k))
      && (forall i :: 0 <= i < (if k == -1 then |s| else k) ==> !CrlfAt(s, i))
  {
    if |s| >= 2 && !CrlfAt(s, 0) {
      FirstCrlf(s[1..]);
      assert forall i :: 0 < i < |s| ==> (CrlfAt(s, i) <==> CrlfAt(s[1..], i - 1));
    }
  }

  /** `std::find`: the first occurrence, or the end. */
  function Find(s: string, c: char): (k: nat)
    ensures k <= |s| && (k < |s| ==> s[k] == c)
    ensures forall i :: 0 <= i < k ==> s[i] != c
  {
    if s == [] || s[0] == c then 0 else 1 + Find(s[1..], c)
  }

  lemma FindUnique(s: string, c: char, k: nat)
    requires k <= |s| && (k < |s| ==> s[k] == c) && forall i :: 0 <= i < k ==> s[i] != c
    ensures Find(s, c) == k
  {
  }

  lemma CrlfUnique(s: string, k: int)
    requires CrlfAt(s, k) && forall i :: 0 <= i < k ==> !CrlfAt(s, i)
    ensures FindCrlf(s) == k
  {
    FirstCrlf(s);
  }

  /** Appending bytes does not move a CRLF that was there. */
  lemma CrlfStays(a: string, b: string)
    requires FindCrlf(a) != -1
    ensures FindCrlf(a + b) == FindCrlf(a)
  {
    var k := FindCrlf(a);
    FirstCrlf(a);
    forall i | 0 <= i < k ensures !CrlfAt(a + b, i) { assert !CrlfAt(a, i); }
    CrlfUnique(a + b, k);
  }

  // ---------------------------------------------------------------------------
  // One line
  // ---------------------------------------------------------------------------

  function MethodOf(m: string): Method {
    if m == "GET" then Get
    else if m == "POST" then Post
    else if m == "HEAD" then Head
    else if m == "PUT" then Put
    else if m == "DELETE" then Delete
    else Invalid
  }

  /** `methodString`. */
  function MethodString(verb: Method): string {
    match verb
    case Get => "GET"
    case Post => "POST"
    case Head => "HEAD"
    case Put => "PUT"
    case Delete => "DELETE"
    case Invalid => "UNKNOWN"
  }

  /** Reading a method and naming it are inverse to each other, apart from the invalid one. */
  lemma MethodNames(m: string, verb: Method)
    ensures MethodOf(m) != Invalid ==> MethodString(MethodOf(m)) == m
    ensures verb != Invalid ==> MethodOf(MethodString(verb)) == verb
    ensures MethodOf(m) == Invalid <==> forall v: Method :: v != Invalid ==> MethodString(v) != m
  {
    var get, post, head, put, delete := MethodString(Get), MethodString(Post), MethodString(Head), MethodString(Put), MethodString(Delete);
    assert |get| == 3 == |put| && get[0] != put[0] && |post| == 4 == |head| && post[0] != head[0] && |delete| == 6;
  }

  function PathOf(target: string): string {
    if target == "/" then "public/index.html" else "public" + target
  }

  datatype LineResult = LineResult(ok: bool, request: Request)

  /** Path and, from the question mark on, query of a request target. */
  function WithTarget(r: Request, target: string): Request {
    var q := Find(target, '?');
    if q < |target| then r.(path := PathOf(target[..q]), query := target[q..])
    else r.(path := PathOf(target))
  }

  function WithVersion(r: Request, v: string): LineResult {
    if |v| == 8 && v[..7] == "HTTP/1." && v[7] == '1' then LineResult(true, r.(version := Http11))
    else if |v| == 8 && v[..7] == "HTTP/1." && v[7] == '0' then LineResult(true, r.(version := Http10))
    else LineResult(false, r)
  }

  /** `processRequestLine`, with what it leaves in the request when it fails. */
  function ProcessLine(r: Request, line: string): LineResult {
    var sp := Find(line, ' ');
    if sp == |line| then LineResult(false, r)
    else
      var r1 := r.(verb := MethodOf(line[..sp]));
      if r1.verb == Invalid then LineResult(false, r1)
      else
        var rest := line[sp + 1..];
        var sp2 := Find(rest, ' ');
        if sp2 == |rest| then LineResult(false, r1)
        else WithVersion(WithTarget(r1, rest[..sp2]), rest[sp2 + 1..])
  }

  predicate IsSpace(c: char) {
    c == ' ' || c == '\t' || c == '\n' || c == '\r' || c as int == 11 || c as int == 12
  }

  function TrimLeft(s: string): string {
    if s != [] && IsSpace(s[0]) then TrimLeft(s[1..]) else s
  }

  function TrimRight(s: string): string {
    if s != [] && IsSpace(s[|s| - 1]) then TrimRight(s[..|s| - 1]) else s
  }

  /** `addHeader`: the value loses surrounding white space; a later field wins. */
  function AddHeader(r: Request, line: string, colon: nat): Request
    requires colon < |line|
  {
    r.(headers := r.headers[line[..colon] := TrimRight(TrimLeft(line[colon + 1..]))])
  }

  // ---------------------------------------------------------------------------
  // A whole call
  // ---------------------------------------------------------------------------

  datatype Outcome = Outcome(ok: bool, ctx: Context, consumed: nat)

  /** What one turn of the parser's loop does with a complete line. */
  datatype Turn = Reject(request: Request) | Finish | Advance(ctx: Context)

  type TurnFunction = (Context, string) -> Turn

  /** States in which the parser's loop has an exit. */
  predicate Enterable(c: Context) {
    c.state == ExpectRequestLine || c.state == ExpectHeaders
  }

  /** One turn, in a state in which the loop has an exit. */
  function HttpTurn(c: Context, line: string): (t: Turn)
    ensures t.Advance? ==> t.ctx.state == ExpectHeaders || t.ctx.state == c.state
  {
    if c.state == ExpectRequestLine then
      var l := ProcessLine(c.request, line);
      if l.ok then Advance(Context(ExpectHeaders, l.request)) else Reject(l.request)
    else
      var colon := Find(line, ':');
      if colon == |line| then Finish else Advance(c.(request := AddHeader(c.request, line, colon)))
  }

  /** The loop of `parseRequest` on the readable bytes, for any meaning of a line. */
  function Parse(turn: TurnFunction, c: Context, s: string): (o: Outcome)
    ensures o.consumed <= |s|
    decreases |s|
  {
    var k := FindCrlf(s);
    if k == -1 then Outcome(true, c, 0)
    else
      var t := turn(c, s[..k]);
      if t.Advance? then Later(Parse(turn, t.ctx, s[k + 2..]), k + 2) else Stop(t, c, k)
  }

  /** The line rejected stays in the buffer; the one that ends the headers does not. */
  function Stop(t: Turn, c: Context, k: nat): Outcome
    requires !t.Advance?
  {
    if t.Reject? then Outcome(false, c.(request := t.request), 0) else Outcome(true, c.(state := GotAll), k + 2)
  }

  function Later(o: Outcome, n: nat): Outcome {
    o.(consumed := n + o.consumed)
  }

  /** The parse is over: failed, or all headers seen. */
  predicate Over(o: Outcome) {
    !o.ok || o.ctx.state == GotAll
  }

  /** Continuing with more bytes after an unfinished call. */
  function Continue(turn: TurnFunction, o: Outcome, rest: string): Outcome {
    if Over(o) then o
    else var o2 := Parse(turn, o.ctx, rest); o2.(consumed := o.consumed + o2.consumed)
  }

  /** Turns that go on stay in states in which the loop has an exit. */
  ghost predicate Stays(turn: TurnFunction) {
    forall c: Context, line: string {:trigger turn(c, line)} :: Enterable(c) && turn(c, line).Advance? ==> Enterable(turn(c, line).ctx)
  }

  lemma {:induction false} UnfinishedStays(turn: TurnFunction, c: Context, s: string)
    requires Stays(turn) && Enterable(c)
    ensures var o := Parse(turn, c, s); Over(o) || Enterable(o.ctx)
    decreases |s|
  {
    var k := FindCrlf(s);
    if k != -1 {
      var t := turn(c, s[..k]);
      if t.Advance? { UnfinishedStays(turn, t.ctx, s[k + 2..]); }
    }
  }

  lemma HttpStays()
    ensures Stays(HttpTurn)
  {
  }

  /** An unfinished call leaves a state the parser can be entered in again. */
  lemma UnfinishedIsEnterable(c: Context, s: string)
    requires Enterable(c)
    ensures var o := Parse(HttpTurn, c, s); Over(o) || Enterable(o.ctx)
  {
    HttpStays();
    UnfinishedStays(HttpTurn, c, s);
  }

  /** No turn goes on past the end of the headers. */
  ghost predicate Ends(turn: TurnFunction) {
    forall c: Context, line: string {:trigger turn(c, line)} :: c.state != GotAll && turn(c, line).Advance? ==> turn(c, line).ctx.state != GotAll
  }

  lemma ParseOneLine(turn: TurnFunction, c: Context, s: string, k: int, line: string, rest: string)
    requires k == FindCrlf(s) != -1 && line == s[..k] && rest == s[k + 2..]
    ensures var t := turn(c, line);
      Parse(turn, c, s) == if t.Advance? then Later(Parse(turn, t.ctx, rest), k + 2) else Stop(t, c, k)
  {
  }

  /** Splitting the input anywhere changes nothing: parse the first part, keep what
      was not consumed, and go on when the second part arrives. */
  lemma {:induction false} ParseSplit(turn: TurnFunction, c: Context, a: string, b: string)
    requires Ends(turn) && c.state != GotAll
    ensures var o := Parse(turn, c, a); Parse(turn, c, a + b) == Continue(turn, o, a[o.consumed..] + b)
    decreases |a|
  {
    var k := FindCrlf(a);
    if k == -1 {
      assert a[0..] == a;
    } else {
      var line, tail := a[..k], a[k + 2..];
      ParseOneLine(turn, c, a, k, line, tail);
      LineOfBoth(turn, c, a, b, k);
      var t := turn(c, line);
      if t.Advance? {
        ParseSplit(turn, t.ctx, tail, b);
        LaterContinue(turn, t.ctx, a, b, k);
      }
    }
  }

  lemma LineOfBoth(turn: TurnFunction, c: Context, a: string, b: string, k: int)
    requires k == FindCrlf(a) != -1
    ensures var t := turn(c, a[..k]);
      Parse(turn, c, a + b) == if t.Advance? then Later(Parse(turn, t.ctx, a[k + 2..] + b), k + 2) else Stop(t, c, k)
  {
    CrlfStays(a, b);
    assert (a + b)[..k] == a[..k] && (a + b)[k + 2..] == a[k + 2..] + b;
    ParseOneLine(turn, c, a + b, k, a[..k], a[k + 2..] + b);
  }

  lemma LaterContinue(turn: TurnFunction, c: Context, a: string, b: string, k: nat)
    requires k + 2 <= |a|
    ensures var tail := a[k + 2..]; var p := Parse(turn, c, tail); var o := Later(p, k + 2);
      Later(Continue(turn, p, tail[p.consumed..] + b), k + 2) == Continue(turn, o, a[o.consumed..] + b)
  {
    var p := Parse(turn, c, a[k + 2..]);
    assert a[k + 2..][p.consumed..] == a[k + 2 + p.consumed..];
  }

  function Concat(chunks: seq<string>): string {
    if chunks == [] then "" else Concat(chunks[..|chunks| - 1]) + chunks[|chunks| - 1]
  }

  /** Feeding chunks one call at a time, unconsumed bytes kept, until it is over. */
  ghost function Feed(turn: TurnFunction, c: Context, chunks: seq<string>): (o: Outcome)
    ensures o.consumed <= |Concat(chunks)|
    decreases |chunks|
  {
    if chunks == [] then Outcome(true, c, 0)
    else
      var o := Feed(turn, c, chunks[..|chunks| - 1]);
      Continue(turn, o, Concat(chunks[..|chunks| - 1])[o.consumed..] + chunks[|chunks| - 1])
  }

  lemma {:induction false} FeedIsParse(turn: TurnFunction, c: Context, chunks: seq<string>)
    requires Ends(turn) && c.state != GotAll
    ensures Feed(turn, c, chunks) == Parse(turn, c, Concat(chunks))
    decreases |chunks|
  {
    if chunks != [] {
      FeedIsParse(turn, c, chunks[..|chunks| - 1]);
      ParseSplit(turn, c, Concat(chunks[..|chunks| - 1]), chunks[|chunks| - 1]);
    }
  }

  /** Any chunking of a request gives the verdict, state, request and consumed count
      of one call on the whole stream. */
  lemma ChunkingIsInvisible(c: Context, chunks: seq<string>)
    requires Enterable(c)
    ensures Feed(HttpTurn, c, chunks) == Parse(HttpTurn, c, Concat(chunks))
  {
    HttpEnds();
    FeedIsParse(HttpTurn, c, chunks);
  }

  lemma HttpEnds()
    ensures Ends(HttpTurn)
  {
  }
}
