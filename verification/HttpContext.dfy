/** The parser as the server drives it: a buffer with read and write index, a
    request filled in place, and the loop over lines. */
module HttpContext {
  import opened HttpSpec

  /** `buffer_base`: bytes between the indices are readable. */
  class Buffer {
    var container: seq<char>
    var indexRead: nat
    var indexWrite: nat

    ghost predicate Valid()
      reads this
    {
      indexRead <= indexWrite <= |container|
    }

    function Readable(): string
      requires Valid()
      reads this
    {
      container[indexRead..indexWrite]
    }

    constructor ()
      ensures Valid() && Readable() == ""
    {
      container, indexRead, indexWrite := [], 0, 0;
    }

    /** `has_read`: drops bytes from the front; an emptied buffer starts over. */
    method HasRead(len: nat)
      requires Valid() && len <= |Readable()|
      modifies `indexRead, `indexWrite
      ensures Valid() && Readable() == old(Readable())[len..]
    {
      if len == indexWrite - indexRead {
        indexRead, indexWrite := 0, 0;
      } else {
        indexRead := indexRead + len;
      }
    }

    /** Bytes arriving behind the write index. */
    method Append(bytes: string)
      requires Valid()
      modifies `container, `indexWrite
      ensures Valid() && Readable() == old(Readable()) + bytes
    {
      container := container[..indexWrite] + bytes;
      indexWrite := indexWrite + |bytes|;
    }
  }

  /** `HttpRequest`. */
  class RequestObject {
    var verb: Method
    var version: Version
    var path: string
    var query: string
    var headers: map<string, string>

    function View(): Request
      reads this
    {
      Request(verb, version, path, query, headers)
    }

    constructor ()
      ensures View() == Request(Invalid, Unknown, "", "", map[])
    {
      verb, version, path, query, headers := Invalid, Unknown, "", "", map[];
    }

    /** `setMethod`: known are exactly the names that `methodString` gives to the valid
        methods, and the one stored is named as it was read. */
    method SetMethod(m: string) returns (known: bool)
      modifies `verb
      ensures known ==> MethodString(verb) == m
      ensures known <==> verb != Invalid
      ensures known <==> exists v: Method :: v != Invalid && MethodString(v) == m
      ensures View() == old(View()).(verb := MethodOf(m))
    {
      MethodNames(m, Invalid);
      if m == "GET" {
        verb := Get;
      } else if m == "POST" {
        verb := Post;
      } else if m == "HEAD" {
        verb := Head;
      } else if m == "PUT" {
        verb := Put;
      } else if m == "DELETE" {
        verb := Delete;
      } else {
        verb := Invalid;
      }
      known := verb != Invalid;
    }

    method SetPath(target: string)
      modifies `path
      ensures View() == old(View()).(path := PathOf(target))
    {
      if |target| == 1 && target[0] == '/' { path := "public/index.html"; } else { path := "public" + target; }
    }

    /** `addHeader`: skip white space behind the colon, then drop it at the end. */
    method AddHeaderLine(line: string, colon: nat)
      requires colon < |line|
      modifies `headers
      ensures View() == AddHeader(old(View()), line, colon)
    {
      var at := colon + 1;
      while at < |line| && IsSpace(line[at])
        invariant colon + 1 <= at <= |line|
        invariant TrimLeft(line[at..]) == TrimLeft(line[colon + 1..])
      {
        assert line[at..][1..] == line[at + 1..];
        at := at + 1;
      }
      var value := line[at..];
      while value != [] && IsSpace(value[|value| - 1])
        invariant TrimRight(value) == TrimRight(line[at..])
      {
        value := value[..|value| - 1];
      }
      headers := headers[line[..colon] := value];
    }

    /** `processRequestLine`. */
    method ProcessRequestLine(line: string) returns (succeed: bool)
      modifies this
      ensures var l := ProcessLine(old(View()), line); View() == l.request && succeed == l.ok
    {
      var space := Find(line, ' ');
      if space == |line| { return false; }
      var known := SetMethod(line[..space]);
      if !known { return false; }
      var rest := line[space + 1..];
      var space2 := Find(rest, ' ');
      if space2 == |rest| { return false; }
      SetTarget(rest[..space2]);
      succeed := SetVersion(rest[space2 + 1..]);
    }

    method SetTarget(target: string)
      modifies `path, `query
      ensures View() == WithTarget(old(View()), target)
    {
      var question := Find(target, '?');
      if question != |target| {
        SetPath(target[..question]);
        query := target[question..];
      } else {
        SetPath(target);
      }
    }

    method SetVersion(v: string) returns (succeed: bool)
      modifies `version
      ensures var l := WithVersion(old(View()), v); View() == l.request && succeed == l.ok
    {
      succeed := |v| == 8 && v[..7] == "HTTP/1.";
      if succeed {
        if v[7] == '1' { version := Http11; }
        else if v[7] == '0' { version := Http10; }
        else { succeed := false; }
      }
    }
  }

  /** `HttpContext`. */
  class ContextObject {
    var state: ParseState
    const request: RequestObject

    function View(): Context
      reads this, request
    {
      Context(state, request.View())
    }

    constructor ()
      ensures View() == Context(ExpectRequestLine, Request(Invalid, Unknown, "", "", map[]))
      ensures fresh(request)
    {
      state := ExpectRequestLine;
      request := new RequestObject();
    }

    /** One turn of the loop on a complete line; whether it goes on, and the verdict. */
    method Turn(line: string) returns (more: bool, ok: bool)
      requires Enterable(View())
      modifies this, request
      ensures var t := HttpTurn(old(View()), line);
        && (more <==> t.Advance?) && (ok <==> !t.Reject?)
        && View() == match t
                     case Reject(r) => old(View()).(request := r)
                     case Finish => old(View()).(state := GotAll)
                     case Advance(c) => c
    {
      if state == ExpectRequestLine {
        ok := request.ProcessRequestLine(line);
        if ok { state := ExpectHeaders; }
        more := ok;
      } else {
        ok := true;
        var colon := Find(line, ':');
        more := colon != |line|;
        if more { request.AddHeaderLine(line, colon); } else { state := GotAll; }
      }
    }

    /** `parseRequest`: every turn that goes on consumes a line and its CRLF. */
    method ParseRequest(buf: Buffer) returns (ok: bool)
      requires buf.Valid() && Enterable(View())
      modifies this, request, buf
      ensures buf.Valid()
      ensures var o := Parse(HttpTurn, old(View()), old(buf.Readable()));
        ok == o.ok && View() == o.ctx && buf.Readable() == old(buf.Readable())[o.consumed..]
    {
      ok := true;
      var hasMore := true;
      ghost var s0, c0 := buf.Readable(), View();
      ghost var done: nat := 0;
      while hasMore
        invariant buf.Valid() && done <= |s0| && buf.Readable() == s0[done..]
        invariant hasMore ==> ok && Enterable(View())
        invariant hasMore ==> Parse(HttpTurn, c0, s0) == Later(Parse(HttpTurn, View(), s0[done..]), done)
        invariant !hasMore ==> Parse(HttpTurn, c0, s0) == Outcome(ok, View(), done)
        decreases if hasMore then 1 else 0, |s0| - done
      {
        var k := FindCrlf(buf.Readable());
        if k == -1 {
          hasMore := false;
        } else {
          hasMore, ok := TakeLine(buf, k, s0[done..]);
          if ok {
            assert s0[done..][k + 2..] == s0[done + k + 2..];
            done := done + k + 2;
          }
        }
      }
    }

    /** A turn of the loop on the line that ends at `k`, with what it consumes. */
    method TakeLine(buf: Buffer, k: nat, ghost s: string) returns (more: bool, ok: bool)
      requires buf.Valid() && buf.Readable() == s && Enterable(View()) && k == FindCrlf(s)
      modifies this, request, buf
      ensures buf.Valid() && buf.Readable() == if ok then s[k + 2..] else s
      ensures more ==> ok && Enterable(View())
      ensures more ==> Parse(HttpTurn, old(View()), s) == Later(Parse(HttpTurn, View(), s[k + 2..]), k + 2)
      ensures !more ==> Parse(HttpTurn, old(View()), s) == Outcome(ok, View(), if ok then k + 2 else 0)
    {
      ParseOneLine(HttpTurn, View(), s, k, s[..k], s[k + 2..]);
      more, ok := Turn(buf.Readable()[..k]);
      if ok { buf.HasRead(k + 2); }
    }
  }

  /** A connection's reads: append each chunk, parse, stop when the parse is over. The
      outcome is that of one call on the whole stream; `used` chunks were read, all of them
      unless it is over, and the buffer holds exactly what was not consumed of those. */
  method Receive(ctx: ContextObject, buf: Buffer, chunks: seq<string>) returns (ok: bool, used: nat)
    requires buf.Valid() && buf.Readable() == "" && Enterable(ctx.View())
    modifies ctx, ctx.request, buf
    ensures buf.Valid() && used <= |chunks|
    ensures var o := Parse(HttpTurn, old(ctx.View()), Concat(chunks));
      && ok == o.ok && ctx.View() == o.ctx && (Over(o) || used == |chunks|)
      && o.consumed <= |Concat(chunks[..used])| && buf.Readable() == Concat(chunks[..used])[o.consumed..]
  {
    ok, used := true, 0;
    ghost var c0 := ctx.View();
    for i := 0 to |chunks|
      invariant buf.Valid() && used <= i
      invariant Fed(HttpTurn, c0, chunks[..i], chunks[..used], Outcome(ok, ctx.View(), 0), buf.Readable())
      invariant used == i || !ok || ctx.state == GotAll
    {
      ghost var c, s := ctx.View(), buf.Readable();
      if ok && ctx.state != GotAll {
        ok := ReceiveOne(ctx, buf, chunks[i]);
        FedMore(HttpTurn, c0, chunks, i, c, s);
        used := i + 1;
      } else {
        FedEnough(HttpTurn, c0, chunks, i, chunks[..used], Outcome(ok, c, 0), s);
      }
    }
    assert chunks[..|chunks|] == chunks;
    ChunkingIsInvisible(c0, chunks);
  }

  /** Verdict and state are those of `Feed`, and of the chunks that were read the buffer
      holds what is unread. */
  ghost predicate Fed(turn: TurnFunction, c0: Context, chunks: seq<string>, read: seq<string>, now: Outcome, unread: string) {
    var o := Feed(turn, c0, chunks);
    && now.ok == o.ok && now.ctx == o.ctx && (Over(o) || Enterable(o.ctx))
    && o.consumed <= |Concat(read)| && unread == Concat(read)[o.consumed..]
  }

  lemma FedMore(turn: TurnFunction, c0: Context, chunks: seq<string>, i: nat, c: Context, s: string)
    requires i < |chunks| && c.state != GotAll && Fed(turn, c0, chunks[..i], chunks[..i], Outcome(true, c, 0), s)
    requires var o := Parse(turn, c, s + chunks[i]); Over(o) || Enterable(o.ctx)
    ensures var o := Parse(turn, c, s + chunks[i]); Fed(turn, c0, chunks[..i + 1], chunks[..i + 1], o, (s + chunks[i])[o.consumed..])
  {
    var done, chunk := chunks[..i], chunks[i];
    FeedStep(turn, c0, chunks, i);
    var o, all := Feed(turn, c0, done), Concat(done);
    var o2 := Parse(turn, o.ctx, all[o.consumed..] + chunk);
    TailOfTail(all, chunk, o.consumed, o2.consumed);
  }

  lemma TailOfTail(all: string, chunk: string, i: nat, j: nat)
    requires i <= |all| && i + j <= |all| + |chunk|
    ensures (all[i..] + chunk)[j..] == (all + chunk)[i + j..]
  {
  }

  lemma FedEnough(turn: TurnFunction, c0: Context, chunks: seq<string>, i: nat, read: seq<string>, now: Outcome, s: string)
    requires i < |chunks| && Over(now) && Fed(turn, c0, chunks[..i], read, now, s)
    ensures Fed(turn, c0, chunks[..i + 1], read, now, s)
  {
    FeedStep(turn, c0, chunks, i);
  }

  lemma FeedStep(turn: TurnFunction, c0: Context, chunks: seq<string>, i: nat)
    requires i < |chunks|
    ensures var o := Feed(turn, c0, chunks[..i]);
      && Concat(chunks[..i + 1]) == Concat(chunks[..i]) + chunks[i]
      && Feed(turn, c0, chunks[..i + 1]) == Continue(turn, o, Concat(chunks[..i])[o.consumed..] + chunks[i])
  {
    assert chunks[..i + 1][..i] == chunks[..i];
  }

  method ReceiveOne(ctx: ContextObject, buf: Buffer, chunk: string) returns (ok: bool)
    requires buf.Valid() && Enterable(ctx.View())
    modifies ctx, ctx.request, buf
    ensures buf.Valid()
    ensures var s := old(buf.Readable()) + chunk; var o := Parse(HttpTurn, old(ctx.View()), s);
      ok == o.ok && ctx.View() == o.ctx && buf.Readable() == s[o.consumed..] && (Over(o) || Enterable(o.ctx))
  {
    buf.Append(chunk);
    UnfinishedIsEnterable(ctx.View(), buf.Readable());
    ok := ctx.ParseRequest(buf);
  }
}
