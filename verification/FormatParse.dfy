/** The format-string parser: calls to a handler, one loop for short strings and a
    two-pass search for long ones. */
module FormatParse {
  import opened Digits
  import opened DecimalText

  // ---------------------------------------------------------------------------
  // Handler calls
  // ---------------------------------------------------------------------------

  /** "invalid format string", "unknown format specifier", "missing '}' in format string"
      and "unmatched '}' in format string". */
  datatype Message = InvalidFormat | UnknownSpecifier | MissingBrace | UnmatchedBrace

  /** A call to the handler; positions are offsets into the format string. */
  datatype Event =
    | Text(text: string)
    | AutoId
    | IndexId(index: int)
    | NameId(name: string)
    | Replace(id: int, at: nat)
    | Specs(id: int, from: nat)
    | Error(message: Message)

  /** Calls in order. */
  datatype Calls = Start | Then(before: Calls, last: Event)

  /** The calls made; `stopped` once a call threw. */
  datatype Trace = Trace(calls: Calls, stopped: bool)

  /** Any handler, given by its answers, which may depend on the calls made so far but
      not on calls with an empty text: whether a call throws, what `on_arg_id` returns,
      and how far `on_format_specs` reads. */
  datatype Handler = Handler(
    throws: (Calls, Event) -> bool,
    id: (Calls, Event) -> int,
    specs: (Calls, Event) -> nat)

  /** The calls without those that pass an empty text. */
  function Visible(calls: Calls): Calls {
    match calls
    case Start => Start
    case Then(before, last) => if last == Text("") then Visible(before) else Then(Visible(before), last)
  }

  function Seen(t: Trace): Trace {
    Trace(Visible(t.calls), t.stopped)
  }

  /** A call; `on_error` always throws, and nothing is called after a throw. */
  function Emit(h: Handler, t: Trace, e: Event): Trace {
    if t.stopped then t
    else Trace(Then(t.calls, e), e.Error? || (e != Text("") && h.throws(Visible(t.calls), e)))
  }

  lemma EmitSeen(h: Handler, t: Trace, u: Trace, e: Event)
    requires Seen(t) == Seen(u)
    ensures Seen(Emit(h, t, e)) == Seen(Emit(h, u, e))
  {
  }

  lemma EmptyTextUnseen(h: Handler, t: Trace)
    ensures Seen(Emit(h, t, Text(""))) == Seen(t)
  {
  }

  // ---------------------------------------------------------------------------
  // Replacement fields
  // ---------------------------------------------------------------------------

  predicate IsNameStart(c: char) {
    'a' <= c <= 'z' || 'A' <= c <= 'Z' || c == '_'
  }

  function NameEnd(s: string, from: nat): (to: nat)
    requires from <= |s|
    ensures from <= to <= |s|
    decreases |s| - from
  {
    if from < |s| && (IsNameStart(s[from]) || IsDigit(s[from])) then NameEnd(s, from + 1) else from
  }

  /** The event of an argument id written in the string, and where it ends. */
  datatype IdText = IdText(event: Event, next: nat)

  function IdAt(s: string, b: nat): (r: IdText)
    requires b < |s|
    ensures b <= r.next <= |s|
  {
    if s[b] == '}' || s[b] == ':' then IdText(AutoId, b)
    else if IsDigit(s[b]) then
      var next := if s[b] == '0' then b + 1 else DigitsEnd(s, b);
      if next == |s| || (s[next] != '}' && s[next] != ':') then IdText(Error(InvalidFormat), next)
      else IdText(IndexId(if s[b] == '0' then 0 else ParsedInt(s[b..next], INT_MAX)), next)
    else if !IsNameStart(s[b]) then IdText(Error(InvalidFormat), b)
    else IdText(NameId(s[b..NameEnd(s, b + 1)]), NameEnd(s, b + 1))
  }

  datatype Landing = Landing(trace: Trace, next: nat)

  /** Format specs, which the handler reads. */
  function AfterColon(h: Handler, s: string, id: int, from: nat, t: Trace): (l: Landing)
    requires from <= |s|
    ensures from <= l.next <= |s|
  {
    var e := Specs(id, from);
    var far := from + h.specs(Visible(t.calls), e);
    var at := if far < |s| then far else |s|;
    if at == |s| || s[at] != '}' then Landing(Emit(h, Emit(h, t, e), Error(UnknownSpecifier)), |s|)
    else Landing(Emit(h, t, e), at + 1)
  }

  /** What follows the id: the end of the field, or format specs. */
  function AfterId(h: Handler, s: string, id: int, b: nat, t: Trace): (l: Landing)
    requires b <= |s|
    ensures b <= l.next <= |s|
    ensures b < |s| ==> b < l.next
  {
    if b < |s| && s[b] == '}' then Landing(Emit(h, t, Replace(id, b)), b + 1)
    else if b < |s| && s[b] == ':' then AfterColon(h, s, id, b + 1, t)
    else Landing(Emit(h, t, Error(MissingBrace)), |s|)
  }

  /** `parse_replacement_field` at the opening brace at `p`. */
  function Field(h: Handler, s: string, p: nat, t: Trace): (l: Landing)
    requires p < |s|
    ensures p < l.next <= |s|
  {
    var b := p + 1;
    if b == |s| then Landing(Emit(h, t, Error(InvalidFormat)), |s|)
    else if s[b] == '}' then
      Landing(Emit(h, Emit(h, t, AutoId), Replace(h.id(Visible(t.calls), AutoId), b)), b + 1)
    else if s[b] == '{' then Landing(Emit(h, t, Text("{")), b + 1)
    else
      var i := IdAt(s, b);
      AfterId(h, s, h.id(Visible(t.calls), i.event), i.next, Emit(h, t, i.event))
  }

  lemma AfterColonSeen(h: Handler, s: string, id: int, from: nat, t: Trace, u: Trace)
    requires from <= |s| && Seen(t) == Seen(u)
    ensures var l, m := AfterColon(h, s, id, from, t), AfterColon(h, s, id, from, u); Seen(l.trace) == Seen(m.trace) && l.next == m.next
  {
    var e := Specs(id, from);
    EmitSeen(h, t, u, e);
    EmitSeen(h, Emit(h, t, e), Emit(h, u, e), Error(UnknownSpecifier));
  }

  lemma AfterIdSeen(h: Handler, s: string, id: int, b: nat, t: Trace, u: Trace)
    requires b <= |s| && Seen(t) == Seen(u)
    ensures var l, m := AfterId(h, s, id, b, t), AfterId(h, s, id, b, u); Seen(l.trace) == Seen(m.trace) && l.next == m.next
  {
    if b < |s| && s[b] == '}' {
      EmitSeen(h, t, u, Replace(id, b));
    } else if b < |s| && s[b] == ':' {
      AfterColonSeen(h, s, id, b + 1, t, u);
    } else {
      EmitSeen(h, t, u, Error(MissingBrace));
    }
  }

  /** A field is parsed alike after histories that look alike. */
  lemma FieldSeen(h: Handler, s: string, p: nat, t: Trace, u: Trace)
    requires p < |s| && Seen(t) == Seen(u)
    ensures var l, m := Field(h, s, p, t), Field(h, s, p, u); Seen(l.trace) == Seen(m.trace) && l.next == m.next
  {
    var b := p + 1;
    if b == |s| {
      EmitSeen(h, t, u, Error(InvalidFormat));
    } else if s[b] == '}' {
      EmitSeen(h, t, u, AutoId);
      EmitSeen(h, Emit(h, t, AutoId), Emit(h, u, AutoId), Replace(h.id(Visible(t.calls), AutoId), b));
    } else if s[b] == '{' {
      EmitSeen(h, t, u, Text("{"));
    } else {
      var i := IdAt(s, b);
      EmitSeen(h, t, u, i.event);
      AfterIdSeen(h, s, h.id(Visible(t.calls), i.event), i.next, Emit(h, t, i.event), Emit(h, u, i.event));
    }
  }

  lemma FieldStopped(h: Handler, s: string, p: nat, t: Trace)
    requires p < |s| && t.stopped
    ensures Field(h, s, p, t).trace == t
  {
  }

  // ---------------------------------------------------------------------------
  // The two paths
  // ---------------------------------------------------------------------------

  const UNMATCHED: Event := Error(UnmatchedBrace)

  /** The loop for short strings: text starts at `b`, the next character is at `p`. */
  function Simple(h: Handler, s: string, b: nat, p: nat, t: Trace): Trace
    requires b <= p <= |s|
    decreases |s| - p
  {
    if p == |s| then Emit(h, t, Text(s[b..p]))
    else if s[p] == '{' then
      var l := Field(h, s, p, Emit(h, t, Text(s[b..p])));
      Simple(h, s, l.next, l.next, l.trace)
    else if s[p] == '}' then
      if p + 1 == |s| || s[p + 1] != '}' then Emit(h, t, UNMATCHED)
      else Simple(h, s, p + 2, p + 2, Emit(h, t, Text(s[b..p + 1])))
    else Simple(h, s, b, p + 1, t)
  }

  /** The first `c` in `s[from..end]`, or `end`. */
  function FindIn(s: string, c: char, from: nat, end: nat): (k: nat)
    requires from <= end <= |s|
    ensures from <= k <= end && (k < end ==> s[k] == c)
    ensures forall i :: from <= i < k ==> s[i] != c
    decreases end - from
  {
    if from == end || s[from] == c then from else FindIn(s, c, from + 1, end)
  }

  /** The writer's loop on the text `s[b..e]`. */
  function Write(h: Handler, s: string, b: nat, e: nat, t: Trace): Trace
    requires b <= e <= |s|
    decreases e - b
  {
    var k := FindIn(s, '}', b, e);
    if k == e then Emit(h, t, Text(s[b..e]))
    else if k + 1 == e || s[k + 1] != '}' then Emit(h, t, UNMATCHED)
    else Write(h, s, k + 2, e, Emit(h, t, Text(s[b..k + 1])))
  }

  function WriteSome(h: Handler, s: string, b: nat, e: nat, t: Trace): Trace
    requires b <= e <= |s|
  {
    if b == e then t else Write(h, s, b, e, t)
  }

  /** The loop for long strings. */
  function TwoPass(h: Handler, s: string, b: nat, t: Trace): Trace
    requires b <= |s|
    decreases |s| - b
  {
    if b == |s| then t
    else
      var p := FindIn(s, '{', b, |s|);
      if p == |s| then WriteSome(h, s, b, p, t)
      else
        var l := Field(h, s, p, WriteSome(h, s, b, p, t));
        TwoPass(h, s, l.next, l.trace)
  }

  lemma {:induction false} SimpleStopped(h: Handler, s: string, b: nat, p: nat, t: Trace)
    requires b <= p <= |s| && t.stopped
    ensures Simple(h, s, b, p, t) == t
    decreases |s| - p
  {
    if p < |s| {
      if s[p] == '{' {
        FieldStopped(h, s, p, t);
        var l := Field(h, s, p, t);
        SimpleStopped(h, s, l.next, l.next, t);
      } else if s[p] != '}' {
        SimpleStopped(h, s, b, p + 1, t);
      } else if p + 1 < |s| && s[p + 1] == '}' {
        SimpleStopped(h, s, p + 2, p + 2, t);
      }
    }
  }

  /** Going on with the simple loop behind the field at `e`. */
  function AfterField(h: Handler, s: string, e: nat, t: Trace): Trace
    requires e < |s|
  {
    var l := Field(h, s, e, t);
    Simple(h, s, l.next, l.next, l.trace)
  }

  lemma {:induction false} SimpleSkips(h: Handler, s: string, b: nat, p: nat, q: nat, t: Trace)
    requires b <= p <= q <= |s| && forall i :: p <= i < q ==> s[i] != '{' && s[i] != '}'
    ensures Simple(h, s, b, p, t) == Simple(h, s, b, q, t)
    decreases q - p
  {
    if p < q { SimpleSkips(h, s, b, p + 1, q, t); }
  }

  lemma StoppedAfterField(h: Handler, s: string, e: nat, t: Trace)
    requires e < |s| && t.stopped
    ensures AfterField(h, s, e, t) == t
  {
    FieldStopped(h, s, e, t);
    var next := Field(h, s, e, t).next;
    SimpleStopped(h, s, next, next, t);
  }

  /** The simple loop at a closing brace. */
  lemma SimpleAtClose(h: Handler, s: string, b: nat, k: nat, t: Trace)
    requires b <= k < |s| && s[k] == '}'
    ensures Simple(h, s, b, k, t) == if k + 1 == |s| || s[k + 1] != '}' then Emit(h, t, UNMATCHED)
      else Simple(h, s, k + 2, k + 2, Emit(h, t, Text(s[b..k + 1])))
  {
  }

  /** The simple loop where a text without braces ends. */
  lemma SimpleAtEnd(h: Handler, s: string, b: nat, e: nat, t: Trace)
    requires b <= e <= |s| && (e < |s| ==> s[e] == '{')
    ensures var u := Emit(h, t, Text(s[b..e])); Simple(h, s, b, e, t) == if e == |s| then u else AfterField(h, s, e, u)
  {
  }

  lemma WriteStep(h: Handler, s: string, b: nat, e: nat, t: Trace)
    requires b <= e <= |s|
    ensures var k := FindIn(s, '}', b, e);
      Write(h, s, b, e, t) == if k == e then Emit(h, t, Text(s[b..e]))
      else if k + 1 == e || s[k + 1] != '}' then Emit(h, t, UNMATCHED)
      else Write(h, s, k + 2, e, Emit(h, t, Text(s[b..k + 1])))
  {
  }

  /** On text without an opening brace the simple loop makes the writer's calls. */
  lemma {:induction false} SimpleWrites(h: Handler, s: string, b: nat, e: nat, t: Trace)
    requires b <= e <= |s| && (forall i :: b <= i < e ==> s[i] != '{') && (e < |s| ==> s[e] == '{')
    ensures var u := Write(h, s, b, e, t); Simple(h, s, b, b, t) == if e == |s| then u else AfterField(h, s, e, u)
    decreases e - b
  {
    var k := FindIn(s, '}', b, e);
    SimpleSkips(h, s, b, b, k, t);
    WriteStep(h, s, b, e, t);
    if k == e {
      SimpleAtEnd(h, s, b, e, t);
    } else {
      SimpleAtClose(h, s, b, k, t);
      if k + 1 == e || s[k + 1] != '}' {
        if e < |s| { StoppedAfterField(h, s, e, Emit(h, t, UNMATCHED)); }
      } else {
        SimpleWrites(h, s, k + 2, e, Emit(h, t, Text(s[b..k + 1])));
      }
    }
  }

  lemma {:induction false} SimpleSeen(h: Handler, s: string, b: nat, p: nat, t: Trace, u: Trace)
    requires b <= p <= |s| && Seen(t) == Seen(u)
    ensures Seen(Simple(h, s, b, p, t)) == Seen(Simple(h, s, b, p, u))
    decreases |s| - p
  {
    EmitSeen(h, t, u, Text(s[b..p]));
    if p < |s| {
      if s[p] == '{' {
        var t1, u1 := Emit(h, t, Text(s[b..p])), Emit(h, u, Text(s[b..p]));
        FieldSeen(h, s, p, t1, u1);
        var l, m := Field(h, s, p, t1), Field(h, s, p, u1);
        SimpleSeen(h, s, l.next, l.next, l.trace, m.trace);
      } else if s[p] == '}' {
        SimpleAtClose(h, s, b, p, t);
        SimpleAtClose(h, s, b, p, u);
        EmitSeen(h, t, u, UNMATCHED);
        EmitSeen(h, t, u, Text(s[b..p + 1]));
        if p + 1 < |s| && s[p + 1] == '}' {
          SimpleSeen(h, s, p + 2, p + 2, Emit(h, t, Text(s[b..p + 1])), Emit(h, u, Text(s[b..p + 1])));
        }
      } else {
        SimpleSeen(h, s, b, p + 1, t, u);
      }
    }
  }

  lemma {:induction false} WriteSeen(h: Handler, s: string, b: nat, e: nat, t: Trace, u: Trace)
    requires b <= e <= |s| && Seen(t) == Seen(u)
    ensures Seen(Write(h, s, b, e, t)) == Seen(Write(h, s, b, e, u))
    decreases e - b
  {
    var k := FindIn(s, '}', b, e);
    if k == e {
      EmitSeen(h, t, u, Text(s[b..e]));
    } else if k + 1 == e || s[k + 1] != '}' {
      EmitSeen(h, t, u, UNMATCHED);
    } else {
      var text := Text(s[b..k + 1]);
      EmitSeen(h, t, u, text);
      WriteSeen(h, s, k + 2, e, Emit(h, t, text), Emit(h, u, text));
    }
  }

  lemma WriteSomeSeen(h: Handler, s: string, b: nat, e: nat, t: Trace, u: Trace)
    requires b <= e <= |s| && Seen(t) == Seen(u)
    ensures Seen(WriteSome(h, s, b, e, t)) == Seen(Write(h, s, b, e, u))
  {
    if b == e {
      EmptyTextUnseen(h, u);
      assert s[b..e] == "";
    } else {
      WriteSeen(h, s, b, e, t, u);
    }
  }

  /** Both paths make the same calls, up to empty texts, on every string, with every
      handler, up to and including the first call that throws. */
  lemma {:induction false} PathsAgree(h: Handler, s: string, b: nat, t: Trace, u: Trace)
    requires b <= |s| && Seen(t) == Seen(u)
    ensures Seen(TwoPass(h, s, b, t)) == Seen(Simple(h, s, b, b, u))
    decreases |s| - b
  {
    if b == |s| {
      EmptyTextUnseen(h, u);
      assert s[b..b] == "";
    } else {
      var p := FindIn(s, '{', b, |s|);
      SimpleWrites(h, s, b, p, u);
      WriteSomeSeen(h, s, b, p, t, u);
      if p < |s| {
        var t1, u1 := WriteSome(h, s, b, p, t), Write(h, s, b, p, u);
        FieldSeen(h, s, p, t1, u1);
        PathsAgree(h, s, Field(h, s, p, t1).next, Field(h, s, p, t1).trace, Field(h, s, p, u1).trace);
      }
    }
  }

  // ---------------------------------------------------------------------------
  // Doubled braces
  // ---------------------------------------------------------------------------

  function DoubleBraces(x: string): string {
    if x == [] then []
    else (if x[0] == '{' || x[0] == '}' then [x[0], x[0]] else [x[0]]) + DoubleBraces(x[1..])
  }

  /** The text passed to the handler. */
  function Plain(calls: Calls): string {
    match calls
    case Start => ""
    case Then(before, last) => Plain(before) + (if last.Text? then last.text else "")
  }

  predicate AllText(calls: Calls) {
    calls.Start? || (calls.last.Text? && AllText(calls.before))
  }

  /** Nothing but text has been passed, and nothing thrown. */
  predicate OnlyText(t: Trace) {
    !t.stopped && AllText(t.calls)
  }

  /** The handler accepts any text. */
  ghost predicate TakesText(h: Handler) {
    forall calls: Calls, text: string {:trigger h.throws(calls, Text(text))} :: !h.throws(calls, Text(text))
  }

  lemma EmitText(h: Handler, t: Trace, text: string)
    requires TakesText(h) && OnlyText(t)
    ensures var u := Emit(h, t, Text(text)); OnlyText(u) && Plain(u.calls) == Plain(t.calls) + text
  {
    assert !h.throws(Visible(t.calls), Text(text));
  }

  lemma DoubledTail(s: string, p: nat, x: string)
    requires p <= |s| && s[p..] == DoubleBraces(x) && x != []
    ensures p < |s| && s[p] == x[0]
    ensures x[0] == '{' || x[0] == '}' ==> p + 2 <= |s| && s[p + 1] == x[0] && s[p + 2..] == DoubleBraces(x[1..])
    ensures x[0] != '{' && x[0] != '}' ==> s[p + 1..] == DoubleBraces(x[1..])
  {
    var tail := s[p..];
    assert |tail| >= 1 && tail[0] == x[0];
    if x[0] == '{' || x[0] == '}' {
      assert tail[1] == x[0] && tail[2..] == DoubleBraces(x[1..]);
      assert s[p + 2..] == tail[2..];
    } else {
      assert tail[1..] == DoubleBraces(x[1..]);
      assert s[p + 1..] == tail[1..];
    }
  }

  /** The simple loop at two opening braces. */
  lemma SimpleAtDoubleOpen(h: Handler, s: string, b: nat, p: nat, t: Trace)
    requires b <= p && p + 2 <= |s| && s[p] == s[p + 1] == '{'
    ensures Simple(h, s, b, p, t) == Simple(h, s, p + 2, p + 2, Emit(h, Emit(h, t, Text(s[b..p])), Text("{")))
  {
  }

  lemma Glue(before: string, text: string, c: char, x: string)
    requires x != [] && x[0] == c
    ensures before + text + [c] + "" + x[1..] == before + text + x
    ensures before + (text + [c]) + "" + x[1..] == before + text + x
    ensures before + (text + [c]) + x[1..] == before + text + x
  {
  }

  lemma {:induction false} DoubledFrom(h: Handler, s: string, b: nat, p: nat, x: string, t: Trace)
    requires b <= p <= |s| && s[p..] == DoubleBraces(x) && TakesText(h) && OnlyText(t)
    ensures var u := Simple(h, s, b, p, t); OnlyText(u) && Plain(u.calls) == Plain(t.calls) + s[b..p] + x
    decreases |x|
  {
    if x == [] {
      EmitText(h, t, s[b..p]);
    } else {
      DoubledTail(s, p, x);
      Glue(Plain(t.calls), s[b..p], x[0], x);
      if x[0] == '{' {
        SimpleAtDoubleOpen(h, s, b, p, t);
        EmitText(h, t, s[b..p]);
        var u := Emit(h, t, Text(s[b..p]));
        EmitText(h, u, "{");
        DoubledFrom(h, s, p + 2, p + 2, x[1..], Emit(h, u, Text("{")));
      } else if x[0] == '}' {
        assert s[b..p + 1] == s[b..p] + [x[0]];
        SimpleAtClose(h, s, b, p, t);
        EmitText(h, t, s[b..p + 1]);
        DoubledFrom(h, s, p + 2, p + 2, x[1..], Emit(h, t, Text(s[b..p + 1])));
      } else {
        assert s[b..p + 1] == s[b..p] + [x[0]];
        DoubledFrom(h, s, b, p + 1, x[1..], t);
      }
    }
  }

  lemma {:induction false} VisibleText(calls: Calls)
    ensures Plain(Visible(calls)) == Plain(calls) && (AllText(Visible(calls)) <==> AllText(calls))
  {
    if calls.Then? { VisibleText(calls.before); }
  }

  /** What is passed as text is the same in traces that look alike. */
  lemma SeenText(t: Trace, u: Trace)
    requires Seen(t) == Seen(u)
    ensures (OnlyText(t) <==> OnlyText(u)) && Plain(t.calls) == Plain(u.calls)
  {
    VisibleText(t.calls);
    VisibleText(u.calls);
  }

  /** Doubling the braces of any text, of any length, and parsing it gives the text back on
      both paths, with nothing but text passed. */
  lemma DoubledReadsBack(h: Handler, x: string)
    requires TakesText(h)
    ensures var u := Simple(h, DoubleBraces(x), 0, 0, Trace(Start, false)); OnlyText(u) && Plain(u.calls) == x
    ensures var u := TwoPass(h, DoubleBraces(x), 0, Trace(Start, false)); OnlyText(u) && Plain(u.calls) == x
  {
    var s, start := DoubleBraces(x), Trace(Start, false);
    assert s[0..] == s && s[0..0] == "";
    DoubledFrom(h, s, 0, 0, x, start);
    PathsAgree(h, s, 0, start, start);
    SeenText(TwoPass(h, s, 0, start), Simple(h, s, 0, 0, start));
  }

  // ---------------------------------------------------------------------------
  // Argument indices
  // ---------------------------------------------------------------------------

  lemma {:induction false} NoLeadingZero(n: nat)
    ensures Decimal(n)[0] == '0' <==> n == 0
  {
    if n >= 10 {
      NoLeadingZero(n / 10);
      assert Decimal(n)[0] == Decimal(n / 10)[0];
    }
  }

  /** An index written in decimal is read back, capped at `INT_MAX`. */
  lemma IndexReadsBack(before: string, n: nat, rest: string)
    requires rest != [] && (rest[0] == '}' || rest[0] == ':')
    ensures var s := before + Decimal(n) + rest;
      IdAt(s, |before|) == IdText(IndexId(if n <= INT_MAX then n else INT_MAX), |before| + |Decimal(n)|)
  {
    NoLeadingZero(n);
    DecimalReads(n);
    ReadBack(n, "", INT_MAX);
    assert Decimal(n) + "" == Decimal(n);
    assert Decimal(n)[0..|Decimal(n)|] == Decimal(n);
    RunIsIndex(before, Decimal(n), rest);
  }

  lemma RunIsIndex(before: string, run: string, rest: string)
    requires run != [] && AllDigits(run) && (run[0] == '0' ==> |run| == 1) && rest != [] && (rest[0] == '}' || rest[0] == ':')
    ensures var s := before + run + rest;
      IdAt(s, |before|) == IdText(IndexId(if run[0] == '0' then 0 else ParsedInt(run, INT_MAX)), |before| + |run|)
  {
    var s, b, e := before + run + rest, |before|, |before| + |run|;
    assert forall i :: b <= i < e ==> s[i] == run[i - b];
    EndOfRun(s, b, e);
    assert s[b..e] == run && s[b] == run[0] && s[e] == rest[0];
  }

  // ---------------------------------------------------------------------------
  // Fields as they are written
  // ---------------------------------------------------------------------------

  /** What a replacement field can name: the next argument, an index, or a name. */
  datatype WrittenId = Auto | Index(n: nat) | Name(name: string)

  predicate IsName(s: string) {
    s != [] && IsNameStart(s[0]) && forall i :: 0 <= i < |s| ==> IsNameStart(s[i]) || IsDigit(s[i])
  }

  predicate GoodId(id: WrittenId) {
    id.Name? ==> IsName(id.name)
  }

  function WrittenText(id: WrittenId): string {
    match id
    case Auto => ""
    case Index(n) => Decimal(n)
    case Name(name) => name
  }

  /** The call that asks for the argument; indices are capped at `INT_MAX`. */
  function WrittenEvent(id: WrittenId): Event {
    match id
    case Auto => AutoId
    case Index(n) => IndexId(if n <= INT_MAX then n else INT_MAX)
    case Name(name) => NameId(name)
  }

  predicate EndsId(c: char) {
    c == '}' || c == ':'
  }

  lemma {:induction false} EndOfName(s: string, from: nat, end: nat)
    requires from <= end <= |s| && (forall i :: from <= i < end ==> IsNameStart(s[i]) || IsDigit(s[i]))
    requires end < |s| ==> !IsNameStart(s[end]) && !IsDigit(s[end])
    ensures NameEnd(s, from) == end
    decreases |s| - from
  {
    if from < end { EndOfName(s, from + 1, end); }
  }

  lemma NameReadsBack(before: string, name: string, rest: string)
    requires IsName(name) && rest != [] && EndsId(rest[0])
    ensures IdAt(before + name + rest, |before|) == IdText(NameId(name), |before| + |name|)
  {
    var s, b, e := before + name + rest, |before|, |before| + |name|;
    assert forall i :: b <= i < e ==> s[i] == name[i - b];
    assert s[b] == name[0] && s[e] == rest[0];
    EndOfName(s, b + 1, e);
    assert s[b..e] == name;
  }

  /** Every id is read back as it was written. */
  lemma IdReadsBack(before: string, id: WrittenId, rest: string)
    requires GoodId(id) && rest != [] && EndsId(rest[0])
    ensures IdAt(before + WrittenText(id) + rest, |before|) == IdText(WrittenEvent(id), |before| + |WrittenText(id)|)
  {
    match id
    case Auto => assert (before + "" + rest)[|before|] == rest[0];
    case Index(n) => IndexReadsBack(before, n, rest);
    case Name(name) => NameReadsBack(before, name, rest);
  }

  /** A written id does not look like an escaped brace. */
  lemma FirstOfId(id: WrittenId, rest: string)
    requires GoodId(id) && rest != [] && EndsId(rest[0])
    ensures WrittenText(id) + rest != [] && (WrittenText(id) + rest)[0] != '{'
    ensures (WrittenText(id) + rest)[0] == '}' ==> id == Auto && rest[0] == '}'
  {
    if id.Index? { DecimalReads(id.n); }
  }

  /** What a field with a written id does: the argument is asked for, then what follows. */
  lemma FieldAsksForId(h: Handler, before: string, id: WrittenId, rest: string, t: Trace)
    requires GoodId(id) && rest != [] && EndsId(rest[0])
    ensures var s := before + "{" + WrittenText(id) + rest; var e := WrittenEvent(id);
      Field(h, s, |before|, t) ==
      AfterId(h, s, h.id(Visible(t.calls), e), |before| + 1 + |WrittenText(id)|, Emit(h, t, e))
  {
    var w := WrittenText(id);
    var s, b := before + "{" + w + rest, |before| + 1;
    IdReadsBack(before + "{", id, rest);
    FirstOfId(id, rest);
    assert s[b] == (w + rest)[0];
    assert s[b + |w|] == rest[0];
  }

  /** A written field is read back: its argument is asked for and the answer replaced in. */
  lemma FieldReadsBack(h: Handler, before: string, id: WrittenId, rest: string, t: Trace)
    requires GoodId(id)
    ensures var s := before + "{" + WrittenText(id) + ("}" + rest); var e := WrittenEvent(id);
      var end := |before| + 1 + |WrittenText(id)|;
      Field(h, s, |before|, t) == Landing(Emit(h, Emit(h, t, e), Replace(h.id(Visible(t.calls), e), end)), end + 1)
  {
    FieldAsksForId(h, before, id, "}" + rest, t);
    assert (before + "{" + WrittenText(id) + ("}" + rest))[|before| + 1 + |WrittenText(id)|] == '}';
  }

  /** With specs that the handler reads to their end, they are passed and the field ends
      behind the brace; if it stops anywhere else than at a brace, that is an error. */
  lemma SpecsReadBack(h: Handler, before: string, id: WrittenId, rest: string, t: Trace)
    requires GoodId(id)
    ensures var s := before + "{" + WrittenText(id) + (":" + rest); var e := WrittenEvent(id);
      var from := |before| + 2 + |WrittenText(id)|;
      var specs := Specs(h.id(Visible(t.calls), e), from);
      var asked := Emit(h, t, e);
      var read := h.specs(Visible(asked.calls), specs);
      Field(h, s, |before|, t) ==
      if read < |rest| && rest[read] == '}' then Landing(Emit(h, asked, specs), from + read + 1)
      else Landing(Emit(h, Emit(h, asked, specs), Error(UnknownSpecifier)), |s|)
  {
    var w := WrittenText(id);
    var s, from := before + "{" + w + (":" + rest), |before| + 2 + |w|;
    FieldAsksForId(h, before, id, ":" + rest, t);
    assert s[from - 1] == ':' && s[from..] == rest;
    ColonReads(h, s, h.id(Visible(t.calls), WrittenEvent(id)), from, rest, Emit(h, t, WrittenEvent(id)));
  }

  lemma ColonReads(h: Handler, s: string, id: int, from: nat, rest: string, t: Trace)
    requires from <= |s| && s[from..] == rest
    ensures var e := Specs(id, from); var read := h.specs(Visible(t.calls), e);
      AfterColon(h, s, id, from, t) ==
      if read < |rest| && rest[read] == '}' then Landing(Emit(h, t, e), from + read + 1)
      else Landing(Emit(h, Emit(h, t, e), Error(UnknownSpecifier)), |s|)
  {
    var read := h.specs(Visible(t.calls), Specs(id, from));
    assert read < |rest| ==> s[from + read] == rest[read];
  }

  /** Two opening braces are a brace of text. */
  lemma EscapeReadsBack(h: Handler, before: string, rest: string, t: Trace)
    ensures Field(h, before + "{{" + rest, |before|, t) == Landing(Emit(h, t, Text("{")), |before| + 2)
  {
    var s := before + "{{" + rest;
    assert s[|before| + 1] == '{';
  }

  // Nothing else is accepted.

  lemma {:induction false} CanonicalRun(run: string)
    requires run != [] && AllDigits(run) && run[0] != '0'
    ensures Decimal(Reading(run)) == run && Reading(run) > 0
  {
    var front, last := run[..|run| - 1], run[|run| - 1];
    assert run == front + [last];
    if front != [] {
      CanonicalRun(front);
      assert Reading(run) == 10 * Reading(front) + DigitOf(last);
    } else {
      assert Reading(run) == DigitOf(last);
    }
  }

  lemma {:induction false} NameChars(s: string, from: nat)
    requires from <= |s|
    ensures forall i :: from <= i < NameEnd(s, from) ==> IsNameStart(s[i]) || IsDigit(s[i])
    decreases |s| - from
  {
    if from < |s| && (IsNameStart(s[from]) || IsDigit(s[from])) { NameChars(s, from + 1); }
  }

  /** An id that is not an error is one of the written ones. */
  lemma IdShape(s: string, b: nat) returns (id: WrittenId)
    requires b < |s| && !IdAt(s, b).event.Error?
    ensures GoodId(id) && s[b..IdAt(s, b).next] == WrittenText(id)
  {
    var next := IdAt(s, b).next;
    if s[b] == '}' || s[b] == ':' {
      id := Auto;
    } else if s[b] == '0' {
      id := Index(0);
      assert s[b..next] == [s[b]] == Decimal(0);
    } else if IsDigit(s[b]) {
      var run := s[b..next];
      assert run[0] == s[b];
      CanonicalRun(run);
      id := Index(Reading(run));
    } else {
      NameChars(s, b + 1);
      id := Name(s[b..next]);
    }
  }

  lemma Unstopped(h: Handler, t: Trace, e: Event)
    requires !Emit(h, t, e).stopped
    ensures !t.stopped && !e.Error?
  {
  }

  /** The shape of a field that ends at `next`. */
  predicate FieldSpelled(s: string, p: nat, next: nat, id: WrittenId) {
    var end := p + 1 + |WrittenText(id)|;
    && end < next <= |s| && s[p] == '{' && s[p + 1..end] == WrittenText(id) && EndsId(s[end]) && s[next - 1] == '}'
    && (s[end] == '}' ==> next == end + 1)
  }

  /** A field with an id, from where the id ends. */
  lemma SpelledFrom(s: string, p: nat, end: nat, next: nat, id: WrittenId)
    requires p < end < next <= |s| && s[p] == '{' && s[p + 1..end] == WrittenText(id) && EndsId(s[end]) && s[next - 1] == '}'
    requires s[end] == '}' ==> next == end + 1
    ensures FieldSpelled(s, p, next, id)
  {
  }

  lemma IdFieldShape(h: Handler, s: string, p: nat, t: Trace) returns (id: WrittenId)
    requires p + 1 < |s| && s[p] == '{' && s[p + 1] != '{' && s[p + 1] != '}' && !Field(h, s, p, t).trace.stopped
    ensures GoodId(id) && FieldSpelled(s, p, Field(h, s, p, t).next, id)
  {
    var i := IdAt(s, p + 1);
    var asked := Emit(h, t, i.event);
    AfterIdGoesOn(h, s, h.id(Visible(t.calls), i.event), i.next, asked);
    Unstopped(h, t, i.event);
    id := IdShape(s, p + 1);
    SpelledFrom(s, p, i.next, Field(h, s, p, t).next, id);
  }

  /** A field after which the parser goes on is an escape, or a written id followed by its
      closing brace, or by a colon and specs up to a closing brace. */
  lemma FieldShape(h: Handler, s: string, p: nat, t: Trace) returns (escape: bool, id: WrittenId)
    requires p < |s| && s[p] == '{' && !Field(h, s, p, t).trace.stopped
    ensures GoodId(id) && p + 1 < |s|
    ensures var next := Field(h, s, p, t).next;
      if escape then next == p + 2 && s[p..next] == "{{" else FieldSpelled(s, p, next, id)
  {
    var b := p + 1;
    id := Auto;
    escape := b < |s| && s[b] == '{';
    if escape {
      assert s[p..p + 2] == [s[p], s[p + 1]];
    } else if b < |s| && s[b] != '}' {
      id := IdFieldShape(h, s, p, t);
    }
  }

  lemma AfterIdGoesOn(h: Handler, s: string, id: int, b: nat, t: Trace)
    requires b <= |s| && !AfterId(h, s, id, b, t).trace.stopped
    ensures !t.stopped && b < |s| && EndsId(s[b])
    ensures var next := AfterId(h, s, id, b, t).next; b < next <= |s| && s[next - 1] == '}' && (s[b] == '}' ==> next == b + 1)
  {
  }

  // ---------------------------------------------------------------------------
  // The parser's loops
  // ---------------------------------------------------------------------------

  /** `parse_arg_id` with `do_parse_arg_id`. */
  method ParseArgId(s: string, from: nat) returns (event: Event, next: nat)
    requires from < |s|
    ensures IdText(event, next) == IdAt(s, from)
  {
    var c := s[from];
    if c == '}' || c == ':' { return AutoId, from; }
    if IsDigit(c) {
      var index := 0;
      if c != '0' { index, next := ParseNonnegativeInt(s, from, INT_MAX); } else { next := from + 1; }
      if next == |s| || (s[next] != '}' && s[next] != ':') { event := Error(InvalidFormat); } else { event := IndexId(index); }
      return;
    }
    if !IsNameStart(c) { return Error(InvalidFormat), from; }
    next := from + 1;
    while next < |s| && (IsNameStart(s[next]) || IsDigit(s[next]))
      invariant from < next <= |s| && NameEnd(s, from + 1) == NameEnd(s, next)
    {
      next := next + 1;
    }
    event := NameId(s[from..next]);
  }

  /** `parse_replacement_field`. */
  method ParseReplacementField(h: Handler, s: string, p: nat, t: Trace) returns (l: Landing)
    requires p < |s|
    ensures l == Field(h, s, p, t)
  {
    var b := p + 1;
    if b == |s| { return Landing(Emit(h, t, Error(InvalidFormat)), |s|); }
    if s[b] == '}' {
      var id := h.id(Visible(t.calls), AutoId);
      return Landing(Emit(h, Emit(h, t, AutoId), Replace(id, b)), b + 1);
    }
    if s[b] == '{' { return Landing(Emit(h, t, Text("{")), b + 1); }
    var event, next := ParseArgId(s, b);
    var id := h.id(Visible(t.calls), event);
    l := AfterId(h, s, id, next, Emit(h, t, event));
  }

  /** The loop used below thirty-two characters. */
  method ParseShort(h: Handler, s: string, t0: Trace) returns (t: Trace)
    ensures t == Simple(h, s, 0, 0, t0)
  {
    var begin: nat, p: nat := 0, 0;
    t := t0;
    while p < |s|
      invariant begin <= p <= |s| && Simple(h, s, 0, 0, t0) == Simple(h, s, begin, p, t)
      decreases |s| - p
    {
      if s[p] == '{' {
        var l := ParseReplacementField(h, s, p, Emit(h, t, Text(s[begin..p])));
        begin, p, t := l.next, l.next, l.trace;
      } else if s[p] == '}' {
        if p + 1 == |s| || s[p + 1] != '}' { return Emit(h, t, UNMATCHED); }
        t := Emit(h, t, Text(s[begin..p + 1]));
        begin, p := p + 2, p + 2;
      } else {
        p := p + 1;
      }
    }
    t := Emit(h, t, Text(s[begin..p]));
  }

  /** `find`, by a loop. */
  method FindChar(s: string, c: char, from: nat, end: nat) returns (k: nat)
    requires from <= end <= |s|
    ensures k == FindIn(s, c, from, end)
  {
    k := from;
    while k < end && s[k] != c
      invariant from <= k <= end && FindIn(s, c, from, end) == FindIn(s, c, k, end)
    {
      k := k + 1;
    }
  }

  /** The writer of the two-pass form. */
  method WriteText(h: Handler, s: string, b: nat, e: nat, t0: Trace) returns (t: Trace)
    requires b <= e <= |s|
    ensures t == WriteSome(h, s, b, e, t0)
  {
    t := t0;
    if b == e { return; }
    var begin: nat := b;
    while true
      invariant b <= begin <= e && Write(h, s, b, e, t0) == Write(h, s, begin, e, t)
      decreases e - begin
    {
      var k := FindChar(s, '}', begin, e);
      if k == e { return Emit(h, t, Text(s[begin..e])); }
      if k + 1 == e || s[k + 1] != '}' { return Emit(h, t, UNMATCHED); }
      t := Emit(h, t, Text(s[begin..k + 1]));
      begin := k + 2;
    }
  }

  /** The loop used from thirty-two characters on. */
  method ParseLong(h: Handler, s: string, t0: Trace) returns (t: Trace)
    ensures t == TwoPass(h, s, 0, t0)
  {
    var begin: nat := 0;
    t := t0;
    while begin < |s|
      invariant begin <= |s| && TwoPass(h, s, 0, t0) == TwoPass(h, s, begin, t)
      decreases |s| - begin
    {
      var p := begin;
      if s[begin] != '{' { p := FindChar(s, '{', begin + 1, |s|); }
      assert p == FindIn(s, '{', begin, |s|);
      t := WriteText(h, s, begin, p, t);
      if p == |s| { return; }
      var l := ParseReplacementField(h, s, p, t);
      begin, t := l.next, l.trace;
    }
  }
}
