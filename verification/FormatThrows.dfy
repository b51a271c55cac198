/** How a call that throws, or an error in the string, cuts the parser's calls short. */
module FormatThrows {
  import opened FormatParse
  import opened FormatPieces
  import opened FormatStrings

  // ---------------------------------------------------------------------------
  // Calls cut short
  // ---------------------------------------------------------------------------

  /** The same handler, except that it never throws. */
  ghost function Calmed(h: Handler): Handler {
    h.(throws := (c: Calls, e: Event) => false)
  }

  /** `calls` begins with `first`. */
  ghost predicate Extends(calls: Calls, first: Calls) {
    calls == first || (calls.Then? && Extends(calls.before, first))
  }

  /** The last of the calls throws: an error, or one that the handler throws on. */
  ghost predicate Throws(h: Handler, calls: Calls) {
    calls.Then? && (calls.last.Error? || (calls.last != Text("") && h.throws(Visible(calls.before), calls.last)))
  }

  /** None of the calls made after `from` throws. */
  ghost predicate Quiet(h: Handler, from: Calls, calls: Calls) {
    calls == from || (calls.Then? && !Throws(h, calls) && Quiet(h, from, calls.before))
  }

  /** `u` is `v` up to the first call that throws. */
  ghost predicate Cut(h: Handler, from: Calls, u: Trace, v: Trace) {
    if u.stopped then u.calls.Then? && Throws(h, u.calls) && Quiet(h, from, u.calls.before) && Extends(v.calls, u.calls)
    else u == v && Quiet(h, from, u.calls)
  }

  lemma {:induction false} ExtendsTwice(a: Calls, b: Calls, c: Calls)
    requires Extends(a, b) && Extends(b, c)
    ensures Extends(a, c)
    decreases a
  {
    if a != b { ExtendsTwice(a.before, b, c); }
  }

  lemma EmitCut(h: Handler, from: Calls, u: Trace, v: Trace, e: Event)
    requires Cut(h, from, u, v)
    ensures Cut(h, from, Emit(h, u, e), Emit(Calmed(h), v, e))
  {
  }

  lemma EmitExtends(h: Handler, t: Trace, e: Event)
    ensures Extends(Emit(h, t, e).calls, t.calls)
  {
  }

  lemma FieldExtends(h: Handler, s: string, p: nat, t: Trace)
    requires p < |s|
    ensures Extends(Field(h, s, p, t).trace.calls, t.calls)
  {
    var b := p + 1;
    if b < |s| && s[b] != '{' {
      var i := IdAt(s, b);
      var e := if s[b] == '}' then AutoId else i.event;
      var asked := Emit(h, t, e);
      EmitExtends(h, t, e);
      if s[b] == '}' {
        EmitExtends(h, asked, Replace(h.id(Visible(t.calls), AutoId), b));
        ExtendsTwice(Field(h, s, p, t).trace.calls, asked.calls, t.calls);
      } else {
        AfterIdExtends(h, s, h.id(Visible(t.calls), e), i.next, asked);
        ExtendsTwice(Field(h, s, p, t).trace.calls, asked.calls, t.calls);
      }
    }
  }

  lemma AfterIdExtends(h: Handler, s: string, id: int, b: nat, t: Trace)
    requires b <= |s|
    ensures Extends(AfterId(h, s, id, b, t).trace.calls, t.calls)
  {
    if b < |s| && s[b] == ':' {
      var e := Specs(id, b + 1);
      EmitExtends(h, t, e);
      EmitExtends(h, Emit(h, t, e), Error(UnknownSpecifier));
      ExtendsTwice(Emit(h, Emit(h, t, e), Error(UnknownSpecifier)).calls, Emit(h, t, e).calls, t.calls);
    }
  }

  lemma {:induction false} SimpleExtends(h: Handler, s: string, b: nat, p: nat, t: Trace)
    requires b <= p <= |s|
    ensures Extends(Simple(h, s, b, p, t).calls, t.calls)
    decreases |s| - p
  {
    if p < |s| {
      if s[p] == '{' {
        var t1 := Emit(h, t, Text(s[b..p]));
        var l := Field(h, s, p, t1);
        EmitExtends(h, t, Text(s[b..p]));
        FieldExtends(h, s, p, t1);
        SimpleExtends(h, s, l.next, l.next, l.trace);
        ExtendsTwice(l.trace.calls, t1.calls, t.calls);
        ExtendsTwice(Simple(h, s, b, p, t).calls, l.trace.calls, t.calls);
      } else if s[p] == '}' {
        SimpleAtClose(h, s, b, p, t);
        var t1 := Emit(h, t, Text(s[b..p + 1]));
        if p + 1 < |s| && s[p + 1] == '}' {
          SimpleExtends(h, s, p + 2, p + 2, t1);
          ExtendsTwice(Simple(h, s, b, p, t).calls, t1.calls, t.calls);
        }
      } else {
        SimpleExtends(h, s, b, p + 1, t);
      }
    }
  }

  // ---------------------------------------------------------------------------
  // The parser with and without throwing
  // ---------------------------------------------------------------------------

  lemma AfterColonCut(h: Handler, s: string, id: int, b: nat, from: Calls, t: Trace)
    requires b <= |s| && Cut(h, from, t, t) && !t.stopped
    ensures var l, m := AfterColon(h, s, id, b, t), AfterColon(Calmed(h), s, id, b, t); Cut(h, from, l.trace, m.trace) && l.next == m.next
  {
    var e := Specs(id, b);
    EmitCut(h, from, t, t, e);
    EmitCut(h, from, Emit(h, t, e), Emit(Calmed(h), t, e), Error(UnknownSpecifier));
  }

  lemma AfterIdStopped(h: Handler, s: string, id: int, b: nat, t: Trace)
    requires b <= |s| && t.stopped
    ensures AfterId(h, s, id, b, t).trace == t
  {
  }

  lemma AfterIdCut(h: Handler, s: string, id: int, b: nat, from: Calls, u: Trace, v: Trace)
    requires b <= |s| && Cut(h, from, u, v)
    ensures var l, m := AfterId(h, s, id, b, u), AfterId(Calmed(h), s, id, b, v);
      Cut(h, from, l.trace, m.trace) && (!u.stopped ==> l.next == m.next)
  {
    if u.stopped {
      AfterIdStopped(h, s, id, b, u);
      AfterIdExtends(Calmed(h), s, id, b, v);
      ExtendsTwice(AfterId(Calmed(h), s, id, b, v).trace.calls, v.calls, u.calls);
    } else if b < |s| && s[b] == ':' {
      AfterColonCut(h, s, id, b + 1, from, u);
    } else {
      EmitCut(h, from, u, v, Replace(id, b));
      EmitCut(h, from, u, v, Error(MissingBrace));
    }
  }

  lemma FieldCut(h: Handler, s: string, p: nat, from: Calls, u: Trace)
    requires p < |s| && Cut(h, from, u, u) && !u.stopped
    ensures var l, m := Field(h, s, p, u), Field(Calmed(h), s, p, u);
      Cut(h, from, l.trace, m.trace) && (!l.trace.stopped ==> l.next == m.next)
  {
    var b := p + 1;
    if b == |s| {
      EmitCut(h, from, u, u, Error(InvalidFormat));
    } else if s[b] == '}' {
      EmitCut(h, from, u, u, AutoId);
      EmitCut(h, from, Emit(h, u, AutoId), Emit(Calmed(h), u, AutoId), Replace(h.id(Visible(u.calls), AutoId), b));
    } else if s[b] == '{' {
      EmitCut(h, from, u, u, Text("{"));
    } else {
      var i := IdAt(s, b);
      EmitCut(h, from, u, u, i.event);
      AfterIdCut(h, s, h.id(Visible(u.calls), i.event), i.next, from, Emit(h, u, i.event), Emit(Calmed(h), u, i.event));
      if Emit(h, u, i.event).stopped { AfterIdStopped(h, s, h.id(Visible(u.calls), i.event), i.next, Emit(h, u, i.event)); }
    }
  }

  lemma StoppedCut(h: Handler, s: string, b: nat, p: nat, b': nat, p': nat, from: Calls, u: Trace, v: Trace)
    requires b <= p <= |s| && b' <= p' <= |s| && u.stopped && Cut(h, from, u, v)
    ensures Cut(h, from, Simple(h, s, b, p, u), Simple(Calmed(h), s, b', p', v))
  {
    SimpleStopped(h, s, b, p, u);
    SimpleExtends(Calmed(h), s, b', p', v);
    ExtendsTwice(Simple(Calmed(h), s, b', p', v).calls, v.calls, u.calls);
  }

  /** The calls made are those of the handler that never throws, up to the first that throws. */
  lemma {:induction false} SimpleCut(h: Handler, s: string, b: nat, p: nat, from: Calls, u: Trace)
    requires b <= p <= |s| && !u.stopped && Quiet(h, from, u.calls)
    ensures Cut(h, from, Simple(h, s, b, p, u), Simple(Calmed(h), s, b, p, u))
    decreases |s| - p
  {
    if p == |s| {
      EmitCut(h, from, u, u, Text(s[b..p]));
    } else if s[p] == '{' {
      FieldLoopCut(h, s, b, p, from, u);
      var u1 := Emit(h, u, Text(s[b..p]));
      var l := Field(h, s, p, u1);
      if !u1.stopped && !l.trace.stopped { SimpleCut(h, s, l.next, l.next, from, l.trace); }
    } else if s[p] == '}' {
      CloseLoopCut(h, s, b, p, from, u);
      var u1 := Emit(h, u, Text(s[b..p + 1]));
      if p + 1 < |s| && s[p + 1] == '}' && !u1.stopped { SimpleCut(h, s, p + 2, p + 2, from, u1); }
    } else {
      SimpleCut(h, s, b, p + 1, from, u);
    }
  }

  /** At a field: unless it stops there, both loops go on alike behind it. */
  lemma FieldLoopCut(h: Handler, s: string, b: nat, p: nat, from: Calls, u: Trace)
    requires b <= p < |s| && s[p] == '{' && !u.stopped && Quiet(h, from, u.calls)
    ensures var u1 := Emit(h, u, Text(s[b..p])); var l := Field(h, s, p, u1);
      if u1.stopped || l.trace.stopped then Cut(h, from, Simple(h, s, b, p, u), Simple(Calmed(h), s, b, p, u))
      else
        && Quiet(h, from, l.trace.calls)
        && Simple(h, s, b, p, u) == Simple(h, s, l.next, l.next, l.trace)
        && Simple(Calmed(h), s, b, p, u) == Simple(Calmed(h), s, l.next, l.next, l.trace)
  {
    var u1, v1 := Emit(h, u, Text(s[b..p])), Emit(Calmed(h), u, Text(s[b..p]));
    var l, m := Field(h, s, p, u1), Field(Calmed(h), s, p, v1);
    EmitCut(h, from, u, u, Text(s[b..p]));
    if u1.stopped {
      FieldStopped(h, s, p, u1);
      FieldExtends(Calmed(h), s, p, v1);
      ExtendsTwice(m.trace.calls, v1.calls, u1.calls);
      StoppedCut(h, s, l.next, l.next, m.next, m.next, from, u1, m.trace);
    } else {
      FieldCut(h, s, p, from, u1);
      if l.trace.stopped { StoppedCut(h, s, l.next, l.next, m.next, m.next, from, l.trace, m.trace); }
    }
  }

  lemma CloseLoopCut(h: Handler, s: string, b: nat, p: nat, from: Calls, u: Trace)
    requires b <= p < |s| && s[p] == '}' && !u.stopped && Quiet(h, from, u.calls)
    ensures var u1 := Emit(h, u, Text(s[b..p + 1]));
      if p + 1 == |s| || s[p + 1] != '}' || u1.stopped then Cut(h, from, Simple(h, s, b, p, u), Simple(Calmed(h), s, b, p, u))
      else
        && Quiet(h, from, u1.calls)
        && Simple(h, s, b, p, u) == Simple(h, s, p + 2, p + 2, u1)
        && Simple(Calmed(h), s, b, p, u) == Simple(Calmed(h), s, p + 2, p + 2, u1)
  {
    SimpleAtClose(h, s, b, p, u);
    SimpleAtClose(Calmed(h), s, b, p, u);
    EmitCut(h, from, u, u, UNMATCHED);
    EmitCut(h, from, u, u, Text(s[b..p + 1]));
    var u1, v1 := Emit(h, u, Text(s[b..p + 1])), Emit(Calmed(h), u, Text(s[b..p + 1]));
    if p + 1 < |s| && s[p + 1] == '}' && u1.stopped { StoppedCut(h, s, p + 2, p + 2, p + 2, p + 2, from, u1, v1); }
  }

  // ---------------------------------------------------------------------------
  // What the handler has seen
  // ---------------------------------------------------------------------------

  /** None of the calls throws. */
  ghost predicate NoneThrows(h: Handler, calls: Calls) {
    calls.Start? || (!calls.last.Error? && !h.throws(calls.before, calls.last) && NoneThrows(h, calls.before))
  }

  /** `calls` is `full`, or its beginning up to and including the first call that throws. */
  ghost predicate UpToThrow(h: Handler, stopped: bool, calls: Calls, full: Calls) {
    if stopped then
      && calls.Then? && (calls.last.Error? || h.throws(calls.before, calls.last))
      && NoneThrows(h, calls.before) && Extends(full, calls)
    else calls == full && NoneThrows(h, calls)
  }

  lemma {:induction false} QuietSeen(h: Handler, calls: Calls)
    requires Quiet(h, Start, calls)
    ensures NoneThrows(h, Visible(calls))
  {
    if calls.Then? { QuietSeen(h, calls.before); }
  }

  lemma {:induction false} ExtendsSeen(calls: Calls, first: Calls)
    requires Extends(calls, first)
    ensures Extends(Visible(calls), Visible(first))
  {
    if calls != first {
      ExtendsSeen(calls.before, first);
      ExtendsTwice(Visible(calls), Visible(calls.before), Visible(first));
    }
  }

  lemma CutSeen(h: Handler, u: Trace, v: Trace)
    requires Cut(h, Start, u, v)
    ensures UpToThrow(h, u.stopped, Visible(u.calls), Visible(v.calls))
  {
    if u.stopped {
      QuietSeen(h, u.calls.before);
      ExtendsSeen(v.calls, u.calls);
    } else {
      QuietSeen(h, u.calls);
    }
  }

  /** On both paths a handler that throws sees what it would have seen, had it not thrown, up
      to the first call that throws. */
  lemma ThrowsCutShort(h: Handler, s: string)
    ensures var full := Visible(Simple(Calmed(h), s, 0, 0, NOTHING).calls);
      && var u := Simple(h, s, 0, 0, NOTHING); UpToThrow(h, u.stopped, Visible(u.calls), full)
    ensures var full := Visible(Simple(Calmed(h), s, 0, 0, NOTHING).calls);
      && var u := TwoPass(h, s, 0, NOTHING); UpToThrow(h, u.stopped, Visible(u.calls), full)
  {
    SimpleCut(h, s, 0, 0, Start, NOTHING);
    CutSeen(h, Simple(h, s, 0, 0, NOTHING), Simple(Calmed(h), s, 0, 0, NOTHING));
    PathsAgree(h, s, 0, NOTHING, NOTHING);
  }

  /** Throwing changes nothing in what the pieces stand for. */
  lemma {:induction false} CalmedTells(h: Handler, from: Calls, calls: Calls, pending: string, pieces: seq<Placed>, left: string)
    requires Tells(Calmed(h), from, calls, pending, pieces, left)
    ensures Tells(h, from, calls, pending, pieces, left)
    decreases |pieces|
  {
    if pieces != [] {
      if pieces[0].piece.Literal? {
        CalmedTells(h, from, calls, pending + pieces[0].piece.text, pieces[1..], left);
      } else {
        var mid :| Texts(from, mid, pending) && Tells(Calmed(h), FieldCalls(Calmed(h), mid, pieces[0]), calls, "", pieces[1..], left);
        assert FieldCalls(Calmed(h), mid, pieces[0]) == FieldCalls(h, mid, pieces[0]);
        CalmedTells(h, FieldCalls(h, mid, pieces[0]), calls, "", pieces[1..], left);
      }
    }
  }

  lemma CalmedFieldCalls(h: Handler, before: Calls, field: Placed)
    requires !field.piece.Literal?
    ensures FieldCalls(Calmed(h), before, field) == FieldCalls(h, before, field)
    ensures SpecsAreRead(Calmed(h), before, field) <==> SpecsAreRead(h, before, field)
  {
  }

  lemma {:induction false} CalmedReads(h: Handler, from: Calls, pending: string, pieces: seq<Placed>)
    requires ReadsSpecs(h, from, pending, pieces)
    ensures Calm(Calmed(h)) && ReadsSpecs(Calmed(h), from, pending, pieces)
    decreases |pieces|
  {
    if pieces != [] {
      if pieces[0].piece.Literal? {
        CalmedReads(h, from, pending + pieces[0].piece.text, pieces[1..]);
      } else {
        forall mid: Calls | Texts(from, mid, pending)
          ensures SpecsAreRead(Calmed(h), mid, pieces[0]) && ReadsSpecs(Calmed(h), FieldCalls(Calmed(h), mid, pieces[0]), "", pieces[1..])
        {
          CalmedFieldCalls(h, mid, pieces[0]);
          CalmedReads(h, FieldCalls(h, mid, pieces[0]), "", pieces[1..]);
        }
      }
    }
  }

  /** What a handler sees of a string is the calls of the pieces, in order, up to the first
      that throws. */
  ghost predicate Told(h: Handler, t: Trace, pieces: seq<Piece>) {
    exists full: Calls :: Tells(h, Start, full, "", Place(pieces, 0), "") && UpToThrow(h, t.stopped, Visible(t.calls), full)
  }

  /** Every string written from pieces makes the calls of its pieces, on both paths, with any
      handler that reads the specs. */
  lemma PiecesAreTold(h: Handler, pieces: seq<Piece>)
    requires GoodPieces(pieces) && ReadsSpecs(h, Start, "", Place(pieces, 0))
    ensures Told(h, Simple(h, Written(pieces), 0, 0, NOTHING), pieces)
    ensures Told(h, TwoPass(h, Written(pieces), 0, NOTHING), pieces)
  {
    var full := Visible(Simple(Calmed(h), Written(pieces), 0, 0, NOTHING).calls);
    CalmedReads(h, Start, "", Place(pieces, 0));
    StringReadsBack(Calmed(h), pieces);
    CalmedTells(h, Start, full, "", Place(pieces, 0), "");
    ThrowsCutShort(h, Written(pieces));
  }

  /** A handler that never throws sees all of them. */
  lemma CalmIsToldAll(h: Handler, t: Trace, pieces: seq<Piece>)
    requires Calm(h) && Told(h, t, pieces)
    ensures !t.stopped && Tells(h, Start, Visible(t.calls), "", Place(pieces, 0), "")
  {
    var full :| Tells(h, Start, full, "", Place(pieces, 0), "") && UpToThrow(h, t.stopped, Visible(t.calls), full);
    if t.stopped {
      TellsNoError(h, Start, full, "", Place(pieces, 0), "");
      FreeOfErrors(full, Visible(t.calls));
    }
  }

  predicate ErrorFree(calls: Calls) {
    calls.Start? || (!calls.last.Error? && ErrorFree(calls.before))
  }

  lemma {:induction false} FreeOfErrors(calls: Calls, first: Calls)
    requires ErrorFree(calls) && Extends(calls, first)
    ensures ErrorFree(first)
  {
    if calls != first { FreeOfErrors(calls.before, first); }
  }

  lemma {:induction false} TextsNoError(from: Calls, calls: Calls, text: string)
    requires Texts(from, calls, text) && ErrorFree(from)
    ensures ErrorFree(calls)
    decreases calls
  {
    if !(calls == from && text == "") { TextsNoError(from, calls.before, text[..|text| - |calls.last.text|]); }
  }

  /** Pieces stand for no error. */
  lemma {:induction false} TellsNoError(h: Handler, from: Calls, calls: Calls, pending: string, pieces: seq<Placed>, left: string)
    requires Tells(h, from, calls, pending, pieces, left) && ErrorFree(from)
    ensures ErrorFree(calls)
    decreases |pieces|
  {
    if pieces == [] {
      TextsNoError(from, calls, pending[..|pending| - |left|]);
    } else if pieces[0].piece.Literal? {
      TellsNoError(h, from, calls, pending + pieces[0].piece.text, pieces[1..], left);
    } else {
      var mid :| Texts(from, mid, pending) && Tells(h, FieldCalls(h, mid, pieces[0]), calls, "", pieces[1..], left);
      TextsNoError(from, mid, pending);
      TellsNoError(h, FieldCalls(h, mid, pieces[0]), calls, "", pieces[1..], left);
    }
  }
}
