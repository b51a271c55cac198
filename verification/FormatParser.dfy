/** The format-string parser as it is called: what it reports on a faulty string, and what
    `parse_format_string` promises. */
module FormatParser {
  import opened Digits
  import DecimalText
  import opened FormatParse
  import opened FormatPieces
  import opened FormatStrings
  import opened FormatThrows

  // ---------------------------------------------------------------------------
  // Faults
  // ---------------------------------------------------------------------------

  /** What can be wrong behind the last good piece; `after` is the rest of the string. */
  datatype Fault =
    | LoneClose(after: string)
    | LoneOpen
    | NoId(after: string)
    | OpenIndex(n: nat, after: string)
    | OpenName(name: string, after: string)
    | BadSpecs(id: WrittenId, after: string)

  predicate GoodFault(fault: Fault) {
    match fault
    case LoneClose(after) => after == [] || after[0] != '}'
    case LoneOpen => true
    case NoId(after) => after != [] && after[0] != '{' && !EndsId(after[0]) && !IsDigit(after[0]) && !IsNameStart(after[0])
    case OpenIndex(n, after) => after == [] || (!EndsId(after[0]) && (IsDigit(after[0]) ==> n == 0))
    case OpenName(name, after) => IsName(name) && (after == [] || (!EndsId(after[0]) && !IsDigit(after[0]) && !IsNameStart(after[0])))
    case BadSpecs(id, after) => GoodId(id)
  }

  /** The string from the fault's brace on. */
  function FaultText(fault: Fault): string {
    match fault
    case LoneClose(after) => "}" + after
    case LoneOpen => "{"
    case NoId(after) => "{" + after
    case OpenIndex(n, after) => "{" + Decimal(n) + after
    case OpenName(name, after) => "{" + name + after
    case BadSpecs(id, after) => "{" + WrittenText(id) + (":" + after)
  }

  /** Where the specs of a fault at `at` begin. */
  function SpecsFrom(fault: Fault, at: nat): nat
    requires fault.BadSpecs?
  {
    at + 2 + |WrittenText(fault.id)|
  }

  /** After the calls `before`, the handler does not read a fault's specs to a closing brace. */
  ghost predicate StopsThere(h: Handler, before: Calls, fault: Fault, at: nat) {
    fault.BadSpecs? ==>
      var e := WrittenEvent(fault.id);
      StopsAt(h, Then(before, e), Specs(h.id(before, e), SpecsFrom(fault, at)), fault.after)
  }

  /** So it is after the calls of the pieces. */
  ghost predicate StopsElsewhere(h: Handler, pieces: seq<Piece>, fault: Fault) {
    forall before: Calls {:trigger Tells(h, Start, before, "", Place(pieces, 0), "")} ::
      Tells(h, Start, before, "", Place(pieces, 0), "") ==> StopsThere(h, before, fault, |Written(pieces)|)
  }

  /** Asked to read the specs at the start of `after`, the handler stops at no closing brace. */
  ghost predicate StopsAt(h: Handler, c: Calls, e: Event, after: string) {
    var read := h.specs(c, e); read >= |after| || after[read] != '}'
  }

  /** The calls of a fault at `at`: what is asked for before it is noticed, and the error. */
  ghost function FaultCalls(h: Handler, before: Calls, fault: Fault, at: nat): Calls {
    match fault
    case LoneClose(_) => Then(before, Error(UnmatchedBrace))
    case OpenName(name, _) => Then(Then(before, NameId(name)), Error(MissingBrace))
    case BadSpecs(id, _) =>
      var e := WrittenEvent(id);
      Then(Then(Then(before, e), Specs(h.id(before, e), SpecsFrom(fault, at))), Error(UnknownSpecifier))
    case _ => Then(before, Error(InvalidFormat))
  }

  /** What a handler sees of a faulty string: the calls of the pieces and then those of the
      fault, up to the first that throws. Only a lone closing brace leaves text unpassed. */
  ghost predicate Reported(h: Handler, t: Trace, pieces: seq<Piece>, fault: Fault) {
    && t.stopped
    && exists before: Calls, left: string :: Tells(h, Start, before, "", Place(pieces, 0), left) && (!fault.LoneClose? ==> left == "")
         && UpToThrow(h, true, Visible(t.calls), FaultCalls(h, before, fault, |Written(pieces)|))
  }

  // ---------------------------------------------------------------------------
  // Reading up to the fault
  // ---------------------------------------------------------------------------

  lemma FaultStands(before: string, fault: Fault)
    ensures var s := before + FaultText(fault); s[|before|] == if fault.LoneClose? then '}' else '{'
  {
  }

  lemma CloseStands(before: string, after: string)
    requires after == [] || after[0] != '}'
    ensures var s, q := before + ("}" + after), |before|; q + 1 == |s| || s[q + 1] != '}'
  {
  }

  // Where a fault stands, in terms of places in the string.

  /** At `q` opens a field that begins with no id. */
  predicate OpensNothing(s: string, q: nat) {
    q < |s| && (q + 1 < |s| ==> s[q + 1] != '{' && s[q + 1] != '}' && IdAt(s, q + 1).event == Error(InvalidFormat))
  }

  /** At `q` opens a field with a name and neither brace nor colon behind it. */
  predicate OpensName(s: string, q: nat, name: string) {
    && q + 1 < |s| && s[q + 1] != '{' && s[q + 1] != '}'
    && var next := q + 1 + |name|; IdAt(s, q + 1) == IdText(NameId(name), next) && (next < |s| ==> !EndsId(s[next]))
  }

  /** At `q` opens a field with an id, a colon, and `after`. */
  predicate OpensSpecs(s: string, q: nat, w: string, after: string) {
    IdStands(s, q, w, ':') && s[q + 2 + |w|..] == after
  }

  lemma IndexStands(before: string, n: nat, after: string)
    requires after == [] || (!EndsId(after[0]) && (IsDigit(after[0]) ==> n == 0))
    ensures OpensNothing(before + ("{" + Decimal(n) + after), |before|)
  {
    var s, b, e := before + ("{" + Decimal(n) + after), |before| + 1, |before| + 1 + |Decimal(n)|;
    NoLeadingZero(n);
    DecimalReads(n);
    assert forall i :: b <= i < e ==> s[i] == Decimal(n)[i - b];
    assert s[b] == Decimal(n)[0] && (after != [] ==> s[e] == after[0]);
    if n > 0 { DecimalText.EndOfRun(s, b, e); }
  }

  lemma StrangerStands(before: string, after: string)
    requires after == [] || (after[0] != '{' && !EndsId(after[0]) && !IsDigit(after[0]) && !IsNameStart(after[0]))
    ensures OpensNothing(before + ("{" + after), |before|)
  {
    var s := before + ("{" + after);
    assert after != [] ==> s[|before| + 1] == after[0];
  }

  lemma NothingStands(before: string, fault: Fault)
    requires GoodFault(fault) && (fault.LoneOpen? || fault.NoId? || fault.OpenIndex?)
    ensures OpensNothing(before + FaultText(fault), |before|)
  {
    if fault.OpenIndex? {
      IndexStands(before, fault.n, fault.after);
    } else if fault.NoId? {
      StrangerStands(before, fault.after);
    } else {
      StrangerStands(before, "");
      assert "{" + "" == "{";
    }
  }

  lemma NameStands(before: string, name: string, after: string)
    requires IsName(name) && (after == [] || (!EndsId(after[0]) && !IsDigit(after[0]) && !IsNameStart(after[0])))
    ensures OpensName(before + ("{" + name + after), |before|, name)
  {
    var s, b, e := before + ("{" + name + after), |before| + 1, |before| + 1 + |name|;
    assert forall i :: b <= i < e ==> s[i] == name[i - b];
    assert s[b] == name[0] && (after != [] ==> s[e] == after[0]);
    EndOfName(s, b + 1, e);
    assert s[b..e] == name;
  }

  lemma ColonStands(before: string, w: string, after: string)
    ensures OpensSpecs(before + ("{" + w + (":" + after)), |before|, w, after)
  {
    var s := before + ("{" + w + (":" + after));
    assert s[|before| + 1..|before| + 1 + |w|] == w && s[|before| + 2 + |w|..] == after;
  }

  // What the field does there.

  /** The field at `q` makes the fault's calls. */
  ghost predicate Fails(h: Handler, s: string, q: nat, fault: Fault, t: Trace) {
    q < |s| && var u := Field(h, s, q, t).trace; u.stopped && Visible(u.calls) == FaultCalls(h, Visible(t.calls), fault, q)
  }

  lemma NothingFails(h: Handler, s: string, q: nat, fault: Fault, t: Trace)
    requires !t.stopped && OpensNothing(s, q) && (fault.LoneOpen? || fault.NoId? || fault.OpenIndex?)
    ensures Fails(h, s, q, fault, t)
  {
    if q + 1 < |s| {
      var i := IdAt(s, q + 1);
      AfterIdStopped(h, s, h.id(Visible(t.calls), i.event), i.next, Emit(h, t, i.event));
    }
  }

  lemma NameFails(h: Handler, s: string, q: nat, fault: Fault, t: Trace)
    requires Calm(h) && !t.stopped && fault.OpenName? && OpensName(s, q, fault.name)
    ensures Fails(h, s, q, fault, t)
  {
    CalmEmit(h, t, NameId(fault.name));
  }

  /** Specs that are not read to a closing brace. */
  lemma ColonFails(h: Handler, s: string, id: int, b: nat, after: string, t: Trace)
    requires Calm(h) && !t.stopped && b < |s| && s[b] == ':' && s[b + 1..] == after
    requires StopsAt(h, Visible(t.calls), Specs(id, b + 1), after)
    ensures AfterId(h, s, id, b, t).trace == Trace(Then(Then(t.calls, Specs(id, b + 1)), Error(UnknownSpecifier)), true)
  {
    ColonReads(h, s, id, b + 1, after, t);
    CalmEmit(h, t, Specs(id, b + 1));
  }

  lemma AskedFails(h: Handler, s: string, e: Event, end: nat, after: string, t: Trace)
    requires Calm(h) && !t.stopped && !e.Error? && end < |s| && s[end] == ':' && s[end + 1..] == after
    requires StopsAt(h, Visible(Then(t.calls, e)), Specs(h.id(Visible(t.calls), e), end + 1), after)
    ensures var answer := h.id(Visible(t.calls), e);
      AfterId(h, s, answer, end, Emit(h, t, e)).trace ==
      Trace(Then(Then(Then(t.calls, e), Specs(answer, end + 1)), Error(UnknownSpecifier)), true)
  {
    CalmEmit(h, t, e);
    ColonFails(h, s, h.id(Visible(t.calls), e), end, after, Trace(Then(t.calls, e), false));
  }

  lemma SpecsCalls(h: Handler, s: string, e: Event, end: nat, after: string, t: Trace)
    requires Calm(h) && !t.stopped && !e.Error? && !e.Text? && end < |s| && s[end] == ':' && s[end + 1..] == after
    requires StopsAt(h, Visible(Then(t.calls, e)), Specs(h.id(Visible(t.calls), e), end + 1), after)
    ensures var answer := h.id(Visible(t.calls), e); var u := AfterId(h, s, answer, end, Emit(h, t, e)).trace;
      u.stopped && Visible(u.calls) == Then(Then(Then(Visible(t.calls), e), Specs(answer, end + 1)), Error(UnknownSpecifier))
  {
    AskedFails(h, s, e, end, after, t);
    ThreeAreSeen(t.calls, e, Specs(h.id(Visible(t.calls), e), end + 1), Error(UnknownSpecifier));
  }

  /** What follows the id at `end` stops with the fault's calls. */
  ghost predicate FailsBehind(h: Handler, s: string, q: nat, fault: Fault, t: Trace, e: Event, end: nat) {
    && end <= |s|
    && var u := AfterId(h, s, h.id(Visible(t.calls), e), end, Emit(h, t, e)).trace;
       u.stopped && Visible(u.calls) == FaultCalls(h, Visible(t.calls), fault, q)
  }

  lemma ColonAt(s: string, q: nat, w: string, after: string)
    requires OpensSpecs(s, q, w, after)
    ensures var end := q + 1 + |w|; end < |s| && s[end] == ':' && s[end + 1..] == after
  {
  }

  lemma FaultBehind(h: Handler, s: string, q: nat, fault: Fault, t: Trace, e: Event, end: nat)
    requires Calm(h) && !t.stopped && fault.BadSpecs? && StopsThere(h, Visible(t.calls), fault, q) && e == WrittenEvent(fault.id)
    requires end + 1 == SpecsFrom(fault, q) && end < |s| && s[end] == ':' && s[end + 1..] == fault.after
    ensures FailsBehind(h, s, q, fault, t, e, end)
  {
    assert Visible(Then(t.calls, e)) == Then(Visible(t.calls), e);
    SpecsCalls(h, s, e, end, fault.after, t);
  }

  lemma AskedThenFails(h: Handler, s: string, q: nat, fault: Fault, t: Trace, id: WrittenId)
    requires GoodId(id) && IdStands(s, q, WrittenText(id), ':')
    requires FailsBehind(h, s, q, fault, t, WrittenEvent(id), q + 1 + |WrittenText(id)|)
    ensures Fails(h, s, q, fault, t)
  {
    AsksAt(h, s, q, t, id, ':');
  }

  lemma SpecsFail(h: Handler, s: string, q: nat, fault: Fault, t: Trace)
    requires Calm(h) && !t.stopped && fault.BadSpecs? && GoodId(fault.id) && StopsThere(h, Visible(t.calls), fault, q)
    requires OpensSpecs(s, q, WrittenText(fault.id), fault.after)
    ensures Fails(h, s, q, fault, t)
  {
    ColonAt(s, q, WrittenText(fault.id), fault.after);
    FaultBehind(h, s, q, fault, t, WrittenEvent(fault.id), q + 1 + |WrittenText(fault.id)|);
    AskedThenFails(h, s, q, fault, t, fault.id);
  }

  lemma ThreeAreSeen(calls: Calls, first: Event, second: Event, third: Event)
    requires !first.Text? && !second.Text? && !third.Text?
    ensures Visible(Then(Then(Then(calls, first), second), third)) == Then(Then(Then(Visible(calls), first), second), third)
  {
    assert Visible(Then(Then(calls, first), second)) == Then(Visible(Then(calls, first)), second);
  }

  /** A field that is a fault makes the fault's calls. */
  lemma FaultFails(h: Handler, before: string, fault: Fault, t: Trace)
    requires Calm(h) && !t.stopped && !fault.LoneClose? && GoodFault(fault) && StopsThere(h, Visible(t.calls), fault, |before|)
    ensures Fails(h, before + FaultText(fault), |before|, fault, t)
  {
    var s := before + FaultText(fault);
    if fault.OpenName? {
      NameStands(before, fault.name, fault.after);
      NameFails(h, s, |before|, fault, t);
    } else if fault.BadSpecs? {
      ColonStands(before, WrittenText(fault.id), fault.after);
      SpecsFail(h, s, |before|, fault, t);
    } else {
      NothingStands(before, fault);
      NothingFails(h, s, |before|, fault, t);
    }
  }

  /** Behind the pieces, the simple loop meets the fault. */
  lemma CalmFault(h: Handler, pieces: seq<Piece>, fault: Fault) returns (before: Calls, left: string)
    requires Calm(h) && GoodPieces(pieces) && ReadsSpecs(h, Start, "", Place(pieces, 0))
    requires GoodFault(fault) && StopsElsewhere(h, pieces, fault)
    ensures Tells(h, Start, before, "", Place(pieces, 0), left) && (!fault.LoneClose? ==> left == "")
    ensures var u := Simple(h, Written(pieces) + FaultText(fault), 0, 0, NOTHING);
      Visible(u.calls) == FaultCalls(h, before, fault, |Written(pieces)|)
  {
    var written := Written(pieces);
    var s, q := written + FaultText(fault), |written|;
    var b, t := ReadsUpToTail(h, pieces, FaultText(fault));
    before, left := Visible(t.calls), s[b..q];
    FaultStands(written, fault);
    if fault.LoneClose? {
      CloseStands(written, fault.after);
      SimpleAtClose(h, s, b, q, t);
    } else {
      Flushed(h, t, Place(pieces, 0), left);
      var t1 := Emit(h, t, Text(left));
      before, left := Visible(t1.calls), "";
      FaultFails(h, written, fault, t1);
      FieldEnds(h, s, b, q, t);
    }
  }

  lemma FieldEnds(h: Handler, s: string, b: nat, q: nat, t: Trace)
    requires b <= q < |s| && s[q] == '{' && Field(h, s, q, Emit(h, t, Text(s[b..q]))).trace.stopped
    ensures Simple(h, s, b, q, t) == Field(h, s, q, Emit(h, t, Text(s[b..q]))).trace
  {
    var l := Field(h, s, q, Emit(h, t, Text(s[b..q])));
    SimpleStopped(h, s, l.next, l.next, l.trace);
  }

  lemma CalmedStops(h: Handler, pieces: seq<Piece>, fault: Fault)
    requires StopsElsewhere(h, pieces, fault)
    ensures StopsElsewhere(Calmed(h), pieces, fault)
  {
    forall before: Calls | Tells(Calmed(h), Start, before, "", Place(pieces, 0), "")
      ensures StopsThere(Calmed(h), before, fault, |Written(pieces)|)
    {
      CalmedTells(h, Start, before, "", Place(pieces, 0), "");
      assert StopsThere(h, before, fault, |Written(pieces)|);
    }
  }

  lemma FaultThrows(h: Handler, stopped: bool, calls: Calls, before: Calls, fault: Fault, at: nat)
    requires UpToThrow(h, stopped, calls, FaultCalls(h, before, fault, at))
    ensures stopped
  {
  }

  /** Every string with a fault behind its pieces is reported with the fault's error, on both
      paths, unless a call throws before. */
  lemma FaultIsReported(h: Handler, pieces: seq<Piece>, fault: Fault)
    requires GoodPieces(pieces) && ReadsSpecs(h, Start, "", Place(pieces, 0))
    requires GoodFault(fault) && StopsElsewhere(h, pieces, fault)
    ensures Reported(h, Simple(h, Written(pieces) + FaultText(fault), 0, 0, NOTHING), pieces, fault)
    ensures Reported(h, TwoPass(h, Written(pieces) + FaultText(fault), 0, NOTHING), pieces, fault)
  {
    var s, at := Written(pieces) + FaultText(fault), |Written(pieces)|;
    CalmedReads(h, Start, "", Place(pieces, 0));
    CalmedStops(h, pieces, fault);
    var before, left := CalmFault(Calmed(h), pieces, fault);
    CalmedTells(h, Start, before, "", Place(pieces, 0), left);
    assert FaultCalls(Calmed(h), before, fault, at) == FaultCalls(h, before, fault, at);
    ThrowsCutShort(h, s);
    PathsAgree(h, s, 0, NOTHING, NOTHING);
    var u := Simple(h, s, 0, 0, NOTHING);
    FaultThrows(h, u.stopped, Visible(u.calls), before, fault, at);
  }

  // ---------------------------------------------------------------------------
  // The entry
  // ---------------------------------------------------------------------------

  /** The strings' pieces and a handler that reads their specs. */
  ghost predicate Spells(h: Handler, s: string, pieces: seq<Piece>) {
    GoodPieces(pieces) && ReadsSpecs(h, Start, "", Place(pieces, 0)) && s == Written(pieces)
  }

  ghost predicate SpellsFault(h: Handler, s: string, pieces: seq<Piece>, fault: Fault) {
    && GoodPieces(pieces) && ReadsSpecs(h, Start, "", Place(pieces, 0)) && s == Written(pieces) + FaultText(fault)
    && GoodFault(fault) && StopsElsewhere(h, pieces, fault)
  }

  lemma ToldAlike(h: Handler, t: Trace, u: Trace)
    requires Seen(t) == Seen(u)
    ensures forall pieces :: Told(h, u, pieces) ==> Told(h, t, pieces)
    ensures forall pieces, fault :: Reported(h, u, pieces, fault) ==> Reported(h, t, pieces, fault)
  {
  }

  lemma AllTold(h: Handler, s: string)
    ensures forall pieces :: Spells(h, s, pieces) ==> Told(h, Simple(h, s, 0, 0, NOTHING), pieces)
    ensures forall pieces, fault :: SpellsFault(h, s, pieces, fault) ==> Reported(h, Simple(h, s, 0, 0, NOTHING), pieces, fault)
  {
    forall pieces | Spells(h, s, pieces) ensures Told(h, Simple(h, s, 0, 0, NOTHING), pieces) {
      PiecesAreTold(h, pieces);
    }
    forall pieces, fault | SpellsFault(h, s, pieces, fault) ensures Reported(h, Simple(h, s, 0, 0, NOTHING), pieces, fault) {
      FaultIsReported(h, pieces, fault);
    }
  }

  /** The string is written from the pieces, and the calls are exactly theirs. */
  ghost predicate AcceptedAs(h: Handler, s: string, t: Trace, pieces: seq<Piece>) {
    GoodPieces(pieces) && s == Written(pieces) && Tells(h, Start, Visible(t.calls), "", Place(pieces, 0), "")
  }

  /** A string that the parser gets through is written from pieces, and the calls are theirs,
      whatever the handler throws on or reads elsewhere. */
  lemma AcceptedIsTold(h: Handler, s: string) returns (pieces: seq<Piece>)
    requires !Simple(h, s, 0, 0, NOTHING).stopped
    ensures AcceptedAs(h, s, Simple(h, s, 0, 0, NOTHING), pieces)
  {
    SimpleCut(h, s, 0, 0, Start, NOTHING);
    pieces := AcceptedIsWritten(Calmed(h), s, 0, 0, NOTHING);
    assert s[0..] == s && s[0..0] == "";
    CalmedTells(h, Start, Visible(Simple(h, s, 0, 0, NOTHING).calls), "", Place(pieces, 0), "");
  }

  lemma AcceptedAlike(h: Handler, s: string, t: Trace)
    requires Seen(t) == Seen(Simple(h, s, 0, 0, NOTHING))
    ensures !t.stopped ==> exists pieces :: AcceptedAs(h, s, t, pieces)
  {
    if !t.stopped {
      var pieces := AcceptedIsTold(h, s);
      assert AcceptedAs(h, s, t, pieces);
    }
  }

  lemma DoubledTexts(h: Handler, s: string, t: Trace)
    requires Seen(t) == Seen(Simple(h, s, 0, 0, NOTHING)) && TakesText(h)
    ensures forall x :: s == DoubleBraces(x) ==> OnlyText(t) && Plain(t.calls) == x
  {
    forall x | s == DoubleBraces(x) ensures OnlyText(t) && Plain(t.calls) == x {
      DoubledReadsBack(h, x);
      SeenText(t, Simple(h, s, 0, 0, NOTHING));
    }
  }

  /** `parse_format_string`. */
  method ParseFormatString(h: Handler, s: string) returns (t: Trace)
    ensures Seen(t) == Seen(Simple(h, s, 0, 0, NOTHING)) == Seen(TwoPass(h, s, 0, NOTHING))
    ensures forall pieces :: Spells(h, s, pieces) ==> Told(h, t, pieces)
    ensures forall pieces, fault :: SpellsFault(h, s, pieces, fault) ==> Reported(h, t, pieces, fault)
    ensures !t.stopped ==> exists pieces :: AcceptedAs(h, s, t, pieces)
    ensures TakesText(h) ==> forall x :: s == DoubleBraces(x) ==> OnlyText(t) && Plain(t.calls) == x
  {
    if |s| < 32 { t := ParseShort(h, s, NOTHING); } else { t := ParseLong(h, s, NOTHING); }
    PathsAgree(h, s, 0, NOTHING, NOTHING);
    AllTold(h, s);
    ToldAlike(h, t, Simple(h, s, 0, 0, NOTHING));
    AcceptedAlike(h, s, t);
    if TakesText(h) { DoubledTexts(h, s, t); }
  }
}
