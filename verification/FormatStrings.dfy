/** The format-string parser on whole strings. */
module FormatStrings {
  import opened FormatParse
  import opened FormatPieces

  // ---------------------------------------------------------------------------
  // Written strings are read back
  // ---------------------------------------------------------------------------

  ghost function SimpleLoop(h: Handler, s: string): Loop {
    (b: nat, p: nat, t: Trace) => if b <= p <= |s| then Simple(h, s, b, p, t) else t
  }

  ghost const SPELLED: Standing := (placed: Placed, pos: nat) => GoodPlaced(placed, pos)

  lemma SimpleOnChar(h: Handler, s: string, b: nat, p: nat, t: Trace)
    requires b <= p < |s| && s[p] != '{' && s[p] != '}'
    ensures Simple(h, s, b, p, t) == Simple(h, s, b, p + 1, t)
  {
  }

  lemma SimpleOnOpen(h: Handler, s: string, b: nat, p: nat, t: Trace)
    requires Calm(h) && !t.stopped && b <= p && p + 1 < |s| && s[p] == s[p + 1] == '{'
    ensures Simple(h, s, b, p, t) == Simple(h, s, p + 2, p + 2, Trace(Then(Then(t.calls, Text(s[b..p])), Text("{")), false))
  {
    SimpleAtDoubleOpen(h, s, b, p, t);
    CalmEmit(h, t, Text(s[b..p]));
    CalmEmit(h, Trace(Then(t.calls, Text(s[b..p])), false), Text("{"));
  }

  lemma SimpleOnClose(h: Handler, s: string, b: nat, p: nat, t: Trace)
    requires Calm(h) && !t.stopped && b <= p && p + 1 < |s| && s[p] == s[p + 1] == '}'
    ensures Simple(h, s, b, p, t) == Simple(h, s, p + 2, p + 2, Trace(Then(t.calls, Text(s[b..p + 1])), false))
  {
    SimpleAtClose(h, s, b, p, t);
    CalmEmit(h, t, Text(s[b..p + 1]));
  }

  lemma SimpleOnText(h: Handler, s: string)
    requires Calm(h)
    ensures OnText(SimpleLoop(h, s), s)
  {
    forall b: nat, p: nat, t: Trace | At(b, p, t) && b <= p < |s| && !t.stopped ensures
      && (s[p] != '{' && s[p] != '}' ==> SimpleLoop(h, s)(b, p, t) == SimpleLoop(h, s)(b, p + 1, t))
      && (p + 1 < |s| && s[p] == s[p + 1] == '{' ==>
            SimpleLoop(h, s)(b, p, t) == SimpleLoop(h, s)(p + 2, p + 2, Trace(Then(Then(t.calls, Text(s[b..p])), Text("{")), false)))
      && (p + 1 < |s| && s[p] == s[p + 1] == '}' ==>
            SimpleLoop(h, s)(b, p, t) == SimpleLoop(h, s)(p + 2, p + 2, Trace(Then(t.calls, Text(s[b..p + 1])), false)))
    {
      if s[p] != '{' && s[p] != '}' { SimpleOnChar(h, s, b, p, t); }
      if p + 1 < |s| && s[p] == s[p + 1] == '{' { SimpleOnOpen(h, s, b, p, t); }
      if p + 1 < |s| && s[p] == s[p + 1] == '}' { SimpleOnClose(h, s, b, p, t); }
    }
  }

  /** The simple loop over its text and the field behind it. */
  lemma SimpleOnField(h: Handler, s: string, b: nat, p: nat, t: Trace, field: Placed) returns (t1: Trace)
    requires Calm(h) && !t.stopped && b <= p && !field.piece.Literal? && GoodPlaced(field, p) && Answers(h, s, b, p, t, field)
    requires p + |field.text| <= |s| && s[p..p + |field.text|] == field.text
    ensures var next := p + |field.text|;
      && !t1.stopped && Simple(h, s, b, p, t) == Simple(h, s, next, next, t1)
      && Visible(t1.calls) == FieldCalls(h, Visible(Then(t.calls, Text(s[b..p]))), field)
  {
    var mid := Trace(Then(t.calls, Text(s[b..p])), false);
    CalmEmit(h, t, Text(s[b..p]));
    FieldMakesCalls(h, s, p, mid, field);
    t1 := Field(h, s, p, mid).trace;
  }

  lemma PassedIsDealt(run: Loop, h: Handler, s: string, b: nat, p: nat, t: Trace, placed: Placed, next: nat, b1: nat, t1: Trace)
    requires placed.piece.Literal? && b <= p <= |s| && Passes(run, s, b, p, t, s[b..p] + placed.piece.text, next, b1, t1)
    ensures CanDeal(run, h, s, b, p, t, placed, next)
  {
    assert Dealt(run, h, s, b, p, t, placed, next, b1, t1);
  }

  lemma LiteralDealt(run: Loop, h: Handler, s: string, b: nat, p: nat, t: Trace, placed: Placed, next: nat, after: string)
    requires OnText(run, s) && !t.stopped && b <= p <= next <= |s| && placed.piece.Literal? && next == |s| - |after|
    requires s[p..] == DoubleBraces(placed.piece.text) + after
    ensures CanDeal(run, h, s, b, p, t, placed, next)
  {
    var b1, t1 := LiteralPasses(run, s, b, p, t, placed.piece.text, after);
    PassedIsDealt(run, h, s, b, p, t, placed, next, b1, t1);
  }

  lemma OneLiteral(h: Handler, s: string, b: nat, p: nat, t: Trace, placed: Placed)
    requires Calm(h) && !t.stopped && b <= p && Stands(SPELLED, s, p, placed) && placed.piece.Literal?
    ensures CanDeal(SimpleLoop(h, s), h, s, b, p, t, placed, p + |placed.text|)
  {
    SimpleOnText(h, s);
    LiteralOfPlaced(s, p, placed);
    LiteralDealt(SimpleLoop(h, s), h, s, b, p, t, placed, p + |placed.text|, s[p + |placed.text|..]);
  }

  lemma OneField(h: Handler, s: string, b: nat, p: nat, t: Trace, placed: Placed)
    requires Calm(h) && !t.stopped && b <= p && Stands(SPELLED, s, p, placed) && !placed.piece.Literal? && Answers(h, s, b, p, t, placed)
    ensures CanDeal(SimpleLoop(h, s), h, s, b, p, t, placed, p + |placed.text|)
  {
    var next := p + |placed.text|;
    var t1 := SimpleOnField(h, s, b, p, t, placed);
    assert Dealt(SimpleLoop(h, s), h, s, b, p, t, placed, next, next, t1);
  }

  lemma LiteralOfPlaced(s: string, p: nat, placed: Placed)
    requires Stands(SPELLED, s, p, placed) && placed.piece.Literal?
    ensures s[p..] == DoubleBraces(placed.piece.text) + s[p + |placed.text|..]
  {
    assert placed.text == DoubleBraces(placed.piece.text);
    assert s[p..] == s[p..p + |placed.text|] + s[p + |placed.text|..];
  }

  lemma SimpleDeals(h: Handler, s: string)
    requires Calm(h)
    ensures Deals(SimpleLoop(h, s), SPELLED, h, s)
  {
    forall b: nat, p: nat, t: Trace, placed: Placed |
      Meets(b, p, t, placed) && !t.stopped && b <= p && Stands(SPELLED, s, p, placed) && Answers(h, s, b, p, t, placed)
      ensures CanDeal(SimpleLoop(h, s), h, s, b, p, t, placed, p + |placed.text|)
    {
      if placed.piece.Literal? { OneLiteral(h, s, b, p, t, placed); } else { OneField(h, s, b, p, t, placed); }
    }
  }

  // The pieces' texts, one behind the other, are laid out.

  function TextOf(pieces: seq<Placed>): string {
    if pieces == [] then "" else pieces[0].text + TextOf(pieces[1..])
  }

  ghost predicate GoodRow(good: Standing, pieces: seq<Placed>, p: nat)
    decreases |pieces|
  {
    pieces == [] || (good(pieces[0], p) && GoodRow(good, pieces[1..], p + |pieces[0].text|))
  }

  lemma {:induction false} RowIsLaid(good: Standing, s: string, p: nat, pieces: seq<Placed>, tail: string)
    requires p <= |s| && s[p..] == TextOf(pieces) + tail && GoodRow(good, pieces, p)
    ensures |tail| <= |s| && Laid(good, s, p, pieces, |s| - |tail|)
    decreases |pieces|
  {
    if pieces == [] {
      SuffixAt(s, p, "", tail);
    } else {
      JoinThree(pieces[0].text, TextOf(pieces[1..]), tail);
      SuffixAt(s, p, pieces[0].text, TextOf(pieces[1..]) + tail);
      RowIsLaid(good, s, p + |pieces[0].text|, pieces[1..], tail);
    }
  }

  lemma PlaceSplits(pieces: seq<Piece>, p: nat)
    requires pieces != []
    ensures var all, rest := Place(pieces, p), Place(pieces[1..], p + |PieceText(pieces[0])|);
      all != [] && all[0] == PlaceOf(pieces[0], p) && all[1..] == rest
  {
  }

  lemma {:induction false} PlaceText(pieces: seq<Piece>, p: nat)
    ensures TextOf(Place(pieces, p)) == Written(pieces)
    decreases |pieces|
  {
    if pieces != [] {
      PlaceSplits(pieces, p);
      PlaceText(pieces[1..], p + |PieceText(pieces[0])|);
    }
  }

  lemma {:induction false} PlaceIsRow(pieces: seq<Piece>, p: nat, row: seq<Placed>)
    requires GoodPieces(pieces) && row == Place(pieces, p)
    ensures GoodRow(SPELLED, row, p)
    decreases |pieces|
  {
    if pieces != [] {
      PlaceSplits(pieces, p);
      PlaceIsRow(pieces[1..], p + |PieceText(pieces[0])|, row[1..]);
      RowMore(row, p);
    }
  }

  lemma RowMore(row: seq<Placed>, p: nat)
    requires row != [] && GoodPlaced(row[0], p) && GoodRow(SPELLED, row[1..], p + |row[0].text|)
    ensures GoodRow(SPELLED, row, p)
  {
  }

  /** A written string with a tail: the pieces are laid out up to the tail. */
  lemma WrittenIsLaid(pieces: seq<Piece>, tail: string)
    requires GoodPieces(pieces)
    ensures Laid(SPELLED, Written(pieces) + tail, 0, Place(pieces, 0), |Written(pieces)|)
  {
    var s := Written(pieces) + tail;
    PlaceText(pieces, 0);
    PlaceIsRow(pieces, 0, Place(pieces, 0));
    assert s[0..] == s;
    RowIsLaid(SPELLED, s, 0, Place(pieces, 0), tail);
  }

  // ---------------------------------------------------------------------------
  // What the parser calls on a whole string
  // ---------------------------------------------------------------------------

  const NOTHING: Trace := Trace(Start, false)

  /** Up to a tail, the simple loop has made the calls of the pieces, but for the text begun. */
  lemma ReadsUpToTail(h: Handler, pieces: seq<Piece>, tail: string) returns (b: nat, t: Trace)
    requires Calm(h) && GoodPieces(pieces) && ReadsSpecs(h, Start, "", Place(pieces, 0))
    ensures var s, q := Written(pieces) + tail, |Written(pieces)|;
      && b <= q && !t.stopped && Simple(h, s, 0, 0, NOTHING) == Simple(h, s, b, q, t)
      && Tells(h, Start, Visible(t.calls), "", Place(pieces, 0), s[b..q])
  {
    var s, q := Written(pieces) + tail, |Written(pieces)|;
    WrittenIsLaid(pieces, tail);
    SimpleDeals(h, s);
    assert s[0..0] == "";
    b, t := PiecesAreRead(SimpleLoop(h, s), SPELLED, h, s, 0, 0, NOTHING, Place(pieces, 0), q);
  }

  lemma Flushed(h: Handler, t: Trace, pieces: seq<Placed>, left: string)
    requires Calm(h) && !t.stopped && Tells(h, Start, Visible(t.calls), "", pieces, left)
    ensures var u := Emit(h, t, Text(left)); !u.stopped && Tells(h, Start, Visible(u.calls), "", pieces, "")
  {
    CalmEmit(h, t, Text(left));
    TellsFlush(h, Start, t.calls, "", pieces, left);
  }

  /** Every string written from pieces makes exactly the calls of its pieces, in order, on
      both paths, when nothing throws. */
  lemma StringReadsBack(h: Handler, pieces: seq<Piece>)
    requires Calm(h) && GoodPieces(pieces) && ReadsSpecs(h, Start, "", Place(pieces, 0))
    ensures var u := Simple(h, Written(pieces), 0, 0, NOTHING);
      !u.stopped && Tells(h, Start, Visible(u.calls), "", Place(pieces, 0), "")
    ensures var u := TwoPass(h, Written(pieces), 0, NOTHING);
      !u.stopped && Tells(h, Start, Visible(u.calls), "", Place(pieces, 0), "")
  {
    var s := Written(pieces);
    assert s + "" == s;
    var b, t := ReadsUpToTail(h, pieces, "");
    Flushed(h, t, Place(pieces, 0), s[b..|s|]);
    PathsAgree(h, s, 0, NOTHING, NOTHING);
  }

  // ---------------------------------------------------------------------------
  // Nothing else is accepted
  // ---------------------------------------------------------------------------

  lemma PieceStands(s: string, p: nat, next: nat, piece: Piece, rest: seq<Piece>)
    requires p <= next <= |s| && s[p..next] == PieceText(piece) && GoodPiece(piece)
    requires GoodPieces(rest) && s[next..] == Written(rest)
    ensures GoodPieces([piece] + rest) && s[p..] == Written([piece] + rest)
  {
    assert s[p..] == s[p..next] + s[next..];
    assert ([piece] + rest)[1..] == rest;
  }

  lemma BraceText(c: char)
    requires c == '{' || c == '}'
    ensures PieceText(Literal([c])) == [c, c]
  {
    DoubleStep([c]);
    assert [c][1..] == [] && [c, c] + [] == [c, c];
  }

  lemma CharText(c: char)
    requires c != '{' && c != '}'
    ensures PieceText(Literal([c])) == [c]
  {
    DoubleStep([c]);
    assert [c][1..] == [] && [c] + [] == [c];
  }

  lemma ArgText(s: string, p: nat, id: WrittenId)
    requires p + 2 + |WrittenText(id)| <= |s| && s[p] == '{'
    requires var end := p + 1 + |WrittenText(id)|; s[p + 1..end] == WrittenText(id) && s[end] == '}'
    ensures s[p..p + 2 + |WrittenText(id)|] == PieceText(Arg(id))
  {
    IdText3(s, p, WrittenText(id), '}');
  }

  lemma IdText3(s: string, p: nat, w: string, c: char)
    requires p + 2 + |w| <= |s| && s[p] == '{' && s[p + 1..p + 1 + |w|] == w && s[p + 1 + |w|] == c
    ensures s[p..p + 2 + |w|] == "{" + w + [c]
  {
    var end := p + 1 + |w|;
    assert s[p..end + 1] == [s[p]] + s[p + 1..end] + [s[end]];
  }

  lemma SpecsText3(s: string, p: nat, w: string, next: nat)
    requires var end := p + 1 + |w|;
      end + 1 < next <= |s| && s[p] == '{' && s[p + 1..end] == w && s[end] == ':' && s[next - 1] == '}'
    ensures var end := p + 1 + |w|; s[p..next] == "{" + w + ":" + s[end + 1..next - 1] + "}"
  {
    var end := p + 1 + |w|;
    var specs := s[end + 1..next - 1];
    IdText3(s, p, w, ':');
    assert s[p..next] == s[p..end + 1] + s[end + 1..next];
    assert s[end + 1..next] == specs + [s[next - 1]];
    JoinThree("{" + w + ":", specs, "}");
  }

  lemma SpecsText(s: string, p: nat, id: WrittenId, next: nat)
    requires var end := p + 1 + |WrittenText(id)|;
      end + 1 < next <= |s| && s[p] == '{' && s[p + 1..end] == WrittenText(id) && s[end] == ':' && s[next - 1] == '}'
    ensures var end := p + 1 + |WrittenText(id)|; s[p..next] == PieceText(ArgWithSpecs(id, s[end + 1..next - 1]))
  {
    SpecsText3(s, p, WrittenText(id), next);
  }

  lemma ArgSpelled(s: string, p: nat, next: nat, id: WrittenId)
    requires FieldSpelled(s, p, next, id) && s[p + 1 + |WrittenText(id)|] == '}'
    ensures s[p..next] == PieceText(Arg(id))
  {
    ArgText(s, p, id);
  }

  lemma SpecsSpelled(s: string, p: nat, next: nat, id: WrittenId) returns (specs: string)
    requires FieldSpelled(s, p, next, id) && s[p + 1 + |WrittenText(id)|] == ':'
    ensures s[p..next] == PieceText(ArgWithSpecs(id, specs))
  {
    specs := s[p + 2 + |WrittenText(id)|..next - 1];
    SpecsText(s, p, id, next);
  }

  lemma SpelledIsPiece(s: string, p: nat, next: nat, id: WrittenId) returns (piece: Piece)
    requires GoodId(id) && FieldSpelled(s, p, next, id)
    ensures GoodPiece(piece) && !piece.Literal? && s[p..next] == PieceText(piece)
  {
    if s[p + 1 + |WrittenText(id)|] == '}' {
      ArgSpelled(s, p, next, id);
      piece := Arg(id);
    } else {
      var specs := SpecsSpelled(s, p, next, id);
      piece := ArgWithSpecs(id, specs);
    }
  }

  lemma ShapeIsPiece(s: string, p: nat, next: nat, escape: bool, id: WrittenId) returns (piece: Piece)
    requires p <= next <= |s| && GoodId(id)
    requires if escape then next == p + 2 && s[p..next] == "{{" else FieldSpelled(s, p, next, id)
    ensures GoodPiece(piece) && s[p..next] == PieceText(piece)
    ensures piece.Literal? ==> piece == Literal("{") && p + 1 < |s| && s[p + 1] == '{'
  {
    if escape {
      piece := Literal("{");
      BraceText('{');
      CharAt(s, p, 2, 1);
    } else {
      piece := SpelledIsPiece(s, p, next, id);
    }
  }

  /** The field at `p`, after which the parser goes on, is a piece. */
  lemma FieldIsPiece(h: Handler, s: string, p: nat, t: Trace) returns (piece: Piece)
    requires p < |s| && s[p] == '{' && !Field(h, s, p, t).trace.stopped
    ensures GoodPiece(piece) && s[p..Field(h, s, p, t).next] == PieceText(piece)
    ensures piece.Literal? ==> piece == Literal("{") && p + 1 < |s| && s[p + 1] == '{'
  {
    var escape, id := FieldShape(h, s, p, t);
    piece := ShapeIsPiece(s, p, Field(h, s, p, t).next, escape, id);
  }

  // The calls made are those of the pieces found.

  lemma ColonLanded(h: Handler, s: string, id: int, b: nat, t: Trace)
    requires b < |s| && s[b] == ':' && !AfterId(h, s, id, b, t).trace.stopped
    ensures h.specs(Visible(t.calls), Specs(id, b + 1)) == AfterId(h, s, id, b, t).next - b - 2
  {
  }

  lemma AskedWasRead(h: Handler, s: string, e: Event, end: nat, t: Trace, n: nat)
    requires Calm(h) && !t.stopped && !e.Error? && !e.Text? && end < |s| && s[end] == ':'
    requires var l := AfterId(h, s, h.id(Visible(t.calls), e), end, Emit(h, t, e)); !l.trace.stopped && l.next == end + 2 + n
    ensures h.specs(Then(Visible(t.calls), e), Specs(h.id(Visible(t.calls), e), end + 1)) == n
  {
    CalmEmit(h, t, e);
    ColonLanded(h, s, h.id(Visible(t.calls), e), end, Emit(h, t, e));
  }

  lemma AskedBefore(h: Handler, s: string, p: nat, t: Trace, id: WrittenId, next: nat)
    requires GoodId(id) && IdStands(s, p, WrittenText(id), ':')
    requires var l := Field(h, s, p, t); !l.trace.stopped && l.next == next
    ensures var e := WrittenEvent(id); var l := AfterId(h, s, h.id(Visible(t.calls), e), p + 1 + |WrittenText(id)|, Emit(h, t, e));
      !l.trace.stopped && l.next == next
  {
    AsksAt(h, s, p, t, id, ':');
  }

  lemma WithSpecsLength(field: Placed, p: nat)
    requires field.piece.ArgWithSpecs? && GoodPlaced(field, p)
    ensures field.end == p + 1 + |WrittenText(field.piece.id)| && p + |field.text| == field.end + 2 + |field.piece.specs|
  {
  }

  /** Behind the id and a colon the parser went on, to behind `n` more characters. */
  lemma ColonWasRead(h: Handler, s: string, p: nat, t: Trace, id: WrittenId, end: nat, n: nat)
    requires Calm(h) && !t.stopped && GoodId(id) && IdStands(s, p, WrittenText(id), ':') && end == p + 1 + |WrittenText(id)|
    requires var l := Field(h, s, p, t); !l.trace.stopped && l.next == end + 2 + n
    ensures var e := WrittenEvent(id); h.specs(Then(Visible(t.calls), e), Specs(h.id(Visible(t.calls), e), end + 1)) == n
  {
    AskedBefore(h, s, p, t, id, end + 2 + n);
    AskedWasRead(h, s, WrittenEvent(id), end, t, n);
  }

  /** Where the parser went on behind specs, the handler had read them to their end. */
  lemma SpecsWereRead(h: Handler, s: string, p: nat, t: Trace, field: Placed)
    requires Calm(h) && !t.stopped && field.piece.ArgWithSpecs? && GoodPlaced(field, p)
    requires p + |field.text| <= |s| && s[p..p + |field.text|] == field.text
    requires p < |s| && var l := Field(h, s, p, t); !l.trace.stopped && l.next == p + |field.text|
    ensures SpecsAreRead(h, Visible(t.calls), field)
  {
    SpecsStand(s, p, WrittenText(field.piece.id), field.piece.specs);
    WithSpecsLength(field, p);
    ColonWasRead(h, s, p, t, field.piece.id, field.end, |field.piece.specs|);
  }

  lemma PlacedCalls(h: Handler, s: string, p: nat, t: Trace, piece: Piece)
    requires Calm(h) && !t.stopped && p < |s| && !piece.Literal? && GoodPiece(piece)
    requires var l := Field(h, s, p, t); !l.trace.stopped && s[p..l.next] == PieceText(piece)
    ensures var l := Field(h, s, p, t);
      l.next == p + |PieceText(piece)| && Visible(l.trace.calls) == FieldCalls(h, Visible(t.calls), PlaceOf(piece, p))
  {
    var field := PlaceOf(piece, p);
    if piece.ArgWithSpecs? { SpecsWereRead(h, s, p, t, field); }
    FieldMakesCalls(h, s, p, t, field);
  }

  lemma PlaceMore(piece: Piece, rest: seq<Piece>, p: nat)
    ensures Place([piece] + rest, p) == [PlaceOf(piece, p)] + Place(rest, p + |PieceText(piece)|)
  {
    assert ([piece] + rest)[1..] == rest;
  }

  lemma TellsFirst(h: Handler, from: Calls, mid: Calls, calls: Calls, pending: string, first: Placed, rest: seq<Placed>)
    requires first.piece.Literal? ==> Tells(h, from, calls, pending + first.piece.text, rest, "")
    requires !first.piece.Literal? ==> Texts(from, mid, pending) && Tells(h, FieldCalls(h, mid, first), calls, "", rest, "")
    ensures Tells(h, from, calls, pending, [first] + rest, "")
  {
    assert ([first] + rest)[1..] == rest;
  }

  /** A loop that stands at `p` with text begun at `b` makes the calls of the pieces. */
  ghost predicate ToldFrom(h: Handler, s: string, b: nat, p: nat, t: Trace, calls: Calls, pieces: seq<Piece>) {
    && b <= p <= |s| && GoodPieces(pieces) && s[p..] == Written(pieces)
    && Tells(h, Visible(t.calls), calls, s[b..p], Place(pieces, p), "")
  }

  lemma NothingLeft(h: Handler, s: string, b: nat, t: Trace)
    requires Calm(h) && !t.stopped && b <= |s|
    ensures ToldFrom(h, s, b, |s|, t, Visible(Emit(h, t, Text(s[b..|s|])).calls), [])
  {
    CalmEmit(h, t, Text(s[b..|s|]));
    TextsOne(t.calls, s[b..|s|]);
    PassedAll(Visible(t.calls), Visible(Then(t.calls, Text(s[b..|s|]))), s[b..|s|]);
  }

  lemma CharTold(h: Handler, s: string, b: nat, p: nat, t: Trace, calls: Calls, rest: seq<Piece>)
    requires b <= p < |s| && s[p] != '{' && s[p] != '}' && ToldFrom(h, s, b, p + 1, t, calls, rest)
    ensures ToldFrom(h, s, b, p, t, calls, [Literal([s[p]])] + rest)
  {
    var piece := Literal([s[p]]);
    CharText(s[p]);
    assert s[p..p + 1] == [s[p]];
    PieceStands(s, p, p + 1, piece, rest);
    CutChar(s, b, p);
    PlaceMore(piece, rest, p);
    TellsFirst(h, Visible(t.calls), Start, calls, s[b..p], PlaceOf(piece, p), Place(rest, p + 1));
  }

  lemma BraceTells(h: Handler, s: string, b: nat, p: nat, t: Trace, t1: Trace, calls: Calls, first: Placed, rest: seq<Placed>)
    requires b <= p && p + 2 <= |s| && first.piece == Literal([s[p]]) && Texts(Visible(t.calls), Visible(t1.calls), s[b..p] + [s[p]])
    requires Tells(h, Visible(t1.calls), calls, s[p + 2..p + 2], rest, "")
    ensures Tells(h, Visible(t.calls), calls, s[b..p], [first] + rest, "")
  {
    var text := s[b..p] + [s[p]];
    assert s[p + 2..p + 2] == "" && text + "" == text;
    TellsEarlier(h, Visible(t.calls), Visible(t1.calls), calls, text, "", rest, "");
    TellsFirst(h, Visible(t.calls), Start, calls, s[b..p], first, rest);
  }

  /** A doubled brace, passed with the text before it. */
  lemma BraceTold(h: Handler, s: string, b: nat, p: nat, t: Trace, t1: Trace, calls: Calls, rest: seq<Piece>)
    requires b <= p && p + 2 <= |s| && s[p] == s[p + 1] && (s[p] == '{' || s[p] == '}')
    requires Texts(Visible(t.calls), Visible(t1.calls), s[b..p] + [s[p]]) && ToldFrom(h, s, p + 2, p + 2, t1, calls, rest)
    ensures ToldFrom(h, s, b, p, t, calls, [Literal([s[p]])] + rest)
  {
    var piece := Literal([s[p]]);
    BraceText(s[p]);
    assert s[p..p + 2] == [s[p], s[p + 1]];
    PieceStands(s, p, p + 2, piece, rest);
    PlaceNext(s, p, p + 2, piece, rest);
    BraceTells(h, s, b, p, t, t1, calls, PlaceOf(piece, p), Place(rest, p + 2));
  }

  lemma FieldTells(h: Handler, s: string, b: nat, p: nat, t: Trace, field: Placed, next: nat, t1: Trace, calls: Calls, rest: seq<Placed>)
    requires b <= p < next <= |s| && !field.piece.Literal?
    requires Visible(t1.calls) == FieldCalls(h, Visible(Then(t.calls, Text(s[b..p]))), field)
    requires Tells(h, Visible(t1.calls), calls, s[next..next], rest, "")
    ensures Tells(h, Visible(t.calls), calls, s[b..p], [field] + rest, "")
  {
    assert s[next..next] == "";
    TextsOne(t.calls, s[b..p]);
    TellsFirst(h, Visible(t.calls), Visible(Then(t.calls, Text(s[b..p]))), calls, s[b..p], field, rest);
  }

  lemma FieldTold(h: Handler, s: string, b: nat, p: nat, t: Trace, piece: Piece, next: nat, t1: Trace, calls: Calls, rest: seq<Piece>)
    requires b <= p < next <= |s| && !piece.Literal? && GoodPiece(piece) && s[p..next] == PieceText(piece)
    requires Visible(t1.calls) == FieldCalls(h, Visible(Then(t.calls, Text(s[b..p]))), PlaceOf(piece, p))
    requires ToldFrom(h, s, next, next, t1, calls, rest)
    ensures ToldFrom(h, s, b, p, t, calls, [piece] + rest)
  {
    PieceStands(s, p, next, piece, rest);
    PlaceNext(s, p, next, piece, rest);
    FieldTells(h, s, b, p, t, PlaceOf(piece, p), next, t1, calls, Place(rest, next));
  }

  lemma PlaceNext(s: string, p: nat, next: nat, piece: Piece, rest: seq<Piece>)
    requires p <= next <= |s| && s[p..next] == PieceText(piece)
    ensures Place([piece] + rest, p) == [PlaceOf(piece, p)] + Place(rest, next)
  {
    PlaceMore(piece, rest, p);
  }

  /** A string that the parser gets through when nothing throws is written from pieces, and
      the calls made are theirs. */
  lemma {:induction false} AcceptedIsWritten(h: Handler, s: string, b: nat, p: nat, t: Trace) returns (pieces: seq<Piece>)
    requires Calm(h) && !t.stopped && b <= p <= |s| && !Simple(h, s, b, p, t).stopped
    ensures ToldFrom(h, s, b, p, t, Visible(Simple(h, s, b, p, t).calls), pieces)
    decreases |s| - p
  {
    var calls := Visible(Simple(h, s, b, p, t).calls);
    if p == |s| {
      pieces := [];
      NothingLeft(h, s, b, t);
    } else if s[p] == '{' {
      var t1 := Trace(Then(t.calls, Text(s[b..p])), false);
      CalmEmit(h, t, Text(s[b..p]));
      var l := Field(h, s, p, t1);
      if l.trace.stopped { SimpleStopped(h, s, l.next, l.next, l.trace); }
      var rest := AcceptedIsWritten(h, s, l.next, l.next, l.trace);
      pieces := AcceptedField(h, s, b, p, t, t1, calls, rest);
    } else if s[p] == '}' {
      SimpleAtClose(h, s, b, p, t);
      var t1 := Trace(Then(t.calls, Text(s[b..p + 1])), false);
      CalmEmit(h, t, Text(s[b..p + 1]));
      var rest := AcceptedIsWritten(h, s, p + 2, p + 2, t1);
      CutChar(s, b, p);
      TextsOne(t.calls, s[b..p + 1]);
      BraceTold(h, s, b, p, t, t1, calls, rest);
      pieces := [Literal([s[p]])] + rest;
    } else {
      var rest := AcceptedIsWritten(h, s, b, p + 1, t);
      CharTold(h, s, b, p, t, calls, rest);
      pieces := [Literal([s[p]])] + rest;
    }
  }

  lemma AcceptedField(h: Handler, s: string, b: nat, p: nat, t: Trace, t1: Trace, calls: Calls, rest: seq<Piece>) returns (pieces: seq<Piece>)
    requires Calm(h) && b <= p < |s| && s[p] == '{' && t1 == Trace(Then(t.calls, Text(s[b..p])), false)
    requires var l := Field(h, s, p, t1); !l.trace.stopped && ToldFrom(h, s, l.next, l.next, l.trace, calls, rest)
    ensures ToldFrom(h, s, b, p, t, calls, pieces)
  {
    var l := Field(h, s, p, t1);
    var piece := FieldIsPiece(h, s, p, t1);
    pieces := [piece] + rest;
    if piece.Literal? {
      EscapedOpen(h, s, b, p, t, t1);
      BraceTold(h, s, b, p, t, l.trace, calls, rest);
    } else {
      PlacedCalls(h, s, p, t1, piece);
      FieldTold(h, s, b, p, t, piece, l.next, l.trace, calls, rest);
    }
  }

  lemma FieldEscapes(h: Handler, s: string, p: nat, t: Trace)
    requires Calm(h) && !t.stopped && p + 1 < |s| && s[p + 1] == '{'
    ensures Field(h, s, p, t) == Landing(Trace(Then(t.calls, Text("{")), false), p + 2)
  {
    CalmEmit(h, t, Text("{"));
  }

  lemma EscapedOpen(h: Handler, s: string, b: nat, p: nat, t: Trace, t1: Trace)
    requires Calm(h) && b <= p && p + 1 < |s| && s[p] == s[p + 1] == '{' && t1 == Trace(Then(t.calls, Text(s[b..p])), false)
    ensures var l := Field(h, s, p, t1); l.next == p + 2 && Texts(Visible(t.calls), Visible(l.trace.calls), s[b..p] + ['{'])
  {
    FieldEscapes(h, s, p, t1);
    TwoTexts(t.calls, s[b..p]);
  }

  lemma TwoTexts(calls: Calls, text: string)
    ensures Texts(Visible(calls), Visible(Then(Then(calls, Text(text)), Text("{"))), text + ['{'])
  {
    TextsOne(calls, text);
    TextsMore(Visible(calls), Then(calls, Text(text)), text, "{");
  }
}
