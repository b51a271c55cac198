/** Whole format strings: what any string of text and fields makes the parser call, that no
    other string is accepted, and how a call that throws cuts the calls short. */
module FormatPieces {
  import opened Digits
  import opened DecimalText
  import opened FormatParse

  // ---------------------------------------------------------------------------
  // Strings written from pieces
  // ---------------------------------------------------------------------------

  datatype Piece = Literal(text: string) | Arg(id: WrittenId) | ArgWithSpecs(id: WrittenId, specs: string)

  predicate GoodPiece(piece: Piece) {
    piece.Literal? || GoodId(piece.id)
  }

  predicate GoodPieces(pieces: seq<Piece>) {
    forall i :: 0 <= i < |pieces| ==> GoodPiece(pieces[i])
  }

  function PieceText(piece: Piece): string {
    match piece
    case Literal(text) => DoubleBraces(text)
    case Arg(id) => "{" + WrittenText(id) + "}"
    case ArgWithSpecs(id, specs) => "{" + WrittenText(id) + ":" + specs + "}"
  }

  function Written(pieces: seq<Piece>): string {
    if pieces == [] then "" else PieceText(pieces[0]) + Written(pieces[1..])
  }

  // ---------------------------------------------------------------------------
  // The calls they stand for
  // ---------------------------------------------------------------------------

  /** A piece as it stands in a string: its text, and for a field the place behind its id. */
  datatype Placed = Placed(piece: Piece, text: string, end: nat)

  function PlaceOf(piece: Piece, pos: nat): Placed {
    Placed(piece, PieceText(piece), if piece.Literal? then pos else pos + 1 + |WrittenText(piece.id)|)
  }

  /** The pieces of a string that begin at `pos`. */
  function Place(pieces: seq<Piece>, pos: nat): seq<Placed>
    decreases |pieces|
  {
    if pieces == [] then [] else [PlaceOf(pieces[0], pos)] + Place(pieces[1..], pos + |PieceText(pieces[0])|)
  }

  /** `calls` is `from` and then calls that pass nonempty texts, which together are `text`. */
  ghost predicate Texts(from: Calls, calls: Calls, text: string) {
    || (calls == from && text == "")
    || (calls.Then? && calls.last.Text? && calls.last.text != "" && |calls.last.text| <= |text|
        && text[|text| - |calls.last.text|..] == calls.last.text
        && Texts(from, calls.before, text[..|text| - |calls.last.text|]))
  }

  /** All of `pending` but its end `left` has been passed. */
  ghost predicate Passed(from: Calls, calls: Calls, pending: string, left: string) {
    |left| <= |pending| && pending[|pending| - |left|..] == left && Texts(from, calls, pending[..|pending| - |left|])
  }

  /** The calls of a field: the argument is asked for, then replaced in, or its specs passed. */
  ghost function FieldCalls(h: Handler, before: Calls, field: Placed): Calls
    requires !field.piece.Literal?
  {
    var e := WrittenEvent(field.piece.id);
    var answer := h.id(before, e);
    Then(Then(before, e), if field.piece.Arg? then Replace(answer, field.end) else Specs(answer, field.end + 1))
  }

  /** From the calls `from` on, the pieces lead to `calls`. Neighbouring texts are taken
      together; `pending` is text that precedes the pieces, and `left` what has not been
      passed at the end. */
  ghost predicate Tells(h: Handler, from: Calls, calls: Calls, pending: string, pieces: seq<Placed>, left: string)
    decreases |pieces|
  {
    if pieces == [] then Passed(from, calls, pending, left)
    else if pieces[0].piece.Literal? then Tells(h, from, calls, pending + pieces[0].piece.text, pieces[1..], left)
    else exists mid :: Texts(from, mid, pending) && Tells(h, FieldCalls(h, mid, pieces[0]), calls, "", pieces[1..], left)
  }

  /** The handler never throws. */
  ghost predicate Calm(h: Handler) {
    forall c: Calls, e: Event {:trigger h.throws(c, e)} :: !h.throws(c, e)
  }

  /** After the calls `before`, the handler reads the field's specs to their end. */
  ghost predicate SpecsAreRead(h: Handler, before: Calls, field: Placed) {
    field.piece.ArgWithSpecs? ==>
      var e := WrittenEvent(field.piece.id);
      h.specs(Then(before, e), Specs(h.id(before, e), field.end + 1)) == |field.piece.specs|
  }

  /** The handler reads each field's specs to their end, after the calls that `from`, the
      text `pending` and the pieces before have led to. */
  ghost predicate ReadsSpecs(h: Handler, from: Calls, pending: string, pieces: seq<Placed>)
    decreases |pieces|
  {
    if pieces == [] then true
    else if pieces[0].piece.Literal? then ReadsSpecs(h, from, pending + pieces[0].piece.text, pieces[1..])
    else forall mid: Calls {:trigger Texts(from, mid, pending)} :: Texts(from, mid, pending) ==>
      SpecsAreRead(h, mid, pieces[0]) && ReadsSpecs(h, FieldCalls(h, mid, pieces[0]), "", pieces[1..])
  }

  // ---------------------------------------------------------------------------
  // Texts
  // ---------------------------------------------------------------------------

  lemma TextsMore(from: Calls, calls: Calls, text: string, more: string)
    requires Texts(from, Visible(calls), text)
    ensures Texts(from, Visible(Then(calls, Text(more))), text + more)
  {
    if more == "" {
      assert text + more == text;
    } else {
      var all := text + more;
      assert all[|all| - |more|..] == more && all[..|all| - |more|] == text;
    }
  }

  lemma TextsOne(calls: Calls, text: string)
    ensures Texts(Visible(calls), Visible(Then(calls, Text(text))), text)
  {
    TextsMore(Visible(calls), calls, "", text);
    assert "" + text == text;
  }

  lemma TailOfJoin(x: string, y: string, n: nat)
    requires n <= |y|
    ensures var z := x + y; z[|z| - n..] == y[|y| - n..] && z[..|z| - n] == x + y[..|y| - n]
  {
  }

  lemma {:induction false} TextsJoin(a: Calls, b: Calls, c: Calls, x: string, y: string)
    requires Texts(a, b, x) && Texts(b, c, y)
    ensures Texts(a, c, x + y)
    decreases c
  {
    if c == b && y == "" {
      assert x + y == x;
    } else {
      TextsJoin(a, b, c.before, x, y[..|y| - |c.last.text|]);
      TextsLast(a, c, x, y);
    }
  }

  lemma TextsLast(a: Calls, c: Calls, x: string, y: string)
    requires c.Then? && c.last.Text? && c.last.text != "" && |c.last.text| <= |y| && y[|y| - |c.last.text|..] == c.last.text
    requires Texts(a, c.before, x + y[..|y| - |c.last.text|])
    ensures Texts(a, c, x + y)
  {
    TailOfJoin(x, y, |c.last.text|);
  }

  lemma PassedEarlier(a: Calls, b: Calls, calls: Calls, x: string, y: string, left: string)
    requires Texts(a, b, x) && Passed(b, calls, y, left)
    ensures Passed(a, calls, x + y, left)
  {
    TextsJoin(a, b, calls, x, y[..|y| - |left|]);
    TailOfJoin(x, y, |left|);
  }

  lemma JoinThree(x: string, y: string, z: string)
    ensures x + (y + z) == x + y + z
  {
  }

  /** Text that was passed before can be counted as pending. */
  lemma {:induction false} TellsEarlier(h: Handler, a: Calls, b: Calls, calls: Calls, x: string, y: string, pieces: seq<Placed>, left: string)
    requires Texts(a, b, x) && Tells(h, b, calls, y, pieces, left)
    ensures Tells(h, a, calls, x + y, pieces, left)
    decreases |pieces|
  {
    if pieces == [] {
      PassedEarlier(a, b, calls, x, y, left);
    } else if pieces[0].piece.Literal? {
      var more := pieces[0].piece.text;
      TellsEarlier(h, a, b, calls, x, y + more, pieces[1..], left);
      JoinThree(x, y, more);
    } else {
      var mid :| Texts(b, mid, y) && Tells(h, FieldCalls(h, mid, pieces[0]), calls, "", pieces[1..], left);
      TextsJoin(a, b, mid, x, y);
    }
  }

  /** Some of the pending text has been passed. */
  lemma {:induction false} ReadsSpecsLater(h: Handler, a: Calls, b: Calls, x: string, y: string, pieces: seq<Placed>)
    requires Texts(a, b, x) && ReadsSpecs(h, a, x + y, pieces)
    ensures ReadsSpecs(h, b, y, pieces)
    decreases |pieces|
  {
    if pieces != [] {
      if pieces[0].piece.Literal? {
        var more := pieces[0].piece.text;
        JoinThree(x, y, more);
        ReadsSpecsLater(h, a, b, x, y + more, pieces[1..]);
      } else {
        forall mid: Calls | Texts(b, mid, y)
          ensures SpecsAreRead(h, mid, pieces[0]) && ReadsSpecs(h, FieldCalls(h, mid, pieces[0]), "", pieces[1..])
        {
          TextsJoin(a, b, mid, x, y);
        }
      }
    }
  }

  /** Passing what is left. */
  lemma {:induction false} TellsFlush(h: Handler, from: Calls, calls: Calls, pending: string, pieces: seq<Placed>, left: string)
    requires Tells(h, from, Visible(calls), pending, pieces, left)
    ensures Tells(h, from, Visible(Then(calls, Text(left))), pending, pieces, "")
    decreases |pieces|
  {
    if pieces == [] {
      PassedFlush(from, calls, pending, left);
    } else if pieces[0].piece.Literal? {
      TellsFlush(h, from, calls, pending + pieces[0].piece.text, pieces[1..], left);
    } else {
      var mid :| Texts(from, mid, pending) && Tells(h, FieldCalls(h, mid, pieces[0]), Visible(calls), "", pieces[1..], left);
      TellsFlush(h, FieldCalls(h, mid, pieces[0]), calls, "", pieces[1..], left);
    }
  }

  lemma SplitTail(pending: string, left: string)
    requires |left| <= |pending| && pending[|pending| - |left|..] == left
    ensures pending[..|pending| - |left|] + left == pending
  {
  }

  lemma PassedFlush(from: Calls, calls: Calls, pending: string, left: string)
    requires Passed(from, Visible(calls), pending, left)
    ensures Passed(from, Visible(Then(calls, Text(left))), pending, "")
  {
    SplitTail(pending, left);
    TextsMore(from, calls, pending[..|pending| - |left|], left);
    PassedAll(from, Visible(Then(calls, Text(left))), pending);
  }

  lemma PassedAll(from: Calls, calls: Calls, pending: string)
    requires Texts(from, calls, pending)
    ensures Passed(from, calls, pending, "")
  {
    assert pending[..|pending| - 0] == pending;
  }

  // ---------------------------------------------------------------------------
  // Literals
  // ---------------------------------------------------------------------------

  lemma CalmEmit(h: Handler, t: Trace, e: Event)
    requires Calm(h) && !t.stopped && !e.Error?
    ensures Emit(h, t, e) == Trace(Then(t.calls, e), false)
  {
    assert !h.throws(Visible(t.calls), e);
  }

  lemma SuffixAt(s: string, p: nat, a: string, b: string)
    requires p <= |s| && s[p..] == a + b
    ensures p + |a| <= |s| && s[p..p + |a|] == a && s[p + |a|..] == b
  {
    assert s[p..][..|a|] == a && s[p..][|a|..] == b;
  }

  lemma DoubleStep(x: string)
    requires x != []
    ensures DoubleBraces(x) == (if x[0] == '{' || x[0] == '}' then [x[0], x[0]] else [x[0]]) + DoubleBraces(x[1..])
  {
  }

  /** Splitting a literal's text after its first character, doubled or not. */
  lemma LiteralAhead(s: string, p: nat, first: string, d: string, after: string)
    requires p <= |s| && s[p..] == first + d + after
    ensures p + |first| <= |s| && s[p..p + |first|] == first && s[p + |first|..] == d + after
  {
    JoinThree(first, d, after);
    SuffixAt(s, p, first, d + after);
  }

  lemma BraceAhead(s: string, p: nat, x: string, after: string)
    requires p <= |s| && s[p..] == DoubleBraces(x) + after && x != [] && (x[0] == '{' || x[0] == '}')
    ensures p + 2 <= |s| && s[p] == s[p + 1] == x[0] && s[p + 2..] == DoubleBraces(x[1..]) + after
  {
    var two := [x[0], x[0]];
    DoubleStep(x);
    LiteralAhead(s, p, two, DoubleBraces(x[1..]), after);
    CharAt(s, p, 2, 0);
    CharAt(s, p, 2, 1);
  }

  lemma CharAhead(s: string, p: nat, x: string, after: string)
    requires p <= |s| && s[p..] == DoubleBraces(x) + after && x != [] && x[0] != '{' && x[0] != '}'
    ensures p + 1 <= |s| && s[p] == x[0] && s[p + 1..] == DoubleBraces(x[1..]) + after
  {
    DoubleStep(x);
    LiteralAhead(s, p, [x[0]], DoubleBraces(x[1..]), after);
    CharAt(s, p, 1, 0);
  }

  lemma CharAt(s: string, p: nat, n: nat, k: nat)
    requires p + n <= |s| && k < n
    ensures s[p..p + n][k] == s[p + k]
  {
  }

  /** A loop over the string, from the place where its text began, the place it is at, and the
      calls made so far. */
  type Loop = (nat, nat, Trace) -> Trace

  /** Always true: names the place at which the loop's steps are wanted. */
  ghost predicate At(b: nat, p: nat, t: Trace) {
    true
  }

  /** What the loop does on text. */
  ghost predicate OnText(run: Loop, s: string) {
    forall b: nat, p: nat, t: Trace {:trigger At(b, p, t)} :: At(b, p, t) && b <= p < |s| && !t.stopped ==>
      && (s[p] != '{' && s[p] != '}' ==> run(b, p, t) == run(b, p + 1, t))
      && (p + 1 < |s| && s[p] == s[p + 1] == '{' ==>
            run(b, p, t) == run(p + 2, p + 2, Trace(Then(Then(t.calls, Text(s[b..p])), Text("{")), false)))
      && (p + 1 < |s| && s[p] == s[p + 1] == '}' ==>
            run(b, p, t) == run(p + 2, p + 2, Trace(Then(t.calls, Text(s[b..p + 1])), false)))
  }

  /** The loop gets from `p` to `q`, its text then begun at `b'`, and what it has passed
      together with the text begun is `text`. */
  ghost predicate Passes(run: Loop, s: string, b: nat, p: nat, t: Trace, text: string, q: nat, b': nat, t': Trace) {
    && b <= p <= |s| && b' <= q <= |s| && !t'.stopped
    && run(b, p, t) == run(b', q, t')
    && Passed(Visible(t.calls), Visible(t'.calls), text, s[b'..q])
  }

  lemma CutChar(s: string, b: nat, p: nat)
    requires b <= p < |s|
    ensures s[b..p + 1] == s[b..p] + [s[p]]
  {
  }

  lemma OpenEmits(run: Loop, s: string, b: nat, p: nat, t: Trace) returns (t1: Trace)
    requires OnText(run, s) && !t.stopped && b <= p && p + 2 <= |s| && s[p] == s[p + 1] == '{'
    ensures !t1.stopped && run(b, p, t) == run(p + 2, p + 2, t1)
    ensures Texts(Visible(t.calls), Visible(t1.calls), s[b..p] + ['{'])
  {
    assert At(b, p, t);
    var mid := Then(t.calls, Text(s[b..p]));
    t1 := Trace(Then(mid, Text("{")), false);
    TextsOne(t.calls, s[b..p]);
    TextsMore(Visible(t.calls), mid, s[b..p], "{");
  }

  lemma CloseEmits(run: Loop, s: string, b: nat, p: nat, t: Trace) returns (t1: Trace)
    requires OnText(run, s) && !t.stopped && b <= p && p + 2 <= |s| && s[p] == s[p + 1] == '}'
    ensures !t1.stopped && run(b, p, t) == run(p + 2, p + 2, t1)
    ensures Texts(Visible(t.calls), Visible(t1.calls), s[b..p] + ['}'])
  {
    assert At(b, p, t);
    var text := s[b..p] + ['}'];
    CutChar(s, b, p);
    t1 := Trace(Then(t.calls, Text(text)), false);
    TextsOne(t.calls, text);
  }

  lemma JoinChar(a: string, x: string)
    requires x != []
    ensures a + [x[0]] + x[1..] == a + x
  {
  }

  lemma BraceLater(run: Loop, s: string, b: nat, p: nat, t: Trace, t1: Trace, x: string, q: nat, b': nat, t': Trace)
    requires b <= p && p + 2 <= |s| && x != [] && run(b, p, t) == run(p + 2, p + 2, t1)
    requires Texts(Visible(t.calls), Visible(t1.calls), s[b..p] + [x[0]])
    requires Passes(run, s, p + 2, p + 2, t1, s[p + 2..p + 2] + x[1..], q, b', t')
    ensures Passes(run, s, b, p, t, s[b..p] + x, q, b', t')
  {
    assert s[p + 2..p + 2] + x[1..] == x[1..];
    PassedEarlier(Visible(t.calls), Visible(t1.calls), Visible(t'.calls), s[b..p] + [x[0]], x[1..], s[b'..q]);
    JoinChar(s[b..p], x);
  }

  lemma CharLater(run: Loop, s: string, b: nat, p: nat, t: Trace, x: string, q: nat, b': nat, t': Trace)
    requires b <= p < |s| && x != [] && s[p] == x[0] && run(b, p, t) == run(b, p + 1, t)
    requires Passes(run, s, b, p + 1, t, s[b..p + 1] + x[1..], q, b', t')
    ensures Passes(run, s, b, p, t, s[b..p] + x, q, b', t')
  {
    CutChar(s, b, p);
    JoinChar(s[b..p], x);
  }

  lemma NothingYet(run: Loop, s: string, b: nat, p: nat, t: Trace)
    requires !t.stopped && b <= p <= |s|
    ensures Passes(run, s, b, p, t, s[b..p] + "", p, b, t)
  {
    var text := s[b..p] + "";
    assert text == s[b..p] && text[..|text| - |text|] == "" && text[|text| - |text|..] == text;
  }

  /** A literal with its braces doubled is passed as it was meant. */
  lemma {:induction false} LiteralPasses(run: Loop, s: string, b: nat, p: nat, t: Trace, x: string, after: string) returns (b': nat, t': Trace)
    requires OnText(run, s) && !t.stopped && b <= p <= |s| && s[p..] == DoubleBraces(x) + after
    ensures |after| <= |s| && Passes(run, s, b, p, t, s[b..p] + x, |s| - |after|, b', t')
    decreases |x|
  {
    if x == [] {
      b', t' := b, t;
      SuffixAt(s, p, "", after);
      NothingYet(run, s, b, p, t);
    } else if x[0] == '{' || x[0] == '}' {
      BraceAhead(s, p, x, after);
      var t1;
      if x[0] == '{' { t1 := OpenEmits(run, s, b, p, t); } else { t1 := CloseEmits(run, s, b, p, t); }
      b', t' := LiteralPasses(run, s, p + 2, p + 2, t1, x[1..], after);
      BraceLater(run, s, b, p, t, t1, x, |s| - |after|, b', t');
    } else {
      CharAhead(s, p, x, after);
      assert At(b, p, t);
      b', t' := LiteralPasses(run, s, b, p + 1, t, x[1..], after);
      CharLater(run, s, b, p, t, x, |s| - |after|, b', t');
    }
  }

  // ---------------------------------------------------------------------------
  // Fields
  // ---------------------------------------------------------------------------

  /** At `p` stand an opening brace, the id `w` and then `c`. */
  predicate IdStands(s: string, p: nat, w: string, c: char) {
    p + 1 + |w| < |s| && s[p] == '{' && s[p + 1..p + 1 + |w|] == w && s[p + 1 + |w|] == c
  }

  lemma Recomposed(s: string, p: nat, w: string, c: char)
    requires IdStands(s, p, w, c)
    ensures s == s[..p] + "{" + w + ([c] + s[p + 2 + |w|..])
  {
    var e := p + 1 + |w|;
    assert s == s[..p] + [s[p]] + s[p + 1..e] + ([s[e]] + s[e + 1..]);
  }

  lemma ArgStands(s: string, p: nat, w: string)
    requires p + |w| + 2 <= |s| && s[p..p + |w| + 2] == "{" + w + "}"
    ensures IdStands(s, p, w, '}')
  {
    var t := "{" + w + "}";
    assert t[0] == '{' && t[1..1 + |w|] == w && t[1 + |w|] == '}';
    SliceOfSlice(s, p, |t|, 1, 1 + |w|);
    CharAt(s, p, |t|, 0);
    CharAt(s, p, |t|, 1 + |w|);
  }

  lemma SpecsStand(s: string, p: nat, w: string, specs: string)
    requires p + |w| + |specs| + 3 <= |s| && s[p..p + |w| + |specs| + 3] == "{" + w + ":" + specs + "}"
    ensures IdStands(s, p, w, ':') && s[p + 2 + |w| + |specs|] == '}'
  {
    var t := "{" + w + ":" + specs + "}";
    assert t[0] == '{' && t[1..1 + |w|] == w && t[1 + |w|] == ':' && t[2 + |w| + |specs|] == '}';
    SliceOfSlice(s, p, |t|, 1, 1 + |w|);
    CharAt(s, p, |t|, 0);
    CharAt(s, p, |t|, 1 + |w|);
    CharAt(s, p, |t|, 2 + |w| + |specs|);
  }

  lemma SliceOfSlice(s: string, p: nat, n: nat, i: nat, j: nat)
    requires p + n <= |s| && i <= j <= n
    ensures s[p..p + n][i..j] == s[p + i..p + j]
  {
    var t := s[p..p + n];
    var a, b := t[i..j], s[p + i..p + j];
    forall k | 0 <= k < j - i ensures a[k] == b[k] {
      assert a[k] == t[i + k] && b[k] == s[p + i + k];
    }
    assert a == b;
  }

  /** The field at `p` asks for its argument. */
  lemma AsksAt(h: Handler, s: string, p: nat, t: Trace, id: WrittenId, c: char)
    requires GoodId(id) && EndsId(c) && IdStands(s, p, WrittenText(id), c)
    ensures var e, end := WrittenEvent(id), p + 1 + |WrittenText(id)|;
      Field(h, s, p, t) == AfterId(h, s, h.id(Visible(t.calls), e), end, Emit(h, t, e))
  {
    IdStandsAt(s, p, id, c);
  }

  lemma IdStandsAt(s: string, p: nat, id: WrittenId, c: char)
    requires GoodId(id) && EndsId(c) && IdStands(s, p, WrittenText(id), c)
    ensures IdAt(s, p + 1) == IdText(WrittenEvent(id), p + 1 + |WrittenText(id)|)
    ensures s[p + 1] != '{' && (s[p + 1] == '}' ==> id == Auto && c == '}')
  {
    var w := WrittenText(id);
    var rest := [c] + s[p + 2 + |w|..];
    Recomposed(s, p, w, c);
    IdReadsBack(s[..p] + "{", id, rest);
    FirstOfId(id, rest);
    FirstStands(s, p, w, rest);
  }

  lemma FirstStands(s: string, p: nat, w: string, rest: string)
    requires p + 1 < |s| && rest != [] && s == s[..p] + "{" + w + rest
    ensures s[p + 1] == (w + rest)[0]
  {
  }

  /** The calls of a field when nothing throws. */
  lemma TwoCalls(h: Handler, t: Trace, field: Placed)
    requires Calm(h) && !t.stopped && !field.piece.Literal?
    ensures var e := WrittenEvent(field.piece.id); var calls := FieldCalls(h, Visible(t.calls), field);
      var u := Emit(h, Emit(h, t, e), calls.last);
      !Emit(h, t, e).stopped && !u.stopped && Visible(u.calls) == calls
  {
    var e := WrittenEvent(field.piece.id);
    CalmEmit(h, t, e);
    CalmEmit(h, Emit(h, t, e), FieldCalls(h, Visible(t.calls), field).last);
  }

  /** What follows the id of a field that stands in the string. */
  lemma EndsAt(h: Handler, s: string, answer: int, end: nat, t: Trace, n: nat)
    requires end < |s|
    ensures s[end] == '}' ==> AfterId(h, s, answer, end, t) == Landing(Emit(h, t, Replace(answer, end)), end + 1)
    ensures s[end] == ':' && end + 1 + n < |s| && s[end + 1 + n] == '}' && h.specs(Visible(t.calls), Specs(answer, end + 1)) == n ==>
      AfterId(h, s, answer, end, t) == Landing(Emit(h, t, Specs(answer, end + 1)), end + 2 + n)
  {
  }

  /** A piece in its place in the string. */
  ghost predicate GoodPlaced(placed: Placed, pos: nat) {
    placed == PlaceOf(placed.piece, pos) && GoodPiece(placed.piece)
  }

  /** What follows the id at `end` leads to `next` and to `calls`. */
  ghost predicate LandsBehind(h: Handler, s: string, t: Trace, e: Event, end: nat, next: nat, calls: Calls) {
    && end <= |s|
    && var l := AfterId(h, s, h.id(Visible(t.calls), e), end, Emit(h, t, e));
       l.next == next && !l.trace.stopped && Visible(l.trace.calls) == calls
  }

  ghost predicate FieldLands(h: Handler, s: string, p: nat, t: Trace, next: nat, calls: Calls) {
    p < |s| && var l := Field(h, s, p, t); l.next == next && !l.trace.stopped && Visible(l.trace.calls) == calls
  }

  lemma AskedLands(h: Handler, s: string, p: nat, t: Trace, id: WrittenId, c: char, next: nat, calls: Calls)
    requires GoodId(id) && EndsId(c) && IdStands(s, p, WrittenText(id), c)
    requires LandsBehind(h, s, t, WrittenEvent(id), p + 1 + |WrittenText(id)|, next, calls)
    ensures FieldLands(h, s, p, t, next, calls)
  {
    AsksAt(h, s, p, t, id, c);
  }

  lemma BraceBehind(h: Handler, s: string, t: Trace, field: Placed)
    requires Calm(h) && !t.stopped && field.piece.Arg? && field.end < |s| && s[field.end] == '}'
    ensures LandsBehind(h, s, t, WrittenEvent(field.piece.id), field.end, field.end + 1, FieldCalls(h, Visible(t.calls), field))
  {
    var e := WrittenEvent(field.piece.id);
    TwoCalls(h, t, field);
    EndsAt(h, s, h.id(Visible(t.calls), e), field.end, Emit(h, t, e), 0);
  }

  lemma SpecsBehind(h: Handler, s: string, t: Trace, field: Placed, n: nat)
    requires Calm(h) && !t.stopped && field.piece.ArgWithSpecs? && SpecsAreRead(h, Visible(t.calls), field)
    requires n == |field.piece.specs| && field.end + 1 + n < |s| && s[field.end] == ':' && s[field.end + 1 + n] == '}'
    ensures LandsBehind(h, s, t, WrittenEvent(field.piece.id), field.end, field.end + 2 + n, FieldCalls(h, Visible(t.calls), field))
  {
    var e := WrittenEvent(field.piece.id);
    TwoCalls(h, t, field);
    EndsAt(h, s, h.id(Visible(t.calls), e), field.end, Emit(h, t, e), n);
  }

  lemma ArgMakesCalls(h: Handler, s: string, p: nat, t: Trace, field: Placed)
    requires Calm(h) && !t.stopped && field.piece.Arg? && GoodPlaced(field, p)
    requires p + |field.text| <= |s| && s[p..p + |field.text|] == field.text
    ensures FieldLands(h, s, p, t, p + |field.text|, FieldCalls(h, Visible(t.calls), field))
  {
    ArgStands(s, p, WrittenText(field.piece.id));
    BraceBehind(h, s, t, field);
    AskedLands(h, s, p, t, field.piece.id, '}', field.end + 1, FieldCalls(h, Visible(t.calls), field));
  }

  lemma SpecsMakeCalls(h: Handler, s: string, p: nat, t: Trace, field: Placed)
    requires Calm(h) && !t.stopped && field.piece.ArgWithSpecs? && GoodPlaced(field, p) && SpecsAreRead(h, Visible(t.calls), field)
    requires p + |field.text| <= |s| && s[p..p + |field.text|] == field.text
    ensures FieldLands(h, s, p, t, p + |field.text|, FieldCalls(h, Visible(t.calls), field))
  {
    SpecsStand(s, p, WrittenText(field.piece.id), field.piece.specs);
    SpecsBehind(h, s, t, field, |field.piece.specs|);
    AskedLands(h, s, p, t, field.piece.id, ':', p + |field.text|, FieldCalls(h, Visible(t.calls), field));
  }

  lemma FieldMakesCalls(h: Handler, s: string, p: nat, t: Trace, field: Placed)
    requires Calm(h) && !t.stopped && !field.piece.Literal? && GoodPlaced(field, p) && SpecsAreRead(h, Visible(t.calls), field)
    requires p + |field.text| <= |s| && s[p..p + |field.text|] == field.text
    ensures p < |s| && s[p] == '{'
    ensures FieldLands(h, s, p, t, p + |field.text|, FieldCalls(h, Visible(t.calls), field))
  {
    if field.piece.Arg? {
      ArgMakesCalls(h, s, p, t, field);
    } else {
      SpecsMakeCalls(h, s, p, t, field);
    }
    CharAt(s, p, |field.text|, 0);
  }

  // ---------------------------------------------------------------------------
  // Reading a written string
  // ---------------------------------------------------------------------------

  /** The loop gets from `p` to `q` making the calls of the pieces between, except for the
      text begun at `b'`. */
  ghost predicate Reads(run: Loop, h: Handler, s: string, b: nat, p: nat, t: Trace, pieces: seq<Placed>, q: nat, b': nat, t': Trace) {
    && b <= p <= |s| && b' <= q <= |s| && !t'.stopped
    && run(b, p, t) == run(b', q, t')
    && Tells(h, Visible(t.calls), Visible(t'.calls), s[b..p], pieces, s[b'..q])
  }

  lemma ReadsNothing(run: Loop, h: Handler, s: string, b: nat, p: nat, t: Trace)
    requires !t.stopped && b <= p <= |s|
    ensures Reads(run, h, s, b, p, t, [], p, b, t)
  {
    var text := s[b..p];
    assert text[..|text| - |text|] == "" && text[|text| - |text|..] == text;
  }

  lemma ReadsLiteral(run: Loop, h: Handler, s: string, b: nat, p: nat, t: Trace, literal: Placed, rest: seq<Placed>,
                     q1: nat, b1: nat, t1: Trace, q: nat, b': nat, t': Trace)
    requires literal.piece.Literal? && b <= p <= |s| && Passes(run, s, b, p, t, s[b..p] + literal.piece.text, q1, b1, t1)
    requires Reads(run, h, s, b1, q1, t1, rest, q, b', t')
    ensures Reads(run, h, s, b, p, t, [literal] + rest, q, b', t')
  {
    var all, left := s[b..p] + literal.piece.text, s[b1..q1];
    SplitTail(all, left);
    TellsEarlier(h, Visible(t.calls), Visible(t1.calls), Visible(t'.calls), all[..|all| - |left|], left, rest, s[b'..q]);
    assert ([literal] + rest)[1..] == rest;
  }

  lemma ReadsField(run: Loop, h: Handler, s: string, b: nat, p: nat, t: Trace, field: Placed, rest: seq<Placed>,
                   next: nat, t1: Trace, q: nat, b': nat, t': Trace)
    requires !field.piece.Literal? && b <= p <= |s| && next <= |s| && run(b, p, t) == run(next, next, t1)
    requires Visible(t1.calls) == FieldCalls(h, Visible(Then(t.calls, Text(s[b..p]))), field)
    requires Reads(run, h, s, next, next, t1, rest, q, b', t')
    ensures Reads(run, h, s, b, p, t, [field] + rest, q, b', t')
  {
    TextsOne(t.calls, s[b..p]);
    assert s[next..next] == "";
    assert ([field] + rest)[1..] == rest;
  }

  /** The loop has dealt with a piece that ends at `next`. */
  ghost predicate Dealt(run: Loop, h: Handler, s: string, b: nat, p: nat, t: Trace, placed: Placed, next: nat, b1: nat, t1: Trace) {
    && b <= p <= |s| && b1 <= next <= |s| && !t1.stopped
    && if placed.piece.Literal? then Passes(run, s, b, p, t, s[b..p] + placed.piece.text, next, b1, t1)
       else
         && b1 == next && run(b, p, t) == run(next, next, t1)
         && Visible(t1.calls) == FieldCalls(h, Visible(Then(t.calls, Text(s[b..p]))), placed)
  }

  lemma OnePieceReads(run: Loop, h: Handler, s: string, b: nat, p: nat, t: Trace, placed: Placed, rest: seq<Placed>,
                      next: nat, b1: nat, t1: Trace, q: nat, b': nat, t': Trace)
    requires Dealt(run, h, s, b, p, t, placed, next, b1, t1) && Reads(run, h, s, b1, next, t1, rest, q, b', t')
    ensures Reads(run, h, s, b, p, t, [placed] + rest, q, b', t')
  {
    if placed.piece.Literal? {
      ReadsLiteral(run, h, s, b, p, t, placed, rest, next, b1, t1, q, b', t');
    } else {
      ReadsField(run, h, s, b, p, t, placed, rest, next, t1, q, b', t');
    }
  }

  /** Whether a piece may stand at a place. */
  type Standing = (Placed, nat) -> bool

  /** The pieces' texts stand one behind the other from `p` to `q`. */
  ghost predicate Laid(good: Standing, s: string, p: nat, pieces: seq<Placed>, q: nat)
    decreases |pieces|
  {
    if pieces == [] then p == q <= |s|
    else Stands(good, s, p, pieces[0]) && Laid(good, s, p + |pieces[0].text|, pieces[1..], q)
  }

  ghost predicate Stands(good: Standing, s: string, p: nat, placed: Placed) {
    good(placed, p) && p + |placed.text| <= |s| && s[p..p + |placed.text|] == placed.text
  }

  /** Always true: names the piece that is to be dealt with. */
  ghost predicate Meets(b: nat, p: nat, t: Trace, placed: Placed) {
    true
  }

  ghost predicate CanDeal(run: Loop, h: Handler, s: string, b: nat, p: nat, t: Trace, placed: Placed, next: nat) {
    exists b1: nat, t1: Trace :: Dealt(run, h, s, b, p, t, placed, next, b1, t1)
  }

  /** The loop deals with every piece that may stand where it stands. */
  ghost predicate Deals(run: Loop, good: Standing, h: Handler, s: string) {
    forall b: nat, p: nat, t: Trace, placed: Placed {:trigger Meets(b, p, t, placed)} ::
      Meets(b, p, t, placed) && !t.stopped && b <= p && Stands(good, s, p, placed) && Answers(h, s, b, p, t, placed) ==>
        CanDeal(run, h, s, b, p, t, placed, p + |placed.text|)
  }

  /** Once the text begun at `b` is passed, the handler reads the specs of the field at `p`. */
  ghost predicate Answers(h: Handler, s: string, b: nat, p: nat, t: Trace, placed: Placed) {
    b <= p <= |s| && SpecsAreRead(h, Visible(Then(t.calls, Text(s[b..p]))), placed)
  }

  /** Going on behind a piece that was dealt with. */
  lemma ReadsSpecsOn(run: Loop, h: Handler, s: string, b: nat, p: nat, t: Trace, pieces: seq<Placed>, next: nat, b1: nat, t1: Trace)
    requires pieces != [] && Dealt(run, h, s, b, p, t, pieces[0], next, b1, t1) && ReadsSpecs(h, Visible(t.calls), s[b..p], pieces)
    ensures ReadsSpecs(h, Visible(t1.calls), s[b1..next], pieces[1..])
  {
    if pieces[0].piece.Literal? {
      var all, left := s[b..p] + pieces[0].piece.text, s[b1..next];
      SplitTail(all, left);
      ReadsSpecsLater(h, Visible(t.calls), Visible(t1.calls), all[..|all| - |left|], left, pieces[1..]);
    } else {
      TextsOne(t.calls, s[b..p]);
      assert s[next..next] == "";
    }
  }

  lemma AnswersNow(h: Handler, s: string, b: nat, p: nat, t: Trace, pieces: seq<Placed>)
    requires pieces != [] && b <= p <= |s| && ReadsSpecs(h, Visible(t.calls), s[b..p], pieces)
    ensures Answers(h, s, b, p, t, pieces[0])
  {
    TextsOne(t.calls, s[b..p]);
  }

  /** Whatever is laid out in the string is read as it was written. */
  lemma {:induction false} PiecesAreRead(run: Loop, good: Standing, h: Handler, s: string, b: nat, p: nat, t: Trace, pieces: seq<Placed>, q: nat)
    returns (b': nat, t': Trace)
    requires Deals(run, good, h, s) && !t.stopped && b <= p <= |s| && Laid(good, s, p, pieces, q)
    requires ReadsSpecs(h, Visible(t.calls), s[b..p], pieces)
    ensures Reads(run, h, s, b, p, t, pieces, q, b', t')
    decreases |pieces|
  {
    if pieces == [] {
      b', t' := b, t;
      ReadsNothing(run, h, s, b, p, t);
    } else {
      var next := p + |pieces[0].text|;
      assert Meets(b, p, t, pieces[0]);
      AnswersNow(h, s, b, p, t, pieces);
      assert CanDeal(run, h, s, b, p, t, pieces[0], next);
      var b1: nat, t1: Trace :| Dealt(run, h, s, b, p, t, pieces[0], next, b1, t1);
      ReadsSpecsOn(run, h, s, b, p, t, pieces, next, b1, t1);
      b', t' := PiecesAreRead(run, good, h, s, b1, next, t1, pieces[1..], q);
      OnePieceReads(run, h, s, b, p, t, pieces[0], pieces[1..], next, b1, t1, q, b', t');
      assert pieces == [pieces[0]] + pieces[1..];
    }
  }
}
