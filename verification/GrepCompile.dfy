/** The pattern compiler of bin/grep.c: `compile`. */
module GrepCompile {
  import opened GrepMatch

  const ESIZE: nat := 256

  const STAR: nat := 42
  const DOLLAR: nat := 36
  const OPENP: nat := 40
  const CLOSEP: nat := 41
  const DASH: nat := 45
  const DOT: nat := 46
  const DIGIT1: nat := 49
  const DIGIT9: nat := 57
  const OPENB: nat := 91
  const BACKSLASH: nat := 92
  const CLOSEB: nat := 93
  const CARET: nat := 94

  /** The compiled items, "RE error", or a pattern outside this model: a trailing backslash,
      a bracket that is not closed behind a dash, or a repeated back-reference. */
  datatype Compiled = Ok(items: seq<Item>) | Error | Outside

  /** The variables of `compile`: the items so far, which of them a `*` repeats (-1 for none),
      the numbers of open groups, how many groups are closed, how many are open or closed, and
      the bytes used. */
  datatype State = State(items: seq<Item>, last: int, stack: seq<nat>, closed: nat, numbra: nat, size: nat)

  // ---------------------------------------------------------------- bracket expressions

  /** What a bracket expression leaves: its characters and the pattern behind it. */
  datatype ClassEnd = Members(members: set<nat>, rest: seq<nat>) | NoEnd | Beyond

  /** From `lo` up to `hi`; `lo` alone if `hi` is below it. */
  function Span(lo: nat, hi: nat): set<nat>
  {
    if hi <= lo then {lo} else Span(lo, hi - 1) + {hi}
  }

  /** The loop over a bracket expression: character `c` was just read, `a` is behind it, and
      `prev` stands before it unless it is the first. */
  function ReadClass(a: seq<nat>, c: nat, prev: int, members: set<nat>): ClassEnd
    requires prev >= -1
    decreases |a|
  {
    if c == NUL then NoEnd
    else if a == [] then Beyond
    else if c == DASH && prev >= 0 && a[0] != CLOSEB then
      if |a| < 2 then Beyond
      else if a[1] == CLOSEB then Members(members + Span(prev, a[0]), a[2..])
      else ReadClass(a[2..], a[1], a[0], members + Span(prev, a[0]))
    else if a[0] == CLOSEB then Members(members + {c}, a[1..])
    else ReadClass(a[1..], a[0], c, members + {c})
  }

  function Complement(members: set<nat>): set<nat>
  {
    set c | 0 < c < 128 && c !in members
  }

  // ---------------------------------------------------------------- the pattern, from left to right

  function Put(s: State, item: Item, bytes: nat): State
  {
    s.(items := s.items + [item], last := |s.items|, size := s.size + bytes)
  }

  /** A literal `*` is not itself something a later `*` could repeat. */
  function PutStar(s: State): State
  {
    s.(items := s.items + [One(Chr(STAR))], size := s.size + 2)
  }

  predicate Repeatable(s: State)
  {
    0 <= s.last < |s.items| && !s.items[s.last].Bra? && !s.items[s.last].Ket?
  }

  /** What becomes of the pattern `a`, from state `s` on. */
  function Rest(s: State, a: seq<nat>): Compiled
    decreases |a|
  {
    if s.size >= ESIZE then Error
    else if a == [] then Outside
    else
      var c := a[0];
      if c == NUL then Ok(s.items)
      else if c == DOT then Rest(Put(s, One(Dot), 1), a[1..])
      else if c == STAR then
        if !Repeatable(s) then Rest(PutStar(s), a[1..])
        else if s.items[s.last].Back? || s.items[s.last].Dol? then Outside
        else Rest(s.(items := s.items[s.last := Many(s.items[s.last].x)]), a[1..])
      else if c == DOLLAR && |a| > 1 && a[1] == NUL then Rest(Put(s, Dol, 1), a[1..])
      else if c == OPENB then ClassRest(s, a[1..])
      else if c == BACKSLASH then EscapeRest(s, a[1..])
      else Rest(Put(s, One(Chr(c)), 2), a[1..])
  }

  function ClassRest(s: State, a: seq<nat>): Compiled
    decreases |a|
  {
    if s.size + 17 >= ESIZE then Error
    else if a == [] || (a[0] == CARET && |a| == 1) then Outside
    else
      var neg := a[0] == CARET;
      var b := if neg then a[1..] else a;
      var e := ReadClass(b[1..], b[0], -1, {});
      match e
      case NoEnd => Error
      case Beyond => Outside
      case Members(m, rest) =>
        if |rest| >= |a| then Outside
        else Rest(Put(s, One(Ccl(if neg then Complement(m) else m)), 17), rest)
  }

  function EscapeRest(s: State, a: seq<nat>): Compiled
    decreases |a|
  {
    if a == [] || a[0] == NUL then Outside
    else
      var c := a[0];
      if c == OPENP then
        if s.numbra >= NBRA then Error
        else Rest(Put(s, Bra(s.numbra), 2).(stack := s.stack + [s.numbra], numbra := s.numbra + 1), a[1..])
      else if c == CLOSEP then
        if s.stack == [] then Error
        else Rest(Put(s, Ket(s.stack[|s.stack| - 1]), 2).(stack := s.stack[..|s.stack| - 1], closed := s.closed + 1), a[1..])
      else if DIGIT1 <= c <= DIGIT9 then
        if c - DIGIT1 >= s.closed then Error
        else Rest(Put(s, Back(c - DIGIT1), 2), a[1..])
      else Rest(Put(s, One(Chr(c)), 2), a[1..])
  }

  const START: State := State([], -1, [], 0, 0, 0)

  /** The whole pattern, with its `^` taken off. */
  function CompileFrom(s: State, a: seq<nat>): Compiled
  {
    if a != [] && a[0] == CARET then Rest(s, a[1..]) else Rest(s, a)
  }

  // ---------------------------------------------------------------- patterns as written

  datatype Elem = Ch(c: nat) | Range(lo: nat, hi: nat)

  /** A pattern in pieces, as the manual describes them. */
  datatype Piece =
    | Lit(c: nat, star: bool)
    | Any(star: bool)
    | Class(neg: bool, elems: seq<Elem>, star: bool)
    | Open
    | Close
    | Ref(n: nat)

  /** The characters an element stands for. */
  function ElemSet(e: Elem): set<nat>
  {
    if e.Ch? then {e.c} else Span(e.lo, e.hi)
  }

  function Meaning(elems: seq<Elem>): set<nat>
  {
    if elems == [] then {}
    else ElemSet(elems[0]) + Meaning(elems[1..])
  }

  function SpellElem(e: Elem): seq<nat>
  {
    if e.Ch? then [e.c] else [e.lo, DASH, e.hi]
  }

  function SpellElems(elems: seq<Elem>): seq<nat>
  {
    if elems == [] then [] else SpellElem(elems[0]) + SpellElems(elems[1..])
  }

  predicate Special(c: nat)
  {
    c == DOT || c == STAR || c == DOLLAR || c == OPENB || c == BACKSLASH || c == CARET
  }

  function StarIf(star: bool): seq<nat>
  {
    if star then [STAR] else []
  }

  function SpellPiece(p: Piece): seq<nat>
  {
    match p
    case Lit(c, star) => (if Special(c) then [BACKSLASH, c] else [c]) + StarIf(star)
    case Any(star) => [DOT] + StarIf(star)
    case Class(neg, elems, star) =>
      [OPENB] + (if neg then [CARET] else []) + SpellElems(elems) + [CLOSEB] + StarIf(star)
    case Open => [BACKSLASH, OPENP]
    case Close => [BACKSLASH, CLOSEP]
    case Ref(n) => [BACKSLASH, DIGIT1 + n]
  }

  function Spell(ps: seq<Piece>): seq<nat>
  {
    if ps == [] then [] else SpellPiece(ps[0]) + Spell(ps[1..])
  }

  function Repeat(x: Single, star: bool): Item
  {
    if star then Many(x) else One(x)
  }

  function ItemOf(p: Piece, stack: seq<nat>, numbra: nat): Item
    requires p.Close? ==> stack != []
  {
    match p
    case Lit(c, star) => Repeat(Chr(c), star)
    case Any(star) => Repeat(Dot, star)
    case Class(neg, elems, star) => Repeat(Ccl(if neg then Complement(Meaning(elems)) else Meaning(elems)), star)
    case Open => Bra(numbra)
    case Close => Ket(stack[|stack| - 1])
    case Ref(n) => Back(n)
  }

  function Bytes(p: Piece): nat
  {
    match p
    case Any(_) => 1
    case Class(_, _, _) => 17
    case _ => 2
  }

  /** A character of a bracket expression; one in front may be anything but a caret. */
  ghost predicate ElemOk(e: Elem, first: bool)
  {
    match e
    case Ch(c) => c != NUL && (first || (c != CLOSEB && c != DASH))
    case Range(lo, hi) => lo != NUL && lo != CLOSEB && lo != DASH && hi != NUL && hi != CLOSEB
  }

  ghost predicate ElemsOk(elems: seq<Elem>, first: bool)
  {
    elems != [] ==> ElemOk(elems[0], first) && ElemsOk(elems[1..], false)
  }

  /** The pieces make a pattern: groups are closed in turn, at most nine, and references
      are to fewer groups than are closed. */
  ghost predicate Legal(ps: seq<Piece>, stack: seq<nat>, closed: nat, numbra: nat)
  {
    ps != [] ==>
      match ps[0]
      case Lit(c, _) => c != NUL && Legal(ps[1..], stack, closed, numbra)
      case Any(_) => Legal(ps[1..], stack, closed, numbra)
      case Class(neg, elems, _) =>
        && elems != [] && ElemsOk(elems, true) && SpellElem(elems[0])[0] != CARET
        && Legal(ps[1..], stack, closed, numbra)
      case Open => numbra < NBRA && Legal(ps[1..], stack + [numbra], closed, numbra + 1)
      case Close => stack != [] && Legal(ps[1..], stack[..|stack| - 1], closed + 1, numbra)
      case Ref(n) => n < closed && n < NBRA && Legal(ps[1..], stack, closed, numbra)
  }

  /** The open groups behind a piece. */
  function StackAfter(p: Piece, stack: seq<nat>, numbra: nat): seq<nat>
    requires p.Close? ==> stack != []
  {
    if p.Open? then stack + [numbra] else if p.Close? then stack[..|stack| - 1] else stack
  }

  function AllBytes(ps: seq<Piece>): nat
  {
    if ps == [] then 0 else Bytes(ps[0]) + AllBytes(ps[1..])
  }

  /** The items of the pieces, behind those in front of them. */
  function ItemsFrom(front: seq<Item>, ps: seq<Piece>, stack: seq<nat>, numbra: nat): seq<Item>
    decreases |ps|
  {
    if ps == [] || (ps[0].Close? && stack == []) then front
    else
      ItemsFrom(front + [ItemOf(ps[0], stack, numbra)], ps[1..], StackAfter(ps[0], stack, numbra),
                if ps[0].Open? then numbra + 1 else numbra)
  }

  function ItemsOf(ps: seq<Piece>): seq<Item>
  {
    ItemsFrom([], ps, [], 0)
  }

  // ---------------------------------------------------------------- reading what was written

  lemma ElemSpelt(elems: seq<Elem>, tail: seq<nat>)
    requires elems != []
    ensures var e, rest := elems[0], SpellElems(elems[1..]) + [CLOSEB] + tail;
            && SpellElems(elems)[0] == (if e.Ch? then e.c else e.lo)
            && (SpellElems(elems) + [CLOSEB] + tail)[1..] == if e.Ch? then rest else [DASH, e.hi] + rest
  {
  }

  /** What is behind an element: the end, or the next one. */
  lemma RestSpelt(more: seq<Elem>, tail: seq<nat>)
    requires ElemsOk(more, false)
    ensures var rest := SpellElems(more) + [CLOSEB] + tail;
            if more == [] then rest == [CLOSEB] + tail && rest[1..] == tail else rest[0] == SpellElems(more)[0] != CLOSEB
  {
    if more == [] {
      assert SpellElems(more) + [CLOSEB] + tail == [CLOSEB] + tail;
    }
  }

  lemma ReadElem(e: Elem, prev: int, members: set<nat>, rest: seq<nat>)
    requires prev >= -1 && ElemOk(e, prev == -1) && rest != []
    ensures ReadClass(if e.Ch? then rest else [DASH, e.hi] + rest, if e.Ch? then e.c else e.lo, prev, members)
            == if rest[0] == CLOSEB then Members(members + ElemSet(e), rest[1..])
               else ReadClass(rest[1..], rest[0], if e.Ch? then e.c else e.hi, members + ElemSet(e))
  {
    if e.Ch? {
      ReadChar(e.c, prev, members, rest);
    } else {
      ReadRange(e.lo, e.hi, prev, members, rest);
      SpanHasEnds(e.lo, e.hi);
      assert members + {e.lo} + Span(e.lo, e.hi) == members + Span(e.lo, e.hi);
    }
  }

  lemma MeaningStep(elems: seq<Elem>, members: set<nat>)
    requires elems != []
    ensures members + ElemSet(elems[0]) + Meaning(elems[1..]) == members + Meaning(elems)
  {
  }

  lemma {:induction false} ReadElems(elems: seq<Elem>, prev: int, members: set<nat>, tail: seq<nat>)
    requires elems != [] && prev >= -1 && ElemsOk(elems, prev == -1)
    ensures ReadClass((SpellElems(elems) + [CLOSEB] + tail)[1..], SpellElems(elems)[0], prev, members)
            == Members(members + Meaning(elems), tail)
    decreases |elems|
  {
    var e, more := elems[0], elems[1..];
    ElemSpelt(elems, tail);
    RestSpelt(more, tail);
    ReadElem(e, prev, members, SpellElems(more) + [CLOSEB] + tail);
    MeaningStep(elems, members);
    if more == [] {
      assert members + ElemSet(e) + Meaning(more) == members + ElemSet(e);
    } else {
      ReadElems(more, if e.Ch? then e.c else e.hi, members + ElemSet(e), tail);
    }
  }

  lemma ReadChar(c: nat, prev: int, members: set<nat>, rest: seq<nat>)
    requires prev >= -1 && c != NUL && (prev == -1 || c != DASH) && rest != []
    ensures ReadClass(rest, c, prev, members)
            == if rest[0] == CLOSEB then Members(members + {c}, rest[1..])
               else ReadClass(rest[1..], rest[0], c, members + {c})
  {
  }

  lemma {:induction false} SpanHasEnds(lo: nat, hi: nat)
    ensures lo in Span(lo, hi)
  {
    if lo < hi {
      SpanHasEnds(lo, hi - 1);
    }
  }

  lemma ReadRange(lo: nat, hi: nat, prev: int, members: set<nat>, rest: seq<nat>)
    requires prev >= -1 && lo != NUL && lo != DASH && hi != CLOSEB && rest != []
    ensures var span := members + {lo} + Span(lo, hi);
            ReadClass([DASH, hi] + rest, lo, prev, members)
            == if rest[0] == CLOSEB then Members(span, rest[1..]) else ReadClass(rest[1..], rest[0], hi, span)
  {
    var a := [DASH, hi] + rest;
    assert a[1..] == [hi] + rest;
    assert ([hi] + rest)[2..] == rest[1..];
  }

  /** The state behind one piece. */
  function StateAfter(s: State, p: Piece): State
    requires p.Close? ==> s.stack != []
  {
    Put(s, ItemOf(p, s.stack, s.numbra), Bytes(p)).(
      stack := StackAfter(p, s.stack, s.numbra),
      numbra := if p.Open? then s.numbra + 1 else s.numbra,
      closed := if p.Close? then s.closed + 1 else s.closed)
  }

  /** A star behind a single character, and none if the pattern goes on otherwise. */
  lemma ReadStar(s: State, x: Single, bytes: nat, star: bool, tail: seq<nat>)
    requires s.size + bytes < ESIZE
    ensures Rest(Put(s, One(x), bytes), StarIf(star) + tail) == Rest(Put(s, Repeat(x, star), bytes), tail)
  {
    var s' := Put(s, One(x), bytes);
    if star {
      assert (StarIf(star) + tail)[1..] == tail;
      assert s'.items[|s.items| := Many(x)] == s.items + [Many(x)];
    } else {
      assert StarIf(star) + tail == tail;
    }
  }

  lemma ReadLit(s: State, c: nat, star: bool, tail: seq<nat>)
    requires c != NUL && s.size + 2 < ESIZE
    ensures Rest(s, SpellPiece(Lit(c, star)) + tail) == Rest(StateAfter(s, Lit(c, star)), tail)
  {
    var more := StarIf(star) + tail;
    var front := if Special(c) then [BACKSLASH, c] else [c];
    AppendAssoc(front, StarIf(star), tail);
    ReadEscape(c, more);
    assert front + more == if Special(c) then [BACKSLASH, c] + more else [c] + more;
    ReadStar(s, Chr(c), 2, star, tail);
  }

  lemma AppendAssoc(a: seq<nat>, b: seq<nat>, c: seq<nat>)
    ensures a + b + c == a + (b + c)
  {
  }

  lemma ClassSpelt(neg: bool, elems: seq<Elem>, star: bool, tail: seq<nat>)
    ensures SpellPiece(Class(neg, elems, star)) + tail
            == [OPENB] + ((if neg then [CARET] else []) + (SpellElems(elems) + [CLOSEB] + (StarIf(star) + tail)))
  {
    Regroup([OPENB], if neg then [CARET] else [], SpellElems(elems), [CLOSEB], StarIf(star), tail);
  }

  lemma Regroup(u: seq<nat>, v: seq<nat>, w: seq<nat>, x: seq<nat>, y: seq<nat>, z: seq<nat>)
    ensures u + v + w + x + y + z == u + (v + (w + x + (y + z)))
  {
  }

  lemma ClassRead(s: State, neg: bool, b: seq<nat>, m: set<nat>, more: seq<nat>)
    requires b != [] && b[0] != CARET && |more| < |b| && s.size + 17 < ESIZE
    requires ReadClass(b[1..], b[0], -1, {}) == Members(m, more)
    ensures Rest(s, [OPENB] + ((if neg then [CARET] else []) + b))
            == Rest(Put(s, One(Ccl(if neg then Complement(m) else m)), 17), more)
  {
    var a := (if neg then [CARET] else []) + b;
    assert ([OPENB] + a)[1..] == a;
    assert (if neg then a[1..] else a) == b;
  }

  lemma ReadClassPiece(s: State, neg: bool, elems: seq<Elem>, star: bool, tail: seq<nat>)
    requires elems != [] && ElemsOk(elems, true) && SpellElem(elems[0])[0] != CARET && s.size + 17 < ESIZE
    ensures Rest(s, SpellPiece(Class(neg, elems, star)) + tail) == Rest(StateAfter(s, Class(neg, elems, star)), tail)
  {
    var more, none: set<nat> := StarIf(star) + tail, {};
    var b := SpellElems(elems) + [CLOSEB] + more;
    var m := Meaning(elems);
    assert b[0] == SpellElems(elems)[0] == SpellElem(elems[0])[0];
    ReadElems(elems, -1, none, more);
    assert none + m == m;
    ClassSpelt(neg, elems, star, tail);
    ClassRead(s, neg, b, m, more);
    ReadStar(s, Ccl(if neg then Complement(m) else m), 17, star, tail);
  }

  lemma ReadAny(s: State, star: bool, tail: seq<nat>)
    requires s.size + 1 < ESIZE
    ensures Rest(s, SpellPiece(Any(star)) + tail) == Rest(StateAfter(s, Any(star)), tail)
  {
    AppendAssoc([DOT], StarIf(star), tail);
    ReadEscape(DOT, StarIf(star) + tail);
    ReadStar(s, Dot, 1, star, tail);
  }

  lemma ReadPiece(s: State, p: Piece, ps: seq<Piece>, tail: seq<nat>)
    requires Legal([p] + ps, s.stack, s.closed, s.numbra) && s.size + Bytes(p) < ESIZE
    ensures p.Close? ==> s.stack != []
    ensures Rest(s, SpellPiece(p) + tail) == Rest(StateAfter(s, p), tail)
    ensures var s' := StateAfter(s, p); Legal(ps, s'.stack, s'.closed, s'.numbra)
  {
    assert ([p] + ps)[1..] == ps;
    match p
    case Lit(c, star) =>
      ReadLit(s, c, star, tail);
    case Any(star) =>
      ReadAny(s, star, tail);
    case Class(neg, elems, star) =>
      ReadClassPiece(s, neg, elems, star, tail);
    case Open =>
      ReadEscape(OPENP, tail);
    case Close =>
      ReadEscape(CLOSEP, tail);
    case Ref(n) =>
      ReadEscape(DIGIT1 + n, tail);
  }

  lemma ReadEscape(c: nat, tail: seq<nat>)
    ensures ([BACKSLASH, c] + tail)[1..] == [c] + tail && ([c] + tail)[1..] == tail
  {
  }

  function DollarIf(dol: bool): seq<nat>
  {
    if dol then [DOLLAR, NUL] else [NUL]
  }

  function DolIf(dol: bool): seq<Item>
  {
    if dol then [Dol] else []
  }

  lemma SpeltStep(ps: seq<Piece>, end: seq<nat>)
    requires ps != []
    ensures ps == [ps[0]] + ps[1..]
    ensures Spell(ps) + end == SpellPiece(ps[0]) + (Spell(ps[1..]) + end)
  {
  }

  /** A pattern that fits is compiled to the items its pieces stand for. */
  lemma {:induction false} CompileSpelt(s: State, ps: seq<Piece>, dol: bool)
    requires Legal(ps, s.stack, s.closed, s.numbra) && s.size + AllBytes(ps) + (if dol then 1 else 0) < ESIZE
    ensures Rest(s, Spell(ps) + DollarIf(dol)) == Ok(ItemsFrom(s.items, ps, s.stack, s.numbra) + DolIf(dol))
    decreases |ps|
  {
    if ps == [] {
      assert Spell(ps) + DollarIf(dol) == DollarIf(dol);
      EndSpelt(s, dol);
    } else {
      SpeltStep(ps, DollarIf(dol));
      ReadPiece(s, ps[0], ps[1..], Spell(ps[1..]) + DollarIf(dol));
      CompileSpelt(StateAfter(s, ps[0]), ps[1..], dol);
    }
  }

  lemma EndSpelt(s: State, dol: bool)
    requires s.size + (if dol then 1 else 0) < ESIZE
    ensures Rest(s, DollarIf(dol)) == Ok(s.items + DolIf(dol))
  {
    if dol {
      assert DollarIf(dol)[1..] == [NUL];
    }
  }

  lemma EscapeTooLong(s: State, c: nat, tail: seq<nat>)
    requires s.size < ESIZE <= s.size + 2 && c != NUL
    ensures Rest(s, [BACKSLASH, c] + tail) == Error
  {
    ReadEscape(c, tail);
    forall full: State | full.size >= ESIZE ensures Rest(full, tail) == Error {
    }
    assert Rest(s, [BACKSLASH, c] + tail) == EscapeRest(s, [c] + tail);
  }

  lemma CharTooLong(s: State, c: nat, bytes: nat, tail: seq<nat>)
    requires s.size < ESIZE <= s.size + bytes
    requires if bytes == 1 then c == DOT else bytes == 2 && c != NUL && !Special(c)
    ensures Rest(s, [c] + tail) == Error
  {
    assert ([c] + tail)[1..] == tail;
  }

  lemma ClassTooLong(s: State, a: seq<nat>)
    requires s.size < ESIZE <= s.size + 17
    ensures Rest(s, [OPENB] + a) == Error
  {
    assert ([OPENB] + a)[1..] == a;
  }

  /** A piece that does not fit ends in "RE error". */
  lemma PieceTooLong(s: State, p: Piece, tail: seq<nat>)
    requires s.size < ESIZE <= s.size + Bytes(p) && (p.Lit? ==> p.c != NUL)
    ensures Rest(s, SpellPiece(p) + tail) == Error
  {
    match p
    case Lit(c, star) =>
      AppendAssoc(if Special(c) then [BACKSLASH, c] else [c], StarIf(star), tail);
      if Special(c) {
        EscapeTooLong(s, c, StarIf(star) + tail);
      } else {
        CharTooLong(s, c, 2, StarIf(star) + tail);
      }
    case Any(star) =>
      AppendAssoc([DOT], StarIf(star), tail);
      CharTooLong(s, DOT, 1, StarIf(star) + tail);
    case Class(neg, elems, star) =>
      ClassSpelt(neg, elems, star, tail);
      ClassTooLong(s, (if neg then [CARET] else []) + (SpellElems(elems) + [CLOSEB] + (StarIf(star) + tail)));
    case Open =>
      EscapeTooLong(s, OPENP, tail);
    case Close =>
      EscapeTooLong(s, CLOSEP, tail);
    case Ref(n) =>
      EscapeTooLong(s, DIGIT1 + n, tail);
  }

  /** And so does a pattern that does not fit. */
  lemma {:induction false} TooLong(s: State, ps: seq<Piece>, dol: bool)
    requires Legal(ps, s.stack, s.closed, s.numbra) && s.size + AllBytes(ps) + (if dol then 1 else 0) >= ESIZE
    ensures Rest(s, Spell(ps) + DollarIf(dol)) == Error
    decreases |ps|
  {
    if s.size < ESIZE {
      if ps == [] {
        assert Spell(ps) + DollarIf(dol) == DollarIf(dol);
        assert DollarIf(dol)[1..] == [NUL];
      } else {
        SpeltStep(ps, DollarIf(dol));
        var tail := Spell(ps[1..]) + DollarIf(dol);
        if s.size + Bytes(ps[0]) < ESIZE {
          ReadPiece(s, ps[0], ps[1..], tail);
          TooLong(StateAfter(s, ps[0]), ps[1..], dol);
        } else {
          PieceTooLong(s, ps[0], tail);
        }
      }
    }
  }

  /** The same for a whole pattern, with or without `^` in front and `$` behind. */
  lemma CompileSpeltWhole(s: State, caret: bool, ps: seq<Piece>, dol: bool)
    requires s == START && Legal(ps, [], 0, 0)
    ensures CompileFrom(s, (if caret then [CARET] else []) + (Spell(ps) + DollarIf(dol)))
            == if AllBytes(ps) + (if dol then 1 else 0) < ESIZE then Ok(ItemsOf(ps) + DolIf(dol)) else Error
  {
    var a := Spell(ps) + DollarIf(dol);
    if AllBytes(ps) + (if dol then 1 else 0) < ESIZE {
      CompileSpelt(s, ps, dol);
    } else {
      TooLong(s, ps, dol);
    }
    if caret {
      assert ([CARET] + a)[1..] == a;
    } else {
      assert [] + a == a;
      assert ps != [] ==> a[0] == SpellPiece(ps[0])[0] != CARET;
    }
  }

  // ---------------------------------------------------------------- every pattern compiled

  /** Item `i` is sound by itself: it fits no NUL, and groups have numbers below `numbra`. */
  ghost predicate ItemSound(items: seq<Item>, numbra: nat, i: nat)
  {
    i < |items| ==>
      match items[i]
      case One(x) => SingleOk(x)
      case Many(x) => SingleOk(x)
      case Dol => true
      case Bra(n) => n < numbra
      case Ket(n) => n < numbra && OpenedBefore(items, n, i)
      case Back(n) => n < numbra && OpenedBefore(items, n, i)
  }

  ghost predicate IsBra(items: seq<Item>, n: nat, i: nat, b: nat)
  {
    b < i && b < |items| && items[b] == Bra(n)
  }

  ghost predicate OpenedBefore(items: seq<Item>, n: nat, i: nat)
  {
    exists b: nat :: IsBra(items, n, i, b)
  }

  ghost predicate NotClosedBy(items: seq<Item>, n: nat, e: nat)
  {
    e < |items| ==> items[e] != Ket(n)
  }

  /** Every number given out was used to open a group. */
  ghost predicate NumberUsed(items: seq<Item>, numbra: nat, n: nat)
  {
    n < numbra ==> OpenedBefore(items, n, |items|)
  }

  /** An open group has no end yet, and the numbers of open groups rise. */
  ghost predicate StackAt(items: seq<Item>, stack: seq<nat>, numbra: nat, i: nat, e: nat)
  {
    i < |stack| ==> stack[i] < numbra && NotClosedBy(items, stack[i], e) && (i < e < |stack| ==> stack[i] < stack[e])
  }

  /** The items up to here are in order, but for references to groups that are still open. */
  ghost predicate Sound(items: seq<Item>, numbra: nat)
  {
    && numbra <= NBRA
    && (forall i: nat :: ItemSound(items, numbra, i))
    && (forall i: nat, j: nat :: OnceOnly(items, i, j))
  }

  ghost predicate StateOk(s: State)
  {
    && Sound(s.items, s.numbra) && s.last < |s.items| && s.closed + |s.stack| == s.numbra
    && (forall n: nat :: NumberUsed(s.items, s.numbra, n))
    && (forall i: nat, e: nat :: StackAt(s.items, s.stack, s.numbra, i, e))
  }

  lemma OpenedStays(items: seq<Item>, items': seq<Item>, n: nat, i: nat)
    requires OpenedBefore(items, n, i) && |items| <= |items'|
    requires forall b: nat | b < |items| && items[b].Bra? :: items'[b] == items[b]
    ensures OpenedBefore(items', n, i)
  {
    var b: nat :| IsBra(items, n, i, b);
    assert IsBra(items', n, i, b);
  }

  lemma OpenedLater(items: seq<Item>, n: nat, i: nat, j: nat)
    requires OpenedBefore(items, n, i) && i <= j
    ensures OpenedBefore(items, n, j)
  {
    var b: nat :| IsBra(items, n, i, b);
    assert IsBra(items, n, j, b);
  }

  /** Appending an item that opens or closes no group for a second time. */
  lemma SoundMore(items: seq<Item>, numbra: nat, numbra': nat, item: Item)
    requires Sound(items, numbra) && numbra <= numbra' <= NBRA
    requires ItemSound(items + [item], numbra', |items|)
    requires forall i: nat | i < |items| && (items[i].Bra? || items[i].Ket?) :: items[i] != item
    ensures Sound(items + [item], numbra')
  {
    var items' := items + [item];
    forall i: nat ensures ItemSound(items', numbra', i) {
      assert ItemSound(items, numbra, i);
      if i < |items| && (items[i].Ket? || items[i].Back?) {
        OpenedStays(items, items', items[i].n, i);
      }
    }
    forall i: nat, j: nat ensures OnceOnly(items', i, j) {
      assert OnceOnly(items, i, j);
    }
  }

  lemma NumbersKept(items: seq<Item>, numbra: nat, items': seq<Item>)
    requires (forall n: nat :: NumberUsed(items, numbra, n)) && |items| <= |items'|
    requires forall b: nat | b < |items| && items[b].Bra? :: items'[b] == items[b]
    ensures forall n: nat :: NumberUsed(items', numbra, n)
  {
    forall n: nat ensures NumberUsed(items', numbra, n) {
      assert NumberUsed(items, numbra, n);
      if n < numbra {
        OpenedStays(items, items', n, |items|);
        OpenedLater(items', n, |items|, |items'|);
      }
    }
  }

  lemma PlainKeeps(s: State, item: Item, last: int, bytes: nat)
    requires StateOk(s) && !item.Bra? && !item.Ket? && last <= |s.items|
    requires ItemSound(s.items + [item], s.numbra, |s.items|)
    ensures StateOk(s.(items := s.items + [item], last := last, size := s.size + bytes))
  {
    var items' := s.items + [item];
    SoundMore(s.items, s.numbra, s.numbra, item);
    NumbersKept(s.items, s.numbra, items');
    forall i: nat, e: nat ensures StackAt(items', s.stack, s.numbra, i, e) {
      assert StackAt(s.items, s.stack, s.numbra, i, e);
    }
  }

  lemma StarKeeps(s: State)
    requires StateOk(s) && 0 <= s.last < |s.items| && s.items[s.last].One?
    ensures StateOk(s.(items := s.items[s.last := Many(s.items[s.last].x)]))
  {
    var items' := s.items[s.last := Many(s.items[s.last].x)];
    forall i: nat ensures ItemSound(items', s.numbra, i) {
      assert ItemSound(s.items, s.numbra, i);
      if i < |s.items| && (s.items[i].Ket? || s.items[i].Back?) {
        OpenedStays(s.items, items', s.items[i].n, i);
      }
    }
    forall i: nat, j: nat ensures OnceOnly(items', i, j) {
      assert OnceOnly(s.items, i, j);
    }
    NumbersKept(s.items, s.numbra, items');
    forall i: nat, e: nat ensures StackAt(items', s.stack, s.numbra, i, e) {
      assert StackAt(s.items, s.stack, s.numbra, i, e);
    }
  }

  lemma OpenKeeps(s: State)
    requires StateOk(s) && s.numbra < NBRA
    ensures StateOk(Put(s, Bra(s.numbra), 2).(stack := s.stack + [s.numbra], numbra := s.numbra + 1))
  {
    var item, items', more := Bra(s.numbra), s.items + [Bra(s.numbra)], s.numbra + 1;
    forall i: nat | i < |s.items| && (s.items[i].Bra? || s.items[i].Ket?) ensures s.items[i] != item {
      assert ItemSound(s.items, s.numbra, i);
    }
    SoundMore(s.items, s.numbra, more, item);
    NumbersKept(s.items, s.numbra, items');
    assert IsBra(items', s.numbra, |items'|, |s.items|);
    forall n: nat ensures NumberUsed(items', more, n) {
      assert NumberUsed(items', s.numbra, n);
    }
    var stack' := s.stack + [s.numbra];
    forall i: nat, e: nat ensures StackAt(items', stack', more, i, e) {
      assert StackAt(s.items, s.stack, s.numbra, i, e);
      assert ItemSound(s.items, s.numbra, e);
    }
  }

  lemma CloseKeeps(s: State)
    requires StateOk(s) && s.stack != []
    ensures StateOk(Put(s, Ket(s.stack[|s.stack| - 1]), 2).(stack := s.stack[..|s.stack| - 1], closed := s.closed + 1))
  {
    var top: nat := |s.stack| - 1;
    var n := s.stack[top];
    var item, items', stack' := Ket(n), s.items + [Ket(n)], s.stack[..top];
    assert StackAt(s.items, s.stack, s.numbra, top, 0);
    assert NumberUsed(s.items, s.numbra, n);
    OpenedStays(s.items, items', n, |s.items|);
    forall i: nat | i < |s.items| && (s.items[i].Bra? || s.items[i].Ket?) ensures s.items[i] != item {
      assert StackAt(s.items, s.stack, s.numbra, top, i);
    }
    SoundMore(s.items, s.numbra, s.numbra, item);
    NumbersKept(s.items, s.numbra, items');
    forall i: nat, e: nat ensures StackAt(items', stack', s.numbra, i, e) {
      assert StackAt(s.items, s.stack, s.numbra, i, e) && StackAt(s.items, s.stack, s.numbra, i, top);
    }
  }

  lemma BackKeeps(s: State, n: nat)
    requires StateOk(s) && n < s.closed
    ensures StateOk(Put(s, Back(n), 2))
  {
    assert NumberUsed(s.items, s.numbra, n);
    OpenedStays(s.items, s.items + [Back(n)], n, |s.items|);
    PlainKeeps(s, Back(n), |s.items|, 2);
  }

  ghost predicate NulAt(a: seq<nat>, i: nat)
  {
    i < |a| ==> (a[i] == NUL <==> i == |a| - 1)
  }

  /** A string with its terminating NUL. */
  ghost predicate Terminated(a: seq<nat>)
  {
    a != [] && forall i: nat :: NulAt(a, i)
  }

  lemma TerminatedBehind(a: seq<nat>, k: nat)
    requires Terminated(a) && k < |a|
    ensures Terminated(a[k..])
  {
    forall i: nat ensures NulAt(a[k..], i) {
      assert NulAt(a, k + i);
    }
  }

  /** A bracket expression fits no NUL, and the pattern goes on behind it. */
  lemma {:induction false} ClassSound(a: seq<nat>, c: nat, prev: int, members: set<nat>)
    requires prev >= -1 && prev != NUL && NUL !in members && (c != NUL ==> Terminated(a))
    requires ReadClass(a, c, prev, members).Members?
    ensures var e := ReadClass(a, c, prev, members); NUL !in e.members && Terminated(e.rest) && |e.rest| < |a|
    decreases |a|
  {
    assert NulAt(a, 0) && NulAt(a, 1);
    TerminatedBehind(a, 1);
    if c == DASH && prev >= 0 && a[0] != CLOSEB {
      SpanAbove(prev, a[0]);
      if a[1] != NUL {
        TerminatedBehind(a, 2);
      }
      if a[1] != CLOSEB {
        ClassSound(a[2..], a[1], a[0], members + Span(prev, a[0]));
      }
    } else if a[0] != CLOSEB {
      ClassSound(a[1..], a[0], c, members + {c});
    }
  }

  lemma {:induction false} SpanAbove(lo: nat, hi: nat)
    ensures forall c :: c in Span(lo, hi) <==> lo <= c <= hi || c == lo
  {
    if lo < hi {
      SpanAbove(lo, hi - 1);
    }
  }

  /** What is compiled from a sound state is sound. */
  lemma {:induction false} RestSound(s: State, a: seq<nat>)
    requires StateOk(s) && Terminated(a) && Rest(s, a).Ok?
    ensures Sound(Rest(s, a).items, NBRA)
    decreases |a|, 1
  {
    var c := a[0];
    assert NulAt(a, 0) && NulAt(a, 1);
    if c == NUL {
      SoundWider(s.items, s.numbra);
    } else {
      TerminatedBehind(a, 1);
      if c == DOT {
        PlainKeeps(s, One(Dot), |s.items|, 1);
        RestSound(Put(s, One(Dot), 1), a[1..]);
      } else if c == STAR {
        StarSound(s, a);
      } else if c == DOLLAR && a[1] == NUL {
        PlainKeeps(s, Dol, |s.items|, 1);
        RestSound(Put(s, Dol, 1), a[1..]);
      } else if c == OPENB {
        ClassRestSound(s, a[1..]);
      } else if c == BACKSLASH {
        EscapeSound(s, a[1..]);
      } else {
        PlainKeeps(s, One(Chr(c)), |s.items|, 2);
        RestSound(Put(s, One(Chr(c)), 2), a[1..]);
      }
    }
  }

  lemma SoundWider(items: seq<Item>, numbra: nat)
    requires Sound(items, numbra)
    ensures Sound(items, NBRA)
  {
    forall i: nat ensures ItemSound(items, NBRA, i) {
      assert ItemSound(items, numbra, i);
    }
  }

  lemma {:induction false} StarSound(s: State, a: seq<nat>)
    requires StateOk(s) && Terminated(a) && a[0] == STAR && Rest(s, a).Ok? && Terminated(a[1..])
    ensures Sound(Rest(s, a).items, NBRA)
    decreases |a|, 0
  {
    if !Repeatable(s) {
      PlainKeeps(s, One(Chr(STAR)), s.last, 2);
      RestSound(PutStar(s), a[1..]);
    } else {
      var s' := s.(items := s.items[s.last := Many(s.items[s.last].x)]);
      if s.items[s.last].One? {
        StarKeeps(s);
      } else {
        assert s' == s;
      }
      RestSound(s', a[1..]);
    }
  }

  lemma {:induction false} ClassRestSound(s: State, a: seq<nat>)
    requires StateOk(s) && Terminated(a) && ClassRest(s, a).Ok?
    ensures Sound(ClassRest(s, a).items, NBRA)
    decreases |a|, 2
  {
    assert NulAt(a, 0) && NulAt(a, 1);
    var neg := a[0] == CARET;
    if neg {
      TerminatedBehind(a, 1);
    }
    var b := if neg then a[1..] else a;
    if b[0] != NUL {
      assert NulAt(b, 0);
      TerminatedBehind(b, 1);
    }
    ClassSound(b[1..], b[0], -1, {});
    var e := ReadClass(b[1..], b[0], -1, {});
    var item := One(Ccl(if neg then Complement(e.members) else e.members));
    PlainKeeps(s, item, |s.items|, 17);
    RestSound(Put(s, item, 17), e.rest);
  }

  lemma {:induction false} EscapeSound(s: State, a: seq<nat>)
    requires StateOk(s) && Terminated(a) && EscapeRest(s, a).Ok?
    ensures Sound(EscapeRest(s, a).items, NBRA)
    decreases |a|, 2
  {
    var c := a[0];
    assert NulAt(a, 0);
    TerminatedBehind(a, 1);
    if c == OPENP {
      OpenKeeps(s);
      RestSound(Put(s, Bra(s.numbra), 2).(stack := s.stack + [s.numbra], numbra := s.numbra + 1), a[1..]);
    } else if c == CLOSEP {
      CloseKeeps(s);
      RestSound(Put(s, Ket(s.stack[|s.stack| - 1]), 2).(stack := s.stack[..|s.stack| - 1], closed := s.closed + 1), a[1..]);
    } else if DIGIT1 <= c <= DIGIT9 {
      BackKeeps(s, c - DIGIT1);
      RestSound(Put(s, Back(c - DIGIT1), 2), a[1..]);
    } else {
      PlainKeeps(s, One(Chr(c)), |s.items|, 2);
      RestSound(Put(s, One(Chr(c)), 2), a[1..]);
    }
  }

  // ---------------------------------------------------------------- the compiler

  lemma Behind(a: seq<nat>, sp: nat)
    requires sp < |a|
    ensures a[sp..][0] == a[sp] && a[sp..][1..] == a[sp + 1..]
    ensures |a[sp..]| > 1 <==> sp + 1 < |a|
    ensures sp + 1 < |a| ==> a[sp..][1] == a[sp + 1] && a[sp..][2..] == a[sp + 2..]
  {
  }

  /** One turn of the loop: the state and place it leaves, or the result of the whole. */
  datatype Turn = Goes(s: State, sp: nat) | Stops(r: Compiled)

  /** The loop over a bracket expression whose first character is at `start`; `sp` is behind
      the character read last. */
  method ReadBracket(a: seq<nat>, start: nat) returns (e: ClassEnd, sp: nat)
    requires start < |a|
    ensures e == ReadClass(a[start + 1..], a[start], -1, {})
    ensures e.Members? ==> start < sp <= |a| && e.rest == a[sp..]
  {
    var c: nat, prev: int, members: set<nat> := a[start], -1, {};
    sp := start + 1;
    while true
      invariant start < sp <= |a| && prev >= -1
      invariant ReadClass(a[start + 1..], a[start], -1, {}) == ReadClass(a[sp..], c, prev, members)
      decreases |a| - sp
    {
      if c == NUL {
        return NoEnd, sp;
      }
      if sp == |a| {
        return Beyond, sp;
      }
      Behind(a, sp);
      var at := prev;
      if c == DASH && prev >= 0 && a[sp] != CLOSEB {
        if sp + 1 == |a| {
          return Beyond, sp;
        }
        members := members + Span(prev, a[sp]);
        at := a[sp];
        sp := sp + 1;
        Behind(a, sp);
      } else {
        members := members + {c};
        at := c;
      }
      c := a[sp];
      sp := sp + 1;
      prev := at;
      if c == CLOSEB {
        return Members(members, a[sp..]), sp;
      }
    }
  }

  /** The case `[` of `compile`: a class, with its characters complemented behind `^`. */
  method PutClass(a: seq<nat>, s: State, start: nat) returns (t: Turn)
    requires Terminated(a) && start < |a|
    ensures t.Goes? ==> start < t.sp < |a| && ClassRest(s, a[start..]) == Rest(t.s, a[t.sp..])
    ensures t.Stops? ==> t.r == ClassRest(s, a[start..])
  {
    assert NulAt(a, start);
    if s.size + 17 >= ESIZE {
      return Stops(Error);
    }
    Behind(a, start);
    var neg := a[start] == CARET;
    var first := if neg then start + 1 else start;
    Behind(a, first);
    var e, sp := ReadBracket(a, first);
    if e.NoEnd? {
      return Stops(Error);
    }
    if e.Beyond? {
      return Stops(Outside);
    }
    ghost var b := a[first..];
    TerminatedBehind(a, first);
    assert NulAt(b, 0);
    if b[0] != NUL {
      TerminatedBehind(b, 1);
    }
    ClassSound(b[1..], b[0], -1, {});
    return Goes(Put(s, One(Ccl(if neg then Complement(e.members) else e.members)), 17), sp);
  }

  /** The case `\` of `compile`: a group opened, closed or referred to, or a plain character. */
  method PutEscape(a: seq<nat>, s: State, start: nat) returns (t: Turn)
    requires Terminated(a) && start < |a|
    ensures t.Goes? ==> start < t.sp < |a| && EscapeRest(s, a[start..]) == Rest(t.s, a[t.sp..])
    ensures t.Stops? ==> t.r == EscapeRest(s, a[start..])
  {
    assert NulAt(a, start);
    Behind(a, start);
    var c := a[start];
    if c == NUL {
      return Stops(Outside);
    }
    if c == OPENP {
      if s.numbra >= NBRA {
        return Stops(Error);
      }
      return Goes(Put(s, Bra(s.numbra), 2).(stack := s.stack + [s.numbra], numbra := s.numbra + 1), start + 1);
    }
    if c == CLOSEP {
      if s.stack == [] {
        return Stops(Error);
      }
      var top := |s.stack| - 1;
      return Goes(Put(s, Ket(s.stack[top]), 2).(stack := s.stack[..top], closed := s.closed + 1), start + 1);
    }
    if DIGIT1 <= c <= DIGIT9 {
      if c - DIGIT1 >= s.closed {
        return Stops(Error);
      }
      return Goes(Put(s, Back(c - DIGIT1), 2), start + 1);
    }
    return Goes(Put(s, One(Chr(c)), 2), start + 1);
  }

  /** The other cases of the switch. */
  method PutOther(a: seq<nat>, s: State, sp: nat) returns (t: Turn)
    requires Terminated(a) && sp < |a| && a[sp] != NUL && a[sp] != OPENB && a[sp] != BACKSLASH && s.size < ESIZE
    ensures t.Goes? ==> sp < t.sp < |a| && Rest(s, a[sp..]) == Rest(t.s, a[t.sp..])
    ensures t.Stops? ==> t.r == Rest(s, a[sp..])
  {
    assert NulAt(a, sp);
    Behind(a, sp);
    var c := a[sp];
    if c == DOT {
      return Goes(Put(s, One(Dot), 1), sp + 1);
    }
    if c == STAR {
      if !Repeatable(s) {
        return Goes(PutStar(s), sp + 1);
      }
      if s.items[s.last].Back? || s.items[s.last].Dol? {
        return Stops(Outside);
      }
      return Goes(s.(items := s.items[s.last := Many(s.items[s.last].x)]), sp + 1);
    }
    if c == DOLLAR && a[sp + 1] == NUL {
      return Goes(Put(s, Dol, 1), sp + 1);
    }
    return Goes(Put(s, One(Chr(c)), 2), sp + 1);
  }

  /** `compile`. */
  method Compile(astr: seq<nat>, ghost start: State) returns (circf: bool, r: Compiled)
    requires Terminated(astr) && start == START
    ensures r == CompileFrom(start, astr) && circf == (astr[0] == CARET)
  {
    var s, sp := START, 0;
    assert NulAt(astr, 0);
    circf := astr[0] == CARET;
    if circf {
      sp := 1;
    }
    ghost var from := sp;
    assert astr[0..] == astr;
    while true
      invariant sp < |astr| && Rest(start, astr[from..]) == Rest(s, astr[sp..])
      decreases |astr| - sp
    {
      assert NulAt(astr, sp);
      Behind(astr, sp);
      if s.size >= ESIZE {
        return circf, Error;
      }
      var t;
      if astr[sp] == NUL {
        return circf, Ok(s.items);
      } else if astr[sp] == OPENB {
        t := PutClass(astr, s, sp + 1);
      } else if astr[sp] == BACKSLASH {
        t := PutEscape(astr, s, sp + 1);
      } else {
        t := PutOther(astr, s, sp);
      }
      if t.Stops? {
        return circf, t.r;
      }
      s, sp := t.s, t.sp;
    }
  }

  lemma CaretRead(caret: bool, ps: seq<Piece>, dol: bool)
    requires Legal(ps, [], 0, 0)
    ensures var a := (if caret then [CARET] else []) + (Spell(ps) + DollarIf(dol)); a[0] == CARET <==> caret
  {
    if ps != [] {
      assert Spell(ps)[0] == SpellPiece(ps[0])[0] != CARET;
    } else {
      assert Spell(ps) + DollarIf(dol) == DollarIf(dol);
    }
  }

  lemma {:induction false} ElemsHaveNoNul(elems: seq<Elem>, first: bool)
    requires ElemsOk(elems, first)
    ensures NUL !in SpellElems(elems)
    decreases |elems|
  {
    if elems != [] {
      ElemsHaveNoNul(elems[1..], false);
    }
  }

  lemma {:induction false} SpeltHasNoNul(ps: seq<Piece>, stack: seq<nat>, closed: nat, numbra: nat)
    requires Legal(ps, stack, closed, numbra)
    ensures NUL !in Spell(ps)
    decreases |ps|
  {
    if ps != [] {
      var p := ps[0];
      if p.Class? {
        ElemsHaveNoNul(p.elems, true);
      }
      assert NUL !in SpellPiece(p);
      SpeltHasNoNul(ps[1..], if p.Close? && stack == [] then [] else StackAfter(p, stack, numbra),
                    if p.Close? then closed + 1 else closed, if p.Open? then numbra + 1 else numbra);
    }
  }

  lemma SpeltTerminated(caret: bool, ps: seq<Piece>, dol: bool)
    requires Legal(ps, [], 0, 0)
    ensures Terminated((if caret then [CARET] else []) + (Spell(ps) + DollarIf(dol)))
  {
    SpeltHasNoNul(ps, [], 0, 0);
    var a := (if caret then [CARET] else []) + (Spell(ps) + DollarIf(dol));
    var front := (if caret then [CARET] else []) + Spell(ps) + (if dol then [DOLLAR] else []);
    assert a == front + [NUL];
    forall i: nat ensures NulAt(a, i) {
      assert i < |front| ==> a[i] == front[i] && front[i] in front;
    }
  }
}
