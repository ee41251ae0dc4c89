/** References of bin/grep.c: which patterns that compile refer to groups that are still open. */
module GrepGroups {
  import opened GrepMatch
  import opened GrepCompile

  // ---------------------------------------------------------------- in the pattern

  /** In the rest `a` of a pattern's text, with the groups of `stack` open and `numbra` opened so
      far, a reference is to a group that is open there. */
  function MeetsOpen(a: seq<nat>, stack: seq<nat>, numbra: nat): bool
    decreases |a|
  {
    if a == [] || a[0] == NUL then false
    else if a[0] == OPENB then
      var b := if |a| > 1 && a[1] == CARET then a[2..] else a[1..];
      if b == [] then false
      else
        var e := ReadClass(b[1..], b[0], -1, {});
        e.Members? && |e.rest| < |a| && MeetsOpen(e.rest, stack, numbra)
    else if a[0] == BACKSLASH then
      if |a| == 1 then false
      else if a[1] == OPENP then MeetsOpen(a[2..], stack + [numbra], numbra + 1)
      else if a[1] == CLOSEP then stack != [] && MeetsOpen(a[2..], stack[..|stack| - 1], numbra)
      else (DIGIT1 <= a[1] <= DIGIT9 && a[1] - DIGIT1 in stack) || MeetsOpen(a[2..], stack, numbra)
    else MeetsOpen(a[1..], stack, numbra)
  }

  /** The same of a pattern in pieces: every reference is to a group that is not open there. */
  predicate RefsClosed(ps: seq<Piece>, stack: seq<nat>, numbra: nat)
  {
    ps != [] ==>
      match ps[0]
      case Open => RefsClosed(ps[1..], stack + [numbra], numbra + 1)
      case Close => stack != [] ==> RefsClosed(ps[1..], stack[..|stack| - 1], numbra)
      case Ref(n) => n !in stack && RefsClosed(ps[1..], stack, numbra)
      case _ => RefsClosed(ps[1..], stack, numbra)
  }

  // ---------------------------------------------------------------- in the items

  /** Item `j` refers to a group that is not closed before it. */
  ghost predicate RefersToOpen(items: seq<Item>, j: nat)
  {
    j < |items| && items[j].Back? && forall e: nat | e < j :: items[e] != Ket(items[j].n)
  }

  ghost predicate NoRefToOpen(items: seq<Item>)
  {
    forall j: nat :: !RefersToOpen(items, j)
  }

  /** Items in order are well formed exactly if no reference is to an open group. */
  lemma SoundWellFormed(items: seq<Item>)
    requires Sound(items, NBRA)
    ensures WellFormed(items) <==> NoRefToOpen(items)
  {
    forall j: nat ensures ItemSound(items, NBRA, j) && (WellItem(items, j) <==> !RefersToOpen(items, j)) {
      assert ItemSound(items, NBRA, j);
      if j < |items| && items[j].Back? {
        ReferenceOk(items, j);
      }
    }
    if WellFormed(items) {
      forall j: nat ensures !RefersToOpen(items, j) {
        assert WellItem(items, j);
      }
    }
    if forall j: nat :: !RefersToOpen(items, j) {
      forall j: nat ensures WellItem(items, j) {
        assert !RefersToOpen(items, j);
      }
    }
  }

  lemma ReferenceOk(items: seq<Item>, j: nat)
    requires Sound(items, NBRA) && j < |items| && items[j].Back?
    ensures WellItem(items, j) <==> !RefersToOpen(items, j)
  {
    var n := items[j].n;
    assert ItemSound(items, NBRA, j);
    if !RefersToOpen(items, j) {
      var e: nat :| e < j && items[e] == Ket(n);
      assert ItemSound(items, NBRA, e);
      var b: nat :| IsBra(items, n, e, b);
      assert Group(items, n, b, e, j);
    }
    if WellItem(items, j) {
      var b: nat, e: nat :| Group(items, n, b, e, j);
    }
  }

  /** The items have an end for each group opened so far but for those of `stack`. */
  ghost predicate EndsAt(items: seq<Item>, stack: seq<nat>, numbra: nat, n: nat)
  {
    Ket(n) in items <==> n < numbra && n !in stack
  }

  ghost predicate Rises(stack: seq<nat>, numbra: nat, i: nat, j: nat)
  {
    i < |stack| ==> stack[i] < numbra && (i < j < |stack| ==> stack[i] < stack[j])
  }

  ghost predicate Tracks(items: seq<Item>, stack: seq<nat>, numbra: nat)
  {
    (forall n: nat :: EndsAt(items, stack, numbra, n)) && forall i: nat, j: nat :: Rises(stack, numbra, i, j)
  }

  lemma TracksPlain(items: seq<Item>, stack: seq<nat>, numbra: nat, item: Item)
    requires Tracks(items, stack, numbra) && !item.Ket?
    ensures Tracks(items + [item], stack, numbra)
  {
    forall n: nat ensures EndsAt(items + [item], stack, numbra, n) {
      assert EndsAt(items, stack, numbra, n);
    }
  }

  lemma TracksOpen(items: seq<Item>, stack: seq<nat>, numbra: nat, item: Item, numbra': nat)
    requires Tracks(items, stack, numbra) && !item.Ket? && numbra' == numbra + 1
    ensures Tracks(items + [item], stack + [numbra], numbra')
  {
    var stack' := stack + [numbra];
    forall n: nat ensures EndsAt(items + [item], stack', numbra', n) {
      assert EndsAt(items, stack, numbra, n);
    }
    forall i: nat, j: nat ensures Rises(stack', numbra', i, j) {
      assert Rises(stack, numbra, i, j);
    }
  }

  lemma TracksClose(items: seq<Item>, stack: seq<nat>, numbra: nat, n: nat, stack': seq<nat>)
    requires Tracks(items, stack, numbra) && stack == stack' + [n]
    ensures Tracks(items + [Ket(n)], stack', numbra)
  {
    var top: nat := |stack'|;
    assert Rises(stack, numbra, top, top);
    forall i: nat, j: nat ensures Rises(stack', numbra, i, j) {
      assert Rises(stack, numbra, i, j);
    }
    forall i: nat | i < top ensures stack'[i] != n {
      assert Rises(stack, numbra, i, top);
    }
    forall m: nat ensures EndsAt(items + [Ket(n)], stack', numbra, m) {
      assert EndsAt(items, stack, numbra, m);
    }
  }

  /** A repetition mark changes no group. */
  lemma TracksStar(items: seq<Item>, items': seq<Item>, last: nat, stack: seq<nat>, numbra: nat)
    requires Tracks(items, stack, numbra) && last < |items| == |items'| && items' == items[last := items'[last]]
    requires (items[last].One? || items[last].Many?) && items'[last].Many?
    ensures Tracks(items', stack, numbra) && (NoRefToOpen(items') <==> NoRefToOpen(items))
  {
    forall n: nat ensures EndsAt(items', stack, numbra, n) {
      assert EndsAt(items, stack, numbra, n);
      if Ket(n) in items {
        var e: nat :| e < |items| && items[e] == Ket(n);
        assert items'[e] == Ket(n);
      }
      if Ket(n) in items' {
        var e: nat :| e < |items'| && items'[e] == Ket(n);
        assert items[e] == Ket(n);
      }
    }
    forall j: nat ensures RefersToOpen(items', j) <==> RefersToOpen(items, j) {
      if j < |items| && items[j].Back? {
        assert forall e: nat | e < j :: items'[e] == Ket(items[j].n) <==> items[e] == Ket(items[j].n);
      }
    }
  }

  /** One more item refers to an open group only if it is a reference, and its group is open. */
  lemma RefsMore(items: seq<Item>, item: Item)
    ensures NoRefToOpen(items + [item]) <==> NoRefToOpen(items) && (item.Back? ==> Ket(item.n) in items)
  {
    var more, n := items + [item], |items|;
    forall j: nat ensures j < n ==> (RefersToOpen(more, j) <==> RefersToOpen(items, j)) {
      if j < n && items[j].Back? {
        assert forall e: nat | e < j :: more[e] == items[e];
      }
    }
    if item.Back? {
      assert forall e: nat | e < n :: more[e] == items[e];
      assert RefersToOpen(more, n) <==> Ket(item.n) !in items;
    }
    if NoRefToOpen(items + [item]) {
      forall j: nat ensures !RefersToOpen(items, j) {
        assert !RefersToOpen(more, j);
      }
    } else {
      var j: nat :| RefersToOpen(more, j);
      assert j < n ==> RefersToOpen(items, j);
    }
  }

  // ---------------------------------------------------------------- the text and the items agree

  lemma {:induction false} RestRefs(s: State, a: seq<nat>)
    requires StateOk(s) && Tracks(s.items, s.stack, s.numbra) && Terminated(a) && Rest(s, a).Ok?
    ensures NoRefToOpen(Rest(s, a).items) <==> NoRefToOpen(s.items) && !MeetsOpen(a, s.stack, s.numbra)
    decreases |a|, 1
  {
    var c := a[0];
    assert NulAt(a, 0) && NulAt(a, 1);
    if c != NUL {
      TerminatedBehind(a, 1);
      if c == DOT {
        PlainRefs(s, One(Dot), |s.items|, 1, a[1..]);
      } else if c == STAR {
        StarRefs(s, a);
      } else if c == DOLLAR && a[1] == NUL {
        PlainRefs(s, Dol, |s.items|, 1, a[1..]);
      } else if c == OPENB {
        ClassRefs(s, a);
      } else if c == BACKSLASH {
        EscapeRefs(s, a);
      } else {
        PlainRefs(s, One(Chr(c)), |s.items|, 2, a[1..]);
      }
    }
  }

  /** An item that has nothing to do with groups. */
  lemma {:induction false} PlainRefs(s: State, item: Item, last: int, bytes: nat, a: seq<nat>)
    requires StateOk(s) && Tracks(s.items, s.stack, s.numbra) && Terminated(a) && last <= |s.items|
    requires item.Dol? || (item.One? && SingleOk(item.x))
    requires Rest(s.(items := s.items + [item], last := last, size := s.size + bytes), a).Ok?
    ensures NoRefToOpen(Rest(s.(items := s.items + [item], last := last, size := s.size + bytes), a).items)
            <==> NoRefToOpen(s.items) && !MeetsOpen(a, s.stack, s.numbra)
    decreases |a|, 2
  {
    PlainKeeps(s, item, last, bytes);
    TracksPlain(s.items, s.stack, s.numbra, item);
    RefsMore(s.items, item);
    RestRefs(s.(items := s.items + [item], last := last, size := s.size + bytes), a);
  }

  lemma {:induction false} StarRefs(s: State, a: seq<nat>)
    requires StateOk(s) && Tracks(s.items, s.stack, s.numbra)
    requires Terminated(a) && a[0] == STAR && Rest(s, a).Ok? && Terminated(a[1..])
    ensures NoRefToOpen(Rest(s, a).items) <==> NoRefToOpen(s.items) && !MeetsOpen(a, s.stack, s.numbra)
    decreases |a|, 0
  {
    if !Repeatable(s) {
      PlainRefs(s, One(Chr(STAR)), s.last, 2, a[1..]);
    } else {
      var s' := s.(items := s.items[s.last := Many(s.items[s.last].x)]);
      if s.items[s.last].One? {
        StarKeeps(s);
      } else {
        assert s' == s;
      }
      TracksStar(s.items, s'.items, s.last, s.stack, s.numbra);
      RestRefs(s', a[1..]);
    }
  }

  lemma {:induction false} ClassRefs(s: State, a: seq<nat>)
    requires StateOk(s) && Tracks(s.items, s.stack, s.numbra)
    requires Terminated(a) && a[0] == OPENB && Terminated(a[1..]) && ClassRest(s, a[1..]).Ok?
    ensures NoRefToOpen(ClassRest(s, a[1..]).items) <==> NoRefToOpen(s.items) && !MeetsOpen(a, s.stack, s.numbra)
    decreases |a|, 0
  {
    assert NulAt(a, 1) && NulAt(a, 2);
    var neg := a[1] == CARET;
    if neg {
      TerminatedBehind(a, 2);
      assert a[1..][1..] == a[2..];
    }
    var b := if neg then a[2..] else a[1..];
    if b[0] != NUL {
      assert NulAt(b, 0);
      TerminatedBehind(b, 1);
    }
    ClassSound(b[1..], b[0], -1, {});
    var e := ReadClass(b[1..], b[0], -1, {});
    PlainRefs(s, One(Ccl(if neg then Complement(e.members) else e.members)), |s.items|, 17, e.rest);
  }

  lemma {:induction false} EscapeRefs(s: State, a: seq<nat>)
    requires StateOk(s) && Tracks(s.items, s.stack, s.numbra)
    requires Terminated(a) && a[0] == BACKSLASH && Terminated(a[1..]) && EscapeRest(s, a[1..]).Ok?
    ensures NoRefToOpen(EscapeRest(s, a[1..]).items) <==> NoRefToOpen(s.items) && !MeetsOpen(a, s.stack, s.numbra)
    decreases |a|, 0
  {
    var c, b := a[1], a[2..];
    assert a[1..][0] == c && a[1..][1..] == b && NulAt(a, 1);
    TerminatedBehind(a, 2);
    if c == OPENP {
      OpenRefs(s, b);
    } else if c == CLOSEP {
      CloseRefs(s, b);
    } else if DIGIT1 <= c <= DIGIT9 {
      BackRefs(s, c - DIGIT1, b);
    } else {
      PlainRefs(s, One(Chr(c)), |s.items|, 2, b);
    }
  }

  lemma {:induction false} OpenRefs(s: State, b: seq<nat>)
    requires StateOk(s) && Tracks(s.items, s.stack, s.numbra) && Terminated(b) && s.numbra < NBRA
    requires Rest(Put(s, Bra(s.numbra), 2).(stack := s.stack + [s.numbra], numbra := s.numbra + 1), b).Ok?
    ensures NoRefToOpen(Rest(Put(s, Bra(s.numbra), 2).(stack := s.stack + [s.numbra], numbra := s.numbra + 1), b).items)
            <==> NoRefToOpen(s.items) && !MeetsOpen(b, s.stack + [s.numbra], s.numbra + 1)
    decreases |b|, 2
  {
    OpenKeeps(s);
    TracksOpen(s.items, s.stack, s.numbra, Bra(s.numbra), s.numbra + 1);
    RefsMore(s.items, Bra(s.numbra));
    RestRefs(Put(s, Bra(s.numbra), 2).(stack := s.stack + [s.numbra], numbra := s.numbra + 1), b);
  }

  lemma {:induction false} CloseRefs(s: State, b: seq<nat>)
    requires StateOk(s) && Tracks(s.items, s.stack, s.numbra) && Terminated(b) && s.stack != []
    requires var top := |s.stack| - 1;
             Rest(Put(s, Ket(s.stack[top]), 2).(stack := s.stack[..top], closed := s.closed + 1), b).Ok?
    ensures var top := |s.stack| - 1;
            NoRefToOpen(Rest(Put(s, Ket(s.stack[top]), 2).(stack := s.stack[..top], closed := s.closed + 1), b).items)
            <==> NoRefToOpen(s.items) && !MeetsOpen(b, s.stack[..top], s.numbra)
    decreases |b|, 2
  {
    var n, stack' := s.stack[|s.stack| - 1], s.stack[..|s.stack| - 1];
    CloseKeeps(s);
    TracksClose(s.items, s.stack, s.numbra, n, stack');
    RefsMore(s.items, Ket(n));
    RestRefs(Put(s, Ket(n), 2).(stack := stack', closed := s.closed + 1), b);
  }

  lemma {:induction false} BackRefs(s: State, n: nat, b: seq<nat>)
    requires StateOk(s) && Tracks(s.items, s.stack, s.numbra) && Terminated(b) && n < s.closed
    requires Rest(Put(s, Back(n), 2), b).Ok?
    ensures NoRefToOpen(Rest(Put(s, Back(n), 2), b).items)
            <==> NoRefToOpen(s.items) && n !in s.stack && !MeetsOpen(b, s.stack, s.numbra)
    decreases |b|, 2
  {
    BackKeeps(s, n);
    TracksPlain(s.items, s.stack, s.numbra, Back(n));
    RefsMore(s.items, Back(n));
    assert EndsAt(s.items, s.stack, s.numbra, n);
    RestRefs(Put(s, Back(n), 2), b);
  }

  /** What is compiled is well formed exactly if the pattern has no reference to a group that is open
      there: the compiler only counts how many groups are closed. */
  lemma CompiledWellFormed(s: State, a: seq<nat>)
    requires s == START && Terminated(a) && Rest(s, a).Ok?
    ensures WellFormed(Rest(s, a).items) <==> !MeetsOpen(a, [], 0)
  {
    assert StateOk(s);
    forall n: nat ensures EndsAt(s.items, s.stack, s.numbra, n) {
    }
    forall i: nat, j: nat ensures Rises(s.stack, s.numbra, i, j) {
    }
    forall j: nat ensures !RefersToOpen(s.items, j) {
    }
    RestSound(s, a);
    RestRefs(s, a);
    SoundWellFormed(Rest(s, a).items);
  }

  // ---------------------------------------------------------------- the pieces and the items agree

  lemma {:induction false} MeaningFits(elems: seq<Elem>, first: bool)
    requires ElemsOk(elems, first)
    ensures NUL !in Meaning(elems)
    decreases |elems|
  {
    if elems != [] {
      MeaningFits(elems[1..], false);
      if elems[0].Range? {
        SpanAbove(elems[0].lo, elems[0].hi);
      }
    }
  }

  /** A piece that has nothing to do with groups stands for an item that has not, and fits no NUL. */
  lemma PieceItem(p: Piece, stack: seq<nat>, numbra: nat)
    requires (p.Lit? && p.c != NUL) || p.Any? || (p.Class? && ElemsOk(p.elems, true))
    ensures var item := ItemOf(p, stack, numbra); (item.One? || item.Many?) && SingleOk(item.x)
  {
    if p.Class? {
      MeaningFits(p.elems, true);
    }
  }

  /** The items of a legal pattern are in order, and refer to open groups exactly if the pieces do. */
  lemma {:induction false} PieceRefs(s: State, ps: seq<Piece>)
    requires StateOk(s) && Tracks(s.items, s.stack, s.numbra) && Legal(ps, s.stack, s.closed, s.numbra)
    ensures var items := ItemsFrom(s.items, ps, s.stack, s.numbra);
            && Sound(items, NBRA)
            && (NoRefToOpen(items) <==> NoRefToOpen(s.items) && RefsClosed(ps, s.stack, s.numbra))
    decreases |ps|
  {
    if ps == [] {
      SoundWider(s.items, s.numbra);
    } else {
      var p, rest, items := ps[0], ps[1..], s.items;
      match p {
        case Open =>
          OpenKeeps(s);
          TracksOpen(items, s.stack, s.numbra, Bra(s.numbra), s.numbra + 1);
          RefsMore(items, Bra(s.numbra));
          PieceRefs(Put(s, Bra(s.numbra), 2).(stack := s.stack + [s.numbra], numbra := s.numbra + 1), rest);
        case Close =>
          var n, stack' := s.stack[|s.stack| - 1], s.stack[..|s.stack| - 1];
          CloseKeeps(s);
          TracksClose(items, s.stack, s.numbra, n, stack');
          RefsMore(items, Ket(n));
          PieceRefs(Put(s, Ket(n), 2).(stack := stack', closed := s.closed + 1), rest);
        case Ref(n) =>
          BackKeeps(s, n);
          TracksPlain(items, s.stack, s.numbra, Back(n));
          RefsMore(items, Back(n));
          assert EndsAt(items, s.stack, s.numbra, n);
          PieceRefs(Put(s, Back(n), 2), rest);
        case _ =>
          PieceItem(p, s.stack, s.numbra);
          var item := ItemOf(p, s.stack, s.numbra);
          PlainKeeps(s, item, |items|, 2);
          TracksPlain(items, s.stack, s.numbra, item);
          RefsMore(items, item);
          PieceRefs(Put(s, item, 2), rest);
      }
    }
  }

  /** A legal pattern is well formed exactly if its references are to groups that are closed. */
  lemma PiecesWellFormed(ps: seq<Piece>, dol: bool)
    requires Legal(ps, [], 0, 0)
    ensures WellFormed(ItemsOf(ps) + DolIf(dol)) <==> RefsClosed(ps, [], 0)
  {
    var s, items := START, ItemsOf(ps);
    forall n: nat ensures EndsAt(s.items, s.stack, s.numbra, n) {
    }
    forall i: nat, j: nat ensures Rises(s.stack, s.numbra, i, j) {
    }
    forall j: nat ensures !RefersToOpen(s.items, j) {
    }
    assert StateOk(s);
    PieceRefs(s, ps);
    if dol {
      SoundMore(items, NBRA, NBRA, Dol);
      RefsMore(items, Dol);
    } else {
      assert items + DolIf(dol) == items;
    }
    SoundWellFormed(items + DolIf(dol));
  }

  lemma LegalStep(p: Piece, ps: seq<Piece>, stack: seq<nat>, closed: nat, numbra: nat)
    ensures ([p] + ps)[1..] == ps && AllBytes([p] + ps) == Bytes(p) + AllBytes(ps)
    ensures p.Lit? && p.c != NUL ==> Legal([p] + ps, stack, closed, numbra) == Legal(ps, stack, closed, numbra)
    ensures p.Open? && numbra < NBRA ==>
              Legal([p] + ps, stack, closed, numbra) == Legal(ps, stack + [numbra], closed, numbra + 1)
    ensures p.Close? && stack != [] ==>
              Legal([p] + ps, stack, closed, numbra) == Legal(ps, stack[..|stack| - 1], closed + 1, numbra)
    ensures p.Ref? && p.n < closed && p.n < NBRA ==>
              Legal([p] + ps, stack, closed, numbra) == Legal(ps, stack, closed, numbra)
    ensures (p.Close? ==> stack != []) ==> forall front ::
              ItemsFrom(front, [p] + ps, stack, numbra)
              == ItemsFrom(front + [ItemOf(p, stack, numbra)], ps, StackAfter(p, stack, numbra),
                           if p.Open? then numbra + 1 else numbra)
  {
    assert ([p] + ps)[1..] == ps;
  }

  /** The pattern with a group inside a group, then a reference to the outer one while it is
      still open, is compiled: one group is closed, and the reference is to the first. */
  lemma CompilesRefToOpen(s: State, ps: seq<Piece>)
    requires s == START && ps == [Open] + ([Open] + ([Close] + [Ref(0)]))
    ensures var r := Rest(s, Spell(ps) + DollarIf(false)); r.Ok? && !WellFormed(r.items)
  {
    var none: seq<Piece>, stack: seq<nat> := [], [];
    var p1 := [Ref(0)] + none;
    var p2 := [Close] + p1;
    var p3 := [Open] + p2;
    assert p1 == [Ref(0)] && ps == [Open] + p3;
    assert [0, 1][..1] == [0] && [0] + [1] == [0, 1] && stack + [0] == [0];
    LegalStep(Ref(0), none, [0], 1, 2);
    LegalStep(Close, p1, [0, 1], 0, 2);
    LegalStep(Open, p2, [0], 0, 1);
    LegalStep(Open, p3, stack, 0, 0);
    CompileSpelt(s, ps, false);
    var items := Rest(s, Spell(ps) + DollarIf(false)).items;
    assert items == [Bra(0)] + ([Bra(1)] + ([Ket(1)] + [Back(0)]));
    assert !WellItem(items, 3);
  }

  lemma SpeltIsWell(s: State, caret: bool, ps: seq<Piece>, dol: bool)
    requires s == START && Legal(ps, [], 0, 0)
    requires RefsClosed(ps, [], 0)
    ensures var a := (if caret then [CARET] else []) + (Spell(ps) + DollarIf(dol));
            && Terminated(a) && (a[0] == CARET <==> caret)
            && CompileFrom(s, a) == if AllBytes(ps) + (if dol then 1 else 0) < ESIZE then Ok(ItemsOf(ps) + DolIf(dol)) else Error
    ensures WellFormed(ItemsOf(ps) + DolIf(dol))
  {
    var a := (if caret then [CARET] else []) + (Spell(ps) + DollarIf(dol));
    SpeltTerminated(caret, ps, dol);
    CompileSpeltWhole(s, caret, ps, dol);
    CaretRead(caret, ps, dol);
    PiecesWellFormed(ps, dol);
  }
}
