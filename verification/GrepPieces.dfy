/** What a pattern of bin/grep.c in pieces means for a line, said without the compiler's items; and the
    compiler and the interpreter together, which find exactly the lines it means. */
module GrepPieces {
  import opened GrepMatch
  import opened GrepCompile
  import opened GrepGroups

  // ---------------------------------------------------------------- characters

  /** A character of a bracket expression is `c`, or a range has it between its ends. */
  predicate Covers(e: Elem, c: nat)
  {
    match e
    case Ch(d) => c == d
    case Range(lo, hi) => c == lo || lo <= c <= hi
  }

  ghost predicate CoversAt(elems: seq<Elem>, c: nat, i: nat)
  {
    i < |elems| && Covers(elems[i], c)
  }

  lemma {:induction false} SpanIs(lo: nat, hi: nat, c: nat)
    ensures c in Span(lo, hi) <==> c == lo || lo <= c <= hi
  {
    if lo < hi {
      SpanIs(lo, hi - 1, c);
    }
  }

  lemma {:induction false} MeaningIs(elems: seq<Elem>, c: nat)
    ensures c in Meaning(elems) <==> exists i: nat :: CoversAt(elems, c, i)
  {
    if elems != [] {
      var more := elems[1..];
      MeaningIs(more, c);
      if elems[0].Range? {
        SpanIs(elems[0].lo, elems[0].hi, c);
      }
      if Covers(elems[0], c) {
        assert CoversAt(elems, c, 0);
      }
      if i: nat :| CoversAt(more, c, i) {
        var j := i + 1;
        assert CoversAt(elems, c, j);
      }
      if i: nat :| CoversAt(elems, c, i) && i > 0 {
        assert CoversAt(more, c, i - 1);
      }
    }
  }

  /** A piece that is no group or reference fits a character. */
  ghost predicate PieceFits(p: Piece, c: nat)
  {
    match p
    case Lit(d, _) => c == d
    case Any(_) => c != NUL
    case Class(neg, elems, _) => neg != exists i: nat :: CoversAt(elems, c, i)
    case _ => false
  }

  /** A bracket expression fits the characters it names, with `^` exactly the others. */
  lemma ClassFits(neg: bool, elems: seq<Elem>, star: bool, stack: seq<nat>, numbra: nat, c: nat)
    requires 0 < c < 128
    ensures Fits(ItemOf(Class(false, elems, star), stack, numbra).x, c) <==> exists i: nat :: CoversAt(elems, c, i)
    ensures Fits(ItemOf(Class(true, elems, star), stack, numbra).x, c)
            <==> !Fits(ItemOf(Class(false, elems, star), stack, numbra).x, c)
  {
    MeaningIs(elems, c);
  }

  // ---------------------------------------------------------------- groups

  /** How many groups the first `k` pieces open. */
  function Opens(ps: seq<Piece>, k: nat): nat
    requires k <= |ps|
  {
    if k == 0 then 0 else Opens(ps, k - 1) + (if ps[k - 1].Open? then 1 else 0)
  }

  /** How many more groups pieces `b` up to `k` open than they close. */
  function Balance(ps: seq<Piece>, b: nat, k: nat): int
    requires b <= k <= |ps|
    decreases k
  {
    if k == b then 0
    else Balance(ps, b, k - 1) + (if ps[k - 1].Open? then 1 else if ps[k - 1].Close? then -1 else 0)
  }

  ghost predicate InsideAt(ps: seq<Piece>, b: nat, e: nat, k: nat)
  {
    b < k <= e && k <= |ps| ==> Balance(ps, b, k) > 0
  }

  /** The group that piece `b` opens is open from there up to `e`. */
  ghost predicate Inside(ps: seq<Piece>, b: nat, e: nat)
  {
    forall k: nat :: InsideAt(ps, b, e, k)
  }

  /** Piece `e` closes the group that piece `b` opens, and that is group `n`, counted by the openings. */
  ghost predicate IsGroup(ps: seq<Piece>, n: nat, b: nat, e: nat)
  {
    && b < e < |ps| && ps[b].Open? && Opens(ps, b) == n
    && ps[e].Close? && Inside(ps, b, e) && Balance(ps, b, e) == 1
  }

  // ---------------------------------------------------------------- lines

  ghost predicate GroupTextAt(ps: seq<Piece>, t: seq<nat>, path: seq<nat>, i: nat, n: nat, b: nat, e: nat)
  {
    i + 1 < |path| && e < i && IsGroup(ps, n, b, e) && SameText(t, path[b], path[e], path[i], path[i + 1])
  }

  ghost predicate PieceFitsAt(t: seq<nat>, p: Piece, from: nat, to: nat, k: nat)
  {
    from <= k < to && k < |t| ==> PieceFits(p, t[k])
  }

  /** Piece `i` takes up the text from `path[i]` up to `path[i + 1]`. */
  ghost predicate PieceOk(ps: seq<Piece>, t: seq<nat>, path: seq<nat>, i: nat)
    requires i < |ps| && i + 1 < |path|
  {
    var from, to := path[i], path[i + 1];
    match ps[i]
    case Open => from == to
    case Close => from == to
    case Ref(n) => exists b: nat, e: nat :: GroupTextAt(ps, t, path, i, n, b, e)
    case _ =>
      if ps[i].star then from <= to <= |t| && forall k: nat :: PieceFitsAt(t, ps[i], from, to, k)
      else from < |t| && to == from + 1 && PieceFits(ps[i], t[from])
  }

  ghost predicate PieceAt(ps: seq<Piece>, t: seq<nat>, path: seq<nat>, i: nat)
  {
    i < |ps| && i + 1 < |path| ==> PieceOk(ps, t, path, i)
  }

  /** The pieces take up the text from `path[0]` up to the last position. */
  ghost predicate Covered(caret: bool, ps: seq<Piece>, dol: bool, t: seq<nat>, path: seq<nat>)
  {
    && |path| == |ps| + 1 && path[0] <= |t| && (forall i: nat :: PieceAt(ps, t, path, i))
    && (caret ==> path[0] == 0) && (dol ==> path[|ps|] == |t|)
  }

  /** The line has what the pattern describes: somewhere, or with `^` from its start, with `$` to its end. */
  ghost predicate LineMatches(caret: bool, ps: seq<Piece>, dol: bool, t: seq<nat>)
  {
    exists path: seq<nat> :: Covered(caret, ps, dol, t, path)
  }

  // ---------------------------------------------------------------- the numbers of groups

  /** The numbers of the groups open behind the first `k` pieces. */
  function StackTo(ps: seq<Piece>, k: nat): seq<nat>
    requires k <= |ps|
  {
    if k == 0 then []
    else
      var s := StackTo(ps, k - 1);
      if ps[k - 1].Open? then s + [Opens(ps, k - 1)]
      else if ps[k - 1].Close? && s != [] then s[..|s| - 1] else s
  }

  lemma {:induction false} StackRises(ps: seq<Piece>, k: nat)
    requires k <= |ps|
    ensures forall i: nat, j: nat :: Rises(StackTo(ps, k), Opens(ps, k), i, j)
  {
    if k == 0 {
      forall i: nat, j: nat ensures Rises(StackTo(ps, k), Opens(ps, k), i, j) {
      }
    } else {
      StackRises(ps, k - 1);
      var s, s' := StackTo(ps, k - 1), StackTo(ps, k);
      forall i: nat, j: nat ensures Rises(s', Opens(ps, k), i, j) {
        assert Rises(s, Opens(ps, k - 1), i, j);
      }
    }
  }

  /** The group that piece `b` opens is still open behind piece `k - 1`, and its number on the stack; or
      it is not, and its number is gone. */
  ghost predicate StillOpen(ps: seq<Piece>, b: nat, k: nat)
    requires b < k <= |ps|
  {
    var s, s0 := StackTo(ps, k), StackTo(ps, b);
    Inside(ps, b, k) && |s| == |s0| + Balance(ps, b, k) > |s0| && s[..|s0| + 1] == s0 + [Opens(ps, b)]
  }

  ghost predicate Gone(ps: seq<Piece>, b: nat, k: nat)
    requires b < k <= |ps|
  {
    !Inside(ps, b, k) && Opens(ps, b) !in StackTo(ps, k)
  }

  lemma InsideMore(ps: seq<Piece>, b: nat, k: nat, k': nat)
    requires b < k < k' <= |ps| && k' == k + 1
    ensures Inside(ps, b, k') <==> Inside(ps, b, k) && Balance(ps, b, k') > 0
  {
    if Inside(ps, b, k') {
      assert InsideAt(ps, b, k', k');
      forall j: nat ensures InsideAt(ps, b, k, j) {
        assert InsideAt(ps, b, k', j);
      }
    }
    if Inside(ps, b, k) && Balance(ps, b, k') > 0 {
      forall j: nat ensures InsideAt(ps, b, k', j) {
        assert InsideAt(ps, b, k, j);
      }
    }
  }

  lemma {:induction false} OpensGrow(ps: seq<Piece>, b: nat, k: nat)
    requires b <= k <= |ps|
    ensures Opens(ps, b) <= Opens(ps, k)
    decreases k
  {
    if b < k {
      OpensGrow(ps, b, k - 1);
    }
  }

  lemma {:induction false} OpenOrGone(ps: seq<Piece>, b: nat, k: nat)
    requires b < k <= |ps| && ps[b].Open?
    ensures StillOpen(ps, b, k) || Gone(ps, b, k)
    decreases k
  {
    var s0 := StackTo(ps, b);
    if k == b + 1 {
      assert Balance(ps, b, b) == 0 && Balance(ps, b, k) == 1;
      assert StackTo(ps, k) == s0 + [Opens(ps, b)];
      forall j: nat ensures InsideAt(ps, b, k, j) {
      }
    } else {
      var h := k - 1;
      OpenOrGone(ps, b, h);
      InsideMore(ps, b, h, k);
      OpensGrow(ps, b + 1, h);
      if StillOpen(ps, b, h) {
        OpenStep(ps, b, h, k);
      }
    }
  }

  lemma OpenStep(ps: seq<Piece>, b: nat, h: nat, k: nat)
    requires b < h < k <= |ps| && k == h + 1 && ps[b].Open? && StillOpen(ps, b, h)
    ensures StillOpen(ps, b, k) || Gone(ps, b, k)
  {
    var s, s', s0 := StackTo(ps, h), StackTo(ps, k), StackTo(ps, b);
    InsideMore(ps, b, h, k);
    assert InsideAt(ps, b, h, h);
    if Balance(ps, b, k) > 0 {
      assert s'[..|s0| + 1] == s[..|s0| + 1];
    } else {
      assert s' == s[..|s0| + 1][..|s0|] == s0;
      StackRises(ps, b);
      forall i: nat | i < |s0| ensures s0[i] != Opens(ps, b) {
        assert Rises(s0, Opens(ps, b), i, i);
      }
    }
  }

  /** At a `\)`, the number on top of the stack is that of the group it closes. */
  lemma TopCloses(ps: seq<Piece>, n: nat, b: nat, e: nat)
    requires b < e < |ps| && ps[b].Open? && Opens(ps, b) == n && ps[e].Close? && StackTo(ps, e) != []
    ensures var s := StackTo(ps, e); s[|s| - 1] == n <==> IsGroup(ps, n, b, e)
  {
    var s, s0 := StackTo(ps, e), StackTo(ps, b);
    OpenOrGone(ps, b, e);
    if StillOpen(ps, b, e) {
      assert InsideAt(ps, b, e, e);
      assert s[|s0|] == s[..|s0| + 1][|s0|] == n;
      StackRises(ps, e);
      if |s| > |s0| + 1 {
        assert Rises(s, Opens(ps, e), |s0|, |s| - 1);
      }
    }
  }

  // ---------------------------------------------------------------- pieces and items

  /** Item `j` is the one for piece `j`, with the groups open there. */
  ghost predicate ItemAt(ps: seq<Piece>, items: seq<Item>, n: nat, j: nat)
  {
    j < n && j < |ps| && j < |items| ==>
      (ps[j].Close? ==> StackTo(ps, j) != []) && items[j] == ItemOf(ps[j], StackTo(ps, j), Opens(ps, j))
  }

  lemma {:induction false} ItemsAt(ps: seq<Piece>, k: nat, front: seq<Item>, closed: nat)
    requires |front| == k <= |ps| && forall j: nat :: ItemAt(ps, front, k, j)
    requires Legal(ps[k..], StackTo(ps, k), closed, Opens(ps, k))
    ensures var items := ItemsFrom(front, ps[k..], StackTo(ps, k), Opens(ps, k));
            |items| == |ps| && forall j: nat :: ItemAt(ps, items, |ps|, j)
    decreases |ps| - k
  {
    if k < |ps| {
      var next, p := k + 1, ps[k];
      var item := ItemOf(p, StackTo(ps, k), Opens(ps, k));
      assert ps[k..][1..] == ps[next..];
      forall j: nat ensures ItemAt(ps, front + [item], next, j) {
        assert ItemAt(ps, front, k, j);
      }
      ItemsAt(ps, next, front + [item], if p.Close? then closed + 1 else closed);
    }
  }

  lemma PieceItems(ps: seq<Piece>, dol: bool)
    requires Legal(ps, [], 0, 0)
    ensures var items := ItemsOf(ps) + DolIf(dol);
            && |items| == |ps| + (if dol then 1 else 0) && (dol ==> items[|ps|] == Dol)
            && forall j: nat :: ItemAt(ps, items, |ps|, j)
  {
    assert ps[0..] == ps;
    ItemsAt(ps, 0, [], 0);
    forall j: nat ensures ItemAt(ps, ItemsOf(ps) + DolIf(dol), |ps|, j) {
      assert ItemAt(ps, ItemsOf(ps), |ps|, j);
    }
  }

  lemma GroupsAgree(ps: seq<Piece>, items: seq<Item>, n: nat, b: nat, e: nat, i: nat)
    requires e < i <= |ps| <= |items| && forall j: nat :: ItemAt(ps, items, |ps|, j)
    ensures Group(items, n, b, e, i) <==> IsGroup(ps, n, b, e)
  {
    if b < e {
      assert ItemAt(ps, items, |ps|, b) && ItemAt(ps, items, |ps|, e);
      if ps[b].Open? && Opens(ps, b) == n && ps[e].Close? {
        TopCloses(ps, n, b, e);
      }
    }
  }

  /** A piece takes up what its item matches. */
  lemma PieceIsItem(ps: seq<Piece>, items: seq<Item>, t: seq<nat>, path: seq<nat>, i: nat)
    requires TextOk(t) && i < |ps| <= |items| && i + 1 < |path| && forall j: nat :: ItemAt(ps, items, |ps|, j)
    ensures ItemOk(items, t, path, i) <==> PieceOk(ps, t, path, i)
  {
    assert ItemAt(ps, items, |ps|, i);
    match ps[i]
    case Open =>
    case Close =>
    case Ref(n) => RefIsBack(ps, items, t, path, i, n);
    case _ => CharsFit(ps, items, t, path, i);
  }

  lemma RefIsBack(ps: seq<Piece>, items: seq<Item>, t: seq<nat>, path: seq<nat>, i: nat, n: nat)
    requires i < |ps| <= |items| && i + 1 < |path| && forall j: nat :: ItemAt(ps, items, |ps|, j)
    ensures (exists b: nat, e: nat :: BackOk(items, t, path, i, n, b, e))
            <==> exists b: nat, e: nat :: GroupTextAt(ps, t, path, i, n, b, e)
  {
    if b: nat, e: nat :| BackOk(items, t, path, i, n, b, e) {
      GroupsAgree(ps, items, n, b, e, i);
      assert GroupTextAt(ps, t, path, i, n, b, e);
    }
    if b: nat, e: nat :| GroupTextAt(ps, t, path, i, n, b, e) {
      GroupsAgree(ps, items, n, b, e, i);
      assert BackOk(items, t, path, i, n, b, e);
    }
  }

  lemma OneFits(p: Piece, stack: seq<nat>, numbra: nat, c: nat)
    requires 0 < c < 128 && (p.Lit? || p.Any? || p.Class?)
    ensures Fits(ItemOf(p, stack, numbra).x, c) <==> PieceFits(p, c)
  {
    if p.Class? {
      ClassFits(p.neg, p.elems, p.star, stack, numbra, c);
    }
  }

  lemma CharsFit(ps: seq<Piece>, items: seq<Item>, t: seq<nat>, path: seq<nat>, i: nat)
    requires TextOk(t) && i < |ps| <= |items| && i + 1 < |path| && ItemAt(ps, items, |ps|, i)
    requires ps[i].Lit? || ps[i].Any? || ps[i].Class?
    ensures ItemOk(items, t, path, i) <==> PieceOk(ps, t, path, i)
  {
    var p, from, to := ps[i], path[i], path[i + 1];
    var x := ItemOf(p, StackTo(ps, i), Opens(ps, i)).x;
    forall k: nat ensures k < |t| ==> (Fits(x, t[k]) <==> PieceFits(p, t[k])) {
      if k < |t| {
        assert CharAt(t, k);
        OneFits(p, StackTo(ps, i), Opens(ps, i), t[k]);
      }
    }
    if p.star {
      AllChars(t, x, p, from, to);
    }
  }

  lemma AllChars(t: seq<nat>, x: Single, p: Piece, from: nat, to: nat)
    requires forall k: nat | k < |t| :: Fits(x, t[k]) <==> PieceFits(p, t[k])
    ensures (forall k: nat :: FitsAt(t, x, from, to, k)) <==> forall k: nat :: PieceFitsAt(t, p, from, to, k)
  {
    if forall k: nat :: FitsAt(t, x, from, to, k) {
      forall k: nat ensures PieceFitsAt(t, p, from, to, k) {
        assert FitsAt(t, x, from, to, k);
      }
    }
    if forall k: nat :: PieceFitsAt(t, p, from, to, k) {
      forall k: nat ensures FitsAt(t, x, from, to, k) {
        assert PieceFitsAt(t, p, from, to, k);
      }
    }
  }

  ghost predicate FoundFrom(caret: bool, items: seq<Item>, t: seq<nat>, p: nat)
  {
    MatchesFrom(items, t, p) && (caret ==> p == 0)
  }

  /** The compiled items match somewhere in exactly the lines that the pieces describe. */
  lemma LineMeans(caret: bool, ps: seq<Piece>, dol: bool, t: seq<nat>)
    requires TextOk(t) && Legal(ps, [], 0, 0)
    ensures (exists p: nat :: FoundFrom(caret, ItemsOf(ps) + DolIf(dol), t, p)) <==> LineMatches(caret, ps, dol, t)
  {
    var items := ItemsOf(ps) + DolIf(dol);
    PieceItems(ps, dol);
    if p: nat :| FoundFrom(caret, items, t, p) {
      var path: seq<nat> :| Completes(items, t, [p], path);
      CoveredBy(caret, ps, dol, items, t, path);
    }
    if path: seq<nat> :| Covered(caret, ps, dol, t, path) {
      CompletedBy(caret, ps, dol, items, t, path);
    }
  }

  lemma CoveredBy(caret: bool, ps: seq<Piece>, dol: bool, items: seq<Item>, t: seq<nat>, path: seq<nat>)
    requires TextOk(t) && |items| == |ps| + (if dol then 1 else 0) && (dol ==> items[|ps|] == Dol)
    requires forall j: nat :: ItemAt(ps, items, |ps|, j)
    requires |path| == |items| + 1 && PathOk(items, t, path) && (caret ==> path[0] == 0)
    ensures LineMatches(caret, ps, dol, t)
  {
    var n := |ps|;
    var front := path[..n + 1];
    forall i: nat ensures PieceAt(ps, t, front, i) {
      if i < n {
        assert StepOk(items, t, path, i);
        assert front[..i + 2] == path[..i + 2];
        ItemOkUpTo(items, t, path, front, i);
        PieceIsItem(ps, items, t, front, i);
      }
    }
    assert StepOk(items, t, path, n);
    assert Covered(caret, ps, dol, t, front);
  }

  lemma CompletedBy(caret: bool, ps: seq<Piece>, dol: bool, items: seq<Item>, t: seq<nat>, path: seq<nat>)
    requires TextOk(t) && |items| == |ps| + (if dol then 1 else 0) && (dol ==> items[|ps|] == Dol)
    requires (forall j: nat :: ItemAt(ps, items, |ps|, j)) && Covered(caret, ps, dol, t, path)
    ensures exists p: nat :: FoundFrom(caret, items, t, p)
  {
    var n := |ps|;
    var whole := if dol then path + [path[n]] else path;
    forall i: nat ensures StepOk(items, t, whole, i) {
      if i < n {
        assert PieceAt(ps, t, path, i);
        PieceIsItem(ps, items, t, path, i);
        assert whole[..i + 2] == path[..i + 2];
        ItemOkUpTo(items, t, path, whole, i);
      }
    }
    assert whole[..1] == [path[0]];
    assert Completes(items, t, [path[0]], whole);
    assert FoundFrom(caret, items, t, path[0]);
  }

  // ---------------------------------------------------------------- compiler and interpreter

  /** A pattern as written, on a line: "RE error" exactly if it needs too many bytes; else the line is found exactly
      if it has what the pieces describe. */
  method GrepLine(caret: bool, ps: seq<Piece>, dol: bool, t: seq<nat>) returns (ok: bool, found: bool)
    requires Legal(ps, [], 0, 0) && RefsClosed(ps, [], 0) && TextOk(t)
    ensures ok <==> AllBytes(ps) + (if dol then 1 else 0) < ESIZE
    ensures ok ==> (found <==> LineMatches(caret, ps, dol, t))
  {
    var astr := (if caret then [CARET] else []) + (Spell(ps) + DollarIf(dol));
    ghost var s := START;
    SpeltIsWell(s, caret, ps, dol);
    LineFound(caret, ps, dol, t);
    var circf, r := Compile(astr, s);
    if !r.Ok? {
      return false, false;
    }
    ok := true;
    var m := new Matcher(r.items, circf);
    m.SetLine(t);
    found := m.Execute();
  }

  lemma LineFound(caret: bool, ps: seq<Piece>, dol: bool, t: seq<nat>)
    requires TextOk(t) && Legal(ps, [], 0, 0)
    ensures (exists p: nat :: MatchesFrom(ItemsOf(ps) + DolIf(dol), t, p) && (caret ==> p == 0))
            <==> LineMatches(caret, ps, dol, t)
  {
    var items := ItemsOf(ps) + DolIf(dol);
    LineMeans(caret, ps, dol, t);
    if p: nat :| MatchesFrom(items, t, p) && (caret ==> p == 0) {
      assert FoundFrom(caret, items, t, p);
    }
    if p: nat :| FoundFrom(caret, items, t, p) {
      assert MatchesFrom(items, t, p);
    }
  }
}
