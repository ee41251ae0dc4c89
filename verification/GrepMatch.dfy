/** The matcher of bin/grep.c: `advance`, `ecmp` and the matching part of `execute`. */
module GrepMatch {

  const NBRA: nat := 9
  const NUL: nat := 0

  /** What matches one character: `CCHR`, `CDOT` or `CCL` with the characters of its bit map. */
  datatype Single = Chr(c: nat) | Dot | Ccl(members: set<nat>)

  /** A compiled item; `Many` is a `Single` with the `STAR` bit.  The end of the list is `CEOF`. */
  datatype Item = One(x: Single) | Many(x: Single) | Dol | Bra(n: nat) | Ket(n: nat) | Back(n: nat)

  predicate Fits(x: Single, c: nat)
  {
    match x
    case Chr(d) => c == d
    case Dot => c != NUL
    case Ccl(members) => c in members
  }

  // ---------------------------------------------------------------- what a pattern means

  /** Characters are 7-bit, and the line holds no NUL. */
  ghost predicate CharAt(t: seq<nat>, i: nat)
  {
    i < |t| ==> 0 < t[i] < 128
  }

  ghost predicate TextOk(t: seq<nat>)
  {
    forall i: nat :: CharAt(t, i)
  }

  ghost predicate FitsAt(t: seq<nat>, x: Single, p: nat, q: nat, i: nat)
  {
    p <= i < q && i < |t| ==> Fits(x, t[i])
  }

  /** Every character from `p` up to `q` fits `x`. */
  ghost predicate AllFit(t: seq<nat>, x: Single, p: nat, q: nat)
  {
    p <= q <= |t| && forall i: nat :: FitsAt(t, x, p, q, i)
  }

  ghost predicate SameText(t: seq<nat>, a: nat, b: nat, p: nat, q: nat)
  {
    a <= b <= |t| && p <= q <= |t| && t[a..b] == t[p..q]
  }

  /** Group `n` is items `b` to `e`, both before item `i`. */
  ghost predicate Group(items: seq<Item>, n: nat, b: nat, e: nat, i: nat)
  {
    b < e < i <= |items| && items[b] == Bra(n) && items[e] == Ket(n)
  }

  ghost predicate BackOk(items: seq<Item>, t: seq<nat>, path: seq<nat>, i: nat, n: nat, b: nat, e: nat)
  {
    i + 1 < |path| && Group(items, n, b, e, i) && SameText(t, path[b], path[e], path[i], path[i + 1])
  }

  /** Item `i` matches the text from position `path[i]` up to `path[i + 1]`. */
  ghost predicate ItemOk(items: seq<Item>, t: seq<nat>, path: seq<nat>, i: nat)
    requires i < |items| && i + 1 < |path|
  {
    var p, q := path[i], path[i + 1];
    match items[i]
    case One(x) => p < |t| && q == p + 1 && Fits(x, t[p])
    case Many(x) => AllFit(t, x, p, q)
    case Dol => p == q == |t|
    case Bra(_) => p == q
    case Ket(_) => p == q
    case Back(n) => exists b: nat, e: nat :: BackOk(items, t, path, i, n, b, e)
  }

  ghost predicate StepOk(items: seq<Item>, t: seq<nat>, path: seq<nat>, i: nat)
  {
    i < |items| && i + 1 < |path| ==> ItemOk(items, t, path, i)
  }

  /** A choice of positions for the first items, one more than there are items. */
  ghost predicate PathOk(items: seq<Item>, t: seq<nat>, path: seq<nat>)
  {
    0 < |path| <= |items| + 1 && path[0] <= |t| && forall i: nat :: StepOk(items, t, path, i)
  }

  ghost predicate Completes(items: seq<Item>, t: seq<nat>, pre: seq<nat>, path: seq<nat>)
  {
    |path| == |items| + 1 && |pre| <= |path| && path[..|pre|] == pre && PathOk(items, t, path)
  }

  /** Some choice of positions for the other items matches. */
  ghost predicate Possible(items: seq<Item>, t: seq<nat>, pre: seq<nat>)
  {
    exists path: seq<nat> :: Completes(items, t, pre, path)
  }

  /** The pattern matches the text from position `p` on. */
  ghost predicate MatchesFrom(items: seq<Item>, t: seq<nat>, p: nat)
  {
    p <= |t| && Possible(items, t, [p])
  }

  // ---------------------------------------------------------------- well-formed patterns

  ghost predicate SingleOk(x: Single)
  {
    !Fits(x, NUL)
  }

  ghost predicate WellItem(items: seq<Item>, i: nat)
  {
    i < |items| ==>
      match items[i]
      case One(x) => SingleOk(x)
      case Many(x) => SingleOk(x)
      case Dol => true
      case Bra(n) => n < NBRA
      case Ket(n) => n < NBRA
      case Back(n) => n < NBRA && exists b: nat, e: nat :: Group(items, n, b, e, i)
  }

  /** No group is opened or closed twice. */
  ghost predicate OnceOnly(items: seq<Item>, i: nat, j: nat)
  {
    i < j < |items| && (items[i].Bra? || items[i].Ket?) ==> items[i] != items[j]
  }

  ghost predicate WellFormed(items: seq<Item>)
  {
    (forall i: nat :: WellItem(items, i)) && forall i: nat, j: nat :: OnceOnly(items, i, j)
  }

  // ---------------------------------------------------------------- one item at a time

  lemma ItemOkUpTo(items: seq<Item>, t: seq<nat>, a: seq<nat>, b: seq<nat>, i: nat)
    requires i < |items| && i + 1 < |a| && i + 1 < |b| && a[..i + 2] == b[..i + 2]
    ensures ItemOk(items, t, a, i) ==> ItemOk(items, t, b, i)
  {
    assert forall k: nat | k < i + 2 :: a[k] == a[..i + 2][k] == b[k];
    if ItemOk(items, t, a, i) && items[i].Back? {
      var x: nat, y: nat :| BackOk(items, t, a, i, items[i].n, x, y);
      assert BackOk(items, t, b, i, items[i].n, x, y);
    }
  }

  lemma PathMore(items: seq<Item>, t: seq<nat>, pre: seq<nat>, q: nat)
    requires PathOk(items, t, pre) && |pre| <= |items| && ItemOk(items, t, pre + [q], |pre| - 1)
    ensures PathOk(items, t, pre + [q])
  {
    var path := pre + [q];
    forall i: nat ensures StepOk(items, t, path, i) {
      assert StepOk(items, t, pre, i);
      if i < |items| && i + 1 < |pre| {
        assert pre[..i + 2] == path[..i + 2];
        ItemOkUpTo(items, t, pre, path, i);
      }
    }
  }

  lemma PossibleMore(items: seq<Item>, t: seq<nat>, pre: seq<nat>, q: nat)
    requires Possible(items, t, pre + [q])
    ensures Possible(items, t, pre)
  {
    var path: seq<nat> :| Completes(items, t, pre + [q], path);
    assert path[..|pre|] == path[..|pre| + 1][..|pre|] == pre;
    assert Completes(items, t, pre, path);
  }

  /** A match goes on with some next position, and item `|pre| - 1` allows it. */
  lemma PossibleNext(items: seq<Item>, t: seq<nat>, pre: seq<nat>) returns (q: nat)
    requires Possible(items, t, pre) && 0 < |pre| <= |items|
    ensures Possible(items, t, pre + [q]) && ItemOk(items, t, pre + [q], |pre| - 1) && !NoNext(items, t, pre, q)
  {
    var path: seq<nat> :| Completes(items, t, pre, path);
    q := path[|pre|];
    assert path[..|pre| + 1] == pre + [q];
    assert Completes(items, t, pre + [q], path);
    var i: nat := |pre| - 1;
    assert StepOk(items, t, path, i);
    assert (pre + [q])[..i + 2] == path[..i + 2];
    ItemOkUpTo(items, t, path, pre + [q], i);
  }

  /** All items placed: that is a match. */
  lemma AllPlaced(items: seq<Item>, t: seq<nat>, pre: seq<nat>)
    requires PathOk(items, t, pre) && |pre| == |items| + 1
    ensures Possible(items, t, pre)
  {
    assert Completes(items, t, pre, pre);
  }

  ghost predicate NextIs(items: seq<Item>, t: seq<nat>, pre: seq<nat>, q: nat, q': nat)
  {
    0 < |pre| <= |items| && ItemOk(items, t, pre + [q'], |pre| - 1) ==> q' == q
  }

  /** An item that can only lead to `q` and does. */
  lemma OnlyNext(items: seq<Item>, t: seq<nat>, pre: seq<nat>, q: nat)
    requires PathOk(items, t, pre) && |pre| <= |items| && ItemOk(items, t, pre + [q], |pre| - 1)
    requires forall q': nat :: NextIs(items, t, pre, q, q')
    ensures PathOk(items, t, pre + [q])
    ensures Possible(items, t, pre) <==> Possible(items, t, pre + [q])
  {
    PathMore(items, t, pre, q);
    if Possible(items, t, pre) {
      var q' := PossibleNext(items, t, pre);
      assert NextIs(items, t, pre, q, q');
    }
    if Possible(items, t, pre + [q]) {
      PossibleMore(items, t, pre, q);
    }
  }

  ghost predicate NoNext(items: seq<Item>, t: seq<nat>, pre: seq<nat>, q': nat)
  {
    0 < |pre| <= |items| ==> !ItemOk(items, t, pre + [q'], |pre| - 1)
  }

  lemma DeadEnd(items: seq<Item>, t: seq<nat>, pre: seq<nat>)
    requires 0 < |pre| <= |items| && forall q': nat :: NoNext(items, t, pre, q')
    ensures !Possible(items, t, pre)
  {
    if Possible(items, t, pre) {
      var q' := PossibleNext(items, t, pre);
    }
  }

  // ---------------------------------------------------------------- each kind of item

  lemma OneStep(items: seq<Item>, t: seq<nat>, pre: seq<nat>)
    requires PathOk(items, t, pre) && |pre| <= |items| && items[|pre| - 1].One?
    ensures var p, x := pre[|pre| - 1], items[|pre| - 1].x;
            if p < |t| && Fits(x, t[p])
            then PathOk(items, t, pre + [p + 1]) && (Possible(items, t, pre) <==> Possible(items, t, pre + [p + 1]))
            else !Possible(items, t, pre)
  {
    var p, x := pre[|pre| - 1], items[|pre| - 1].x;
    if p < |t| && Fits(x, t[p]) {
      var q := p + 1;
      forall q': nat ensures NextIs(items, t, pre, q, q') {
      }
      OnlyNext(items, t, pre, q);
    } else {
      forall q': nat ensures NoNext(items, t, pre, q') {
      }
      DeadEnd(items, t, pre);
    }
  }

  lemma StayStep(items: seq<Item>, t: seq<nat>, pre: seq<nat>)
    requires PathOk(items, t, pre) && |pre| <= |items|
    requires items[|pre| - 1].Dol? || items[|pre| - 1].Bra? || items[|pre| - 1].Ket?
    ensures var p := pre[|pre| - 1];
            if items[|pre| - 1].Dol? && p != |t| then !Possible(items, t, pre)
            else PathOk(items, t, pre + [p]) && (Possible(items, t, pre) <==> Possible(items, t, pre + [p]))
  {
    var p := pre[|pre| - 1];
    if items[|pre| - 1].Dol? && p != |t| {
      forall q': nat ensures NoNext(items, t, pre, q') {
      }
      DeadEnd(items, t, pre);
    } else {
      forall q': nat ensures NextIs(items, t, pre, p, q') {
      }
      OnlyNext(items, t, pre, p);
    }
  }

  /** The group a back-reference names is the only one of its number. */
  lemma GroupUnique(items: seq<Item>, n: nat, b: nat, e: nat, b': nat, e': nat, i: nat)
    requires WellFormed(items) && Group(items, n, b, e, i) && Group(items, n, b', e', i)
    ensures b == b' && e == e'
  {
    assert OnceOnly(items, b, b') && OnceOnly(items, b', b) && OnceOnly(items, e, e') && OnceOnly(items, e', e);
  }

  lemma BackStep(items: seq<Item>, t: seq<nat>, pre: seq<nat>, b: nat, e: nat)
    requires WellFormed(items) && PathOk(items, t, pre) && |pre| <= |items| && items[|pre| - 1].Back?
    requires Group(items, items[|pre| - 1].n, b, e, |pre| - 1) && pre[b] <= pre[e] <= |t|
    ensures var p, ct := pre[|pre| - 1], pre[e] - pre[b];
            if SameText(t, pre[b], pre[e], p, p + ct)
            then PathOk(items, t, pre + [p + ct]) && (Possible(items, t, pre) <==> Possible(items, t, pre + [p + ct]))
            else !Possible(items, t, pre)
  {
    var i: nat := |pre| - 1;
    var p, q, n := pre[i], pre[i] + (pre[e] - pre[b]), items[i].n;
    forall q': nat ensures ItemOk(items, t, pre + [q'], i) ==> q' == q && SameText(t, pre[b], pre[e], p, q) {
      if ItemOk(items, t, pre + [q'], i) {
        var b': nat, e': nat :| BackOk(items, t, pre + [q'], i, n, b', e');
        GroupUnique(items, n, b, e, b', e', i);
        assert |t[pre[b]..pre[e]]| == |t[p..q']|;
      }
    }
    if SameText(t, pre[b], pre[e], p, q) {
      assert BackOk(items, t, pre + [q], i, n, b, e);
      forall q': nat ensures NextIs(items, t, pre, q, q') {
      }
      OnlyNext(items, t, pre, q);
    } else {
      forall q': nat ensures NoNext(items, t, pre, q') {
      }
      DeadEnd(items, t, pre);
    }
  }

  lemma {:induction false} PathRises(items: seq<Item>, t: seq<nat>, path: seq<nat>, j: nat, k: nat)
    requires PathOk(items, t, path) && j <= k < |path|
    ensures path[j] <= path[k] <= |t|
    decreases k
  {
    if k > 0 {
      var i: nat := k - 1;
      PathRises(items, t, path, if j < k then j else i, i);
      assert StepOk(items, t, path, i);
      if items[i].Back? {
        var b: nat, e: nat :| BackOk(items, t, path, i, items[i].n, b, e);
      }
    }
  }

  // ---------------------------------------------------------------- repeated items

  /** `q` is as far as characters that fit `x` go. */
  ghost predicate RunEnd(t: seq<nat>, x: Single, p: nat, q: nat)
  {
    AllFit(t, x, p, q) && (q < |t| ==> !Fits(x, t[q]))
  }

  lemma ManyAllows(items: seq<Item>, t: seq<nat>, pre: seq<nat>, m: nat, q: nat)
    requires 0 < |pre| <= |items| && items[|pre| - 1].Many? && RunEnd(t, items[|pre| - 1].x, pre[|pre| - 1], m)
    ensures ItemOk(items, t, pre + [q], |pre| - 1) <==> pre[|pre| - 1] <= q <= m
  {
    var p, x := pre[|pre| - 1], items[|pre| - 1].x;
    if p <= q <= m {
      forall i: nat ensures FitsAt(t, x, p, q, i) {
        assert FitsAt(t, x, p, m, i);
      }
    }
    if q > m && q <= |t| {
      assert !FitsAt(t, x, p, q, m) || m < p;
    }
  }

  /** Repeating up to position `q`, from `lo` to `hi`, does not lead to a match. */
  ghost predicate TriedAt(items: seq<Item>, t: seq<nat>, pre: seq<nat>, lo: nat, hi: nat, q: nat)
  {
    lo <= q <= hi ==> !Possible(items, t, pre + [q])
  }

  ghost predicate TriedFrom(items: seq<Item>, t: seq<nat>, pre: seq<nat>, lo: nat, hi: nat)
  {
    forall q: nat :: TriedAt(items, t, pre, lo, hi, q)
  }

  lemma TriedOneMore(items: seq<Item>, t: seq<nat>, pre: seq<nat>, lo: nat, lo': nat, hi: nat)
    requires TriedFrom(items, t, pre, lo', hi) && lo' == lo + 1
    requires !Possible(items, t, pre + [lo])
    ensures TriedFrom(items, t, pre, lo, hi)
  {
    forall q: nat ensures TriedAt(items, t, pre, lo, hi, q) {
      assert TriedAt(items, t, pre, lo', hi, q);
    }
  }

  lemma WasTried(items: seq<Item>, t: seq<nat>, pre: seq<nat>, lo: nat, hi: nat, q: nat)
    requires TriedFrom(items, t, pre, lo, hi) && lo <= q <= hi
    ensures !Possible(items, t, pre + [q])
  {
    assert TriedAt(items, t, pre, lo, hi, q);
  }

  /** When every number of characters has been tried, there is no match. */
  lemma AllTried(items: seq<Item>, t: seq<nat>, pre: seq<nat>, m: nat)
    requires 0 < |pre| <= |items| && items[|pre| - 1].Many? && RunEnd(t, items[|pre| - 1].x, pre[|pre| - 1], m)
    requires TriedFrom(items, t, pre, pre[|pre| - 1], m)
    ensures !Possible(items, t, pre)
  {
    if Possible(items, t, pre) {
      var q := PossibleNext(items, t, pre);
      ManyAllows(items, t, pre, m, q);
      WasTried(items, t, pre, pre[|pre| - 1], m, q);
    }
  }

  lemma ManyStep(items: seq<Item>, t: seq<nat>, pre: seq<nat>, m: nat, q: nat)
    requires PathOk(items, t, pre) && |pre| <= |items| && items[|pre| - 1].Many?
    requires RunEnd(t, items[|pre| - 1].x, pre[|pre| - 1], m) && pre[|pre| - 1] <= q <= m
    ensures PathOk(items, t, pre + [q])
  {
    ManyAllows(items, t, pre, m, q);
    PathMore(items, t, pre, q);
  }

  /** No characters at all is the only choice when none fits. */
  lemma NoneFits(items: seq<Item>, t: seq<nat>, pre: seq<nat>)
    requires PathOk(items, t, pre) && |pre| <= |items| && items[|pre| - 1].Many?
    requires RunEnd(t, items[|pre| - 1].x, pre[|pre| - 1], pre[|pre| - 1])
    ensures PathOk(items, t, pre + [pre[|pre| - 1]])
    ensures Possible(items, t, pre) <==> Possible(items, t, pre + [pre[|pre| - 1]])
  {
    var p := pre[|pre| - 1];
    ManyAllows(items, t, pre, p, p);
    forall q': nat ensures NextIs(items, t, pre, p, q') {
      ManyAllows(items, t, pre, p, q');
    }
    OnlyNext(items, t, pre, p);
  }

  // ---------------------------------------------------------------- groups

  /** The tables of group starts and ends hold the positions chosen for item `j`. */
  ghost predicate EnvAt(items: seq<Item>, pre: seq<nat>, bras: seq<int>, braes: seq<int>, j: nat)
    requires |bras| == NBRA && |braes| == NBRA
  {
    j + 1 < |pre| && j < |items| ==>
      match items[j]
      case Bra(n) => n < NBRA && bras[n] == pre[j]
      case Ket(n) => n < NBRA && braes[n] == pre[j]
      case _ => true
  }

  ghost predicate Env(items: seq<Item>, pre: seq<nat>, bras: seq<int>, braes: seq<int>)
  {
    |bras| == NBRA && |braes| == NBRA && forall j: nat :: EnvAt(items, pre, bras, braes, j)
  }

  lemma EnvMore(items: seq<Item>, pre: seq<nat>, bras: seq<int>, braes: seq<int>, q: nat)
    requires WellFormed(items) && 0 < |pre| <= |items| && Env(items, pre, bras, braes)
    ensures var i, p := |pre| - 1, pre[|pre| - 1];
            match items[i]
            case Bra(n) => n < NBRA && Env(items, pre + [q], bras[n := p], braes)
            case Ket(n) => n < NBRA && Env(items, pre + [q], bras, braes[n := p])
            case _ => Env(items, pre + [q], bras, braes)
  {
    var i: nat, p, pre' := |pre| - 1, pre[|pre| - 1], pre + [q];
    assert WellItem(items, i);
    var bras' := if items[i].Bra? then bras[items[i].n := p] else bras;
    var braes' := if items[i].Ket? then braes[items[i].n := p] else braes;
    forall j: nat ensures EnvAt(items, pre', bras', braes', j) {
      assert EnvAt(items, pre, bras, braes, j) && OnceOnly(items, j, i);
    }
  }

  lemma EnvLess(items: seq<Item>, pre: seq<nat>, pre': seq<nat>, bras: seq<int>, braes: seq<int>)
    requires Env(items, pre', bras, braes) && |pre| <= |pre'| && pre'[..|pre|] == pre
    ensures Env(items, pre, bras, braes)
  {
    forall j: nat ensures EnvAt(items, pre, bras, braes, j) {
      assert EnvAt(items, pre', bras, braes, j);
      assert j < |pre| ==> pre[j] == pre'[..|pre|][j];
    }
  }

  class Matcher {
    const expbuf: seq<Item>
    const circf: bool
    var linebuf: seq<nat>
    var braslist: seq<int>
    var braelist: seq<int>

    /** The line up to its NUL. */
    ghost function Text(): seq<nat>
      reads this
    {
      if linebuf == [] then [] else linebuf[..|linebuf| - 1]
    }

    ghost predicate Valid()
      reads this
    {
      && WellFormed(expbuf) && |braslist| == NBRA && |braelist| == NBRA
      && linebuf != [] && linebuf[|linebuf| - 1] == NUL && TextOk(Text())
    }

    constructor (expbuf: seq<Item>, circf: bool)
      requires WellFormed(expbuf)
      ensures Valid() && Text() == [] && this.expbuf == expbuf && this.circf == circf
    {
      this.expbuf, this.circf := expbuf, circf;
      linebuf := [NUL];
      braslist, braelist := seq(NBRA, _ => 0), seq(NBRA, _ => 0);
    }

    /** A line is read into the buffer. */
    method SetLine(t: seq<nat>)
      requires Valid() && TextOk(t)
      modifies `linebuf
      ensures Valid() && Text() == t
    {
      linebuf := t + [NUL];
    }

    /** `ecmp`. */
    method Ecmp(a: nat, b: nat, count: nat) returns (same: bool)
      requires Valid() && a + count <= |Text()| && b <= |Text()|
      ensures same <==> SameText(Text(), a, a + count, b, b + count)
    {
      ghost var t := Text();
      var k := 0;
      while k < count
        invariant k <= count && b + k <= |t| && t[a..a + k] == t[b..b + k]
      {
        assert CharAt(t, a + k) && linebuf[a + k] == t[a + k];
        if linebuf[a + k] != linebuf[b + k] {
          assert b + count <= |t| ==> t[a..a + count][k] != t[b..b + count][k];
          return false;
        }
        assert b + k < |t|;
        assert t[a..a + k + 1] == t[a..a + k] + [t[a + k]] && t[b..b + k + 1] == t[b..b + k] + [t[b + k]];
        k := k + 1;
      }
      return true;
    }

    /** The loops over `*lp++` before the label `star`. */
    method Scan(x: Single, curlp: nat) returns (lp: nat)
      requires Valid() && SingleOk(x) && curlp <= |Text()|
      ensures RunEnd(Text(), x, curlp, lp)
    {
      ghost var t := Text();
      lp := curlp;
      while Fits(x, linebuf[lp])
        invariant curlp <= lp <= |t| && AllFit(t, x, curlp, lp)
        decreases |t| - lp
      {
        ghost var next := lp + 1;
        forall i: nat ensures FitsAt(t, x, curlp, next, i) {
          assert FitsAt(t, x, curlp, lp, i);
        }
        lp := lp + 1;
      }
    }

    /** A back-reference: the text of its group again. */
    method Refer(lp: nat, ep: nat, ghost pre: seq<nat>) returns (ok: bool, next: nat)
      requires Valid() && ep < |expbuf| && |pre| == ep + 1 && pre[ep] == lp && expbuf[ep].Back?
      requires PathOk(expbuf, Text(), pre) && Env(expbuf, pre, braslist, braelist)
      ensures ok ==> PathOk(expbuf, Text(), pre + [next]) && Env(expbuf, pre + [next], braslist, braelist)
      ensures ok ==> (Possible(expbuf, Text(), pre) <==> Possible(expbuf, Text(), pre + [next]))
      ensures !ok ==> !Possible(expbuf, Text(), pre)
    {
      ghost var t := Text();
      var n := expbuf[ep].n;
      assert WellItem(expbuf, ep);
      ghost var b: nat, e: nat :| Group(expbuf, n, b, e, ep);
      assert EnvAt(expbuf, pre, braslist, braelist, b) && EnvAt(expbuf, pre, braslist, braelist, e);
      PathRises(expbuf, t, pre, b, e);
      PathRises(expbuf, t, pre, ep, ep);
      BackStep(expbuf, t, pre, b, e);
      var bbeg, ct := braslist[n], braelist[n] - braslist[n];
      ok := Ecmp(bbeg, lp, ct);
      next := lp + ct;
      EnvMore(expbuf, pre, braslist, braelist, next);
    }

    /** One turn of the loop of `advance` on an item that is not repeated. */
    method OneItem(lp: nat, ep: nat, ghost pre: seq<nat>) returns (ok: bool, next: nat)
      requires Valid() && ep < |expbuf| && |pre| == ep + 1 && pre[ep] == lp && !expbuf[ep].Many?
      requires PathOk(expbuf, Text(), pre) && Env(expbuf, pre, braslist, braelist)
      modifies `braslist, `braelist
      ensures Valid()
      ensures ok ==> PathOk(expbuf, Text(), pre + [next]) && Env(expbuf, pre + [next], braslist, braelist)
      ensures ok ==> (Possible(expbuf, Text(), pre) <==> Possible(expbuf, Text(), pre + [next]))
      ensures !ok ==> !Possible(expbuf, Text(), pre) && Env(expbuf, pre, braslist, braelist)
    {
      ghost var t := Text();
      PathRises(expbuf, t, pre, ep, ep);
      assert WellItem(expbuf, ep) && CharAt(t, lp);
      assert lp < |t| ==> linebuf[lp] == t[lp];
      ok, next := true, lp;
      match expbuf[ep]
      case One(x) =>
        OneStep(expbuf, t, pre);
        ok := Fits(x, linebuf[lp]);
        next := lp + 1;
        EnvMore(expbuf, pre, braslist, braelist, next);
      case Dol =>
        StayStep(expbuf, t, pre);
        ok := linebuf[lp] == NUL;
        EnvMore(expbuf, pre, braslist, braelist, next);
      case Bra(n) =>
        StayStep(expbuf, t, pre);
        EnvMore(expbuf, pre, braslist, braelist, next);
        braslist := braslist[n := lp];
      case Ket(n) =>
        StayStep(expbuf, t, pre);
        EnvMore(expbuf, pre, braslist, braelist, next);
        braelist := braelist[n := lp];
      case Back(n) =>
        ok, next := Refer(lp, ep, pre);
    }

    /** The loops behind the label `star`: as many characters as fit, then ever fewer.  If a
        plain character is next, places where it does not stand are passed over. */
    method TryFewer(curlp: nat, m: nat, ep: nat, ghost pre: seq<nat>) returns (r: bool)
      requires Valid() && 0 < ep <= |expbuf| && |pre| == ep && pre[ep - 1] == curlp && expbuf[ep - 1].Many?
      requires PathOk(expbuf, Text(), pre) && Env(expbuf, pre, braslist, braelist)
      requires RunEnd(Text(), expbuf[ep - 1].x, curlp, m)
      modifies `braslist, `braelist
      ensures Valid() && Env(expbuf, pre, braslist, braelist)
      ensures r <==> Possible(expbuf, Text(), pre)
      decreases |expbuf| - ep, 1
    {
      ghost var t := Text();
      var lp: int := m;
      while lp >= curlp
        invariant Valid() && Text() == t && Env(expbuf, pre, braslist, braelist)
        invariant curlp - 1 <= lp <= m && TriedFrom(expbuf, t, pre, lp + 1, m)
        decreases lp - curlp
      {
        ManyStep(expbuf, t, pre, m, lp);
        var skip := false;
        if ep < |expbuf| && expbuf[ep].One? && expbuf[ep].x.Chr? {
          skip := linebuf[lp] != expbuf[ep].x.c;
        }
        if skip {
          OneStep(expbuf, t, pre + [lp]);
        } else {
          EnvMore(expbuf, pre, braslist, braelist, lp);
          r := Advance(lp, ep, pre + [lp]);
          if r {
            PossibleMore(expbuf, t, pre, lp);
            EnvLess(expbuf, pre, pre + [lp], braslist, braelist);
            return;
          }
          EnvLess(expbuf, pre, pre + [lp], braslist, braelist);
        }
        TriedOneMore(expbuf, t, pre, lp, lp + 1, m);
        lp := lp - 1;
      }
      AllTried(expbuf, t, pre, m);
      return false;
    }

    /** `advance`: whether items `ep` and on match from `lp` on, given the choices `pre` that
        led there. */
    method Advance(lp0: nat, ep0: nat, ghost pre0: seq<nat>) returns (r: bool)
      requires Valid() && ep0 <= |expbuf| && |pre0| == ep0 + 1 && pre0[ep0] == lp0
      requires PathOk(expbuf, Text(), pre0) && Env(expbuf, pre0, braslist, braelist)
      modifies `braslist, `braelist
      ensures Valid() && Env(expbuf, pre0, braslist, braelist)
      ensures r <==> Possible(expbuf, Text(), pre0)
      decreases |expbuf| - ep0, 0
    {
      ghost var t, pre := Text(), pre0;
      var lp, ep := lp0, ep0;
      while ep < |expbuf|
        invariant Valid() && Text() == t && ep0 <= ep <= |expbuf| && |pre| == ep + 1 && pre[ep] == lp
        invariant PathOk(expbuf, t, pre) && Env(expbuf, pre, braslist, braelist)
        invariant pre[..ep0 + 1] == pre0 && (Possible(expbuf, t, pre0) <==> Possible(expbuf, t, pre))
        decreases |expbuf| - ep
      {
        var ok, next := true, lp;
        if expbuf[ep].Many? {
          assert WellItem(expbuf, ep);
          PathRises(expbuf, t, pre, ep, ep);
          var m := Scan(expbuf[ep].x, lp);
          if m != lp {
            r := TryFewer(lp, m, ep + 1, pre);
            EnvLess(expbuf, pre0, pre, braslist, braelist);
            return;
          }
          NoneFits(expbuf, t, pre);
          EnvMore(expbuf, pre, braslist, braelist, lp);
        } else {
          ok, next := OneItem(lp, ep, pre);
        }
        if !ok {
          EnvLess(expbuf, pre0, pre, braslist, braelist);
          return false;
        }
        lp, ep, pre := next, ep + 1, pre + [next];
      }
      AllPlaced(expbuf, t, pre);
      EnvLess(expbuf, pre0, pre, braslist, braelist);
      return true;
    }

    /** `execute` on the line read: at its start only for a pattern with `^`, else from every
        place, passing over those where the pattern's first plain character does not stand. */
    method Execute() returns (found: bool)
      requires Valid()
      modifies `braslist, `braelist
      ensures Valid()
      ensures found <==> exists p: nat :: MatchesFrom(expbuf, Text(), p) && (circf ==> p == 0)
    {
      ghost var t := Text();
      var p1 := 0;
      while p1 < |linebuf|
        invariant Valid() && Text() == t && p1 <= |t| + 1
        invariant circf ==> p1 == 0
        invariant forall p: nat :: NoMatchBefore(expbuf, t, p1, p)
        decreases |linebuf| - p1
      {
        EmptyEnv(expbuf, t, p1, braslist, braelist);
        if !circf && expbuf != [] && expbuf[0].One? && expbuf[0].x.Chr? && linebuf[p1] != expbuf[0].x.c {
          OneStep(expbuf, t, [p1]);
        } else {
          found := Advance(p1, 0, [p1]);
          if found {
            assert MatchesFrom(expbuf, t, p1);
            return;
          }
          if circf {
            return;
          }
        }
        var next := p1 + 1;
        NoMatchMore(expbuf, t, p1, next);
        p1 := next;
      }
      forall p: nat ensures !MatchesFrom(expbuf, t, p) {
        assert NoMatchBefore(expbuf, t, p1, p);
      }
      return false;
    }
  }

  ghost predicate NoMatchBefore(items: seq<Item>, t: seq<nat>, n: nat, p: nat)
  {
    p < n ==> !MatchesFrom(items, t, p)
  }

  lemma NoMatchMore(items: seq<Item>, t: seq<nat>, n: nat, n': nat)
    requires n' == n + 1 && !MatchesFrom(items, t, n) && forall p: nat :: NoMatchBefore(items, t, n, p)
    ensures forall p: nat :: NoMatchBefore(items, t, n', p)
  {
    forall p: nat ensures NoMatchBefore(items, t, n', p) {
      assert NoMatchBefore(items, t, n, p);
    }
  }

  lemma EmptyEnv(items: seq<Item>, t: seq<nat>, p: nat, bras: seq<int>, braes: seq<int>)
    requires p <= |t| && |bras| == NBRA && |braes| == NBRA
    ensures PathOk(items, t, [p]) && Env(items, [p], bras, braes)
  {
    forall i: nat ensures StepOk(items, t, [p], i) {
    }
    forall j: nat ensures EnvAt(items, [p], bras, braes, j) {
    }
  }
}
