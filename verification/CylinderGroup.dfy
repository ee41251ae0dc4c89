/** Cylinder-group bookkeeping: `initcg` and `alloc` of etc/mkfs.c, `makecg` of etc/icheck.c. */
module CylinderGroup {
  import QuadraticProbe
  import opened FragCount
  import opened FragMap

  /** Summary counters: directories, whole free blocks, loose free fragments. */
  datatype Csum = Csum(ndir: nat, nbfree: nat, nffree: nat)

  /** A cylinder group as written: its free map, how many fragments it has, its counters. */
  datatype Group = Group(bits: Bitmap, ndblk: nat, cs: Csum)

  /** The free fragments of a new group: below `lower`, and from `upper` up to `end`. */
  datatype Want = Want(lower: nat, upper: nat, end: nat)

  predicate Wanted(w: Want, i: nat)
  {
    i < w.lower || w.upper <= i < w.end
  }

  // ---------------------------------------------------------------- counters that agree

  /** The counters are those recounted from the first `n` blocks of the map. */
  ghost predicate Counted(v: seq<bool>, frag: nat, n: nat, nb: nat, nf: nat)
  {
    WholeBlocks(v, frag, n) == nb && LooseFrags(v, frag, n) == nf
  }

  ghost predicate AsWantedAt(v: seq<bool>, w: Want, hi: nat, i: nat)
  {
    i < hi ==> (IsFree(v, i) <==> Wanted(w, i))
  }

  ghost predicate AsWanted(v: seq<bool>, w: Want, hi: nat)
  {
    forall i: nat :: AsWantedAt(v, w, hi, i)
  }

  /** The first `n` blocks are as wanted, and counted. */
  ghost predicate Done(v: seq<bool>, frag: nat, w: Want, n: nat, nb: nat, nf: nat)
  {
    Counted(v, frag, n, nb, nf) && AsWanted(v, w, Start(frag, n))
  }

  ghost predicate WantedIntervalAt(w: Want, lo: nat, hi: nat, a: nat, b: nat, i: nat)
  {
    lo <= i < hi ==> (Wanted(w, i) <==> a <= i < b)
  }

  ghost predicate WantedInterval(w: Want, lo: nat, hi: nat, a: nat, b: nat)
  {
    forall i: nat :: WantedIntervalAt(w, lo, hi, a, b, i)
  }

  /** A block more, with the fragments from `a` up to `b` free. */
  lemma BlockDone(v: seq<bool>, v': seq<bool>, frag: nat, w: Want, n: nat, nb: nat, nf: nat, a: nat, b: nat)
    requires Done(v, frag, w, n, nb, nf) && SameFree(v, v', 0, Start(frag, n))
    requires Interval(v', Start(frag, n), Start(frag, n) + frag, a, b) && WantedInterval(w, Start(frag, n), Start(frag, n) + frag, a, b)
    ensures b - a == frag ==> Done(v', frag, w, n + 1, nb + 1, nf)
    ensures b - a != frag ==> Done(v', frag, w, n + 1, nb, nf + (b - a))
  {
    CountedMore(v, v', frag, n, nb, nf, a, b);
    WantedMore(v, v', w, Start(frag, n), Start(frag, n) + frag, a, b);
  }

  lemma CountedMore(v: seq<bool>, v': seq<bool>, frag: nat, n: nat, nb: nat, nf: nat, a: nat, b: nat)
    requires Counted(v, frag, n, nb, nf) && SameFree(v, v', 0, Start(frag, n))
    requires Interval(v', Start(frag, n), Start(frag, n) + frag, a, b)
    ensures b - a == frag ==> Counted(v', frag, n + 1, nb + 1, nf)
    ensures b - a != frag ==> Counted(v', frag, n + 1, nb, nf + (b - a))
  {
    SameBlocks(v, v', frag, n);
    CountInterval(v', Start(frag, n), frag, a, b);
    OneBlockMore(v', frag, n, b - a);
  }

  lemma WantedMore(v: seq<bool>, v': seq<bool>, w: Want, lo: nat, hi: nat, a: nat, b: nat)
    requires AsWanted(v, w, lo) && SameFree(v, v', 0, lo)
    requires Interval(v', lo, hi, a, b) && WantedInterval(w, lo, hi, a, b)
    ensures AsWanted(v', w, hi)
  {
    forall i: nat ensures AsWantedAt(v', w, hi, i) {
      assert AsWantedAt(v, w, lo, i) && SameAt(v, v', 0, lo, i);
      assert IntervalAt(v', lo, hi, a, b, i) && WantedIntervalAt(w, lo, hi, a, b, i);
    }
  }

  /** The map has room for `n` blocks. */
  predicate Room(bits: Bitmap, frag: nat, n: nat)
  {
    Start(frag, n) <= 8 * |bits|
  }

  lemma RoomFor(bits: Bitmap, frag: nat, n: nat, h: nat)
    requires Legal(frag) && Room(bits, frag, n) && h < n
    ensures BlockByte(frag, h) < |bits| && Start(frag, h) + frag <= 8 * |bits|
  {
    StartRises(frag, h, n);
    StartIs(frag, h);
  }

  /** Setting a block: nothing else changes. */
  lemma SetBlockInterval(bits: Bitmap, frag: nat, h: nat, bits': Bitmap)
    requires Legal(frag) && BlockByte(frag, h) < |bits| && bits' == SetBlock(bits, frag, h)
    ensures SameFree(View(bits), View(bits'), 0, Start(frag, h))
    ensures SameElsewhere(View(bits), View(bits'), Start(frag, h), Start(frag, h) + frag)
    ensures Interval(View(bits'), Start(frag, h), Start(frag, h) + frag, Start(frag, h), Start(frag, h) + frag)
  {
    var lo, hi, v, v' := Start(frag, h), Start(frag, h) + frag, View(bits), View(bits');
    SetBlockView(bits, frag, h, lo, hi, bits');
    forall i: nat ensures SameAt(v, v', 0, lo, i) {
      assert ViewSetAt(v, v', lo, hi, i);
    }
    forall i: nat ensures SameOutAt(v, v', lo, hi, i) {
      assert ViewSetAt(v, v', lo, hi, i);
    }
    forall i: nat ensures IntervalAt(v', lo, hi, lo, hi, i) {
      assert ViewSetAt(v, v', lo, hi, i);
    }
  }

  lemma ClrBlockInterval(bits: Bitmap, frag: nat, h: nat, bits': Bitmap)
    requires Legal(frag) && BlockByte(frag, h) < |bits| && bits' == ClrBlock(bits, frag, h)
    ensures SameFree(View(bits), View(bits'), 0, Start(frag, h))
    ensures SameElsewhere(View(bits), View(bits'), Start(frag, h), Start(frag, h) + frag)
    ensures Interval(View(bits'), Start(frag, h), Start(frag, h) + frag, Start(frag, h), Start(frag, h))
  {
    var lo, hi, v, v' := Start(frag, h), Start(frag, h) + frag, View(bits), View(bits');
    ClrBlockView(bits, frag, h, lo, hi, bits');
    forall i: nat ensures SameAt(v, v', 0, lo, i) {
      assert ViewClrAt(v, v', lo, hi, i);
    }
    forall i: nat ensures SameOutAt(v, v', lo, hi, i) {
      assert ViewClrAt(v, v', lo, hi, i);
    }
    forall i: nat ensures IntervalAt(v', lo, hi, lo, lo, i) {
      assert ViewClrAt(v, v', lo, hi, i);
    }
  }

  ghost predicate SameOutAt(v: seq<bool>, v': seq<bool>, lo: nat, hi: nat, i: nat)
  {
    !(lo <= i < hi) ==> (IsFree(v', i) <==> IsFree(v, i))
  }

  /** Only the stretch from `lo` up to `hi` changes. */
  ghost predicate SameElsewhere(v: seq<bool>, v': seq<bool>, lo: nat, hi: nat)
  {
    forall i: nat :: SameOutAt(v, v', lo, hi, i)
  }

  lemma ElsewhereAgain(a: seq<bool>, b: seq<bool>, c: seq<bool>, lo: nat, hi: nat)
    requires SameElsewhere(a, b, lo, hi) && SameElsewhere(b, c, lo, hi)
    ensures SameElsewhere(a, c, lo, hi)
  {
    forall i: nat ensures SameOutAt(a, c, lo, hi, i) {
      assert SameOutAt(a, b, lo, hi, i) && SameOutAt(b, c, lo, hi, i);
    }
  }

  lemma ElsewhereBefore(a: seq<bool>, b: seq<bool>, lo: nat, hi: nat, from: nat, to: nat)
    requires SameElsewhere(a, b, lo, hi) && (to <= lo || hi <= from)
    ensures SameFree(a, b, from, to)
  {
    forall i: nat ensures SameAt(a, b, from, to, i) {
      assert SameOutAt(a, b, lo, hi, i);
    }
  }

  /** `setbit` from `hi - 1` down to `a`, in a stretch that is clear. */
  method SetDown(bits: Bitmap, lo: nat, a: nat, hi: nat) returns (r: Bitmap)
    requires lo <= a <= hi <= 8 * |bits| && Interval(View(bits), lo, hi, lo, lo)
    ensures |r| == |bits| && SameElsewhere(View(bits), View(r), lo, hi) && Interval(View(r), lo, hi, a, hi)
  {
    r := bits;
    var i := hi;
    ghost var v := View(bits);
    NoChange(v, lo, hi);
    forall j: nat ensures IntervalAt(v, lo, hi, i, hi, j) {
      assert IntervalAt(v, lo, hi, lo, lo, j);
    }
    while i > a
      invariant a <= i <= hi && |r| == |bits| && SameElsewhere(v, View(r), lo, hi) && Interval(View(r), lo, hi, i, hi)
    {
      ghost var was, k := View(r), i;
      i := i - 1;
      SetBitView(r, i);
      r := SetBit(r, i);
      SetOneMore(v, was, View(r), lo, hi, k, i);
    }
  }

  lemma NoChange(v: seq<bool>, lo: nat, hi: nat)
    ensures SameElsewhere(v, v, lo, hi) && SameFree(v, v, lo, hi)
  {
    forall i: nat ensures SameOutAt(v, v, lo, hi, i) {
    }
    forall i: nat ensures SameAt(v, v, lo, hi, i) {
    }
  }

  lemma SetOneMore(v: seq<bool>, was: seq<bool>, now: seq<bool>, lo: nat, hi: nat, k: nat, i: nat)
    requires lo <= i < hi <= |was| && k == i + 1 && now == was[i := true]
    requires SameElsewhere(v, was, lo, hi) && Interval(was, lo, hi, k, hi)
    ensures SameElsewhere(v, now, lo, hi) && Interval(now, lo, hi, i, hi)
  {
    forall j: nat ensures IntervalAt(now, lo, hi, i, hi, j) {
      assert IntervalAt(was, lo, hi, k, hi, j);
    }
    forall j: nat ensures SameOutAt(v, now, lo, hi, j) {
      assert SameOutAt(v, was, lo, hi, j);
    }
  }

  ghost predicate HeadAt(v: seq<bool>, lo: nat, d: nat, b: nat, j: nat)
  {
    lo <= j < d ==> (IsFree(v, j) <==> j < b)
  }

  ghost predicate Head(v: seq<bool>, lo: nat, d: nat, b: nat)
  {
    forall j: nat :: HeadAt(v, lo, d, b, j)
  }

  lemma HeadMore(v: seq<bool>, was: seq<bool>, now: seq<bool>, lo: nat, hi: nat, d: nat, next: nat, b: nat)
    requires lo <= d < hi <= |was| && next == d + 1 && now == was[d := d < b]
    requires SameElsewhere(v, was, lo, hi) && Head(was, lo, d, b)
    ensures SameElsewhere(v, now, lo, hi) && Head(now, lo, next, b)
  {
    forall j: nat ensures HeadAt(now, lo, next, b, j) {
      assert HeadAt(was, lo, d, b, j);
    }
    forall j: nat ensures SameOutAt(v, now, lo, hi, j) {
      assert SameOutAt(v, was, lo, hi, j);
    }
  }

  /** The last, cut block: `setbit` up to `b`, `clrbit` up to the block's end. */
  method SetHead(bits: Bitmap, lo: nat, b: nat, hi: nat) returns (r: Bitmap)
    requires lo <= b <= hi <= 8 * |bits|
    ensures |r| == |bits| && SameElsewhere(View(bits), View(r), lo, hi) && Interval(View(r), lo, hi, lo, b)
  {
    r := bits;
    var d := lo;
    ghost var v := View(bits);
    NoChange(v, lo, hi);
    forall j: nat ensures HeadAt(v, lo, lo, b, j) {
    }
    while d < hi
      invariant lo <= d <= hi && |r| == |bits| && SameElsewhere(v, View(r), lo, hi) && Head(View(r), lo, d, b)
    {
      ghost var was := View(r);
      if d < b {
        SetBitView(r, d);
        r := SetBit(r, d);
      } else {
        ClrBitView(r, d);
        r := ClrBit(r, d);
      }
      HeadMore(v, was, View(r), lo, hi, d, d + 1, b);
      d := d + 1;
    }
    ghost var w := View(r);
    forall j: nat ensures IntervalAt(w, lo, hi, lo, b, j) {
      assert HeadAt(w, lo, hi, b, j);
    }
  }

  // ---------------------------------------------------------------- totals

  function Plus(a: Csum, b: Csum): Csum
  {
    Csum(a.ndir + b.ndir, a.nbfree + b.nbfree, a.nffree + b.nffree)
  }

  /** The sum over the groups. */
  function Total(cs: seq<Csum>): Csum
  {
    if cs == [] then Csum(0, 0, 0) else Plus(Total(cs[..|cs| - 1]), cs[|cs| - 1])
  }

  lemma TotalMore(cs: seq<Csum>, c: Csum)
    ensures Total(cs + [c]) == Plus(Total(cs), c)
  {
    assert (cs + [c])[..|cs|] == cs;
  }

  function SumOf(ns: seq<nat>): nat
  {
    if ns == [] then 0 else SumOf(ns[..|ns| - 1]) + ns[|ns| - 1]
  }

  /** Directories, whole blocks and loose fragments are summed each for itself. */
  lemma {:induction false} TotalIs(cs: seq<Csum>, dirs: seq<nat>, blocks: seq<nat>, frags: seq<nat>)
    requires |dirs| == |blocks| == |frags| == |cs|
    requires forall i | 0 <= i < |cs| :: cs[i] == Csum(dirs[i], blocks[i], frags[i])
    ensures Total(cs) == Csum(SumOf(dirs), SumOf(blocks), SumOf(frags))
  {
    if cs != [] {
      var n := |cs| - 1;
      TotalIs(cs[..n], dirs[..n], blocks[..n], frags[..n]);
    }
  }

  /** One group's counters change. */
  lemma {:induction false} TotalChanged(cs: seq<Csum>, i: nat, c: Csum)
    requires i < |cs|
    ensures Plus(Total(cs[i := c]), cs[i]) == Plus(Total(cs), c)
    decreases |cs|
  {
    var n: nat := |cs| - 1;
    if i == n {
      assert cs[i := c][..n] == cs[..n];
    } else {
      TotalChanged(cs[..n], i, c);
      assert cs[i := c][..n] == cs[..n][i := c];
    }
  }

  ghost predicate ClearAt(v: seq<bool>, from: nat, hi: nat, i: nat)
  {
    from <= i < hi ==> !IsFree(v, i)
  }

  /** The counters agree with the map, and nothing behind the group's end is free. */
  ghost predicate GroupOk(frag: nat, maxbpg: nat, g: Group)
  {
    && Room(g.bits, frag, maxbpg) && Counted(View(g.bits), frag, maxbpg, g.cs.nbfree, g.cs.nffree)
    && forall i: nat :: ClearAt(View(g.bits), g.ndblk, Start(frag, maxbpg), i)
  }

  ghost predicate GroupAt(frag: nat, maxbpg: nat, disk: seq<Group>, fscs: seq<Csum>, c: nat)
  {
    c < |disk| && c < |fscs| ==> GroupOk(frag, maxbpg, disk[c]) && fscs[c] == disk[c].cs
  }

  /** All that is free in a new group, counted. */
  lemma WantedCount(v: seq<bool>, w: Want, n: nat)
    requires AsWanted(v, w, n) && w.lower <= w.upper <= w.end <= n
    ensures CountFree(v, 0, n) == w.lower + (w.end - w.upper)
  {
    var k := n - w.upper;
    forall i: nat ensures IntervalAt(v, 0, w.upper, 0, w.lower, i) {
      assert AsWantedAt(v, w, n, i);
    }
    CountInterval(v, 0, w.upper, 0, w.lower);
    forall i: nat ensures IntervalAt(v, w.upper, n, w.upper, w.end, i) {
      assert AsWantedAt(v, w, n, i);
    }
    CountInterval(v, w.upper, k, w.upper, w.end);
    CountParts(v, 0, w.upper, k);
  }

  /** A block that is changed alone. */
  lemma {:induction false} BlockChanged(v: seq<bool>, v': seq<bool>, frag: nat, n: nat, h: nat)
    requires h < n && SameFree(v, v', 0, Start(frag, h)) && SameFree(v, v', Start(frag, h) + frag, Start(frag, n))
    requires CountFree(v, Start(frag, h), frag) == frag > 0 && CountFree(v', Start(frag, h), frag) < frag
    ensures WholeBlocks(v', frag, n) == WholeBlocks(v, frag, n) - 1
    ensures LooseFrags(v', frag, n) == LooseFrags(v, frag, n) + CountFree(v', Start(frag, h), frag)
    decreases n
  {
    var m, lo, hi := n - 1, Start(frag, h) + frag, Start(frag, n);
    var mid := Start(frag, m);
    OneBlockMore(v, frag, m, CountFree(v, mid, frag));
    OneBlockMore(v', frag, m, CountFree(v', mid, frag));
    if h == m {
      SameBlocks(v, v', frag, m);
    } else {
      StartRises(frag, h, m);
      SamePart(v, v', lo, hi, lo, mid);
      SamePart(v, v', lo, hi, mid, hi);
      BlockChanged(v, v', frag, m, h);
      SameCount(v, v', mid, frag);
    }
  }

  lemma SamePart(v: seq<bool>, v': seq<bool>, lo: nat, hi: nat, a: nat, b: nat)
    requires SameFree(v, v', lo, hi) && lo <= a && b <= hi
    ensures SameFree(v, v', a, b)
  {
    forall i: nat ensures SameAt(v, v', a, b, i) {
      assert SameAt(v, v', lo, hi, i);
    }
  }

  lemma {:induction false} SomeWhole(v: seq<bool>, frag: nat, n: nat) returns (h: nat)
    requires WholeBlocks(v, frag, n) > 0
    ensures h < n && CountFree(v, Start(frag, h), frag) == frag
  {
    if CountFree(v, Start(frag, n - 1), frag) == frag {
      h := n - 1;
    } else {
      h := SomeWhole(v, frag, n - 1);
    }
  }

  /** Fragment `i` of a new group is free exactly if it is below the superblock's copy, but not in the first group,
      or behind the group's tables and before its end. */
  ghost predicate NewFreeAt(v: seq<bool>, first: bool, lower: nat, upper: nat, ndblk: nat, hi: nat, i: nat)
  {
    i < hi ==> (IsFree(v, i) <==> (!first && i < lower) || upper <= i < ndblk)
  }

  ghost predicate NewFree(v: seq<bool>, first: bool, lower: nat, upper: nat, ndblk: nat, hi: nat)
  {
    forall i: nat :: NewFreeAt(v, first, lower, upper, ndblk, hi, i)
  }

  lemma NewIsFree(v: seq<bool>, frag: nat, first: bool, lower: nat, upper: nat, ndblk: nat, hi: nat)
    requires AsWanted(v, Wants(frag, first, lower, upper, ndblk), hi)
    ensures NewFree(v, first, Start(frag, lower), upper, ndblk, hi)
  {
    forall i: nat ensures NewFreeAt(v, first, Start(frag, lower), upper, ndblk, hi, i) {
      assert AsWantedAt(v, Wants(frag, first, lower, upper, ndblk), hi, i);
    }
  }

  class FileSystem {
    const frag: nat
    const maxbpg: nat
    /** The group in memory: its free map and counters. */
    var bits: Bitmap
    var nb: nat
    var nf: nat
    /** The groups as written, and the superblock's counters. */
    var disk: seq<Group>
    var fscs: seq<Csum>
    var cstotal: Csum
    var dsize: nat

    ghost predicate Valid()
      reads this
    {
      && Legal(frag) && Room(bits, frag, maxbpg) && |disk| == |fscs| && cstotal == Total(fscs)
      && forall c: nat :: GroupAt(frag, maxbpg, disk, fscs, c)
    }

    constructor (frag: nat, maxbpg: nat)
      requires Legal(frag)
      ensures Valid() && disk == [] && dsize == 0 && this.frag == frag && this.maxbpg == maxbpg
    {
      this.frag, this.maxbpg := frag, maxbpg;
      bits := seq(Start(frag, maxbpg), _ => 0);
      nb, nf, disk, fscs, cstotal, dsize := 0, 0, [], [], Csum(0, 0, 0), 0;
    }

    /** `setblock` on one block, counted. */
    method FillOne(h: nat, ghost h0: nat, ghost h1: nat, ghost w: Want)
      requires Legal(frag) && Room(bits, frag, maxbpg) && h0 <= h < h1 <= maxbpg && Done(View(bits), frag, w, h, nb, nf)
      requires WantedInterval(w, Start(frag, h0), Start(frag, h1), Start(frag, h0), Start(frag, h1))
      modifies `bits, `nb
      ensures |bits| == |old(bits)| && Done(View(bits), frag, w, h + 1, nb, nf)
    {
      RoomFor(bits, frag, maxbpg, h);
      WholeStep(bits, SetBlock(bits, frag, h), frag, w, h0, h1, h, nb, nf);
      bits := SetBlock(bits, frag, h);
      nb := nb + 1;
    }

    /** `setblock` on blocks `h0` up to `h1`. */
    method FillWhole(h0: nat, h1: nat, ghost w: Want)
      requires Legal(frag) && Room(bits, frag, maxbpg) && h0 <= h1 <= maxbpg && Done(View(bits), frag, w, h0, nb, nf)
      requires WantedInterval(w, Start(frag, h0), Start(frag, h1), Start(frag, h0), Start(frag, h1))
      modifies `bits, `nb
      ensures |bits| == |old(bits)| && Done(View(bits), frag, w, h1, nb, nf)
    {
      var h := h0;
      while h < h1
        invariant h0 <= h <= h1 && |bits| == |old(bits)| && Done(View(bits), frag, w, h, nb, nf)
      {
        FillOne(h, h0, h1, w);
        h := h + 1;
      }
    }

    /** `clrblock` on one block. */
    method EmptyOne(h: nat, ghost h0: nat, ghost h1: nat, ghost w: Want)
      requires Legal(frag) && Room(bits, frag, maxbpg) && h0 <= h < h1 <= maxbpg && Done(View(bits), frag, w, h, nb, nf)
      requires WantedInterval(w, Start(frag, h0), Start(frag, h1), Start(frag, h0), Start(frag, h0))
      modifies `bits
      ensures |bits| == |old(bits)| && Done(View(bits), frag, w, h + 1, nb, nf)
    {
      RoomFor(bits, frag, maxbpg, h);
      NoneStep(bits, ClrBlock(bits, frag, h), frag, w, h0, h1, h, nb, nf);
      bits := ClrBlock(bits, frag, h);
    }

    /** `clrblock` on blocks `h0` up to `h1`. */
    method FillNone(h0: nat, h1: nat, ghost w: Want)
      requires Legal(frag) && Room(bits, frag, maxbpg) && h0 <= h1 <= maxbpg && Done(View(bits), frag, w, h0, nb, nf)
      requires WantedInterval(w, Start(frag, h0), Start(frag, h1), Start(frag, h0), Start(frag, h0))
      modifies `bits
      ensures |bits| == |old(bits)| && Done(View(bits), frag, w, h1, nb, nf)
    {
      var h := h0;
      while h < h1
        invariant h0 <= h <= h1 && |bits| == |old(bits)| && Done(View(bits), frag, w, h, nb, nf)
      {
        EmptyOne(h, h0, h1, w);
        h := h + 1;
      }
    }

    /** The block that `upper` cuts: cleared, then set from `upper` on. */
    method CutBelow(h: nat, upper: nat, ghost w: Want)
      requires Legal(frag) && Room(bits, frag, maxbpg) && h < maxbpg && Done(View(bits), frag, w, h, nb, nf)
      requires Start(frag, h) < upper == w.upper < Start(frag, h) + frag <= w.end && w.lower <= Start(frag, h)
      modifies `bits, `nf
      ensures |bits| == |old(bits)| && Done(View(bits), frag, w, h + 1, nb, nf)
    {
      ghost var was := bits;
      RoomFor(bits, frag, maxbpg, h);
      bits := ClrBlock(bits, frag, h);
      ClrBlockInterval(was, frag, h, bits);
      ghost var clear := bits;
      var lo := Start(frag, h);
      bits := SetDown(bits, lo, upper, lo + frag);
      nf := nf + (lo + frag - upper);
      CutBelowDone(was, clear, bits, frag, w, h, nb, old(nf));
    }

    /** The block that the group's end cuts: set up to there, cleared behind. */
    method CutEnd(h: nat, end: nat, ghost w: Want)
      requires Legal(frag) && Room(bits, frag, maxbpg) && h < maxbpg && Done(View(bits), frag, w, h, nb, nf)
      requires Start(frag, h) < end == w.end < Start(frag, h) + frag && w.lower <= w.upper <= Start(frag, h)
      modifies `bits, `nf
      ensures |bits| == |old(bits)| && Done(View(bits), frag, w, h + 1, nb, nf)
    {
      ghost var was := bits;
      RoomFor(bits, frag, maxbpg, h);
      var lo := Start(frag, h);
      bits := SetHead(bits, lo, end, lo + frag);
      nf := nf + (end - lo);
      CutEndDone(was, bits, frag, w, h, nb, old(nf));
    }

    /** The blocks below the superblock's copy: free, but in group 0. */
    method FirstBlocks(first: bool, lower: nat, ghost w: Want)
      requires Legal(frag) && Room(bits, frag, maxbpg) && lower <= maxbpg && nb == nf == 0
      requires w.lower == (if first then 0 else Start(frag, lower)) && Start(frag, lower) <= w.upper
      modifies `bits, `nb
      ensures |bits| == |old(bits)| && Done(View(bits), frag, w, lower, nb, nf)
    {
      NothingDone(View(bits), frag, w);
      if first {
        WantGap(w, Start(frag, 0), Start(frag, lower));
        FillNone(0, lower, w);
      } else {
        WantBelow(w, Start(frag, 0), Start(frag, lower));
        FillWhole(0, lower, w);
      }
    }

    /** The map below `upper`, and the block that it cuts. */
    method BuildLow(first: bool, lower: nat, upper: nat, ghost w: Want) returns (h: nat)
      requires Legal(frag) && Room(bits, frag, maxbpg) && CutsOk(frag, maxbpg, lower, w) && upper == w.upper
      requires w.lower == if first then 0 else Start(frag, lower)
      requires nb == nf == 0
      modifies `bits, `nb, `nf
      ensures |bits| == |old(bits)| && Done(View(bits), frag, w, h, nb, nf)
      ensures h <= maxbpg && w.upper <= Start(frag, h) <= w.end
    {
      var u := upper / frag;
      BlockOrder(frag, maxbpg, lower, w);
      FirstBlocks(first, lower, w);
      Tables(lower, u, w);
      h := CutIfAny(u, upper, w);
    }

    /** The block that the tables cut, if they end inside one. */
    method CutIfAny(u: nat, upper: nat, ghost w: Want) returns (h: nat)
      requires Legal(frag) && Room(bits, frag, maxbpg) && Done(View(bits), frag, w, u, nb, nf)
      requires w.lower <= Start(frag, u) <= upper == w.upper <= w.end && u <= maxbpg
      requires Start(frag, u) < upper ==> u < maxbpg && upper < Start(frag, u) + frag <= w.end
      modifies `bits, `nf
      ensures |bits| == |old(bits)| && Done(View(bits), frag, w, h, nb, nf)
      ensures h <= maxbpg && w.upper <= Start(frag, h) <= w.end
    {
      h := u;
      if Start(frag, u) < upper {
        CutBelow(u, upper, w);
        h := u + 1;
      }
    }

    /** The blocks of the group's own tables. */
    method Tables(lower: nat, u: nat, ghost w: Want)
      requires Legal(frag) && Room(bits, frag, maxbpg) && lower <= u <= maxbpg && Done(View(bits), frag, w, lower, nb, nf)
      requires w.lower <= Start(frag, lower) && Start(frag, u) <= w.upper
      modifies `bits
      ensures |bits| == |old(bits)| && Done(View(bits), frag, w, u, nb, nf)
    {
      WantGap(w, Start(frag, lower), Start(frag, u));
      FillNone(lower, u, w);
    }

    /** The map from there to the group's end, and the rest of it. */
    method BuildHigh(h0: nat, ndblk: nat, ghost w: Want)
      requires Legal(frag) && Room(bits, frag, maxbpg) && Done(View(bits), frag, w, h0, nb, nf)
      requires w.lower <= w.upper <= Start(frag, h0) <= w.end == ndblk <= Start(frag, maxbpg)
      modifies `bits, `nb, `nf
      ensures |bits| == |old(bits)| && Done(View(bits), frag, w, maxbpg, nb, nf)
    {
      var e := ndblk / frag;
      EndOrder(frag, maxbpg, h0, w);
      WantAbove(w, Start(frag, h0), Start(frag, e));
      FillWhole(h0, e, w);
      BuildEnd(e, ndblk, w);
    }

    /** The block that the group's end cuts, and those behind it. */
    method BuildEnd(e: nat, ndblk: nat, ghost w: Want)
      requires Legal(frag) && Room(bits, frag, maxbpg) && Done(View(bits), frag, w, e, nb, nf) && e <= maxbpg
      requires w.lower <= w.upper <= Start(frag, e) <= w.end == ndblk <= Start(frag, maxbpg)
      requires Start(frag, e) < ndblk ==> e < maxbpg && ndblk < Start(frag, e) + frag
      modifies `bits, `nb, `nf
      ensures |bits| == |old(bits)| && Done(View(bits), frag, w, maxbpg, nb, nf)
    {
      var h := e;
      if Start(frag, e) < ndblk {
        CutEnd(e, ndblk, w);
        h := e + 1;
      }
      WantBeyond(w, Start(frag, h), Start(frag, maxbpg));
      FillNone(h, maxbpg, w);
    }

    /** The free map of `initcg`: `lower` blocks free but in group 0, and all from `upper` on. */
    method BuildMap(first: bool, lower: nat, upper: nat, ndblk: nat)
      requires Legal(frag) && Room(bits, frag, maxbpg)
      requires CutsOk(frag, maxbpg, lower, Wants(frag, first, lower, upper, ndblk))
      modifies `bits, `nb, `nf
      ensures |bits| == |old(bits)|
      ensures Done(View(bits), frag, Wants(frag, first, lower, upper, ndblk), maxbpg, nb, nf)
    {
      ghost var w := Wants(frag, first, lower, upper, ndblk);
      nb, nf := 0, 0;
      var h := BuildLow(first, lower, upper, w);
      BuildHigh(h, ndblk, w);
    }

    /** `initcg`: the next group, its map, its counters, and the totals with them. */
    method InitCg(lower: nat, upper: nat, ndblk: nat)
      requires Valid() && CutsOk(frag, maxbpg, lower, Wants(frag, disk == [], lower, upper, ndblk))
      modifies this
      ensures Valid() && |disk| == |old(disk)| + 1 && disk[..|old(disk)|] == old(disk)
      ensures var g := disk[|old(disk)|];
              && g.ndblk == ndblk && g.cs.ndir == 0
              && NewFree(View(g.bits), old(disk) == [], Start(frag, lower), upper, ndblk, Start(frag, maxbpg))
              && dsize == old(dsize) + Start(frag, g.cs.nbfree) + g.cs.nffree
    {
      ghost var w := Wants(frag, disk == [], lower, upper, ndblk);
      var first := disk == [];
      BuildMap(first, lower, upper, ndblk);
      NewGroupOk(View(bits), frag, maxbpg, w, nb, nf);
      NewIsFree(View(bits), frag, first, lower, upper, ndblk, Start(frag, maxbpg));
      dsize := dsize + (if first then 0 else Start(frag, lower)) + (ndblk - upper);
      AddGroup(Group(bits, ndblk, Csum(0, nb, nf)));
    }

    /** The group is written, and the superblock's counters follow. */
    method AddGroup(g: Group)
      requires Valid() && GroupOk(frag, maxbpg, g)
      modifies `disk, `fscs, `cstotal
      ensures Valid() && disk == old(disk) + [g]
    {
      GroupsMore(frag, maxbpg, disk, fscs, g, disk + [g], fscs + [g.cs]);
      TotalMore(fscs, g.cs);
      cstotal := Plus(cstotal, g.cs);
      disk := disk + [g];
      fscs := fscs + [g.cs];
    }

    method TestBlock(bits: Bitmap, h: nat) returns (whole: bool)
      requires Legal(frag) && Room(bits, frag, maxbpg) && h < maxbpg
      ensures whole <==> WholeAt(View(bits), frag, h)
    {
      RoomFor(bits, frag, maxbpg, h);
      WholeIsBlock(bits, frag, h);
      whole := IsBlock(bits, frag, h);
    }

    /** The loop of `alloc` that looks for a whole free block. */
    method FirstWhole(g: Group) returns (h: nat)
      requires Legal(frag) && GroupOk(frag, maxbpg, g) && g.cs.nbfree > 0
      ensures h < maxbpg && WholeAt(View(g.bits), frag, h)
      ensures forall k: nat :: NotWholeAt(View(g.bits), frag, h, k)
    {
      ghost var k := SomeWhole(View(g.bits), frag, maxbpg);
      WholeInGroup(g, frag, maxbpg, k);
      h := 0;
      while Start(frag, h) < g.ndblk
        invariant h <= k && forall j: nat :: NotWholeAt(View(g.bits), frag, h, j)
        decreases k - h
      {
        var whole := TestBlock(g.bits, h);
        if whole {
          return;
        }
        NotWholeMore(View(g.bits), frag, h, h + 1, k);
        h := h + 1;
      }
      StartRises(frag, h, k);
    }

    /** The bits of that: the block cleared, and set again from its `n`-th fragment on. */
    method CarveBits(was: Bitmap, h: nat, n: nat, loose: bool) returns (r: Bitmap)
      requires Legal(frag) && Room(was, frag, maxbpg) && h < maxbpg && 0 < n <= frag && (loose || n == frag)
      ensures |r| == |was| && SameElsewhere(View(was), View(r), Start(frag, h), Start(frag, h) + frag)
      ensures Interval(View(r), Start(frag, h), Start(frag, h) + frag, Start(frag, h) + n, Start(frag, h) + frag)
    {
      var lo := Start(frag, h);
      RoomFor(was, frag, maxbpg, h);
      r := ClrBlock(was, frag, h);
      ClrBlockInterval(was, frag, h, r);
      if loose {
        r := Loosen(was, r, lo, n);
      } else {
        ToEnd(View(r), lo, lo + frag);
      }
    }

    /** The fragments of a cleared block set again from the `n`-th on. */
    method Loosen(was: Bitmap, clear: Bitmap, lo: nat, n: nat) returns (r: Bitmap)
      requires 0 < n <= frag && lo + frag <= 8 * |clear|
      requires SameElsewhere(View(was), View(clear), lo, lo + frag)
      requires Interval(View(clear), lo, lo + frag, lo, lo)
      ensures |r| == |clear| && SameElsewhere(View(was), View(r), lo, lo + frag)
      ensures Interval(View(r), lo, lo + frag, lo + n, lo + frag)
    {
      r := SetUp(clear, lo, lo + n, lo + frag);
      ElsewhereAgain(View(was), View(clear), View(r), lo, lo + frag);
    }

    /** Block `h` of a group, taken but for its fragments from the `n`-th on. */
    method Carve(g: Group, h: nat, n: nat, loose: bool, isDir: bool) returns (g': Group)
      requires Legal(frag) && GroupOk(frag, maxbpg, g) && h < maxbpg && WholeAt(View(g.bits), frag, h)
      requires 0 < n <= frag && (loose || n == frag)
      modifies `bits, `nb, `nf
      ensures Room(bits, frag, maxbpg)
      ensures GroupOk(frag, maxbpg, g') && g'.ndblk == g.ndblk && Counts(g.cs, g'.cs, frag - n, isDir)
      ensures forall i: nat :: TakenAt(View(g.bits), View(g'.bits), Start(frag, h), n, i)
    {
      WholeCounted(g, frag, maxbpg, h);
      bits := CarveBits(g.bits, h, n, loose);
      nb, nf := g.cs.nbfree - 1, g.cs.nffree;
      if loose {
        nf := nf + (frag - n);
      }
      g' := Group(bits, g.ndblk, Csum(g.cs.ndir + (if isDir then 1 else 0), nb, nf));
      AllocOk(g, g', frag, maxbpg, h, n);
    }

    /** `alloc`: a block of group 0, or the first fragments of one, the others left loose.  Only
        an empty count of whole blocks makes it fail: the search never comes away empty. */
    method Alloc(size: nat, fsize: nat, isDir: bool) returns (d: int)
      requires Valid() && disk != [] && 0 < fsize && 0 < size <= Start(fsize, frag)
      modifies this
      ensures Valid() && |disk| == |old(disk)| && disk[1..] == old(disk)[1..]
      ensures old(disk)[0].cs.nbfree == 0 ==> d == NONE && disk == old(disk)
      ensures old(disk)[0].cs.nbfree > 0 ==>
                exists n: nat :: JustHolds(size, fsize, n) && Allocated(old(disk)[0], disk[0], frag, maxbpg, d, n, isDir)
                                 && Counts(old(cstotal), cstotal, frag - n, isDir)
    {
      var g := disk[0];
      assert GroupAt(frag, maxbpg, disk, fscs, 0);
      if g.cs.nbfree == 0 {
        return NONE;
      }
      var h := FirstWhole(g);
      HowManyFits(size, fsize, frag);
      HowManyHold(size, fsize);
      FullBlock(fsize, frag);
      var n := HowMany(size, fsize);
      var g' := Carve(g, h, n, size != Start(fsize, frag), isDir);
      Write0(g');
      d := Start(frag, h);
      assert AllocatedAt(g, g', frag, maxbpg, d, n, isDir, h);
    }

    /** The group is written back, and the superblock's counters follow. */
    method Write0(g: Group)
      requires Valid() && disk != [] && GroupOk(frag, maxbpg, g)
      modifies `disk, `fscs, `cstotal
      ensures Valid() && disk == old(disk)[0 := g]
      ensures cstotal.ndir == old(cstotal).ndir + g.cs.ndir - old(disk)[0].cs.ndir
      ensures cstotal.nbfree == old(cstotal).nbfree + g.cs.nbfree - old(disk)[0].cs.nbfree
      ensures cstotal.nffree == old(cstotal).nffree + g.cs.nffree - old(disk)[0].cs.nffree
    {
      assert GroupAt(frag, maxbpg, disk, fscs, 0);
      GroupChanged(frag, maxbpg, disk, fscs, 0, g, disk[0 := g], fscs[0 := g.cs]);
      TotalChanged(fscs, 0, g.cs);
      TotalHas(fscs, 0);
      cstotal := Minus(Plus(cstotal, g.cs), fscs[0]);
      fscs := fscs[0 := g.cs];
      disk := disk[0 := g];
    }

    /** `setbit` or `clrbit`. */
    method PutBit(i: nat, free: bool)
      requires i < 8 * |bits|
      modifies `bits
      ensures |bits| == |old(bits)| && View(bits) == old(View(bits))[i := free]
    {
      if free {
        SetBitView(bits, i);
        bits := SetBit(bits, i);
      } else {
        ClrBitView(bits, i);
        bits := ClrBit(bits, i);
      }
    }

    /** The inner loops of `makecg`: one block from the used map, clear behind the group's end,
        and how much of it is free. */
    method BlockFromUsed(h: nat, used: seq<bool>) returns (j: nat)
      requires Legal(frag) && Room(bits, frag, maxbpg) && h < maxbpg
      modifies `bits
      ensures |bits| == |old(bits)| && SameElsewhere(View(old(bits)), View(bits), Start(frag, h), Start(frag, h) + frag)
      ensures Follows(View(bits), used, Start(frag, h), Start(frag, h) + frag)
      ensures j == CountFree(View(bits), Start(frag, h), frag)
    {
      var lo := Start(frag, h);
      RoomFor(bits, frag, maxbpg, h);
      ghost var v := View(bits);
      NoChange(v, lo, lo + frag);
      NothingFollows(v, used, lo);
      j := 0;
      var d, hi := lo, lo + frag;
      while d < hi
        invariant d <= hi && |bits| == |old(bits)| && Partway(v, View(bits), used, lo, d, hi, j)
      {
        ghost var was := View(bits);
        var free := d < |used| && !used[d];
        PutBit(d, free);
        PartwayMore(v, was, View(bits), used, lo, d, d + 1, hi, j, if free then j + 1 else j);
        j := if free then j + 1 else j;
        d := d + 1;
      }
    }

    /** One block of a group, counted as whole or as loose fragments. */
    method CountBlock(h: nat, used: seq<bool>)
      requires Legal(frag) && Room(bits, frag, maxbpg) && h < maxbpg
      requires Counted(View(bits), frag, h, nb, nf) && Complements(View(bits), used, Start(frag, h))
      modifies `bits, `nb, `nf
      ensures |bits| == |old(bits)| && Counted(View(bits), frag, h + 1, nb, nf)
      ensures Complements(View(bits), used, Start(frag, h + 1))
    {
      ghost var was := View(bits);
      var j := BlockFromUsed(h, used);
      OneComplemented(was, View(bits), used, frag, h, nb, nf);
      if j == frag {
        nb := nb + 1;
      } else if j > 0 {
        nf := nf + j;
      }
    }

    /** The map of one group of `makecg`: the complement of the used map, counted.  The block that
        the group's end cuts is never whole, and what is free of it is loose. */
    method MapFromUsed(ndblk: nat, used: seq<bool>)
      requires Legal(frag) && Room(bits, frag, maxbpg) && |used| == ndblk <= Start(frag, maxbpg)
      modifies `bits, `nb, `nf
      ensures |bits| == |old(bits)| && Counted(View(bits), frag, maxbpg, nb, nf)
      ensures Complements(View(bits), used, Start(frag, maxbpg))
    {
      var e, h := ndblk / frag, 0;
      EndBlock(frag, maxbpg, ndblk);
      nb, nf := 0, 0;
      NothingComplemented(View(bits), used);
      while h < e
        invariant h <= e && |bits| == |old(bits)| && Room(bits, frag, maxbpg)
        invariant Counted(View(bits), frag, h, nb, nf) && Complements(View(bits), used, Start(frag, h))
      {
        CountBlock(h, used);
        h := h + 1;
      }
      CountEnd(h, ndblk, used);
    }

    /** The block that the group's end cuts, and those behind it. */
    method CountEnd(e: nat, ndblk: nat, used: seq<bool>)
      requires Legal(frag) && Room(bits, frag, maxbpg) && e <= maxbpg && Start(frag, e) <= |used| == ndblk <= Start(frag, maxbpg)
      requires Start(frag, e) < ndblk ==> e < maxbpg && ndblk < Start(frag, e) + frag
      requires Counted(View(bits), frag, e, nb, nf) && Complements(View(bits), used, Start(frag, e))
      modifies `bits, `nb, `nf
      ensures |bits| == |old(bits)| && Counted(View(bits), frag, maxbpg, nb, nf)
      ensures Complements(View(bits), used, Start(frag, maxbpg))
    {
      var h := e;
      if Start(frag, e) < ndblk {
        CountBlock(h, used);
        h := h + 1;
      }
      ClearRest(h, used);
    }

    /** `clrblock` on a block behind the group's end. */
    method ClearBehind(h: nat, used: seq<bool>)
      requires Legal(frag) && Room(bits, frag, maxbpg) && h < maxbpg && |used| <= Start(frag, h)
      requires Counted(View(bits), frag, h, nb, nf) && Complements(View(bits), used, Start(frag, h))
      modifies `bits
      ensures |bits| == |old(bits)| && Counted(View(bits), frag, h + 1, nb, nf)
      ensures Complements(View(bits), used, Start(frag, h + 1))
    {
      ghost var was := bits;
      RoomFor(bits, frag, maxbpg, h);
      bits := ClrBlock(bits, frag, h);
      ClrBlockInterval(was, frag, h, bits);
      OneCleared(View(was), View(bits), used, frag, h, nb, nf);
    }

    /** `clrblock` on the blocks behind the group's end. */
    method ClearRest(h0: nat, used: seq<bool>)
      requires Legal(frag) && Room(bits, frag, maxbpg) && h0 <= maxbpg && |used| <= Start(frag, h0)
      requires Counted(View(bits), frag, h0, nb, nf) && Complements(View(bits), used, Start(frag, h0))
      modifies `bits
      ensures |bits| == |old(bits)| && Counted(View(bits), frag, maxbpg, nb, nf)
      ensures Complements(View(bits), used, Start(frag, maxbpg))
    {
      var h := h0;
      while h < maxbpg
        invariant h0 <= h <= maxbpg && |bits| == |old(bits)| && Room(bits, frag, maxbpg)
        invariant Counted(View(bits), frag, h, nb, nf) && Complements(View(bits), used, Start(frag, h))
      {
        StartRises(frag, h0, h);
        ClearBehind(h, used);
        h := h + 1;
      }
    }

    /** `makecg`: every group rebuilt from the used map, and the totals with them. */
    method MakeCg(useds: seq<seq<bool>>, ndirs: seq<nat>)
      requires Legal(frag) && Room(bits, frag, maxbpg) && |ndirs| == |useds|
      requires forall c: nat | c < |useds| :: |useds[c]| <= Start(frag, maxbpg)
      modifies this
      ensures Valid() && |disk| == |useds|
      ensures forall c: nat :: RebuiltAt(disk, useds, ndirs, Start(frag, maxbpg), c)
    {
      disk, fscs, cstotal := [], [], Csum(0, 0, 0);
      var c := 0;
      while c < |useds|
        invariant c <= |useds| && |disk| == c && Valid()
        invariant forall k: nat :: RebuiltAt(disk, useds, ndirs, Start(frag, maxbpg), k)
      {
        ghost var disk0 := disk;
        MapFromUsed(|useds[c]|, useds[c]);
        var cs := Csum(ndirs[c], nb, nf);
        var g := Group(bits, |useds[c]|, cs);
        RebuiltOk(g, frag, maxbpg, useds[c]);
        AddGroup(g);
        RebuiltMore(disk0, disk, useds, ndirs, Start(frag, maxbpg), c);
        c := c + 1;
      }
    }
  }

  lemma NothingDone(v: seq<bool>, frag: nat, w: Want)
    ensures Done(v, frag, w, 0, 0, 0)
  {
    forall i: nat ensures AsWantedAt(v, w, 0, i) {
    }
  }

  lemma WantBelow(w: Want, a: nat, b: nat)
    requires b <= w.lower
    ensures WantedInterval(w, a, b, a, b)
  {
    forall i: nat ensures WantedIntervalAt(w, a, b, a, b, i) {
    }
  }

  lemma WantGap(w: Want, a: nat, b: nat)
    requires w.lower <= a && b <= w.upper
    ensures WantedInterval(w, a, b, a, a)
  {
    forall i: nat ensures WantedIntervalAt(w, a, b, a, a, i) {
    }
  }

  lemma WantAbove(w: Want, a: nat, b: nat)
    requires w.upper <= a && b <= w.end
    ensures WantedInterval(w, a, b, a, b)
  {
    forall i: nat ensures WantedIntervalAt(w, a, b, a, b, i) {
    }
  }

  lemma WantBeyond(w: Want, a: nat, b: nat)
    requires w.lower <= a && w.end <= a
    ensures WantedInterval(w, a, b, a, a)
  {
    forall i: nat ensures WantedIntervalAt(w, a, b, a, a, i) {
    }
  }

  /** What is free in a new group: not in group 0, the blocks below the superblock's copy; and
      all behind the group's own tables. */
  function Wants(frag: nat, first: bool, lower: nat, upper: nat, ndblk: nat): Want
  {
    Want(if first then 0 else Start(frag, lower), upper, ndblk)
  }

  /** The bounds are in order, and the block that holds the last table is in the group. */
  ghost predicate CutsOk(frag: nat, maxbpg: nat, lower: nat, w: Want)
    requires Legal(frag)
  {
    && w.lower <= Start(frag, lower) <= w.upper <= w.end <= Start(frag, maxbpg)
    && (Start(frag, w.upper / frag) < w.upper ==> Start(frag, w.upper / frag) + frag <= w.end)
  }

  lemma DivStart(frag: nat, n: nat)
    requires Legal(frag)
    ensures Start(frag, n / frag) == n - n % frag
  {
    StartIs(frag, n / frag);
  }

  lemma StartOrder(frag: nat, a: nat, b: nat)
    requires Start(frag, a) < Start(frag, b) + frag
    ensures a <= b
  {
    if b < a {
      StartRises(frag, b, a);
    }
  }

  /** The blocks cut by the bounds, in order. */
  lemma BlockOrder(frag: nat, maxbpg: nat, lower: nat, w: Want)
    requires Legal(frag) && CutsOk(frag, maxbpg, lower, w)
    ensures var u := w.upper / frag;
            && lower <= u <= maxbpg && Start(frag, lower) <= Start(frag, u) <= w.upper < Start(frag, u) + frag
            && (Start(frag, u) < w.upper ==> u < maxbpg && Start(frag, u) + frag <= w.end)
  {
    var u := w.upper / frag;
    DivStart(frag, w.upper);
    StartOrder(frag, lower, u);
    StartRises(frag, lower, u);
    StartOrder(frag, u, maxbpg);
    if Start(frag, u) < w.upper {
      StartOrder(frag, u + 1, maxbpg);
    }
  }

  lemma EndOrder(frag: nat, maxbpg: nat, h: nat, w: Want)
    requires Legal(frag) && Start(frag, h) <= w.end <= Start(frag, maxbpg)
    ensures var e := w.end / frag;
            && h <= e <= maxbpg && Start(frag, h) <= Start(frag, e) <= w.end < Start(frag, e) + frag
            && (Start(frag, e) < w.end ==> e < maxbpg)
  {
    var e := w.end / frag;
    DivStart(frag, w.end);
    StartOrder(frag, h, e);
    StartRises(frag, h, e);
    StartOrder(frag, e, maxbpg);
  }

  lemma CutBelowDone(was: Bitmap, clear: Bitmap, bits: Bitmap, frag: nat, w: Want, h: nat, nb: nat, nf: nat)
    requires Done(View(was), frag, w, h, nb, nf)
    requires Start(frag, h) < w.upper < Start(frag, h) + frag <= w.end && w.lower <= Start(frag, h)
    requires SameElsewhere(View(was), View(clear), Start(frag, h), Start(frag, h) + frag)
    requires SameElsewhere(View(clear), View(bits), Start(frag, h), Start(frag, h) + frag)
    requires Interval(View(bits), Start(frag, h), Start(frag, h) + frag, w.upper, Start(frag, h) + frag)
    ensures Done(View(bits), frag, w, h + 1, nb, nf + (Start(frag, h) + frag - w.upper))
  {
    var lo, hi := Start(frag, h), Start(frag, h) + frag;
    ElsewhereAgain(View(was), View(clear), View(bits), lo, hi);
    ElsewhereBefore(View(was), View(bits), lo, hi, 0, lo);
    forall i: nat ensures WantedIntervalAt(w, lo, hi, w.upper, hi, i) {
    }
    BlockDone(View(was), View(bits), frag, w, h, nb, nf, w.upper, hi);
  }

  lemma CutEndDone(was: Bitmap, bits: Bitmap, frag: nat, w: Want, h: nat, nb: nat, nf: nat)
    requires Done(View(was), frag, w, h, nb, nf)
    requires Start(frag, h) < w.end < Start(frag, h) + frag && w.lower <= w.upper <= Start(frag, h)
    requires SameElsewhere(View(was), View(bits), Start(frag, h), Start(frag, h) + frag)
    requires Interval(View(bits), Start(frag, h), Start(frag, h) + frag, Start(frag, h), w.end)
    ensures Done(View(bits), frag, w, h + 1, nb, nf + (w.end - Start(frag, h)))
  {
    var lo, hi := Start(frag, h), Start(frag, h) + frag;
    ElsewhereBefore(View(was), View(bits), lo, hi, 0, lo);
    forall i: nat ensures WantedIntervalAt(w, lo, hi, lo, w.end, i) {
    }
    BlockDone(View(was), View(bits), frag, w, h, nb, nf, lo, w.end);
  }

  ghost predicate WholeAt(v: seq<bool>, frag: nat, h: nat)
  {
    CountFree(v, Start(frag, h), frag) == frag
  }

  lemma NotWholeMore(v: seq<bool>, frag: nat, h: nat, h': nat, k: nat)
    requires h' == h + 1 && !WholeAt(v, frag, h) && forall j: nat :: NotWholeAt(v, frag, h, j)
    requires WholeAt(v, frag, k)
    ensures (forall j: nat :: NotWholeAt(v, frag, h', j)) && (h <= k ==> h' <= k)
  {
    forall j: nat ensures NotWholeAt(v, frag, h', j) {
      assert NotWholeAt(v, frag, h, j);
    }
  }

  /** A new group's map and counters agree, and all that is free is counted. */
  lemma NewGroupOk(v: seq<bool>, frag: nat, maxbpg: nat, w: Want, nb: nat, nf: nat)
    requires Done(v, frag, w, maxbpg, nb, nf) && w.lower <= w.upper <= w.end <= Start(frag, maxbpg)
    ensures forall i: nat :: ClearAt(v, w.end, Start(frag, maxbpg), i)
    ensures Start(frag, nb) + nf == w.lower + (w.end - w.upper)
  {
    var hi := Start(frag, maxbpg);
    forall i: nat ensures ClearAt(v, w.end, hi, i) {
      assert AsWantedAt(v, w, hi, i);
    }
    WantedCount(v, w, hi);
    FreeInAll(v, frag, maxbpg);
  }

  lemma GroupsMore(frag: nat, maxbpg: nat, disk: seq<Group>, fscs: seq<Csum>, g: Group, disk': seq<Group>, fscs': seq<Csum>)
    requires |disk| == |fscs| && GroupOk(frag, maxbpg, g) && forall c: nat :: GroupAt(frag, maxbpg, disk, fscs, c)
    requires disk' == disk + [g] && fscs' == fscs + [g.cs]
    ensures forall c: nat :: GroupAt(frag, maxbpg, disk', fscs', c)
  {
    forall c: nat ensures GroupAt(frag, maxbpg, disk', fscs', c) {
      assert GroupAt(frag, maxbpg, disk, fscs, c);
    }
  }

  lemma GroupChanged(frag: nat, maxbpg: nat, disk: seq<Group>, fscs: seq<Csum>, n: nat, g: Group,
                     disk': seq<Group>, fscs': seq<Csum>)
    requires n < |disk| == |fscs| && GroupOk(frag, maxbpg, g) && forall c: nat :: GroupAt(frag, maxbpg, disk, fscs, c)
    requires disk' == disk[n := g] && fscs' == fscs[n := g.cs]
    ensures forall c: nat :: GroupAt(frag, maxbpg, disk', fscs', c)
  {
    forall c: nat ensures GroupAt(frag, maxbpg, disk', fscs', c) {
      assert GroupAt(frag, maxbpg, disk, fscs, c);
    }
  }

  /** A whole free block begins before the group's end. */
  lemma WholeInGroup(g: Group, frag: nat, maxbpg: nat, k: nat)
    requires Legal(frag) && GroupOk(frag, maxbpg, g) && k < maxbpg
    requires CountFree(View(g.bits), Start(frag, k), frag) == frag
    ensures Start(frag, k) < g.ndblk
  {
    var lo, hi := Start(frag, k), Start(frag, k) + frag;
    CountAll(View(g.bits), lo, frag);
    StartRises(frag, k, maxbpg);
    assert IntervalAt(View(g.bits), lo, hi, lo, hi, lo);
    assert ClearAt(View(g.bits), g.ndblk, Start(frag, maxbpg), lo);
  }

  lemma WholeStep(bits: Bitmap, bits': Bitmap, frag: nat, w: Want, h0: nat, h1: nat, h: nat, nb: nat, nf: nat)
    requires Legal(frag) && BlockByte(frag, h) < |bits| && bits' == SetBlock(bits, frag, h) && h0 <= h < h1
    requires Done(View(bits), frag, w, h, nb, nf)
    requires WantedInterval(w, Start(frag, h0), Start(frag, h1), Start(frag, h0), Start(frag, h1))
    ensures Done(View(bits'), frag, w, h + 1, nb + 1, nf)
  {
    SetBlockInterval(bits, frag, h, bits');
    SubInterval(w, frag, h0, h1, h, true);
    BlockDone(View(bits), View(bits'), frag, w, h, nb, nf, Start(frag, h), Start(frag, h) + frag);
  }

  lemma NoneStep(bits: Bitmap, bits': Bitmap, frag: nat, w: Want, h0: nat, h1: nat, h: nat, nb: nat, nf: nat)
    requires Legal(frag) && BlockByte(frag, h) < |bits| && bits' == ClrBlock(bits, frag, h) && h0 <= h < h1
    requires Done(View(bits), frag, w, h, nb, nf)
    requires WantedInterval(w, Start(frag, h0), Start(frag, h1), Start(frag, h0), Start(frag, h0))
    ensures Done(View(bits'), frag, w, h + 1, nb, nf)
  {
    ClrBlockInterval(bits, frag, h, bits');
    SubInterval(w, frag, h0, h1, h, false);
    BlockDone(View(bits), View(bits'), frag, w, h, nb, nf, Start(frag, h), Start(frag, h));
  }

  /** A block inside a stretch that is wanted as a whole, or not at all. */
  lemma SubInterval(w: Want, frag: nat, h0: nat, h1: nat, h: nat, whole: bool)
    requires h0 <= h < h1
    requires WantedInterval(w, Start(frag, h0), Start(frag, h1), Start(frag, h0), if whole then Start(frag, h1) else Start(frag, h0))
    ensures WantedInterval(w, Start(frag, h), Start(frag, h) + frag, Start(frag, h), if whole then Start(frag, h) + frag else Start(frag, h))
  {
    var lo, hi, a, b := Start(frag, h0), Start(frag, h1), Start(frag, h), Start(frag, h) + frag;
    var m, n := if whole then hi else lo, if whole then b else a;
    StartRises(frag, h0, h);
    StartRises(frag, h, h1);
    forall i: nat ensures WantedIntervalAt(w, a, b, a, n, i) {
      assert WantedIntervalAt(w, lo, hi, lo, m, i);
    }
  }
  const NONE: int := -1

  /** `howmany`. */
  function HowMany(x: nat, y: nat): nat
    requires 0 < y
  {
    (x + y - 1) / y
  }

  /** `n` fragments of `fsize` bytes hold `size` bytes, and fewer do not. */
  ghost predicate JustHolds(size: nat, fsize: nat, n: nat)
  {
    size <= n * fsize < size + fsize
  }

  lemma HowManyHold(size: nat, fsize: nat)
    requires 0 < fsize
    ensures JustHolds(size, fsize, HowMany(size, fsize))
  {
    var x := size + fsize - 1;
    assert x == fsize * (x / fsize) + x % fsize;
  }

  /** A whole block less, `left` loose fragments more, and a directory more if it is for one. */
  ghost predicate Counts(a: Csum, b: Csum, left: int, isDir: bool)
  {
    b.ndir == a.ndir + (if isDir then 1 else 0) && b.nbfree == a.nbfree - 1 && b.nffree == a.nffree + left
  }

  /** What `alloc` does to the group: the first whole block is taken, its fragments but the
      first `n` are free again. */
  ghost predicate Allocated(g: Group, g': Group, frag: nat, maxbpg: nat, d: int, n: nat, isDir: bool)
  {
    exists h: nat :: AllocatedAt(g, g', frag, maxbpg, d, n, isDir, h)
  }

  ghost predicate TakenAt(v: seq<bool>, v': seq<bool>, lo: nat, n: nat, i: nat)
  {
    IsFree(v', i) <==> IsFree(v, i) && !(lo <= i < lo + n)
  }

  ghost predicate NotWholeAt(v: seq<bool>, frag: nat, h: nat, k: nat)
  {
    k < h ==> !WholeAt(v, frag, k)
  }

  ghost predicate AllocatedAt(g: Group, g': Group, frag: nat, maxbpg: nat, d: int, n: nat, isDir: bool, h: nat)
  {
    && h < maxbpg && d == Start(frag, h) && WholeAt(View(g.bits), frag, h) && 0 < n <= frag
    && (forall k: nat :: NotWholeAt(View(g.bits), frag, h, k))
    && (forall i: nat :: TakenAt(View(g.bits), View(g'.bits), Start(frag, h), n, i))
    && g'.ndblk == g.ndblk && Counts(g.cs, g'.cs, frag - n, isDir)
  }

  lemma HowManyFits(size: nat, fsize: nat, frag: nat)
    requires 0 < fsize && 0 < size <= Start(fsize, frag)
    ensures 0 < HowMany(size, fsize) <= frag
  {
    var x := size + fsize - 1;
    var q := x / fsize;
    assert x == fsize * q + x % fsize;
    StartIs(fsize, frag);
    StartIs(fsize, q);
    if q > frag {
      StartRises(fsize, frag, q);
    }
    assert q == 0 ==> fsize * q == 0;
  }

  lemma FullBlock(fsize: nat, frag: nat)
    requires 0 < fsize
    ensures HowMany(Start(fsize, frag), fsize) == frag
  {
    StartIs(fsize, frag);
    var x := Start(fsize, frag) + fsize - 1;
    assert x == fsize * frag + (fsize - 1);
    QuadraticProbe.DivisionUnique(x, fsize, frag, fsize - 1);
  }

  lemma ToEnd(v: seq<bool>, lo: nat, hi: nat)
    requires Interval(v, lo, hi, lo, lo)
    ensures Interval(v, lo, hi, hi, hi)
  {
    forall i: nat ensures IntervalAt(v, lo, hi, hi, hi, i) {
      assert IntervalAt(v, lo, hi, lo, lo, i);
    }
  }

  lemma WholeInterval(v: seq<bool>, lo: nat, frag: nat, hi: nat)
    requires hi == lo + frag && CountFree(v, lo, frag) == frag
    ensures Interval(v, lo, hi, lo, hi)
  {
    CountAll(v, lo, frag);
  }

  lemma AllTaken(v: seq<bool>, v': seq<bool>, lo: nat, hi: nat, mid: nat, n: nat)
    requires mid == lo + n && mid <= hi && SameElsewhere(v, v', lo, hi)
    requires Interval(v, lo, hi, lo, hi) && Interval(v', lo, hi, mid, hi)
    ensures forall i: nat :: TakenAt(v, v', lo, n, i)
  {
    forall i: nat ensures TakenAt(v, v', lo, n, i) {
      assert SameOutAt(v, v', lo, hi, i) && IntervalAt(v', lo, hi, mid, hi, i) && IntervalAt(v, lo, hi, lo, hi, i);
    }
  }

  /** A block taken from the whole ones, what is left of it loose. */
  lemma AllocOk(g: Group, g': Group, frag: nat, maxbpg: nat, h: nat, n: nat)
    requires Legal(frag) && GroupOk(frag, maxbpg, g) && h < maxbpg && WholeAt(View(g.bits), frag, h) && 0 < n <= frag
    requires SameElsewhere(View(g.bits), View(g'.bits), Start(frag, h), Start(frag, h) + frag)
    requires Interval(View(g'.bits), Start(frag, h), Start(frag, h) + frag, Start(frag, h) + n, Start(frag, h) + frag)
    requires g'.ndblk == g.ndblk && |g'.bits| == |g.bits|
    requires g.cs.nbfree > 0 && g'.cs.nbfree == g.cs.nbfree - 1 && g'.cs.nffree == g.cs.nffree + (frag - n)
    ensures GroupOk(frag, maxbpg, g')
    ensures forall i: nat :: TakenAt(View(g.bits), View(g'.bits), Start(frag, h), n, i)
  {
    var v, v', lo, hi, end := View(g.bits), View(g'.bits), Start(frag, h), Start(frag, h) + frag, Start(frag, maxbpg);
    var mid := lo + n;
    WholeInterval(v, lo, frag, hi);
    AllTaken(v, v', lo, hi, mid, n);
    AllocCounted(v, v', frag, maxbpg, h, lo, hi, mid, end);
    StillClear(v, v', g.ndblk, end, lo, n);
  }

  lemma StillClear(v: seq<bool>, v': seq<bool>, from: nat, end: nat, lo: nat, n: nat)
    requires forall i: nat :: ClearAt(v, from, end, i)
    requires forall i: nat :: TakenAt(v, v', lo, n, i)
    ensures forall i: nat :: ClearAt(v', from, end, i)
  {
    forall i: nat ensures ClearAt(v', from, end, i) {
      assert ClearAt(v, from, end, i) && TakenAt(v, v', lo, n, i);
    }
  }

  /** One whole block less, and the rest of it more loose fragments. */
  lemma AllocCounted(v: seq<bool>, v': seq<bool>, frag: nat, maxbpg: nat, h: nat, lo: nat, hi: nat, mid: nat, end: nat)
    requires Legal(frag) && h < maxbpg && lo == Start(frag, h) && hi == lo + frag && lo < mid <= hi && end == Start(frag, maxbpg)
    requires WholeAt(v, frag, h) && SameElsewhere(v, v', lo, hi) && Interval(v', lo, hi, mid, hi)
    ensures WholeBlocks(v', frag, maxbpg) == WholeBlocks(v, frag, maxbpg) - 1
    ensures LooseFrags(v', frag, maxbpg) == LooseFrags(v, frag, maxbpg) + (hi - mid)
  {
    ElsewhereBefore(v, v', lo, hi, 0, lo);
    ElsewhereBefore(v, v', lo, hi, hi, end);
    CountInterval(v', lo, frag, mid, hi);
    BlockChanged(v, v', frag, maxbpg, h);
  }

  lemma {:induction false} WholeAreCounted(v: seq<bool>, frag: nat, n: nat, h: nat)
    requires h < n && WholeAt(v, frag, h)
    ensures WholeBlocks(v, frag, n) > 0
  {
    if h < n - 1 {
      WholeAreCounted(v, frag, n - 1, h);
    }
  }

  lemma WholeCounted(g: Group, frag: nat, maxbpg: nat, h: nat)
    requires GroupOk(frag, maxbpg, g) && h < maxbpg && WholeAt(View(g.bits), frag, h)
    ensures g.cs.nbfree > 0
  {
    WholeAreCounted(View(g.bits), frag, maxbpg, h);
  }

  function Minus(a: Csum, b: Csum): Csum
    requires b.ndir <= a.ndir && b.nbfree <= a.nbfree && b.nffree <= a.nffree
  {
    Csum(a.ndir - b.ndir, a.nbfree - b.nbfree, a.nffree - b.nffree)
  }

  lemma {:induction false} TotalHas(cs: seq<Csum>, i: nat)
    requires i < |cs|
    ensures cs[i].ndir <= Total(cs).ndir && cs[i].nbfree <= Total(cs).nbfree && cs[i].nffree <= Total(cs).nffree
    decreases |cs|
  {
    if i < |cs| - 1 {
      TotalHas(cs[..|cs| - 1], i);
    }
  }

  /** `setbit` from `a` up to `hi`, in a stretch that is clear. */
  method SetUp(bits: Bitmap, lo: nat, a: nat, hi: nat) returns (r: Bitmap)
    requires lo <= a <= hi <= 8 * |bits| && Interval(View(bits), lo, hi, lo, lo)
    ensures |r| == |bits| && SameElsewhere(View(bits), View(r), lo, hi) && Interval(View(r), lo, hi, a, hi)
  {
    r := bits;
    var i := a;
    ghost var v := View(bits);
    NoChange(v, lo, hi);
    forall j: nat ensures IntervalAt(v, lo, hi, a, a, j) {
      assert IntervalAt(v, lo, hi, lo, lo, j);
    }
    while i < hi
      invariant a <= i <= hi && |r| == |bits| && SameElsewhere(v, View(r), lo, hi) && Interval(View(r), lo, hi, a, i)
    {
      ghost var was := View(r);
      SetBitView(r, i);
      r := SetBit(r, i);
      SetOneUp(v, was, View(r), lo, hi, a, i, i + 1);
      i := i + 1;
    }
  }

  lemma SetOneUp(v: seq<bool>, was: seq<bool>, now: seq<bool>, lo: nat, hi: nat, a: nat, i: nat, k: nat)
    requires lo <= a <= i < hi <= |was| && k == i + 1 && now == was[i := true]
    requires SameElsewhere(v, was, lo, hi) && Interval(was, lo, hi, a, i)
    ensures SameElsewhere(v, now, lo, hi) && Interval(now, lo, hi, a, k)
  {
    forall j: nat ensures IntervalAt(now, lo, hi, a, k, j) {
      assert IntervalAt(was, lo, hi, a, i, j);
    }
    forall j: nat ensures SameOutAt(v, now, lo, hi, j) {
      assert SameOutAt(v, was, lo, hi, j);
    }
  }

  // ---------------------------------------------------------------- rebuilding from the used map

  ghost predicate FollowsAt(v: seq<bool>, used: seq<bool>, lo: nat, hi: nat, i: nat)
  {
    lo <= i < hi ==> (IsFree(v, i) <==> i < |used| && !used[i])
  }

  /** From `lo` up to `hi` exactly what is in the group and not used is free. */
  ghost predicate Follows(v: seq<bool>, used: seq<bool>, lo: nat, hi: nat)
  {
    forall i: nat :: FollowsAt(v, used, lo, hi, i)
  }

  ghost predicate Complements(v: seq<bool>, used: seq<bool>, hi: nat)
  {
    Follows(v, used, 0, hi)
  }

  lemma NothingFollows(v: seq<bool>, used: seq<bool>, lo: nat)
    ensures Follows(v, used, lo, lo)
  {
    forall i: nat ensures FollowsAt(v, used, lo, lo, i) {
    }
  }

  lemma NothingComplemented(v: seq<bool>, used: seq<bool>)
    ensures Complements(v, used, 0)
  {
    NothingFollows(v, used, 0);
  }

  /** A block while it is made, from `lo` up to `d`. */
  ghost predicate Partway(v: seq<bool>, now: seq<bool>, used: seq<bool>, lo: nat, d: nat, hi: nat, j: nat)
  {
    lo <= d <= hi && SameElsewhere(v, now, lo, hi) && Follows(now, used, lo, d) && j == CountFree(now, lo, d - lo)
  }

  lemma PartwayMore(v: seq<bool>, was: seq<bool>, now: seq<bool>, used: seq<bool>, lo: nat, d: nat, next: nat, hi: nat,
                    j: nat, j': nat)
    requires Partway(v, was, used, lo, d, hi, j) && d < hi <= |was| && next == d + 1
    requires now == was[d := d < |used| && !used[d]]
    requires j' == if d < |used| && !used[d] then j + 1 else j
    ensures Partway(v, now, used, lo, next, hi, j')
  {
    var n := d - lo;
    forall i: nat ensures FollowsAt(now, used, lo, next, i) {
      assert FollowsAt(was, used, lo, d, i);
    }
    forall i: nat ensures SameOutAt(v, now, lo, hi, i) {
      assert SameOutAt(v, was, lo, hi, i);
    }
    forall i: nat ensures SameAt(was, now, lo, d, i) {
    }
    SameCount(was, now, lo, n);
    assert CountFree(now, lo, n + 1) == CountFree(now, lo, n) + (if IsFree(now, d) then 1 else 0);
  }

  lemma ClearedFollows(v: seq<bool>, used: seq<bool>, lo: nat, hi: nat)
    requires Interval(v, lo, hi, lo, lo) && |used| <= lo
    ensures Follows(v, used, lo, hi)
  {
    forall i: nat ensures FollowsAt(v, used, lo, hi, i) {
      assert IntervalAt(v, lo, hi, lo, lo, i);
    }
  }

  /** A block more is the complement of the used map. */
  lemma OneComplemented(was: seq<bool>, now: seq<bool>, used: seq<bool>, frag: nat, h: nat, nb: nat, nf: nat)
    requires Counted(was, frag, h, nb, nf) && Complements(was, used, Start(frag, h))
    requires SameElsewhere(was, now, Start(frag, h), Start(frag, h) + frag)
    requires Follows(now, used, Start(frag, h), Start(frag, h) + frag)
    ensures Complements(now, used, Start(frag, h + 1))
    ensures var c := CountFree(now, Start(frag, h), frag);
            Counted(now, frag, h + 1, nb + (if c == frag then 1 else 0), nf + (if c == frag then 0 else c))
  {
    var lo, hi := Start(frag, h), Start(frag, h) + frag;
    ElsewhereBefore(was, now, lo, hi, 0, lo);
    SameBlocks(was, now, frag, h);
    OneBlockMore(now, frag, h, CountFree(now, lo, frag));
    forall i: nat ensures FollowsAt(now, used, 0, hi, i) {
      assert FollowsAt(was, used, 0, lo, i) && SameAt(was, now, 0, lo, i) && FollowsAt(now, used, lo, hi, i);
    }
  }

  lemma OneCleared(was: seq<bool>, now: seq<bool>, used: seq<bool>, frag: nat, h: nat, nb: nat, nf: nat)
    requires frag > 0 && Counted(was, frag, h, nb, nf) && Complements(was, used, Start(frag, h)) && |used| <= Start(frag, h)
    requires SameElsewhere(was, now, Start(frag, h), Start(frag, h) + frag)
    requires Interval(now, Start(frag, h), Start(frag, h) + frag, Start(frag, h), Start(frag, h))
    ensures Counted(now, frag, h + 1, nb, nf) && Complements(now, used, Start(frag, h + 1))
  {
    ClearedFollows(now, used, Start(frag, h), Start(frag, h) + frag);
    CountInterval(now, Start(frag, h), frag, Start(frag, h), Start(frag, h));
    OneComplemented(was, now, used, frag, h, nb, nf);
  }

  lemma EndBlock(frag: nat, maxbpg: nat, ndblk: nat)
    requires Legal(frag) && ndblk <= Start(frag, maxbpg)
    ensures var e := ndblk / frag;
            e <= maxbpg && Start(frag, e) <= ndblk < Start(frag, e) + frag && (Start(frag, e) < ndblk ==> e < maxbpg)
  {
    DivStart(frag, ndblk);
    StartOrder(frag, ndblk / frag, maxbpg);
  }

  /** Group `c` was rebuilt from its used map. */
  ghost predicate RebuiltAt(disk: seq<Group>, useds: seq<seq<bool>>, ndirs: seq<nat>, hi: nat, c: nat)
  {
    c < |disk| && c < |useds| && c < |ndirs| ==>
      disk[c].ndblk == |useds[c]| && disk[c].cs.ndir == ndirs[c] && Complements(View(disk[c].bits), useds[c], hi)
  }

  lemma RebuiltOk(g: Group, frag: nat, maxbpg: nat, used: seq<bool>)
    requires Room(g.bits, frag, maxbpg) && Counted(View(g.bits), frag, maxbpg, g.cs.nbfree, g.cs.nffree)
    requires Complements(View(g.bits), used, Start(frag, maxbpg)) && g.ndblk == |used|
    ensures GroupOk(frag, maxbpg, g)
  {
    var v, hi := View(g.bits), Start(frag, maxbpg);
    forall i: nat ensures ClearAt(v, g.ndblk, hi, i) {
      assert FollowsAt(v, used, 0, hi, i);
    }
  }

  lemma RebuiltMore(disk0: seq<Group>, disk: seq<Group>, useds: seq<seq<bool>>, ndirs: seq<nat>, hi: nat, n: nat)
    requires n == |disk0| < |useds| == |ndirs| && |disk| == n + 1 && disk[..n] == disk0
    requires forall c: nat :: RebuiltAt(disk0, useds, ndirs, hi, c)
    requires RebuiltAt(disk, useds, ndirs, hi, n)
    ensures forall c: nat :: RebuiltAt(disk, useds, ndirs, hi, c)
  {
    forall c: nat ensures RebuiltAt(disk, useds, ndirs, hi, c) {
      assert RebuiltAt(disk0, useds, ndirs, hi, c);
      assert c < n ==> disk[c] == disk[..n][c];
    }
  }
}
