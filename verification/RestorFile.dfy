/** The block map of one file: ten direct addresses, then trees of one, two and
    three levels of indirection, as old/512restor.c lays them out. */
module RestorFile {
  import opened RestorBlocks

  const DIRECT: nat := NADDR - 3

  type Addresses = a: seq<int> | |a| == NADDR witness seq(NADDR, _ => 0)

  /** The depth of the tree that hangs off address `s`. */
  function SlotLevel(s: nat): nat
    requires s < NADDR
  {
    if s < DIRECT then 0 else s - DIRECT + 1
  }

  const MAXBLOCKS: nat := DIRECT + Cap(1) + Cap(2) + Cap(3)

  /** The address whose tree file block `bn` lies in. */
  function Slot(bn: nat): (s: nat)
    requires bn < MAXBLOCKS
    ensures s < NADDR && (bn < DIRECT <==> s < DIRECT)
  {
    if bn < DIRECT then bn
    else if bn - DIRECT < Cap(1) then NADDR - 3
    else if bn - DIRECT - Cap(1) < Cap(2) then NADDR - 2
    else NADDR - 1
  }

  /** The offset of file block `bn` in its tree. */
  function Offset(bn: nat): (off: nat)
    requires bn < MAXBLOCKS
    ensures off < Cap(SlotLevel(Slot(bn)))
  {
    if bn < DIRECT then 0
    else if bn - DIRECT < Cap(1) then bn - DIRECT
    else if bn - DIRECT - Cap(1) < Cap(2) then bn - DIRECT - Cap(1)
    else bn - DIRECT - Cap(1) - Cap(2)
  }

  /** File blocks fill the trees from the first address on, each from its first offset to its last. */
  lemma FilledInOrder(bn: nat, next: nat)
    requires next == bn + 1 < MAXBLOCKS
    ensures if Offset(bn) + 1 < Cap(SlotLevel(Slot(bn))) then Slot(next) == Slot(bn) && Offset(next) == Offset(bn) + 1
            else Slot(next) == Slot(bn) + 1 && Offset(next) == 0
    ensures bn == 0 ==> Slot(bn) == Offset(bn) == 0
    ensures next == MAXBLOCKS - 1 ==> Slot(next) == NADDR - 1 && Offset(next) == Cap(SlotLevel(NADDR - 1)) - 1
  {
    assert Cap(0) == 1;
  }

  /** The disk block that holds file block `bn`, 0 for a hole. */
  ghost function FileWalk(disk: Disk, a: Addresses, bn: nat): int
    requires bn < MAXBLOCKS
  {
    Walk(disk, a[Slot(bn)], SlotLevel(Slot(bn)), Offset(bn))
  }

  /** All blocks of the trees at the first `s` addresses. */
  ghost function FileUpto(disk: Disk, a: Addresses, s: nat): multiset<int>
    requires s <= |a|
  {
    if s == 0 then multiset{} else FileUpto(disk, a, s - 1) + Tree(disk, a[s - 1], SlotLevel(s - 1))
  }

  ghost function FileBlocks(disk: Disk, a: Addresses): multiset<int>
  {
    FileUpto(disk, a, |a|)
  }

  lemma FileStep(disk: Disk, a: Addresses, k: nat)
    requires 0 < k <= NADDR
    ensures FileUpto(disk, a, k) == FileUpto(disk, a, k - 1) + Tree(disk, a[k - 1], SlotLevel(k - 1))
  {
  }

  lemma {:induction false} OneSlot(disk: Disk, a: Addresses, s: nat, k: nat)
    requires s < k <= NADDR
    ensures Tree(disk, a[s], SlotLevel(s)) <= FileUpto(disk, a, k)
    decreases k
  {
    FileStep(disk, a, k);
    if s < k - 1 {
      OneSlot(disk, a, s, k - 1);
    }
  }

  lemma {:induction false} TwoSlots(disk: Disk, a: Addresses, s: nat, r: nat, k: nat)
    requires s < r < k <= NADDR
    ensures Tree(disk, a[s], SlotLevel(s)) + Tree(disk, a[r], SlotLevel(r)) <= FileUpto(disk, a, k)
    decreases k
  {
    var below, last := FileUpto(disk, a, k - 1), Tree(disk, a[k - 1], SlotLevel(k - 1));
    FileStep(disk, a, k);
    if r < k - 1 {
      TwoSlots(disk, a, s, r, k - 1);
      PartOfMore(Tree(disk, a[s], SlotLevel(s)) + Tree(disk, a[r], SlotLevel(r)), below, last);
    } else {
      OneSlot(disk, a, s, k - 1);
      PartAndMore(Tree(disk, a[s], SlotLevel(s)), below, last);
    }
  }

  /** In a file without repeated blocks, `x` is below one address at most. */
  lemma SlotsApart(disk: Disk, a: Addresses, s: nat, r: nat, x: int)
    requires s < NADDR && r < NADDR && s != r && AtMostOnce(FileBlocks(disk, a), x)
    requires x in Tree(disk, a[s], SlotLevel(s))
    ensures x !in Tree(disk, a[r], SlotLevel(r))
  {
    TwoSlots(disk, a, if s < r then s else r, if s < r then r else s, |a|);
  }

  ghost predicate SlotKept(disk: Disk, disk': Disk, a: Addresses, a': Addresses, s: nat)
    requires s < NADDR
  {
    a'[s] == a[s] && Tree(disk', a[s], SlotLevel(s)) == Tree(disk, a[s], SlotLevel(s))
  }

  lemma SumGains(b: multiset<int>, t: multiset<int>, b': multiset<int>, t': multiset<int>, m: multiset<int>,
                 below: bool, here: bool)
    requires b' == (if below then b + m else b) && t' == (if here then t + m else t) && !(below && here)
    ensures b' + t' == if below || here then (b + t) + m else b + t
  {
    AddLast(b, t, m);
  }

  lemma {:induction false} FileGains(disk: Disk, disk': Disk, a: Addresses, a': Addresses, s: nat, k: nat, m: multiset<int>)
    requires s < NADDR && k <= NADDR
    requires forall r | 0 <= r < NADDR && r != s :: SlotKept(disk, disk', a, a', r)
    requires Tree(disk', a'[s], SlotLevel(s)) == Tree(disk, a[s], SlotLevel(s)) + m
    ensures s >= k ==> FileUpto(disk', a', k) == FileUpto(disk, a, k)
    ensures s < k ==> FileUpto(disk', a', k) == FileUpto(disk, a, k) + m
    decreases k
  {
    if k > 0 {
      var n := k - 1;
      FileGains(disk, disk', a, a', s, n, m);
      FileStep(disk, a, k);
      FileStep(disk', a', k);
      if n != s {
        assert SlotKept(disk, disk', a, a', n);
      }
      SumGains(FileUpto(disk, a, n), Tree(disk, a[n], SlotLevel(n)), FileUpto(disk', a', n),
               Tree(disk', a'[n], SlotLevel(n)), m, s < n, s == n);
    }
  }

  /** A change below address `s` is not seen in other trees. */
  lemma OtherSlotSame(disk: Disk, disk': Disk, a: Addresses, s: nat, r: nat, b: int, n: int)
    requires s < NADDR && r < NADDR && s != r && SameBut(disk, disk', b, n)
    requires Distinct(FileBlocks(disk, a)) && n !in FileBlocks(disk, a)
    requires b == n || b in Tree(disk, a[s], SlotLevel(s))
    ensures SameOn(disk, disk', Tree(disk, a[r], SlotLevel(r)))
  {
    OneSlot(disk, a, r, |a|);
    var m := Tree(disk, a[r], SlotLevel(r));
    forall x ensures SameIn(disk, disk', m, x) {
      assert AtMostOnce(FileBlocks(disk, a), x) && (x == b || x == n || SameAt(disk, disk', x));
      if x in m && x == b && b != n {
        SlotsApart(disk, a, s, r, b);
      }
    }
  }

  /** The first block of a tree, or a direct block, is hung in address `s`. */
  lemma GrowRoot(disk: Disk, a: Addresses, s: nat, n: int)
    requires s < NADDR && a[s] == 0 && n != 0 && n in disk
    requires Distinct(FileBlocks(disk, a)) && n !in FileBlocks(disk, a)
    ensures var disk', a' := disk[n := Zeroes()], a[s := n];
            && FileBlocks(disk', a') == FileBlocks(disk, a) + multiset{n}
            && forall o: nat | o < MAXBLOCKS ::
                 FileWalk(disk', a', o) == if s < DIRECT && o == s then n else FileWalk(disk, a, o)
  {
    var disk', a' := disk[n := Zeroes()], a[s := n];
    TreeOfNew(disk', n, SlotLevel(s));
    forall r | 0 <= r < NADDR && r != s ensures SlotKept(disk, disk', a, a', r) {
      OtherSlotSame(disk, disk', a, s, r, n, n);
      TreeFrame(disk, disk', a[r], SlotLevel(r));
    }
    FileGains(disk, disk', a, a', s, |a|, multiset{n});
    forall o: nat | o < MAXBLOCKS
      ensures FileWalk(disk', a', o) == if s < DIRECT && o == s then n else FileWalk(disk, a, o)
    {
      if Slot(o) == s {
        if s >= DIRECT {
          WalkZeroes(disk', n, SlotLevel(s), Offset(o));
        }
      } else {
        OtherSlotSame(disk, disk', a, s, Slot(o), n, n);
        WalkFrame(disk, disk', a[Slot(o)], SlotLevel(Slot(o)), Offset(o));
      }
    }
  }

  /** `disk'` is `disk` with new block `n` hung on the path of file block `bn`,
      `t` levels up from the data. */
  ghost predicate HungInFile(disk: Disk, disk': Disk, a: Addresses, bn: nat, t: nat, b: int, n: int)
  {
    && bn < MAXBLOCKS && 0 < t <= SlotLevel(Slot(bn)) && b != 0
    && b == Node(disk, a[Slot(bn)], SlotLevel(Slot(bn)), Offset(bn), t)
    && Hung(disk, disk', b, Index(OffAt(Offset(bn), SlotLevel(Slot(bn)), t), t), n)
    && Distinct(FileBlocks(disk, a)) && n !in FileBlocks(disk, a)
  }

  lemma GrowSlotElsewhere(disk: Disk, disk': Disk, a: Addresses, bn: nat, t: nat, b: int, n: int, r: nat)
    requires HungInFile(disk, disk', a, bn, t, b, n) && r < NADDR && r != Slot(bn)
    ensures SameOn(disk, disk', Tree(disk, a[r], SlotLevel(r)))
  {
    NodeInTree(disk, a[Slot(bn)], SlotLevel(Slot(bn)), Offset(bn), t);
    HungSame(disk, disk', b, Index(OffAt(Offset(bn), SlotLevel(Slot(bn)), t), t), n);
    OtherSlotSame(disk, disk', a, Slot(bn), r, b, n);
  }

  /** The file gains the new block, once. */
  lemma GrowSlot(disk: Disk, disk': Disk, a: Addresses, bn: nat, t: nat, b: int, n: int)
    requires HungInFile(disk, disk', a, bn, t, b, n)
    ensures FileBlocks(disk', a) == FileBlocks(disk, a) + multiset{n}
  {
    var s := Slot(bn);
    SlotDistinct(disk, a, s, n);
    GrowTree(disk, disk', a[s], SlotLevel(s), Offset(bn), t, b, Index(OffAt(Offset(bn), SlotLevel(s), t), t), n);
    forall r | 0 <= r < NADDR && r != s ensures SlotKept(disk, disk', a, a, r) {
      GrowSlotElsewhere(disk, disk', a, bn, t, b, n, r);
      TreeFrame(disk, disk', a[r], SlotLevel(r));
    }
    FileGains(disk, disk', a, a, s, |a|, multiset{n});
  }

  /** Only file block `bn` can come to be held by the new block. */
  lemma GrowSlotWalk(disk: Disk, disk': Disk, a: Addresses, bn: nat, t: nat, b: int, n: int, o: nat)
    requires HungInFile(disk, disk', a, bn, t, b, n) && o < MAXBLOCKS
    ensures FileWalk(disk', a, o) == if t == 1 && o == bn then n else FileWalk(disk, a, o)
  {
    var s, r := Slot(bn), Slot(o);
    if r == s {
      SlotDistinct(disk, a, s, n);
      GrowWalk(disk, disk', a[s], SlotLevel(s), Offset(bn), t, b,
               Index(OffAt(Offset(bn), SlotLevel(s), t), t), n, Offset(o));
    } else {
      GrowSlotElsewhere(disk, disk', a, bn, t, b, n, r);
      WalkFrame(disk, disk', a[r], SlotLevel(r), Offset(o));
    }
  }

  lemma SlotDistinct(disk: Disk, a: Addresses, s: nat, n: int)
    requires s < NADDR && Distinct(FileBlocks(disk, a)) && n !in FileBlocks(disk, a)
    ensures Distinct(Tree(disk, a[s], SlotLevel(s)) + multiset{n})
  {
    OneSlot(disk, a, s, |a|);
    var m := Tree(disk, a[s], SlotLevel(s)) + multiset{n};
    forall x ensures AtMostOnce(m, x) {
      assert AtMostOnce(FileBlocks(disk, a), x);
    }
  }

  lemma SlotOk(disk: Disk, a: Addresses, s: nat)
    requires s < NADDR && Distinct(FileBlocks(disk, a)) && OnDisk(disk, FileBlocks(disk, a))
    ensures Distinct(Tree(disk, a[s], SlotLevel(s))) && OnDisk(disk, Tree(disk, a[s], SlotLevel(s)))
  {
    OneSlot(disk, a, s, |a|);
    DistinctPart(Tree(disk, a[s], SlotLevel(s)), FileBlocks(disk, a));
    OnDiskPart(disk, Tree(disk, a[s], SlotLevel(s)), FileBlocks(disk, a));
  }

  /** Different file blocks are held by different disk blocks. */
  lemma FileWalkInjective(disk: Disk, a: Addresses, o: nat, p: nat)
    requires o < MAXBLOCKS && p < MAXBLOCKS
    requires Distinct(FileBlocks(disk, a)) && OnDisk(disk, FileBlocks(disk, a))
    requires FileWalk(disk, a, o) != 0 && FileWalk(disk, a, o) == FileWalk(disk, a, p)
    ensures o == p
  {
    WalkInTree(disk, a[Slot(o)], SlotLevel(Slot(o)), Offset(o));
    WalkInTree(disk, a[Slot(p)], SlotLevel(Slot(p)), Offset(p));
    if Slot(o) != Slot(p) {
      assert AtMostOnce(FileBlocks(disk, a), FileWalk(disk, a, o));
      SlotsApart(disk, a, Slot(o), Slot(p), FileWalk(disk, a, o));
    } else {
      SlotOk(disk, a, Slot(o));
      WalkInjective(disk, a[Slot(o)], SlotLevel(Slot(o)), Offset(o), Offset(p));
    }
  }

  lemma FileWalkInFile(disk: Disk, a: Addresses, o: nat)
    requires o < MAXBLOCKS && FileWalk(disk, a, o) != 0
    ensures FileWalk(disk, a, o) in FileBlocks(disk, a)
  {
    WalkInTree(disk, a[Slot(o)], SlotLevel(Slot(o)), Offset(o));
    OneSlot(disk, a, Slot(o), |a|);
  }

  /** No indirect block of the file holds data. */
  lemma FileNodeIsNoLeaf(disk: Disk, a: Addresses, bn: nat, t: nat, o: nat)
    requires bn < MAXBLOCKS && o < MAXBLOCKS && 0 < t <= SlotLevel(Slot(bn))
    requires Distinct(FileBlocks(disk, a)) && OnDisk(disk, FileBlocks(disk, a))
    requires Node(disk, a[Slot(bn)], SlotLevel(Slot(bn)), Offset(bn), t) != 0
    ensures Node(disk, a[Slot(bn)], SlotLevel(Slot(bn)), Offset(bn), t) != FileWalk(disk, a, o)
  {
    var s, b := Slot(bn), Node(disk, a[Slot(bn)], SlotLevel(Slot(bn)), Offset(bn), t);
    NodeInTree(disk, a[s], SlotLevel(s), Offset(bn), t);
    if Slot(o) == s {
      SlotOk(disk, a, s);
      NodeIsNoLeaf(disk, a[s], SlotLevel(s), Offset(bn), t, Offset(o));
    } else if FileWalk(disk, a, o) != 0 {
      WalkInTree(disk, a[Slot(o)], SlotLevel(Slot(o)), Offset(o));
      assert AtMostOnce(FileBlocks(disk, a), b);
      SlotsApart(disk, a, s, Slot(o), b);
    }
  }

  /** Storing the data of file block `bn` changes neither the file's blocks nor
      where any file block is held. */
  lemma FileWrite(disk: Disk, a: Addresses, bn: nat, data: Block)
    requires bn < MAXBLOCKS && FileWalk(disk, a, bn) != 0
    requires Distinct(FileBlocks(disk, a)) && OnDisk(disk, FileBlocks(disk, a))
    ensures FileWalk(disk, a, bn) in disk
    ensures var disk' := disk[FileWalk(disk, a, bn) := data];
            && FileBlocks(disk', a) == FileBlocks(disk, a)
            && forall o: nat | o < MAXBLOCKS :: FileWalk(disk', a, o) == FileWalk(disk, a, o)
  {
    var s, d := Slot(bn), FileWalk(disk, a, bn);
    SlotOk(disk, a, s);
    LeafWrite(disk, a[s], SlotLevel(s), Offset(bn), data, Offset(bn));
    WalkInTree(disk, a[s], SlotLevel(s), Offset(bn));
    var disk' := disk[d := data];
    forall r | 0 <= r < NADDR && r != s
      ensures SlotKept(disk, disk', a, a, r) && SameOn(disk, disk', Tree(disk, a[r], SlotLevel(r)))
    {
      var m := Tree(disk, a[r], SlotLevel(r));
      forall x ensures SameIn(disk, disk', m, x) {
        assert AtMostOnce(FileBlocks(disk, a), x);
        if x in m && x == d {
          SlotsApart(disk, a, s, r, d);
        }
      }
      TreeFrame(disk, disk', a[r], SlotLevel(r));
    }
    FileGains(disk, disk', a, a, s, |a|, multiset{});
    forall o: nat | o < MAXBLOCKS ensures FileWalk(disk', a, o) == FileWalk(disk, a, o) {
      if Slot(o) == s {
        LeafWrite(disk, a[s], SlotLevel(s), Offset(bn), data, Offset(o));
      } else {
        WalkFrame(disk, disk', a[Slot(o)], SlotLevel(Slot(o)), Offset(o));
      }
    }
  }

  lemma NodeInFile(disk: Disk, a: Addresses, bn: nat, t: nat)
    requires bn < MAXBLOCKS && t <= SlotLevel(Slot(bn))
    requires Node(disk, a[Slot(bn)], SlotLevel(Slot(bn)), Offset(bn), t) != 0
    ensures Node(disk, a[Slot(bn)], SlotLevel(Slot(bn)), Offset(bn), t) in FileBlocks(disk, a)
  {
    NodeInTree(disk, a[Slot(bn)], SlotLevel(Slot(bn)), Offset(bn), t);
    OneSlot(disk, a, Slot(bn), |a|);
  }

  /** Once a new block is hung on a path, the path leads to it. */
  lemma HungNode(disk: Disk, disk': Disk, a: Addresses, bn: nat, t: nat, b: int, i: nat, n: int)
    requires bn < MAXBLOCKS && 0 < t <= SlotLevel(Slot(bn)) && b != 0
    requires b == Node(disk, a[Slot(bn)], SlotLevel(Slot(bn)), Offset(bn), t)
    requires i == Index(OffAt(Offset(bn), SlotLevel(Slot(bn)), t), t) && Hung(disk, disk', b, i, n)
    requires Distinct(FileBlocks(disk, a)) && n !in FileBlocks(disk, a)
    ensures Node(disk', a[Slot(bn)], SlotLevel(Slot(bn)), Offset(bn), t - 1) == n
  {
    SlotDistinct(disk, a, Slot(bn), n);
    NodeHung(disk, disk', a[Slot(bn)], SlotLevel(Slot(bn)), Offset(bn), t, b, i, n);
    NodeStep(disk', a[Slot(bn)], SlotLevel(Slot(bn)), Offset(bn), t);
  }

  // ---------------------------------------------------------------- what a step of bmap keeps

  /** File block `o` is held where it was, and reads as it did. */
  ghost predicate BlockKept(d0: Disk, a0: Addresses, d1: Disk, a1: Addresses, o: nat)
  {
    o < MAXBLOCKS ==>
      && FileWalk(d1, a1, o) == FileWalk(d0, a0, o)
      && (FileWalk(d0, a0, o) != 0 ==> SameAt(d0, d1, FileWalk(d0, a0, o)))
  }

  /** Every file block is kept, but for block `bn`, if there is such a block. */
  ghost predicate KeptBut(d0: Disk, a0: Addresses, d1: Disk, a1: Addresses, bn: int)
  {
    forall o: nat :: o == bn || BlockKept(d0, a0, d1, a1, o)
  }

  lemma KeptTwice(d0: Disk, a0: Addresses, d1: Disk, a1: Addresses, d2: Disk, a2: Addresses, b0: int, b1: int, bn: int)
    requires KeptBut(d0, a0, d1, a1, b0) && KeptBut(d1, a1, d2, a2, b1)
    requires (b0 == bn || b0 < 0) && (b1 == bn || b1 < 0)
    ensures KeptBut(d0, a0, d2, a2, bn)
  {
    forall o: nat ensures o == bn || BlockKept(d0, a0, d2, a2, o) {
      assert o == b0 || BlockKept(d0, a0, d1, a1, o);
      assert o == b1 || BlockKept(d1, a1, d2, a2, o);
    }
  }

  lemma KeptItself(d: Disk, a: Addresses, bn: int)
    ensures KeptBut(d, a, d, a, bn)
  {
    forall o: nat ensures o == bn || BlockKept(d, a, d, a, o) {
    }
  }

  /** The file block that comes to be held when address `s` is filled in. */
  function Reached(s: nat): int
  {
    if s < DIRECT then s else -1
  }

  lemma RootKept(disk: Disk, a: Addresses, s: nat, n: int)
    requires s < NADDR && a[s] == 0 && n != 0 && n in disk
    requires Distinct(FileBlocks(disk, a)) && n !in FileBlocks(disk, a)
    ensures FileBlocks(disk[n := Zeroes()], a[s := n]) == FileBlocks(disk, a) + multiset{n}
    ensures KeptBut(disk, a, disk[n := Zeroes()], a[s := n], Reached(s))
    ensures s < DIRECT ==> FileWalk(disk, a, s) == 0 && FileWalk(disk[n := Zeroes()], a[s := n], s) == n
  {
    var d', a', r := disk[n := Zeroes()], a[s := n], Reached(s);
    GrowRoot(disk, a, s, n);
    forall o: nat ensures o == r || BlockKept(disk, a, d', a', o) {
      if o < MAXBLOCKS {
        assert FileWalk(d', a', o) == if s < DIRECT && o == s then n else FileWalk(disk, a, o);
        if FileWalk(disk, a, o) != 0 {
          FileWalkInFile(disk, a, o);
        }
      }
    }
  }

  lemma NodeKept(disk: Disk, disk': Disk, a: Addresses, bn: nat, t: nat, b: int, n: int)
    requires HungInFile(disk, disk', a, bn, t, b, n) && OnDisk(disk, FileBlocks(disk, a))
    ensures FileBlocks(disk', a) == FileBlocks(disk, a) + multiset{n}
    ensures KeptBut(disk, a, disk', a, if t == 1 then bn else -1)
  {
    var r := if t == 1 then bn else -1;
    GrowSlot(disk, disk', a, bn, t, b, n);
    forall o: nat ensures o == r || BlockKept(disk, a, disk', a, o) {
      if o < MAXBLOCKS && o != r {
        NodeKeptAt(disk, disk', a, bn, t, b, n, o);
      }
    }
  }

  lemma NodeKeptAt(disk: Disk, disk': Disk, a: Addresses, bn: nat, t: nat, b: int, n: int, o: nat)
    requires HungInFile(disk, disk', a, bn, t, b, n) && OnDisk(disk, FileBlocks(disk, a))
    requires o < MAXBLOCKS && (t == 1 ==> o != bn)
    ensures BlockKept(disk, a, disk', a, o)
  {
    GrowSlotWalk(disk, disk', a, bn, t, b, n, o);
    if FileWalk(disk, a, o) != 0 {
      FileWalkInFile(disk, a, o);
      FileNodeIsNoLeaf(disk, a, bn, t, o);
    }
  }

  /** Storing the data of file block `bn` keeps every other file block. */
  lemma WriteKept(disk: Disk, a: Addresses, bn: nat, data: Block)
    requires bn < MAXBLOCKS && FileWalk(disk, a, bn) != 0
    requires Distinct(FileBlocks(disk, a)) && OnDisk(disk, FileBlocks(disk, a))
    ensures var d := FileWalk(disk, a, bn);
            && d in disk && FileBlocks(disk[d := data], a) == FileBlocks(disk, a)
            && FileWalk(disk[d := data], a, bn) == d
            && KeptBut(disk, a, disk[d := data], a, bn)
  {
    var d := FileWalk(disk, a, bn);
    var disk' := disk[d := data];
    FileWrite(disk, a, bn, data);
    forall o: nat ensures o == bn || BlockKept(disk, a, disk', a, o) {
      if o < MAXBLOCKS && o != bn {
        assert FileWalk(disk', a, o) == FileWalk(disk, a, o);
        if FileWalk(disk, a, o) == d {
          FileWalkInjective(disk, a, o, bn);
        }
      }
    }
  }

  /** A change of other blocks is not seen in the file. */
  lemma FileFrame(disk: Disk, disk': Disk, a: Addresses)
    requires SameOn(disk, disk', FileBlocks(disk, a)) && OnDisk(disk, FileBlocks(disk, a))
    ensures FileBlocks(disk', a) == FileBlocks(disk, a) && KeptBut(disk, a, disk', a, -1)
  {
    forall r: nat | r < NADDR ensures SlotKept(disk, disk', a, a, r) && SameOn(disk, disk', Tree(disk, a[r], SlotLevel(r))) {
      OneSlot(disk, a, r, |a|);
      SameOnPart(disk, disk', Tree(disk, a[r], SlotLevel(r)), FileBlocks(disk, a));
      TreeFrame(disk, disk', a[r], SlotLevel(r));
    }
    FileGains(disk, disk', a, a, 0, |a|, multiset{});
    forall o: nat ensures o == -1 || BlockKept(disk, a, disk', a, o) {
      if o < MAXBLOCKS {
        WalkFrame(disk, disk', a[Slot(o)], SlotLevel(Slot(o)), Offset(o));
        if FileWalk(disk, a, o) != 0 {
          FileWalkInFile(disk, a, o);
          assert SameIn(disk, disk', FileBlocks(disk, a), FileWalk(disk, a, o));
        }
      }
    }
  }

  /** A direct block that is taken out of the address array is the file's no longer. */
  lemma DropDirect(disk: Disk, a: Addresses, s: nat)
    requires s < DIRECT && a[s] != 0
    ensures FileBlocks(disk, a) == FileBlocks(disk, a[s := 0]) + multiset{a[s]}
    ensures KeptBut(disk, a, disk, a[s := 0], s)
  {
    var b := a[s := 0];
    forall r | 0 <= r < NADDR && r != s ensures SlotKept(disk, disk, b, a, r) {
    }
    FileGains(disk, disk, b, a, s, |a|, multiset{a[s]});
    forall o: nat ensures o == s || BlockKept(disk, a, disk, b, o) {
    }
  }

  /** What `bmap` leaves to nobody: a direct block that was mapped before. */
  ghost function Lost(a: Addresses, bn: nat): multiset<int>
  {
    if bn < DIRECT && a[bn] != 0 then multiset{a[bn]} else multiset{}
  }

  // ---------------------------------------------------------------- whole files

  /** What the dump holds of one file block. */
  datatype Piece = Hole | Data(block: Block)

  /** File block `o` is as the first `k` pieces say, and a hole behind them. */
  ghost predicate PieceOk(disk: Disk, a: Addresses, pieces: seq<Piece>, k: nat, o: nat)
  {
    o < MAXBLOCKS ==>
      var d := FileWalk(disk, a, o);
      if o < k && o < |pieces| && pieces[o].Data? then d != 0 && d in disk && disk[d] == pieces[o].block
      else d == 0
  }

  ghost predicate Restored(disk: Disk, a: Addresses, pieces: seq<Piece>, k: nat)
  {
    forall o: nat :: PieceOk(disk, a, pieces, k, o)
  }

  /** Pieces behind the last block that a file can have change nothing of it. */
  lemma RestoredBeyond(d0: Disk, a: Addresses, d1: Disk, pieces: seq<Piece>, k: nat)
    requires Restored(d0, a, pieces, k) && MAXBLOCKS <= k && KeptBut(d0, a, d1, a, -1)
    ensures Restored(d1, a, pieces, k + 1)
  {
    var k' := k + 1;
    forall o: nat ensures PieceOk(d1, a, pieces, k', o) {
      assert PieceOk(d0, a, pieces, k, o) && BlockKept(d0, a, d1, a, o);
    }
  }

  /** Block 0 of the disk after `k` pieces: the last one behind the blocks that a file can have. */
  ghost function BlockZero(was: Block, pieces: seq<Piece>, k: nat): Block
    requires k <= |pieces|
  {
    if k <= MAXBLOCKS then was
    else match pieces[k - 1]
      case Data(b) => b
      case Hole => BlockZero(was, pieces, k - 1)
  }

  ghost predicate ZeroOk(disk: Disk, was: Block, pieces: seq<Piece>, k: nat)
  {
    k <= |pieces| && 0 in disk && disk[0] == BlockZero(was, pieces, k)
  }

  lemma RestoredMore(d0: Disk, a0: Addresses, d1: Disk, a1: Addresses, pieces: seq<Piece>, k: nat)
    requires Restored(d0, a0, pieces, k) && k < |pieces| && k < MAXBLOCKS
    requires KeptBut(d0, a0, d1, a1, k)
    requires var d := FileWalk(d1, a1, k);
             if pieces[k].Data? then d != 0 && d in d1 && d1[d] == pieces[k].block else d == 0
    ensures Restored(d1, a1, pieces, k + 1)
  {
    var k' := k + 1;
    forall o: nat ensures PieceOk(d1, a1, pieces, k', o) {
      assert PieceOk(d0, a0, pieces, k, o) && (o == k || BlockKept(d0, a0, d1, a1, o));
    }
  }

  ghost predicate Empty(a: Addresses)
  {
    forall s: nat | s < NADDR :: a[s] == 0
  }

  lemma {:induction false} EmptyFile(disk: Disk, a: Addresses, k: nat)
    requires Empty(a) && k <= NADDR
    ensures FileUpto(disk, a, k) == multiset{}
    decreases k
  {
    if k > 0 {
      EmptyFile(disk, a, k - 1);
      FileStep(disk, a, k);
      assert a[k - 1] == 0;
    }
  }

  lemma EmptyRestored(disk: Disk, a: Addresses, pieces: seq<Piece>)
    requires Empty(a)
    ensures Restored(disk, a, pieces, 0) && FileBlocks(disk, a) == multiset{}
  {
    EmptyFile(disk, a, |a|);
    forall o: nat ensures PieceOk(disk, a, pieces, 0, o) {
    }
  }

  /** How many blocks from level `t` down are missing on the path of file block `bn`. */
  ghost function MissingFrom(disk: Disk, a: Addresses, bn: nat, t: nat): nat
    requires bn < MAXBLOCKS && t <= SlotLevel(Slot(bn))
  {
    Missing(disk, a[Slot(bn)], SlotLevel(Slot(bn)), Offset(bn), t)
  }

  /** How many blocks file block `bn` lacks: itself and the indirect ones on its path.  A direct
      block gets a new one in any case. */
  ghost function Lacks(disk: Disk, a: Addresses, bn: nat): nat
    requires bn < MAXBLOCKS
  {
    if bn < DIRECT then 1 else MissingFrom(disk, a, bn, SlotLevel(Slot(bn)))
  }

  /** Never more than four: the data block and three indirect ones. */
  lemma {:induction false} LacksFew(disk: Disk, a: Addresses, bn: nat, t: nat)
    requires bn < MAXBLOCKS && t <= SlotLevel(Slot(bn))
    ensures MissingFrom(disk, a, bn, t) <= t + 1 <= 4
  {
    if t > 0 {
      LacksFew(disk, a, bn, t - 1);
    }
  }

  /** The block made below `b` is the next on the path, and now one less is missing. */
  lemma HungNext(disk: Disk, disk': Disk, a: Addresses, bn: nat, t: nat, b: int, i: nat, n: int)
    requires bn < MAXBLOCKS && 0 < t <= SlotLevel(Slot(bn)) && b != 0
    requires b == Node(disk, a[Slot(bn)], SlotLevel(Slot(bn)), Offset(bn), t)
    requires i == Index(OffAt(Offset(bn), SlotLevel(Slot(bn)), t), t) && Hung(disk, disk', b, i, n)
    requires Distinct(FileBlocks(disk, a)) && n !in FileBlocks(disk, a)
    ensures Node(disk', a[Slot(bn)], SlotLevel(Slot(bn)), Offset(bn), t - 1) == n
    ensures MissingFrom(disk, a, bn, t - 1) == MissingFrom(disk', a, bn, t - 1) + 1
  {
    var root, l, off := a[Slot(bn)], SlotLevel(Slot(bn)), Offset(bn);
    NodeStep(disk, root, l, off, t);
    AllMissing(disk, root, l, off, t - 1);
    HungNode(disk, disk', a, bn, t, b, i, n);
    MissingBelow(disk', root, l, off, t - 1);
  }
}
