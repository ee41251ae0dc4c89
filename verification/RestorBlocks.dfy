/** What the blocks of an old file system mean to old/512restor.c.

    A disk maps block numbers to blocks of `NINDIR` words.  The constants come
    from system headers of the old file system. */
module RestorBlocks {
  import QuadraticProbe

  const NINDIR: nat := 128    // block numbers in an indirect block
  const NSHIFT: nat := 7      // log2 of NINDIR
  const NICFREE: nat := 50    // block numbers in a chunk of the free list
  const NADDR: nat := 13      // block numbers in an inode

  type Block = b: seq<int> | |b| == NINDIR witness seq(NINDIR, _ => 0)
  type Disk = map<int, Block>

  /** A block of zeroes, as `balloc` writes it. */
  function Zeroes(): (b: Block)
    ensures forall i | 0 <= i < NINDIR :: b[i] == 0
  {
    seq(NINDIR, _ => 0)
  }

  /** The blocks named by `s` are on the disk, and none of them is block 0. */
  ghost predicate OnDisk(disk: Disk, m: multiset<int>)
  {
    forall b :: Present(disk, m, b)
  }

  ghost predicate Present(disk: Disk, m: multiset<int>, b: int)
  {
    b in m ==> b != 0 && b in disk
  }

  ghost predicate AtMostOnce(m: multiset<int>, b: int)
  {
    m[b] <= 1
  }

  /** No block number occurs twice. */
  ghost predicate Distinct(m: multiset<int>)
  {
    forall b :: AtMostOnce(m, b)
  }

  ghost predicate SameAt(disk: Disk, disk': Disk, b: int)
  {
    b in disk ==> b in disk' && disk'[b] == disk[b]
  }

  ghost predicate SameIn(disk: Disk, disk': Disk, m: multiset<int>, b: int)
  {
    b in m ==> SameAt(disk, disk', b)
  }

  /** Both disks hold the same in every block that `m` names. */
  ghost predicate SameOn(disk: Disk, disk': Disk, m: multiset<int>)
  {
    disk'.Keys == disk.Keys && forall b :: SameIn(disk, disk', m, b)
  }

  /** Both disks hold the same in every block but `b` and `n`. */
  ghost predicate SameBut(disk: Disk, disk': Disk, b: int, n: int)
  {
    disk'.Keys == disk.Keys && forall x :: x == b || x == n || SameAt(disk, disk', x)
  }

  lemma SameOnPart(disk: Disk, disk': Disk, part: multiset<int>, whole: multiset<int>)
    requires SameOn(disk, disk', whole) && part <= whole
    ensures SameOn(disk, disk', part)
  {
    forall b ensures SameIn(disk, disk', part, b) {
      assert SameIn(disk, disk', whole, b);
    }
  }

  // ---------------------------------------------------------------- the free list

  /** A spilled chunk: word 0 counts the numbers that follow. */
  function ChunkCount(b: Block): int
  {
    b[0]
  }

  function ChunkFree(b: Block): (frees: seq<int>)
    ensures |frees| == NICFREE
  {
    b[1..1 + NICFREE]
  }

  /** The in-core chunk, then the chunks spilled to disk behind its first entry,
      list `stack` from top (last) to bottom; a first entry of 0 ends the list. */
  ghost predicate Chain(disk: Disk, nfree: int, frees: seq<int>, stack: seq<int>)
    decreases |stack|
  {
    && |frees| == NICFREE && 1 <= nfree <= NICFREE
    && if frees[0] == 0 then stack == frees[1..nfree]
       else
         var rest := |stack| - nfree;
         && 0 <= rest && stack[rest..] == frees[..nfree]
         && frees[0] in disk
         && Chain(disk, ChunkCount(disk[frees[0]]), ChunkFree(disk[frees[0]]), stack[..rest])
  }

  /** The chain reads only blocks that are on the list. */
  lemma {:induction false} ChainFrame(disk: Disk, disk': Disk, nfree: int, frees: seq<int>, stack: seq<int>)
    requires Chain(disk, nfree, frees, stack)
    requires forall b | b in stack :: SameAt(disk, disk', b)
    ensures Chain(disk', nfree, frees, stack)
    decreases |stack|
  {
    if frees[0] != 0 {
      var rest := |stack| - nfree;
      assert frees[0] == stack[rest..][0] == stack[rest];
      assert SameAt(disk, disk', frees[0]);
      ChainFrame(disk, disk', ChunkCount(disk[frees[0]]), ChunkFree(disk[frees[0]]), stack[..rest]);
    }
  }

  lemma PushSlices(stack: seq<int>, frees: seq<int>, nfree: int, rest: int, bn: int)
    requires 0 <= rest == |stack| - nfree && 1 <= nfree < |frees| && stack[rest..] == frees[..nfree]
    ensures (stack + [bn])[rest..] == frees[nfree := bn][..nfree + 1] && (stack + [bn])[..rest] == stack[..rest]
  {
    assert (stack + [bn])[rest..] == stack[rest..] + [bn];
    assert frees[nfree := bn][..nfree + 1] == frees[..nfree] + [bn];
  }

  lemma PopSlices(stack: seq<int>, frees: seq<int>, nfree: int, rest: int, n: int)
    requires 0 <= rest == |stack| - nfree && 1 < nfree <= |frees| && stack[rest..] == frees[..nfree] && n == |stack| - 1
    ensures stack[..n][rest..] == frees[..nfree - 1] && stack[..n][..rest] == stack[..rest]
  {
    assert stack[..n][rest..] == stack[rest..][..nfree - 1];
  }

  /** Pushing `bn` onto a chunk that is not full. */
  lemma PushInCore(disk: Disk, nfree: int, frees: seq<int>, stack: seq<int>, bn: int)
    requires Chain(disk, nfree, frees, stack) && nfree < NICFREE
    ensures Chain(disk, nfree + 1, frees[nfree := bn], stack + [bn])
  {
    var frees' := frees[nfree := bn];
    if frees[0] == 0 {
      assert frees'[1..nfree + 1] == frees[1..nfree] + [bn];
    } else {
      var rest := |stack| - nfree;
      PushSlices(stack, frees, nfree, rest, bn);
    }
  }

  /** Spilling a full chunk into `bn`, which becomes the whole in-core chunk. */
  lemma PushSpilled(disk: Disk, nfree: int, frees: seq<int>, stack: seq<int>, bn: int, b: Block)
    requires Chain(disk, nfree, frees, stack)
    requires bn != 0 && bn !in stack
    requires ChunkCount(b) == nfree && ChunkFree(b) == frees
    ensures Chain(disk[bn := b], 1, frees[0 := bn], stack + [bn])
  {
    ChainFrame(disk, disk[bn := b], nfree, frees, stack);
    assert (stack + [bn])[|stack|..] == [bn] == frees[0 := bn][..1];
    assert (stack + [bn])[..|stack|] == stack;
  }

  /** The list is empty exactly when only the end mark is left in core. */
  lemma ChainEmpty(disk: Disk, nfree: int, frees: seq<int>, stack: seq<int>)
    requires Chain(disk, nfree, frees, stack) && forall b | b in stack :: b != 0
    ensures stack == [] <==> frees[nfree - 1] == 0
    ensures stack != [] ==> stack[|stack| - 1] == frees[nfree - 1]
    ensures stack != [] && nfree == 1 ==> frees[0] != 0
  {
    if frees[0] == 0 {
      if nfree > 1 {
        assert stack[nfree - 2] == frees[nfree - 1];
        assert frees[nfree - 1] in stack;
      }
    } else {
      var rest := |stack| - nfree;
      assert stack[|stack| - 1] == stack[rest..][nfree - 1] == frees[..nfree][nfree - 1];
      assert stack[|stack| - 1] in stack;
    }
  }

  /** Popping the top leaves the chunk in core, or the one spilled into the block
      popped. */
  lemma Pop(disk: Disk, nfree: int, frees: seq<int>, stack: seq<int>)
    requires Chain(disk, nfree, frees, stack) && stack != [] && forall b | b in stack :: b != 0
    ensures var top := stack[|stack| - 1];
            var rest := stack[..|stack| - 1];
            if nfree > 1 then Chain(disk, nfree - 1, frees, rest)
            else top in disk && Chain(disk, ChunkCount(disk[top]), ChunkFree(disk[top]), rest)
  {
    ChainEmpty(disk, nfree, frees, stack);
    var n := |stack| - 1;
    if frees[0] == 0 {
      assert stack[..n] == frees[1..nfree - 1];
    } else {
      var rest := |stack| - nfree;
      if nfree > 1 {
        PopSlices(stack, frees, nfree, rest, n);
      }
    }
  }

  // ---------------------------------------------------------------- block trees

  /** Data blocks below one entry of a block at the given level of indirection. */
  function Cap(level: nat): (c: nat)
    ensures 0 < c
  {
    if level == 0 then 1 else NINDIR * Cap(level - 1)
  }

  /** The blocks of the tree at `bn`, data blocks and indirect ones. */
  ghost function Tree(disk: Disk, bn: int, level: nat): multiset<int>
    decreases level, NINDIR + 1
  {
    if bn == 0 then multiset{}
    else if level == 0 || bn !in disk then multiset{bn}
    else Below(disk, disk[bn], level - 1, |disk[bn]|) + multiset{bn}
  }

  /** The blocks of the trees below the first `i` entries of an indirect block. */
  ghost function Below(disk: Disk, entries: Block, level: nat, i: nat): multiset<int>
    requires i <= |entries|
    decreases level + 1, i
  {
    if i == 0 then multiset{} else Below(disk, entries, level, i - 1) + Tree(disk, entries[i - 1], level)
  }

  /** The block that offset `off` below `bn` leads to, 0 if there is none. */
  ghost function Walk(disk: Disk, bn: int, level: nat, off: nat): int
    requires off < Cap(level)
    decreases level
  {
    if bn == 0 || level == 0 || bn !in disk then bn
    else Walk(disk, disk[bn][Index(off, level)], level - 1, off % Cap(level - 1))
  }

  /** The entry of a block at `level` that offset `off` goes through. */
  function Index(off: nat, level: nat): (i: nat)
    requires 0 < level && off < Cap(level)
    ensures i < NINDIR
  {
    IndexBound(off, Cap(level - 1));
    off / Cap(level - 1)
  }

  /** Offsets go through an indirect block entry by entry, and through the tree of each in order. */
  lemma IndexInOrder(off: nat, next: nat, level: nat)
    requires 0 < level && next == off + 1 < Cap(level)
    ensures var c := Cap(level - 1);
            if off % c + 1 < c then Index(next, level) == Index(off, level) && next % c == off % c + 1
            else Index(next, level) == Index(off, level) + 1 && next % c == 0
  {
    OneMore(off, next, Cap(level - 1));
  }

  lemma OneMore(off: nat, next: nat, c: nat)
    requires 0 < c && next == off + 1
    ensures if off % c + 1 < c then next / c == off / c && next % c == off % c + 1 else next / c == off / c + 1 && next % c == 0
  {
    assert off == c * (off / c) + off % c;
    if off % c + 1 < c {
      QuadraticProbe.DivisionUnique(next, c, off / c, off % c + 1);
    } else {
      assert next == c * (off / c + 1);
      QuadraticProbe.DivisionUnique(next, c, off / c + 1, 0);
    }
  }

  lemma IndexBound(off: nat, c: nat)
    requires 0 < c && off < NINDIR * c
    ensures off / c < NINDIR
  {
    var q := off / c;
    assert q * c <= off;
  }

  lemma TreeIs(disk: Disk, bn: int, level: nat)
    requires bn != 0 && bn in disk
    ensures Tree(disk, bn, level + 1) == Below(disk, disk[bn], level, |disk[bn]|) + multiset{bn}
  {
  }

  /** Trees read only their own blocks. */
  lemma {:induction false} TreeFrame(disk: Disk, disk': Disk, bn: int, level: nat)
    requires SameOn(disk, disk', Tree(disk, bn, level))
    ensures Tree(disk', bn, level) == Tree(disk, bn, level)
    decreases level, NINDIR + 1
  {
    if bn != 0 && level != 0 && bn in disk {
      TreeIs(disk, bn, level - 1);
      assert SameIn(disk, disk', Tree(disk, bn, level), bn);
      SameOnPart(disk, disk', Below(disk, disk[bn], level - 1, |disk[bn]|), Tree(disk, bn, level));
      BelowFrame(disk, disk', disk[bn], level - 1, |disk[bn]|);
    }
  }

  lemma {:induction false} BelowFrame(disk: Disk, disk': Disk, entries: Block, level: nat, i: nat)
    requires i <= |entries| && SameOn(disk, disk', Below(disk, entries, level, i))
    ensures Below(disk', entries, level, i) == Below(disk, entries, level, i)
    decreases level + 1, i
  {
    if i > 0 {
      SameOnPart(disk, disk', Below(disk, entries, level, i - 1), Below(disk, entries, level, i));
      SameOnPart(disk, disk', Tree(disk, entries[i - 1], level), Below(disk, entries, level, i));
      BelowFrame(disk, disk', entries, level, i - 1);
      TreeFrame(disk, disk', entries[i - 1], level);
    }
  }

  lemma {:induction false} BelowZeroes(disk: Disk, level: nat, i: nat)
    requires i <= NINDIR
    ensures Below(disk, Zeroes(), level, i) == multiset{}
  {
    if i > 0 {
      BelowZeroes(disk, level, i - 1);
    }
  }

  ghost predicate EntryKept(disk: Disk, disk': Disk, e: Block, e': Block, level: nat, j: nat)
    requires j < NINDIR
  {
    e'[j] == e[j] && Tree(disk', e[j], level) == Tree(disk, e[j], level)
  }

  lemma BelowStep(disk: Disk, e: Block, level: nat, k: nat)
    requires 0 < k <= NINDIR
    ensures Below(disk, e, level, k) == Below(disk, e, level, k - 1) + Tree(disk, e[k - 1], level)
  {
  }

  lemma AddLast(a: multiset<int>, b: multiset<int>, c: multiset<int>)
    ensures (a + c) + b == (a + b) + c && a + (b + c) == (a + b) + c
  {
  }

  /** One more block below entry `i`, and nothing else, is one more block in all. */
  lemma {:induction false} BelowGains(disk: Disk, disk': Disk, e: Block, e': Block, level: nat, i: nat, k: nat, m: multiset<int>)
    requires i < NINDIR && k <= NINDIR
    requires forall j | 0 <= j < NINDIR && j != i :: EntryKept(disk, disk', e, e', level, j)
    requires Tree(disk', e'[i], level) == Tree(disk, e[i], level) + m
    ensures i >= k ==> Below(disk', e', level, k) == Below(disk, e, level, k)
    ensures i < k ==> Below(disk', e', level, k) == Below(disk, e, level, k) + m
    decreases k
  {
    if k > 0 {
      BelowGains(disk, disk', e, e', level, i, k - 1, m);
      BelowStep(disk, e, level, k);
      BelowStep(disk', e', level, k);
      AddLast(Below(disk, e, level, k - 1), Tree(disk, e[k - 1], level), m);
      if k - 1 == i {
        assert Below(disk', e', level, k) == Below(disk, e, level, k - 1) + (Tree(disk, e[i], level) + m);
      } else {
        assert EntryKept(disk, disk', e, e', level, k - 1);
      }
    }
  }

  lemma PartOfMore(part: multiset<int>, whole: multiset<int>, more: multiset<int>)
    requires part <= whole
    ensures part <= whole + more
  {
  }

  lemma PartAndMore(part: multiset<int>, whole: multiset<int>, more: multiset<int>)
    requires part <= whole
    ensures part + more <= whole + more
  {
  }

  /** The trees below two entries of one block together are part of what is below it. */
  lemma {:induction false} TwoBelow(disk: Disk, e: Block, level: nat, i: nat, j: nat, k: nat)
    requires i < j < k <= NINDIR
    ensures Tree(disk, e[i], level) + Tree(disk, e[j], level) <= Below(disk, e, level, k)
    decreases k
  {
    var below, last := Below(disk, e, level, k - 1), Tree(disk, e[k - 1], level);
    BelowStep(disk, e, level, k);
    if j < k - 1 {
      TwoBelow(disk, e, level, i, j, k - 1);
      PartOfMore(Tree(disk, e[i], level) + Tree(disk, e[j], level), below, last);
    } else {
      OneBelow(disk, e, level, i, k - 1);
      PartAndMore(Tree(disk, e[i], level), below, last);
    }
  }

  lemma {:induction false} OneBelow(disk: Disk, e: Block, level: nat, i: nat, k: nat)
    requires i < k <= NINDIR
    ensures Tree(disk, e[i], level) <= Below(disk, e, level, k)
    decreases k
  {
    if i < k - 1 {
      OneBelow(disk, e, level, i, k - 1);
    }
  }

  /** In a tree without repeated blocks, `x` is below one entry at most. */
  lemma BelowApart(disk: Disk, e: Block, level: nat, i: nat, j: nat, x: int)
    requires i < NINDIR && j < NINDIR && i != j
    requires AtMostOnce(Below(disk, e, level, |e|), x)
    requires x in Tree(disk, e[i], level)
    ensures x !in Tree(disk, e[j], level)
  {
    TwoBelow(disk, e, level, if i < j then i else j, if i < j then j else i, |e|);
  }

  /** What is left of offset `off` once its path has come down to level `t`. */
  function OffAt(off: nat, level: nat, t: nat): (o: nat)
    requires t <= level && off < Cap(level)
    ensures o < Cap(t)
  {
    if t == level then off else OffAt(off % Cap(level - 1), level - 1, t)
  }

  /** The block at level `t` on the path of `off` down from `bn`. */
  ghost function Node(disk: Disk, bn: int, level: nat, off: nat, t: nat): int
    requires t <= level && off < Cap(level)
    decreases level
  {
    if t == level || bn == 0 || bn !in disk then bn
    else Node(disk, disk[bn][Index(off, level)], level - 1, off % Cap(level - 1), t)
  }

  /** How many blocks from level `t` down are missing on the path of `off`. */
  ghost function Missing(disk: Disk, bn: int, level: nat, off: nat, t: nat): nat
    requires t <= level && off < Cap(level)
  {
    (if Node(disk, bn, level, off, t) == 0 then 1 else 0) + (if t == 0 then 0 else Missing(disk, bn, level, off, t - 1))
  }

  /** Where a block is missing, all those below it are. */
  lemma {:induction false} AllMissing(disk: Disk, bn: int, level: nat, off: nat, t: nat)
    requires t <= level && off < Cap(level) && Node(disk, bn, level, off, t) == 0
    ensures Missing(disk, bn, level, off, t) == t + 1
  {
    if t > 0 {
      NothingBelow(disk, bn, level, off, t);
      AllMissing(disk, bn, level, off, t - 1);
    }
  }

  lemma {:induction false} NothingBelow(disk: Disk, bn: int, level: nat, off: nat, t: nat)
    requires 0 < t <= level && off < Cap(level) && Node(disk, bn, level, off, t) == 0
    ensures Node(disk, bn, level, off, t - 1) == 0
    decreases level
  {
    if t < level && bn != 0 && bn in disk {
      NothingBelow(disk, disk[bn][Index(off, level)], level - 1, off % Cap(level - 1), t);
    }
  }

  /** Below a block of zeroes all blocks are missing. */
  lemma MissingBelow(disk: Disk, bn: int, level: nat, off: nat, t: nat)
    requires t <= level && off < Cap(level)
    requires Node(disk, bn, level, off, t) != 0 && Node(disk, bn, level, off, t) in disk
    requires disk[Node(disk, bn, level, off, t)] == Zeroes()
    ensures Missing(disk, bn, level, off, t) == t
  {
    if t > 0 {
      NodeStep(disk, bn, level, off, t);
      AllMissing(disk, bn, level, off, t - 1);
    }
  }

  /** The next block on the path is the entry the path goes through. */
  lemma {:induction false} NodeStep(disk: Disk, bn: int, level: nat, off: nat, t: nat)
    requires 0 < t <= level && off < Cap(level)
    requires Node(disk, bn, level, off, t) != 0 && Node(disk, bn, level, off, t) in disk
    ensures Node(disk, bn, level, off, t - 1)
            == disk[Node(disk, bn, level, off, t)][Index(OffAt(off, level, t), t)]
    decreases level
  {
    if t < level && bn != 0 && bn in disk {
      NodeStep(disk, disk[bn][Index(off, level)], level - 1, off % Cap(level - 1), t);
    }
  }

  lemma {:induction false} WalkIsNode(disk: Disk, bn: int, level: nat, off: nat)
    requires off < Cap(level)
    ensures Walk(disk, bn, level, off) == Node(disk, bn, level, off, 0)
    decreases level
  {
    if level > 0 && bn != 0 && bn in disk {
      WalkIsNode(disk, disk[bn][Index(off, level)], level - 1, off % Cap(level - 1));
    }
  }

  lemma {:induction false} NodeInTree(disk: Disk, bn: int, level: nat, off: nat, t: nat)
    requires t <= level && off < Cap(level) && Node(disk, bn, level, off, t) != 0
    ensures Node(disk, bn, level, off, t) in Tree(disk, bn, level)
    decreases level
  {
    if t < level && bn in disk && bn != 0 {
      var i := Index(off, level);
      NodeInTree(disk, disk[bn][i], level - 1, off % Cap(level - 1), t);
      OneBelow(disk, disk[bn], level - 1, i, |disk[bn]|);
    }
  }

  /** `disk'` is `disk` with the zeroed block `n` hung below entry `i` of `b`. */
  ghost predicate Hung(disk: Disk, disk': Disk, b: int, i: nat, n: int)
  {
    && i < NINDIR && b in disk && n in disk && disk[b][i] == 0 && n != 0 && n != b
    && disk' == disk[n := Zeroes()][b := disk[b][i := n]]
  }

  lemma HungSame(disk: Disk, disk': Disk, b: int, i: nat, n: int)
    requires Hung(disk, disk', b, i, n)
    ensures SameBut(disk, disk', b, n)
  {
    forall x ensures x == b || x == n || SameAt(disk, disk', x) {
    }
  }

  /** Trees below entries other than `i` hold neither `b` nor the new block. */
  lemma OthersSame(disk: Disk, disk': Disk, bn: int, level: nat, i: nat, j: nat, b: int, n: int)
    requires bn in disk && bn != 0 && i < NINDIR && j < NINDIR && i != j
    requires SameBut(disk, disk', b, n)
    requires Distinct(Tree(disk, bn, level + 1) + multiset{n})
    requires b == bn || b in Tree(disk, disk[bn][i], level)
    ensures SameOn(disk, disk', Tree(disk, disk[bn][j], level))
  {
    var e := disk[bn];
    var all := Tree(disk, bn, level + 1) + multiset{n};
    assert all == Below(disk, e, level, |e|) + multiset{bn, n};
    OneBelow(disk, e, level, j, |e|);
    var m := Tree(disk, e[j], level);
    forall x ensures SameIn(disk, disk', m, x) {
      assert AtMostOnce(all, x) && (x == b || x == n || SameAt(disk, disk', x));
      if x in m && x == b && b != bn {
        BelowApart(disk, e, level, i, j, b);
      }
    }
  }

  lemma DistinctPart(part: multiset<int>, whole: multiset<int>)
    requires part <= whole && Distinct(whole)
    ensures Distinct(part)
  {
    forall x ensures AtMostOnce(part, x) {
      assert AtMostOnce(whole, x);
    }
  }

  lemma TreeOfNew(disk: Disk, n: int, level: nat)
    requires n in disk && disk[n] == Zeroes() && n != 0
    ensures Tree(disk, n, level) == multiset{n}
  {
    if level > 0 {
      BelowZeroes(disk, level - 1, |disk[n]|);
    }
  }

  /** A tree gains the block that the subtree below its entry `i` gains. */
  lemma GrowEntry(disk: Disk, disk': Disk, bn: int, level: nat, i: nat, b: int, n: int)
    requires bn in disk && bn != 0 && i < NINDIR
    requires SameBut(disk, disk', b, n)
    requires Distinct(Tree(disk, bn, level + 1) + multiset{n})
    requires b == bn || b in Tree(disk, disk[bn][i], level)
    requires forall j | 0 <= j < NINDIR && j != i :: disk'[bn][j] == disk[bn][j]
    requires Tree(disk', disk'[bn][i], level)
             == Tree(disk, disk[bn][i], level) + multiset{n}
    ensures Tree(disk', bn, level + 1) == Tree(disk, bn, level + 1) + multiset{n}
  {
    var e, e' := disk[bn], disk'[bn];
    forall j | 0 <= j < NINDIR && j != i
      ensures EntryKept(disk, disk', e, e', level, j)
    {
      OthersSame(disk, disk', bn, level, i, j, b, n);
      TreeFrame(disk, disk', e[j], level);
    }
    BelowGains(disk, disk', e, e', level, i, |e|, multiset{n});
    TreeIs(disk, bn, level);
    TreeIs(disk', bn, level);
  }

  /** A subtree on the path gains the new block, so the tree does. */
  lemma GrowThrough(disk: Disk, disk': Disk, bn: int, level: nat, i0: nat, b: int, i: nat, n: int)
    requires bn in disk && bn != 0 && i0 < NINDIR && Hung(disk, disk', b, i, n)
    requires Distinct(Tree(disk, bn, level + 1) + multiset{n})
    requires b in Tree(disk, disk[bn][i0], level)
    requires Tree(disk', disk[bn][i0], level)
             == Tree(disk, disk[bn][i0], level) + multiset{n}
    ensures Tree(disk', bn, level + 1) == Tree(disk, bn, level + 1) + multiset{n}
  {
    TreeIs(disk, bn, level);
    OneBelow(disk, disk[bn], level, i0, |disk[bn]|);
    var all := Tree(disk, bn, level + 1) + multiset{n};
    assert AtMostOnce(all, n) && AtMostOnce(all, b);
    GrowEntry(disk, disk', bn, level, i0, b, n);
  }

  /** Hanging the new block right below the root of a tree. */
  lemma GrowHere(disk: Disk, disk': Disk, bn: int, level: nat, i: nat, n: int)
    requires bn != 0 && Hung(disk, disk', bn, i, n)
    requires Distinct(Tree(disk, bn, level + 1) + multiset{n})
    ensures Tree(disk', bn, level + 1) == Tree(disk, bn, level + 1) + multiset{n}
  {
    TreeOfNew(disk', n, level);
    GrowEntry(disk, disk', bn, level, i, bn, n);
  }

  lemma SubtreeDistinct(disk: Disk, bn: int, level: nat, i: nat, n: int)
    requires bn in disk && bn != 0 && i < NINDIR && Distinct(Tree(disk, bn, level + 1) + multiset{n})
    ensures Distinct(Tree(disk, disk[bn][i], level) + multiset{n})
  {
    TreeIs(disk, bn, level);
    OneBelow(disk, disk[bn], level, i, |disk[bn]|);
    DistinctPart(Tree(disk, disk[bn][i], level) + multiset{n}, Tree(disk, bn, level + 1) + multiset{n});
  }

  /** One step down the path of `off`. */
  lemma PathDown(disk: Disk, bn: int, level: nat, off: nat, t: nat)
    requires t < level && off < Cap(level) && Node(disk, bn, level, off, t) != 0
    requires Node(disk, bn, level, off, t) in disk
    ensures OffAt(off, level, t) == OffAt(off % Cap(level - 1), level - 1, t)
    ensures bn != 0 && bn in disk
    ensures Node(disk, bn, level, off, t)
            == Node(disk, disk[bn][Index(off, level)], level - 1, off % Cap(level - 1), t)
  {
  }

  /** Hanging a new block on the path of `off` adds that block to the tree, once. */
  lemma {:induction false} GrowTree(disk: Disk, disk': Disk, bn: int, level: nat, off: nat, t: nat, b: int, i: nat, n: int)
    requires 0 < t <= level && off < Cap(level) && b != 0
    requires b == Node(disk, bn, level, off, t) && i == Index(OffAt(off, level, t), t)
    requires Hung(disk, disk', b, i, n)
    requires Distinct(Tree(disk, bn, level) + multiset{n})
    ensures Tree(disk', bn, level) == Tree(disk, bn, level) + multiset{n}
    decreases level
  {
    if t == level {
      GrowHere(disk, disk', bn, level - 1, i, n);
    } else {
      PathDown(disk, bn, level, off, t);
      var i0, off' := Index(off, level), off % Cap(level - 1);
      SubtreeDistinct(disk, bn, level - 1, i0, n);
      GrowTree(disk, disk', disk[bn][i0], level - 1, off', t, b, i, n);
      NodeInTree(disk, disk[bn][i0], level - 1, off', t);
      GrowThrough(disk, disk', bn, level - 1, i0, b, i, n);
    }
  }

  /** Walks read only blocks of their tree. */
  lemma {:induction false} WalkFrame(disk: Disk, disk': Disk, bn: int, level: nat, o: nat)
    requires o < Cap(level) && SameOn(disk, disk', Tree(disk, bn, level))
    ensures Walk(disk', bn, level, o) == Walk(disk, bn, level, o)
    decreases level
  {
    if bn != 0 && level != 0 && bn in disk {
      SubtreeSame(disk, disk', bn, level - 1, Index(o, level));
      WalkStep(disk, bn, level - 1, o);
      WalkStep(disk', bn, level - 1, o);
      WalkFrame(disk, disk', disk[bn][Index(o, level)], level - 1, o % Cap(level - 1));
    }
  }

  lemma SubtreeSame(disk: Disk, disk': Disk, bn: int, level: nat, i: nat)
    requires bn in disk && bn != 0 && i < NINDIR && SameOn(disk, disk', Tree(disk, bn, level + 1))
    ensures disk'[bn] == disk[bn] && SameOn(disk, disk', Tree(disk, disk[bn][i], level))
  {
    TreeIs(disk, bn, level);
    assert SameIn(disk, disk', Tree(disk, bn, level + 1), bn);
    OneBelow(disk, disk[bn], level, i, |disk[bn]|);
    SameOnPart(disk, disk', Tree(disk, disk[bn][i], level), Tree(disk, bn, level + 1));
  }

  /** The block a walk ends at belongs to the tree. */
  lemma WalkInTree(disk: Disk, bn: int, level: nat, o: nat)
    requires o < Cap(level) && Walk(disk, bn, level, o) != 0
    ensures Walk(disk, bn, level, o) in Tree(disk, bn, level)
  {
    WalkIsNode(disk, bn, level, o);
    NodeInTree(disk, bn, level, o, 0);
  }

  lemma SplitOffset(o: nat, p: nat, c: nat)
    requires 0 < c && o / c == p / c && o % c == p % c
    ensures o == p
  {
    assert o == (o / c) * c + o % c;
  }

  /** In a tree without repeated blocks, different offsets lead to different blocks. */
  lemma {:induction false} WalkInjective(disk: Disk, bn: int, level: nat, o: nat, p: nat)
    requires o < Cap(level) && p < Cap(level) && Distinct(Tree(disk, bn, level))
    requires OnDisk(disk, Tree(disk, bn, level))
    requires Walk(disk, bn, level, o) != 0 && Walk(disk, bn, level, o) == Walk(disk, bn, level, p)
    ensures o == p
    decreases level
  {
    if level > 0 {
      var l := level - 1;
      assert bn in Tree(disk, bn, level);
      assert Present(disk, Tree(disk, bn, level), bn);
      var e, i, j := disk[bn], Index(o, level), Index(p, level);
      TreeIs(disk, bn, l);
      OneBelow(disk, e, l, i, |e|);
      WalkInTree(disk, e[i], l, o % Cap(l));
      WalkInTree(disk, e[j], l, p % Cap(l));
      if i != j {
        assert AtMostOnce(Tree(disk, bn, level), Walk(disk, bn, level, o));
        BelowApart(disk, e, l, i, j, Walk(disk, bn, level, o));
      }
      DistinctPart(Tree(disk, e[i], l), Tree(disk, bn, level));
      forall b ensures Present(disk, Tree(disk, e[i], l), b) {
        assert Present(disk, Tree(disk, bn, level), b);
      }
      WalkInjective(disk, e[i], l, o % Cap(l), p % Cap(l));
      SplitOffset(o, p, Cap(l));
    }
  }

  /** A walk that misses entry `i` of the root is not affected by what hangs there. */
  lemma WalkElsewhere(disk: Disk, disk': Disk, bn: int, level: nat, i: nat, b: int, n: int, o: nat)
    requires bn in disk && bn != 0 && i < NINDIR && o < Cap(level + 1) && Index(o, level + 1) != i
    requires SameBut(disk, disk', b, n)
    requires Distinct(Tree(disk, bn, level + 1) + multiset{n})
    requires b == bn || b in Tree(disk, disk[bn][i], level)
    requires disk'[bn][Index(o, level + 1)] == disk[bn][Index(o, level + 1)]
    ensures Walk(disk', bn, level + 1, o) == Walk(disk, bn, level + 1, o)
  {
    var j := Index(o, level + 1);
    OthersSame(disk, disk', bn, level, i, j, b, n);
    WalkFrame(disk, disk', disk[bn][j], level, o % Cap(level));
  }

  lemma IndexLast(o: nat)
    requires o < Cap(1)
    ensures Index(o, 1) == o
  {
    assert Cap(0) == 1;
  }

  /** One step of a walk. */
  lemma WalkStep(disk: Disk, bn: int, level: nat, o: nat)
    requires o < Cap(level + 1) && bn != 0 && bn in disk
    ensures Walk(disk, bn, level + 1, o) == Walk(disk, disk[bn][Index(o, level + 1)], level, o % Cap(level))
  {
  }

  lemma WalkZeroes(disk: Disk, n: int, level: nat, o: nat)
    requires 0 < level && o < Cap(level) && n != 0 && n in disk && disk[n] == Zeroes()
    ensures Walk(disk, n, level, o) == 0
  {
    WalkStep(disk, n, level - 1, o);
  }

  /** The walks that change when a new block is hung right below the root. */
  lemma GrowWalkHere(disk: Disk, disk': Disk, bn: int, level: nat, i: nat, n: int, o: nat)
    requires bn != 0 && o < Cap(level + 1) && Hung(disk, disk', bn, i, n)
    requires Distinct(Tree(disk, bn, level + 1) + multiset{n})
    ensures Walk(disk', bn, level + 1, o)
            == if level == 0 && Index(o, level + 1) == i then n else Walk(disk, bn, level + 1, o)
  {
    WalkStep(disk, bn, level, o);
    WalkStep(disk', bn, level, o);
    if Index(o, level + 1) == i {
      if level > 0 {
        WalkZeroes(disk', n, level, o % Cap(level));
      }
    } else {
      WalkElsewhere(disk, disk', bn, level, i, bn, n, o);
    }
  }

  /** After a new block is hung on the path of `off`, only that path leads to it,
      and only if it was hung at the very end. */
  lemma {:induction false} GrowWalk(disk: Disk, disk': Disk, bn: int, level: nat, off: nat, t: nat, b: int, i: nat, n: int, o: nat)
    requires 0 < t <= level && off < Cap(level) && o < Cap(level) && b != 0
    requires b == Node(disk, bn, level, off, t) && i == Index(OffAt(off, level, t), t)
    requires Hung(disk, disk', b, i, n)
    requires Distinct(Tree(disk, bn, level) + multiset{n})
    ensures Walk(disk', bn, level, o) == if t == 1 && o == off then n else Walk(disk, bn, level, o)
    decreases level
  {
    var l := level - 1;
    if t == level {
      GrowWalkHere(disk, disk', bn, l, i, n, o);
      if t == 1 {
        IndexLast(o);
        IndexLast(off);
      }
    } else {
      PathDown(disk, bn, level, off, t);
      var i0, off', o' := Index(off, level), off % Cap(l), o % Cap(l);
      SubtreeDistinct(disk, bn, l, i0, n);
      NodeInTree(disk, disk[bn][i0], l, off', t);
      RootApart(disk, bn, l, i0, b, n);
      if Index(o, level) != i0 {
        WalkElsewhere(disk, disk', bn, l, i0, b, n, o);
      } else {
        GrowWalk(disk, disk', disk[bn][i0], l, off', t, b, i, n, o');
        WalkStep(disk, bn, l, o);
        WalkStep(disk', bn, l, o);
        if o' == off' {
          SplitOffset(o, off, Cap(l));
        }
      }
    }
  }

  /** Hanging a new block below `b` leaves the path down to `b` as it was. */
  lemma {:induction false} NodeHung(disk: Disk, disk': Disk, bn: int, level: nat, off: nat, t: nat, b: int, i: nat, n: int)
    requires 0 < t <= level && off < Cap(level) && b != 0
    requires b == Node(disk, bn, level, off, t) && Hung(disk, disk', b, i, n)
    requires Distinct(Tree(disk, bn, level) + multiset{n})
    ensures Node(disk', bn, level, off, t) == b
    decreases level
  {
    if t < level {
      PathDown(disk, bn, level, off, t);
      var l, i0, off' := level - 1, Index(off, level), off % Cap(level - 1);
      SubtreeDistinct(disk, bn, l, i0, n);
      NodeInTree(disk, disk[bn][i0], l, off', t);
      RootApart(disk, bn, l, i0, b, n);
      NodeHung(disk, disk', disk[bn][i0], l, off', t, b, i, n);
    }
  }

  // Arithmetic of the paths.

  lemma ModMod(x: nat, a: nat, b: nat)
    requires 0 < a && 0 < b
    ensures 0 < a * b && x % (a * b) % a == x % a
  {
    var q, r := x / (a * b), x % (a * b);
    assert x == (a * b) * q + r;
    assert (a * b) * q == a * (b * q);
    ModAdd(r, a, b * q);
  }

  lemma ModAdd(r: nat, a: nat, k: nat)
    requires 0 < a
    ensures (a * k + r) % a == r % a && (a * k + r) / a == k + r / a
  {
    var q, s := r / a, r % a;
    assert a * k + r == a * (k + q) + s;
    DivUnique(a * k + r, a, k + q, s);
  }

  lemma MulAtLeast(a: nat, p: nat, q: nat)
    requires p < q
    ensures a * p + a <= a * q
  {
    assert a * (q - p) == a * q - a * p;
    assert a * (q - p - 1) == a * (q - p) - a;
  }

  lemma DivUnique(x: nat, a: nat, q: nat, s: nat)
    requires 0 < a && s < a && x == a * q + s
    ensures x / a == q && x % a == s
  {
    var p, r := x / a, x % a;
    assert x == a * p + r;
    if p < q {
      MulAtLeast(a, p, q);
    } else if q < p {
      MulAtLeast(a, q, p);
    }
  }

  lemma {:induction false} CapDivides(t: nat, level: nat) returns (k: nat)
    requires t <= level
    ensures 0 < k && Cap(level) == Cap(t) * k
    decreases level
  {
    if t == level {
      k := 1;
    } else {
      var j := CapDivides(t, level - 1);
      k := NINDIR * j;
      assert NINDIR * (Cap(t) * j) == Cap(t) * (NINDIR * j);
    }
  }

  /** Coming down to level `t` leaves the offset modulo the blocks below there. */
  lemma {:induction false} OffAtMod(off: nat, level: nat, t: nat)
    requires t <= level && off < Cap(level)
    ensures OffAt(off, level, t) == off % Cap(t)
    decreases level
  {
    if t < level {
      OffAtMod(off % Cap(level - 1), level - 1, t);
      var k := CapDivides(t, level - 1);
      ModMod(off, Cap(t), k);
    }
  }

  lemma MaskDiv(off: nat, c: nat)
    requires 0 < c
    ensures off % (NINDIR * c) / c == off / c % NINDIR
  {
    var q, r := off / (NINDIR * c), off % (NINDIR * c);
    assert off == (NINDIR * c) * q + r;
    MulShuffle(c, q);
    ModAdd(r, c, NINDIR * q);
    IndexBound(r, c);
    ModAdd(r / c, NINDIR, q);
  }

  lemma MulShuffle(c: nat, q: nat)
    ensures (NINDIR * c) * q == c * (NINDIR * q)
  {
  }

  /** The entry a path goes through, as the original masks it out of the offset. */
  lemma MaskedIndex(off: nat, level: nat, t: nat)
    requires 0 < t <= level && off < Cap(level)
    ensures Index(OffAt(off, level, t), t) == off / Cap(t - 1) % NINDIR
  {
    OffAtMod(off, level, t);
    MaskDiv(off, Cap(t - 1));
  }

  function Pow2(n: nat): (p: nat)
    ensures 0 < p
  {
    if n == 0 then 1 else 2 * Pow2(n - 1)
  }

  lemma {:induction false} CapIsPow2(level: nat)
    ensures Cap(level) == Pow2(NSHIFT * level)
  {
    if level > 0 {
      CapIsPow2(level - 1);
      var n := NSHIFT * (level - 1);
      assert Pow2(n + 7) == 2 * Pow2(n + 6) && Pow2(n + 6) == 2 * Pow2(n + 5) && Pow2(n + 5) == 2 * Pow2(n + 4);
      assert Pow2(n + 4) == 2 * Pow2(n + 3) && Pow2(n + 3) == 2 * Pow2(n + 2) && Pow2(n + 2) == 2 * Pow2(n + 1);
    }
  }

  /** The root of a tree occurs nowhere below, and is not the new block. */
  lemma RootApart(disk: Disk, bn: int, level: nat, i: nat, b: int, n: int)
    requires bn in disk && bn != 0 && i < NINDIR && Distinct(Tree(disk, bn, level + 1) + multiset{n})
    requires b in Tree(disk, disk[bn][i], level)
    ensures bn != b && bn != n
  {
    TreeIs(disk, bn, level);
    OneBelow(disk, disk[bn], level, i, |disk[bn]|);
    var all := Tree(disk, bn, level + 1) + multiset{n};
    assert AtMostOnce(all, n) && AtMostOnce(all, b);
  }

  /** In a tree without repeated blocks, no block is both on the way and at the end. */
  lemma {:induction false} NodeIsNoLeaf(disk: Disk, bn: int, level: nat, off: nat, t: nat, o: nat)
    requires 0 < t <= level && off < Cap(level) && o < Cap(level)
    requires Distinct(Tree(disk, bn, level)) && OnDisk(disk, Tree(disk, bn, level))
    requires Node(disk, bn, level, off, t) != 0
    ensures Node(disk, bn, level, off, t) != Walk(disk, bn, level, o)
    decreases level
  {
    var l := level - 1;
    if Walk(disk, bn, level, o) != 0 {
      RootOnDisk(disk, bn, level);
      var e, i, j := disk[bn], Index(off, level), Index(o, level);
      TreeIs(disk, bn, l);
      WalkStep(disk, bn, l, o);
      WalkInTree(disk, e[j], l, o % Cap(l));
      OneBelow(disk, e, l, j, |e|);
      assert AtMostOnce(Tree(disk, bn, level), Walk(disk, bn, level, o));
      if t < level {
        NodeInTree(disk, e[i], l, off % Cap(l), t);
        if i != j {
          BelowApart(disk, e, l, j, i, Walk(disk, bn, level, o));
        } else {
          SubtreeOk(disk, bn, l, i);
          NodeIsNoLeaf(disk, e[i], l, off % Cap(l), t, o % Cap(l));
        }
      }
    }
  }

  lemma RootOnDisk(disk: Disk, bn: int, level: nat)
    requires OnDisk(disk, Tree(disk, bn, level)) && bn != 0
    ensures bn in disk
  {
    assert bn in Tree(disk, bn, level);
    assert Present(disk, Tree(disk, bn, level), bn);
  }

  lemma SubtreeOk(disk: Disk, bn: int, level: nat, i: nat)
    requires bn in disk && bn != 0 && i < NINDIR
    requires Distinct(Tree(disk, bn, level + 1)) && OnDisk(disk, Tree(disk, bn, level + 1))
    ensures Distinct(Tree(disk, disk[bn][i], level)) && OnDisk(disk, Tree(disk, disk[bn][i], level))
  {
    var part := Tree(disk, disk[bn][i], level);
    TreeIs(disk, bn, level);
    OneBelow(disk, disk[bn], level, i, |disk[bn]|);
    DistinctPart(part, Tree(disk, bn, level + 1));
    OnDiskPart(disk, part, Tree(disk, bn, level + 1));
  }

  lemma OnDiskPart(disk: Disk, part: multiset<int>, whole: multiset<int>)
    requires OnDisk(disk, whole) && part <= whole
    ensures OnDisk(disk, part)
  {
    forall b ensures Present(disk, part, b) {
      assert Present(disk, whole, b);
    }
  }

  /** Storing data at the end of a path changes neither the tree nor any walk. */
  lemma {:induction false} LeafWrite(disk: Disk, bn: int, level: nat, off: nat, data: Block, o: nat)
    requires off < Cap(level) && o < Cap(level)
    requires Distinct(Tree(disk, bn, level)) && OnDisk(disk, Tree(disk, bn, level))
    requires Walk(disk, bn, level, off) != 0
    ensures Walk(disk, bn, level, off) in disk
    ensures var disk' := disk[Walk(disk, bn, level, off) := data];
            && Tree(disk', bn, level) == Tree(disk, bn, level)
            && Walk(disk', bn, level, o) == Walk(disk, bn, level, o)
    decreases level
  {
    RootOnDisk(disk, bn, level);
    if level > 0 {
      var l := level - 1;
      var e, i, d := disk[bn], Index(off, level), Walk(disk, bn, level, off);
      WalkStep(disk, bn, l, off);
      WalkInTree(disk, e[i], l, off % Cap(l));
      SubtreeOk(disk, bn, l, i);
      LeafWrite(disk, e[i], l, off % Cap(l), data, o % Cap(l));
      NodeIsNoLeaf(disk, bn, level, off, level, off);
      LeafWriteAbove(disk, disk[d := data], bn, l, i, d, o);
    }
  }

  /** The block `d`, below entry `i`, is in no tree below another entry. */
  lemma LeafElsewhere(disk: Disk, disk': Disk, bn: int, level: nat, i: nat, j: nat, d: int)
    requires bn in disk && bn != 0 && i < NINDIR && j < NINDIR && i != j
    requires SameBut(disk, disk', d, d) && Distinct(Tree(disk, bn, level + 1))
    requires d in Tree(disk, disk[bn][i], level)
    ensures SameOn(disk, disk', Tree(disk, disk[bn][j], level))
  {
    TreeIs(disk, bn, level);
    assert AtMostOnce(Tree(disk, bn, level + 1), d);
    BelowApart(disk, disk[bn], level, i, j, d);
    var m := Tree(disk, disk[bn][j], level);
    forall x ensures SameIn(disk, disk', m, x) {
      assert x == d || SameAt(disk, disk', x);
    }
  }

  lemma LeafWriteAbove(disk: Disk, disk': Disk, bn: int, level: nat, i: nat, d: int, o: nat)
    requires bn in disk && bn != 0 && i < NINDIR && o < Cap(level + 1) && d != bn
    requires SameBut(disk, disk', d, d) && Distinct(Tree(disk, bn, level + 1))
    requires d in Tree(disk, disk[bn][i], level)
    requires Tree(disk', disk[bn][i], level) == Tree(disk, disk[bn][i], level)
    requires Walk(disk', disk[bn][i], level, o % Cap(level)) == Walk(disk, disk[bn][i], level, o % Cap(level))
    ensures Tree(disk', bn, level + 1) == Tree(disk, bn, level + 1)
    ensures Walk(disk', bn, level + 1, o) == Walk(disk, bn, level + 1, o)
  {
    var e := disk[bn];
    assert bn == d || SameAt(disk, disk', bn);
    forall j | 0 <= j < NINDIR && j != i ensures EntryKept(disk, disk', e, e, level, j) {
      LeafElsewhere(disk, disk', bn, level, i, j, d);
      TreeFrame(disk, disk', e[j], level);
    }
    BelowGains(disk, disk', e, e, level, i, |e|, multiset{});
    TreeIs(disk, bn, level);
    TreeIs(disk', bn, level);
    WalkStep(disk, bn, level, o);
    WalkStep(disk', bn, level, o);
    var j := Index(o, level + 1);
    if j != i {
      LeafElsewhere(disk, disk', bn, level, i, j, d);
      WalkFrame(disk, disk', e[j], level, o % Cap(level));
    }
  }

  lemma SameOnTwice(d0: Disk, d1: Disk, d2: Disk, m: multiset<int>)
    requires SameOn(d0, d1, m) && SameOn(d1, d2, m)
    ensures SameOn(d0, d2, m)
  {
    forall b ensures SameIn(d0, d2, m, b) {
      assert SameIn(d0, d1, m, b) && SameIn(d1, d2, m, b);
    }
  }

  lemma SameOnOthers(disk: Disk, disk': Disk, bn: int, m: multiset<int>)
    requires SameBut(disk, disk', bn, bn) && bn !in m
    ensures SameOn(disk, disk', m)
  {
    forall b ensures SameIn(disk, disk', m, b) {
      assert b == bn || SameAt(disk, disk', b);
    }
  }

  /** Changes to one block of `f` and to a block in neither leave `m` alone. */
  lemma SameOnOthersTwo(disk: Disk, disk': Disk, b: int, n: int, f: multiset<int>, m: multiset<int>)
    requires SameBut(disk, disk', b, n) && b in f && n !in m && Distinct(f + m)
    ensures SameOn(disk, disk', m)
  {
    assert AtMostOnce(f + m, b);
    forall x ensures SameIn(disk, disk', m, x) {
      assert x == b || x == n || SameAt(disk, disk', x);
    }
  }
}
