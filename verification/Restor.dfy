/** Block cache, free list and block maps of old/512restor.c, one on top of the
    other.  A failed allocation ends the original program; here `ok` is false. */
module Restor {
  import opened RestorBlocks
  import opened RestorFile

  const NCACHE: nat := 3

  datatype Entry = Entry(bno: int, time: int, block: Block)

  ghost predicate EntryOk(disk: Disk, cache: seq<Entry>, i: nat)
    requires i < |cache|
  {
    cache[i].bno != 0 ==> cache[i].bno in disk && disk[cache[i].bno] == cache[i].block
  }

  ghost predicate EntriesApart(cache: seq<Entry>, i: nat, j: nat)
    requires i < |cache| && j < |cache|
  {
    i != j && cache[i].bno == cache[j].bno ==> cache[i].bno == 0
  }

  /** Every cached block other than block 0 is the disk's, and cached once. */
  ghost predicate CacheOk(disk: Disk, cache: seq<Entry>)
  {
    && |cache| == NCACHE
    && (forall i: nat | i < NCACHE :: EntryOk(disk, cache, i))
    && (forall i: nat, j: nat | i < NCACHE && j < NCACHE :: EntriesApart(cache, i, j))
  }

  /** Times aside, the same blocks are cached in the same places. */
  ghost predicate SameCache(cache: seq<Entry>, cache': seq<Entry>)
  {
    && |cache| == |cache'| == NCACHE
    && forall i: nat | i < NCACHE :: SameEntry(cache, cache', i)
  }

  ghost predicate SameEntry(cache: seq<Entry>, cache': seq<Entry>, i: nat)
    requires i < |cache| && i < |cache'|
  {
    cache'[i].bno == cache[i].bno && cache'[i].block == cache[i].block
  }

  lemma SameCacheOk(disk: Disk, cache: seq<Entry>, cache': seq<Entry>)
    requires CacheOk(disk, cache) && SameCache(cache, cache')
    ensures CacheOk(disk, cache')
  {
    forall i: nat | i < NCACHE ensures EntryOk(disk, cache', i) {
      assert EntryOk(disk, cache, i) && SameEntry(cache, cache', i);
    }
    forall i: nat, j: nat | i < NCACHE && j < NCACHE ensures EntriesApart(cache', i, j) {
      assert EntriesApart(cache, i, j) && SameEntry(cache, cache', i) && SameEntry(cache, cache', j);
    }
  }

  /** Counting up an entry's time keeps the blocks cached. */
  lemma Aged(cache: seq<Entry>, cache': seq<Entry>, i: nat)
    requires SameCache(cache, cache') && i < NCACHE
    ensures SameCache(cache, cache'[i := cache'[i].(time := cache'[i].time + 1)])
  {
    var aged := cache'[i := cache'[i].(time := cache'[i].time + 1)];
    forall j: nat | j < NCACHE ensures SameEntry(cache, aged, j) {
      assert SameEntry(cache, cache', j);
    }
  }

  /** Writing through: the disk and the entry for `bno`, if any, change together. */
  lemma WriteThrough(disk: Disk, cache: seq<Entry>, cache': seq<Entry>, bno: int, b: Block)
    requires CacheOk(disk, cache) && |cache'| == NCACHE
    requires forall i: nat | i < NCACHE :: cache'[i].bno == cache[i].bno
               && (bno != 0 || cache[i].bno != bno ==>
                     cache'[i].block == if cache[i].bno == bno then b else cache[i].block)
    ensures CacheOk(disk[bno := b], cache')
  {
    var disk' := disk[bno := b];
    forall i: nat | i < NCACHE ensures EntryOk(disk', cache', i) {
      assert EntryOk(disk, cache, i);
    }
    forall i: nat, j: nat | i < NCACHE && j < NCACHE ensures EntriesApart(cache', i, j) {
      assert EntriesApart(cache, i, j);
    }
  }

  /** Loading a block that is not cached. */
  lemma LoadKeeps(disk: Disk, cache: seq<Entry>, j: nat, bno: int)
    requires CacheOk(disk, cache) && j < NCACHE && bno in disk
    requires forall i: nat | i < NCACHE :: cache[i].bno != bno
    ensures CacheOk(disk, cache[j := Entry(bno, 0, disk[bno])])
  {
    var cache' := cache[j := Entry(bno, 0, disk[bno])];
    forall i: nat | i < NCACHE ensures EntryOk(disk, cache', i) {
      assert EntryOk(disk, cache, i);
    }
    forall i: nat, k: nat | i < NCACHE && k < NCACHE ensures EntriesApart(cache', i, k) {
      assert EntriesApart(cache, i, k);
    }
  }

  /** The `k`-th entry looked at, counting from the one behind `c0`, is not `bno`. */
  ghost predicate Missed(cache: seq<Entry>, c0: nat, k: nat, bno: int)
    requires |cache| == NCACHE
  {
    cache[(c0 + k) % NCACHE].bno != bno
  }

  /** What a read of block `bno` sees: the first entry of that number, from the one behind `c` on
      round the cache, or the disk. */
  function Seen(disk: Disk, cache: seq<Entry>, c: nat, bno: int): Block
    requires |cache| == NCACHE && bno in disk
  {
    if cache[(c + 1) % NCACHE].bno == bno then cache[(c + 1) % NCACHE].block
    else if cache[(c + 2) % NCACHE].bno == bno then cache[(c + 2) % NCACHE].block
    else if cache[(c + 3) % NCACHE].bno == bno then cache[(c + 3) % NCACHE].block
    else disk[bno]
  }

  lemma SeenFirst(disk: Disk, cache: seq<Entry>, c: nat, i: nat, bno: int)
    requires |cache| == NCACHE && bno in disk && 1 <= i <= NCACHE && cache[(c + i) % NCACHE].bno == bno
    requires forall k: nat | 1 <= k < i :: Missed(cache, c, k, bno)
    ensures Seen(disk, cache, c, bno) == cache[(c + i) % NCACHE].block
  {
    assert 1 < i ==> Missed(cache, c, 1, bno);
    assert 2 < i ==> Missed(cache, c, 2, bno);
  }

  lemma SeenNowhere(disk: Disk, cache: seq<Entry>, c: nat, bno: int)
    requires |cache| == NCACHE && bno in disk && forall k: nat | 1 <= k <= NCACHE :: Missed(cache, c, k, bno)
    ensures Seen(disk, cache, c, bno) == disk[bno]
  {
    assert Missed(cache, c, 1, bno) && Missed(cache, c, 2, bno) && Missed(cache, c, 3, bno);
  }

  lemma NotCached(cache: seq<Entry>, cache': seq<Entry>, c: nat, bno: int)
    requires SameCache(cache, cache') && forall k: nat | 1 <= k <= NCACHE :: Missed(cache, c, k, bno)
    ensures forall i: nat | i < NCACHE :: cache'[i].bno != bno
  {
    forall k: nat | k < NCACHE ensures cache'[k].bno != bno {
      assert k == (c + 1) % NCACHE || k == (c + 2) % NCACHE || k == (c + 3) % NCACHE;
      assert Missed(cache, c, 1, bno) && Missed(cache, c, 2, bno) && Missed(cache, c, 3, bno);
      assert SameEntry(cache, cache', k);
    }
  }

  /** For every block but 0, which an empty entry has for its number, that is what the disk has. */
  lemma SeenIsDisk(disk: Disk, cache: seq<Entry>, c: nat, bno: int)
    requires CacheOk(disk, cache) && bno in disk && bno != 0
    ensures Seen(disk, cache, c, bno) == disk[bno]
  {
    assert EntryOk(disk, cache, (c + 1) % NCACHE) && EntryOk(disk, cache, (c + 2) % NCACHE);
    assert EntryOk(disk, cache, (c + 3) % NCACHE);
  }

  /** The free list is sound, and no block is both on it and in `others`. */
  ghost predicate FreeOk(disk: Disk, nfree: int, frees: seq<int>, stack: seq<int>, others: multiset<int>)
  {
    && Chain(disk, nfree, frees, stack)
    && Distinct(multiset(stack) + others) && OnDisk(disk, multiset(stack) + others)
  }

  lemma FreeFacts(disk: Disk, nfree: int, frees: seq<int>, stack: seq<int>, others: multiset<int>)
    requires FreeOk(disk, nfree, frees, stack, others)
    ensures forall b | b in stack :: b != 0 && b in disk && b !in others
    ensures Distinct(others) && OnDisk(disk, others)
  {
    forall b | b in stack ensures b != 0 && b in disk && b !in others {
      assert b in multiset(stack);
      assert AtMostOnce(multiset(stack) + others, b) && Present(disk, multiset(stack) + others, b);
    }
    DistinctPart(others, multiset(stack) + others);
    OnDiskPart(disk, others, multiset(stack) + others);
  }

  /** The top of the stack moves from the free list to `others`. */
  lemma PopSplits(disk: Disk, stack: seq<int>, others: multiset<int>)
    requires stack != [] && Distinct(multiset(stack) + others) && OnDisk(disk, multiset(stack) + others)
    ensures var top, rest := stack[|stack| - 1], stack[..|stack| - 1];
            && multiset(stack) == multiset(rest) + multiset{top}
            && multiset(rest) + (others + multiset{top}) == multiset(stack) + others
            && top !in rest && top !in others && top != 0 && top in disk
  {
    var top, rest := stack[|stack| - 1], stack[..|stack| - 1];
    assert stack == rest + [top];
    assert AtMostOnce(multiset(stack) + others, top) && Present(disk, multiset(stack) + others, top);
    assert top in rest ==> top in multiset(rest);
  }

  /** Popping the top, with the chunk it holds when it was the last one in core. */
  lemma PopKeeps(disk: Disk, nfree: int, frees: seq<int>, stack: seq<int>, others: multiset<int>)
    requires FreeOk(disk, nfree, frees, stack, others) && stack != []
    ensures var top, rest := stack[|stack| - 1], stack[..|stack| - 1];
            && top == frees[nfree - 1] && top != 0 && top in disk && top !in rest && top !in others
            && if nfree > 1 then FreeOk(disk, nfree - 1, frees, rest, others + multiset{top})
               else FreeOk(disk, ChunkCount(disk[top]), ChunkFree(disk[top]), rest, others + multiset{top})
  {
    FreeFacts(disk, nfree, frees, stack, others);
    ChainEmpty(disk, nfree, frees, stack);
    PopSplits(disk, stack, others);
    Pop(disk, nfree, frees, stack);
  }

  /** The free list does not depend on blocks that are not on it. */
  lemma FreeFrame(disk: Disk, nfree: int, frees: seq<int>, stack: seq<int>, others: multiset<int>, bno: int, b: Block)
    requires FreeOk(disk, nfree, frees, stack, others) && bno in disk && bno !in stack
    ensures FreeOk(disk[bno := b], nfree, frees, stack, others)
  {
    ChainFrame(disk, disk[bno := b], nfree, frees, stack);
    OnDiskKeys(disk, disk[bno := b], multiset(stack) + others);
  }

  lemma OnDiskKeys(disk: Disk, disk': Disk, m: multiset<int>)
    requires OnDisk(disk, m) && disk'.Keys == disk.Keys
    ensures OnDisk(disk', m)
  {
    forall b ensures Present(disk', m, b) {
      assert Present(disk, m, b);
    }
  }

  ghost predicate Gained(s0: seq<int>, s1: seq<int>, m: multiset<int>, b: int)
  {
    multiset(s1)[b] == multiset(s0)[b] + m[b]
  }

  /** `s1` is `s0` with the blocks of `m` pushed on top. */
  ghost predicate Gains(s0: seq<int>, s1: seq<int>, m: multiset<int>)
  {
    s0 <= s1 && forall b :: Gained(s0, s1, m, b)
  }

  lemma GainsNothing(s: seq<int>)
    ensures Gains(s, s, multiset{})
  {
    forall b ensures Gained(s, s, multiset{}, b) {
    }
  }

  lemma GainsOne(s: seq<int>, bn: int)
    ensures Gains(s, s + [bn], multiset{bn})
  {
    assert multiset(s + [bn]) == multiset(s) + multiset{bn};
    forall b ensures Gained(s, s + [bn], multiset{bn}, b) {
    }
  }

  lemma GainsTwice(s0: seq<int>, s1: seq<int>, s2: seq<int>, m1: multiset<int>, m2: multiset<int>)
    requires Gains(s0, s1, m1) && Gains(s1, s2, m2)
    ensures Gains(s0, s2, m1 + m2)
  {
    var m := m1 + m2;
    forall b ensures Gained(s0, s2, m, b) {
      assert Gained(s0, s1, m1, b) && Gained(s1, s2, m2, b);
    }
  }

  /** A tree about to be freed: its root is on the disk, and what is below the
      root is the trees of all its entries. */
  lemma StartTree(disk: Disk, nfree: int, frees: seq<int>, stack: seq<int>, bn: int, level: nat, others: multiset<int>)
    requires FreeOk(disk, nfree, frees, stack, others + Tree(disk, bn, level + 1)) && bn != 0
    ensures bn in disk
    ensures var below := Below(disk, disk[bn], level, |disk[bn]|);
            && FreeOk(disk, nfree, frees, stack, others + multiset{bn} + below)
            && SameOn(disk, disk, others + multiset{bn} + below)
            && Tree(disk, bn, level + 1) == below + multiset{bn}
  {
    assert bn in Tree(disk, bn, level + 1);
    assert Present(disk, multiset(stack) + (others + Tree(disk, bn, level + 1)), bn);
    TreeIs(disk, bn, level);
    var m := others + multiset{bn} + Below(disk, disk[bn], level, |disk[bn]|);
    assert others + Tree(disk, bn, level + 1) == m;
    forall b ensures SameIn(disk, disk, m, b) {
    }
  }

  /** Directories and regular files own blocks; an inode of mode 0 is free. */
  const IFMT_SHIFT: nat := 0x1000
  const IFDIR: nat := 4
  const IFREG: nat := 8

  predicate Freeable(mode: nat)
  {
    mode / IFMT_SHIFT % 16 == IFDIR || mode / IFMT_SHIFT % 16 == IFREG
  }

  lemma SameOnItself(disk: Disk, m: multiset<int>)
    ensures SameOn(disk, disk, m)
  {
    forall b ensures SameIn(disk, disk, m, b) {
    }
  }

  ghost predicate CountKept(s0: seq<int>, f0: multiset<int>, s1: seq<int>, f1: multiset<int>, b: int)
  {
    multiset(s0)[b] + f0[b] == multiset(s1)[b] + f1[b]
  }

  /** Free list and file together hold the same blocks, each as often. */
  ghost predicate Conserved(s0: seq<int>, f0: multiset<int>, s1: seq<int>, f1: multiset<int>)
  {
    forall b :: CountKept(s0, f0, s1, f1, b)
  }

  lemma ConservedPop(stack: seq<int>, f: multiset<int>)
    requires stack != []
    ensures Conserved(stack, f, stack[..|stack| - 1], f + multiset{stack[|stack| - 1]})
  {
    var rest, f' := stack[..|stack| - 1], f + multiset{stack[|stack| - 1]};
    assert stack == rest + [stack[|stack| - 1]];
    forall b ensures CountKept(stack, f, rest, f', b) {
    }
  }

  lemma ConservedItself(s: seq<int>, f: multiset<int>)
    ensures Conserved(s, f, s, f)
  {
    forall b ensures CountKept(s, f, s, f, b) {
    }
  }

  lemma ConservedTwice(s0: seq<int>, f0: multiset<int>, s1: seq<int>, f1: multiset<int>, s2: seq<int>, f2: multiset<int>)
    requires Conserved(s0, f0, s1, f1) && Conserved(s1, f1, s2, f2)
    ensures Conserved(s0, f0, s2, f2)
  {
    forall b ensures CountKept(s0, f0, s2, f2, b) {
      assert CountKept(s0, f0, s1, f1, b) && CountKept(s1, f1, s2, f2, b);
    }
  }

  /** The block just allocated becomes one of the file's. */
  lemma FileTakes(f: multiset<int>, others: multiset<int>, n: int)
    ensures (f + multiset{n}) + others == (f + others) + multiset{n}
  {
  }

  lemma FileTakesMore(f: multiset<int>, lost: multiset<int>, n: int)
    ensures (f + multiset{n}) + lost == (f + lost) + multiset{n}
  {
  }

  lemma NothingLost(m: multiset<int>, lost: multiset<int>)
    ensures lost == multiset{} ==> m + lost == m
  {
  }

  /** No block that is free, the file's or another's is block 0. */
  lemma NotZero(disk: Disk, disk': Disk, stack: seq<int>, f: multiset<int>, others: multiset<int>)
    requires OnDisk(disk, multiset(stack) + (f + others)) && SameBut(disk, disk', 0, 0)
    ensures 0 !in stack && SameOn(disk, disk', f) && SameOn(disk, disk', others)
  {
    assert Present(disk, multiset(stack) + (f + others), 0);
    forall b ensures SameIn(disk, disk', f, b) && SameIn(disk, disk', others, b) {
      assert b == 0 || SameAt(disk, disk', b);
    }
  }

  class Restorer {
    var disk: Disk
    var cache: seq<Entry>
    var curcache: nat
    var nfree: int
    var frees: seq<int>
    var taddr: Addresses
    ghost var stack: seq<int>

    ghost predicate CacheValid()
      reads this`disk, this`cache, this`curcache
    {
      CacheOk(disk, cache) && curcache < NCACHE
    }

    /** Writes a block to disk, and to the cache if it is there. */
    method DWrite(bno: int, b: Block)
      requires CacheValid() && bno in disk
      modifies this`disk, this`cache
      ensures CacheValid() && disk == old(disk)[bno := b]
    {
      var i := 0;
      ghost var hit := false;
      assert SameCache(cache, cache) by {
        assert forall j: nat | j < NCACHE :: SameEntry(cache, cache, j);
      }
      while i < NCACHE
        invariant 0 <= i <= NCACHE && SameCache(old(cache), cache) && !hit
        invariant disk == old(disk)
        invariant forall j: nat | j < i :: cache[j].bno != bno
      {
        SameCacheOk(disk, old(cache), cache);
        if cache[i].bno == bno {
          forall j: nat | j < NCACHE ensures bno != 0 && j != i ==> cache[j].bno != bno {
            assert EntriesApart(cache, i, j);
          }
          WriteThrough(disk, cache, cache[i := Entry(bno, 0, b)], bno, b);
          cache, hit := cache[i := Entry(bno, 0, b)], true;
          break;
        }
        Aged(old(cache), cache, i);
        cache := cache[i := cache[i].(time := cache[i].time + 1)];
        i := i + 1;
      }
      if !hit {
        SameCacheOk(disk, old(cache), cache);
        WriteThrough(disk, cache, cache, bno, b);
      }
      disk := disk[bno := b];
    }
  
    /** Reads the first `cnt` words of a block, through the cache. */
    method DRead(bno: int, cnt: nat) returns (buf: seq<int>)
      requires CacheValid() && bno in disk && cnt <= NINDIR
      modifies this`cache, this`curcache
      ensures CacheValid() && buf == Seen(disk, old(cache), old(curcache), bno)[..cnt]
      ensures bno != 0 ==> buf == disk[bno][..cnt]
    {
      var i, j := 0, 0;
      ghost var c0 := curcache;
      if bno != 0 {
        SeenIsDisk(disk, cache, c0, bno);
      }
      assert SameCache(cache, cache) by {
        assert forall k: nat | k < NCACHE :: SameEntry(cache, cache, k);
      }
      while i < NCACHE
        invariant 0 <= i <= NCACHE && 0 <= j < NCACHE && curcache == (c0 + i) % NCACHE
        invariant SameCache(old(cache), cache) && disk == old(disk)
        invariant forall k: nat | 1 <= k <= i :: Missed(old(cache), c0, k, bno)
      {
        curcache := curcache + 1;
        if curcache >= NCACHE {
          curcache := 0;
        }
        SameCacheOk(disk, old(cache), cache);
        assert SameEntry(old(cache), cache, curcache);
        if cache[curcache].bno == bno {
          SeenFirst(disk, old(cache), c0, i + 1, bno);
          buf := cache[curcache].block[..cnt];
          SetTime(cache, curcache);
          cache := cache[curcache := cache[curcache].(time := 0)];
          return;
        }
        Aged(old(cache), cache, curcache);
        cache := cache[curcache := cache[curcache].(time := cache[curcache].time + 1)];
        if cache[j].time < cache[curcache].time {
          j := curcache;
        }
        i := i + 1;
      }
      SameCacheOk(disk, old(cache), cache);
      SeenNowhere(disk, old(cache), c0, bno);
      NotCached(old(cache), cache, c0, bno);
      buf := Fetch(bno, cnt, j);
    }

    /** The block takes the place of the oldest entry. */
    method Fetch(bno: int, cnt: nat, j: nat) returns (buf: seq<int>)
      requires CacheValid() && bno in disk && cnt <= NINDIR && j < NCACHE
      requires forall i: nat | i < NCACHE :: cache[i].bno != bno
      modifies this`cache
      ensures CacheValid() && buf == disk[bno][..cnt]
    {
      LoadKeeps(disk, cache, j, bno);
      cache := cache[j := Entry(bno, 0, disk[bno])];
      buf := cache[j].block[..cnt];
    }

    /** Reads a whole block. */
    method ReadBlock(bno: int) returns (b: Block)
      requires CacheValid() && bno != 0 && bno in disk
      modifies this`cache, this`curcache
      ensures CacheValid() && b == disk[bno]
    {
      b := DRead(bno, NINDIR);
    }

    /** A block's time says nothing about what it holds. */
    lemma SetTime(c: seq<Entry>, i: nat)
      requires CacheOk(disk, c) && i < NCACHE
      ensures CacheOk(disk, c[i := c[i].(time := 0)])
    {
      var c' := c[i := c[i].(time := 0)];
      forall j: nat | j < NCACHE ensures SameEntry(c, c', j) {
      }
      SameCacheOk(disk, c, c');
    }
  
    /** Frees block `bn`: pushes it onto the free list. */
    method BFree(bn: int, ghost others: multiset<int>)
      requires CacheValid() && FreeOk(disk, nfree, frees, stack, others + multiset{bn})
      modifies this`disk, this`cache, this`nfree, this`frees, this`stack
      ensures CacheValid() && FreeOk(disk, nfree, frees, stack, others)
      ensures stack == old(stack) + [bn] && Gains(old(stack), stack, multiset{bn})
      ensures SameOn(old(disk), disk, others)
    {
      FreeFacts(disk, nfree, frees, stack, others + multiset{bn});
      PushMoves(disk, stack, others, bn);
      Push(bn);
      OnDiskKeys(old(disk), disk, multiset(stack + [bn]) + others);
      SameOnOthers(old(disk), disk, bn, others);
      GainsOne(stack, bn);
      stack := stack + [bn];
    }

    /** The block is entered in the in-core chunk, which is written out first if it is full. */
    method Push(bn: int)
      requires CacheValid() && bn != 0 && bn in disk && bn !in stack && Chain(disk, nfree, frees, stack)
      modifies this`disk, this`cache, this`nfree, this`frees
      ensures CacheValid() && SameBut(old(disk), disk, bn, bn) && Chain(disk, nfree, frees, stack + [bn])
    {
      if nfree >= NICFREE {
        Spill(bn);
      } else {
        PushInCore(disk, nfree, frees, stack, bn);
      }
      frees := frees[nfree := bn];
      nfree := nfree + 1;
    }

    /** Writes the full in-core chunk into the block being freed. */
    method Spill(bn: int)
      requires CacheValid() && bn != 0 && bn in disk && bn !in stack
      requires nfree == NICFREE && Chain(disk, nfree, frees, stack)
      modifies this`disk, this`cache, this`nfree
      ensures CacheValid() && nfree == 0 && SameBut(old(disk), disk, bn, bn)
      ensures Chain(disk, 1, frees[0 := bn], stack + [bn])
    {
      assert |Zeroes()[NICFREE + 1..]| == NINDIR - NICFREE - 1;
      var rest: seq<int> :| |rest| == NINDIR - NICFREE - 1;
      var fbuf := [nfree] + frees + rest;
      assert ChunkFree(fbuf) == frees;
      PushSpilled(disk, nfree, frees, stack, bn, fbuf);
      nfree := 0;
      DWrite(bn, fbuf);
    }

    lemma PushMoves(d: Disk, s: seq<int>, others: multiset<int>, bn: int)
      requires OnDisk(d, multiset(s) + (others + multiset{bn}))
      requires Distinct(multiset(s) + (others + multiset{bn}))
      ensures multiset(s + [bn]) + others == multiset(s) + (others + multiset{bn})
      ensures bn != 0 && bn in d && bn !in others
    {
      assert AtMostOnce(multiset(s) + (others + multiset{bn}), bn);
      assert Present(d, multiset(s) + (others + multiset{bn}), bn);
    }

    /** Allocates a zeroed block: pops it off the free list. */
    method BAlloc(ghost others: multiset<int>) returns (ok: bool, bno: int)
      requires CacheValid() && FreeOk(disk, nfree, frees, stack, others)
      modifies this`disk, this`cache, this`curcache, this`nfree, this`frees, this`stack
      ensures ok <==> old(stack) != []
      ensures !ok ==> stack == []
      ensures ok ==> CacheValid() && FreeOk(disk, nfree, frees, stack, others + multiset{bno})
      ensures ok ==> bno == old(stack)[|old(stack)| - 1] && stack == old(stack)[..|old(stack)| - 1]
      ensures ok ==> bno != 0 && bno in old(disk) && bno !in others && disk == old(disk)[bno := Zeroes()]
    {
      FreeFacts(disk, nfree, frees, stack, others);
      ChainEmpty(disk, nfree, frees, stack);
      if nfree == 0 {
        return false, 0;
      }
      nfree := nfree - 1;
      bno := frees[nfree];
      if bno == 0 {
        return false, 0;
      }
      PopKeeps(disk, nfree + 1, frees, stack, others);
      stack := stack[..|stack| - 1];
      if nfree == 0 {
        var fbuf := ReadBlock(bno);
        nfree := fbuf[0];
        frees := fbuf[1..NICFREE + 1];
      }
      FreeFrame(disk, nfree, frees, stack, others + multiset{bno}, bno, Zeroes());
      DWrite(bno, Zeroes());
      ok := true;
    }
  
    /** The levels of indirection that `tloop` is told of by its two flags. */
    static function Level(f1: bool, f2: bool): nat
    {
      if f1 then if f2 then 3 else 2 else 1
    }

    /** Frees the tree at `nb`, an entry of a block whose flags are `f1` and `f2`;
        `d0` is the disk as it was when that block was read. */
    method FreeEntry(nb: int, f1: bool, f2: bool, ghost l: nat, ghost d0: Disk, ghost rest: multiset<int>)
      requires CacheValid() && l + 1 == Level(f1, f2)
      requires FreeOk(disk, nfree, frees, stack, rest + Tree(d0, nb, l))
      requires SameOn(d0, disk, rest + Tree(d0, nb, l))
      modifies this
      ensures CacheValid() && FreeOk(disk, nfree, frees, stack, rest)
      ensures Gains(old(stack), stack, Tree(d0, nb, l))
      ensures SameOn(d0, disk, rest)
      decreases l + 1, 0
    {
      SameOnPart(d0, disk, Tree(d0, nb, l), rest + Tree(d0, nb, l));
      SameOnPart(d0, disk, rest, rest + Tree(d0, nb, l));
      TreeFrame(d0, disk, nb, l);
      if nb == 0 {
        assert rest + Tree(d0, nb, l) == rest;
        GainsNothing(stack);
        return;
      }
      if f1 {
        TLoop(nb, f2, false, l - 1, rest);
      } else {
        BFree(nb, rest);
      }
      SameOnTwice(d0, old(disk), disk, rest);
    }

    /** Frees the trees at all entries of an indirect block, the last one first. */
    method FreeEntries(e: Block, f1: bool, f2: bool, ghost l: nat, ghost d0: Disk, ghost kept: multiset<int>)
      requires CacheValid() && l + 1 == Level(f1, f2)
      requires FreeOk(disk, nfree, frees, stack, kept + Below(d0, e, l, |e|))
      requires SameOn(d0, disk, kept + Below(d0, e, l, |e|))
      modifies this
      ensures CacheValid() && FreeOk(disk, nfree, frees, stack, kept)
      ensures Gains(old(stack), stack, Below(d0, e, l, |e|))
      ensures SameOn(d0, disk, kept)
      decreases l + 1, 1
    {
      ghost var todo, done := Below(d0, e, l, |e|), multiset{};
      GainsNothing(stack);
      var i := |e| - 1;
      while i >= 0
        invariant -1 <= i < NINDIR && CacheValid()
        invariant todo == Below(d0, e, l, i + 1) && done + todo == Below(d0, e, l, |e|)
        invariant FreeOk(disk, nfree, frees, stack, kept + todo)
        invariant SameOn(d0, disk, kept + todo)
        invariant Gains(old(stack), stack, done)
      {
        BelowStep(d0, e, l, i + 1);
        AddLast(kept, Below(d0, e, l, i), Tree(d0, e[i], l));
        AddLast(done, Below(d0, e, l, i), Tree(d0, e[i], l));
        todo := Below(d0, e, l, i);
        ghost var s1 := stack;
        FreeEntry(e[i], f1, f2, l, d0, kept + todo);
        GainsTwice(old(stack), s1, stack, done, Tree(d0, e[i], l));
        done := done + Tree(d0, e[i], l);
        i := i - 1;
      }
      assert kept + todo == kept && done + todo == done;
    }

    /** Reads indirect block `bn` and frees what is below it. */
    method FreeBelow(bn: int, f1: bool, f2: bool, ghost l: nat, ghost kept: multiset<int>)
      requires CacheValid() && bn != 0 && bn in disk && l + 1 == Level(f1, f2)
      requires FreeOk(disk, nfree, frees, stack, kept + Below(disk, disk[bn], l, |disk[bn]|))
      requires SameOn(disk, disk, kept + Below(disk, disk[bn], l, |disk[bn]|))
      modifies this
      ensures CacheValid() && FreeOk(disk, nfree, frees, stack, kept)
      ensures Gains(old(stack), stack, Below(old(disk), old(disk)[bn], l, |old(disk)[bn]|))
      ensures SameOn(old(disk), disk, kept)
      decreases l + 1, 2
    {
      var indir := ReadBlock(bn);
      FreeEntries(indir, f1, f2, l, disk, kept);
    }

    /** Frees every block of the tree at `bn`, leaves first. */
    method TLoop(bn: int, f1: bool, f2: bool, ghost l: nat, ghost others: multiset<int>)
      requires CacheValid() && bn != 0 && l + 1 == Level(f1, f2)
      requires FreeOk(disk, nfree, frees, stack, others + Tree(disk, bn, l + 1))
      modifies this
      ensures CacheValid() && FreeOk(disk, nfree, frees, stack, others)
      ensures Gains(old(stack), stack, Tree(old(disk), bn, l + 1))
      ensures SameOn(old(disk), disk, others)
      decreases l + 1, 3
    {
      ghost var d0, kept := disk, others + multiset{bn};
      StartTree(disk, nfree, frees, stack, bn, l, others);
      FreeBelow(bn, f1, f2, l, kept);
      SameOnPart(d0, disk, others, kept);
      ghost var d1, s1 := disk, stack;
      BFree(bn, others);
      GainsTwice(old(stack), s1, stack, Below(d0, d0[bn], l, |d0[bn]|), multiset{bn});
      SameOnTwice(d0, d1, disk, others);
    }
  
    /** Frees what hangs off address `i` of an inode. */
    method FreeSlot(i: nat, bn: int, ghost d0: Disk, ghost rest: multiset<int>)
      requires CacheValid() && i < NADDR
      requires FreeOk(disk, nfree, frees, stack, rest + Tree(d0, bn, SlotLevel(i)))
      requires SameOn(d0, disk, rest + Tree(d0, bn, SlotLevel(i)))
      modifies this
      ensures CacheValid() && FreeOk(disk, nfree, frees, stack, rest)
      ensures Gains(old(stack), stack, Tree(d0, bn, SlotLevel(i)))
      ensures SameOn(d0, disk, rest)
    {
      SameOnPart(d0, disk, Tree(d0, bn, SlotLevel(i)), rest + Tree(d0, bn, SlotLevel(i)));
      SameOnPart(d0, disk, rest, rest + Tree(d0, bn, SlotLevel(i)));
      TreeFrame(d0, disk, bn, SlotLevel(i));
      if bn == 0 {
        assert rest + Tree(d0, bn, SlotLevel(i)) == rest;
        GainsNothing(stack);
        return;
      }
      if i == NADDR - 3 {
        TLoop(bn, false, false, 0, rest);
      } else if i == NADDR - 2 {
        TLoop(bn, true, false, 1, rest);
      } else if i == NADDR - 1 {
        TLoop(bn, true, true, 2, rest);
      } else {
        BFree(bn, rest);
      }
      SameOnTwice(d0, old(disk), disk, rest);
    }

    /** Frees all blocks of an inode that can have any, each of them once. */
    method ITrunc(mode: nat, a: Addresses, ghost others: multiset<int>)
      requires CacheValid() && FreeOk(disk, nfree, frees, stack, others + FileBlocks(disk, a))
      modifies this
      ensures CacheValid()
      ensures Freeable(mode) ==>
                && FreeOk(disk, nfree, frees, stack, others) && SameOn(old(disk), disk, others)
                && Gains(old(stack), stack, FileBlocks(old(disk), a))
      ensures !Freeable(mode) ==>
                disk == old(disk) && nfree == old(nfree) && frees == old(frees) && stack == old(stack)
    {
      if mode == 0 {
        return;
      }
      var fmt := mode / IFMT_SHIFT % 16;
      if fmt != IFDIR && fmt != IFREG {
        return;
      }
      ghost var d0 := disk;
      ghost var todo, done := FileUpto(d0, a, |a|), multiset{};
      GainsNothing(stack);
      SameOnItself(disk, others + todo);
      var i := NADDR - 1;
      while i >= 0
        invariant -1 <= i < NADDR && CacheValid()
        invariant todo == FileUpto(d0, a, i + 1) && done + todo == FileUpto(d0, a, |a|)
        invariant FreeOk(disk, nfree, frees, stack, others + todo)
        invariant SameOn(d0, disk, others + todo)
        invariant Gains(old(stack), stack, done)
      {
        FileStep(d0, a, i + 1);
        AddLast(others, FileUpto(d0, a, i), Tree(d0, a[i], SlotLevel(i)));
        AddLast(done, FileUpto(d0, a, i), Tree(d0, a[i], SlotLevel(i)));
        todo := FileUpto(d0, a, i);
        ghost var s1 := stack;
        FreeSlot(i, a[i], d0, others + todo);
        GainsTwice(old(stack), s1, stack, done, Tree(d0, a[i], SlotLevel(i)));
        done := done + Tree(d0, a[i], SlotLevel(i));
        i := i - 1;
      }
      assert others + todo == others && done + todo == done;
    }
  
    /** The file being restored and the free list are sound together; `others`
        are blocks that belong to neither. */
    ghost predicate Sound(others: multiset<int>)
      reads this
    {
      CacheValid() && FreeOk(disk, nfree, frees, stack, FileBlocks(disk, taddr) + others)
    }

    ghost function Blocks(): multiset<int>
      reads this`disk, this`taddr
    {
      FileBlocks(disk, taddr)
    }

    lemma SoundFacts(others: multiset<int>)
      requires Sound(others)
      ensures Distinct(Blocks()) && OnDisk(disk, Blocks())
      ensures forall b | b in stack :: b !in Blocks()
    {
      FreeFacts(disk, nfree, frees, stack, Blocks() + others);
      DistinctPart(Blocks(), Blocks() + others);
      OnDiskPart(disk, Blocks(), Blocks() + others);
    }

    /** Fills in address `s` with a new block. */
    method NewRoot(s: nat, ghost others: multiset<int>) returns (ok: bool, n: int)
      requires Sound(others) && s < NADDR && taddr[s] == 0
      modifies this
      ensures ok <==> old(stack) != []
      ensures if ok then |stack| == |old(stack)| - 1 else stack == []
      ensures ok ==> Sound(others) && n != 0 && taddr == old(taddr)[s := n] && SameAt(old(disk), disk, 0)
      ensures ok ==> KeptBut(old(disk), old(taddr), disk, taddr, Reached(s)) && SameOn(old(disk), disk, others)
      ensures ok ==> Conserved(old(stack), old(Blocks()), stack, Blocks())
      ensures ok ==> n !in old(Blocks()) && n in Blocks() && n in disk && disk[n] == Zeroes()
      ensures ok && s < DIRECT ==> old(FileWalk(disk, taddr, s)) == 0 && FileWalk(disk, taddr, s) == n
    {
      ghost var d0, f := disk, Blocks();
      SoundFacts(others);
      ok, n := BAlloc(f + others);
      if !ok {
        return;
      }
      RootKept(d0, taddr, s, n);
      SameOnOthers(d0, disk, n, others);
      FileTakes(f, others, n);
      ConservedPop(old(stack), f);
      taddr := taddr[s := n];
    }

    /** Allocates a block and enters it in block `nb`, whose contents are `indir`. */
    method Link(nb: int, i: nat, indir: Block, ghost m: multiset<int>) returns (ok: bool, n: int)
      requires CacheValid() && FreeOk(disk, nfree, frees, stack, m)
      requires nb in disk && nb in m && nb != 0 && i < NINDIR && disk[nb] == indir && indir[i] == 0
      modifies this`disk, this`cache, this`curcache, this`nfree, this`frees, this`stack
      ensures ok <==> old(stack) != []
      ensures !ok ==> stack == []
      ensures ok ==> CacheValid() && FreeOk(disk, nfree, frees, stack, m + multiset{n})
      ensures ok ==> Hung(old(disk), disk, nb, i, n) && n !in m
      ensures ok ==> n == old(stack)[|old(stack)| - 1] && stack == old(stack)[..|old(stack)| - 1]
    {
      FreeFacts(disk, nfree, frees, stack, m);
      ok, n := BAlloc(m);
      if !ok {
        return;
      }
      FreeFrame(disk, nfree, frees, stack, m + multiset{n}, nb, indir[i := n]);
      DWrite(nb, indir[i := n]);
    }

    /** Hangs a new block below entry `i` of block `nb`, `t` levels up on the path
        of file block `bn`. */
    method Hang(nb: int, bn: nat, ghost t: nat, i: nat, indir: Block, ghost others: multiset<int>) returns (ok: bool, n: int)
      requires Sound(others) && bn < MAXBLOCKS && 0 < t <= SlotLevel(Slot(bn)) && nb != 0 && nb in disk
      requires nb == Node(disk, taddr[Slot(bn)], SlotLevel(Slot(bn)), Offset(bn), t)
      requires i == Index(OffAt(Offset(bn), SlotLevel(Slot(bn)), t), t) && disk[nb] == indir && indir[i] == 0
      modifies this`disk, this`cache, this`curcache, this`nfree, this`frees, this`stack
      ensures ok <==> old(stack) != []
      ensures if ok then |stack| == |old(stack)| - 1 else stack == []
      ensures ok ==> Sound(others) && SameOn(old(disk), disk, others) && Hung(old(disk), disk, nb, i, n)
      ensures ok ==> SameAt(old(disk), disk, 0)
      ensures ok ==> KeptBut(old(disk), taddr, disk, taddr, if t == 1 then bn else -1)
      ensures ok ==> Conserved(old(stack), old(Blocks()), stack, Blocks())
      ensures ok ==> n !in old(Blocks()) && n in Blocks()
    {
      ghost var d0, f := disk, Blocks();
      SoundFacts(others);
      NodeInFile(disk, taddr, bn, t);
      FreeFacts(disk, nfree, frees, stack, f + others);
      ok, n := Link(nb, i, indir, f + others);
      if !ok {
        return;
      }
      NodeKept(d0, disk, taddr, bn, t, nb, n);
      SameOnOthersTwo(d0, disk, nb, n, f, others);
      FileTakes(f, others, n);
      ConservedPop(old(stack), f);
    }
  
    /** One level down the path of file block `bn`, making the block if need be. */
    method Descend(nb: int, bn: nat, ghost t: nat, i: nat, ghost others: multiset<int>) returns (ok: bool, nnb: int)
      requires Sound(others) && bn < MAXBLOCKS && 0 < t <= SlotLevel(Slot(bn)) && nb != 0
      requires nb == Node(disk, taddr[Slot(bn)], SlotLevel(Slot(bn)), Offset(bn), t)
      requires i == Index(OffAt(Offset(bn), SlotLevel(Slot(bn)), t), t)
      modifies this`disk, this`cache, this`curcache, this`nfree, this`frees, this`stack
      ensures !ok ==> stack == old(stack) == [] && old(MissingFrom(disk, taddr, bn, t - 1)) > 0
      ensures ok ==> |stack| + old(MissingFrom(disk, taddr, bn, t - 1)) == |old(stack)| + MissingFrom(disk, taddr, bn, t - 1)
      ensures ok ==> Sound(others) && SameOn(old(disk), disk, others)
      ensures ok ==> nnb != 0 && nnb == Node(disk, taddr[Slot(bn)], SlotLevel(Slot(bn)), Offset(bn), t - 1)
      ensures ok ==> SameAt(old(disk), disk, 0)
      ensures ok ==> KeptBut(old(disk), taddr, disk, taddr,
                             if t == 1 && old(FileWalk(disk, taddr, bn)) == 0 then bn else -1)
      ensures ok ==> Conserved(old(stack), old(Blocks()), stack, Blocks())
    {
      ghost var d0, root, l, off := disk, taddr[Slot(bn)], SlotLevel(Slot(bn)), Offset(bn);
      SoundFacts(others);
      NodeInFile(disk, taddr, bn, t);
      assert Present(disk, Blocks(), nb);
      NodeStep(disk, root, l, off, t);
      WalkIsNode(disk, root, l, off);
      var indir := ReadBlock(nb);
      nnb := indir[i];
      ok := true;
      if nnb != 0 {
        KeptItself(disk, taddr, -1);
        SameOnItself(disk, others);
        ConservedItself(stack, Blocks());
      } else {
        AllMissing(disk, root, l, off, t - 1);
        ok, nnb := Hang(nb, bn, t, i, indir, others);
        if ok {
          HungNext(d0, disk, taddr, bn, t, nb, i, nnb);
        }
      }
    }
  
    /** How many levels of indirection file block `bn` takes, and where it lies there. */
    static method Locate(bn: nat) returns (j: nat, sh: nat, off: nat)
      requires DIRECT <= bn
      ensures j == 0 <==> MAXBLOCKS <= bn
      ensures bn < MAXBLOCKS ==>
                && 1 <= j <= 3 && Slot(bn) == NADDR - j && SlotLevel(Slot(bn)) == 4 - j
                && off == Offset(bn) && sh == NSHIFT * (4 - j)
    {
      sh := 0;
      var nb := 1;
      off := bn - (NADDR - 3);
      j := 3;
      while j > 0
        invariant 0 <= j <= 3 && sh == NSHIFT * (3 - j) && nb == Cap(3 - j)
        invariant j == 3 ==> off == bn - DIRECT
        invariant j == 2 ==> off == bn - DIRECT - Cap(1)
        invariant j == 1 ==> off == bn - DIRECT - Cap(1) - Cap(2)
        invariant j == 0 ==> off == bn - DIRECT - Cap(1) - Cap(2) - Cap(3)
      {
        sh := sh + NSHIFT;
        nb := nb * NINDIR;
        if off < nb {
          break;
        }
        off := off - nb;
        j := j - 1;
      }
    }

    /** A direct block: always a new one, whatever the address array has there. */
    method NewDirect(bn: nat, ghost others: multiset<int>) returns (ok: bool, n: int)
      requires Sound(others) && bn < DIRECT
      modifies this
      ensures ok <==> old(stack) != []
      ensures if ok then |stack| == |old(stack)| - 1 else stack == []
      ensures ok ==> Sound(others + Lost(old(taddr), bn)) && n != 0 && taddr == old(taddr)[bn := n]
      ensures ok ==> SameAt(old(disk), disk, 0) && SameOn(old(disk), disk, others + Lost(old(taddr), bn))
      ensures ok ==> KeptBut(old(disk), old(taddr), disk, taddr, bn) && n == FileWalk(disk, taddr, bn)
      ensures ok ==> Conserved(old(stack), old(Blocks()), stack, Blocks() + Lost(old(taddr), bn))
    {
      ghost var d0, a0, left, f := disk, taddr, others + Lost(taddr, bn), FileBlocks(disk, taddr[bn := 0]);
      SoundFacts(others);
      Dropped(disk, taddr, bn, others);
      ok, n := BAlloc(f + left);
      if !ok {
        return;
      }
      ghost var a1 := a0[bn := 0];
      RootKept(d0, a1, bn, n);
      KeptTwice(d0, a0, d0, a1, disk, a1[bn := n], bn, bn, bn);
      SameOnOthers(d0, disk, n, left);
      FileTakes(f, left, n);
      ConservedPop(old(stack), f + Lost(a0, bn));
      FileTakesMore(f, Lost(a0, bn), n);
      taddr := taddr[bn := n];
      assert taddr == a1[bn := n];
    }

    /** A block mapped before is lost to the file, and to the free list. */
    lemma Dropped(d: Disk, a: Addresses, bn: nat, others: multiset<int>)
      requires bn < DIRECT && Distinct(FileBlocks(d, a)) && OnDisk(d, FileBlocks(d, a))
      ensures FileBlocks(d, a) + others == FileBlocks(d, a[bn := 0]) + (others + Lost(a, bn))
      ensures FileBlocks(d, a) == FileBlocks(d, a[bn := 0]) + Lost(a, bn)
      ensures KeptBut(d, a, d, a[bn := 0], bn) && Distinct(FileBlocks(d, a[bn := 0]))
    {
      if a[bn] != 0 {
        DropDirect(d, a, bn);
      } else {
        assert a[bn := 0] == a;
        KeptItself(d, a, bn);
      }
      DistinctPart(FileBlocks(d, a[bn := 0]), FileBlocks(d, a));
    }

    /** The disk block that is to hold file block `bn`, made together with the
        indirect blocks on the way; 0 if no block of a file has that number. */
    method BMap(bn: nat, ghost others: multiset<int>) returns (ok: bool, nb: int)
      requires Sound(others)
      modifies this
      ensures bn >= MAXBLOCKS ==> ok && nb == 0 && disk == old(disk) && taddr == old(taddr) && stack == old(stack)
      ensures ok ==> Sound(others + Lost(old(taddr), bn)) && SameAt(old(disk), disk, 0)
      ensures bn < MAXBLOCKS ==> (ok <==> old(Lacks(disk, taddr, bn)) <= |old(stack)|)
      ensures if ok && bn < MAXBLOCKS then |stack| == |old(stack)| - old(Lacks(disk, taddr, bn)) else ok || stack == []
      ensures ok && bn < MAXBLOCKS ==> nb != 0 && nb == FileWalk(disk, taddr, bn)
      ensures ok && bn < MAXBLOCKS ==>
                && KeptBut(old(disk), old(taddr), disk, taddr,
                           if bn < DIRECT || old(FileWalk(disk, taddr, bn)) == 0 then bn else -1)
                && SameOn(old(disk), disk, others + Lost(old(taddr), bn))
                && Conserved(old(stack), old(Blocks()), stack, Blocks() + Lost(old(taddr), bn))
    {
      if bn < NADDR - 3 {
        ok, nb := NewDirect(bn, others);
        return;
      }
      NothingLost(others, Lost(taddr, bn));
      ok, nb := MapIndirect(bn, others);
      NothingLost(Blocks(), multiset{});
    }

    /** `bmap` behind the direct blocks. */
    method MapIndirect(bn: nat, ghost others: multiset<int>) returns (ok: bool, nb: int)
      requires Sound(others) && DIRECT <= bn
      modifies this
      ensures bn >= MAXBLOCKS ==> ok && nb == 0 && disk == old(disk) && taddr == old(taddr) && stack == old(stack)
      ensures ok ==> Sound(others) && SameAt(old(disk), disk, 0)
      ensures bn < MAXBLOCKS ==> (ok <==> old(Lacks(disk, taddr, bn)) <= |old(stack)|)
      ensures if ok && bn < MAXBLOCKS then |stack| == |old(stack)| - old(Lacks(disk, taddr, bn)) else ok || stack == []
      ensures ok && bn < MAXBLOCKS ==> nb != 0 && nb == FileWalk(disk, taddr, bn)
      ensures ok && bn < MAXBLOCKS ==>
                && KeptBut(old(disk), old(taddr), disk, taddr, if old(FileWalk(disk, taddr, bn)) == 0 then bn else -1)
                && SameOn(old(disk), disk, others)
                && Conserved(old(stack), old(Blocks()), stack, Blocks())
    {
      var j, sh, off := Locate(bn);
      if j == 0 {
        return true, 0;
      }
      ghost var d0, a0, s0 := disk, taddr, stack;
      ok, nb := IndirectRoot(bn, j, off, others);
      if ok {
        ok, nb := FollowPath(nb, bn, j, sh, off, others, d0, a0, s0);
      }
    }

    /** The root of the tree that file block `bn` is in, made if need be. */
    method IndirectRoot(bn: nat, j: nat, off: nat, ghost others: multiset<int>) returns (ok: bool, nb: int)
      requires Sound(others) && DIRECT <= bn < MAXBLOCKS && 1 <= j <= 3 && off == Offset(bn)
      requires Slot(bn) == NADDR - j && SlotLevel(Slot(bn)) == 4 - j
      modifies this
      ensures if ok then Along(bn, 4 - j, old(disk), old(taddr), old(stack), others) && nb != 0 && nb == taddr[Slot(bn)]
                         && TakenFor(bn, 4 - j, old(disk), old(taddr), old(stack))
              else stack == [] && old(Lacks(disk, taddr, bn)) > |old(stack)|
    {
      nb := taddr[NADDR - j];
      ok := true;
      KeptItself(disk, taddr, -1);
      SameOnItself(disk, others);
      ConservedItself(stack, Blocks());
      if nb == 0 {
        AllMissing(disk, 0, 4 - j, off, 4 - j);
        ok, nb := NewRoot(NADDR - j, others);
        if ok {
          MissingBelow(disk, nb, 4 - j, off, 4 - j);
        }
      }
    }

    /** What a run of `bmap` for file block `bn` that began with `d0`, `a0` and `s0`
        has done by the time its path is followed down to level `t`. */
    ghost predicate Along(bn: nat, t: nat, d0: Disk, a0: Addresses, s0: seq<int>, others: multiset<int>)
      requires bn < MAXBLOCKS
      reads this
    {
      && Sound(others) && SameOn(d0, disk, others) && SameAt(d0, disk, 0)
      && KeptBut(d0, a0, disk, taddr, if t == 0 && FileWalk(d0, a0, bn) == 0 then bn else -1)
      && Conserved(s0, FileBlocks(d0, a0), stack, Blocks())
    }

    /** By then a block was taken for each one made so far on the path. */
    ghost predicate TakenFor(bn: nat, t: nat, d0: Disk, a0: Addresses, s0: seq<int>)
      requires bn < MAXBLOCKS && t <= SlotLevel(Slot(bn))
      reads this`disk, this`taddr, this`stack
    {
      |stack| + Lacks(d0, a0, bn) == |s0| + MissingFrom(disk, taddr, bn, t)
    }

    /** One turn of the loop that fetches through the indirect blocks. */
    method NextLevel(nb: int, bn: nat, j: nat, sh: nat, off: nat, ghost others: multiset<int>,
                     ghost d0: Disk, ghost a0: Addresses, ghost s0: seq<int>) returns (ok: bool, nnb: int)
      requires DIRECT <= bn < MAXBLOCKS && 4 - SlotLevel(Slot(bn)) <= j <= 3 && off == Offset(bn)
      requires Along(bn, 4 - j, d0, a0, s0, others) && sh == NSHIFT * (3 - j)
      requires nb != 0 && nb == Node(disk, taddr[Slot(bn)], SlotLevel(Slot(bn)), off, 4 - j)
      requires TakenFor(bn, 4 - j, d0, a0, s0)
      modifies this`disk, this`cache, this`curcache, this`nfree, this`frees, this`stack
      ensures if ok then TakenFor(bn, 3 - j, d0, a0, s0) else stack == [] && Lacks(d0, a0, bn) > |s0|
      ensures ok ==> Along(bn, 3 - j, d0, a0, s0, others)
      ensures ok ==> nnb != 0 && nnb == Node(disk, taddr[Slot(bn)], SlotLevel(Slot(bn)), off, 3 - j)
    {
      var i := off / Pow2(sh) % NINDIR;
      CapIsPow2(3 - j);
      MaskedIndex(off, SlotLevel(Slot(bn)), 4 - j);
      ghost var d1, s1, f1 := disk, stack, Blocks();
      assert BlockKept(d0, a0, d1, taddr, bn);
      ok, nnb := Descend(nb, bn, 4 - j, i, others);
      if ok {
        ghost var w := if j == 3 && FileWalk(d0, a0, bn) == 0 then bn else -1;
        KeptTwice(d0, a0, d1, taddr, disk, taddr, -1, w, w);
        SameOnTwice(d0, d1, disk, others);
        ConservedTwice(s0, FileBlocks(d0, a0), s1, f1, stack, Blocks());
      }
    }

    /** Fetches through the indirect blocks, from the tree's root down to the data. */
    method FollowPath(root: int, bn: nat, j0: nat, sh0: nat, off: nat, ghost others: multiset<int>,
                      ghost d0: Disk, ghost a0: Addresses, ghost s0: seq<int>) returns (ok: bool, nb: int)
      requires DIRECT <= bn < MAXBLOCKS && 1 <= j0 <= 3 && off == Offset(bn)
      requires SlotLevel(Slot(bn)) == 4 - j0 && sh0 == NSHIFT * (4 - j0)
      requires Along(bn, 4 - j0, d0, a0, s0, others) && root != 0 && root == taddr[Slot(bn)]
      requires TakenFor(bn, 4 - j0, d0, a0, s0)
      modifies this`disk, this`cache, this`curcache, this`nfree, this`frees, this`stack
      ensures if ok then |stack| + Lacks(d0, a0, bn) == |s0| else stack == [] && Lacks(d0, a0, bn) > |s0|
      ensures ok ==> Along(bn, 0, d0, a0, s0, others) && nb != 0 && nb == FileWalk(disk, taddr, bn)
    {
      nb := root;
      ok := true;
      var j, sh := j0, sh0;
      while j <= 3
        invariant j0 <= j <= 4 && sh == NSHIFT * (4 - j) && Along(bn, 4 - j, d0, a0, s0, others)
        invariant nb != 0 && nb == Node(disk, taddr[Slot(bn)], SlotLevel(Slot(bn)), off, 4 - j)
        invariant TakenFor(bn, 4 - j, d0, a0, s0)
      {
        sh := sh - NSHIFT;
        ok, nb := NextLevel(nb, bn, j, sh, off, others, d0, a0, s0);
        if !ok {
          return;
        }
        j := j + 1;
      }
      WalkIsNode(disk, taddr[Slot(bn)], SlotLevel(Slot(bn)), off);
    }

    /** Stores the data of file block `bn`, which is held by block `d`. */
    method Store(bn: nat, d: int, b: Block, ghost others: multiset<int>)
      requires Sound(others) && bn < MAXBLOCKS && d == FileWalk(disk, taddr, bn) && d != 0
      modifies this`disk, this`cache
      ensures Sound(others) && SameOn(old(disk), disk, others) && Blocks() == old(Blocks())
      ensures KeptBut(old(disk), taddr, disk, taddr, bn)
      ensures d == FileWalk(disk, taddr, bn) && d in disk && disk[d] == b && SameAt(old(disk), disk, 0)
    {
      SoundFacts(others);
      FileWalkInFile(disk, taddr, bn);
      FreeFacts(disk, nfree, frees, stack, Blocks() + others);
      assert AtMostOnce(Blocks() + others, d);
      WriteKept(disk, taddr, bn, b);
      FreeFrame(disk, nfree, frees, stack, Blocks() + others, d, b);
      ghost var f := Blocks();
      DWrite(d, b);
      SameOnOthersTwo(old(disk), disk, d, d, f, others);
    }

    /** Writes block 0, which is neither the file's nor free. */
    method StoreZero(b: Block, ghost others: multiset<int>)
      requires Sound(others) && 0 in disk
      modifies this`disk, this`cache
      ensures Sound(others) && SameOn(old(disk), disk, others) && Blocks() == old(Blocks())
      ensures KeptBut(old(disk), taddr, disk, taddr, -1) && disk == old(disk)[0 := b]
    {
      SoundFacts(others);
      FreeFacts(disk, nfree, frees, stack, Blocks() + others);
      NotZero(disk, disk[0 := b], stack, Blocks(), others);
      FileFrame(disk, disk[0 := b], taddr);
      FreeFrame(disk, nfree, frees, stack, Blocks() + others, 0, b);
      DWrite(0, b);
    }

    /** Restores one block of data as file block `bn`; behind the last block that a file can have,
        `bmap` gives 0, and the data goes to block 0. */
    method RstrFile(bn: nat, b: Block, ghost others: multiset<int>) returns (ok: bool)
      requires Sound(others) && 0 in disk
      modifies this
      ensures bn >= MAXBLOCKS ==>
                && ok && disk == old(disk)[0 := b] && taddr == old(taddr) && stack == old(stack)
                && KeptBut(old(disk), taddr, disk, taddr, -1)
      ensures bn < MAXBLOCKS ==> (ok <==> old(Lacks(disk, taddr, bn)) <= |old(stack)|)
      ensures if ok && bn < MAXBLOCKS then |stack| == |old(stack)| - old(Lacks(disk, taddr, bn)) else ok || stack == []
      ensures ok ==> Sound(others + Lost(old(taddr), bn)) && SameOn(old(disk), disk, others + Lost(old(taddr), bn))
      ensures ok ==> Conserved(old(stack), old(Blocks()), stack, Blocks() + Lost(old(taddr), bn))
      ensures ok && bn < MAXBLOCKS ==> KeptBut(old(disk), old(taddr), disk, taddr, bn) && SameAt(old(disk), disk, 0)
      ensures ok && bn < MAXBLOCKS ==> var d := FileWalk(disk, taddr, bn); d != 0 && d in disk && disk[d] == b
    {
      var d;
      ghost var left := others + Lost(taddr, bn);
      ok, d := BMap(bn, others);
      if !ok {
        return;
      }
      ghost var d1 := disk;
      if bn >= MAXBLOCKS {
        NothingLost(others, Lost(taddr, bn));
        NothingLost(Blocks(), multiset{});
        ConservedItself(stack, Blocks());
        StoreZero(b, others);
        NothingLost(Blocks(), multiset{});
        return;
      }
      Store(bn, d, b, left);
      KeptTwice(old(disk), old(taddr), d1, taddr, disk, taddr, if bn < DIRECT || FileWalk(old(disk), old(taddr), bn) == 0 then bn else -1, bn, bn);
      SameOnTwice(old(disk), d1, disk, left);
    }

    /** Restores the next piece of a file, or leaves its hole. */
    method RestorePiece(pieces: seq<Piece>, curbno: nat, ghost others: multiset<int>, ghost was: Block) returns (ok: bool)
      requires Sound(others) && curbno < |pieces| && Restored(disk, taddr, pieces, curbno)
      requires ZeroOk(disk, was, pieces, curbno)
      modifies this
      ensures !ok ==> stack == [] && |old(stack)| < 4
      ensures ok ==> Sound(others) && SameOn(old(disk), disk, others) && |old(stack)| <= |stack| + 4
      ensures ok ==> Restored(disk, taddr, pieces, curbno + 1)
      ensures ok ==> Conserved(old(stack), old(Blocks()), stack, Blocks())
      ensures ok ==> ZeroOk(disk, was, pieces, curbno + 1)
    {
      ghost var d1, a1 := disk, taddr;
      assert PieceOk(disk, taddr, pieces, curbno, curbno);
      ok := true;
      match pieces[curbno] {
        case Hole =>
          KeptItself(disk, taddr, if curbno < MAXBLOCKS then curbno else -1);
          SameOnItself(disk, others);
          ConservedItself(stack, Blocks());
        case Data(b) =>
          ok := RestoreBlock(curbno, b, others);
          if !ok {
            return;
          }
      }
      if curbno < MAXBLOCKS {
        RestoredMore(d1, a1, disk, taddr, pieces, curbno);
      } else {
        RestoredBeyond(d1, a1, disk, pieces, curbno);
      }
    }

    /** `rstrfile` on a block that is still a hole, or beyond the blocks that a file can have. */
    method RestoreBlock(bn: nat, b: Block, ghost others: multiset<int>) returns (ok: bool)
      requires Sound(others) && 0 in disk && (bn < MAXBLOCKS ==> FileWalk(disk, taddr, bn) == 0)
      modifies this
      ensures !ok ==> stack == [] && |old(stack)| < 4
      ensures ok ==> Sound(others) && SameOn(old(disk), disk, others) && |old(stack)| <= |stack| + 4
      ensures ok ==> Conserved(old(stack), old(Blocks()), stack, Blocks())
      ensures ok && bn < MAXBLOCKS ==> KeptBut(old(disk), old(taddr), disk, taddr, bn) && SameAt(old(disk), disk, 0)
      ensures ok && bn < MAXBLOCKS ==> var d := FileWalk(disk, taddr, bn); d != 0 && d in disk && disk[d] == b
      ensures ok && bn >= MAXBLOCKS ==>
                disk == old(disk)[0 := b] && taddr == old(taddr) && KeptBut(old(disk), old(taddr), disk, taddr, -1)
    {
      if bn < MAXBLOCKS {
        LacksFew(disk, taddr, bn, SlotLevel(Slot(bn)));
        assert bn < DIRECT ==> FileWalk(disk, taddr, bn) == taddr[bn];
      }
      NothingLost(others, Lost(taddr, bn));
      ok := RstrFile(bn, b, others);
      NothingLost(Blocks(), multiset{});
    }

    /** Restores a file from the pieces on the dump, leaving its holes. */
    method GetFile(pieces: seq<Piece>, ghost others: multiset<int>) returns (ok: bool)
      requires Sound(others) && 0 in disk && Empty(taddr)
      modifies this
      ensures !ok ==> stack == [] && |old(stack)| < 4 * |pieces|
      ensures ok ==> ZeroOk(disk, old(disk)[0], pieces, |pieces|)
      ensures ok ==> Sound(others) && SameOn(old(disk), disk, others)
      ensures ok ==> Restored(disk, taddr, pieces, |pieces|)
      ensures ok ==> Conserved(old(stack), multiset{}, stack, Blocks())
    {
      ghost var was := disk[0];
      var curbno := 0;
      EmptyRestored(disk, taddr, pieces);
      SameOnItself(disk, others);
      ConservedItself(stack, Blocks());
      while curbno < |pieces|
        invariant 0 <= curbno <= |pieces| && Sound(others) && SameOn(old(disk), disk, others)
        invariant Restored(disk, taddr, pieces, curbno)
        invariant Conserved(old(stack), multiset{}, stack, Blocks())
        invariant |old(stack)| <= |stack| + 4 * curbno
        invariant ZeroOk(disk, was, pieces, curbno)
      {
        ghost var d1, s1, f1 := disk, stack, Blocks();
        ok := RestorePiece(pieces, curbno, others, was);
        if !ok {
          return;
        }
        SameOnTwice(old(disk), d1, disk, others);
        ConservedTwice(old(stack), multiset{}, s1, f1, stack, Blocks());
        curbno := curbno + 1;
      }
      ok := true;
    }

    /** Restoring a file and truncating it again gives back exactly the blocks the
        free list had, and touches no block of anything else. */
    method RestoreAndTruncate(pieces: seq<Piece>, mode: nat, ghost others: multiset<int>) returns (ok: bool)
      requires Sound(others) && 0 in disk && Empty(taddr) && Freeable(mode)
      modifies this
      ensures 4 * |pieces| <= |old(stack)| ==> ok
      ensures ok ==> multiset(stack) == multiset(old(stack))
      ensures ok ==> CacheValid() && FreeOk(disk, nfree, frees, stack, others) && SameOn(old(disk), disk, others)
    {
      ok := GetFile(pieces, others);
      if ok {
        ghost var d1, s1, f1 := disk, stack, Blocks();
        assert Blocks() + others == others + Blocks();
        ITrunc(mode, taddr, others);
        SameOnTwice(old(disk), d1, disk, others);
        forall b ensures multiset(stack)[b] == multiset(old(stack))[b] {
          assert Gained(s1, stack, f1, b) && CountKept(old(stack), multiset{}, s1, f1, b);
        }
        assert multiset(stack) == multiset(old(stack));
      }
    }
  }
}
