/** The address-ordered, coalescing heap allocator of new/malloc.c.

    Addresses count words of `sizeof (int)` bytes.  A block at address `h` keeps
    its size in words at `h` and, while it is free, the address of the next free
    block at `h + 1`; the caller of `malloc` owns the words from `h + 1` on. */
module Malloc {

  const INT_BYTES: nat := 4
  const MINSBRK: nat := 2048
  const NULL: int := 0
  const UNSIGNED: nat := 0x1_0000_0000

  /** The block size, in words, that `malloc` looks for; the sum is unsigned. */
  function Words(size: nat): nat
  {
    var n := (size + INT_BYTES - 1) % UNSIGNED / INT_BYTES + 1;
    if n == 1 then 2 else n
  }

  /** The words asked of `sbrk` when nothing on the free list fits. */
  function Increment(n: nat): nat
  {
    if n < MINSBRK / INT_BYTES then MINSBRK / INT_BYTES else n
  }

  /** Word `a` of memory; a word nobody has stored to reads as zero. */
  function At(mem: map<int, int>, a: int): int
  {
    if a in mem then mem[a] else 0
  }

  /** A block of the size looked for holds the bytes asked for, unless rounding
      the request up to whole words wraps around: the requests of the last three
      byte counts get a block of one or two words.  */
  lemma PayloadSuffices(size: nat, words: nat)
    requires size < UNSIGNED && Words(size) <= words <= Words(size) + 1
    ensures INT_BYTES * (words - 1) >= size <==> size <= UNSIGNED - INT_BYTES
  {
    if size > UNSIGNED - INT_BYTES {
      assert size + INT_BYTES - 1 - UNSIGNED < INT_BYTES;
      assert (size + INT_BYTES - 1) % UNSIGNED == size + INT_BYTES - 1 - UNSIGNED;
    }
  }

  // ---------------------------------------------------------------- tiling

  predicate InBlock(h: int, size: int, w: int)
  {
    h <= w < h + size
  }

  ghost predicate Sized(blocks: map<int, int>, h: int)
  {
    h in blocks ==> 2 <= blocks[h]
  }

  /** Block `h`, if `w` is one of its words, is the owner of `w`. */
  ghost predicate Covers(blocks: map<int, int>, owner: map<int, int>, h: int, w: int)
  {
    h in blocks && InBlock(h, blocks[h], w) ==> w in owner && owner[w] == h
  }

  /** The owner of `w`, if it has one, is a block with `w` among its words. */
  ghost predicate Covered(blocks: map<int, int>, owner: map<int, int>, w: int)
  {
    w in owner ==> owner[w] in blocks && InBlock(owner[w], blocks[owner[w]], w)
  }

  /** The blocks (header to size) tile the owned words: each word of a block is
      owned by that block alone, and every owned word lies in its owner. */
  ghost predicate Tiled(blocks: map<int, int>, owner: map<int, int>)
  {
    && (forall h :: Sized(blocks, h))
    && (forall h, w :: Covers(blocks, owner, h, w))
    && (forall w :: Covered(blocks, owner, w))
  }

  lemma OwnsItself(blocks: map<int, int>, owner: map<int, int>, h: int)
    requires Tiled(blocks, owner) && h in blocks
    ensures 2 <= blocks[h]
    ensures h in owner && owner[h] == h && h + 1 in owner && owner[h + 1] == h
    ensures var last := h + blocks[h] - 1; last in owner && owner[last] == h
  {
    assert Sized(blocks, h) && Covers(blocks, owner, h, h) && Covers(blocks, owner, h, h + 1);
    assert Covers(blocks, owner, h, h + blocks[h] - 1);
  }

  /** Two different blocks never share a word. */
  lemma BlocksDisjoint(blocks: map<int, int>, owner: map<int, int>, g: int, h: int)
    requires Tiled(blocks, owner) && g in blocks && h in blocks && g < h
    ensures g + blocks[g] <= h
  {
    OwnsItself(blocks, owner, h);
    assert Covers(blocks, owner, g, h);
  }

  /** The tiling after cutting block `p` behind its first `n` words. */
  ghost function CutOwner(owner: map<int, int>, p: int, n: int): map<int, int>
  {
    map w | w in owner :: if owner[w] == p && p + n <= w then p + n else owner[w]
  }

  lemma CutTiling(blocks: map<int, int>, owner: map<int, int>, p: int, n: int)
    requires Tiled(blocks, owner) && p in blocks && 2 <= n <= blocks[p] - 2
    ensures p + n !in blocks
    ensures Tiled(blocks[p := n][p + n := blocks[p] - n], CutOwner(owner, p, n))
  {
    if p + n in blocks {
      BlocksDisjoint(blocks, owner, p, p + n);
    }
    var blocks', owner' := blocks[p := n][p + n := blocks[p] - n], CutOwner(owner, p, n);
    forall h ensures Sized(blocks', h) {
      assert Sized(blocks, h);
    }
    forall h, w ensures Covers(blocks', owner', h, w) {
      assert Covers(blocks, owner, h, w) && Covers(blocks, owner, p, w);
    }
    forall w ensures Covered(blocks', owner', w) {
      assert Covered(blocks, owner, w);
    }
  }

  /** The tiling after block `p` absorbs the block `r` that follows it. */
  ghost function MergeOwner(owner: map<int, int>, p: int, r: int): map<int, int>
  {
    map w | w in owner :: if owner[w] == r then p else owner[w]
  }

  ghost function MergeBlocks(blocks: map<int, int>, p: int, r: int): map<int, int>
    requires p in blocks && r in blocks
  {
    (blocks - {r})[p := blocks[p] + blocks[r]]
  }

  lemma MergeTiling(blocks: map<int, int>, owner: map<int, int>, p: int, r: int)
    requires Tiled(blocks, owner) && p in blocks && r in blocks && p + blocks[p] == r
    ensures Tiled(MergeBlocks(blocks, p, r), MergeOwner(owner, p, r))
  {
    var blocks', owner' := MergeBlocks(blocks, p, r), MergeOwner(owner, p, r);
    OwnsItself(blocks, owner, p);
    OwnsItself(blocks, owner, r);
    forall h ensures Sized(blocks', h) {
      assert Sized(blocks, h);
    }
    forall h, w ensures Covers(blocks', owner', h, w) {
      assert Covers(blocks, owner, h, w) && Covers(blocks, owner, r, w);
    }
    forall w ensures Covered(blocks', owner', w) {
      assert Covered(blocks, owner, w);
    }
  }

  function Interval(p: int, n: int): set<int>
  {
    set w | p <= w < p + n && InBlock(p, n, w)
  }

  /** The words of `s` given to block `h`. */
  ghost function Give(owner: map<int, int>, s: set<int>, h: int): (owner': map<int, int>)
    ensures owner'.Keys == owner.Keys + s
  {
    map w | w in owner.Keys + s :: if w in s then h else owner[w]
  }

  /** Owned words lie below the break. */
  ghost predicate Below(owner: map<int, int>, brk: int)
  {
    forall w | w in owner :: w < brk
  }

  lemma NewTiling(blocks: map<int, int>, owner: map<int, int>, p: int, n: int)
    requires Tiled(blocks, owner) && 2 <= n && Below(owner, p)
    ensures p !in blocks
    ensures Tiled(blocks[p := n], Give(owner, Interval(p, n), p))
  {
    if p in blocks {
      OwnsItself(blocks, owner, p);
    }
    var blocks', owner' := blocks[p := n], Give(owner, Interval(p, n), p);
    forall h ensures Sized(blocks', h) {
      assert Sized(blocks, h);
    }
    forall h, w ensures Covers(blocks', owner', h, w) {
      assert Covers(blocks, owner, h, w);
    }
    forall w ensures Covered(blocks', owner', w) {
      assert Covered(blocks, owner, w);
    }
  }

  lemma ExtendTiling(blocks: map<int, int>, owner: map<int, int>, q: int, p: int, n: int)
    requires Tiled(blocks, owner) && q in blocks && q + blocks[q] == p && 0 < n && Below(owner, p)
    ensures Tiled(blocks[q := blocks[q] + n], Give(owner, Interval(p, n), q))
  {
    var blocks', owner' := blocks[q := blocks[q] + n], Give(owner, Interval(p, n), q);
    forall h ensures Sized(blocks', h) {
      assert Sized(blocks, h) && Sized(blocks, q);
    }
    forall h, w ensures Covers(blocks', owner', h, w) {
      assert Covers(blocks, owner, h, w);
    }
    forall w ensures Covered(blocks', owner', w) {
      assert Covered(blocks, owner, w);
    }
  }

  // ---------------------------------------------------------------- the free list

  ghost predicate IsNode(avail: int, free: set<int>, a: int)
  {
    a == avail || a in free
  }

  /** No free block lies strictly between `a` and `n`, or above `a` for null. */
  ghost predicate Skips(free: set<int>, a: int, n: int, f: int)
  {
    f in free && a < f ==> n != NULL && n <= f
  }

  /** `n` is the lowest free block above `a`, or null when there is none. */
  ghost predicate IsNext(free: set<int>, a: int, n: int)
  {
    && (n != NULL ==> n in free && a < n)
    && (forall f :: Skips(free, a, n, f))
  }

  ghost predicate LinkOk(avail: int, mem: map<int, int>, free: set<int>, a: int)
  {
    && (a in free ==> avail + 2 <= a)
    && (IsNode(avail, free, a) ==> IsNext(free, a, At(mem, a + 1)))
  }

  /** From `avail` on, every link leads to the next free block in address order. */
  ghost predicate Linked(avail: int, mem: map<int, int>, free: set<int>)
  {
    NULL < avail && forall a :: LinkOk(avail, mem, free, a)
  }

  lemma TakeLinks(avail: int, mem: map<int, int>, free: set<int>, q: int, p: int)
    requires Linked(avail, mem, free) && IsNode(avail, free, q)
    requires p != NULL && At(mem, q + 1) == p
    ensures Linked(avail, mem[q + 1 := At(mem, p + 1)], free - {p})
  {
    var mem', free' := mem[q + 1 := At(mem, p + 1)], free - {p};
    assert LinkOk(avail, mem, free, q) && LinkOk(avail, mem, free, p);
    forall a ensures LinkOk(avail, mem', free', a) {
      assert LinkOk(avail, mem, free, a);
      if IsNode(avail, free', a) {
        var n := At(mem', a + 1);
        forall f ensures Skips(free', a, n, f) {
          assert Skips(free, a, At(mem, a + 1), f) && Skips(free, p, At(mem, p + 1), f);
        }
        assert Skips(free, a, At(mem, a + 1), q) && Skips(free, q, p, a);
      }
    }
  }

  lemma InsertLinks(avail: int, mem: map<int, int>, free: set<int>, q: int, p: int)
    requires Linked(avail, mem, free) && IsNode(avail, free, q) && p !in free
    requires avail + 2 <= p && q < p && (At(mem, q + 1) == NULL || p < At(mem, q + 1))
    ensures Linked(avail, mem[q + 1 := p][p + 1 := At(mem, q + 1)], free + {p})
  {
    var mem', free' := mem[q + 1 := p][p + 1 := At(mem, q + 1)], free + {p};
    assert LinkOk(avail, mem, free, q);
    forall a ensures LinkOk(avail, mem', free', a) {
      assert LinkOk(avail, mem, free, a);
      if IsNode(avail, free', a) {
        var n := At(mem', a + 1);
        assert Skips(free, q, At(mem, q + 1), a);
        assert IsNode(avail, free, a) ==> Skips(free, a, At(mem, a + 1), q);
        forall f ensures Skips(free', a, n, f) {
          assert IsNode(avail, free, a) ==> Skips(free, a, At(mem, a + 1), f);
          assert Skips(free, q, At(mem, q + 1), f);
        }
      }
    }
  }

  lemma SplitLinks(avail: int, mem: map<int, int>, free: set<int>, q: int, p: int, n: int, rest: int)
    requires Linked(avail, mem, free) && IsNode(avail, free, q)
    requires p != NULL && At(mem, q + 1) == p && 2 <= n && q + 1 != p
    requires forall f | f in free :: f <= p || p + n < f
    requires forall f | f in free :: f + 1 != p
    ensures Linked(avail, mem[p + n := rest][p := n][q + 1 := p + n][p + n + 1 := At(mem, p + 1)],
                   free - {p} + {p + n})
  {
    var x := p + n;
    var mem' := mem[x := rest][p := n][q + 1 := x][x + 1 := At(mem, p + 1)];
    var taken := mem[q + 1 := At(mem, p + 1)];
    assert LinkOk(avail, mem, free, q) && LinkOk(avail, mem, free, p);
    TakeLinks(avail, mem, free, q, p);
    assert Skips(free, p, At(mem, p + 1), At(mem, p + 1));
    InsertLinks(avail, taken, free - {p}, q, x);
    forall a | IsNode(avail, free - {p} + {x}, a)
      ensures At(mem', a + 1) == At(taken[q + 1 := x][x + 1 := At(taken, q + 1)], a + 1)
    {
      assert a != p - 1 && a != x - 1;
    }
    LinksFrame(avail, taken[q + 1 := x][x + 1 := At(taken, q + 1)], mem', free - {p} + {x});
  }

  lemma MergeLinks(avail: int, mem: map<int, int>, free: set<int>, p: int, r: int, size: int)
    requires Linked(avail, mem, free) && p in free && r in free
    requires At(mem, p + 1) == r && avail + 1 != p
    requires forall f | f in free :: f + 1 != p
    ensures Linked(avail, mem[p := size][p + 1 := At(mem, r + 1)], free - {r})
  {
    assert LinkOk(avail, mem, free, r);
    TakeLinks(avail, mem, free, p, r);
    LinksFrame(avail, mem[p + 1 := At(mem, r + 1)], mem[p := size][p + 1 := At(mem, r + 1)], free - {r});
  }

  lemma LinksFrame(avail: int, mem: map<int, int>, mem': map<int, int>, free: set<int>)
    requires Linked(avail, mem, free)
    requires forall a | IsNode(avail, free, a) :: At(mem', a + 1) == At(mem, a + 1)
    ensures Linked(avail, mem', free)
  {
    forall a ensures LinkOk(avail, mem', free, a) {
      assert LinkOk(avail, mem, free, a);
    }
  }

  // ---------------------------------------------------------------- the whole arena

  ghost predicate HeaderOk(mem: map<int, int>, blocks: map<int, int>, h: int)
  {
    h in blocks ==> At(mem, h) == blocks[h]
  }

  /** Each block's first word holds its size. */
  ghost predicate Headers(mem: map<int, int>, blocks: map<int, int>)
  {
    forall h :: HeaderOk(mem, blocks, h)
  }

  ghost predicate WordOk(avail: int, mem: map<int, int>, brk: int, owner: map<int, int>, w: int)
  {
    w in owner ==> avail + 2 <= w < brk && w in mem
  }

  /** `avail` and every word got from `sbrk` is there, the latter below the break. */
  ghost predicate Mapped(avail: int, mem: map<int, int>, brk: int, owner: map<int, int>)
  {
    && avail in mem && avail + 1 in mem && mem[avail] == 0 && avail + 2 <= brk
    && forall w :: WordOk(avail, mem, brk, owner, w)
  }

  /** What `malloc` and `free` keep true of memory at every step. */
  ghost predicate ArenaOk(avail: int, mem: map<int, int>, brk: int,
                          blocks: map<int, int>, owner: map<int, int>, free: set<int>)
  {
    && Tiled(blocks, owner) && free <= blocks.Keys
    && Headers(mem, blocks) && Linked(avail, mem, free)
    && Mapped(avail, mem, brk, owner)
  }

  ghost predicate NotTouching(blocks: map<int, int>, free: set<int>, f: int, g: int)
    requires free <= blocks.Keys
  {
    f in free && g in free ==> f + blocks[f] != g
  }

  /** No free block ends where another one starts. */
  ghost predicate Coalesced(blocks: map<int, int>, free: set<int>)
    requires free <= blocks.Keys
  {
    forall f, g :: NotTouching(blocks, free, f, g)
  }

  ghost predicate LiveWordKept(owner: map<int, int>, free: set<int>, mem: map<int, int>, mem': map<int, int>, w: int)
  {
    w in owner && owner[w] !in free ==> At(mem', w) == At(mem, w)
  }

  /** Every word of every block in use reads the same in both memories. */
  ghost predicate KeepsLive(owner: map<int, int>, free: set<int>, mem: map<int, int>, mem': map<int, int>)
  {
    forall w :: LiveWordKept(owner, free, mem, mem', w)
  }

  ghost predicate TooSmall(blocks: map<int, int>, free: set<int>, n: int, f: int)
    requires free <= blocks.Keys
  {
    f in free ==> blocks[f] < n
  }

  ghost predicate NoFit(blocks: map<int, int>, free: set<int>, n: int)
    requires free <= blocks.Keys
  {
    forall f :: TooSmall(blocks, free, n, f)
  }

  /** `h` is the first free block of `n` words or more, searching upwards from
      behind `rover` and then from the bottom. */
  ghost predicate NextFit(blocks: map<int, int>, free: set<int>, rover: int, n: int, h: int)
    requires free <= blocks.Keys
  {
    && h in free && n <= blocks[h]
    && (forall f :: (if rover < h then rover < f < h else rover < f || f < h) ==> TooSmall(blocks, free, n, f))
  }

  /** Nodes have both their words in memory, and those words are in no other block. */
  lemma NodeFacts(avail: int, mem: map<int, int>, brk: int, blocks: map<int, int>, owner: map<int, int>,
                  free: set<int>, a: int)
    requires ArenaOk(avail, mem, brk, blocks, owner, free) && (a == avail || a in blocks)
    ensures a in mem && a + 1 in mem && a + 1 < brk
    ensures a in blocks ==> mem[a] == blocks[a] && avail + 2 <= a && 2 <= blocks[a] && a + blocks[a] <= brk
    ensures forall h | h in blocks :: a + 1 != h
    ensures IsNode(avail, free, a) ==> IsNext(free, a, mem[a + 1])
  {
    assert LinkOk(avail, mem, free, a) && HeaderOk(mem, blocks, a);
    if a in blocks {
      OwnsItself(blocks, owner, a);
      assert WordOk(avail, mem, brk, owner, a) && WordOk(avail, mem, brk, owner, a + 1);
      assert WordOk(avail, mem, brk, owner, a + blocks[a] - 1);
    }
    forall h | h in blocks ensures a + 1 != h {
      OwnsItself(blocks, owner, h);
      assert WordOk(avail, mem, brk, owner, h);
    }
  }

  ghost function Above(free: set<int>, q: int): set<int>
  {
    set f | f in free && q < f
  }

  lemma AboveShrinks(free: set<int>, q: int, p: int)
    requires p in free && q < p
    ensures Above(free, p) < Above(free, q)
  {
    assert p in Above(free, q) && p !in Above(free, p);
  }

  /** Memory with the `n` words from `p` on added, as `sbrk` supplies them. */
  function NewWords(mem: map<int, int>, p: int, n: int): map<int, int>
  {
    map w | w in mem.Keys + Interval(p, n) :: At(mem, w)
  }

  /** `sbrk` returns `n` words at `p`, at or above every earlier break. */
  lemma SbrkKeeps(avail: int, mem: map<int, int>, brk: int, blocks: map<int, int>, owner: map<int, int>,
                  free: set<int>, p: int, n: nat)
    requires ArenaOk(avail, mem, brk, blocks, owner, free) && brk <= p
    ensures ArenaOk(avail, NewWords(mem, p, n), p + n, blocks, owner, free)
    ensures Below(owner, p) && KeepsLive(owner, free, mem, NewWords(mem, p, n))
  {
    var brk' := p + n;
    var mem' := NewWords(mem, p, n);
    LinksFrame(avail, mem, mem', free);
    forall h ensures HeaderOk(mem', blocks, h) {
      assert HeaderOk(mem, blocks, h);
    }
    forall w ensures WordOk(avail, mem', brk', owner, w) && (w in owner ==> w < p) {
      assert WordOk(avail, mem, brk, owner, w);
    }
  }

  /** The last free block ends at the new words and takes them over. */
  lemma ExtendKeeps(avail: int, mem: map<int, int>, blocks: map<int, int>, owner: map<int, int>,
                    free: set<int>, q: int, p: int, n: int)
    requires ArenaOk(avail, mem, p + n, blocks, owner, free) && Below(owner, p) && q in free
    requires q + blocks[q] == p && 0 < n && Interval(p, n) <= mem.Keys
    ensures ArenaOk(avail, mem[q := blocks[q] + n], p + n, blocks[q := blocks[q] + n],
                    Give(owner, Interval(p, n), q), free)
    ensures Coalesced(blocks, free) ==> Coalesced(blocks[q := blocks[q] + n], free)
    ensures KeepsLive(owner, free, mem, mem[q := blocks[q] + n])
  {
    var brk' := p + n;
    var size := blocks[q] + n;
    var mem', blocks', owner' := mem[q := size], blocks[q := size], Give(owner, Interval(p, n), q);
    NodeFacts(avail, mem, brk', blocks, owner, free, q);
    ExtendTiling(blocks, owner, q, p, n);
    forall a | IsNode(avail, free, a) ensures At(mem', a + 1) == At(mem, a + 1) {
      NodeFacts(avail, mem, brk', blocks, owner, free, a);
    }
    LinksFrame(avail, mem, mem', free);
    forall h ensures HeaderOk(mem', blocks', h) {
      assert HeaderOk(mem, blocks, h);
    }
    forall w ensures WordOk(avail, mem', brk', owner', w) {
      assert WordOk(avail, mem, brk', owner, w);
    }
    if Coalesced(blocks, free) {
      forall f, g ensures NotTouching(blocks', free, f, g) {
        assert NotTouching(blocks, free, f, g);
        if g in free {
          OwnsItself(blocks, owner, g);
        }
      }
    }
    OwnsItself(blocks, owner, q);
  }

  /** The new words become a free block of their own behind the last node. */
  lemma AppendKeeps(avail: int, mem: map<int, int>, blocks: map<int, int>, owner: map<int, int>,
                    free: set<int>, q: int, p: int, n: int)
    requires ArenaOk(avail, mem, p + n, blocks, owner, free) && Below(owner, p)
    requires IsNode(avail, free, q) && At(mem, q + 1) == NULL
    requires avail + 2 <= p && 2 <= n && Interval(p, n) <= mem.Keys
    ensures p !in blocks
    ensures ArenaOk(avail, mem[p + 1 := NULL][p := n][q + 1 := p], p + n, blocks[p := n],
                    Give(owner, Interval(p, n), p), free + {p})
    ensures Coalesced(blocks, free) && (q in free ==> q + blocks[q] != p)
            ==> Coalesced(blocks[p := n], free + {p})
    ensures KeepsLive(owner, free, mem, mem[p + 1 := NULL][p := n][q + 1 := p])
  {
    var brk' := p + n;
    var mem', blocks', owner' := mem[p + 1 := NULL][p := n][q + 1 := p], blocks[p := n], Give(owner, Interval(p, n), p);
    NodeFacts(avail, mem, brk', blocks, owner, free, q);
    NewTiling(blocks, owner, p, n);
    if q in free {
      OwnsItself(blocks, owner, q);
    }
    InsertLinks(avail, mem, free, q, p);
    forall a | IsNode(avail, free + {p}, a)
      ensures At(mem', a + 1) == At(mem[q + 1 := p][p + 1 := NULL], a + 1)
    {
      if a in free {
        OwnsItself(blocks, owner, a);
      }
    }
    LinksFrame(avail, mem[q + 1 := p][p + 1 := NULL], mem', free + {p});
    forall h ensures HeaderOk(mem', blocks', h) {
      assert HeaderOk(mem, blocks, h);
      if h in blocks {
        OwnsItself(blocks, owner, h);
      }
    }
    assert InBlock(p, n, p) && InBlock(p, n, p + 1);
    forall w ensures WordOk(avail, mem', brk', owner', w) {
      assert WordOk(avail, mem, brk', owner, w);
    }
    forall w ensures LiveWordKept(owner, free, mem, mem', w) {
      assert WordOk(avail, mem, brk', owner, w);
    }
    if Coalesced(blocks, free) && (q in free ==> q + blocks[q] != p) {
      forall f | f in free ensures q in free {
        assert LinkOk(avail, mem, free, f) && Skips(free, q, NULL, f);
      }
      AppendCoalesced(blocks, owner, free, q, p, n);
    }
  }

  lemma AppendCoalesced(blocks: map<int, int>, owner: map<int, int>, free: set<int>, q: int, p: int, n: int)
    requires Tiled(blocks, owner) && free <= blocks.Keys && Coalesced(blocks, free)
    requires Below(owner, p) && 2 <= n && IsNext(free, q, NULL)
    requires if q in free then q + blocks[q] != p else free == {}
    ensures Coalesced(blocks[p := n], free + {p})
  {
    var blocks', free' := blocks[p := n], free + {p};
    forall f, g ensures NotTouching(blocks', free', f, g) {
      assert NotTouching(blocks, free, f, g);
      if f in free {
        OwnsItself(blocks, owner, f);
        OwnsItself(blocks, owner, q);
        assert Skips(free, q, NULL, f);
        if f < q {
          BlocksDisjoint(blocks, owner, f, q);
        }
      }
      if g in free {
        OwnsItself(blocks, owner, g);
      }
    }
  }

  /** Handing out free block `p` whole. */
  lemma TakeKeeps(avail: int, mem: map<int, int>, brk: int, blocks: map<int, int>, owner: map<int, int>,
                  free: set<int>, q: int, p: int)
    requires ArenaOk(avail, mem, brk, blocks, owner, free) && IsNode(avail, free, q)
    requires p != NULL && At(mem, q + 1) == p
    ensures ArenaOk(avail, mem[q + 1 := At(mem, p + 1)], brk, blocks, owner, free - {p})
    ensures Coalesced(blocks, free) ==> Coalesced(blocks, free - {p})
    ensures KeepsLive(owner, free, mem, mem[q + 1 := At(mem, p + 1)])
  {
    var mem' := mem[q + 1 := At(mem, p + 1)];
    NodeFacts(avail, mem, brk, blocks, owner, free, q);
    TakeLinks(avail, mem, free, q, p);
    if q in free {
      OwnsItself(blocks, owner, q);
    }
    forall h ensures HeaderOk(mem', blocks, h) {
      assert HeaderOk(mem, blocks, h);
    }
    forall w ensures WordOk(avail, mem', brk, owner, w) && LiveWordKept(owner, free, mem, mem', w) {
      assert WordOk(avail, mem, brk, owner, w);
    }
    if Coalesced(blocks, free) {
      forall f, g ensures NotTouching(blocks, free - {p}, f, g) {
        assert NotTouching(blocks, free, f, g);
      }
    }
  }

  /** Handing out the first `n` words of free block `p`; the rest stays free. */
  lemma SplitKeeps(avail: int, mem: map<int, int>, brk: int, blocks: map<int, int>, owner: map<int, int>,
                   free: set<int>, q: int, p: int, n: int)
    requires ArenaOk(avail, mem, brk, blocks, owner, free) && IsNode(avail, free, q)
    requires p in free && At(mem, q + 1) == p && 2 <= n <= blocks[p] - 2
    ensures var x := p + n;
            && x !in blocks
            && ArenaOk(avail, mem[x := blocks[p] - n][p := n][q + 1 := x][x + 1 := At(mem, p + 1)], brk,
                       blocks[p := n][x := blocks[p] - n], CutOwner(owner, p, n), free - {p} + {x})
            && (Coalesced(blocks, free) ==>
                  Coalesced(blocks[p := n][x := blocks[p] - n], free - {p} + {x}))
            && KeepsLive(owner, free, mem, mem[x := blocks[p] - n][p := n][q + 1 := x][x + 1 := At(mem, p + 1)])
  {
    var x, rest := p + n, blocks[p] - n;
    var mem' := mem[x := rest][p := n][q + 1 := x][x + 1 := At(mem, p + 1)];
    var blocks', owner', free' := blocks[p := n][x := rest], CutOwner(owner, p, n), free - {p} + {x};
    NodeFacts(avail, mem, brk, blocks, owner, free, q);
    NodeFacts(avail, mem, brk, blocks, owner, free, p);
    CutTiling(blocks, owner, p, n);
    OwnsItself(blocks, owner, p);
    assert Covers(blocks, owner, p, x) && Covers(blocks, owner, p, x + 1);
    forall f | f in free ensures (f <= p || x < f) && f + 1 != p {
      if p < f {
        BlocksDisjoint(blocks, owner, p, f);
      }
      NodeFacts(avail, mem, brk, blocks, owner, free, f);
    }
    SplitLinks(avail, mem, free, q, p, n, rest);
    forall h ensures HeaderOk(mem', blocks', h) {
      assert HeaderOk(mem, blocks, h);
      if h in blocks {
        OwnsItself(blocks, owner, h);
      }
    }
    if q in free {
      OwnsItself(blocks, owner, q);
    }
    forall w ensures WordOk(avail, mem', brk, owner', w) && LiveWordKept(owner, free, mem, mem', w) {
      assert WordOk(avail, mem, brk, owner, w);
    }
    if Coalesced(blocks, free) {
      forall f, g ensures NotTouching(blocks', free', f, g) {
        assert NotTouching(blocks, free, f, g) && NotTouching(blocks, free, p, g);
        if f in free && f < p {
          BlocksDisjoint(blocks, owner, f, p);
        } else if f in free && p < f {
          BlocksDisjoint(blocks, owner, p, f);
          OwnsItself(blocks, owner, f);
        }
      }
    }
  }

  /** Linking used block `p` in behind `q`. */
  lemma InsertKeeps(avail: int, mem: map<int, int>, brk: int, blocks: map<int, int>, owner: map<int, int>,
                    free: set<int>, q: int, p: int)
    requires ArenaOk(avail, mem, brk, blocks, owner, free) && IsNode(avail, free, q)
    requires p in blocks && p !in free && q < p && (At(mem, q + 1) == NULL || p < At(mem, q + 1))
    ensures ArenaOk(avail, mem[q + 1 := p][p + 1 := At(mem, q + 1)], brk, blocks, owner, free + {p})
    ensures KeepsLive(owner, free + {p}, mem, mem[q + 1 := p][p + 1 := At(mem, q + 1)])
  {
    var mem' := mem[q + 1 := p][p + 1 := At(mem, q + 1)];
    NodeFacts(avail, mem, brk, blocks, owner, free, q);
    NodeFacts(avail, mem, brk, blocks, owner, free, p);
    OwnsItself(blocks, owner, p);
    if q in free {
      OwnsItself(blocks, owner, q);
    }
    InsertLinks(avail, mem, free, q, p);
    forall h ensures HeaderOk(mem', blocks, h) {
      assert HeaderOk(mem, blocks, h);
    }
    forall w ensures WordOk(avail, mem', brk, owner, w) && LiveWordKept(owner, free + {p}, mem, mem', w) {
      assert WordOk(avail, mem, brk, owner, w);
    }
  }

  /** Free block `p` absorbing the free block `r` right behind it. */
  lemma MergeKeeps(avail: int, mem: map<int, int>, brk: int, blocks: map<int, int>, owner: map<int, int>,
                   free: set<int>, p: int, r: int)
    requires ArenaOk(avail, mem, brk, blocks, owner, free)
    requires p in free && r in free && p + blocks[p] == r && At(mem, p + 1) == r
    ensures ArenaOk(avail, mem[p := blocks[p] + blocks[r]][p + 1 := At(mem, r + 1)], brk,
                    MergeBlocks(blocks, p, r), MergeOwner(owner, p, r), free - {r})
    ensures KeepsLive(owner, free, mem, mem[p := blocks[p] + blocks[r]][p + 1 := At(mem, r + 1)])
  {
    var mem' := mem[p := blocks[p] + blocks[r]][p + 1 := At(mem, r + 1)];
    var blocks', owner' := MergeBlocks(blocks, p, r), MergeOwner(owner, p, r);
    NodeFacts(avail, mem, brk, blocks, owner, free, p);
    OwnsItself(blocks, owner, p);
    forall f | f in free ensures f + 1 != p {
      NodeFacts(avail, mem, brk, blocks, owner, free, f);
    }
    MergeTiling(blocks, owner, p, r);
    MergeLinks(avail, mem, free, p, r, blocks[p] + blocks[r]);
    forall h ensures HeaderOk(mem', blocks', h) {
      assert HeaderOk(mem, blocks, h);
    }
    forall w ensures WordOk(avail, mem', brk, owner', w) && LiveWordKept(owner, free, mem, mem', w) {
      assert WordOk(avail, mem, brk, owner, w);
    }
  }

  /** Which blocks touch after `p` has absorbed `r`. */
  lemma MergeTouches(blocks: map<int, int>, free: set<int>, p: int, r: int, f: int, g: int)
    requires free <= blocks.Keys && p in free && r in free && p + blocks[p] == r && p != r
    requires f != p ==> NotTouching(blocks, free, f, g)
    requires f == p ==> NotTouching(blocks, free, r, g)
    ensures NotTouching(MergeBlocks(blocks, p, r), free - {r}, f, g)
  {
  }

  ghost predicate StaysLive(owner: map<int, int>, free: set<int>, owner': map<int, int>, free': set<int>, w: int)
  {
    w in owner && owner[w] !in free ==> w in owner' && owner'[w] !in free'
  }

  /** Words of blocks in use still belong to blocks in use. */
  ghost predicate AllStayLive(owner: map<int, int>, free: set<int>, owner': map<int, int>, free': set<int>)
  {
    forall w :: StaysLive(owner, free, owner', free', w)
  }

  lemma GrowthStaysLive(blocks: map<int, int>, owner: map<int, int>, free: set<int>, p: int, n: int, h: int,
                        free': set<int>)
    requires Tiled(blocks, owner) && Below(owner, p)
    requires free' == free || (free' == free + {p} && p !in blocks)
    ensures AllStayLive(owner, free, Give(owner, Interval(p, n), h), free')
  {
    forall w ensures StaysLive(owner, free, Give(owner, Interval(p, n), h), free', w) {
      assert Covered(blocks, owner, w);
    }
  }

  lemma KeepsLiveAgain(owner: map<int, int>, free: set<int>, m0: map<int, int>, m1: map<int, int>, m2: map<int, int>)
    requires KeepsLive(owner, free, m0, m1) && KeepsLive(owner, free, m1, m2)
    ensures KeepsLive(owner, free, m0, m2)
  {
    StaysLiveItself(owner, free);
    KeepsLiveTwice(owner, free, owner, free, m0, m1, m2);
  }

  lemma KeepsLiveTwice(owner: map<int, int>, free: set<int>, owner': map<int, int>, free': set<int>,
                       m0: map<int, int>, m1: map<int, int>, m2: map<int, int>)
    requires AllStayLive(owner, free, owner', free')
    requires KeepsLive(owner, free, m0, m1) && KeepsLive(owner', free', m1, m2)
    ensures KeepsLive(owner, free, m0, m2)
  {
    forall w ensures LiveWordKept(owner, free, m0, m2, w) {
      assert StaysLive(owner, free, owner', free', w);
      assert LiveWordKept(owner, free, m0, m1, w) && LiveWordKept(owner', free', m1, m2, w);
    }
  }

  /** Blocks touching after `p0` has gone free between `q` and `p`. */
  lemma InsertTouches(blocks: map<int, int>, owner: map<int, int>, free: set<int>, q: int, p: int, p0: int, f: int, g: int)
    requires Tiled(blocks, owner) && free <= blocks.Keys && Coalesced(blocks, free)
    requires p0 in blocks && p0 !in free && q < p0
    requires f in free && f < q ==> q in free
    requires Skips(free, q, p, f) && Skips(free, q, p, g) && (p != NULL ==> p0 < p && p in free)
    ensures f != p0 && g != p0 ==> NotTouching(blocks, free + {p0}, f, g)
    ensures f == p0 && g != p ==> NotTouching(blocks, free + {p0}, f, g)
    ensures g == p0 && f != q ==> NotTouching(blocks, free + {p0}, f, g)
  {
    assert NotTouching(blocks, free, f, g);
    OwnsItself(blocks, owner, p0);
    if f in free {
      OwnsItself(blocks, owner, f);
      if g == p0 && f < q && q in free {
        BlocksDisjoint(blocks, owner, f, q);
      }
    }
    if g in free && f == p0 && p != NULL && p < g {
      BlocksDisjoint(blocks, owner, p0, p);
    }
  }

  lemma MergeStaysLive(owner: map<int, int>, free: set<int>, p: int, r: int)
    requires r in free
    ensures AllStayLive(owner, free, MergeOwner(owner, p, r), free - {r})
  {
    var owner', free' := MergeOwner(owner, p, r), free - {r};
    forall w ensures StaysLive(owner, free, owner', free', w) {
    }
  }

  /** Coalesced but for `q` and the block `p0` just freed behind it. */
  ghost predicate CoalescedBut(blocks: map<int, int>, free: set<int>, q: int, p0: int)
    requires free <= blocks.Keys
  {
    forall f, g :: (f == q && g == p0) || NotTouching(blocks, free, f, g)
  }

  /** Coalesced but for `q`, `p0` and `p`, one behind the other. */
  ghost predicate CoalescedAround(blocks: map<int, int>, free: set<int>, q: int, p0: int, p: int)
    requires free <= blocks.Keys
  {
    forall f, g :: (f == q && g == p0) || (f == p0 && g == p) || NotTouching(blocks, free, f, g)
  }

  lemma InsertCoalesces(avail: int, mem: map<int, int>, blocks: map<int, int>, owner: map<int, int>, free: set<int>, q: int, p: int, p0: int)
    requires Tiled(blocks, owner) && free <= blocks.Keys && Coalesced(blocks, free)
    requires p0 in blocks && p0 !in free && q < p0 && IsNext(free, q, p) && (p == NULL || p0 < p)
    requires Linked(avail, mem, free) && IsNode(avail, free, q)
    ensures CoalescedAround(blocks, free + {p0}, q, p0, p)
  {
    var free' := free + {p0};
    forall f, g
      ensures (f == q && g == p0) || (f == p0 && g == p) || NotTouching(blocks, free', f, g)
    {
      assert Skips(free, q, p, f) && Skips(free, q, p, g) && LinkOk(avail, mem, free, f);
      InsertTouches(blocks, owner, free, q, p, p0, f, g);
    }
  }

  lemma MergeCoalescesRight(blocks: map<int, int>, free: set<int>, q: int, p0: int, p: int)
    requires free <= blocks.Keys && CoalescedAround(blocks, free, q, p0, p)
    requires p0 in free && p in free && p0 + blocks[p0] == p && q < p0 < p
    ensures CoalescedBut(MergeBlocks(blocks, p0, p), free - {p}, q, p0)
  {
    var blocks', free' := MergeBlocks(blocks, p0, p), free - {p};
    forall f, g ensures (f == q && g == p0) || NotTouching(blocks', free', f, g) {
      if f != q || g != p0 {
        assert f != p0 ==> NotTouching(blocks, free, f, g);
        assert NotTouching(blocks, free, p, g);
        MergeTouches(blocks, free, p0, p, f, g);
      }
    }
  }

  lemma MergeCoalescesLeft(blocks: map<int, int>, free: set<int>, q: int, p0: int)
    requires free <= blocks.Keys && CoalescedBut(blocks, free, q, p0)
    requires p0 in free && q in free && q + blocks[q] == p0 && q < p0
    ensures Coalesced(MergeBlocks(blocks, q, p0), free - {p0})
  {
    var blocks', free' := MergeBlocks(blocks, q, p0), free - {p0};
    forall f, g ensures NotTouching(blocks', free', f, g) {
      assert g == p0 || f == q || NotTouching(blocks, free, f, g);
      assert NotTouching(blocks, free, p0, g);
      if g != p0 {
        MergeTouches(blocks, free, q, p0, f, g);
      }
    }
  }

  lemma StaysLiveItself(owner: map<int, int>, free: set<int>)
    ensures AllStayLive(owner, free, owner, free)
  {
    assert forall w :: StaysLive(owner, free, owner, free, w);
  }

  class Arena {
    const avail: int
    var mem: map<int, int>
    var rover: int
    var brk: int
    ghost var blocks: map<int, int>
    ghost var owner: map<int, int>
    ghost var free: set<int>

    ghost predicate Valid()
      reads this
    {
      && ArenaOk(avail, mem, brk, blocks, owner, free)
      && Coalesced(blocks, free)
      && IsNode(avail, free, rover)
    }

    /** The blocks handed out and not yet given back. */
    ghost function Used(): set<int>
      reads this
    {
      blocks.Keys - free
    }

    constructor (avail: int, brk: int)
      requires NULL < avail && avail + 2 <= brk
      ensures Valid() && Used() == {} && owner == map[] && this.brk == brk
    {
      this.avail := avail;
      mem := map[avail := 0, avail + 1 := NULL];
      rover := avail;
      this.brk := brk;
      blocks, owner, free := map[], map[], {};
    }

    /** The node whose successor is the next fit, or the last node. */
    method FindPred(n: nat) returns (q: int)
      requires ArenaOk(avail, mem, brk, blocks, owner, free) && IsNode(avail, free, rover)
      ensures IsNode(avail, free, q)
      ensures At(mem, q + 1) != NULL ==> NextFit(blocks, free, rover, n, At(mem, q + 1))
      ensures At(mem, q + 1) == NULL ==> NoFit(blocks, free, n)
    {
      q := rover;
      NodeFacts(avail, mem, brk, blocks, owner, free, q);
      var p := mem[q + 1];
      while p != NULL
        invariant IsNode(avail, free, q) && rover <= q && q + 1 in mem && p == mem[q + 1]
        invariant IsNext(free, q, p)
        invariant forall f :: rover < f <= q ==> TooSmall(blocks, free, n, f)
        decreases Above(free, q)
      {
        NodeFacts(avail, mem, brk, blocks, owner, free, p);
        forall f | rover < f < p ensures TooSmall(blocks, free, n, f) {
          assert Skips(free, q, p, f);
        }
        if mem[p] >= n {
          return;
        }
        AboveShrinks(free, q, p);
        q := p;
        p := mem[q + 1];
      }
      var q0 := q;
      forall f | rover < f ensures TooSmall(blocks, free, n, f) {
        assert Skips(free, q, p, f);
      }
      if rover != avail {
        q := avail;
        NodeFacts(avail, mem, brk, blocks, owner, free, q);
        p := mem[q + 1];
        forall f | f <= q ensures TooSmall(blocks, free, n, f) {
          assert LinkOk(avail, mem, free, f);
        }
        while true
          invariant IsNode(avail, free, q) && q < rover && q + 1 in mem && p == mem[q + 1]
          invariant IsNext(free, q, p)
          invariant forall f :: f <= q ==> TooSmall(blocks, free, n, f)
          decreases Above(free, q)
        {
          assert Skips(free, q, p, rover);
          NodeFacts(avail, mem, brk, blocks, owner, free, p);
          forall f | f < p ensures TooSmall(blocks, free, n, f) {
            assert Skips(free, q, p, f);
          }
          if mem[p] >= n {
            return;
          }
          if p == rover {
            break;
          }
          AboveShrinks(free, q, p);
          q := p;
          p := mem[q + 1];
        }
      }
      forall f ensures TooSmall(blocks, free, n, f) {
        assert LinkOk(avail, mem, free, f);
      }
      return q0;
    }
  
    /** Asks the system for `incr` words; the break may have moved up by `gap`. */
    method Sbrk(incr: nat, gap: nat) returns (p: int)
      requires ArenaOk(avail, mem, brk, blocks, owner, free)
      modifies this`mem, this`brk
      ensures p == old(brk) + gap && brk == p + incr && mem == NewWords(old(mem), p, incr)
      ensures ArenaOk(avail, mem, brk, blocks, owner, free)
      ensures Below(owner, p) && KeepsLive(owner, free, old(mem), mem)
    {
      p := brk + gap;
      SbrkKeeps(avail, mem, brk, blocks, owner, free, p, incr);
      brk := p + incr;
      mem := NewWords(mem, p, incr);
    }

    /** The last free block `q` ends at the new words and takes them over. */
    method ExtendTail(q: int, p: int, n: nat)
      requires ArenaOk(avail, mem, p + n, blocks, owner, free) && Coalesced(blocks, free)
      requires Below(owner, p) && Interval(p, n) <= mem.Keys
      requires q in free && q + blocks[q] == p && 0 < n && q in mem
      modifies this`mem, this`blocks, this`owner
      ensures ArenaOk(avail, mem, p + n, blocks, owner, free) && Coalesced(blocks, free)
      ensures blocks.Keys == old(blocks).Keys && blocks[q] == old(blocks)[q] + n
      ensures forall h | h in old(blocks) && h != q :: blocks[h] == old(blocks)[h]
      ensures owner.Keys == old(owner).Keys + Interval(p, n)
      ensures KeepsLive(old(owner), free, old(mem), mem) && AllStayLive(old(owner), free, owner, free)
    {
      GrowthStaysLive(blocks, owner, free, p, n, q, free);
      ExtendKeeps(avail, mem, blocks, owner, free, q, p, n);
      assert HeaderOk(mem, blocks, q);
      mem := mem[q := mem[q] + n];
      blocks, owner := blocks[q := blocks[q] + n], Give(owner, Interval(p, n), q);
    }

    /** The new words become a free block behind the last node `q`. */
    method AppendBlock(q: int, p: int, n: nat)
      requires ArenaOk(avail, mem, p + n, blocks, owner, free) && Coalesced(blocks, free)
      requires Below(owner, p) && Interval(p, n) <= mem.Keys
      requires IsNode(avail, free, q) && At(mem, q + 1) == NULL
      requires avail + 2 <= p && 2 <= n && (q in free ==> q + blocks[q] != p)
      modifies this`mem, this`blocks, this`owner, this`free
      ensures ArenaOk(avail, mem, p + n, blocks, owner, free) && Coalesced(blocks, free)
      ensures p !in old(blocks) && blocks == old(blocks)[p := n]
      ensures owner.Keys == old(owner).Keys + Interval(p, n)
      ensures free == old(free) + {p} && At(mem, q + 1) == p
      ensures KeepsLive(old(owner), old(free), old(mem), mem) && AllStayLive(old(owner), old(free), owner, free)
    {
      AppendKeeps(avail, mem, blocks, owner, free, q, p, n);
      GrowthStaysLive(blocks, owner, free, p, n, p, free + {p});
      mem := mem[p + 1 := NULL];
      mem := mem[p := n];
      mem := mem[q + 1 := p];
      blocks, owner := blocks[p := n], Give(owner, Interval(p, n), p);
      free := free + {p};
    }

    /** The new words make the last free block fit; the search starts again from there. */
    method GrowTail(q0: int, p: int, incr: nat, n: nat) returns (q: int)
      requires ArenaOk(avail, mem, brk, blocks, owner, free) && Coalesced(blocks, free) && brk == p + incr
      requires Below(owner, p) && Interval(p, incr) <= mem.Keys && 2 <= n <= incr && IsNode(avail, free, rover)
      requires q0 in free && q0 + blocks[q0] == p && q0 in mem
      modifies this`mem, this`blocks, this`owner
      ensures ArenaOk(avail, mem, brk, blocks, owner, free) && Coalesced(blocks, free)
      ensures Used() == old(Used()) && owner.Keys == old(owner.Keys) + Interval(p, incr)
      ensures KeepsLive(old(owner), free, old(mem), mem) && AllStayLive(old(owner), free, owner, free)
      ensures forall h | h in Used() :: h in old(blocks) && blocks[h] == old(blocks)[h]
      ensures IsNode(avail, free, q) && At(mem, q + 1) in free && n <= blocks[At(mem, q + 1)]
    {
      NodeFacts(avail, mem, brk, blocks, owner, free, q0);
      ExtendTail(q0, p, incr);
      q := FindPred(n);
      assert At(mem, q + 1) == NULL ==> TooSmall(blocks, free, n, q0);
    }

    /** Or they are a block of their own. */
    method GrowApart(q0: int, p: int, incr: nat, n: nat)
      requires ArenaOk(avail, mem, brk, blocks, owner, free) && Coalesced(blocks, free) && brk == p + incr
      requires Below(owner, p) && Interval(p, incr) <= mem.Keys && 2 <= n <= incr && IsNode(avail, free, rover)
      requires IsNode(avail, free, q0) && At(mem, q0 + 1) == NULL && avail + 2 <= p && (q0 in free ==> q0 + blocks[q0] != p)
      modifies this`mem, this`blocks, this`owner, this`free
      ensures ArenaOk(avail, mem, brk, blocks, owner, free) && Coalesced(blocks, free)
      ensures Used() == old(Used()) && IsNode(avail, free, rover) && owner.Keys == old(owner.Keys) + Interval(p, incr)
      ensures KeepsLive(old(owner), old(free), old(mem), mem) && AllStayLive(old(owner), old(free), owner, free)
      ensures forall h | h in Used() :: h in old(blocks) && blocks[h] == old(blocks)[h]
      ensures IsNode(avail, free, q0) && At(mem, q0 + 1) in free && n <= blocks[At(mem, q0 + 1)]
    {
      AppendBlock(q0, p, incr);
    }

    /** The new words follow the last node `q0`, at once or after a gap. */
    method GrowBehind(q0: int, p: int, incr: nat, n: nat) returns (q: int)
      requires ArenaOk(avail, mem, brk, blocks, owner, free) && Coalesced(blocks, free) && brk == p + incr
      requires Below(owner, p) && Interval(p, incr) <= mem.Keys && 2 <= n <= incr && IsNode(avail, free, rover)
      requires IsNode(avail, free, q0) && At(mem, q0 + 1) == NULL && avail + 2 <= p
      modifies this`mem, this`blocks, this`owner, this`free
      ensures ArenaOk(avail, mem, brk, blocks, owner, free) && Coalesced(blocks, free)
      ensures Used() == old(Used()) && IsNode(avail, free, rover) && owner.Keys == old(owner.Keys) + Interval(p, incr)
      ensures KeepsLive(old(owner), old(free), old(mem), mem) && AllStayLive(old(owner), old(free), owner, free)
      ensures forall h | h in Used() :: h in old(blocks) && blocks[h] == old(blocks)[h]
      ensures IsNode(avail, free, q) && At(mem, q + 1) in free && n <= blocks[At(mem, q + 1)]
    {
      q := q0;
      NodeFacts(avail, mem, brk, blocks, owner, free, q);
      if q + mem[q] == p {
        q := GrowTail(q, p, incr, n);
      } else {
        GrowApart(q, p, incr, n);
      }
    }

    /** Makes room for `n` words behind the last node `q0`. */
    method Grow(q0: int, n: nat, gap: nat) returns (q: int)
      requires Valid() && IsNode(avail, free, q0) && At(mem, q0 + 1) == NULL
      requires 2 <= n && NoFit(blocks, free, n)
      modifies this`mem, this`brk, this`blocks, this`owner, this`free
      ensures ArenaOk(avail, mem, brk, blocks, owner, free) && Coalesced(blocks, free)
      ensures Used() == old(Used()) && IsNode(avail, free, rover)
      ensures brk == old(brk) + gap + Increment(n)
      ensures owner.Keys == old(owner.Keys) + Interval(old(brk) + gap, Increment(n))
      ensures KeepsLive(old(owner), old(free), old(mem), mem) && AllStayLive(old(owner), old(free), owner, free)
      ensures forall h | h in Used() :: h in old(blocks) && blocks[h] == old(blocks)[h]
      ensures IsNode(avail, free, q) && At(mem, q + 1) in free && n <= blocks[At(mem, q + 1)]
    {
      NodeFacts(avail, mem, brk, blocks, owner, free, avail);
      var incr := Increment(n);
      var p := Sbrk(incr, gap);
      ghost var mem1 := mem;
      q := GrowBehind(q0, p, incr, n);
      KeepsLiveAgain(old(owner), old(free), old(mem), mem1, mem);
    }

    /** Hands out the free block `h` behind `q` whole. */
    method TakeWhole(q: int, h: int)
      requires ArenaOk(avail, mem, brk, blocks, owner, free) && Coalesced(blocks, free)
      requires IsNode(avail, free, q) && h in free && At(mem, q + 1) == h && h != NULL
      modifies this`mem, this`free
      ensures ArenaOk(avail, mem, brk, blocks, owner, free) && Coalesced(blocks, free)
      ensures free == old(free) - {h} && IsNode(avail, free, q)
      ensures KeepsLive(owner, old(free), old(mem), mem)
    {
      NodeFacts(avail, mem, brk, blocks, owner, free, q);
      NodeFacts(avail, mem, brk, blocks, owner, free, h);
      TakeKeeps(avail, mem, brk, blocks, owner, free, q, h);
      mem := mem[q + 1 := mem[h + 1]];
      free := free - {h};
    }

    /** Hands out the first `n` words of the free block `h` behind `q`. */
    method TakePart(q: int, h: int, n: nat)
      requires ArenaOk(avail, mem, brk, blocks, owner, free) && Coalesced(blocks, free)
      requires IsNode(avail, free, q) && h in free && At(mem, q + 1) == h && 2 <= n <= blocks[h] - 2
      modifies this`mem, this`blocks, this`owner, this`free
      ensures ArenaOk(avail, mem, brk, blocks, owner, free) && Coalesced(blocks, free)
      ensures h + n !in old(blocks) && blocks == old(blocks)[h := n][h + n := old(blocks)[h] - n]
      ensures free == old(free) - {h} + {h + n} && owner.Keys == old(owner).Keys && IsNode(avail, free, q)
      ensures KeepsLive(old(owner), old(free), old(mem), mem)
    {
      NodeFacts(avail, mem, brk, blocks, owner, free, q);
      NodeFacts(avail, mem, brk, blocks, owner, free, h);
      SplitKeeps(avail, mem, brk, blocks, owner, free, q, h, n);
      var x := h + n;
      mem := mem[x := mem[h] - n];
      mem := mem[h := n];
      mem := mem[q + 1 := x];
      mem := mem[x + 1 := mem[h + 1]];
      blocks, owner := blocks[h := n][x := blocks[h] - n], CutOwner(owner, h, n);
      free := free - {h} + {x};
    }

    /** Takes `n` words, or `n + 1`, from the free block behind `q`. */
    method Carve(q: int, n: nat) returns (h: int)
      requires ArenaOk(avail, mem, brk, blocks, owner, free) && Coalesced(blocks, free)
      requires IsNode(avail, free, q) && At(mem, q + 1) in free && 2 <= n <= blocks[At(mem, q + 1)]
      modifies this`mem, this`blocks, this`owner, this`free, this`rover
      ensures Valid() && owner.Keys == old(owner.Keys)
      ensures h == old(At(mem, q + 1)) && Used() == old(Used()) + {h} && n <= blocks[h] <= n + 1
      ensures KeepsLive(old(owner), old(free), old(mem), mem)
      ensures forall g | g in old(Used()) :: blocks[g] == old(blocks)[g]
    {
      NodeFacts(avail, mem, brk, blocks, owner, free, q);
      h := mem[q + 1];
      NodeFacts(avail, mem, brk, blocks, owner, free, h);
      if mem[h] == n || mem[h] == n + 1 {
        TakeWhole(q, h);
      } else {
        TakePart(q, h, n);
      }
      NodeFacts(avail, mem, brk, blocks, owner, free, q);
      rover := mem[q + 1];
      if rover == NULL {
        rover := avail;
      }
    }
  
    /** `malloc`: `px` is the word behind the header of the block handed out.

        The system grants any request whose byte count is a positive `int`. */
    method Malloc(size: nat, gap: nat) returns (px: int)
      requires Valid() && size < UNSIGNED && INT_BYTES * Words(size) < 0x8000_0000
      modifies this
      ensures Valid()
      ensures px - 1 !in old(Used()) && Used() == old(Used()) + {px - 1}
      ensures Words(size) <= blocks[px - 1] <= Words(size) + 1
      ensures forall h | h in old(Used()) :: blocks[h] == old(blocks)[h]
      ensures KeepsLive(old(owner), old(free), old(mem), mem)
      ensures old(NoFit(blocks, free, Words(size))) ==>
                && brk == old(brk) + gap + Increment(Words(size))
                && owner.Keys == old(owner.Keys) + Interval(old(brk) + gap, Increment(Words(size)))
      ensures !old(NoFit(blocks, free, Words(size))) ==>
                && brk == old(brk) && owner.Keys == old(owner.Keys)
                && NextFit(old(blocks), old(free), old(rover), Words(size), px - 1)
    {
      var n := (size + INT_BYTES - 1) % UNSIGNED / INT_BYTES + 1;
      if n == 1 {
        n := 2;
      }
      var q := FindPred(n);
      NodeFacts(avail, mem, brk, blocks, owner, free, q);
      var p := mem[q + 1];
      StaysLiveItself(owner, free);
      if p == NULL {
        q := Grow(q, n, gap);
      } else {
        assert !NoFit(blocks, free, n) by {
          assert !TooSmall(blocks, free, n, p);
        }
      }
      ghost var owner1, free1, mem1 := owner, free, mem;
      var h := Carve(q, n);
      KeepsLiveTwice(old(owner), old(free), owner1, free1, old(mem), mem1, mem);
      px := h + 1;
    }
  
    /** Frees `p0` between `q` and `p`, together with `p` when they touch. */
    method JoinRight(q: int, p: int, p0: int)
      requires ArenaOk(avail, mem, brk, blocks, owner, free) && Coalesced(blocks, free)
      requires IsNode(avail, free, q) && At(mem, q + 1) == p && p0 in blocks && p0 !in free
      requires q < p0 && (p == NULL || p0 < p)
      modifies this`mem, this`blocks, this`owner, this`free
      ensures ArenaOk(avail, mem, brk, blocks, owner, free) && CoalescedBut(blocks, free, q, p0)
      ensures owner.Keys == old(owner).Keys && blocks.Keys - free == old(blocks.Keys - free) - {p0}
      ensures p0 in free && IsNode(avail, free, q) && At(mem, q + 1) == p0
      ensures forall h | h in blocks && h != p0 :: h in old(blocks) && blocks[h] == old(blocks)[h]
      ensures KeepsLive(old(owner), old(free) + {p0}, old(mem), mem)
      ensures AllStayLive(old(owner), old(free) + {p0}, owner, free)
    {
      NodeFacts(avail, mem, brk, blocks, owner, free, q);
      NodeFacts(avail, mem, brk, blocks, owner, free, p0);
      InsertKeeps(avail, mem, brk, blocks, owner, free, q, p0);
      InsertCoalesces(avail, mem, blocks, owner, free, q, p, p0);
      free := free + {p0};
      StaysLiveItself(owner, free);
      mem := mem[q + 1 := p0];
      if p != NULL && p == p0 + mem[p0] {
        Absorb(q, p0, p, mem[p0 + 1 := p]);
        KeepsLiveAgain(old(owner), old(free) + {p0}, old(mem), old(mem)[q + 1 := p0][p0 + 1 := p], mem);
      } else {
        mem := mem[p0 + 1 := p];
      }
    }

    /** `p0` takes over the block `p` right behind it; `mem1` is memory with the
        link from `p0` to `p` that need not be stored first. */
    method Absorb(q: int, p0: int, p: int, ghost mem1: map<int, int>)
      requires p0 in mem && mem1 == mem[p0 + 1 := p]
      requires ArenaOk(avail, mem1, brk, blocks, owner, free) && CoalescedAround(blocks, free, q, p0, p)
      requires p0 in free && p in free && p0 + blocks[p0] == p && q < p0 && IsNode(avail, free, q)
      requires At(mem1, q + 1) == p0
      modifies this`mem, this`blocks, this`owner, this`free
      ensures ArenaOk(avail, mem, brk, blocks, owner, free) && CoalescedBut(blocks, free, q, p0)
      ensures owner.Keys == old(owner).Keys && blocks.Keys - free == old(blocks.Keys - free)
      ensures p0 in free && IsNode(avail, free, q) && At(mem, q + 1) == p0
      ensures forall h | h in blocks && h != p0 :: h in old(blocks) && blocks[h] == old(blocks)[h]
      ensures KeepsLive(old(owner), old(free), mem1, mem) && AllStayLive(old(owner), old(free), owner, free)
    {
      NodeFacts(avail, mem1, brk, blocks, owner, free, q);
      NodeFacts(avail, mem1, brk, blocks, owner, free, p0);
      NodeFacts(avail, mem1, brk, blocks, owner, free, p);
      MergeKeeps(avail, mem1, brk, blocks, owner, free, p0, p);
      MergeCoalescesRight(blocks, free, q, p0, p);
      MergeStaysLive(owner, free, p0, p);
      ghost var mem2 := mem1[p0 := blocks[p0] + blocks[p]][p0 + 1 := At(mem1, p + 1)];
      mem := mem[p0 := mem[p0] + mem[p]];
      mem := mem[p0 + 1 := mem[p + 1]];
      assert mem == mem2;
      blocks, owner, free := MergeBlocks(blocks, p0, p), MergeOwner(owner, p0, p), free - {p};
    }

    /** The block `q` takes over `p0` when it ends there. */
    method JoinLeft(q: int, p0: int)
      requires ArenaOk(avail, mem, brk, blocks, owner, free) && CoalescedBut(blocks, free, q, p0)
      requires p0 in free && IsNode(avail, free, q) && q < p0 && At(mem, q + 1) == p0
      modifies this
      ensures Valid() && brk == old(brk)
      ensures owner.Keys == old(owner).Keys && blocks.Keys - free == old(blocks.Keys - free)
      ensures forall h | h in Used() :: h in old(blocks) && blocks[h] == old(blocks)[h]
      ensures KeepsLive(old(owner), old(free), old(mem), mem)
    {
      NodeFacts(avail, mem, brk, blocks, owner, free, q);
      NodeFacts(avail, mem, brk, blocks, owner, free, p0);
      rover := p0;
      if p0 == q + mem[q] {
        MergeKeeps(avail, mem, brk, blocks, owner, free, q, p0);
        MergeCoalescesLeft(blocks, free, q, p0);
        mem := mem[q := mem[q] + mem[p0]];
        mem := mem[q + 1 := mem[p0 + 1]];
        blocks, owner, free := MergeBlocks(blocks, q, p0), MergeOwner(owner, q, p0), free - {p0};
        rover := q;
      } else {
        forall f, g ensures NotTouching(blocks, free, f, g) {
          assert (f == q && g == p0) || NotTouching(blocks, free, f, g);
        }
        assert KeepsLive(owner, free, mem, mem) by {
          assert forall w :: LiveWordKept(owner, free, mem, mem, w);
        }
      }
    }

    /** `free`: a block in use joins the free list and its free neighbours; a
        pointer into a block that is free already changes nothing. */
    method Free(px: int)
      requires Valid()
      requires px - 1 in Used() || (px - 1 in owner && owner[px - 1] in free)
      modifies this
      ensures Valid() && brk == old(brk) && owner.Keys == old(owner.Keys)
      ensures Used() == old(Used()) - {px - 1}
      ensures forall h | h in Used() :: blocks[h] == old(blocks)[h]
      ensures px - 1 in old(Used()) ==> KeepsLive(old(owner), old(free) + {px - 1}, old(mem), mem)
      ensures px - 1 !in old(Used()) ==> mem == old(mem) && free == old(free) && rover == old(rover)
    {
      var p0 := px - 1;
      var q := if p0 > rover then rover else avail;
      NodeFacts(avail, mem, brk, blocks, owner, free, q);
      if p0 in blocks {
        OwnsItself(blocks, owner, p0);
      }
      assert WordOk(avail, mem, brk, owner, p0);
      var p := mem[q + 1];
      while p != NULL && p <= p0
        invariant IsNode(avail, free, q) && q <= p0 && q in mem && q + 1 in mem && p == mem[q + 1]
        invariant IsNext(free, q, p)
        modifies {}
        decreases Above(free, q)
      {
        AboveShrinks(free, q, p);
        NodeFacts(avail, mem, brk, blocks, owner, free, p);
        q := p;
        p := mem[q + 1];
      }
      InsideOrBehind(q, p, p0);
      if p0 < q + mem[q] {
        return;
      }
      JoinRight(q, p, p0);
      ghost var owner1, free1, mem1 := owner, free, mem;
      JoinLeft(q, p0);
      KeepsLiveTwice(old(owner), old(free) + {p0}, owner1, free1, old(mem), mem1, mem);
    }

    /** `p0` starts a block in use exactly if it lies behind the end of `q`. */
    lemma InsideOrBehind(q: int, p: int, p0: int)
      requires ArenaOk(avail, mem, brk, blocks, owner, free) && IsNode(avail, free, q) && IsNext(free, q, p)
      requires q <= p0 && (p == NULL || p0 < p)
      requires p0 in Used() || (p0 in owner && owner[p0] in free)
      ensures q in mem && (p0 < q + mem[q] <==> p0 !in Used())
      ensures p0 in Used() ==> q < p0
    {
      NodeFacts(avail, mem, brk, blocks, owner, free, q);
      if p0 in Used() {
        OwnsItself(blocks, owner, p0);
        assert WordOk(avail, mem, brk, owner, p0);
        if q in free {
          BlocksDisjoint(blocks, owner, q, p0);
        }
      } else {
        assert Covered(blocks, owner, p0) && Skips(free, q, p, owner[p0]);
        assert WordOk(avail, mem, brk, owner, p0) && LinkOk(avail, mem, free, owner[p0]);
        if q in free && owner[p0] < q {
          BlocksDisjoint(blocks, owner, owner[p0], q);
        }
      }
    }
  
    /** The owner of a block in use stores into any word behind its header. */
    method Store(a: int, v: int)
      requires Valid() && a in owner && owner[a] in Used() && owner[a] != a
      modifies this`mem
      ensures Valid() && mem == old(mem)[a := v]
    {
      assert Covered(blocks, owner, a) && WordOk(avail, mem, brk, owner, a);
      forall b | IsNode(avail, free, b) || b in blocks ensures b != a && (IsNode(avail, free, b) ==> b + 1 != a) {
        assert WordOk(avail, mem, brk, owner, a);
        if b in blocks {
          OwnsItself(blocks, owner, b);
        }
      }
      ghost var mem0 := mem;
      mem := mem[a := v];
      LinksFrame(avail, mem0, mem, free);
      forall h ensures HeaderOk(mem, blocks, h) {
        assert HeaderOk(mem0, blocks, h);
      }
      forall w ensures WordOk(avail, mem, brk, owner, w) {
        assert WordOk(avail, mem0, brk, owner, w);
      }
    }
  }
}
