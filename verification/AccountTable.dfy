/** The accounting table of etc/sa.c: `enter`, `htaballoc`, and the merge of sorted chunks. */
module AccountTable {
  import opened QuadraticProbe

  const NHASH: nat := PRIME
  const HASHCLOGGED: nat := NHASH / 2
  const NONE: int := -1

  /** The size of a command name in an accounting record. */
  const NC: nat := 10

  type Name = seq<int>

  /** The part of a name that counts: up to its NUL, and no more than `NC` characters. */
  function Key(name: Name): (key: Name)
    ensures |key| <= NC
  {
    Cut(name, NC)
  }

  function Cut(name: Name, n: nat): (key: Name)
    ensures |key| <= n
  {
    if n == 0 || name == [] || name[0] == 0 then [] else [name[0]] + Cut(name[1..], n - 1)
  }

  /** A 32-bit word as a signed number. */
  function Signed(x: int): int
  {
    var w := x % 0x1_0000_0000;
    if w < 0x8000_0000 then w else w - 0x1_0000_0000
  }

  function Fold(key: Name): int
  {
    if key == [] then 0 else Signed(4 * Fold(key[..|key| - 1]) + key[|key| - 1])
  }

  /** The initial probe for a key; sign and remainder as in C, then made positive. */
  function HashOf(key: Name): (h: nat)
    requires key != []
    ensures h < NHASH
  {
    Signed(Fold(key) + 32 * key[|key| - 1]) % NHASH
  }

  /** A segment of the hash table: how many buckets are used, and the cell each one names. */
  datatype Segment = Segment(nused: nat, tab: seq<int>)

  // ---------------------------------------------------------------- one segment

  ghost predicate KeyOk(cells: seq<Name>, x: nat)
  {
    x < |cells| ==> cells[x] != [] && Key(cells[x]) == cells[x]
  }

  /** Probe `j` for a key meets some cell. */
  ghost predicate TakenAt(tab: seq<int>, h: nat, k: nat, j: nat)
    requires |tab| == NHASH
  {
    j < k ==> tab[Probe(h, j, NHASH)] != NONE
  }

  ghost predicate TakenBefore(tab: seq<int>, h: nat, k: nat)
    requires |tab| == NHASH
  {
    forall j: nat :: TakenAt(tab, h, k, j)
  }

  /** Bucket `b` is where probe `k` for its cell's key leads, behind other cells; and never the
      last probe, which is not compared. */
  ghost predicate Reached(tab: seq<int>, cells: seq<Name>, b: nat, k: nat)
    requires |tab| == NHASH && b < NHASH && 0 <= tab[b] < |cells| && cells[tab[b]] != []
  {
    k < HASHCLOGGED && b == Probe(HashOf(cells[tab[b]]), k, NHASH) && TakenBefore(tab, HashOf(cells[tab[b]]), k)
  }

  ghost predicate BucketOk(tab: seq<int>, cells: seq<Name>, b: nat)
    requires |tab| == NHASH
  {
    b < NHASH && tab[b] != NONE ==>
      && 0 <= tab[b] < |cells| && cells[tab[b]] != []
      && exists k: nat :: Reached(tab, cells, b, k)
  }

  ghost function Occupied(tab: seq<int>): set<nat>
  {
    set b | 0 <= b < |tab| && tab[b] != NONE
  }

  ghost predicate SegOk(seg: Segment, cells: seq<Name>)
  {
    && |seg.tab| == NHASH && seg.nused <= HASHCLOGGED && |Occupied(seg.tab)| == seg.nused
    && forall b: nat :: BucketOk(seg.tab, cells, b)
  }

  /** The cell of bucket `b` has another key. */
  ghost predicate OtherAt(tab: seq<int>, cells: seq<Name>, key: Name, b: nat)
  {
    b < |tab| && 0 <= tab[b] < |cells| ==> cells[tab[b]] != key
  }

  ghost predicate Absent(tab: seq<int>, cells: seq<Name>, key: Name)
  {
    forall b: nat :: OtherAt(tab, cells, key, b)
  }

  /** Probe `j` met a cell of another key. */
  ghost predicate PassedAt(tab: seq<int>, cells: seq<Name>, key: Name, k: nat, j: nat)
    requires |tab| == NHASH && key != []
  {
    j < k ==> var c := tab[Probe(HashOf(key), j, NHASH)]; 0 <= c < |cells| && cells[c] != key
  }

  lemma NotOnPath(tab: seq<int>, cells: seq<Name>, key: Name, k: nat, b: nat, l: nat)
    requires |tab| == NHASH && b < NHASH && 0 <= tab[b] < |cells| && cells[tab[b]] != [] && key != []
    requires Reached(tab, cells, b, l) && k <= HASHCLOGGED
    requires forall j: nat :: PassedAt(tab, cells, key, k, j)
    requires k < HASHCLOGGED ==> tab[Probe(HashOf(key), k, NHASH)] == NONE
    ensures cells[tab[b]] != key
  {
    assert PassedAt(tab, cells, key, k, l) && TakenAt(tab, HashOf(cells[tab[b]]), l, k);
  }

  /** A cell is found on its probe path or not at all. */
  lemma PassedIsAbsent(seg: Segment, cells: seq<Name>, key: Name, k: nat)
    requires SegOk(seg, cells) && key != [] && k <= HASHCLOGGED
    requires forall j: nat :: PassedAt(seg.tab, cells, key, k, j)
    requires k < HASHCLOGGED ==> seg.tab[Probe(HashOf(key), k, NHASH)] == NONE
    ensures Absent(seg.tab, cells, key) && TakenBefore(seg.tab, HashOf(key), k)
  {
    forall b: nat ensures OtherAt(seg.tab, cells, key, b) {
      assert BucketOk(seg.tab, cells, b);
      if b < NHASH && seg.tab[b] != NONE && cells[seg.tab[b]] == key {
        var l: nat :| Reached(seg.tab, cells, b, l);
        NotOnPath(seg.tab, cells, key, k, b, l);
      }
    }
    forall j: nat ensures TakenAt(seg.tab, HashOf(key), k, j) {
      assert PassedAt(seg.tab, cells, key, k, j);
    }
  }

  /** With room left in the segment, a probe that is compared finds an empty bucket. */
  lemma RoomOnPath(seg: Segment, cells: seq<Name>, h: nat)
    requires SegOk(seg, cells) && seg.nused < HASHCLOGGED
    ensures !TakenBefore(seg.tab, h, HASHCLOGGED)
  {
    var k := SomeProbeEmpty(h, HASHCLOGGED, NHASH, Occupied(seg.tab));
    assert !TakenAt(seg.tab, h, HASHCLOGGED, k);
  }

  /** A new cell, the last, put where the first empty bucket on its path is. */
  lemma PutKeeps(seg: Segment, cells: seq<Name>, key: Name, k: nat)
    requires SegOk(seg, cells) && seg.nused < HASHCLOGGED && key != [] && k < HASHCLOGGED
    requires TakenBefore(seg.tab, HashOf(key), k) && seg.tab[Probe(HashOf(key), k, NHASH)] == NONE
    ensures SegOk(Segment(seg.nused + 1, seg.tab[Probe(HashOf(key), k, NHASH) := |cells|]), cells + [key])
  {
    var p, cells' := Probe(HashOf(key), k, NHASH), cells + [key];
    var tab' := seg.tab[p := |cells|];
    assert Occupied(tab') == Occupied(seg.tab) + {p};
    forall b: nat ensures BucketOk(tab', cells', b) {
      assert BucketOk(seg.tab, cells, b);
      if b == p {
        TakenStays(seg.tab, tab', HashOf(key), k);
        assert Reached(tab', cells', b, k);
      } else if b < NHASH && tab'[b] != NONE {
        var l: nat :| Reached(seg.tab, cells, b, l);
        TakenStays(seg.tab, tab', HashOf(cells[seg.tab[b]]), l);
        assert Reached(tab', cells', b, l);
      }
    }
  }

  lemma TakenStays(tab: seq<int>, tab': seq<int>, h: nat, k: nat)
    requires |tab| == |tab'| == NHASH && TakenBefore(tab, h, k)
    requires forall b: nat | b < NHASH && tab[b] != NONE :: tab'[b] != NONE
    ensures TakenBefore(tab', h, k)
  {
    forall j: nat ensures TakenAt(tab', h, k, j) {
      assert TakenAt(tab, h, k, j);
    }
  }

  /** Another segment's new cell does not matter here. */
  lemma MoreCells(seg: Segment, cells: seq<Name>, key: Name)
    requires SegOk(seg, cells)
    ensures SegOk(seg, cells + [key])
  {
    forall b: nat ensures BucketOk(seg.tab, cells + [key], b) {
      assert BucketOk(seg.tab, cells, b);
      if b < NHASH && seg.tab[b] != NONE {
        var l: nat :| Reached(seg.tab, cells, b, l);
        assert Reached(seg.tab, cells + [key], b, l);
      }
    }
  }

  lemma KeyOfKey(name: Name, n: nat)
    ensures Cut(Cut(name, n), n) == Cut(name, n)
  {
    if n > 0 && name != [] && name[0] != 0 {
      KeyOfKey(name[1..], n - 1);
      assert Cut(name, n)[1..] == Cut(name[1..], n - 1);
    }
  }

  /** Character `0` of a string that ends with its NUL. */
  function First(s: Name): int
  {
    if s == [] then 0 else s[0]
  }

  /** Two names agree on their first `n` characters, or up to a NUL before. */
  ghost predicate SameFirst(a: Name, b: Name, n: nat)
  {
    n > 0 ==> First(a) == First(b) && (First(a) != 0 ==> SameFirst(a[1..], b[1..], n - 1))
  }

  lemma {:induction false} KeysAgree(a: Name, b: Name, n: nat)
    ensures Cut(a, n) == Cut(b, n) <==> SameFirst(a, b, n)
  {
    if n > 0 && First(a) == First(b) != 0 {
      KeysAgree(a[1..], b[1..], n - 1);
      assert Cut(a, n)[1..] == Cut(a[1..], n - 1) && Cut(b, n)[1..] == Cut(b[1..], n - 1);
    } else if n > 0 {
      assert First(a) != 0 ==> Cut(a, n)[0] == First(a);
      assert First(b) != 0 ==> Cut(b, n)[0] == First(b);
    }
  }

  // ---------------------------------------------------------------- the whole table

  ghost predicate SegAt(segs: seq<Segment>, cells: seq<Name>, g: nat)
  {
    g < |segs| ==> SegOk(segs[g], cells)
  }

  ghost predicate Holds(segs: seq<Segment>, x: int, g: nat, b: nat)
  {
    g < |segs| && b < |segs[g].tab| && segs[g].tab[b] == x
  }

  /** Cell `x` can be reached from the hash table. */
  ghost predicate PlacedAt(segs: seq<Segment>, cells: seq<Name>, x: nat)
  {
    x < |cells| ==> exists g: nat, b: nat :: Holds(segs, x, g, b)
  }

  ghost predicate NamesDiffer(cells: seq<Name>, x: nat, y: nat)
  {
    x < y < |cells| ==> cells[x] != cells[y]
  }

  ghost predicate TableOk(segs: seq<Segment>, cells: seq<Name>)
  {
    && segs != []
    && (forall g: nat :: SegAt(segs, cells, g))
    && (forall x: nat :: KeyOk(cells, x))
    && (forall x: nat :: PlacedAt(segs, cells, x))
    && (forall x: nat, y: nat :: NamesDiffer(cells, x, y))
  }

  ghost predicate AbsentBefore(segs: seq<Segment>, cells: seq<Name>, key: Name, n: nat, g: nat)
  {
    g < n && g < |segs| ==> Absent(segs[g].tab, cells, key)
  }

  lemma AbsentFromCells(segs: seq<Segment>, cells: seq<Name>, key: Name)
    requires TableOk(segs, cells) && forall g: nat :: AbsentBefore(segs, cells, key, |segs|, g)
    ensures key !in cells
  {
    forall x: nat | x < |cells| ensures cells[x] != key {
      assert PlacedAt(segs, cells, x);
      var g: nat, b: nat :| Holds(segs, x, g, b);
      assert AbsentBefore(segs, cells, key, |segs|, g) && OtherAt(segs[g].tab, cells, key, b);
    }
  }

  /** The segment after a new cell. */
  function Put(seg: Segment, p: nat, x: nat): Segment
    requires p < |seg.tab|
  {
    Segment(seg.nused + 1, seg.tab[p := x])
  }

  lemma InstallKeeps(segs: seq<Segment>, cells: seq<Name>, key: Name, g: nat, k: nat)
    requires TableOk(segs, cells) && key != [] && Key(key) == key && key !in cells
    requires g < |segs| && |segs[g].tab| == NHASH && segs[g].nused < HASHCLOGGED && k < HASHCLOGGED
    requires TakenBefore(segs[g].tab, HashOf(key), k) && segs[g].tab[Probe(HashOf(key), k, NHASH)] == NONE
    ensures TableOk(segs[g := Put(segs[g], Probe(HashOf(key), k, NHASH), |cells|)], cells + [key])
  {
    var p, cells' := Probe(HashOf(key), k, NHASH), cells + [key];
    var segs' := segs[g := Put(segs[g], p, |cells|)];
    assert SegAt(segs, cells, g);
    PutKeeps(segs[g], cells, key, k);
    forall g2: nat ensures SegAt(segs', cells', g2) {
      assert SegAt(segs, cells, g2);
      if g2 < |segs| && g2 != g {
        MoreCells(segs[g2], cells, key);
      }
    }
    forall x: nat ensures KeyOk(cells', x) {
      assert KeyOk(cells, x);
    }
    forall x: nat ensures PlacedAt(segs', cells', x) {
      assert PlacedAt(segs, cells, x);
      if x < |cells| {
        var g2: nat, b: nat :| Holds(segs, x, g2, b);
        assert Holds(segs', x, g2, b);
      } else if x == |cells| {
        assert Holds(segs', x, g, p);
      }
    }
    forall x: nat, y: nat ensures NamesDiffer(cells', x, y) {
      assert NamesDiffer(cells, x, y);
    }
  }

  function NewSegment(): Segment
  {
    Segment(0, seq(NHASH, _ => NONE))
  }

  lemma NewSegmentOk(cells: seq<Name>)
    ensures SegOk(NewSegment(), cells)
  {
    forall b: nat ensures BucketOk(NewSegment().tab, cells, b) {
    }
    assert Occupied(NewSegment().tab) == {};
  }

  lemma AllocKeeps(segs: seq<Segment>, cells: seq<Name>)
    requires TableOk(segs, cells)
    ensures TableOk([segs[0], NewSegment()] + segs[1..], cells)
  {
    var segs' := [segs[0], NewSegment()] + segs[1..];
    NewSegmentOk(cells);
    forall g: nat ensures SegAt(segs', cells, g) {
      assert SegAt(segs, cells, g) && SegAt(segs, cells, if g > 0 then g - 1 else 0);
    }
    forall x: nat ensures PlacedAt(segs', cells, x) {
      assert PlacedAt(segs, cells, x);
      if x < |cells| {
        var g: nat, b: nat :| Holds(segs, x, g, b);
        assert Holds(segs', x, if g == 0 then 0 else g + 1, b);
      }
    }
  }

  ghost predicate PassedUpto(tab: seq<int>, cells: seq<Name>, key: Name, k: nat)
    requires |tab| == NHASH && key != []
  {
    forall j: nat :: PassedAt(tab, cells, key, k, j)
  }

  lemma PassedMore(tab: seq<int>, cells: seq<Name>, key: Name, k: nat, next: nat)
    requires |tab| == NHASH && key != [] && next == k + 1 && PassedUpto(tab, cells, key, k)
    requires var c := tab[Probe(HashOf(key), k, NHASH)]; 0 <= c < |cells| && cells[c] != key
    ensures PassedUpto(tab, cells, key, next)
  {
    forall j: nat ensures PassedAt(tab, cells, key, next, j) {
      assert PassedAt(tab, cells, key, k, j);
    }
  }

  datatype Found = Hit(cell: nat) | Miss(k: nat)

  /** The inner loop of `enter`, over one segment. */
  method ProbeSegment(seg: Segment, cells: seq<Name>, key: Name) returns (r: Found)
    requires SegOk(seg, cells) && key != []
    ensures r.Hit? ==> r.cell < |cells| && cells[r.cell] == key
    ensures r.Miss? ==> Absent(seg.tab, cells, key) && r.k <= HASHCLOGGED && TakenBefore(seg.tab, HashOf(key), r.k)
    ensures r.Miss? && r.k < HASHCLOGGED ==> seg.tab[Probe(HashOf(key), r.k, NHASH)] == NONE
  {
    var hp, nprobes := HashOf(key), 1;
    ghost var k: nat := 0;
    while seg.tab[hp] != NONE && nprobes < NHASH
      invariant k <= HASHCLOGGED && nprobes == 2 * k + 1 && hp == Probe(HashOf(key), k, NHASH)
      invariant PassedUpto(seg.tab, cells, key, k)
      decreases NHASH - nprobes
    {
      assert BucketOk(seg.tab, cells, hp);
      if cells[seg.tab[hp]] == key {
        return Hit(seg.tab[hp]);
      }
      ghost var next := k + 1;
      PassedMore(seg.tab, cells, key, k, next);
      NextProbe(HashOf(key), k, NHASH);
      hp := hp + nprobes;
      if hp >= NHASH {
        hp := hp - NHASH;
      }
      nprobes := nprobes + 2;
      k := next;
    }
    PassedIsAbsent(seg, cells, key, k);
    return Miss(nprobes / 2);
  }

  class AcctTable {
    var segs: seq<Segment>
    var cells: seq<Name>

    ghost predicate Valid()
      reads this
    {
      TableOk(segs, cells)
    }

    /** `tabinit`. */
    constructor ()
      ensures Valid() && cells == []
    {
      segs, cells := [NewSegment()], [];
      new;
      NewSegmentOk(cells);
    }

    /** The loop of `enter` over the segments: a cell, or the first segment with room. */
    method Search(key: Name) returns (r: Found, g: nat)
      requires Valid() && key != []
      ensures r.Hit? <==> key in cells
      ensures r.Hit? ==> r.cell < |cells| && cells[r.cell] == key
      ensures r.Miss? ==> g <= |segs|
      ensures r.Miss? && g < |segs| ==>
                && |segs[g].tab| == NHASH && segs[g].nused < HASHCLOGGED && r.k < HASHCLOGGED
                && TakenBefore(segs[g].tab, HashOf(key), r.k) && segs[g].tab[Probe(HashOf(key), r.k, NHASH)] == NONE
    {
      g, r := |segs|, Miss(0);
      var i := 0;
      while i < |segs|
        invariant i <= |segs| && g <= |segs| && r.Miss?
        invariant forall h: nat :: AbsentBefore(segs, cells, key, i, h)
        invariant g < |segs| ==>
                    && |segs[g].tab| == NHASH && segs[g].nused < HASHCLOGGED && r.k < HASHCLOGGED
                    && TakenBefore(segs[g].tab, HashOf(key), r.k)
                    && segs[g].tab[Probe(HashOf(key), r.k, NHASH)] == NONE
      {
        assert SegAt(segs, cells, i);
        var f := ProbeSegment(segs[i], cells, key);
        if f.Hit? {
          return f, i;
        }
        ghost var next := i + 1;
        forall h: nat ensures AbsentBefore(segs, cells, key, next, h) {
          assert AbsentBefore(segs, cells, key, i, h);
        }
        var hp := Probe(HashOf(key), f.k, NHASH);
        if segs[i].tab[hp] == NONE && g == |segs| && segs[i].nused < HASHCLOGGED {
          RoomOnPath(segs[i], cells, HashOf(key));
          g, r := i, f;
        }
        i := i + 1;
      }
      AbsentFromCells(segs, cells, key);
    }

    /** `enter`: the cell of a name; a new one for a new name, if cells are to be installed. */
    method Enter(name: Name, htabinstall: bool) returns (cell: int)
      requires Valid() && name != [] && name[0] != 0
      modifies this
      ensures Valid()
      ensures Key(name) in old(cells) ==> cells == old(cells) && 0 <= cell < |cells| && cells[cell] == Key(name)
      ensures Key(name) !in old(cells) && htabinstall ==> cell == |old(cells)| && cells == old(cells) + [Key(name)]
      ensures Key(name) !in old(cells) && !htabinstall ==> cell == NONE && cells == old(cells)
    {
      var key := Key(name);
      var r, g := Search(key);
      if r.Hit? {
        return r.cell;
      }
      var k := r.k;
      if g == |segs| {
        AllocKeeps(segs, cells);
        segs := [segs[0], NewSegment()] + segs[1..];
        g, k := 1, 0;
      }
      if !htabinstall {
        return NONE;
      }
      KeyOfKey(name, NC);
      InstallKeeps(segs, cells, key, g, k);
      segs := segs[g := Put(segs[g], Probe(HashOf(key), k, NHASH), |cells|)];
      cells := cells + [key];
      return |cells| - 1;
    }
  }

  // ---------------------------------------------------------------- merging sorted chunks

  /** A table element: which one, and its rank in the order in force. */
  datatype Cell = Cell(id: int, rank: int)

  ghost predicate RankedAt(q: seq<Cell>, i: nat, j: nat)
  {
    i < j < |q| ==> q[i].rank <= q[j].rank
  }

  ghost predicate Ranked(q: seq<Cell>)
  {
    forall i: nat, j: nat :: RankedAt(q, i, j)
  }

  /** A queue that is sorted, not drained, and has nothing below `low`. */
  ghost predicate QueueAt(queues: seq<seq<Cell>>, low: seq<Cell>, i: nat)
  {
    i < |queues| ==>
      && queues[i] != [] && Ranked(queues[i])
      && (low != [] ==> low[|low| - 1].rank <= queues[i][0].rank)
  }

  ghost function CountIn(q: seq<Cell>, c: Cell): nat
  {
    multiset(q)[c]
  }

  /** How often `c` occurs in all queues. */
  ghost function Total(queues: seq<seq<Cell>>, c: Cell): nat
  {
    if queues == [] then 0 else Total(queues[..|queues| - 1], c) + CountIn(queues[|queues| - 1], c)
  }

  ghost predicate Conserved(queues: seq<seq<Cell>>, out: seq<Cell>, all: seq<seq<Cell>>, c: Cell)
  {
    CountIn(out, c) + Total(queues, c) == Total(all, c)
  }

  lemma {:induction false} TotalChanged(queues: seq<seq<Cell>>, i: nat, q: seq<Cell>, c: Cell)
    requires i < |queues|
    ensures Total(queues[i := q], c) + CountIn(queues[i], c) == Total(queues, c) + CountIn(q, c)
    decreases |queues|
  {
    var n: nat := |queues| - 1;
    if i == n {
      assert queues[i := q][..n] == queues[..n];
    } else {
      TotalChanged(queues[..n], i, q, c);
      assert queues[i := q][..n] == queues[..n][i := q];
    }
  }

  lemma {:induction false} TotalDropped(queues: seq<seq<Cell>>, i: nat, c: Cell)
    requires i < |queues|
    ensures Total(queues[..i] + queues[i + 1..], c) + CountIn(queues[i], c) == Total(queues, c)
    decreases |queues|
  {
    var n: nat := |queues| - 1;
    var rest := queues[..i] + queues[i + 1..];
    if i == n {
      assert rest == queues[..n];
    } else {
      TotalDropped(queues[..n], i, c);
      assert rest[..n - 1] == queues[..n][..i] + queues[..n][i + 1..];
      assert rest[n - 1] == queues[n];
    }
  }

  lemma CountMore(q: seq<Cell>, d: Cell, c: Cell)
    ensures CountIn(q + [d], c) == CountIn(q, c) + (if c == d then 1 else 0)
  {
    assert multiset(q + [d]) == multiset(q) + multiset{d};
  }

  lemma CountLess(q: seq<Cell>, c: Cell)
    requires q != []
    ensures CountIn(q, c) == CountIn(q[1..], c) + (if c == q[0] then 1 else 0)
  {
    assert q == [q[0]] + q[1..];
  }

  /** The queue with the smallest head, the first of them if there are several. */
  method Smallest(queues: seq<seq<Cell>>) returns (smallest: nat)
    requires queues != [] && forall i: nat :: QueueAt(queues, [], i)
    ensures smallest < |queues| && queues[smallest] != []
    ensures forall i: nat :: HeadAbove(queues, smallest, |queues|, i)
  {
    smallest := 0;
    assert QueueAt(queues, [], 0);
    for i := 1 to |queues|
      invariant smallest < i && queues[smallest] != []
      invariant forall j: nat :: HeadAbove(queues, smallest, i, j)
    {
      assert QueueAt(queues, [], i);
      ghost var was, next := smallest, i + 1;
      if queues[i][0].rank < queues[smallest][0].rank {
        smallest := i;
      }
      forall j: nat ensures HeadAbove(queues, smallest, next, j) {
        assert HeadAbove(queues, was, i, j);
      }
    }
  }

  ghost predicate HeadAbove(queues: seq<seq<Cell>>, s: nat, n: nat, i: nat)
  {
    i < n && i < |queues| && s < |queues| && queues[s] != [] && queues[i] != [] ==>
      queues[s][0].rank <= queues[i][0].rank
  }

  /** The queues without the head of queue `s`, and without that queue if it is drained. */
  function Advance(queues: seq<seq<Cell>>, s: nat): seq<seq<Cell>>
    requires s < |queues| && queues[s] != []
  {
    if |queues[s]| == 1 then queues[..s] + queues[s + 1..] else queues[s := queues[s][1..]]
  }

  lemma AdvanceConserves(queues: seq<seq<Cell>>, s: nat, out: seq<Cell>, all: seq<seq<Cell>>, c: Cell)
    requires s < |queues| && queues[s] != [] && Conserved(queues, out, all, c)
    ensures Conserved(Advance(queues, s), out + [queues[s][0]], all, c)
  {
    CountMore(out, queues[s][0], c);
    CountLess(queues[s], c);
    if |queues[s]| == 1 {
      TotalDropped(queues, s, c);
      assert queues[s][1..] == [];
    } else {
      TotalChanged(queues, s, queues[s][1..], c);
    }
  }

  lemma AdvanceInOrder(queues: seq<seq<Cell>>, s: nat, out: seq<Cell>)
    requires Ranked(out) && forall i: nat :: QueueAt(queues, out, i)
    requires s < |queues| && queues[s] != [] && forall i: nat :: HeadAbove(queues, s, |queues|, i)
    ensures Ranked(out + [queues[s][0]])
    ensures forall i: nat :: QueueAt(Advance(queues, s), out + [queues[s][0]], i)
  {
    var out', queues' := out + [queues[s][0]], Advance(queues, s);
    assert QueueAt(queues, out, s);
    forall i: nat, j: nat ensures RankedAt(out', i, j) {
      assert RankedAt(out, i, j) && (out != [] ==> RankedAt(out, i, |out| - 1));
    }
    forall i: nat ensures QueueAt(queues', out', i) {
      var k := if |queues[s]| == 1 && i >= s then i + 1 else i;
      assert QueueAt(queues, out, k) && HeadAbove(queues, s, |queues|, k);
      if k == s && |queues[s]| > 1 {
        assert RankedAt(queues[s], 0, 1);
        forall a: nat, b: nat ensures RankedAt(queues[s][1..], a, b) {
          assert RankedAt(queues[s], a + 1, b + 1);
        }
      }
    }
  }

  /** The merge at the end of `main`: every element of the sorted chunks once, in order. */
  method Merge(chunks: seq<seq<Cell>>) returns (out: seq<Cell>)
    requires forall i: nat :: QueueAt(chunks, [], i)
    ensures Ranked(out)
    ensures forall c: Cell :: CountIn(out, c) == Total(chunks, c)
  {
    out := [];
    var queues := chunks;
    ghost var left := Cells(chunks);
    while queues != []
      invariant Ranked(out) && left == Cells(queues)
      invariant forall i: nat :: QueueAt(queues, out, i)
      invariant forall c: Cell :: Conserved(queues, out, chunks, c)
      decreases left
    {
      NoFloor(queues, out);
      var smallest := Smallest(queues);
      AdvanceInOrder(queues, smallest, out);
      AdvanceShrinks(queues, smallest);
      forall c: Cell ensures Conserved(Advance(queues, smallest), out + [queues[smallest][0]], chunks, c) {
        AdvanceConserves(queues, smallest, out, chunks, c);
      }
      out := out + [queues[smallest][0]];
      queues := Advance(queues, smallest);
      left := Cells(queues);
    }
    forall c: Cell ensures CountIn(out, c) == Total(chunks, c) {
      assert Conserved(queues, out, chunks, c);
    }
  }

  ghost function Cells(queues: seq<seq<Cell>>): nat
  {
    if queues == [] then 0 else Cells(queues[..|queues| - 1]) + |queues[|queues| - 1]|
  }

  lemma NoFloor(queues: seq<seq<Cell>>, out: seq<Cell>)
    requires forall i: nat :: QueueAt(queues, out, i)
    ensures forall i: nat :: QueueAt(queues, [], i)
  {
    forall i: nat ensures QueueAt(queues, [], i) {
      assert QueueAt(queues, out, i);
    }
  }

  lemma {:induction false} AdvanceShrinks(queues: seq<seq<Cell>>, s: nat)
    requires s < |queues| && queues[s] != []
    ensures Cells(Advance(queues, s)) < Cells(queues)
    decreases |queues|
  {
    var n: nat := |queues| - 1;
    var queues' := Advance(queues, s);
    if s < n {
      AdvanceShrinks(queues[..n], s);
      assert queues'[|queues'| - 1] == queues[n];
      assert queues'[..|queues'| - 1] == Advance(queues[..n], s);
    } else if |queues[s]| == 1 {
      assert queues' == queues[..n];
    } else {
      assert queues'[..n] == queues[..n];
    }
  }
}
