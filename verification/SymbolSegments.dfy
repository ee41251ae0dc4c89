/** One segment of the symbol table of bin/ld.c: the symbols in the order they were
    entered, and a hash table of twice as many buckets. */
module SymbolSegments {
  import opened QuadraticProbe

  const NSYM: nat := PRIME
  const HSIZE: nat := 2 * PRIME
  const NONE: int := -1

  type Name = seq<int>

  /** `sh = (sh << 1) + c` over the characters of a name, in a 32-bit word. */
  function Fold(name: Name): (sh: int)
    ensures 0 <= sh < 0x1_0000_0000
  {
    if name == [] then 0 else (2 * Fold(name[..|name| - 1]) + name[|name| - 1]) % 0x1_0000_0000
  }

  function HashOf(name: Name): (h: nat)
    ensures h < HSIZE
  {
    Fold(name) % 0x8000_0000 % HSIZE
  }

  datatype Symbol = Symbol(name: Name, typ: nat, value: nat, hash: nat)

  /** A bucket holds the number of a symbol of the segment, or `NONE`. */
  datatype Segment = Segment(syms: seq<Symbol>, hash: seq<int>)

  /** Probe `j` for the name of symbol `i` met an older symbol. */
  ghost predicate Older(seg: Segment, i: nat, k: nat, j: nat)
    requires i < |seg.syms| && |seg.hash| == HSIZE
  {
    j < k ==> 0 <= seg.hash[Probe(HashOf(seg.syms[i].name), j, HSIZE)] < i
  }

  /** Symbol `i` sits where probe `k` for its name leads, behind older symbols. */
  ghost predicate Chain(seg: Segment, i: nat, k: nat)
    requires i < |seg.syms| && |seg.hash| == HSIZE
  {
    && k < NSYM && seg.syms[i].hash == Probe(HashOf(seg.syms[i].name), k, HSIZE)
    && forall j: nat :: Older(seg, i, k, j)
  }

  ghost predicate SymOk(seg: Segment, i: nat)
    requires |seg.hash| == HSIZE
  {
    i < |seg.syms| ==>
      && seg.syms[i].hash < HSIZE && seg.hash[seg.syms[i].hash] == i
      && exists k: nat :: Chain(seg, i, k)
  }

  ghost predicate BucketOk(seg: Segment, b: nat)
  {
    b < |seg.hash| ==>
      && NONE <= seg.hash[b] < |seg.syms|
      && (seg.hash[b] != NONE ==> seg.syms[seg.hash[b]].hash == b)
  }

  ghost predicate NamesDiffer(seg: Segment, i: nat, j: nat)
  {
    i < j < |seg.syms| ==> seg.syms[i].name != seg.syms[j].name
  }

  ghost predicate SegOk(seg: Segment)
  {
    && |seg.hash| == HSIZE && |seg.syms| <= NSYM
    && (forall i: nat :: SymOk(seg, i))
    && (forall b: nat :: BucketOk(seg, b))
    && (forall i: nat, j: nat :: NamesDiffer(seg, i, j))
  }

  ghost predicate NamedOther(seg: Segment, name: Name, i: nat)
  {
    i < |seg.syms| ==> seg.syms[i].name != name
  }

  ghost predicate Absent(seg: Segment, name: Name)
  {
    forall i: nat :: NamedOther(seg, name, i)
  }

  ghost predicate Taken(seg: Segment, h: nat, k: nat)
    requires |seg.hash| == HSIZE
  {
    seg.hash[Probe(h, k, HSIZE)] != NONE
  }

  ghost predicate TakenBefore(seg: Segment, h: nat, k: nat, j: nat)
    requires |seg.hash| == HSIZE
  {
    j < k ==> Taken(seg, h, j)
  }

  /** Probe `k` finds the first empty bucket. */
  ghost predicate FirstEmpty(seg: Segment, h: nat, k: nat)
    requires |seg.hash| == HSIZE
  {
    k < NSYM && !Taken(seg, h, k) && forall j: nat :: TakenBefore(seg, h, k, j)
  }

  /** Every probe meets a symbol. */
  ghost predicate Saturated(seg: Segment, h: nat)
    requires |seg.hash| == HSIZE
  {
    forall j: nat :: TakenBefore(seg, h, NSYM, j)
  }

  // ---------------------------------------------------------------- entering and backing out

  function Empty(): (seg: Segment)
  {
    Segment([], seq(HSIZE, _ => NONE))
  }

  lemma EmptyOk()
    ensures SegOk(Empty())
  {
    forall i: nat ensures SymOk(Empty(), i) {
    }
    forall b: nat ensures BucketOk(Empty(), b) {
    }
    forall i: nat, j: nat ensures NamesDiffer(Empty(), i, j) {
    }
  }

  function Add(seg: Segment, sym: Symbol): Segment
    requires sym.hash < |seg.hash|
  {
    Segment(seg.syms + [sym], seg.hash[sym.hash := |seg.syms|])
  }

  lemma AddOk(seg: Segment, sym: Symbol, k: nat)
    requires SegOk(seg) && |seg.syms| < NSYM && Absent(seg, sym.name)
    requires FirstEmpty(seg, HashOf(sym.name), k) && sym.hash == Probe(HashOf(sym.name), k, HSIZE)
    ensures SegOk(Add(seg, sym))
  {
    var seg', n := Add(seg, sym), |seg.syms|;
    forall i: nat ensures SymOk(seg', i) {
      assert SymOk(seg, i);
      if i < n {
        var l: nat :| Chain(seg, i, l);
        assert Chain(seg', i, l) by {
          forall j: nat ensures Older(seg', i, l, j) {
            assert Older(seg, i, l, j);
          }
        }
      } else if i == n {
        assert Chain(seg', n, k) by {
          forall j: nat ensures Older(seg', n, k, j) {
            assert TakenBefore(seg, HashOf(sym.name), k, j);
            assert BucketOk(seg, Probe(HashOf(sym.name), j, HSIZE));
          }
        }
      }
    }
    forall b: nat ensures BucketOk(seg', b) {
      assert BucketOk(seg, b);
    }
    forall i: nat, j: nat ensures NamesDiffer(seg', i, j) {
      assert NamesDiffer(seg, i, j) && NamedOther(seg, sym.name, i);
    }
  }

  function Drop(seg: Segment): Segment
    requires |seg.syms| > 0 && seg.syms[|seg.syms| - 1].hash < |seg.hash|
  {
    var n := |seg.syms| - 1;
    Segment(seg.syms[..n], seg.hash[seg.syms[n].hash := NONE])
  }

  /** Backing out the newest symbol breaks no probe chain. */
  lemma DropOk(seg: Segment)
    requires SegOk(seg) && |seg.syms| > 0
    ensures seg.syms[|seg.syms| - 1].hash < HSIZE && SegOk(Drop(seg))
  {
    var n := |seg.syms| - 1;
    assert SymOk(seg, n);
    var seg' := Drop(seg);
    forall i: nat ensures SymOk(seg', i) {
      assert SymOk(seg, i);
      if i < n {
        var l: nat :| Chain(seg, i, l);
        assert Chain(seg', i, l) by {
          forall j: nat ensures Older(seg', i, l, j) {
            assert Older(seg, i, l, j);
          }
        }
      }
    }
    forall b: nat ensures BucketOk(seg', b) {
      assert BucketOk(seg, b);
    }
    forall i: nat, j: nat ensures NamesDiffer(seg', i, j) {
      assert NamesDiffer(seg, i, j);
    }
  }

  /** Adding a symbol and backing it out again gives the segment back. */
  lemma DropUndoesAdd(seg: Segment, sym: Symbol)
    requires sym.hash < |seg.hash| && seg.hash[sym.hash] == NONE
    ensures Drop(Add(seg, sym)) == seg
  {
    assert (seg.syms + [sym])[..|seg.syms|] == seg.syms;
    assert seg.hash[sym.hash := |seg.syms|][sym.hash := NONE] == seg.hash;
  }

  /** A new type and value leave the table in order. */
  function Redefine(seg: Segment, i: nat, typ: nat, value: nat): Segment
    requires i < |seg.syms|
  {
    seg.(syms := seg.syms[i := seg.syms[i].(typ := typ, value := value)])
  }

  lemma RedefineOk(seg: Segment, i: nat, typ: nat, value: nat)
    requires SegOk(seg) && i < |seg.syms|
    ensures SegOk(Redefine(seg, i, typ, value))
  {
    var seg' := Redefine(seg, i, typ, value);
    forall l: nat ensures SymOk(seg', l) {
      assert SymOk(seg, l);
      if l < |seg.syms| {
        var k: nat :| Chain(seg, l, k);
        assert Chain(seg', l, k) by {
          forall j: nat ensures Older(seg', l, k, j) {
            assert Older(seg, l, k, j);
          }
        }
      }
    }
    forall b: nat ensures BucketOk(seg', b) {
      assert BucketOk(seg, b);
    }
    forall l: nat, j: nat ensures NamesDiffer(seg', l, j) {
      assert NamesDiffer(seg, l, j);
    }
  }

  // ---------------------------------------------------------------- how full a segment is

  ghost function Occupied(seg: Segment): set<nat>
  {
    set b | 0 <= b < |seg.hash| && seg.hash[b] != NONE
  }

  lemma {:induction false} OccupiedCount(seg: Segment)
    requires SegOk(seg)
    ensures |Occupied(seg)| == |seg.syms|
    decreases |seg.syms|
  {
    if |seg.syms| == 0 {
      forall b: nat ensures b !in Occupied(seg) {
        assert BucketOk(seg, b);
      }
      assert Occupied(seg) == {};
    } else {
      DropOk(seg);
      OccupiedCount(Drop(seg));
      var b := seg.syms[|seg.syms| - 1].hash;
      assert SymOk(seg, |seg.syms| - 1);
      assert Occupied(seg) == Occupied(Drop(seg)) + {b};
    }
  }

  /** A segment that is not full has an empty bucket on every probe path. */
  lemma NotFullHasEmpty(seg: Segment, h: nat)
    requires SegOk(seg) && |seg.syms| < NSYM
    ensures !Saturated(seg, h)
  {
    OccupiedCount(seg);
    var k := SomeProbeEmpty(h, NSYM, HSIZE, Occupied(seg));
    assert !TakenBefore(seg, h, NSYM, k);
  }

  /** A full segment saturates a hash value all of whose names it is made of. */
  lemma CollisionsSaturate(seg: Segment, h: nat)
    requires SegOk(seg) && |seg.syms| == NSYM
    requires forall i: nat | i < NSYM :: HashOf(seg.syms[i].name) == h
    ensures Saturated(seg, h)
  {
    OccupiedCount(seg);
    forall b | b in Occupied(seg) ensures b in Probed(h, NSYM, HSIZE) {
      assert BucketOk(seg, b);
      var i := seg.hash[b];
      assert SymOk(seg, i);
      var k: nat :| Chain(seg, i, k);
      ProbedHas(h, NSYM, HSIZE, k);
    }
    forall j: nat ensures TakenBefore(seg, h, NSYM, j) {
      if j < NSYM {
        AllProbesOccupied(h, NSYM, HSIZE, Occupied(seg), j);
      }
    }
  }

  // ---------------------------------------------------------------- searching

  datatype Outcome = At(b: nat) | Vacant(b: nat) | AllTaken

  /** Probe `j` for `name` met a symbol of another name. */
  ghost predicate Passed(seg: Segment, name: Name, k: nat, j: nat)
    requires |seg.hash| == HSIZE
  {
    j < k ==>
      var i := seg.hash[Probe(HashOf(name), j, HSIZE)];
      0 <= i < |seg.syms| && seg.syms[i].name != name
  }

  /** A symbol is found on its probe path or nowhere. */
  lemma MissedIsAbsent(seg: Segment, name: Name, k: nat)
    requires SegOk(seg) && k <= NSYM && forall j: nat :: Passed(seg, name, k, j)
    requires k < NSYM ==> !Taken(seg, HashOf(name), k)
    ensures Absent(seg, name)
    ensures if k < NSYM then FirstEmpty(seg, HashOf(name), k) else Saturated(seg, HashOf(name))
  {
    forall i: nat ensures NamedOther(seg, name, i) {
      assert SymOk(seg, i);
      if i < |seg.syms| {
        var l: nat :| Chain(seg, i, l);
        assert Passed(seg, name, k, l) && Older(seg, i, l, k);
      }
    }
    forall j: nat ensures TakenBefore(seg, HashOf(name), k, j) {
      assert Passed(seg, name, k, j);
    }
  }

  /** The inner loop of `lookup`, over the buckets of one segment. */
  method Search(seg: Segment, name: Name) returns (r: Outcome)
    requires SegOk(seg)
    ensures r.At? ==> r.b < HSIZE && 0 <= seg.hash[r.b] < |seg.syms| && seg.syms[seg.hash[r.b]].name == name
    ensures r.Vacant? ==> Absent(seg, name) && r.b < HSIZE && seg.hash[r.b] == NONE
    ensures r.Vacant? ==> exists k: nat :: FirstEmpty(seg, HashOf(name), k) && r.b == Probe(HashOf(name), k, HSIZE)
    ensures r.AllTaken? ==> Absent(seg, name) && Saturated(seg, HashOf(name))
  {
    var hp, i := HashOf(name), 1;
    ghost var k: nat := 0;
    while i < HSIZE
      invariant k <= NSYM && i == 2 * k + 1 && (k < NSYM ==> hp == Probe(HashOf(name), k, HSIZE))
      invariant forall j: nat :: Passed(seg, name, k, j)
      decreases HSIZE - i
    {
      assert BucketOk(seg, hp);
      if seg.hash[hp] == NONE {
        MissedIsAbsent(seg, name, k);
        return Vacant(hp);
      }
      if seg.syms[seg.hash[hp]].name == name {
        return At(hp);
      }
      NextProbe(HashOf(name), k, HSIZE);
      hp := hp + i;
      i := i + 2;
      if hp >= HSIZE {
        hp := hp - HSIZE;
      }
      k := k + 1;
      forall j: nat ensures Passed(seg, name, k, j) {
        assert Passed(seg, name, k - 1, j);
      }
    }
    MissedIsAbsent(seg, name, k);
    return AllTaken;
  }
}
