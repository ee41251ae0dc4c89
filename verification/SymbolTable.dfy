/** The segmented symbol table of bin/ld.c: `lookup`, `enter`, `symfree`, `symx`. */
module SymbolTable {
  import opened QuadraticProbe
  import opened SymbolSegments

  const NSEG: nat := 40

  /** A pointer into the symbol storage: the segment and the symbol in it; the
      pointer behind a segment's last symbol is one too. */
  datatype SymPtr = Null | Ptr(seg: nat, off: nat)

  /** A bucket of segment `g`, or one of the two ways in which the loader gives up. */
  datatype Look = Bucket(g: nat, b: nat) | Botch | Overflow

  // ---------------------------------------------------------------- the table as a whole

  /** Segments below `c` are full, those above have not been used. */
  ghost predicate SegAt(segs: seq<Segment>, c: nat, g: nat)
  {
    g < |segs| ==>
      && SegOk(segs[g])
      && (g < c ==> |segs[g].syms| == NSYM)
      && (g > c ==> segs[g].syms == [])
  }

  /** Segment `g` neither holds `name` nor stops a search for it. */
  ghost predicate LetsPass(seg: Segment, name: Name)
  {
    |seg.hash| == HSIZE && Absent(seg, name) && !Saturated(seg, HashOf(name))
  }

  /** Segments before a symbol's own let searches for it pass. */
  ghost predicate Crossing(segs: seq<Segment>, g1: nat, g2: nat, j: nat)
  {
    g1 < g2 < |segs| && j < |segs[g2].syms| ==> LetsPass(segs[g1], segs[g2].syms[j].name)
  }

  ghost predicate TableOk(segs: seq<Segment>, c: nat)
  {
    && |segs| == NSEG && c < NSEG
    && (forall g: nat :: SegAt(segs, c, g))
    && (forall g1: nat, g2: nat, j: nat :: Crossing(segs, g1, g2, j))
  }

  /** How many symbols there are. */
  ghost function Count(segs: seq<Segment>, c: nat): nat
    requires c < |segs|
  {
    c * NSYM + |segs[c].syms|
  }

  /** `xsym`: the pointer to symbol number `x`. */
  function XSym(x: nat): SymPtr
  {
    Ptr(x / NSYM, x % NSYM)
  }

  lemma Numbered(segs: seq<Segment>, c: nat, x: nat)
    requires TableOk(segs, c) && x < Count(segs, c)
    ensures x / NSYM <= c && x % NSYM < |segs[x / NSYM].syms|
  {
    assert SegAt(segs, c, x / NSYM) && SegAt(segs, c, c);
    assert x == NSYM * (x / NSYM) + x % NSYM;
  }

  /** The symbols in the order they were entered. */
  ghost function List(segs: seq<Segment>, c: nat): (l: seq<Symbol>)
    requires TableOk(segs, c)
    ensures |l| == Count(segs, c)
  {
    seq(Count(segs, c), x requires 0 <= x < Count(segs, c) =>
      Numbered(segs, c, x); segs[x / NSYM].syms[x % NSYM])
  }

  ghost predicate Listed(l: seq<Symbol>, name: Name, x: nat)
  {
    x < |l| && l[x].name == name
  }

  lemma NumberOf(g: nat, i: nat)
    requires i < NSYM
    ensures (g * NSYM + i) / NSYM == g && (g * NSYM + i) % NSYM == i
  {
  }

  /** A symbol of a segment is listed under its number. */
  lemma HeldIsListed(segs: seq<Segment>, c: nat, g: nat, i: nat)
    requires TableOk(segs, c) && g < NSEG && i < |segs[g].syms|
    ensures g * NSYM + i < Count(segs, c) && List(segs, c)[g * NSYM + i] == segs[g].syms[i]
  {
    assert SegAt(segs, c, g);
    NumberOf(g, i);
    assert g < c ==> g * NSYM + NSYM <= c * NSYM;
  }

  ghost predicate AbsentAt(segs: seq<Segment>, name: Name, g: nat)
  {
    g < |segs| ==> Absent(segs[g], name)
  }

  ghost predicate AbsentAll(segs: seq<Segment>, name: Name)
  {
    forall g: nat :: AbsentAt(segs, name, g)
  }

  lemma AbsentIsUnlisted(segs: seq<Segment>, c: nat, name: Name)
    requires TableOk(segs, c) && AbsentAll(segs, name)
    ensures forall x: nat :: !Listed(List(segs, c), name, x)
  {
    forall x: nat ensures !Listed(List(segs, c), name, x) {
      if x < Count(segs, c) {
        Numbered(segs, c, x);
        assert AbsentAt(segs, name, x / NSYM);
        assert NamedOther(segs[x / NSYM], name, x % NSYM);
      }
    }
  }

  lemma UnlistedIsAbsent(segs: seq<Segment>, c: nat, name: Name)
    requires TableOk(segs, c) && forall x: nat :: !Listed(List(segs, c), name, x)
    ensures AbsentAll(segs, name)
  {
    forall g: nat ensures AbsentAt(segs, name, g) {
      if g < NSEG {
        forall i: nat ensures NamedOther(segs[g], name, i) {
          if i < |segs[g].syms| {
            HeldIsListed(segs, c, g, i);
            assert !Listed(List(segs, c), name, g * NSYM + i);
          }
        }
      }
    }
  }

  lemma AbsentIffUnlisted(segs: seq<Segment>, c: nat, name: Name)
    requires TableOk(segs, c)
    ensures AbsentAll(segs, name) <==> !exists x: nat :: Listed(List(segs, c), name, x)
  {
    if AbsentAll(segs, name) {
      AbsentIsUnlisted(segs, c, name);
    } else if !exists x: nat :: Listed(List(segs, c), name, x) {
      UnlistedIsAbsent(segs, c, name);
    }
  }

  /** No name is listed twice. */
  lemma NamesAreUnique(segs: seq<Segment>, c: nat, x: nat, y: nat)
    requires TableOk(segs, c) && x < y < Count(segs, c)
    ensures List(segs, c)[x].name != List(segs, c)[y].name
  {
    Numbered(segs, c, x);
    Numbered(segs, c, y);
    var g1, g2 := x / NSYM, y / NSYM;
    if g1 == g2 {
      assert SegAt(segs, c, g1) && NamesDiffer(segs[g1], x % NSYM, y % NSYM);
    } else {
      assert Crossing(segs, g1, g2, y % NSYM);
      assert NamedOther(segs[g1], segs[g2].syms[y % NSYM].name, x % NSYM);
    }
  }

  // ---------------------------------------------------------------- what each step keeps

  /** Moving on to the next segment, all before it being full. */
  lemma NextSegment(segs: seq<Segment>, c: nat)
    requires TableOk(segs, c) && c + 1 < NSEG && |segs[c].syms| == NSYM
    ensures TableOk(segs, c + 1) && List(segs, c + 1) == List(segs, c)
  {
    var c' := c + 1;
    assert SegAt(segs, c, c');
    forall g: nat ensures SegAt(segs, c', g) {
      assert SegAt(segs, c, g);
    }
  }

  lemma AddKeepsTable(segs: seq<Segment>, c: nat, sym: Symbol, k: nat)
    requires TableOk(segs, c) && |segs[c].syms| < NSYM && AbsentAll(segs, sym.name)
    requires forall g: nat | g < c :: LetsPass(segs[g], sym.name)
    requires |segs[c].hash| == HSIZE && FirstEmpty(segs[c], HashOf(sym.name), k)
    requires sym.hash == Probe(HashOf(sym.name), k, HSIZE)
    ensures TableOk(segs[c := Add(segs[c], sym)], c)
    ensures List(segs[c := Add(segs[c], sym)], c) == List(segs, c) + [sym]
  {
    var segs' := segs[c := Add(segs[c], sym)];
    assert SegAt(segs, c, c) && AbsentAt(segs, sym.name, c);
    AddOk(segs[c], sym, k);
    forall g: nat ensures SegAt(segs', c, g) {
      assert SegAt(segs, c, g);
    }
    forall g1: nat, g2: nat, j: nat ensures Crossing(segs', g1, g2, j) {
      assert Crossing(segs, g1, g2, j) && SegAt(segs, c, g2);
    }
    var l, l' := List(segs, c) + [sym], List(segs', c);
    forall x | 0 <= x < |l'| ensures l'[x] == l[x] {
      Numbered(segs', c, x);
      NumberOf(c, |segs[c].syms|);
      if x < Count(segs, c) {
        Numbered(segs, c, x);
      }
    }
  }

  /** Dropping the newest symbol of the last segment in use. */
  lemma DropKeepsTable(segs: seq<Segment>, c: nat)
    requires TableOk(segs, c) && |segs[c].syms| > 0
    ensures SegOk(segs[c]) && segs[c].syms[|segs[c].syms| - 1].hash < HSIZE
    ensures TableOk(segs[c := Drop(segs[c])], c)
    ensures List(segs[c := Drop(segs[c])], c) == List(segs, c)[..Count(segs, c) - 1]
  {
    assert SegAt(segs, c, c);
    DropOk(segs[c]);
    var segs' := segs[c := Drop(segs[c])];
    forall g: nat ensures SegAt(segs', c, g) {
      assert SegAt(segs, c, g);
    }
    forall g1: nat, g2: nat, j: nat ensures Crossing(segs', g1, g2, j) {
      assert Crossing(segs, g1, g2, j) && SegAt(segs, c, g2);
    }
    var l, l' := List(segs, c)[..Count(segs, c) - 1], List(segs', c);
    forall x | 0 <= x < |l'| ensures l'[x] == l[x] {
      Numbered(segs', c, x);
      Numbered(segs, c, x);
    }
  }

  /** Going back from an empty segment to the full one before it. */
  lemma PreviousSegment(segs: seq<Segment>, c: nat)
    requires TableOk(segs, c) && 0 < c && segs[c].syms == []
    ensures TableOk(segs, c - 1) && List(segs, c - 1) == List(segs, c)
  {
    var c' := c - 1;
    assert SegAt(segs, c, c') && SegAt(segs, c, c);
    forall g: nat ensures SegAt(segs, c', g) {
      assert SegAt(segs, c, g);
    }
    assert Count(segs, c') == Count(segs, c);
  }

  /** Giving symbol number `x` a new type and value. */
  lemma RedefineKeepsTable(segs: seq<Segment>, c: nat, x: nat, typ: nat, value: nat)
    requires TableOk(segs, c) && x < Count(segs, c)
    ensures x / NSYM < NSEG && x % NSYM < |segs[x / NSYM].syms|
    ensures TableOk(segs[x / NSYM := Redefine(segs[x / NSYM], x % NSYM, typ, value)], c)
    ensures List(segs[x / NSYM := Redefine(segs[x / NSYM], x % NSYM, typ, value)], c)
            == List(segs, c)[x := List(segs, c)[x].(typ := typ, value := value)]
  {
    Numbered(segs, c, x);
    var g, i := x / NSYM, x % NSYM;
    assert SegAt(segs, c, g);
    RedefineOk(segs[g], i, typ, value);
    var segs' := segs[g := Redefine(segs[g], i, typ, value)];
    forall h: nat ensures SegAt(segs', c, h) {
      assert SegAt(segs, c, h);
    }
    forall g1: nat, g2: nat, j: nat ensures Crossing(segs', g1, g2, j) {
      assert Crossing(segs, g1, g2, j);
      if g1 == g && g1 < g2 < NSEG && j < |segs[g2].syms| {
        RedefineLetsPass(segs[g], i, typ, value, segs[g2].syms[j].name);
      }
    }
    var l, l' := List(segs, c)[x := List(segs, c)[x].(typ := typ, value := value)], List(segs', c);
    forall y | 0 <= y < |l'| ensures l'[y] == l[y] {
      Numbered(segs, c, y);
      assert x == NSYM * g + i && y == NSYM * (y / NSYM) + y % NSYM;
    }
  }

  lemma RedefineLetsPass(seg: Segment, i: nat, typ: nat, value: nat, name: Name)
    requires i < |seg.syms| && LetsPass(seg, name)
    ensures LetsPass(Redefine(seg, i, typ, value), name)
  {
    var seg' := Redefine(seg, i, typ, value);
    forall l: nat ensures NamedOther(seg', name, l) {
      assert NamedOther(seg, name, l);
    }
    var j: nat :| !TakenBefore(seg, HashOf(name), NSYM, j);
    assert !TakenBefore(seg', HashOf(name), NSYM, j);
  }

  /** The list determines the whole table, hash buckets included. */
  lemma SameListSameTable(segs: seq<Segment>, segs': seq<Segment>, c: nat)
    requires TableOk(segs, c) && TableOk(segs', c) && List(segs, c) == List(segs', c)
    ensures segs == segs'
  {
    forall g | 0 <= g < NSEG ensures segs[g] == segs'[g] {
      assert SegAt(segs, c, g) && SegAt(segs', c, g);
      assert |segs[g].syms| == |segs'[g].syms|;
      forall i | 0 <= i < |segs[g].syms| ensures segs[g].syms[i] == segs'[g].syms[i] {
        HeldIsListed(segs, c, g, i);
        HeldIsListed(segs', c, g, i);
      }
      SameSymbolsSameHash(segs[g], segs'[g]);
    }
  }

  lemma SameSymbolsSameHash(a: Segment, b: Segment)
    requires SegOk(a) && SegOk(b) && a.syms == b.syms
    ensures a == b
  {
    forall h: nat | h < HSIZE ensures a.hash[h] == b.hash[h] {
      assert BucketOk(a, h) && BucketOk(b, h);
      if a.hash[h] != NONE {
        assert SymOk(b, a.hash[h]);
      }
      if b.hash[h] != NONE {
        assert SymOk(a, b.hash[h]);
      }
    }
  }

  // ---------------------------------------------------------------- what a search finds

  ghost predicate SaturatedAt(segs: seq<Segment>, h: nat, g: nat)
  {
    g < |segs| && |segs[g].hash| == HSIZE && Saturated(segs[g], h)
  }

  ghost predicate PassesAt(segs: seq<Segment>, name: Name, end: nat, g: nat)
  {
    g < end && g < |segs| ==> LetsPass(segs[g], name)
  }

  /** Segments below `end` let the search pass. */
  ghost predicate PassesBefore(segs: seq<Segment>, name: Name, end: nat)
  {
    forall g: nat :: PassesAt(segs, name, end, g)
  }

  /** Bucket `b` of segment `g` holds the symbol called `name`. */
  ghost predicate Holds(segs: seq<Segment>, name: Name, g: nat, b: nat)
  {
    g < |segs| && b < |segs[g].hash| && 0 <= segs[g].hash[b] < |segs[g].syms|
    && segs[g].syms[segs[g].hash[b]].name == name
  }

  /** Bucket `b` of the last segment in use is where `name` belongs, and it is empty. */
  ghost predicate Awaits(segs: seq<Segment>, c: nat, name: Name, g: nat, b: nat)
  {
    && g == c < |segs| && |segs[c].hash| == HSIZE && b < HSIZE && segs[c].hash[b] == NONE
    && |segs[c].syms| < NSYM && PassesBefore(segs, name, c) && AbsentAll(segs, name)
    && exists k: nat :: FirstEmpty(segs[c], HashOf(name), k) && b == Probe(HashOf(name), k, HSIZE)
  }

  /** Absent from the segments up to a non-full one, absent from all. */
  lemma AbsentFromAll(segs: seq<Segment>, c: nat, name: Name)
    requires TableOk(segs, c) && PassesBefore(segs, name, c) && Absent(segs[c], name)
    ensures AbsentAll(segs, name)
  {
    forall g: nat ensures AbsentAt(segs, name, g) {
      assert SegAt(segs, c, g) && PassesAt(segs, name, c, g);
      if c < g < NSEG {
        EmptyHasNone(segs[g], name);
      }
    }
  }

  lemma EmptyHasNone(seg: Segment, name: Name)
    requires seg.syms == []
    ensures Absent(seg, name)
  {
    forall i: nat ensures NamedOther(seg, name, i) {
    }
  }

  /** A saturated segment has no symbol of that hash value behind it. */
  lemma SaturatedEnds(segs: seq<Segment>, c: nat, name: Name, g: nat)
    requires TableOk(segs, c) && g < NSEG && PassesBefore(segs, name, g)
    requires Absent(segs[g], name) && SaturatedAt(segs, HashOf(name), g)
    ensures AbsentAll(segs, name)
  {
    forall g2: nat ensures AbsentAt(segs, name, g2) {
      assert PassesAt(segs, name, g, g2);
      if g < g2 < NSEG {
        forall i: nat ensures NamedOther(segs[g2], name, i) {
          assert Crossing(segs, g, g2, i);
        }
      }
    }
  }

  /** Only a full segment is saturated, so none is when a bucket awaits the name. */
  lemma NoneSaturated(segs: seq<Segment>, c: nat, name: Name, g: nat)
    requires TableOk(segs, c) && PassesBefore(segs, name, c)
    requires |segs[c].syms| < NSYM || !SaturatedAt(segs, HashOf(name), c)
    ensures !SaturatedAt(segs, HashOf(name), g)
  {
    assert SegAt(segs, c, g) && PassesAt(segs, name, c, g);
    if g < NSEG && |segs[g].syms| < NSYM {
      NotFullHasEmpty(segs[g], HashOf(name));
    }
  }

  lemma HeldIsNotAbsent(segs: seq<Segment>, c: nat, name: Name, g: nat, b: nat)
    requires TableOk(segs, c) && Holds(segs, name, g, b)
    ensures !AbsentAll(segs, name)
    ensures Listed(List(segs, c), name, g * NSYM + segs[g].hash[b])
  {
    assert !NamedOther(segs[g], name, segs[g].hash[b]);
    assert !AbsentAt(segs, name, g);
    HeldIsListed(segs, c, g, segs[g].hash[b]);
  }

  /** A symbol's number is its own: `xsym` inverts `symx`. */
  lemma XSymInverts(g: nat, i: nat)
    requires i < NSYM
    ensures XSym(g * NSYM + i) == Ptr(g, i)
  {
    NumberOf(g, i);
  }

  /** Where the next symbol is expected; null before there is any. */
  ghost function EndPtr(n: nat): SymPtr
  {
    if n == 0 then Null else Ptr((n - 1) / NSYM, (n - 1) % NSYM + 1)
  }

  /** A mark taken from `nextsym` when there were symbols, none of them backed out since. */
  ghost predicate MarkOk(p: SymPtr, n: nat)
  {
    p.Ptr? && 1 <= p.off <= NSYM && p.seg * NSYM + p.off <= n
  }

  lemma EndIsMark(n: nat, n': nat)
    requires 0 < n <= n'
    ensures MarkOk(EndPtr(n), n') && EndPtr(n).seg * NSYM + EndPtr(n).off == n
  {
    assert n - 1 == NSYM * ((n - 1) / NSYM) + (n - 1) % NSYM;
  }

  lemma MarkIsEnd(p: SymPtr, n: nat)
    requires MarkOk(p, n)
    ensures EndPtr(p.seg * NSYM + p.off) == p
  {
    NumberOf(p.seg, p.off - 1);
  }

  /** Entering at the awaiting bucket. */
  lemma EnterKeepsTable(segs: seq<Segment>, c: nat, sym: Symbol)
    requires TableOk(segs, c) && Awaits(segs, c, sym.name, c, sym.hash)
    ensures TableOk(segs[c := Add(segs[c], sym)], c)
    ensures List(segs[c := Add(segs[c], sym)], c) == List(segs, c) + [sym]
    ensures Ptr(c, |segs[c].syms|) == XSym(Count(segs, c))
    ensures Ptr(c, |segs[c].syms| + 1) == EndPtr(Count(segs, c) + 1)
  {
    var k: nat :| FirstEmpty(segs[c], HashOf(sym.name), k) && sym.hash == Probe(HashOf(sym.name), k, HSIZE);
    forall g: nat | g < c ensures LetsPass(segs[g], sym.name) {
      assert PassesAt(segs, sym.name, c, g);
    }
    AddKeepsTable(segs, c, sym, k);
    NumberOf(c, |segs[c].syms|);
  }

  lemma FoundIsListed(segs: seq<Segment>, c: nat, name: Name, g: nat, b: nat)
    requires TableOk(segs, c) && Holds(segs, name, g, b)
    ensures !AbsentAll(segs, name)
    ensures exists x: nat :: Listed(List(segs, c), name, x) && Ptr(g, segs[g].hash[b]) == XSym(x)
  {
    HeldIsNotAbsent(segs, c, name, g, b);
    assert SegAt(segs, c, g);
    NumberOf(g, segs[g].hash[b]);
  }

  class SymTab {
    var segs: seq<Segment>
    var csymseg: nat
    var lastsym: SymPtr
    var nextsym: SymPtr

    ghost predicate Valid()
      reads this
    {
      TableOk(segs, csymseg) && nextsym == EndPtr(Count(segs, csymseg))
    }

    ghost function Symbols(): seq<Symbol>
      reads this
      requires Valid()
    {
      List(segs, csymseg)
    }

    constructor ()
      ensures Valid() && Symbols() == []
    {
      segs := seq(NSEG, _ => Empty());
      csymseg, lastsym, nextsym := 0, Null, Null;
      new;
      EmptyOk();
      forall g: nat ensures SegAt(segs, 0, g) {
      }
      forall g1: nat, g2: nat, j: nat ensures Crossing(segs, g1, g2, j) {
      }
    }

    /** `lookup`, over the segments in turn. */
    method Lookup(name: Name) returns (r: Look)
      requires Valid()
      modifies `csymseg
      ensures Valid() && Symbols() == old(Symbols())
      ensures r.Bucket? ==> Holds(segs, name, r.g, r.b) || Awaits(segs, csymseg, name, r.g, r.b)
      ensures r.Bucket? && Holds(segs, name, r.g, r.b) <==> exists x: nat :: Listed(Symbols(), name, x)
      ensures r.Bucket? && Holds(segs, name, r.g, r.b) <==> !AbsentAll(segs, name)
      ensures r.Botch? <==> AbsentAll(segs, name) && exists g: nat :: SaturatedAt(segs, HashOf(name), g)
      ensures r.Overflow? ==> |Symbols()| == NSEG * NSYM
    {
      AbsentIffUnlisted(segs, csymseg, name);
      var g := 0;
      while g < NSEG
        invariant g <= NSEG && Valid() && Symbols() == old(Symbols())
        invariant g <= csymseg + 1
        invariant g == csymseg + 1 ==> |segs[csymseg].syms| == NSYM
        invariant PassesBefore(segs, name, g)
        decreases NSEG - g
      {
        if g > csymseg {
          NextSegment(segs, csymseg);
          csymseg := g;
        }
        assert SegAt(segs, csymseg, g);
        var o := Search(segs[g], name);
        match o {
          case At(b) =>
            HeldIsNotAbsent(segs, csymseg, name, g, b);
            return Bucket(g, b);
          case AllTaken =>
            assert SaturatedAt(segs, HashOf(name), g);
            SaturatedEnds(segs, csymseg, name, g);
            return Botch;
          case Vacant(b) =>
            if |segs[g].syms| < NSYM {
              AbsentFromAll(segs, csymseg, name);
              assert Awaits(segs, csymseg, name, g, b);
              forall h: nat ensures !SaturatedAt(segs, HashOf(name), h) {
                NoneSaturated(segs, csymseg, name, h);
              }
              return Bucket(g, b);
            }
            NotSaturated(segs[g], HashOf(name), b);
            VacantPasses(segs, name, g);
        }
        g := g + 1;
      }
      AllPassed(segs, csymseg, name);
      return Overflow;
    }

    /** `enter`: a new symbol goes to the end of the list, a known one is only pointed to. */
    method Enter(r: Look, name: Name, typ: nat, value: nat) returns (isNew: bool)
      requires Valid() && r.Bucket?
      requires Holds(segs, name, r.g, r.b) || Awaits(segs, csymseg, name, r.g, r.b)
      modifies this
      ensures Valid() && csymseg == old(csymseg) && isNew == old(AbsentAll(segs, name))
      ensures isNew ==> r.b < HSIZE && Symbols() == old(Symbols()) + [Symbol(name, typ, value, r.b)]
      ensures isNew ==> lastsym == XSym(|old(Symbols())|)
      ensures !isNew ==> Symbols() == old(Symbols()) && nextsym == old(nextsym)
      ensures !isNew ==> exists x: nat :: Listed(Symbols(), name, x) && lastsym == XSym(x)
    {
      var g, b := r.g, r.b;
      if segs[g].hash[b] == NONE {
        var sym, n := Symbol(name, typ, value, b), |segs[g].syms|;
        EnterKeepsTable(segs, csymseg, sym);
        segs := segs[g := Add(segs[g], sym)];
        lastsym := Ptr(g, n);
        nextsym := Ptr(g, n + 1);
        isNew := true;
      } else {
        FoundIsListed(segs, csymseg, name, g, b);
        lastsym := Ptr(g, segs[g].hash[b]);
        isNew := false;
      }
    }

    /** The loader gives a symbol a new type and value. */
    method SetSym(p: SymPtr, typ: nat, value: nat)
      requires Valid() && p.Ptr? && p.off < NSYM && p.seg * NSYM + p.off < |Symbols()|
      modifies `segs
      ensures Valid()
      ensures var x := p.seg * NSYM + p.off;
              Symbols() == old(Symbols())[x := old(Symbols())[x].(typ := typ, value := value)]
    {
      NumberOf(p.seg, p.off);
      RedefineKeepsTable(segs, csymseg, p.seg * NSYM + p.off, typ, value);
      segs := segs[p.seg := Redefine(segs[p.seg], p.off, typ, value)];
    }

    /** `symfree`: back out everything entered since `saved` was the next symbol. */
    method SymFree(saved: SymPtr)
      requires Valid() && MarkOk(saved, |Symbols()|)
      modifies this
      ensures Valid() && nextsym == saved && lastsym == old(lastsym)
      ensures Symbols() == old(Symbols())[..saved.seg * NSYM + saved.off] && csymseg == saved.seg
    {
      ghost var l, m := Symbols(), saved.seg * NSYM + saved.off;
      MarkIsEnd(saved, |l|);
      while Ptr(csymseg, |segs[csymseg].syms|) != saved
        invariant TableOk(segs, csymseg) && m <= Count(segs, csymseg) <= |l| && lastsym == old(lastsym)
        invariant List(segs, csymseg) == l[..Count(segs, csymseg)]
        decreases csymseg, |segs[csymseg].syms|
      {
        assert SegAt(segs, csymseg, csymseg);
        if |segs[csymseg].syms| > 0 {
          DropKeepsTable(segs, csymseg);
          BeforeMark(saved, csymseg, |segs[csymseg].syms|);
          segs := segs[csymseg := Drop(segs[csymseg])];
        } else {
          PreviousSegment(segs, csymseg);
          csymseg := csymseg - 1;
        }
      }
      nextsym := saved;
    }

    /** `symx`: the number of a symbol, or of the place behind the last one. */
    method SymX(p: SymPtr) returns (x: nat)
      requires Valid()
      requires p.Ptr? ==> p.seg <= csymseg && p.off <= NSYM
      ensures p.Null? ==> x == 0
      ensures p.Ptr? ==> x == p.seg * NSYM + p.off
      ensures p.Ptr? && p.off < NSYM ==> XSym(x) == p
      ensures p == nextsym ==> x == |Symbols()|
    {
      if p.Null? {
        return 0;
      }
      var g := csymseg;
      while g != p.seg
        invariant p.seg <= g <= csymseg
      {
        g := g - 1;
      }
      if p.off < NSYM {
        NumberOf(g, p.off);
      }
      ghost var n := |Symbols()|;
      if p == nextsym {
        EndIsMark(n, n);
      }
      return g * NSYM + p.off;
    }
  }

  lemma NotSaturated(seg: Segment, h: nat, b: nat)
    requires |seg.hash| == HSIZE && exists k: nat :: FirstEmpty(seg, h, k) && b == Probe(h, k, HSIZE)
    ensures !Saturated(seg, h)
  {
    var k: nat :| FirstEmpty(seg, h, k) && b == Probe(h, k, HSIZE);
    assert !TakenBefore(seg, h, NSYM, k);
  }

  lemma VacantPasses(segs: seq<Segment>, name: Name, g: nat)
    requires g < |segs| && PassesBefore(segs, name, g) && LetsPass(segs[g], name)
    ensures PassesBefore(segs, name, g + 1)
  {
    var end := g + 1;
    forall h: nat ensures PassesAt(segs, name, end, h) {
      assert PassesAt(segs, name, g, h);
    }
  }

  lemma AllPassed(segs: seq<Segment>, c: nat, name: Name)
    requires TableOk(segs, c) && PassesBefore(segs, name, NSEG)
    ensures AbsentAll(segs, name) && forall g: nat :: !SaturatedAt(segs, HashOf(name), g)
  {
    forall g: nat ensures AbsentAt(segs, name, g) {
      assert PassesAt(segs, name, NSEG, g);
    }
    forall g: nat ensures !SaturatedAt(segs, HashOf(name), g) {
      assert PassesAt(segs, name, NSEG, g);
    }
  }

  /** The mark is not passed on the way down. */
  lemma BeforeMark(p: SymPtr, c: nat, n: nat)
    requires p.Ptr? && 1 <= p.off <= NSYM && 0 < n <= NSYM
    requires p.seg * NSYM + p.off <= c * NSYM + n && p != Ptr(c, n)
    ensures p.seg * NSYM + p.off <= c * NSYM + n - 1
  {
  }

  // ---------------------------------------------------------------- a full segment can be saturated

  const BA: Name := [98, 97]
  const AC: Name := [97, 99]

  /** The binary digits of `i` spelt with two syllables that hash alike. */
  function Spell(i: nat, digits: nat): (name: Name)
    ensures |name| == 2 * digits
    ensures forall k | 0 <= k < |name| :: name[k] != 0
  {
    if digits == 0 then [] else Spell(i / 2, digits - 1) + (if i % 2 == 0 then BA else AC)
  }

  lemma SyllablesHashAlike(name: Name, name': Name)
    requires Fold(name) == Fold(name')
    ensures Fold(name + BA) == Fold(name' + AC) == Fold(name' + BA)
  {
    FoldTwo(name, 98, 97);
    FoldTwo(name', 97, 99);
    FoldTwo(name', 98, 97);
  }

  lemma FoldTwo(name: Name, a: nat, b: nat)
    ensures Fold(name + [a, b]) == (4 * Fold(name) + 2 * a + b) % 0x1_0000_0000
  {
    var one := name + [a];
    assert name + [a, b] == one + [b];
    assert one[..|name|] == name && (one + [b])[..|one|] == one;
  }

  /** All numbers spelt with as many digits hash alike. */
  lemma {:induction false} SpellingsHashAlike(i: nat, j: nat, digits: nat)
    ensures Fold(Spell(i, digits)) == Fold(Spell(j, digits))
  {
    if digits > 0 {
      SpellingsHashAlike(i / 2, j / 2, digits - 1);
      SyllablesHashAlike(Spell(i / 2, digits - 1), Spell(j / 2, digits - 1));
      SyllablesHashAlike(Spell(j / 2, digits - 1), Spell(i / 2, digits - 1));
    }
  }

  function Pow2(n: nat): nat
  {
    if n == 0 then 1 else 2 * Pow2(n - 1)
  }

  /** Eleven binary digits spell more names than a segment has room for. */
  lemma ElevenDigits(digits: nat)
    requires digits == 11
    ensures NSYM < Pow2(digits)
  {
    assert Pow2(4) == 16;
    assert Pow2(8) == 256;
    assert Pow2(11) == 2048;
  }

  /** Different numbers are spelt differently. */
  lemma {:induction false} SpellingsDiffer(i: nat, j: nat, digits: nat)
    requires i != j && i < Pow2(digits) && j < Pow2(digits)
    ensures Spell(i, digits) != Spell(j, digits)
  {
    if digits > 0 {
      var a, b := Spell(i / 2, digits - 1), Spell(j / 2, digits - 1);
      assert Spell(i, digits)[..|a|] == a && Spell(j, digits)[..|b|] == b;
      assert Spell(i, digits)[|a|] == (if i % 2 == 0 then 98 else 97);
      assert Spell(j, digits)[|b|] == (if j % 2 == 0 then 98 else 97);
      if i / 2 != j / 2 {
        SpellingsDiffer(i / 2, j / 2, digits - 1);
      }
    }
  }

  ghost predicate SpeltAs(l: seq<Symbol>, digits: nat, x: nat)
  {
    x < |l| ==> l[x].name == Spell(x, digits)
  }

  lemma SpeltOn(l: seq<Symbol>, sym: Symbol, digits: nat)
    requires forall x: nat :: SpeltAs(l, digits, x)
    requires sym.name == Spell(|l|, digits)
    ensures forall x: nat :: SpeltAs(l + [sym], digits, x)
  {
    forall x: nat ensures SpeltAs(l + [sym], digits, x) {
      assert SpeltAs(l, digits, x);
    }
  }

  /** The next spelling is in no segment. */
  lemma NextSpellingAbsent(segs: seq<Segment>, digits: nat)
    requires TableOk(segs, 0) && NSYM < Pow2(digits)
    requires forall x: nat :: SpeltAs(List(segs, 0), digits, x)
    ensures AbsentAll(segs, Spell(Count(segs, 0), digits))
  {
    var l := List(segs, 0);
    assert SegAt(segs, 0, 0);
    forall x: nat ensures !Listed(l, Spell(|l|, digits), x) {
      assert SpeltAs(l, digits, x);
      if x < |l| {
        SpellingsDiffer(x, |l|, digits);
      }
    }
    UnlistedIsAbsent(segs, 0, Spell(|l|, digits));
  }

  lemma RoomLeft(segs: seq<Segment>, h: nat)
    requires TableOk(segs, 0) && |segs[0].syms| < NSYM
    ensures forall g: nat :: !SaturatedAt(segs, h, g)
  {
    forall g: nat ensures !SaturatedAt(segs, h, g) {
      assert SegAt(segs, 0, g);
      if g < NSEG {
        NotFullHasEmpty(segs[g], h);
      }
    }
  }

  lemma FullOfSpellings(segs: seq<Segment>, digits: nat)
    requires TableOk(segs, 0) && |segs[0].syms| == NSYM < Pow2(digits)
    requires forall x: nat :: SpeltAs(List(segs, 0), digits, x)
    ensures SaturatedAt(segs, HashOf(Spell(NSYM, digits)), 0)
  {
    var h := HashOf(Spell(NSYM, digits));
    assert SegAt(segs, 0, 0);
    forall i: nat | i < NSYM ensures HashOf(segs[0].syms[i].name) == h {
      HeldIsListed(segs, 0, 0, i);
      assert SpeltAs(List(segs, 0), digits, i);
      SpellingsHashAlike(i, NSYM, digits);
    }
    CollisionsSaturate(segs[0], h);
  }

  /** Names that hash alike, one for each number of eleven binary digits, fill the first
      segment; the next such name is met by the exit "hash table botch". */
  method BotchRun() returns (t: SymTab, name: Name, r: Look)
    ensures t.Valid() && r.Botch? && |t.Symbols()| == NSYM
    ensures forall x: nat :: !Listed(t.Symbols(), name, x)
  {
    var digits := 11;
    ElevenDigits(digits);
    t := new SymTab();
    var i := 0;
    while i < NSYM
      invariant fresh(t) && t.Valid() && |t.Symbols()| == i <= NSYM && t.csymseg == 0
      invariant forall x: nat :: SpeltAs(t.Symbols(), digits, x)
      decreases NSYM - i
    {
      name := Spell(i, digits);
      NextSpellingAbsent(t.segs, digits);
      RoomLeft(t.segs, HashOf(name));
      r := t.Lookup(name);
      ghost var l := t.Symbols();
      var isNew := t.Enter(r, name, 0, 0);
      SpeltOn(l, Symbol(name, 0, 0, r.b), digits);
      i := i + 1;
    }
    name := Spell(NSYM, digits);
    NextSpellingAbsent(t.segs, digits);
    FullOfSpellings(t.segs, digits);
    r := t.Lookup(name);
    AbsentIsUnlisted(t.segs, t.csymseg, name);
  }
}
