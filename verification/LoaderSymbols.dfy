/** Pass 1 of bin/ld.c on values: what reading one module does to the list of symbols. */
module LoaderSymbols {
  import QuadraticProbe
  import opened SymbolSegments

  const WORD: nat := 0x1_0000_0000
  const PAGSIZ: nat := 1024

  const N_EXT: nat := 1
  const EXT_UNDF: nat := 1
  const EXT_ABS: nat := 3
  const EXT_TEXT: nat := 5
  const EXT_DATA: nat := 7
  const EXT_BSS: nat := 9
  const N_COMM: nat := 18

  datatype Nlist = Nlist(name: Name, typ: nat, value: nat)

  datatype Magic = OMAGIC | NMAGIC | ZMAGIC

  /** An object module: its header and its symbols. */
  datatype Module = Module(magic: Magic, text: nat, data: nat, bss: nat, syms: seq<Nlist>)

  /** `ctrel`, `cdrel`, `cbrel`: what to add to the module's own addresses. */
  datatype Scales = Scales(t: int, d: int, b: int)

  function Wrap(x: int): (w: nat)
    ensures w < WORD
  {
    x % WORD
  }

  /** `round`: up to a multiple of `r`. */
  function Round(v: nat, r: nat): (w: nat)
    requires 0 < r
    ensures v <= w < v + r && w % r == 0
  {
    RoundBounds(v, r);
    if v % r == 0 then v else v + (r - v % r)
  }

  lemma RoundBounds(v: nat, r: nat)
    requires 0 < r
    ensures v % r != 0 ==> (v + (r - v % r)) % r == 0
  {
    assert v == r * (v / r) + v % r;
    assert v + (r - v % r) == r * (v / r + 1);
    QuadraticProbe.MultipleMod(v / r + 1, r);
  }

  /** Where the module's own addresses put its data. */
  function DataAt(m: Module): nat
  {
    if m.magic.OMAGIC? then m.text else Round(m.text, PAGSIZ)
  }

  /** `readhdr` and the lines behind it, for a module loaded at these places. */
  function ScalesAt(m: Module, t: nat, d: nat, b: nat): Scales
  {
    Scales(t, d - DataAt(m), b - DataAt(m) - m.data)
  }

  /** `symreloc`. */
  function SymReloc(s: Nlist, sc: Scales): Nlist
  {
    var k := s.typ % 16;
    if k == 4 || k == 5 then s.(value := Wrap(s.value + sc.t))
    else if k == 6 || k == 7 then s.(value := Wrap(s.value + sc.d))
    else if k == 8 || k == 9 then s.(value := Wrap(s.value + sc.b))
    else if k == EXT_UNDF || s.typ % 2 == 0 then s
    else s.(typ := EXT_ABS)
  }

  predicate External(s: Nlist)
  {
    s.typ % 2 == N_EXT
  }

  /** The number of the symbol called `name`; the length of the list if there is none. */
  function Find(l: seq<Nlist>, name: Name): (x: nat)
    ensures x <= |l| && (x < |l| ==> l[x].name == name)
    ensures forall y: nat | y < x :: l[y].name != name
  {
    if l == [] then 0
    else
      var x := Find(l[..|l| - 1], name);
      if x < |l| - 1 || l[|l| - 1].name == name then x else |l|
  }

  /** Symbol `s` gives a meaning to the undefined symbol `u` of the same name. */
  predicate Defines(u: Nlist, s: Nlist)
  {
    u.typ == EXT_UNDF && s.typ != EXT_UNDF && !(u.value != 0 && s.typ == EXT_TEXT)
  }

  predicate Raises(u: Nlist, s: Nlist)
  {
    u.typ == EXT_UNDF && s.typ == EXT_UNDF && s.value > u.value
  }

  /** One external symbol of a module meets the list. */
  function Step(l: seq<Nlist>, s: Nlist): seq<Nlist>
  {
    var x := Find(l, s.name);
    if x == |l| then l + [s]
    else if Defines(l[x], s) then l[x := l[x].(typ := s.typ, value := s.value)]
    else if Raises(l[x], s) then l[x := l[x].(value := s.value)]
    else l
  }

  predicate Counts(l: seq<Nlist>, s: Nlist)
  {
    var x := Find(l, s.name);
    x < |l| && Defines(l[x], s)
  }

  /** The list after the first `n` symbols of a module. */
  function After(l: seq<Nlist>, syms: seq<Nlist>, sc: Scales, n: nat): seq<Nlist>
    requires n <= |syms|
  {
    if n == 0 then l
    else
      var l' := After(l, syms, sc, n - 1);
      if External(syms[n - 1]) then Step(l', SymReloc(syms[n - 1], sc)) else l'
  }

  /** `ndef`: how many undefined symbols the module has defined so far. */
  function NDef(l: seq<Nlist>, syms: seq<Nlist>, sc: Scales, n: nat): nat
    requires n <= |syms|
  {
    if n == 0 then 0
    else
      NDef(l, syms, sc, n - 1)
      + (if External(syms[n - 1]) && Counts(After(l, syms, sc, n - 1), SymReloc(syms[n - 1], sc)) then 1 else 0)
  }

  // ---------------------------------------------------------------- the list only grows

  ghost predicate Distinct(l: seq<Nlist>, x: nat, y: nat)
  {
    x < y < |l| ==> l[x].name != l[y].name
  }

  ghost predicate Unique(l: seq<Nlist>)
  {
    forall x: nat, y: nat :: Distinct(l, x, y)
  }

  /** A symbol keeps its number and name, its definition if it has one, and any size asked for. */
  ghost predicate GrownAt(l0: seq<Nlist>, l: seq<Nlist>, x: nat)
  {
    x < |l0| && x < |l| ==>
      && l[x].name == l0[x].name
      && (l0[x].typ != EXT_UNDF ==> l[x] == l0[x])
      && (l[x].typ == EXT_UNDF ==> l0[x].value <= l[x].value)
  }

  ghost predicate Grown(l0: seq<Nlist>, l: seq<Nlist>)
  {
    |l0| <= |l| && forall x: nat :: GrownAt(l0, l, x)
  }

  lemma GrownAgain(l0: seq<Nlist>, l1: seq<Nlist>, l2: seq<Nlist>)
    requires Grown(l0, l1) && Grown(l1, l2)
    ensures Grown(l0, l2)
  {
    forall x: nat ensures GrownAt(l0, l2, x) {
      assert GrownAt(l0, l1, x) && GrownAt(l1, l2, x);
    }
  }

  lemma GrownPrefix(l0: seq<Nlist>, l: seq<Nlist>, n: nat)
    requires Grown(l0, l) && |l0| <= n <= |l|
    ensures Grown(l0, l[..n])
  {
    forall x: nat ensures GrownAt(l0, l[..n], x) {
      assert GrownAt(l0, l, x);
    }
  }

  lemma UniquePrefix(l: seq<Nlist>, n: nat)
    requires Unique(l) && n <= |l|
    ensures Unique(l[..n])
  {
    forall x: nat, y: nat ensures Distinct(l[..n], x, y) {
      assert Distinct(l, x, y);
    }
  }

  lemma FoundAt(l: seq<Nlist>, x: nat)
    requires Unique(l) && x < |l|
    ensures Find(l, l[x].name) == x
  {
    var y := Find(l, l[x].name);
    assert y <= x;
    assert Distinct(l, y, x);
  }

  lemma StepGrows(l: seq<Nlist>, s: Nlist)
    requires Unique(l)
    ensures Unique(Step(l, s)) && Grown(l, Step(l, s))
  {
    var l' := Step(l, s);
    forall x: nat, y: nat ensures Distinct(l', x, y) {
      assert Distinct(l, x, y);
    }
    forall x: nat ensures GrownAt(l, l', x) {
    }
  }

  lemma {:induction false} AfterGrows(l: seq<Nlist>, syms: seq<Nlist>, sc: Scales, n: nat)
    requires Unique(l) && n <= |syms|
    ensures Unique(After(l, syms, sc, n)) && Grown(l, After(l, syms, sc, n))
  {
    if n == 0 {
      forall x: nat ensures GrownAt(l, l, x) {
      }
    } else {
      AfterGrows(l, syms, sc, n - 1);
      var l' := After(l, syms, sc, n - 1);
      if External(syms[n - 1]) {
        StepGrows(l', SymReloc(syms[n - 1], sc));
        GrownAgain(l, l', After(l, syms, sc, n));
      }
    }
  }

  lemma {:induction false} AfterGrowsFrom(l: seq<Nlist>, syms: seq<Nlist>, sc: Scales, k: nat, n: nat)
    requires Unique(l) && k <= n <= |syms|
    ensures Grown(After(l, syms, sc, k), After(l, syms, sc, n))
    decreases n
  {
    AfterGrows(l, syms, sc, k);
    if k == n {
      var l' := After(l, syms, sc, n);
      forall x: nat ensures GrownAt(l', l', x) {
      }
    } else {
      AfterGrowsFrom(l, syms, sc, k, n - 1);
      AfterGrows(l, syms, sc, n - 1);
      var l' := After(l, syms, sc, n - 1);
      if External(syms[n - 1]) {
        StepGrows(l', SymReloc(syms[n - 1], sc));
        GrownAgain(After(l, syms, sc, k), l', After(l, syms, sc, n));
      }
    }
  }

  /** Symbol `x` is needed: undefined, and not a common either. */
  predicate NeededAt(l: seq<Nlist>, x: nat)
  {
    x < |l| && l[x].typ == EXT_UNDF && l[x].value == 0
  }

  ghost predicate NotNeeded(l: seq<Nlist>, name: Name, x: nat)
  {
    x < |l| && l[x].name == name ==> !NeededAt(l, x)
  }

  lemma {:induction false} DefinedSettles(l: seq<Nlist>, syms: seq<Nlist>, sc: Scales, i: nat, x: nat)
    requires Unique(l) && i < |syms| && x < |l| && External(syms[i]) && syms[i].name == l[x].name
    requires SymReloc(syms[i], sc).typ != EXT_UNDF || SymReloc(syms[i], sc).value > 0
    ensures |l| <= |After(l, syms, sc, |syms|)| && !NeededAt(After(l, syms, sc, |syms|), x)
  {
    var n, j := |syms|, i + 1;
    var l1, l2, l3 := After(l, syms, sc, i), After(l, syms, sc, j), After(l, syms, sc, n);
    AfterGrows(l, syms, sc, i);
    AfterGrowsFrom(l, syms, sc, j, n);
    AfterGrows(l, syms, sc, n);
    assert GrownAt(l, l1, x);
    FoundAt(l1, x);
    assert GrownAt(l2, l3, x);
  }

  // ---------------------------------------------------------------- members that are not wanted

  ghost predicate RaisedAt(l0: seq<Nlist>, l: seq<Nlist>, x: nat)
  {
    x < |l0| && x < |l| ==>
      && l[x].name == l0[x].name && l[x].typ == l0[x].typ && l0[x].value <= l[x].value
      && (l[x].typ != EXT_UNDF ==> l[x].value == l0[x].value)
  }

  /** A member that defines nothing needed changes no symbol but for the sizes of commons. */
  lemma {:induction false} RejectedOnlyRaises(l: seq<Nlist>, syms: seq<Nlist>, sc: Scales, n: nat)
    requires Unique(l) && n <= |syms| && NDef(l, syms, sc, n) == 0
    ensures |l| <= |After(l, syms, sc, n)|
    ensures forall x: nat :: RaisedAt(l, After(l, syms, sc, n), x)
  {
    if n == 0 {
    } else {
      RejectedOnlyRaises(l, syms, sc, n - 1);
      AfterGrows(l, syms, sc, n - 1);
      var l1, l2 := After(l, syms, sc, n - 1), After(l, syms, sc, n);
      forall x: nat ensures RaisedAt(l, l2, x) {
        assert RaisedAt(l, l1, x);
      }
    }
  }

  /** Symbol `i` of a member asks for a larger common than `l` has under its name. */
  ghost predicate AsksMore(l: seq<Nlist>, syms: seq<Nlist>, i: nat)
  {
    i < |syms| && Find(l, syms[i].name) < |l| && Raises(l[Find(l, syms[i].name)], syms[i])
  }

  ghost predicate AsksMoreBefore(l: seq<Nlist>, syms: seq<Nlist>, n: nat, i: nat)
  {
    i < n && AsksMore(l, syms, i)
  }

  /** Backing out a member gives the old list back exactly if it asked for no larger common. */
  lemma {:induction false} RejectionRestores(l: seq<Nlist>, syms: seq<Nlist>, sc: Scales, n: nat)
    requires Unique(l) && n <= |syms| && NDef(l, syms, sc, n) == 0
    ensures |l| <= |After(l, syms, sc, n)|
    ensures After(l, syms, sc, n)[..|l|] == l <==> forall i: nat :: !AsksMoreBefore(l, syms, n, i)
  {
    RejectedOnlyRaises(l, syms, sc, n);
    if n > 0 {
      var k := n - 1;
      RejectionRestores(l, syms, sc, k);
      RejectedOnlyRaises(l, syms, sc, k);
      AfterGrows(l, syms, sc, k);
      var l1, l2 := After(l, syms, sc, k), After(l, syms, sc, n);
      RestoredStep(l, l1, l2, syms[k], sc);
      if l2[..|l|] == l {
        forall i: nat ensures !AsksMoreBefore(l, syms, n, i) {
          assert !AsksMoreBefore(l, syms, k, i);
        }
      }
      if forall i: nat :: !AsksMoreBefore(l, syms, n, i) {
        assert !AsksMoreBefore(l, syms, n, k);
        forall i: nat ensures !AsksMoreBefore(l, syms, k, i) {
          assert !AsksMoreBefore(l, syms, n, i);
        }
      }
    }
  }

  /** The old part is as it was after a step iff it was before and the step raised nothing. */
  lemma RestoredStep(l: seq<Nlist>, l1: seq<Nlist>, l2: seq<Nlist>, s: Nlist, sc: Scales)
    requires Unique(l) && Unique(l1) && |l| <= |l1|
    requires forall x: nat :: RaisedAt(l, l1, x)
    requires l2 == if External(s) then Step(l1, SymReloc(s, sc)) else l1
    requires External(s) ==> !Counts(l1, SymReloc(s, sc))
    ensures |l| <= |l2|
    ensures l2[..|l|] == l <==> l1[..|l|] == l && !AsksMore(l, [s], 0)
  {
    var r := SymReloc(s, sc);
    var x, y := Find(l, s.name), Find(l1, s.name);
    forall z: nat | z < |l| ensures l1[z].name == l[z].name {
      assert RaisedAt(l, l1, z);
    }
    if x < |l| {
      assert RaisedAt(l, l1, x);
      FoundAt(l1, x);
    }
    if l2[..|l|] == l {
      forall z: nat | z < |l| ensures l1[z] == l[z] {
        assert RaisedAt(l, l1, z) && l2[..|l|][z] == l2[z];
      }
      assert l1[..|l|] == l;
      assert x < |l| ==> l2[..|l|][x] == l2[x];
    }
    if l1[..|l|] == l && !AsksMore(l, [s], 0) {
      assert x < |l| ==> l1[x] == l1[..|l|][x];
      assert l2[..|l|] == l1[..|l|];
    }
  }

  // ---------------------------------------------------------------- members that are wanted

  ghost predicate NamedOnce(syms: seq<Nlist>, i: nat, j: nat)
  {
    i < j < |syms| && External(syms[i]) && External(syms[j]) ==> syms[i].name != syms[j].name
  }

  /** Symbol `i` of a member defines what `l` has undefined. */
  ghost predicate Supplies(l: seq<Nlist>, syms: seq<Nlist>, sc: Scales, i: nat)
  {
    i < |syms| && External(syms[i]) && Counts(l, SymReloc(syms[i], sc))
  }

  ghost predicate OtherName(syms: seq<Nlist>, n: nat, name: Name, i: nat)
  {
    i < n && i < |syms| && External(syms[i]) ==> syms[i].name != name
  }

  lemma {:induction false} UntouchedSoFar(l: seq<Nlist>, syms: seq<Nlist>, sc: Scales, n: nat, name: Name)
    requires Unique(l) && n <= |syms| && forall i: nat :: OtherName(syms, n, name, i)
    ensures var l', x := After(l, syms, sc, n), Find(l, name);
            if x < |l| then Find(l', name) == x < |l'| && l'[x] == l[x] else Find(l', name) == |l'|
  {
    if n > 0 {
      var k := n - 1;
      forall i: nat ensures OtherName(syms, k, name, i) {
        assert OtherName(syms, n, name, i);
      }
      UntouchedSoFar(l, syms, sc, k, name);
      assert OtherName(syms, n, name, k);
      if External(syms[k]) {
        StepElsewhere(After(l, syms, sc, k), SymReloc(syms[k], sc), name);
      }
    }
  }

  lemma FirstOf(l: seq<Nlist>, name: Name, x: nat)
    requires x <= |l| && (x < |l| ==> l[x].name == name) && forall y: nat | y < x :: l[y].name != name
    ensures Find(l, name) == x
  {
  }

  lemma StepElsewhere(l: seq<Nlist>, s: Nlist, name: Name)
    requires s.name != name
    ensures var l', x := Step(l, s), Find(l, name);
            if x < |l| then Find(l', name) == x < |l'| && l'[x] == l[x] else Find(l', name) == |l'|
  {
    var l', x := Step(l, s), Find(l, name);
    assert |l'| == |l| || l' == l + [s];
    assert forall y: nat | y < |l| :: l'[y].name == l[y].name;
    FirstOf(l', name, if x < |l| then x else |l'|);
  }

  /** If no name occurs twice in a member, it is taken exactly for a symbol it supplies. */
  lemma {:induction false} TakenIffSupplies(l: seq<Nlist>, syms: seq<Nlist>, sc: Scales, n: nat)
    requires Unique(l) && n <= |syms| && forall i: nat, j: nat :: NamedOnce(syms, i, j)
    ensures NDef(l, syms, sc, n) > 0 <==> exists i: nat :: i < n && Supplies(l, syms, sc, i)
  {
    if n > 0 {
      var k := n - 1;
      TakenIffSupplies(l, syms, sc, k);
      if External(syms[k]) {
        forall i: nat ensures OtherName(syms, k, syms[k].name, i) {
          assert NamedOnce(syms, i, k);
        }
        UntouchedSoFar(l, syms, sc, k, syms[k].name);
      }
      assert Supplies(l, syms, sc, k) ==> k < n;
    }
  }

  /** A member backed out can leave an undefined symbol as a common: `a` and `b` are
      undefined, `b` with a size; the member defines `b` in its text and asks for a common `a`. */
  lemma RejectionCanLeaveCommon(a: Name, b: Name)
    requires a != b
    ensures var l := [Nlist(a, EXT_UNDF, 0), Nlist(b, EXT_UNDF, 4)];
            var syms := [Nlist(a, EXT_UNDF, 8), Nlist(b, EXT_TEXT, 0)];
            && NDef(l, syms, Scales(0, 0, 0), 2) == 0
            && NeededAt(l, 0) && After(l, syms, Scales(0, 0, 0), 2) == [Nlist(a, EXT_UNDF, 8), Nlist(b, EXT_UNDF, 4)]
  {
    var l, sc := [Nlist(a, EXT_UNDF, 0), Nlist(b, EXT_UNDF, 4)], Scales(0, 0, 0);
    var syms := [Nlist(a, EXT_UNDF, 8), Nlist(b, EXT_TEXT, 0)];
    var l' := [Nlist(a, EXT_UNDF, 8), Nlist(b, EXT_UNDF, 4)];
    assert Find(l, a) == 0 && Find(l', b) == 1;
    assert After(l, syms, sc, 0) == l;
    assert After(l, syms, sc, 1) == l';
    assert NDef(l, syms, sc, 1) == 0;
  }

  // ---------------------------------------------------------------- where definitions come from

  /** The text, data and bss of the modules loaded before module `k`. */
  ghost function TBase(loaded: seq<Module>, k: nat): nat
    requires k <= |loaded|
  {
    if k == 0 then 0 else TBase(loaded, k - 1) + loaded[k - 1].text
  }

  ghost function DBase(loaded: seq<Module>, k: nat): nat
    requires k <= |loaded|
  {
    if k == 0 then 0 else DBase(loaded, k - 1) + Round(loaded[k - 1].data, 4)
  }

  ghost function BBase(loaded: seq<Module>, k: nat): nat
    requires k <= |loaded|
  {
    if k == 0 then 0 else BBase(loaded, k - 1) + Round(loaded[k - 1].bss, 4)
  }

  ghost function FirstScales(loaded: seq<Module>, k: nat): Scales
    requires k < |loaded|
  {
    ScalesAt(loaded[k], TBase(loaded, k), DBase(loaded, k), BBase(loaded, k))
  }

  lemma {:induction false} BasesKeep(loaded: seq<Module>, m: Module, k: nat)
    requires k <= |loaded|
    ensures TBase(loaded + [m], k) == TBase(loaded, k)
    ensures DBase(loaded + [m], k) == DBase(loaded, k)
    ensures BBase(loaded + [m], k) == BBase(loaded, k)
  {
    if k > 0 {
      BasesKeep(loaded, m, k - 1);
    }
  }

  /** The list has `e` from symbol `i` of module `k`. */
  ghost predicate Chosen(loaded: seq<Module>, e: Nlist, k: nat, i: nat)
  {
    k < |loaded| && i < |loaded[k].syms| && External(loaded[k].syms[i])
    && SymReloc(loaded[k].syms[i], FirstScales(loaded, k)) == e
  }

  ghost predicate HasOrigin(loaded: seq<Module>, l: seq<Nlist>, x: nat)
  {
    x < |l| && l[x].typ != EXT_UNDF ==> exists k: nat, i: nat :: Chosen(loaded, l[x], k, i)
  }

  ghost predicate Origins(loaded: seq<Module>, l: seq<Nlist>)
  {
    forall x: nat :: HasOrigin(loaded, l, x)
  }

  lemma OriginsKept(loaded: seq<Module>, l: seq<Nlist>, m: Module)
    requires Origins(loaded, l)
    ensures Origins(loaded + [m], l)
  {
    forall x: nat ensures HasOrigin(loaded + [m], l, x) {
      assert HasOrigin(loaded, l, x);
      if x < |l| && l[x].typ != EXT_UNDF {
        var k: nat, i: nat :| Chosen(loaded, l[x], k, i);
        BasesKeep(loaded, m, k);
        assert Chosen(loaded + [m], l[x], k, i);
      }
    }
  }

  /** Reading a module's symbols at its own places keeps the origins known. */
  lemma {:induction false} TakenHasOrigins(loaded: seq<Module>, l: seq<Nlist>, k: nat, n: nat)
    requires k < |loaded| && Origins(loaded, l) && n <= |loaded[k].syms|
    ensures Origins(loaded, After(l, loaded[k].syms, FirstScales(loaded, k), n))
  {
    if n > 0 {
      var j := n - 1;
      TakenHasOrigins(loaded, l, k, j);
      var syms, sc := loaded[k].syms, FirstScales(loaded, k);
      var l1, l2 := After(l, syms, sc, j), After(l, syms, sc, n);
      forall x: nat ensures HasOrigin(loaded, l2, x) {
        assert HasOrigin(loaded, l1, x);
        if x < |l2| && l2[x].typ != EXT_UNDF && External(syms[j]) && l2[x] == SymReloc(syms[j], sc) {
          assert Chosen(loaded, l2[x], k, j);
        }
      }
    }
  }

  lemma PrefixOrigins(loaded: seq<Module>, l: seq<Nlist>, l': seq<Nlist>)
    requires Origins(loaded, l) && |l| <= |l'| && forall x: nat :: RaisedAt(l, l', x)
    ensures Origins(loaded, l'[..|l|])
  {
    forall x: nat ensures HasOrigin(loaded, l'[..|l|], x) {
      assert HasOrigin(loaded, l, x) && RaisedAt(l, l', x);
    }
  }
}
