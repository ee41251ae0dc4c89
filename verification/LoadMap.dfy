/** Between the passes of bin/ld.c and pass 2: `middle` gives every symbol its final value,
    `load2` computes the values of a module's symbols again and compares. */
module LoadMap {
  import opened SymbolSegments
  import opened SymbolTable
  import opened LoaderSymbols
  import opened Loader

  const EXT_COMM: nat := N_COMM + N_EXT

  /** Flags and places from the command line, and the names the loader itself defines. */
  datatype Options = Options(rflag: bool, dflag: bool, nflag: bool, zflag: bool, textbase: nat, hsize: nat,
                             etext: Name, edata: Name, end: Name)

  datatype Sizes = Sizes(t: nat, d: nat, b: nat)

  /** Where text, data, commons and bss begin. */
  datatype Layout = Layout(text: nat, data: nat, comm: nat, bss: nat)

  /** External symbols carry no debugger bits. */
  ghost predicate PlainAt(syms: seq<Nlist>, i: nat)
  {
    i < |syms| && External(syms[i]) ==> syms[i].typ < 16
  }

  ghost predicate Plain(syms: seq<Nlist>)
  {
    forall i: nat :: PlainAt(syms, i)
  }

  ghost predicate PlainModule(loaded: seq<Module>, k: nat)
  {
    k < |loaded| ==> Plain(loaded[k].syms)
  }

  predicate SymType(t: nat)
  {
    t == EXT_UNDF || t == EXT_ABS || t == EXT_TEXT || t == EXT_DATA || t == EXT_BSS
  }

  ghost predicate TypedAt(l: seq<Nlist>, x: nat)
  {
    x < |l| ==> SymType(l[x].typ)
  }

  /** The table of plain modules has only the five types. */
  lemma PlainTypes(loaded: seq<Module>, l: seq<Nlist>)
    requires Origins(loaded, l) && forall k: nat :: PlainModule(loaded, k)
    ensures forall x: nat :: TypedAt(l, x)
  {
    forall x: nat ensures TypedAt(l, x) {
      assert HasOrigin(loaded, l, x);
      if x < |l| && l[x].typ != EXT_UNDF {
        var k: nat, i: nat :| Chosen(loaded, l[x], k, i);
        assert PlainModule(loaded, k) && PlainAt(loaded[k].syms, i);
      }
    }
  }

  // ---------------------------------------------------------------- commons

  predicate IsCommon(e: Nlist)
  {
    e.typ == EXT_UNDF && e.value != 0
  }

  /** A common is aligned by its size. */
  function Alignment(size: nat): (r: nat)
    ensures r == 2 || r == 4 || r == 8
  {
    if size >= 8 then 8 else if size >= 4 then 4 else 2
  }

  /** `csize` after the first `n` symbols. */
  function CSize(l: seq<Nlist>, n: nat): nat
    requires n <= |l|
    decreases n, 0
  {
    if n == 0 then 0
    else if IsCommon(l[n - 1]) then COffset(l, n - 1) + l[n - 1].value
    else CSize(l, n - 1)
  }

  /** Where common `x` begins in the region of commons. */
  function COffset(l: seq<Nlist>, x: nat): nat
    requires x < |l|
    decreases x, 1
  {
    Round(CSize(l, x), Alignment(l[x].value))
  }

  lemma {:induction false} CSizeGrows(l: seq<Nlist>, m: nat, n: nat)
    requires m <= n <= |l|
    ensures CSize(l, m) <= CSize(l, n)
    decreases n
  {
    if m < n {
      CSizeGrows(l, m, n - 1);
    }
  }

  lemma InsideCommons(p: seq<Nlist>, x: nat)
    requires x < |p| && IsCommon(p[x])
    ensures COffset(p, x) + p[x].value <= CSize(p, |p|)
  {
    CSizeGrows(p, x + 1, |p|);
  }

  /** Commons lie apart, each aligned and inside the region. */
  lemma CommonsApart(l: seq<Nlist>, x: nat, y: nat)
    requires x < y < |l| && IsCommon(l[x]) && IsCommon(l[y])
    ensures COffset(l, x) + l[x].value <= COffset(l, y)
    ensures COffset(l, y) + l[y].value <= CSize(l, |l|)
    ensures COffset(l, x) % Alignment(l[x].value) == 0 && COffset(l, y) % Alignment(l[y].value) == 0
  {
    CSizeGrows(l, x + 1, y);
    InsideCommons(l, y);
  }

  // ---------------------------------------------------------------- the final table

  function Placed(l: seq<Nlist>, x: nat): Nlist
    requires x < |l|
  {
    if IsCommon(l[x]) then l[x].(typ := EXT_COMM, value := COffset(l, x)) else l[x]
  }

  function Based(e: Nlist, lay: Layout): Nlist
  {
    var t := e.typ % 32;
    if t == EXT_TEXT then e.(value := Wrap(e.value + lay.text))
    else if t == EXT_DATA then e.(value := Wrap(e.value + lay.data))
    else if t == EXT_BSS then e.(value := Wrap(e.value + lay.bss))
    else if t == EXT_COMM then e.(typ := EXT_BSS, value := Wrap(e.value + lay.comm))
    else e
  }

  /** `ldrsym`: the loader's own definition of a name, if the name is wanted. */
  function LdrSym(l: seq<Nlist>, name: Name, typ: nat, value: nat): (l': seq<Nlist>)
    ensures |l'| == |l|
  {
    var x := Find(l, name);
    if x < |l| && NeededAt(l, x) then l[x := l[x].(typ := typ, value := value)] else l
  }

  function Special(o: Options, name: Name): bool
  {
    name == o.etext || name == o.edata || name == o.end
  }

  ghost predicate MissingAt(l: seq<Nlist>, o: Options, x: nat)
  {
    NeededAt(l, x) && !Special(o, l[x].name)
  }

  /** Some symbol stays undefined. */
  ghost predicate Missing(l: seq<Nlist>, o: Options)
  {
    exists x: nat :: MissingAt(l, o, x)
  }

  /** Relocation is kept, and the output not paged on demand, on request or if some symbol is missing. */
  ghost predicate Relocs(l: seq<Nlist>, o: Options)
  {
    o.rflag || Missing(l, o)
  }

  /** Commons are given places unless the output is to be loaded again. */
  ghost predicate Assigns(l: seq<Nlist>, o: Options)
  {
    if o.rflag then o.dflag else !Missing(l, o)
  }

  function Prepared(l: seq<Nlist>, o: Options, sz: Sizes): (l': seq<Nlist>)
    ensures |l'| == |l|
  {
    LdrSym(LdrSym(LdrSym(l, o.etext, EXT_TEXT, sz.t), o.edata, EXT_DATA, sz.d), o.end, EXT_BSS, sz.b)
  }

  function LayoutFor(o: Options, sz: Sizes, relocs: bool, csize: nat): Layout
  {
    var zflag := o.zflag && !relocs;
    var database := Round(sz.t + o.textbase, if o.nflag || zflag then PAGSIZ else 4) + o.hsize;
    Layout(o.textbase, database, database + sz.d, database + sz.d + csize)
  }

  ghost function FinalLayout(l: seq<Nlist>, o: Options, sz: Sizes): Layout
  {
    LayoutFor(o, sz, Relocs(l, o), if Assigns(l, o) then Round(CSize(Prepared(l, o, sz), |l|), 4) else 0)
  }

  ghost function FinalAt(l: seq<Nlist>, o: Options, sz: Sizes, x: nat): Nlist
    requires x < |l|
  {
    Based(if Assigns(l, o) then Placed(Prepared(l, o, sz), x) else l[x], FinalLayout(l, o, sz))
  }

  // ---------------------------------------------------------------- the two passes agree

  lemma WrapTwice(v: int, a: int, b: int)
    ensures Wrap(Wrap(v + a) + b) == Wrap(v + (a + b))
  {
    var q := (v + a) / WORD;
    assert v + a == WORD * q + Wrap(v + a);
    var w := Wrap(v + a) + b;
    var p := w / WORD;
    assert w == WORD * p + Wrap(w);
    assert v + (a + b) == WORD * (q + p) + Wrap(w);
    QuadraticProbe.DivisionUnique(v + (a + b), WORD, q + p, Wrap(w));
  }

  /** Where module `k` is in pass 2. */
  ghost function SecondScales(loaded: seq<Module>, lay: Layout, k: nat): Scales
    requires k < |loaded|
  {
    ScalesAt(loaded[k], lay.text + TBase(loaded, k), lay.data + DBase(loaded, k), lay.bss + BBase(loaded, k))
  }

  /** Moving a module's bases moves what was relocated by them. */
  lemma BasedReloc(s: Nlist, sc: Scales, sc': Scales, lay: Layout)
    requires s.typ < 16 && External(s) && SymReloc(s, sc).typ != EXT_UNDF
    requires sc' == Scales(sc.t + lay.text, sc.d + lay.data, sc.b + lay.bss)
    ensures SymReloc(s, sc') == Based(SymReloc(s, sc), lay)
  {
    WrapTwice(s.value, sc.t, lay.text);
    WrapTwice(s.value, sc.d, lay.data);
    WrapTwice(s.value, sc.b, lay.bss);
  }

  /** Pass 2 gives the definition that pass 1 chose the value that was fixed between them. */
  lemma PassesAgree(loaded: seq<Module>, l: seq<Nlist>, o: Options, sz: Sizes, x: nat, k: nat, i: nat)
    requires x < |l| && l[x].typ != EXT_UNDF && Chosen(loaded, l[x], k, i) && Plain(loaded[k].syms)
    ensures SymReloc(loaded[k].syms[i], SecondScales(loaded, FinalLayout(l, o, sz), k)) == FinalAt(l, o, sz, x)
  {
    var lay := FinalLayout(l, o, sz);
    assert PlainAt(loaded[k].syms, i);
    DefinedIsBased(l, o, sz, x);
    BasedReloc(loaded[k].syms[i], FirstScales(loaded, k), SecondScales(loaded, lay, k), lay);
  }

  lemma DefinedIsBased(l: seq<Nlist>, o: Options, sz: Sizes, x: nat)
    requires x < |l| && l[x].typ != EXT_UNDF
    ensures FinalAt(l, o, sz, x) == Based(l[x], FinalLayout(l, o, sz))
  {
    PreparedKeeps(l, o, sz, x);
  }

  lemma PreparedKeeps(l: seq<Nlist>, o: Options, sz: Sizes, x: nat)
    requires x < |l|
    ensures !NeededAt(l, x) ==> Prepared(l, o, sz)[x] == l[x]
    ensures Prepared(l, o, sz)[x].name == l[x].name
  {
  }

  // ---------------------------------------------------------------- regions

  datatype Region = Region(start: nat, size: nat)

  predicate Apart(a: Region, b: Region)
  {
    a.start + a.size <= b.start || b.start + b.size <= a.start
  }

  ghost function TextOf(loaded: seq<Module>, lay: Layout, k: nat): Region
    requires k < |loaded|
  {
    Region(lay.text + TBase(loaded, k), loaded[k].text)
  }

  ghost function DataOf(loaded: seq<Module>, lay: Layout, k: nat): Region
    requires k < |loaded|
  {
    Region(lay.data + DBase(loaded, k), loaded[k].data)
  }

  ghost function BssOf(loaded: seq<Module>, lay: Layout, k: nat): Region
    requires k < |loaded|
  {
    Region(lay.bss + BBase(loaded, k), loaded[k].bss)
  }

  ghost function CommonOf(l: seq<Nlist>, lay: Layout, x: nat): Region
    requires x < |l|
  {
    Region(lay.comm + COffset(l, x), l[x].value)
  }

  lemma {:induction false} BasesGrow(loaded: seq<Module>, j: nat, k: nat)
    requires j < k <= |loaded|
    ensures TBase(loaded, j) + loaded[j].text <= TBase(loaded, k)
    ensures DBase(loaded, j) + loaded[j].data <= DBase(loaded, k)
    ensures BBase(loaded, j) + loaded[j].bss <= BBase(loaded, k)
  {
    if j < k - 1 {
      BasesGrow(loaded, j, k - 1);
    }
  }

  ghost predicate SizesOf(loaded: seq<Module>, sz: Sizes)
  {
    var n := |loaded|;
    sz == Sizes(TBase(loaded, n), DBase(loaded, n), BBase(loaded, n))
  }

  /** Text, data and bss of different modules lie apart. */
  lemma SameKindApart(loaded: seq<Module>, lay: Layout, j: nat, k: nat)
    requires j < |loaded| && k < |loaded| && j != k
    ensures Apart(TextOf(loaded, lay, j), TextOf(loaded, lay, k))
    ensures Apart(DataOf(loaded, lay, j), DataOf(loaded, lay, k))
    ensures Apart(BssOf(loaded, lay, j), BssOf(loaded, lay, k))
  {
    if j < k {
      BasesGrow(loaded, j, k);
    } else {
      BasesGrow(loaded, k, j);
    }
  }

  /** Text, data and bss of any two modules lie apart from each other. */
  lemma OtherKindsApart(loaded: seq<Module>, l: seq<Nlist>, o: Options, sz: Sizes, j: nat, k: nat)
    requires SizesOf(loaded, sz) && j < |loaded| && k < |loaded|
    ensures var lay := FinalLayout(l, o, sz);
            && Apart(TextOf(loaded, lay, j), DataOf(loaded, lay, k))
            && Apart(TextOf(loaded, lay, j), BssOf(loaded, lay, k))
            && Apart(DataOf(loaded, lay, j), BssOf(loaded, lay, k))
  {
    BasesGrow(loaded, j, |loaded|);
    BasesGrow(loaded, k, |loaded|);
  }

  /** A common lies in the region of commons, and it is where the final table says. */
  lemma CommonInside(l: seq<Nlist>, o: Options, sz: Sizes, x: nat)
    requires Assigns(l, o) && x < |l| && IsCommon(Prepared(l, o, sz)[x])
    ensures var lay, c := FinalLayout(l, o, sz), CommonOf(Prepared(l, o, sz), FinalLayout(l, o, sz), x);
            lay.comm <= c.start && c.start + c.size <= lay.bss
    ensures FinalAt(l, o, sz, x).typ == EXT_BSS
    ensures FinalAt(l, o, sz, x).value == Wrap(CommonOf(Prepared(l, o, sz), FinalLayout(l, o, sz), x).start)
  {
    InsideCommons(Prepared(l, o, sz), x);
  }

  /** The commons lie apart from text, data and bss. */
  lemma CommonsLieApart(loaded: seq<Module>, l: seq<Nlist>, o: Options, sz: Sizes, x: nat, k: nat)
    requires SizesOf(loaded, sz) && Assigns(l, o) && x < |l| && k < |loaded|
    requires IsCommon(Prepared(l, o, sz)[x])
    ensures var lay, c := FinalLayout(l, o, sz), CommonOf(Prepared(l, o, sz), FinalLayout(l, o, sz), x);
            && Apart(c, TextOf(loaded, lay, k)) && Apart(c, DataOf(loaded, lay, k)) && Apart(c, BssOf(loaded, lay, k))
  {
    CommonInside(l, o, sz, x);
    BasesGrow(loaded, k, |loaded|);
  }

  /** Any two commons lie apart, however the loader came to place them. */
  lemma CommonsLieApartFromEachOther(p: seq<Nlist>, lay: Layout, x: nat, y: nat)
    requires x < |p| && y < |p| && x != y && IsCommon(p[x]) && IsCommon(p[y])
    ensures Apart(CommonOf(p, lay, x), CommonOf(p, lay, y))
  {
    if x < y {
      CommonsApart(p, x, y);
    } else {
      CommonsApart(p, y, x);
    }
  }

  // ---------------------------------------------------------------- middle

  ghost predicate SameName(l: seq<Nlist>, l': seq<Nlist>, x: nat)
  {
    x < |l| && x < |l'| ==> l'[x].name == l[x].name
  }

  lemma SameNamesSameFind(l: seq<Nlist>, l': seq<Nlist>, name: Name)
    requires |l| == |l'| && forall x: nat :: SameName(l, l', x)
    ensures Find(l', name) == Find(l, name)
  {
    var x, y := Find(l, name), Find(l', name);
    assert SameName(l, l', x) && SameName(l, l', y);
  }

  lemma LdrSymNames(l: seq<Nlist>, name: Name, typ: nat, value: nat)
    ensures forall x: nat :: SameName(l, LdrSym(l, name, typ, value), x)
  {
  }

  /** Entry `x` of the table while commons are being placed, those below `n` done. */
  ghost predicate PlacedSoFar(p: seq<Nlist>, l: seq<Nlist>, n: nat, x: nat)
  {
    x < |p| && x < |l| ==> l[x] == if x < n then Placed(p, x) else p[x]
  }

  /** Entry `x` of the table while final values are being set, those below `n` done. */
  ghost predicate BasedSoFar(q: seq<Nlist>, l: seq<Nlist>, lay: Layout, n: nat, x: nat)
  {
    x < |q| && x < |l| ==> l[x] == if x < n then Based(q[x], lay) else q[x]
  }

  lemma PlacedStep(p: seq<Nlist>, l: seq<Nlist>, l': seq<Nlist>, n: nat, m: nat)
    requires |p| == |l| && n < |p| && m == n + 1 && forall x: nat :: PlacedSoFar(p, l, n, x)
    requires l' == l[n := Placed(p, n)]
    ensures l[n] == p[n] && forall x: nat :: PlacedSoFar(p, l', m, x)
  {
    assert PlacedSoFar(p, l, n, n);
    forall x: nat ensures PlacedSoFar(p, l', m, x) {
      assert PlacedSoFar(p, l, n, x);
    }
  }

  lemma BasedStep(q: seq<Nlist>, l: seq<Nlist>, l': seq<Nlist>, lay: Layout, n: nat, m: nat)
    requires |q| == |l| && n < |q| && m == n + 1 && forall x: nat :: BasedSoFar(q, l, lay, n, x)
    requires l' == l[n := Based(q[n], lay)]
    ensures l[n] == q[n] && forall x: nat :: BasedSoFar(q, l', lay, m, x)
  {
    assert BasedSoFar(q, l, lay, n, n);
    forall x: nat ensures BasedSoFar(q, l', lay, m, x) {
      assert BasedSoFar(q, l, lay, n, x);
    }
  }

  lemma FinalReached(l: seq<Nlist>, q: seq<Nlist>, l': seq<Nlist>, o: Options, sz: Sizes, lay: Layout)
    requires |l| == |q| == |l'| && lay == FinalLayout(l, o, sz)
    requires forall x: nat :: BasedSoFar(q, l', lay, |q|, x)
    requires if Assigns(l, o) then forall x: nat :: PlacedSoFar(Prepared(l, o, sz), q, |q|, x) else q == l
    ensures forall x: nat :: FinalIn(l, l', o, sz, x)
  {
    forall x: nat ensures FinalIn(l, l', o, sz, x) {
      assert BasedSoFar(q, l', lay, |q|, x);
      if Assigns(l, o) {
        assert PlacedSoFar(Prepared(l, o, sz), q, |q|, x);
      }
    }
  }

  ghost predicate NotMissingBefore(l: seq<Nlist>, o: Options, n: nat, x: nat)
  {
    x < n ==> !MissingAt(l, o, x)
  }

  ghost predicate FinalIn(l: seq<Nlist>, l': seq<Nlist>, o: Options, sz: Sizes, x: nat)
  {
    x < |l| && x < |l'| ==> l'[x] == FinalAt(l, o, sz, x)
  }

  /** Symbol `i` is a definition that does not agree with the table. */
  ghost predicate Clash(l: seq<Nlist>, syms: seq<Nlist>, sc: Scales, i: nat)
  {
    && i < |syms| && External(syms[i]) && Find(l, syms[i].name) < |l|
    && var s, e := SymReloc(syms[i], sc), l[Find(l, syms[i].name)];
       s.typ != EXT_UNDF && (s.typ != e.typ || s.value != e.value)
  }

  lemma RelocKeeps(s: Nlist, sc: Scales)
    ensures SymReloc(s, sc).name == s.name && (SymReloc(s, sc).typ == EXT_UNDF <==> s.typ == EXT_UNDF)
  {
  }

  lemma ClashOne(l: seq<Nlist>, s: Nlist, r: Nlist, sc: Scales, syms: seq<Nlist>)
    requires (External(s) ==> Find(l, s.name) < |l|) && r == SymReloc(s, sc) && syms == [s]
    ensures Clash(l, syms, sc, 0) <==>
              External(s) && r.typ != EXT_UNDF && (r.typ != l[Find(l, s.name)].typ || r.value != l[Find(l, s.name)].value)
  {
    assert syms[0] == s;
  }

  ghost predicate Named(l: seq<Nlist>, syms: seq<Nlist>, i: nat)
  {
    i < |syms| && External(syms[i]) ==> Find(l, syms[i].name) < |l|
  }

  /** Reference `i`, if it is one and below `n`, leads to the table's symbol of its name. */
  ghost predicate RefAt(l: seq<Nlist>, syms: seq<Nlist>, refs: map<nat, nat>, n: nat, i: nat)
  {
    && (i in refs <==> i < n && i < |syms| && External(syms[i]) && syms[i].typ == EXT_UNDF)
    && (i in refs ==> refs[i] < |l| && refs[i] == Find(l, syms[i].name))
  }

  ghost predicate ClashAt(l: seq<Nlist>, syms: seq<Nlist>, sc: Scales, clashes: set<nat>, n: nat, i: nat)
  {
    i in clashes <==> i < n && Clash(l, syms, sc, i)
  }

  lemma ResolvedMore(l: seq<Nlist>, syms: seq<Nlist>, sc: Scales, refs: map<nat, nat>, clashes: set<nat>,
                     n: nat, m: nat, ref: bool, clash: bool, x: nat)
    requires n < |syms| && m == n + 1 && Named(l, syms, n)
    requires forall i: nat :: RefAt(l, syms, refs, n, i)
    requires forall i: nat :: ClashAt(l, syms, sc, clashes, n, i)
    requires ref <==> External(syms[n]) && syms[n].typ == EXT_UNDF
    requires ref ==> x == Find(l, syms[n].name)
    requires clash <==> Clash(l, [syms[n]], sc, 0)
    ensures var refs' := if ref then refs[n := x] else refs; forall i: nat :: RefAt(l, syms, refs', m, i)
    ensures var clashes' := if clash then clashes + {n} else clashes; forall i: nat :: ClashAt(l, syms, sc, clashes', m, i)
  {
    var refs', clashes' := if ref then refs[n := x] else refs, if clash then clashes + {n} else clashes;
    forall i: nat ensures RefAt(l, syms, refs', m, i) {
      assert RefAt(l, syms, refs, n, i);
    }
    forall i: nat ensures ClashAt(l, syms, sc, clashes', m, i) {
      assert ClashAt(l, syms, sc, clashes, n, i);
    }
  }

  /** The clashes of module `k` are found, at its place in the output. */
  ghost predicate ModuleChecked(loaded: seq<Module>, l: seq<Nlist>, lay: Layout, clashes: seq<set<nat>>, k: nat)
  {
    k < |loaded| && k < |clashes| ==>
      forall i: nat :: ClashAt(l, loaded[k].syms, SecondScales(loaded, lay, k), clashes[k], |loaded[k].syms|, i)
  }

  /** If the definition of `x` came from symbol `i` of module `k`, that symbol does not clash. */
  ghost predicate NoFalseAlarm(loaded: seq<Module>, l: seq<Nlist>, clashes: seq<set<nat>>, x: nat, k: nat, i: nat)
  {
    x < |l| && l[x].typ != EXT_UNDF && Chosen(loaded, l[x], k, i) && k < |clashes| ==> i !in clashes[k]
  }

  lemma FinalNames(l: seq<Nlist>, l': seq<Nlist>, o: Options, sz: Sizes)
    requires |l| == |l'| && forall x: nat :: FinalIn(l, l', o, sz, x)
    ensures forall x: nat :: SameName(l, l', x)
  {
    forall x: nat ensures SameName(l, l', x) {
      assert FinalIn(l, l', o, sz, x);
      if x < |l| {
        PreparedKeeps(l, o, sz, x);
      }
    }
  }

  lemma KnownNamed(loaded: seq<Module>, l: seq<Nlist>, l': seq<Nlist>, k: nat)
    requires Known(loaded, l) && |l| == |l'| && k < |loaded| && forall x: nat :: SameName(l, l', x)
    ensures forall i: nat :: Named(l', loaded[k].syms, i)
  {
    var syms := loaded[k].syms;
    forall i: nat ensures Named(l', syms, i) {
      assert KnownAt(loaded, l, k, i);
      if i < |syms| {
        SameNamesSameFind(l, l', syms[i].name);
      }
    }
  }

  lemma CheckedMore(loaded: seq<Module>, l: seq<Nlist>, lay: Layout, clashes: seq<set<nat>>, k: nat, c: set<nat>)
    requires k == |clashes| < |loaded| && forall j: nat :: ModuleChecked(loaded, l, lay, clashes, j)
    requires forall i: nat :: ClashAt(l, loaded[k].syms, SecondScales(loaded, lay, k), c, |loaded[k].syms|, i)
    ensures forall j: nat :: ModuleChecked(loaded, l, lay, clashes + [c], j)
  {
    forall j: nat ensures ModuleChecked(loaded, l, lay, clashes + [c], j) {
      assert ModuleChecked(loaded, l, lay, clashes, j);
    }
  }

  lemma NoFalseAlarms(loaded: seq<Module>, l: seq<Nlist>, l': seq<Nlist>, o: Options, sz: Sizes, clashes: seq<set<nat>>)
    requires |l| == |l'| && Unique(l) && |clashes| == |loaded|
    requires (forall x: nat :: FinalIn(l, l', o, sz, x)) && forall k: nat :: PlainModule(loaded, k)
    requires forall k: nat :: ModuleChecked(loaded, l', FinalLayout(l, o, sz), clashes, k)
    ensures forall x: nat, k: nat, i: nat :: NoFalseAlarm(loaded, l, clashes, x, k, i)
  {
    FinalNames(l, l', o, sz);
    forall x: nat, k: nat, i: nat ensures NoFalseAlarm(loaded, l, clashes, x, k, i) {
      if x < |l| && l[x].typ != EXT_UNDF && Chosen(loaded, l[x], k, i) && k < |clashes| {
        assert PlainModule(loaded, k) && ModuleChecked(loaded, l', FinalLayout(l, o, sz), clashes, k);
        assert FinalIn(l, l', o, sz, x);
        PassesAgree(loaded, l, o, sz, x, k, i);
        FoundAt(l, x);
        SameNamesSameFind(l, l', l[x].name);
        var syms, sc := loaded[k].syms, SecondScales(loaded, FinalLayout(l, o, sz), k);
        assert ClashAt(l', syms, sc, clashes[k], |syms|, i);
      }
    }
  }

  class Linker {
    const ld: Loader
    var torigin: nat
    var dorigin: nat
    var borigin: nat

    constructor (ld: Loader)
      ensures this.ld == ld
    {
      this.ld := ld;
      torigin, dorigin, borigin := 0, 0, 0;
    }

    /** Whether some symbol but those the loader defines has no definition. */
    method AnyMissing(o: Options) returns (missing: bool)
      requires ld.tab.Valid()
      ensures missing <==> Missing(ld.Table(), o)
    {
      ghost var l := ld.Table();
      var n := ld.Size();
      for i := 0 to n
        invariant forall x: nat :: NotMissingBefore(l, o, i, x)
      {
        var sp := ld.GetTable(i);
        if NeededAt([sp], 0) && !Special(o, sp.name) {
          assert MissingAt(l, o, i);
          return true;
        }
        var j := i + 1;
        forall x: nat ensures NotMissingBefore(l, o, j, x) {
          assert NotMissingBefore(l, o, i, x);
        }
      }
      forall x: nat ensures !MissingAt(l, o, x) {
        assert NotMissingBefore(l, o, n, x);
      }
      return false;
    }

    /** `ldrsym`, on the symbol found before. */
    method LdrSymAt(p: nat, name: Name, typ: nat, value: nat)
      requires ld.tab.Valid() && p == Find(ld.Table(), name)
      modifies ld.tab
      ensures ld.tab.Valid() && ld.Table() == LdrSym(old(ld.Table()), name, typ, value)
      ensures forall x: nat :: SameName(old(ld.Table()), ld.Table(), x)
    {
      LdrSymNames(ld.Table(), name, typ, value);
      var n := ld.Size();
      if p == n {
        return;
      }
      var sp := ld.GetTable(p);
      if sp.typ != EXT_UNDF || sp.value != 0 {
        return;
      }
      ld.SetTable(p, typ, value);
    }

    /** A common gets the next place of its alignment. */
    method PlaceOne(i: nat, csize: nat) returns (csize': nat)
      requires ld.tab.Valid() && i < |ld.Table()|
      modifies ld.tab
      ensures ld.tab.Valid()
      ensures var e := old(ld.Table())[i];
              if IsCommon(e) then
                && ld.Table() == old(ld.Table())[i := e.(typ := EXT_COMM, value := Round(csize, Alignment(e.value)))]
                && csize' == Round(csize, Alignment(e.value)) + e.value
              else ld.Table() == old(ld.Table()) && csize' == csize
    {
      csize' := csize;
      var sp := ld.GetTable(i);
      if sp.typ == EXT_UNDF && sp.value != 0 {
        var t := sp.value;
        var rnd := if t >= 8 then 8 else if t >= 4 then 4 else 2;
        csize' := Round(csize', rnd);
        ld.SetTable(i, EXT_COMM, csize');
        csize' := csize' + t;
      }
    }

    /** The loop that gives the commons places. */
    method PlaceCommons() returns (csize: nat)
      requires ld.tab.Valid()
      modifies ld.tab
      ensures ld.tab.Valid() && |ld.Table()| == |old(ld.Table())|
      ensures csize == CSize(old(ld.Table()), |old(ld.Table())|)
      ensures forall x: nat :: PlacedSoFar(old(ld.Table()), ld.Table(), |old(ld.Table())|, x)
    {
      ghost var p := ld.Table();
      csize := 0;
      var n := ld.Size();
      for i := 0 to n
        invariant ld.tab.Valid() && |ld.Table()| == |p| == n && csize == CSize(p, i)
        invariant forall x: nat :: PlacedSoFar(p, ld.Table(), i, x)
      {
        PlacedStep(p, ld.Table(), ld.Table()[i := Placed(p, i)], i, i + 1);
        ghost var l := ld.Table();
        csize := PlaceOne(i, csize);
        assert ld.Table() == l[i := Placed(p, i)];
      }
    }

    /** A symbol gets the base of its kind added. */
    method SetOne(i: nat, lay: Layout)
      requires ld.tab.Valid() && i < |ld.Table()|
      modifies ld.tab
      ensures ld.tab.Valid()
      ensures ld.Table() == old(ld.Table())[i := Based(old(ld.Table())[i], lay)]
    {
      var sp := ld.GetTable(i);
      var t := sp.typ % 32;
      if t == EXT_TEXT {
        ld.SetTable(i, sp.typ, Wrap(sp.value + lay.text));
      } else if t == EXT_DATA {
        ld.SetTable(i, sp.typ, Wrap(sp.value + lay.data));
      } else if t == EXT_BSS {
        ld.SetTable(i, sp.typ, Wrap(sp.value + lay.bss));
      } else if t == EXT_COMM {
        ld.SetTable(i, EXT_BSS, Wrap(sp.value + lay.comm));
      }
    }

    /** The loop that sets symbols to their final value. */
    method SetFinal(lay: Layout)
      requires ld.tab.Valid()
      modifies ld.tab
      ensures ld.tab.Valid() && |ld.Table()| == |old(ld.Table())|
      ensures forall x: nat :: BasedSoFar(old(ld.Table()), ld.Table(), lay, |old(ld.Table())|, x)
    {
      ghost var q := ld.Table();
      var n := ld.Size();
      for i := 0 to n
        invariant ld.tab.Valid() && |ld.Table()| == |q| == n
        invariant forall x: nat :: BasedSoFar(q, ld.Table(), lay, i, x)
      {
        BasedStep(q, ld.Table(), ld.Table()[i := Based(q[i], lay)], lay, i, i + 1);
        SetOne(i, lay);
      }
    }

    /** The symbols that the loader itself may have to define. */
    method FindSpecials(o: Options) returns (ok: bool, pEtext: nat, pEdata: nat, pEnd: nat)
      requires ld.tab.Valid()
      modifies ld.tab
      ensures ld.tab.Valid() && ld.Table() == old(ld.Table()) && (!ok ==> |ld.Table()| >= NSYM)
      ensures ok ==> pEtext == Find(ld.Table(), o.etext) && pEdata == Find(ld.Table(), o.edata)
                     && pEnd == Find(ld.Table(), o.end)
    {
      pEdata, pEnd := 0, 0;
      ok, pEtext := ld.Slookup(o.etext);
      if ok {
        ok, pEdata := ld.Slookup(o.edata);
      }
      if ok {
        ok, pEnd := ld.Slookup(o.end);
      }
    }

    method DefineSpecials(o: Options, sz: Sizes, pEtext: nat, pEdata: nat, pEnd: nat)
      requires ld.tab.Valid()
      requires pEtext == Find(ld.Table(), o.etext) && pEdata == Find(ld.Table(), o.edata)
      requires pEnd == Find(ld.Table(), o.end)
      modifies ld.tab
      ensures ld.tab.Valid() && ld.Table() == Prepared(old(ld.Table()), o, sz)
    {
      ghost var l := ld.Table();
      LdrSymAt(pEtext, o.etext, EXT_TEXT, sz.t);
      ghost var l1 := ld.Table();
      SameNamesSameFind(l, l1, o.edata);
      SameNamesSameFind(l, l1, o.end);
      LdrSymAt(pEdata, o.edata, EXT_DATA, sz.d);
      SameNamesSameFind(l1, ld.Table(), o.end);
      LdrSymAt(pEnd, o.end, EXT_BSS, sz.b);
    }

    /** `middle`. */
    method Middle(o: Options) returns (ok: bool, lay: Layout)
      requires ld.Valid() && forall x: nat :: TypedAt(ld.Table(), x)
      modifies this, ld.tab
      ensures ld.tab.Valid() && (!ok ==> |ld.Table()| >= NSYM)
      ensures var l, sz := old(ld.Table()), Sizes(ld.tsize, ld.dsize, ld.bsize);
              ok ==>
                && lay == FinalLayout(l, o, sz) && |ld.Table()| == |l|
                && torigin == lay.text && dorigin == lay.data && borigin == lay.bss
                && forall x: nat :: FinalIn(l, ld.Table(), o, sz, x)
    {
      ghost var l := ld.Table();
      var sz := Sizes(ld.tsize, ld.dsize, ld.bsize);
      torigin, dorigin, borigin := 0, 0, 0;
      lay := Layout(0, 0, 0, 0);
      var pEtext, pEdata, pEnd;
      ok, pEtext, pEdata, pEnd := FindSpecials(o);
      if !ok {
        return;
      }
      var rflag, dflag := o.rflag, o.dflag;
      if !rflag {
        var missing := AnyMissing(o);
        if missing {
          rflag, dflag := true, false;
        }
      }
      var csize := 0;
      if dflag || !rflag {
        DefineSpecials(o, sz, pEtext, pEdata, pEnd);
        csize := PlaceCommons();
        csize := Round(csize, 4);
      }
      ghost var q := ld.Table();
      lay := LayoutFor(o, sz, rflag, csize);
      torigin, dorigin, borigin := lay.text, lay.data, lay.bss;
      SetFinal(lay);
      FinalReached(l, q, ld.Table(), o, sz, lay);
    }

    /** One symbol of a module: a reference, a definition that clashes, or neither. */
    method ResolveOne(s: Nlist, sc: Scales) returns (ref: bool, clash: bool, x: nat)
      requires ld.tab.Valid() && (External(s) ==> Find(ld.Table(), s.name) < |ld.Table()|)
      modifies ld.tab
      ensures ld.tab.Valid() && ld.Table() == old(ld.Table())
      ensures ref <==> External(s) && s.typ == EXT_UNDF
      ensures ref ==> x == Find(ld.Table(), s.name)
      ensures clash <==> Clash(ld.Table(), [s], sc, 0)
    {
      ref, clash, x := false, false, 0;
      RelocKeeps(s, sc);
      ClashOne(ld.Table(), s, SymReloc(s, sc), sc, [s]);
      if External(s) {
        var cursym, sp := SymReloc(s, sc), s;
        x, sp := LookedUp(cursym.name);
        if cursym.typ == EXT_UNDF {
          ref := true;
        } else {
          clash := cursym.typ != sp.typ || cursym.value != sp.value;
        }
      }
    }

    /** The table's symbol of a name that it has. */
    method LookedUp(name: Name) returns (x: nat, sp: Nlist)
      requires ld.tab.Valid() && Find(ld.Table(), name) < |ld.Table()|
      modifies ld.tab
      ensures ld.tab.Valid() && ld.Table() == old(ld.Table())
      ensures x == Find(ld.Table(), name) && x < |ld.Table()| && sp == ld.Table()[x]
    {
      var ok;
      ok, x := ld.Slookup(name);
      sp := ld.GetTable(x);
    }

    /** The loop of `load2` over the symbols of a module: `refs` numbers the references to
        symbols defined elsewhere, `clashes` are the definitions reported as made twice. */
    method Resolve(syms: seq<Nlist>, sc: Scales) returns (refs: map<nat, nat>, clashes: set<nat>)
      requires ld.tab.Valid() && forall i: nat :: Named(ld.Table(), syms, i)
      modifies ld.tab
      ensures ld.tab.Valid() && ld.Table() == old(ld.Table())
      ensures forall i: nat :: RefAt(ld.Table(), syms, refs, |syms|, i)
      ensures forall i: nat :: ClashAt(ld.Table(), syms, sc, clashes, |syms|, i)
    {
      ghost var l := ld.Table();
      refs, clashes := map[], {};
      var symno := 0;
      while symno < |syms|
        invariant ld.tab.Valid() && ld.Table() == l && symno <= |syms|
        invariant forall i: nat :: RefAt(l, syms, refs, symno, i)
        invariant forall i: nat :: ClashAt(l, syms, sc, clashes, symno, i)
        decreases |syms| - symno
      {
        assert Named(l, syms, symno);
        var ref, clash, x := ResolveOne(syms[symno], sc);
        ResolvedMore(l, syms, sc, refs, clashes, symno, symno + 1, ref, clash, x);
        refs := if ref then refs[symno := x] else refs;
        clashes := if clash then clashes + {symno} else clashes;
        symno := symno + 1;
      }
    }

    /** `load2`: the module's symbols against the table, and on to the next module's place. */
    method Load2(m: Module) returns (refs: map<nat, nat>, clashes: set<nat>)
      requires ld.tab.Valid() && forall i: nat :: Named(ld.Table(), m.syms, i)
      modifies this, ld.tab
      ensures ld.tab.Valid() && ld.Table() == old(ld.Table())
      ensures forall i: nat :: RefAt(ld.Table(), m.syms, refs, |m.syms|, i)
      ensures forall i: nat ::
                ClashAt(ld.Table(), m.syms, ScalesAt(m, old(torigin), old(dorigin), old(borigin)), clashes, |m.syms|, i)
      ensures torigin == old(torigin) + m.text && dorigin == old(dorigin) + Round(m.data, 4)
              && borigin == old(borigin) + Round(m.bss, 4)
    {
      refs, clashes := Resolve(m.syms, ScalesAt(m, torigin, dorigin, borigin));
      torigin := torigin + m.text;
      dorigin := dorigin + Round(m.data, 4);
      borigin := borigin + Round(m.bss, 4);
    }

    /** Pass 2 over all loaded modules, after `middle`: no definition that pass 1 chose is
        reported as made twice. */
    method Pass2(lay: Layout, ghost l: seq<Nlist>, ghost o: Options) returns (clashes: seq<set<nat>>)
      requires ld.tab.Valid() && |ld.Table()| == |l| && Unique(l) && Known(ld.loaded, l)
      requires var sz := Sizes(ld.tsize, ld.dsize, ld.bsize);
               && lay == FinalLayout(l, o, sz)
               && forall x: nat :: FinalIn(l, ld.Table(), o, sz, x)
      requires torigin == lay.text && dorigin == lay.data && borigin == lay.bss
      requires forall k: nat :: PlainModule(ld.loaded, k)
      modifies this, ld.tab
      ensures ld.tab.Valid() && ld.Table() == old(ld.Table())
      ensures |clashes| == |ld.loaded|
      ensures forall k: nat :: ModuleChecked(ld.loaded, ld.Table(), lay, clashes, k)
      ensures forall x: nat, k: nat, i: nat :: NoFalseAlarm(ld.loaded, l, clashes, x, k, i)
    {
      ghost var sz, l', loaded := Sizes(ld.tsize, ld.dsize, ld.bsize), ld.Table(), ld.loaded;
      FinalNames(l, l', o, sz);
      clashes := [];
      for k := 0 to |ld.loaded|
        invariant ld.tab.Valid() && ld.Table() == l' && ld.loaded == loaded && |clashes| == k
        invariant torigin == lay.text + TBase(loaded, k) && dorigin == lay.data + DBase(loaded, k)
        invariant borigin == lay.bss + BBase(loaded, k)
        invariant forall j: nat :: ModuleChecked(loaded, l', lay, clashes, j)
      {
        KnownNamed(loaded, l, l', k);
        var m := ld.loaded[k];
        var refs, c := Load2(m);
        CheckedMore(loaded, l', lay, clashes, k, c);
        clashes := clashes + [c];
      }
      NoFalseAlarms(loaded, l, l', o, sz, clashes);
    }
  }
}
