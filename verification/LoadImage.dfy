/** The output of bin/ld.c as an image: where in it a module's own addresses, the loader's own names and the
    commons come to lie, said without how the passes compute it. */
module LoadImage {
  import QuadraticProbe
  import opened SymbolSegments
  import opened LoaderSymbols
  import opened Loader
  import opened LoadMap

  // ---------------------------------------------------------------- a module's own image

  /** Its text begins at 0. */
  function OwnText(m: Module): Region
  {
    Region(0, m.text)
  }

  /** Its data is behind the text: at once, or on the next page if the text is to be shared or paged. */
  function OwnData(m: Module): (r: Region)
    ensures r.size == m.data
    ensures m.magic.OMAGIC? ==> r.start == m.text
    ensures !m.magic.OMAGIC? ==> m.text <= r.start < m.text + PAGSIZ && r.start % PAGSIZ == 0
  {
    Region(if m.magic.OMAGIC? then m.text else Round(m.text, PAGSIZ), m.data)
  }

  /** Its bss is right behind the data. */
  function OwnBss(m: Module): (r: Region)
    ensures r.start == OwnData(m).start + m.data && r.size == m.bss
  {
    Region(OwnData(m).start + m.data, m.bss)
  }

  /** The address `v` of region `own` is moved to the same place in region `out`, in a word of the machine. */
  ghost predicate MovedTo(own: Region, out: Region, v: nat, w: nat)
  {
    w == Wrap(out.start + (v - own.start))
  }

  /** Entry `e` is the definition that symbol `i` of module `k` makes. */
  ghost predicate Lands(loaded: seq<Module>, lay: Layout, k: nat, i: nat, e: Nlist)
  {
    && k < |loaded| && i < |loaded[k].syms|
    && var m, s := loaded[k], loaded[k].syms[i];
       && External(s) && e.name == s.name
       && (if s.typ == EXT_TEXT then e.typ == EXT_TEXT && MovedTo(OwnText(m), TextOf(loaded, lay, k), s.value, e.value)
           else if s.typ == EXT_DATA then e.typ == EXT_DATA && MovedTo(OwnData(m), DataOf(loaded, lay, k), s.value, e.value)
           else if s.typ == EXT_BSS then e.typ == EXT_BSS && MovedTo(OwnBss(m), BssOf(loaded, lay, k), s.value, e.value)
           else e.typ == EXT_ABS && e.value == s.value)
  }

  /** An address that is `off` bytes into a region is `off` bytes into the other. */
  lemma MovedInside(own: Region, out: Region, v: nat, w: nat, off: nat)
    requires MovedTo(own, out, v, w) && own.size == out.size && v == own.start + off && off < own.size
    ensures off < out.size && w == Wrap(out.start + off)
  {
  }

  /** Pass 2 moves each part of a module as a whole to that part's place in the output. */
  lemma SecondLands(loaded: seq<Module>, lay: Layout, k: nat, i: nat)
    requires k < |loaded| && i < |loaded[k].syms| && Plain(loaded[k].syms)
    requires External(loaded[k].syms[i]) && loaded[k].syms[i].typ != EXT_UNDF
    ensures Lands(loaded, lay, k, i, SymReloc(loaded[k].syms[i], SecondScales(loaded, lay, k)))
  {
    var m, s, sc := loaded[k], loaded[k].syms[i], SecondScales(loaded, lay, k);
    assert PlainAt(m.syms, i);
    assert s.value + sc.t == TextOf(loaded, lay, k).start + (s.value - OwnText(m).start);
    assert s.value + sc.d == DataOf(loaded, lay, k).start + (s.value - OwnData(m).start);
    assert s.value + sc.b == BssOf(loaded, lay, k).start + (s.value - OwnBss(m).start);
  }

  /** A definition makes one entry. */
  lemma LandsOnce(loaded: seq<Module>, lay: Layout, k: nat, i: nat, e: Nlist, f: Nlist)
    requires Lands(loaded, lay, k, i, e) && Lands(loaded, lay, k, i, f)
    ensures e == f
  {
  }

  // ---------------------------------------------------------------- the output's image

  /** `at` is the first multiple of `unit` from `from` on. */
  ghost predicate NextMultiple(at: int, from: nat, unit: nat)
    requires unit > 0
  {
    from <= at < from + unit && at % unit == 0
  }

  /** Text begins at `textbase`; data behind it, the header's size further than a page or, if text is neither
      shared nor paged, a long word ends; then the commons. */
  lemma ImageInOrder(l: seq<Nlist>, o: Options, sz: Sizes)
    ensures var lay := FinalLayout(l, o, sz);
            && lay.text == o.textbase && lay.comm == lay.data + sz.d
            && (if o.nflag || (o.zflag && !Relocs(l, o)) then NextMultiple(lay.data - o.hsize, o.textbase + sz.t, PAGSIZ)
                else NextMultiple(lay.data - o.hsize, o.textbase + sz.t, 4))
  {
    LayoutInOrder(o, sz, Relocs(l, o), if Assigns(l, o) then Round(CSize(Prepared(l, o, sz), |l|), 4) else 0);
  }

  lemma LayoutInOrder(o: Options, sz: Sizes, relocs: bool, csize: nat)
    ensures var lay := LayoutFor(o, sz, relocs, csize);
            && lay.text == o.textbase && lay.comm == lay.data + sz.d && lay.bss == lay.comm + csize
            && (if o.nflag || (o.zflag && !relocs) then NextMultiple(lay.data - o.hsize, o.textbase + sz.t, PAGSIZ)
                else NextMultiple(lay.data - o.hsize, o.textbase + sz.t, 4))
  {
  }

  /** The bss begins at the first long word behind the commons, at once if none were given places. */
  lemma BssBehindCommons(l: seq<Nlist>, o: Options, sz: Sizes)
    ensures var lay := FinalLayout(l, o, sz);
            && (!Assigns(l, o) ==> lay.bss == lay.comm)
            && (Assigns(l, o) ==> NextMultiple(lay.bss - lay.comm, CSize(Prepared(l, o, sz), |l|), 4))
  {
    LayoutInOrder(o, sz, Relocs(l, o), if Assigns(l, o) then Round(CSize(Prepared(l, o, sz), |l|), 4) else 0);
  }

  /** The three names are different. */
  ghost predicate ThreeNames(o: Options)
  {
    o.etext != o.edata && o.etext != o.end && o.edata != o.end
  }

  lemma LdrSymAtName(l: seq<Nlist>, name: Name, typ: nat, value: nat, x: nat)
    requires Unique(l) && x < |l|
    ensures LdrSym(l, name, typ, value)[x]
            == if l[x].name == name && NeededAt(l, x) then l[x].(typ := typ, value := value) else l[x]
    ensures Unique(LdrSym(l, name, typ, value))
  {
    var l' := LdrSym(l, name, typ, value);
    if l[x].name == name {
      FoundAt(l, x);
    }
    forall a: nat, b: nat ensures Distinct(l', a, b) {
      assert Distinct(l, a, b);
    }
  }

  lemma PreparedAt(l: seq<Nlist>, o: Options, sz: Sizes, x: nat)
    requires Unique(l) && x < |l| && ThreeNames(o)
    ensures var p := Prepared(l, o, sz)[x];
            if !NeededAt(l, x) then p == l[x]
            else if l[x].name == o.etext then p == l[x].(typ := EXT_TEXT, value := sz.t)
            else if l[x].name == o.edata then p == l[x].(typ := EXT_DATA, value := sz.d)
            else if l[x].name == o.end then p == l[x].(typ := EXT_BSS, value := sz.b)
            else p == l[x]
  {
    var l1 := LdrSym(l, o.etext, EXT_TEXT, sz.t);
    var l2 := LdrSym(l1, o.edata, EXT_DATA, sz.d);
    LdrSymAtName(l, o.etext, EXT_TEXT, sz.t, x);
    LdrSymAtName(l1, o.edata, EXT_DATA, sz.d, x);
    LdrSymAtName(l2, o.end, EXT_BSS, sz.b, x);
  }

  /** All text is below the end of text, all data below the end of data, all bss below the end. */
  lemma EndsAreEnds(loaded: seq<Module>, lay: Layout, sz: Sizes, k: nat)
    requires SizesOf(loaded, sz) && k < |loaded|
    ensures TextOf(loaded, lay, k).start + loaded[k].text <= lay.text + sz.t
    ensures DataOf(loaded, lay, k).start + loaded[k].data <= lay.data + sz.d
    ensures BssOf(loaded, lay, k).start + loaded[k].bss <= lay.bss + sz.b
    ensures k == |loaded| - 1 ==> TextOf(loaded, lay, k).start + loaded[k].text == lay.text + sz.t
    ensures k == |loaded| - 1 ==> lay.data + sz.d < DataOf(loaded, lay, k).start + loaded[k].data + 4
    ensures k == |loaded| - 1 ==> lay.bss + sz.b < BssOf(loaded, lay, k).start + loaded[k].bss + 4
  {
    BasesGrow(loaded, k, |loaded|);
  }

  /** Modules follow one another: texts at once, data and bss each at the next long word. */
  lemma PartsPacked(loaded: seq<Module>, lay: Layout, k: nat, next: nat)
    requires next == k + 1 < |loaded|
    ensures TextOf(loaded, lay, next).start == TextOf(loaded, lay, k).start + loaded[k].text
    ensures NextMultiple(DataOf(loaded, lay, next).start - lay.data, DataOf(loaded, lay, k).start + loaded[k].data - lay.data, 4)
    ensures NextMultiple(BssOf(loaded, lay, next).start - lay.bss, BssOf(loaded, lay, k).start + loaded[k].bss - lay.bss, 4)
  {
    BasesAligned(loaded, k);
    FoursAdd(DBase(loaded, k), Round(loaded[k].data, 4));
    FoursAdd(BBase(loaded, k), Round(loaded[k].bss, 4));
  }

  lemma {:induction false} BasesAligned(loaded: seq<Module>, k: nat)
    requires k <= |loaded|
    ensures DBase(loaded, k) % 4 == 0 && BBase(loaded, k) % 4 == 0
  {
    if k > 0 {
      BasesAligned(loaded, k - 1);
      FoursAdd(DBase(loaded, k - 1), Round(loaded[k - 1].data, 4));
      FoursAdd(BBase(loaded, k - 1), Round(loaded[k - 1].bss, 4));
    }
  }

  lemma FoursAdd(a: nat, b: nat)
    requires a % 4 == 0 && b % 4 == 0
    ensures (a + b) % 4 == 0
  {
    assert a + b == 4 * (a / 4 + b / 4);
    QuadraticProbe.MultipleMod(a / 4 + b / 4, 4);
  }

  /** The loader's own names, where nothing else defines them, are the ends of text, data and bss. */
  lemma SpecialsAreEnds(l: seq<Nlist>, o: Options, sz: Sizes, x: nat)
    requires Unique(l) && Assigns(l, o) && ThreeNames(o) && NeededAt(l, x)
    ensures var e, lay := FinalAt(l, o, sz, x), FinalLayout(l, o, sz);
            && e.name == l[x].name
            && (e.name == o.etext ==> e.typ == EXT_TEXT && e.value == Wrap(lay.text + sz.t))
            && (e.name == o.edata ==> e.typ == EXT_DATA && e.value == Wrap(lay.data + sz.d))
            && (e.name == o.end ==> e.typ == EXT_BSS && e.value == Wrap(lay.bss + sz.b))
            && (!Special(o, e.name) ==> e == l[x])
  {
    PreparedAt(l, o, sz, x);
  }

  /** A common of `size` bytes gets an address in the bss, behind all data and before all modules' own bss,
      aligned in its region as an item of that size must be. */
  lemma CommonLands(l: seq<Nlist>, o: Options, sz: Sizes, x: nat)
    requires Unique(l) && Assigns(l, o) && ThreeNames(o) && x < |l| && l[x].typ == EXT_UNDF && l[x].value > 0
    ensures var e, lay, size := FinalAt(l, o, sz, x), FinalLayout(l, o, sz), l[x].value;
            && e.name == l[x].name && e.typ == EXT_BSS
            && exists at: nat :: PlaceOfCommon(lay, size, at) && e.value == Wrap(at)
  {
    PreparedAt(l, o, sz, x);
    var p := Prepared(l, o, sz);
    assert p[x] == l[x] && IsCommon(p[x]);
    CommonInside(l, o, sz, x);
    var at := FinalLayout(l, o, sz).comm + COffset(p, x);
    AlignedBy(p, x, l[x].value);
    assert PlaceOfCommon(FinalLayout(l, o, sz), l[x].value, at);
  }

  ghost predicate PlaceOfCommon(lay: Layout, size: nat, at: nat)
  {
    && lay.comm <= at && at + size <= lay.bss && (at - lay.comm) % 2 == 0
    && (size >= 4 ==> (at - lay.comm) % 4 == 0) && (size >= 8 ==> (at - lay.comm) % 8 == 0)
  }

  lemma AlignedBy(p: seq<Nlist>, x: nat, size: nat)
    requires x < |p| && p[x].value == size
    ensures COffset(p, x) % 2 == 0
    ensures size >= 4 ==> COffset(p, x) % 4 == 0
    ensures size >= 8 ==> COffset(p, x) % 8 == 0
  {
    var off := COffset(p, x);
    if size >= 8 {
      assert off % 8 == 0;
      EighthsAreEven(off);
    } else if size >= 4 {
      assert off % 4 == 0;
      EighthsAreEven(off);
    }
  }

  lemma EighthsAreEven(off: nat)
    requires off % 8 == 0 || off % 4 == 0
    ensures off % 8 == 0 ==> off % 4 == 0
    ensures off % 2 == 0
  {
    if off % 8 == 0 {
      assert off == 4 * (2 * (off / 8)) && off == 2 * (4 * (off / 8));
      QuadraticProbe.MultipleMod(2 * (off / 8), 4);
      QuadraticProbe.MultipleMod(4 * (off / 8), 2);
    } else {
      assert off == 2 * (2 * (off / 4));
      QuadraticProbe.MultipleMod(2 * (off / 4), 2);
    }
  }
}
