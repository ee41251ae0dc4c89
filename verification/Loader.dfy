/** Pass 1 of bin/ld.c over the real symbol table: `load1`, `step`, `ldrand`, and the
    search of a library with a table of contents. */
module Loader {
  import opened SymbolSegments
  import opened SymbolTable
  import opened LoaderSymbols

  /** A file or member is loaded, backed out, or makes the loader give up. */
  datatype Verdict = Taken | Rejected | Fatal

  /** A pass over a library has added symbols, or not, or the loader gave up. */
  datatype Pass = More | NoMore | Failed

  /** An entry of a library's table of contents: a name and the member said to define it, or to ask
      for a common of that name. */
  datatype Ran = Ran(name: Name, member: nat)

  ghost function View(l: seq<Symbol>): (v: seq<Nlist>)
    ensures |v| == |l|
  {
    seq(|l|, i requires 0 <= i < |l| => Nlist(l[i].name, l[i].typ, l[i].value))
  }

  lemma ViewOfPrefix(l: seq<Symbol>, n: nat)
    requires n <= |l|
    ensures View(l[..n]) == View(l)[..n]
  {
  }

  lemma ViewOfMore(l: seq<Symbol>, s: Symbol)
    ensures View(l + [s]) == View(l) + [Nlist(s.name, s.typ, s.value)]
  {
  }

  lemma ViewOfChanged(l: seq<Symbol>, x: nat, typ: nat, value: nat)
    requires x < |l|
    ensures View(l[x := l[x].(typ := typ, value := value)]) == View(l)[x := View(l)[x].(typ := typ, value := value)]
  {
  }

  lemma ListedIsFound(l: seq<Symbol>, name: Name, x: nat)
    requires Unique(View(l)) && Listed(l, name, x)
    ensures Find(View(l), name) == x
  {
    FoundAt(View(l), x);
  }

  lemma UnlistedIsNotFound(l: seq<Symbol>, name: Name)
    requires forall x: nat :: !Listed(l, name, x)
    ensures Find(View(l), name) == |l|
  {
    assert !Listed(l, name, Find(View(l), name));
  }

  lemma TableIsUnique(t: SymTab)
    requires t.Valid()
    ensures Unique(View(t.Symbols()))
  {
    forall x: nat, y: nat ensures Distinct(View(t.Symbols()), x, y) {
      if x < y < |t.Symbols()| {
        NamesAreUnique(t.segs, t.csymseg, x, y);
      }
    }
  }

  /** The loader gives up on a name only when a whole segment is full. */
  lemma NoBucketIsFull(segs: seq<Segment>, c: nat, name: Name, r: Look)
    requires TableOk(segs, c) && (r.Botch? || r.Overflow?)
    requires r.Botch? ==> exists g: nat :: SaturatedAt(segs, HashOf(name), g)
    requires r.Overflow? ==> Count(segs, c) == NSEG * NSYM
    ensures Count(segs, c) >= NSYM
  {
    if r.Botch? {
      var g: nat :| SaturatedAt(segs, HashOf(name), g);
      assert SegAt(segs, c, g);
      if |segs[g].syms| < NSYM {
        NotFullHasEmpty(segs[g], HashOf(name));
      }
    }
  }

  /** Entry `j` tells the truth: its member defines the name, or has a common of that name. */
  ghost predicate TellsTruth(toc: seq<Ran>, members: seq<Module>, j: nat)
  {
    j < |toc| ==>
      && toc[j].member < |members|
      && exists i: nat :: DefinesName(members[toc[j].member].syms, toc[j].name, i)
  }

  ghost predicate DefinesName(syms: seq<Nlist>, name: Name, i: nat)
  {
    && i < |syms| && External(syms[i]) && syms[i].name == name
    && (syms[i].typ % 16 != EXT_UNDF || (syms[i].typ == EXT_UNDF && syms[i].value > 0))
  }

  ghost predicate Accurate(toc: seq<Ran>, members: seq<Module>)
  {
    forall j: nat :: TellsTruth(toc, members, j)
  }

  /** No entry below `n` names a symbol of the first `c` that is still needed. */
  ghost predicate EntrySettled(toc: seq<Ran>, l: seq<Nlist>, n: nat, c: nat, j: nat, x: nat)
  {
    j < n && j < |toc| && x < c ==> NotNeeded(l, toc[j].name, x)
  }

  ghost predicate Settled(toc: seq<Ran>, l: seq<Nlist>, n: nat, c: nat)
  {
    forall j: nat, x: nat :: EntrySettled(toc, l, n, c, j, x)
  }

  lemma SettledStays(toc: seq<Ran>, l: seq<Nlist>, l': seq<Nlist>, n: nat, c: nat)
    requires Settled(toc, l, n, c) && Grown(l, l') && c <= |l|
    ensures Settled(toc, l', n, c)
  {
    forall j: nat, x: nat ensures EntrySettled(toc, l', n, c, j, x) {
      assert EntrySettled(toc, l, n, c, j, x) && GrownAt(l, l', x);
    }
  }

  /** What a pass over a member leaves of the list, whether it is taken or not. */
  ghost function Outcome1(l: seq<Nlist>, m: Module, sc: Scales): seq<Nlist>
    requires |After(l, m.syms, sc, |m.syms|)| >= |l|
  {
    var l' := After(l, m.syms, sc, |m.syms|);
    if NDef(l, m.syms, sc, |m.syms|) > 0 then l' else l'[..|l|]
  }

  /** After a member was tried, nothing it defines is needed: by name, among the old symbols. */
  lemma TriedSettles(toc: seq<Ran>, members: seq<Module>, l: seq<Nlist>, sc: Scales, j: nat, c: nat)
    requires Unique(l) && Accurate(toc, members) && j < |toc| && toc[j].member < |members| && c <= |l|
    ensures |After(l, members[toc[j].member].syms, sc, |members[toc[j].member].syms|)| >= |l|
    ensures forall x: nat | x < c :: NotNeeded(Outcome1(l, members[toc[j].member], sc), toc[j].name, x)
  {
    var syms := members[toc[j].member].syms;
    AfterGrows(l, syms, sc, |syms|);
    assert TellsTruth(toc, members, j);
    var i: nat :| DefinesName(syms, toc[j].name, i);
    var l', l'' := After(l, syms, sc, |syms|), Outcome1(l, members[toc[j].member], sc);
    forall x: nat | x < c ensures NotNeeded(l'', toc[j].name, x) {
      assert GrownAt(l, l', x);
      if l[x].name == toc[j].name {
        DefinedSettles(l, syms, sc, i, x);
      }
    }
  }

  /** One more entry is settled. */
  lemma SettledTried(toc: seq<Ran>, l: seq<Nlist>, n: nat, n': nat, c: nat)
    requires Settled(toc, l, n, c) && n < |toc| && n' == n + 1
    requires forall x: nat | x < c :: NotNeeded(l, toc[n].name, x)
    ensures Settled(toc, l, n', c)
  {
    forall j: nat, x: nat ensures EntrySettled(toc, l, n', c, j, x) {
      assert EntrySettled(toc, l, n, c, j, x);
    }
  }

  /** Symbol `i` of a module would give a meaning to one of the first `c` symbols: one that is undefined, and no
      common if the definition is in text. */
  ghost predicate SuppliesAt(l: seq<Nlist>, syms: seq<Nlist>, c: nat, i: nat)
  {
    && i < |syms| && External(syms[i]) && syms[i].typ != EXT_UNDF
    && var x := Find(l, syms[i].name);
       x < c && x < |l| && l[x].typ == EXT_UNDF && !(l[x].value > 0 && syms[i].typ == EXT_TEXT)
  }

  ghost predicate SuppliesNone(l: seq<Nlist>, syms: seq<Nlist>, c: nat)
  {
    forall i: nat :: !SuppliesAt(l, syms, c, i)
  }

  /** One of the first `c` symbols is of that name, and undefined or a common. */
  ghost predicate AskedFor(l: seq<Nlist>, name: Name, c: nat)
  {
    Find(l, name) < c && Find(l, name) < |l| && l[Find(l, name)].typ == EXT_UNDF
  }

  /** Entry `j`, if it is below `n` and its name is asked for, is of a member that has nothing to supply. */
  ghost predicate DryAt(toc: seq<Ran>, members: seq<Module>, l: seq<Nlist>, n: nat, c: nat, j: nat)
  {
    j < n && j < |toc| && toc[j].member < |members| && AskedFor(l, toc[j].name, c) ==>
      SuppliesNone(l, members[toc[j].member].syms, c)
  }

  /** The entries below `n` have been tried: nothing is needed that they name, and nothing they could supply. */
  ghost predicate Searched(toc: seq<Ran>, members: seq<Module>, l: seq<Nlist>, n: nat, c: nat)
  {
    Settled(toc, l, n, c) && forall j: nat :: DryAt(toc, members, l, n, c, j)
  }

  lemma FindKept(l: seq<Nlist>, l': seq<Nlist>, name: Name)
    requires Grown(l, l') && Unique(l')
    ensures if Find(l, name) < |l| then Find(l', name) == Find(l, name) else Find(l', name) >= |l|
  {
    var x := Find(l, name);
    if x < |l| {
      assert GrownAt(l, l', x);
      FoundAt(l', x);
    } else {
      forall y: nat | y < |l| ensures l'[y].name != name {
        assert GrownAt(l, l', y);
      }
    }
  }

  lemma SuppliesNoneStays(l: seq<Nlist>, l': seq<Nlist>, syms: seq<Nlist>, c: nat)
    requires SuppliesNone(l, syms, c) && Grown(l, l') && Unique(l') && c <= |l|
    ensures SuppliesNone(l', syms, c)
  {
    forall i: nat ensures !SuppliesAt(l', syms, c, i) {
      assert !SuppliesAt(l, syms, c, i);
      if i < |syms| {
        FindKept(l, l', syms[i].name);
        assert GrownAt(l, l', Find(l, syms[i].name));
      }
    }
  }

  lemma SearchedStays(toc: seq<Ran>, members: seq<Module>, l: seq<Nlist>, l': seq<Nlist>, n: nat, c: nat)
    requires Searched(toc, members, l, n, c) && Grown(l, l') && Unique(l') && c <= |l|
    ensures Searched(toc, members, l', n, c)
  {
    SettledStays(toc, l, l', n, c);
    forall j: nat ensures DryAt(toc, members, l', n, c, j) {
      assert DryAt(toc, members, l, n, c, j);
      if j < n && j < |toc| && toc[j].member < |members| && AskedFor(l', toc[j].name, c) {
        FindKept(l, l', toc[j].name);
        assert GrownAt(l, l', Find(l', toc[j].name));
        SuppliesNoneStays(l, l', members[toc[j].member].syms, c);
      }
    }
  }

  /** One more entry has been tried, or its name is not asked for. */
  lemma SearchedMore(toc: seq<Ran>, members: seq<Module>, l: seq<Nlist>, n: nat, n': nat, c: nat)
    requires Searched(toc, members, l, n, c) && n < |toc| && n' == n + 1
    requires forall x: nat | x < c :: NotNeeded(l, toc[n].name, x)
    requires toc[n].member < |members| && AskedFor(l, toc[n].name, c) ==> SuppliesNone(l, members[toc[n].member].syms, c)
    ensures Searched(toc, members, l, n', c)
  {
    SettledTried(toc, l, n, n', c);
    forall j: nat ensures DryAt(toc, members, l, n', c, j) {
      assert DryAt(toc, members, l, n, c, j);
    }
  }

  lemma RelocKind(s: Nlist, sc: Scales)
    ensures var r := SymReloc(s, sc);
            r.name == s.name && (r.typ == EXT_UNDF <==> s.typ == EXT_UNDF) && (r.typ == EXT_TEXT <==> s.typ == EXT_TEXT)
  {
  }

  /** What a symbol has met when it was read it does not supply any more. */
  lemma ReadSuppliesNot(l: seq<Nlist>, syms: seq<Nlist>, sc: Scales, i: nat, x: nat)
    requires Unique(l) && i < |syms| && External(syms[i]) && syms[i].typ != EXT_UNDF
    requires x < |l| && l[x].name == syms[i].name
    ensures |l| <= |After(l, syms, sc, |syms|)|
    ensures var e := After(l, syms, sc, |syms|)[x]; e.typ != EXT_UNDF || (e.value > 0 && syms[i].typ == EXT_TEXT)
  {
    var next := i + 1;
    var l1, l2, l3 := After(l, syms, sc, i), After(l, syms, sc, next), After(l, syms, sc, |syms|);
    AfterGrows(l, syms, sc, i);
    AfterGrows(l, syms, sc, |syms|);
    AfterGrowsFrom(l, syms, sc, next, |syms|);
    assert GrownAt(l, l1, x);
    FoundAt(l1, x);
    RelocKind(syms[i], sc);
    assert l2 == Step(l1, SymReloc(syms[i], sc));
    assert GrownAt(l2, l3, x);
  }

  /** A member that was tried, taken or not, has nothing more to supply. */
  lemma TriedSuppliesNone(l: seq<Nlist>, m: Module, sc: Scales, c: nat)
    requires Unique(l) && c <= |l| && |After(l, m.syms, sc, |m.syms|)| >= |l|
    ensures SuppliesNone(Outcome1(l, m, sc), m.syms, c)
  {
    var l', l'' := After(l, m.syms, sc, |m.syms|), Outcome1(l, m, sc);
    OutcomeGrows(l, m, sc);
    forall i: nat ensures !SuppliesAt(l'', m.syms, c, i) {
      if SuppliesAt(l'', m.syms, c, i) {
        var x := Find(l'', m.syms[i].name);
        assert GrownAt(l, l'', x);
        ReadSuppliesNot(l, m.syms, sc, i, x);
      }
    }
  }

  lemma OutcomeGrows(l: seq<Nlist>, m: Module, sc: Scales)
    requires Unique(l)
    ensures |After(l, m.syms, sc, |m.syms|)| >= |l|
    ensures Unique(Outcome1(l, m, sc)) && Grown(l, Outcome1(l, m, sc))
  {
    var l' := After(l, m.syms, sc, |m.syms|);
    AfterGrows(l, m.syms, sc, |m.syms|);
    GrownPrefix(l, l', |l|);
    UniquePrefix(l', |l|);
  }

  /** A name a loaded module uses is in the list. */
  ghost predicate KnownAt(loaded: seq<Module>, l: seq<Nlist>, k: nat, i: nat)
  {
    k < |loaded| && i < |loaded[k].syms| && External(loaded[k].syms[i]) ==> Find(l, loaded[k].syms[i].name) < |l|
  }

  ghost predicate Known(loaded: seq<Module>, l: seq<Nlist>)
  {
    forall k: nat, i: nat :: KnownAt(loaded, l, k, i)
  }

  lemma FindStays(l: seq<Nlist>, l': seq<Nlist>, name: Name)
    requires Grown(l, l') && Find(l, name) < |l|
    ensures Find(l', name) < |l'|
  {
    assert GrownAt(l, l', Find(l, name));
  }

  lemma KnownStays(loaded: seq<Module>, l: seq<Nlist>, l': seq<Nlist>)
    requires Known(loaded, l) && Grown(l, l')
    ensures Known(loaded, l')
  {
    forall k: nat, i: nat ensures KnownAt(loaded, l', k, i) {
      assert KnownAt(loaded, l, k, i);
      if k < |loaded| && i < |loaded[k].syms| && External(loaded[k].syms[i]) {
        FindStays(l, l', loaded[k].syms[i].name);
      }
    }
  }

  lemma {:induction false} ReadIsKnown(l: seq<Nlist>, syms: seq<Nlist>, sc: Scales, i: nat)
    requires Unique(l) && i < |syms| && External(syms[i])
    ensures Find(After(l, syms, sc, |syms|), syms[i].name) < |After(l, syms, sc, |syms|)|
  {
    var j := i + 1;
    var l1, l2 := After(l, syms, sc, i), After(l, syms, sc, j);
    AfterGrows(l, syms, sc, i);
    AfterGrowsFrom(l, syms, sc, i, j);
    if Find(l1, syms[i].name) < |l1| {
      FindStays(l1, l2, syms[i].name);
    } else {
      assert l2[|l1|].name == syms[i].name;
    }
    AfterGrowsFrom(l, syms, sc, j, |syms|);
    FindStays(l2, After(l, syms, sc, |syms|), syms[i].name);
  }

  lemma KnownMore(loaded: seq<Module>, m: Module, l: seq<Nlist>, sc: Scales)
    requires Unique(l) && Known(loaded, l)
    ensures Known(loaded + [m], After(l, m.syms, sc, |m.syms|))
  {
    var l' := After(l, m.syms, sc, |m.syms|);
    AfterGrows(l, m.syms, sc, |m.syms|);
    KnownStays(loaded, l, l');
    forall k: nat, i: nat ensures KnownAt(loaded + [m], l', k, i) {
      assert KnownAt(loaded, l', k, i);
      if k == |loaded| && i < |m.syms| && External(m.syms[i]) {
        ReadIsKnown(l, m.syms, sc, i);
      }
    }
  }

  lemma KnownAfterBackOut(loaded: seq<Module>, l: seq<Nlist>, l': seq<Nlist>)
    requires Known(loaded, l) && |l| <= |l'| && forall x: nat :: RaisedAt(l, l', x)
    ensures Known(loaded, l'[..|l|])
  {
    forall x: nat ensures GrownAt(l, l'[..|l|], x) {
      assert RaisedAt(l, l', x);
    }
    KnownStays(loaded, l, l'[..|l|]);
  }

  /** A header, or the lack of a symbol table, that ends the run. */
  predicate BadFile(m: Module)
  {
    m.text % 2 == 1 || m.data % 2 == 1 || (m.syms == [] && m.text + m.data != 0)
  }

  lemma LoadedMore(loaded: seq<Module>, m: Module, l: seq<Nlist>)
    requires Origins(loaded, l)
    ensures var k := |loaded|;
            && TBase(loaded + [m], k + 1) == TBase(loaded, k) + m.text
            && DBase(loaded + [m], k + 1) == DBase(loaded, k) + Round(m.data, 4)
            && BBase(loaded + [m], k + 1) == BBase(loaded, k) + Round(m.bss, 4)
            && FirstScales(loaded + [m], k) == ScalesAt(m, TBase(loaded, k), DBase(loaded, k), BBase(loaded, k))
            && Origins(loaded + [m], After(l, m.syms, FirstScales(loaded + [m], k), |m.syms|))
  {
    BasesKeep(loaded, m, |loaded|);
    OriginsKept(loaded, l, m);
    TakenHasOrigins(loaded + [m], l, |loaded|, |m.syms|);
  }

  /** Module `k` was loaded before, or is a member of the library. */
  ghost predicate FromLibrary(was: seq<Module>, now: seq<Module>, members: seq<Module>, k: nat)
  {
    k < |now| ==> if k < |was| then now[k] == was[k] else now[k] in members
  }

  ghost predicate LoadedFrom(was: seq<Module>, now: seq<Module>, members: seq<Module>)
  {
    |was| <= |now| && forall k: nat :: FromLibrary(was, now, members, k)
  }

  lemma LoadedFromAgain(a: seq<Module>, b: seq<Module>, c: seq<Module>, members: seq<Module>)
    requires LoadedFrom(a, b, members) && LoadedFrom(b, c, members)
    ensures LoadedFrom(a, c, members)
  {
    forall k: nat ensures FromLibrary(a, c, members, k) {
      assert FromLibrary(a, b, members, k) && FromLibrary(b, c, members, k);
    }
  }

  lemma LoadedAlready(loaded: seq<Module>, members: seq<Module>)
    ensures LoadedFrom(loaded, loaded, members)
  {
    forall k: nat ensures FromLibrary(loaded, loaded, members, k) {
    }
  }

  lemma GrownAlready(l: seq<Nlist>)
    ensures Grown(l, l)
  {
    forall x: nat ensures GrownAt(l, l, x) {
    }
  }

  lemma LoadedOne(was: seq<Module>, now: seq<Module>, members: seq<Module>, j: nat)
    requires j < |members| && (now == was || now == was + [members[j]])
    ensures LoadedFrom(was, now, members)
  {
    forall k: nat ensures FromLibrary(was, now, members, k) {
    }
  }

  lemma TableBound(t: SymTab)
    requires t.Valid()
    ensures |t.Symbols()| <= NSEG * NSYM
  {
    assert SegAt(t.segs, t.csymseg, t.csymseg);
  }

  /** Nothing is needed under a name that the list does not have undefined. */
  lemma NoneNeeded(l: seq<Nlist>, name: Name)
    requires Unique(l) && (Find(l, name) < |l| ==> l[Find(l, name)].typ != EXT_UNDF)
    ensures forall x: nat :: NotNeeded(l, name, x)
  {
    forall x: nat ensures NotNeeded(l, name, x) {
      if x < |l| && l[x].name == name {
        FoundAt(l, x);
      }
    }
  }

  /** The module's symbols have been read into the list, and some were needed or it is a file. */
  ghost predicate TakenAs(l: seq<Nlist>, l': seq<Nlist>, m: Module, sc: Scales, libflg: bool)
  {
    && m.syms != [] && l' == After(l, m.syms, sc, |m.syms|)
    && (libflg ==> NDef(l, m.syms, sc, |m.syms|) > 0)
  }

  /** The list has its old symbols and nothing of the member but larger commons. */
  ghost predicate RejectedAs(l: seq<Nlist>, l': seq<Nlist>, m: Module, sc: Scales, libflg: bool)
  {
    && |l| <= |After(l, m.syms, sc, |m.syms|)|
    && l' == After(l, m.syms, sc, |m.syms|)[..|l|]
    && NDef(l, m.syms, sc, |m.syms|) == 0 && (libflg || m.syms == [])
  }

  class Loader {
    const tab: SymTab
    var tsize: nat
    var dsize: nat
    var bsize: nat
    var loaded: seq<Module>

    ghost function Table(): seq<Nlist>
      reads this, tab
      requires tab.Valid()
    {
      View(tab.Symbols())
    }

    /** The sizes are those of the modules loaded, and every definition comes from one of them. */
    ghost predicate Valid()
      reads this, tab
    {
      && tab.Valid() && Unique(Table()) && Origins(loaded, Table()) && Known(loaded, Table())
      && tsize == TBase(loaded, |loaded|) && dsize == DBase(loaded, |loaded|) && bsize == BBase(loaded, |loaded|)
    }

    constructor ()
      ensures Valid() && Table() == [] && loaded == [] && fresh(tab)
    {
      tab := new SymTab();
      tsize, dsize, bsize, loaded := 0, 0, 0, [];
      new;
      TableIsUnique(tab);
      forall x: nat ensures HasOrigin(loaded, Table(), x) {
      }
      forall k: nat, i: nat ensures KnownAt(loaded, Table(), k, i) {
      }
    }

    /** `enter(lookup())` and the number of `lastsym`. */
    method EnterSym(s: Nlist) returns (ok: bool, isNew: bool, x: nat)
      requires tab.Valid()
      modifies tab
      ensures tab.Valid()
      ensures !ok ==> Table() == old(Table()) && |Table()| >= NSYM
      ensures ok ==> x == Find(old(Table()), s.name)
      ensures ok ==> isNew == (x == |old(Table())|)
      ensures ok ==> Table() == if isNew then old(Table()) + [s] else old(Table())
    {
      ghost var l := tab.Symbols();
      TableIsUnique(tab);
      AbsentIffUnlisted(tab.segs, tab.csymseg, s.name);
      var r := tab.Lookup(s.name);
      if !r.Bucket? {
        NoBucketIsFull(tab.segs, tab.csymseg, s.name, r);
        return false, false, 0;
      }
      isNew := tab.Enter(r, s.name, s.typ, s.value);
      if isNew {
        UnlistedIsNotFound(l, s.name);
        ViewOfMore(l, Symbol(s.name, s.typ, s.value, r.b));
        Numbered(tab.segs, tab.csymseg, |l|);
      } else {
        ghost var y: nat :| Listed(l, s.name, y) && tab.lastsym == XSym(y);
        ListedIsFound(l, s.name, y);
        Numbered(tab.segs, tab.csymseg, y);
      }
      x := tab.SymX(tab.lastsym);
      ok := true;
    }

    method GetTable(x: nat) returns (u: Nlist)
      requires tab.Valid() && x < |Table()|
      ensures u == Table()[x]
    {
      Numbered(tab.segs, tab.csymseg, x);
      var sym := tab.segs[x / NSYM].syms[x % NSYM];
      u := Nlist(sym.name, sym.typ, sym.value);
    }

    method SetTable(x: nat, typ: nat, value: nat)
      requires tab.Valid() && x < |Table()|
      modifies tab
      ensures tab.Valid()
      ensures Table() == old(Table())[x := old(Table())[x].(typ := typ, value := value)]
    {
      ViewOfChanged(tab.Symbols(), x, typ, value);
      tab.SetSym(XSym(x), typ, value);
    }

    /** One external symbol of a module, already relocated. */
    method Meet(s: Nlist) returns (ok: bool, def: bool)
      requires tab.Valid()
      modifies tab
      ensures tab.Valid() && (!ok ==> |Table()| >= NSYM)
      ensures ok ==> Table() == Step(old(Table()), s) && def == Counts(old(Table()), s)
    {
      var isNew, x;
      ok, isNew, x := EnterSym(s);
      def := false;
      if !ok || isNew {
        return;
      }
      var u := GetTable(x);
      if u.typ != EXT_UNDF {
        return;
      }
      if s.typ == EXT_UNDF {
        if s.value > u.value {
          SetTable(x, u.typ, s.value);
        }
        return;
      }
      if u.value != 0 && s.typ == EXT_TEXT {
        return;
      }
      SetTable(x, s.typ, s.value);
      def := true;
    }

    /** One symbol of a module: only external ones are looked at. */
    method ReadOne(s: Nlist, sc: Scales) returns (ok: bool, def: bool)
      requires tab.Valid()
      modifies tab
      ensures tab.Valid() && (!ok ==> |Table()| >= NSYM)
      ensures ok && External(s) ==> Table() == Step(old(Table()), SymReloc(s, sc))
      ensures ok && External(s) ==> def == Counts(old(Table()), SymReloc(s, sc))
      ensures ok && !External(s) ==> Table() == old(Table()) && !def
    {
      ok, def := true, false;
      if External(s) {
        ok, def := Meet(SymReloc(s, sc));
      }
    }

    /** The loop of `load1` over the symbols of a module. */
    method ReadSyms(syms: seq<Nlist>, sc: Scales) returns (ok: bool, ndef: nat)
      requires tab.Valid()
      modifies tab
      ensures tab.Valid() && (!ok ==> |Table()| >= NSYM)
      ensures ok ==> Table() == After(old(Table()), syms, sc, |syms|) && ndef == NDef(old(Table()), syms, sc, |syms|)
    {
      ghost var l := Table();
      ndef, ok := 0, true;
      var i := 0;
      while i < |syms|
        invariant tab.Valid() && ok && i <= |syms|
        invariant Table() == After(l, syms, sc, i) && ndef == NDef(l, syms, sc, i)
        decreases |syms| - i
      {
        ok, ndef := ReadNext(syms, sc, i, l, ndef);
        if !ok {
          return;
        }
        i := i + 1;
      }
    }

    /** Symbol `i` of a module whose symbols before it have been read. */
    method ReadNext(syms: seq<Nlist>, sc: Scales, i: nat, ghost l: seq<Nlist>, ndef: nat) returns (ok: bool, ndef': nat)
      requires tab.Valid() && i < |syms| && Table() == After(l, syms, sc, i) && ndef == NDef(l, syms, sc, i)
      modifies tab
      ensures tab.Valid() && (!ok ==> |Table()| >= NSYM)
      ensures ok ==> Table() == After(l, syms, sc, i + 1) && ndef' == NDef(l, syms, sc, i + 1)
    {
      var def;
      ok, def := ReadOne(syms[i], sc);
      ndef' := if def then ndef + 1 else ndef;
    }

    /** The module whose symbols were just read counts as loaded. */
    method Keep(m: Module, ghost l: seq<Nlist>)
      requires tab.Valid() && Unique(Table()) && Unique(l) && Origins(loaded, l) && Known(loaded, l)
      requires tsize == TBase(loaded, |loaded|) && dsize == DBase(loaded, |loaded|) && bsize == BBase(loaded, |loaded|)
      requires Table() == After(l, m.syms, ScalesAt(m, tsize, dsize, bsize), |m.syms|)
      modifies this
      ensures Valid() && Table() == old(Table()) && loaded == old(loaded) + [m]
    {
      LoadedMore(loaded, m, l);
      KnownMore(loaded, m, l, ScalesAt(m, tsize, dsize, bsize));
      tsize := tsize + m.text;
      dsize := dsize + Round(m.data, 4);
      bsize := bsize + Round(m.bss, 4);
      loaded := loaded + [m];
    }

    /** The symbols a member added are backed out. */
    method BackOut(savnext: SymPtr, ghost l: seq<Nlist>)
      requires tab.Valid() && Unique(Table()) && Origins(loaded, l) && Known(loaded, l)
      requires tsize == TBase(loaded, |loaded|) && dsize == DBase(loaded, |loaded|) && bsize == BBase(loaded, |loaded|)
      requires 0 < |l| <= |Table()| && savnext == EndPtr(|l|) && forall x: nat :: RaisedAt(l, Table(), x)
      modifies tab
      ensures Valid() && Table() == old(Table())[..|l|]
    {
      PrefixOrigins(loaded, l, Table());
      KnownAfterBackOut(loaded, l, Table());
      UniquePrefix(Table(), |l|);
      EndIsMark(|l|, |Table()|);
      ViewOfPrefix(tab.Symbols(), |l|);
      tab.SymFree(savnext);
    }

    /** `load1`: a file is loaded, a library member only if it defines something needed. */
    method Load1(m: Module, libflg: bool) returns (v: Verdict)
      requires Valid() && (libflg ==> |Table()| > 0)
      modifies this, tab
      ensures tab.Valid() && (v.Fatal? ==> BadFile(m) || |Table()| >= NSYM) && (BadFile(m) ==> v.Fatal?)
      ensures !v.Fatal? ==> Valid()
      ensures v.Taken? ==> TakenAs(old(Table()), Table(), m, old(ScalesAt(m, tsize, dsize, bsize)), libflg)
      ensures v.Taken? ==> loaded == old(loaded) + [m]
      ensures v.Rejected? ==> RejectedAs(old(Table()), Table(), m, old(ScalesAt(m, tsize, dsize, bsize)), libflg)
      ensures v.Rejected? ==> loaded == old(loaded)
    {
      if m.text % 2 == 1 || m.data % 2 == 1 {
        return Fatal;
      }
      if m.syms == [] {
        return if m.text + m.data == 0 then Rejected else Fatal;
      }
      ghost var l := Table();
      var sc := ScalesAt(m, tsize, dsize, bsize);
      var savnext := tab.nextsym;
      var ok, ndef := ReadSyms(m.syms, sc);
      if !ok {
        return Fatal;
      }
      AfterGrows(l, m.syms, sc, |m.syms|);
      if !libflg || ndef > 0 {
        Keep(m, l);
        return Taken;
      }
      RejectedOnlyRaises(l, m.syms, sc, |m.syms|);
      BackOut(savnext, l);
      return Rejected;
    }

    /** `symx(nextsym)`. */
    method Size() returns (n: nat)
      requires tab.Valid()
      ensures n == |Table()|
    {
      ghost var last := |Table()| - 1;
      if 0 <= last {
        Numbered(tab.segs, tab.csymseg, last);
      }
      n := tab.SymX(tab.nextsym);
    }

    /** `slookup`: the number of the symbol called `name`, the size of the table if there is none. */
    method Slookup(name: Name) returns (ok: bool, x: nat)
      requires tab.Valid()
      modifies tab
      ensures tab.Valid() && Table() == old(Table())
      ensures !ok ==> |Table()| >= NSYM && Find(Table(), name) == |Table()|
      ensures ok ==> x == Find(Table(), name)
    {
      ghost var l := tab.Symbols();
      TableIsUnique(tab);
      AbsentIffUnlisted(tab.segs, tab.csymseg, name);
      var r := tab.Lookup(name);
      if !r.Bucket? {
        NoBucketIsFull(tab.segs, tab.csymseg, name, r);
        UnlistedIsNotFound(l, name);
        return false, 0;
      }
      ok := true;
      if tab.segs[r.g].hash[r.b] == NONE {
        UnlistedIsNotFound(l, name);
        x := Size();
      } else {
        HeldIsNotAbsent(tab.segs, tab.csymseg, name, r.g, r.b);
        x := r.g * NSYM + tab.segs[r.g].hash[r.b];
        ListedIsFound(l, name, x);
      }
    }

    /** Whether the name is in the table, without a definition. */
    method Wanted(name: Name) returns (ok: bool, wanted: bool)
      requires Valid()
      modifies tab
      ensures tab.Valid() && Table() == old(Table()) && (!ok ==> |Table()| >= NSYM)
      ensures ok ==> Valid()
      ensures ok && wanted ==> |Table()| > 0
      ensures ok ==> (wanted <==> AskedFor(Table(), name, |Table()|))
      ensures ok && !wanted ==> forall x: nat :: NotNeeded(Table(), name, x)
    {
      var x;
      ok, x := Slookup(name);
      wanted := false;
      if ok {
        var n := Size();
        if x < n {
          var sp := GetTable(x);
          wanted := sp.typ == EXT_UNDF;
        }
        if !wanted {
          NoneNeeded(Table(), name);
        }
      }
    }

    /** `step` on the member of entry `tp`; the entries of the same member behind it are skipped. */
    method TryMember(toc: seq<Ran>, members: seq<Module>, tp: nat, ghost c: nat) returns (ok: bool, tp': nat)
      requires Valid() && Accurate(toc, members) && tp < |toc| && c <= |Table()| && 0 < |Table()|
      requires Searched(toc, members, Table(), tp, c)
      modifies this, tab
      ensures tab.Valid() && (!ok ==> |Table()| >= NSYM || exists m :: m in members && BadFile(m))
      ensures ok ==> Valid() && Grown(old(Table()), Table()) && LoadedFrom(old(loaded), loaded, members)
      ensures ok ==> tp < tp' <= |toc| && Searched(toc, members, Table(), tp', c)
    {
      assert TellsTruth(toc, members, tp);
      var loc := toc[tp].member;
      ghost var l, sc := Table(), ScalesAt(members[loc], tsize, dsize, bsize);
      OutcomeGrows(l, members[loc], sc);
      var v := Load1(members[loc], true);
      tp' := tp;
      if v.Fatal? {
        assert members[loc] in members;
        return false, tp';
      }
      LoadedOne(old(loaded), loaded, members, loc);
      SearchedStays(toc, members, l, Table(), tp, c);
      TriedSuppliesNone(l, members[loc], sc, c);
      TriedSettles(toc, members, l, sc, tp, c);
      SearchedMore(toc, members, Table(), tp, tp + 1, c);
      tp' := tp + 1;
      while tp' < |toc| && toc[tp'].member == loc
        invariant tp < tp' <= |toc| && Searched(toc, members, Table(), tp', c)
        modifies {}
      {
        TriedSettles(toc, members, l, sc, tp', c);
        SearchedMore(toc, members, Table(), tp', tp' + 1, c);
        tp' := tp' + 1;
      }
      ok := true;
    }

    /** `ldrand`: one pass over a library with a table of contents.  `More` says that the
        symbol table has grown; if it has not, no name in the table of contents is needed. */
    method Ldrand(toc: seq<Ran>, members: seq<Module>) returns (p: Pass)
      requires Valid() && Accurate(toc, members)
      modifies this, tab
      ensures tab.Valid() && (p.Failed? ==> |Table()| >= NSYM || exists m :: m in members && BadFile(m))
      ensures !p.Failed? ==> Valid() && Grown(old(Table()), Table()) && LoadedFrom(old(loaded), loaded, members)
      ensures p.More? ==> |Table()| > |old(Table())|
      ensures p.NoMore? ==> Searched(toc, members, Table(), |toc|, |Table()|)
    {
      ghost var l0, was := Table(), loaded;
      var nsymt := Size();
      GrownAlready(l0);
      LoadedAlready(was, members);
      var tp := 0;
      while tp < |toc|
        invariant tp <= |toc| && Valid() && Grown(l0, Table()) && LoadedFrom(was, loaded, members)
        invariant Searched(toc, members, Table(), tp, |l0|)
        decreases |toc| - tp
      {
        var ok, wanted := Wanted(toc[tp].name);
        if !ok {
          return Failed;
        }
        if !wanted {
          SearchedMore(toc, members, Table(), tp, tp + 1, |l0|);
          tp := tp + 1;
          continue;
        }
        ghost var l, files := Table(), loaded;
        ok, tp := TryMember(toc, members, tp, |l0|);
        if !ok {
          return Failed;
        }
        GrownAgain(l0, l, Table());
        LoadedFromAgain(was, files, loaded, members);
      }
      var nsym := Size();
      return if nsym != nsymt then More else NoMore;
    }

    /** The search of a library: passes until one adds no symbol. */
    method Search(toc: seq<Ran>, members: seq<Module>) returns (ok: bool)
      requires Valid() && Accurate(toc, members)
      modifies this, tab
      ensures tab.Valid() && (!ok ==> |Table()| >= NSYM || exists m :: m in members && BadFile(m))
      ensures ok ==> Valid() && Grown(old(Table()), Table()) && LoadedFrom(old(loaded), loaded, members)
      ensures ok ==> Searched(toc, members, Table(), |toc|, |Table()|)
    {
      ghost var l0, was := Table(), loaded;
      GrownAlready(l0);
      LoadedAlready(was, members);
      var p := More;
      TableBound(tab);
      while p == More
        invariant Valid() && Grown(l0, Table()) && LoadedFrom(was, loaded, members)
        invariant !p.Failed? && |Table()| <= NSEG * NSYM
        invariant p.NoMore? ==> Searched(toc, members, Table(), |toc|, |Table()|)
        decreases NSEG * NSYM - |Table()|, if p.More? then 1 else 0
      {
        ghost var l, files := Table(), loaded;
        p := Ldrand(toc, members);
        TableBound(tab);
        if p.Failed? {
          return false;
        }
        GrownAgain(l0, l, Table());
        LoadedFromAgain(was, files, loaded, members);
      }
      return true;
    }
  }
}
