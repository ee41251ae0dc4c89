/** A whole run of bin/ld.c: pass 1 over the files and libraries of the command line, `middle`,
    and pass 2 over what was loaded. */
module LoadRun {
  import opened SymbolSegments
  import opened SymbolTable
  import opened LoaderSymbols
  import opened Loader
  import opened LoadMap
  import opened LoadImage

  /** A name on the command line: an object file, or a library with its table of contents. */
  datatype Input = File(m: Module) | Library(toc: seq<Ran>, members: seq<Module>)

  /** Every module that may be loaded from here has no debugger bits on external symbols. */
  ghost predicate InputOk(inputs: seq<Input>, j: nat)
  {
    j < |inputs| ==>
      match inputs[j]
      case File(m) => Plain(m.syms)
      case Library(toc, members) => Accurate(toc, members) && forall m :: m in members ==> Plain(m.syms)
  }

  ghost predicate BadInput(inputs: seq<Input>, j: nat)
  {
    j < |inputs| &&
      match inputs[j]
      case File(m) => BadFile(m)
      case Library(toc, members) => exists m :: m in members && BadFile(m)
  }

  /** Input `j` has been searched, if it is a library and the last one. */
  ghost predicate LastSearched(inputs: seq<Input>, n: nat, l: seq<Nlist>)
  {
    0 < n <= |inputs| && inputs[n - 1].Library? ==>
      Searched(inputs[n - 1].toc, inputs[n - 1].members, l, |inputs[n - 1].toc|, |l|)
  }

  /** File `j` is a good one and, if it has symbols, among the modules loaded. */
  ghost predicate FileLoaded(inputs: seq<Input>, n: nat, loaded: seq<Module>, j: nat)
  {
    j < n && j < |inputs| && inputs[j].File? ==> !BadFile(inputs[j].m) && (inputs[j].m.syms != [] ==> inputs[j].m in loaded)
  }

  lemma MorePlain(was: seq<Module>, now: seq<Module>, members: seq<Module>)
    requires LoadedFrom(was, now, members) && forall m :: m in members ==> Plain(m.syms)
    requires forall k: nat :: PlainModule(was, k)
    ensures forall k: nat :: PlainModule(now, k)
    ensures forall m :: m in was ==> m in now
  {
    forall k: nat ensures PlainModule(now, k) {
      assert FromLibrary(was, now, members, k) && PlainModule(was, k);
    }
    forall m | m in was ensures m in now {
      var k: nat :| k < |was| && was[k] == m;
      assert FromLibrary(was, now, members, k);
    }
  }

  lemma FilesLoadedMore(inputs: seq<Input>, n: nat, n': nat, was: seq<Module>, now: seq<Module>)
    requires n < |inputs| && n' == n + 1 && forall j: nat :: FileLoaded(inputs, n, was, j)
    requires (forall m :: m in was ==> m in now) && FileLoaded(inputs, n', now, n)
    ensures forall j: nat :: FileLoaded(inputs, n', now, j)
  {
    forall j: nat ensures FileLoaded(inputs, n', now, j) {
      assert FileLoaded(inputs, n, was, j);
    }
  }

  /** Entry `x` of the final table is the definition that symbol `i` of module `k` makes, at its own place in the
      output, and that definition is not reported as made twice. */
  ghost predicate ResolvedBy(loaded: seq<Module>, l': seq<Nlist>, lay: Layout, clashes: seq<set<nat>>, x: nat, k: nat, i: nat)
  {
    x < |l'| && Lands(loaded, lay, k, i, l'[x]) && k < |clashes| && i !in clashes[k]
  }

  /** Symbol `x`, if it is defined between the passes, is some loaded module's. */
  ghost predicate Resolved(loaded: seq<Module>, l: seq<Nlist>, l': seq<Nlist>, lay: Layout, clashes: seq<set<nat>>, x: nat)
  {
    x < |l| && l[x].typ != EXT_UNDF ==> exists k: nat, i: nat :: ResolvedBy(loaded, l', lay, clashes, x, k, i)
  }

  lemma AllResolved(loaded: seq<Module>, l: seq<Nlist>, l': seq<Nlist>, o: Options, sz: Sizes, clashes: seq<set<nat>>)
    requires Origins(loaded, l) && |l| == |l'| && |clashes| == |loaded|
    requires (forall k: nat :: PlainModule(loaded, k)) && forall x: nat :: FinalIn(l, l', o, sz, x)
    requires forall x: nat, k: nat, i: nat :: NoFalseAlarm(loaded, l, clashes, x, k, i)
    ensures forall x: nat :: Resolved(loaded, l, l', FinalLayout(l, o, sz), clashes, x)
  {
    var lay := FinalLayout(l, o, sz);
    forall x: nat ensures Resolved(loaded, l, l', lay, clashes, x) {
      if x < |l| && l[x].typ != EXT_UNDF {
        assert HasOrigin(loaded, l, x);
        var k: nat, i: nat :| Chosen(loaded, l[x], k, i);
        assert PlainModule(loaded, k) && NoFalseAlarm(loaded, l, clashes, x, k, i) && FinalIn(l, l', o, sz, x);
        PassesAgree(loaded, l, o, sz, x, k, i);
        ChosenIsDefined(loaded, l[x], k, i);
        SecondLands(loaded, lay, k, i);
        assert ResolvedBy(loaded, l', lay, clashes, x, k, i);
      }
    }
  }

  lemma ChosenIsDefined(loaded: seq<Module>, e: Nlist, k: nat, i: nat)
    requires Chosen(loaded, e, k, i) && e.typ != EXT_UNDF
    ensures loaded[k].syms[i].typ != EXT_UNDF
  {
  }

  /** Definition `i` of module `k` is reported exactly if the final table has another of that name. */
  ghost predicate ReportedRight(loaded: seq<Module>, l': seq<Nlist>, lay: Layout, clashes: seq<set<nat>>, k: nat, i: nat)
  {
    k < |loaded| && k < |clashes| ==>
      var syms := loaded[k].syms;
      i in clashes[k] <==>
        i < |syms| && External(syms[i]) && syms[i].typ != EXT_UNDF
        && forall x: nat :: !LandsAt(loaded, l', lay, k, i, x)
  }

  ghost predicate LandsAt(loaded: seq<Module>, l': seq<Nlist>, lay: Layout, k: nat, i: nat, x: nat)
  {
    x < |l'| && Lands(loaded, lay, k, i, l'[x])
  }

  lemma ReportsAreRight(loaded: seq<Module>, l': seq<Nlist>, lay: Layout, clashes: seq<set<nat>>, k: nat, i: nat)
    requires Unique(l') && PlainModule(loaded, k) && ModuleChecked(loaded, l', lay, clashes, k)
    requires k < |loaded| ==> Named(l', loaded[k].syms, i)
    ensures ReportedRight(loaded, l', lay, clashes, k, i)
  {
    if k < |loaded| && k < |clashes| {
      var syms, sc := loaded[k].syms, SecondScales(loaded, lay, k);
      assert ClashAt(l', syms, sc, clashes[k], |syms|, i);
      if i < |syms| && External(syms[i]) && syms[i].typ != EXT_UNDF {
        var f, s := Find(l', syms[i].name), SymReloc(syms[i], sc);
        assert PlainAt(syms, i);
        SecondLands(loaded, lay, k, i);
        if !Clash(l', syms, sc, i) {
          assert s == l'[f];
          assert LandsAt(loaded, l', lay, k, i, f);
        }
        forall x: nat | LandsAt(loaded, l', lay, k, i, x) ensures x == f && l'[x] == s {
          LandsOnce(loaded, lay, k, i, l'[x], s);
          FoundAt(l', x);
        }
      }
    }
  }

  lemma AllReported(loaded: seq<Module>, l: seq<Nlist>, l': seq<Nlist>, o: Options, sz: Sizes, clashes: seq<set<nat>>)
    requires Known(loaded, l) && Unique(l) && |l| == |l'|
    requires (forall k: nat :: PlainModule(loaded, k)) && forall x: nat :: FinalIn(l, l', o, sz, x)
    requires forall k: nat :: ModuleChecked(loaded, l', FinalLayout(l, o, sz), clashes, k)
    ensures forall k: nat, i: nat :: ReportedRight(loaded, l', FinalLayout(l, o, sz), clashes, k, i)
  {
    FinalNames(l, l', o, sz);
    assert Unique(l') by {
      forall x: nat, y: nat ensures Distinct(l', x, y) {
        assert Distinct(l, x, y) && SameName(l, l', x) && SameName(l, l', y);
      }
    }
    forall k: nat, i: nat ensures ReportedRight(loaded, l', FinalLayout(l, o, sz), clashes, k, i) {
      assert PlainModule(loaded, k) && ModuleChecked(loaded, l', FinalLayout(l, o, sz), clashes, k);
      if k < |loaded| {
        KnownNamed(loaded, l, l', k);
        assert Named(l', loaded[k].syms, i);
      }
      ReportsAreRight(loaded, l', FinalLayout(l, o, sz), clashes, k, i);
    }
  }

  /** What becomes of a symbol `u` without a definition: a common gets its place in the bss, a name of the loader's
      own the end it names, and any other stays undefined. */
  ghost predicate Completed(o: Options, lay: Layout, sz: Sizes, u: Nlist, e: Nlist)
  {
    && e.name == u.name
    && (u.value > 0 ==> e.typ == EXT_BSS && exists at: nat :: PlaceOfCommon(lay, u.value, at) && e.value == Wrap(at))
    && (u.value == 0 && u.name == o.etext ==> e.typ == EXT_TEXT && e.value == Wrap(lay.text + sz.t))
    && (u.value == 0 && u.name == o.edata ==> e.typ == EXT_DATA && e.value == Wrap(lay.data + sz.d))
    && (u.value == 0 && u.name == o.end ==> e.typ == EXT_BSS && e.value == Wrap(lay.bss + sz.b))
    && (u.value == 0 && !Special(o, u.name) ==> e == u)
  }

  ghost predicate CompletedAt(l: seq<Nlist>, l': seq<Nlist>, o: Options, lay: Layout, sz: Sizes, x: nat)
  {
    x < |l| && x < |l'| && l[x].typ == EXT_UNDF ==> if Assigns(l, o) then Completed(o, lay, sz, l[x], l'[x]) else l'[x] == l[x]
  }

  lemma AllCompleted(l: seq<Nlist>, l': seq<Nlist>, o: Options, sz: Sizes)
    requires Unique(l) && ThreeNames(o) && |l| == |l'| && forall x: nat :: FinalIn(l, l', o, sz, x)
    ensures forall x: nat :: CompletedAt(l, l', o, FinalLayout(l, o, sz), sz, x)
  {
    forall x: nat ensures CompletedAt(l, l', o, FinalLayout(l, o, sz), sz, x) {
      if x < |l| && l[x].typ == EXT_UNDF {
        assert FinalIn(l, l', o, sz, x);
        if Assigns(l, o) {
          if l[x].value > 0 {
            CommonLands(l, o, sz, x);
          } else {
            SpecialsAreEnds(l, o, sz, x);
          }
        }
      }
    }
  }

  /** One name of the command line. */
  method LoadOne(ld: Loader, inputs: seq<Input>, j: nat, ghost next: nat) returns (ok: bool)
    requires ld.Valid() && j < |inputs| && next == j + 1 && InputOk(inputs, j)
    requires forall k: nat :: PlainModule(ld.loaded, k)
    requires forall i: nat :: FileLoaded(inputs, j, ld.loaded, i)
    modifies ld, ld.tab
    ensures ld.tab.Valid() && (!ok ==> |ld.Table()| >= NSYM || BadInput(inputs, j))
    ensures ok ==> ld.Valid() && LastSearched(inputs, next, ld.Table())
    ensures ok ==> forall k: nat :: PlainModule(ld.loaded, k)
    ensures ok ==> forall i: nat :: FileLoaded(inputs, next, ld.loaded, i)
  {
    ghost var was := ld.loaded;
    match inputs[j]
    case File(m) =>
      var v := ld.Load1(m, false);
      if v.Fatal? {
        return false;
      }
      assert [m][0] == m;
      LoadedOne(was, ld.loaded, [m], 0);
      MorePlain(was, ld.loaded, [m]);
      FilesLoadedMore(inputs, j, next, was, ld.loaded);
      ok := true;
    case Library(toc, members) =>
      ok := ld.Search(toc, members);
      if ok {
        MorePlain(was, ld.loaded, members);
        FilesLoadedMore(inputs, j, next, was, ld.loaded);
      }
  }

  /** Pass 1 over the command line. */
  method Pass1(inputs: seq<Input>) returns (ok: bool, ld: Loader)
    requires forall j: nat :: InputOk(inputs, j)
    ensures fresh(ld) && fresh(ld.tab) && ld.tab.Valid()
    ensures !ok ==> |ld.Table()| >= NSYM || exists j: nat :: BadInput(inputs, j)
    ensures ok ==> ld.Valid() && LastSearched(inputs, |inputs|, ld.Table())
    ensures ok ==> forall k: nat :: PlainModule(ld.loaded, k)
    ensures ok ==> forall i: nat :: FileLoaded(inputs, |inputs|, ld.loaded, i)
  {
    ld := new Loader();
    var j := 0;
    while j < |inputs|
      invariant fresh(ld) && fresh(ld.tab) && ld.Valid() && j <= |inputs| && LastSearched(inputs, j, ld.Table())
      invariant forall k: nat :: PlainModule(ld.loaded, k)
      invariant forall i: nat :: FileLoaded(inputs, j, ld.loaded, i)
    {
      assert InputOk(inputs, j);
      ok := LoadOne(ld, inputs, j, j + 1);
      if !ok {
        return;
      }
      j := j + 1;
    }
    ok := true;
  }

  /** The whole run.  `l` is the symbol table between the passes, `l'` the final one.  Each symbol that is defined
      is a loaded module's, where that module's text, data or bss lies in the output; commons and the loader's own
      names have their places; and a definition is reported as made twice exactly if it is not the table's. */
  method Link(inputs: seq<Input>, o: Options)
      returns (ok: bool, linker: Linker, clashes: seq<set<nat>>, ghost l: seq<Nlist>, ghost lay: Layout, ghost sz: Sizes)
    requires ThreeNames(o) && forall j: nat :: InputOk(inputs, j)
    ensures linker.ld.tab.Valid()
    ensures !ok ==> |linker.ld.Table()| >= NSYM || exists j: nat :: BadInput(inputs, j)
    ensures ok ==>
              var loaded, l' := linker.ld.loaded, linker.ld.Table();
              && |l| == |l'| && |clashes| == |loaded| && LastSearched(inputs, |inputs|, l)
              && (forall i: nat :: FileLoaded(inputs, |inputs|, loaded, i))
              && SizesOf(loaded, sz) && lay == FinalLayout(l, o, sz)
    ensures ok ==> forall x: nat :: Resolved(linker.ld.loaded, l, linker.ld.Table(), lay, clashes, x)
    ensures ok ==> forall x: nat :: CompletedAt(l, linker.ld.Table(), o, lay, sz, x)
    ensures ok ==> forall k: nat, i: nat :: ReportedRight(linker.ld.loaded, linker.ld.Table(), lay, clashes, k, i)
  {
    var ld;
    ok, ld := Pass1(inputs);
    linker := new Linker(ld);
    clashes, l, lay, sz := [], ld.Table(), Layout(0, 0, 0, 0), Sizes(ld.tsize, ld.dsize, ld.bsize);
    if !ok {
      return;
    }
    PlainTypes(ld.loaded, l);
    var place;
    ok, place := linker.Middle(o);
    lay := place;
    if !ok {
      return;
    }
    clashes := linker.Pass2(place, l, o);
    AllResolved(ld.loaded, l, ld.Table(), o, sz, clashes);
    AllCompleted(l, ld.Table(), o, sz);
    AllReported(ld.loaded, l, ld.Table(), o, sz, clashes);
  }
}
