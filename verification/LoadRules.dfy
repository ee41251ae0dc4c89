/** The rules by which pass 1 of bin/ld.c gives a name its meaning, said of one name over a whole module. */
module LoadRules {
  import opened SymbolSegments
  import opened LoaderSymbols

  /** Symbol `i` of the first `n`, if it is external and of that name, is a reference or a common. */
  ghost predicate AsksAt(syms: seq<Nlist>, n: nat, name: Name, i: nat)
  {
    i < n && i < |syms| && External(syms[i]) && syms[i].name == name ==> syms[i].typ == EXT_UNDF
  }

  /** It asks for no more than `size`. */
  ghost predicate AsksWithin(syms: seq<Nlist>, n: nat, name: Name, size: nat, i: nat)
  {
    i < n && i < |syms| && External(syms[i]) && syms[i].name == name ==> syms[i].value <= size
  }

  ghost predicate AsksFor(syms: seq<Nlist>, n: nat, name: Name, size: nat, i: nat)
  {
    i < n && i < |syms| && External(syms[i]) && syms[i].name == name && syms[i].value == size
  }

  /** An undefined symbol that a module only asks for becomes a common of the largest size asked for. */
  lemma {:induction false} CommonIsLargest(l: seq<Nlist>, syms: seq<Nlist>, sc: Scales, n: nat, x: nat)
    requires Unique(l) && n <= |syms| && x < |l| && l[x].typ == EXT_UNDF
    requires forall i: nat :: AsksAt(syms, n, l[x].name, i)
    ensures |l| <= |After(l, syms, sc, n)|
    ensures var e := After(l, syms, sc, n)[x];
            && e.name == l[x].name && e.typ == EXT_UNDF && e.value >= l[x].value
            && (forall i: nat :: AsksWithin(syms, n, e.name, e.value, i))
            && (e.value == l[x].value || exists i: nat :: AsksFor(syms, n, e.name, e.value, i))
  {
    var name := l[x].name;
    if n == 0 {
      forall i: nat ensures AsksWithin(syms, n, name, l[x].value, i) {
      }
    } else {
      var k := n - 1;
      forall i: nat ensures AsksAt(syms, k, name, i) {
        assert AsksAt(syms, n, name, i);
      }
      CommonIsLargest(l, syms, sc, k, x);
      AfterGrows(l, syms, sc, k);
      var l1, l2 := After(l, syms, sc, k), After(l, syms, sc, n);
      assert AsksAt(syms, n, name, k);
      FoundAt(l1, x);
      forall i: nat ensures AsksWithin(syms, n, name, l2[x].value, i) {
        assert AsksWithin(syms, k, name, l1[x].value, i);
      }
      if l2[x].value != l[x].value {
        if l2[x].value == l1[x].value {
          var i: nat :| AsksFor(syms, k, name, l1[x].value, i);
          assert AsksFor(syms, n, name, l2[x].value, i);
        } else {
          assert AsksFor(syms, n, name, l2[x].value, k);
        }
      }
    }
  }

  /** Symbol `i` is external, of that name, and a definition. */
  ghost predicate DefinesAt(syms: seq<Nlist>, name: Name, i: nat)
  {
    i < |syms| && External(syms[i]) && syms[i].name == name && syms[i].typ != EXT_UNDF
  }

  lemma SettledStays(l: seq<Nlist>, syms: seq<Nlist>, sc: Scales, k: nat, x: nat)
    requires Unique(l) && k <= |syms| && |l| <= |After(l, syms, sc, k)| && x < |l|
    requires After(l, syms, sc, k)[x].typ != EXT_UNDF
    ensures |After(l, syms, sc, k)| <= |After(l, syms, sc, |syms|)|
    ensures After(l, syms, sc, |syms|)[x] == After(l, syms, sc, k)[x]
  {
    var l1, l2 := After(l, syms, sc, k), After(l, syms, sc, |syms|);
    AfterGrowsFrom(l, syms, sc, k, |syms|);
    assert GrownAt(l1, l2, x);
  }

  /** The first definition of a name is the one that counts; a text symbol counts only for a name that no common
      has been asked for. */
  lemma FirstWins(l: seq<Nlist>, syms: seq<Nlist>, sc: Scales, i: nat, x: nat)
    requires Unique(l) && x < |l| && l[x].typ == EXT_UNDF && DefinesAt(syms, l[x].name, i)
    requires forall j: nat :: AsksAt(syms, i, l[x].name, j)
    requires SymReloc(syms[i], sc).typ != EXT_UNDF
    ensures |l| <= |After(l, syms, sc, i)|
    ensures |l| <= |After(l, syms, sc, |syms|)|
    ensures After(l, syms, sc, i)[x].value == 0 || SymReloc(syms[i], sc).typ != EXT_TEXT ==>
              After(l, syms, sc, |syms|)[x] == SymReloc(syms[i], sc)
  {
    var k := i + 1;
    CommonIsLargest(l, syms, sc, i, x);
    AfterGrows(l, syms, sc, i);
    AfterGrows(l, syms, sc, |syms|);
    var l1, l2 := After(l, syms, sc, i), After(l, syms, sc, k);
    FoundAt(l1, x);
    if l1[x].value == 0 || SymReloc(syms[i], sc).typ != EXT_TEXT {
      assert l2[x] == SymReloc(syms[i], sc);
      SettledStays(l, syms, sc, k, x);
    }
  }

  /** A text symbol leaves a common what it is. */
  lemma TextLeavesCommon(l: seq<Nlist>, s: Nlist, x: nat)
    requires Unique(l) && x < |l| && l[x].name == s.name && l[x].typ == EXT_UNDF && l[x].value > 0 && s.typ == EXT_TEXT
    ensures Step(l, s) == l
  {
    FoundAt(l, x);
  }
}
