/** Fragments and blocks, and how many of them are free. */
module FragCount {

  /** The first fragment of block `h`: `h * frag`. */
  function Start(frag: nat, h: nat): nat
  {
    if h == 0 then 0 else Start(frag, h - 1) + frag
  }

  lemma {:induction false} StartIs(frag: nat, h: nat)
    ensures Start(frag, h) == h * frag
  {
    if h > 0 {
      StartIs(frag, h - 1);
      assert (h - 1) * frag + frag == h * frag;
    }
  }

  lemma {:induction false} StartRises(frag: nat, m: nat, n: nat)
    requires m <= n
    ensures Start(frag, m) <= Start(frag, n)
    ensures m < n ==> Start(frag, m) + frag <= Start(frag, n)
    decreases n
  {
    if m < n {
      StartRises(frag, m, n - 1);
    }
  }

  predicate InBlock(frag: nat, h: nat, i: nat)
  {
    Start(frag, h) <= i < Start(frag, h) + frag
  }

  /** Fragment `i` is free. */
  predicate IsFree(v: seq<bool>, i: nat)
  {
    i < |v| && v[i]
  }

  // ---------------------------------------------------------------- counting

  /** How many of the `n` fragments from `lo` on are free. */
  ghost function CountFree(v: seq<bool>, lo: nat, n: nat): (c: nat)
    ensures c <= n
  {
    if n == 0 then 0 else CountFree(v, lo, n - 1) + (if IsFree(v, lo + n - 1) then 1 else 0)
  }

  /** How many of the first `n` blocks are wholly free. */
  ghost function WholeBlocks(v: seq<bool>, frag: nat, n: nat): nat
  {
    if n == 0 then 0
    else WholeBlocks(v, frag, n - 1) + (if CountFree(v, Start(frag, n - 1), frag) == frag then 1 else 0)
  }

  /** How many fragments of the first `n` blocks are free in blocks that are not wholly free. */
  ghost function LooseFrags(v: seq<bool>, frag: nat, n: nat): nat
  {
    if n == 0 then 0
    else
      var c := CountFree(v, Start(frag, n - 1), frag);
      LooseFrags(v, frag, n - 1) + (if c == frag then 0 else c)
  }

  ghost predicate SameAt(v: seq<bool>, v': seq<bool>, lo: nat, hi: nat, i: nat)
  {
    lo <= i < hi ==> (IsFree(v', i) <==> IsFree(v, i))
  }

  ghost predicate SameFree(v: seq<bool>, v': seq<bool>, lo: nat, hi: nat)
  {
    forall i: nat :: SameAt(v, v', lo, hi, i)
  }

  lemma {:induction false} SameCount(v: seq<bool>, v': seq<bool>, lo: nat, n: nat)
    requires SameFree(v, v', lo, lo + n)
    ensures CountFree(v', lo, n) == CountFree(v, lo, n)
  {
    if n > 0 {
      var hi, hi' := lo + n, lo + (n - 1);
      forall i: nat ensures SameAt(v, v', lo, hi', i) {
        assert SameAt(v, v', lo, hi, i);
      }
      SameCount(v, v', lo, n - 1);
      assert SameAt(v, v', lo, hi, hi');
    }
  }

  lemma {:induction false} SameBlocks(v: seq<bool>, v': seq<bool>, frag: nat, n: nat)
    requires SameFree(v, v', 0, Start(frag, n))
    ensures WholeBlocks(v', frag, n) == WholeBlocks(v, frag, n)
    ensures LooseFrags(v', frag, n) == LooseFrags(v, frag, n)
  {
    if n > 0 {
      var m, hi := Start(frag, n - 1), Start(frag, n);
      forall i: nat ensures SameAt(v, v', 0, m, i) {
        assert SameAt(v, v', 0, hi, i);
      }
      forall i: nat ensures SameAt(v, v', m, hi, i) {
        assert SameAt(v, v', 0, hi, i);
      }
      SameBlocks(v, v', frag, n - 1);
      SameCount(v, v', m, frag);
    }
  }

  ghost predicate IntervalAt(v: seq<bool>, lo: nat, hi: nat, a: nat, b: nat, i: nat)
  {
    lo <= i < hi ==> (IsFree(v, i) <==> a <= i < b)
  }

  /** Between `lo` and `hi` just the fragments from `a` up to `b` are free. */
  ghost predicate Interval(v: seq<bool>, lo: nat, hi: nat, a: nat, b: nat)
  {
    lo <= a <= b <= hi && forall i: nat :: IntervalAt(v, lo, hi, a, b, i)
  }

  lemma {:induction false} CountInterval(v: seq<bool>, lo: nat, n: nat, a: nat, b: nat)
    requires Interval(v, lo, lo + n, a, b)
    ensures CountFree(v, lo, n) == b - a
  {
    if n > 0 {
      var hi, last := lo + n, lo + (n - 1);
      var a', b' := if a > last then last else a, if b > last then last else b;
      forall i: nat ensures IntervalAt(v, lo, last, a', b', i) {
        assert IntervalAt(v, lo, hi, a, b, i);
      }
      CountInterval(v, lo, n - 1, a', b');
      assert IntervalAt(v, lo, hi, a, b, last);
    }
  }

  /** All of a stretch is free exactly if as many fragments are free as it has. */
  lemma {:induction false} CountAll(v: seq<bool>, lo: nat, n: nat)
    ensures CountFree(v, lo, n) == n <==> Interval(v, lo, lo + n, lo, lo + n)
  {
    var hi := lo + n;
    if forall i: nat :: IntervalAt(v, lo, hi, lo, hi, i) {
      CountInterval(v, lo, n, lo, hi);
    }
    if CountFree(v, lo, n) == n && n > 0 {
      var last := lo + (n - 1);
      CountAll(v, lo, n - 1);
      forall i: nat ensures IntervalAt(v, lo, hi, lo, hi, i) {
        assert IntervalAt(v, lo, last, lo, last, i);
      }
    }
  }

  /** Whole blocks and loose fragments make up what is free. */
  lemma {:induction false} FreeInAll(v: seq<bool>, frag: nat, n: nat)
    ensures Start(frag, WholeBlocks(v, frag, n)) + LooseFrags(v, frag, n) == CountFree(v, 0, Start(frag, n))
  {
    if n > 0 {
      var m, lo := n - 1, Start(frag, n - 1);
      FreeInAll(v, frag, m);
      CountParts(v, 0, lo, frag);
      OneBlockMore(v, frag, m, CountFree(v, lo, frag));
    }
  }

  lemma OneBlockMore(v: seq<bool>, frag: nat, m: nat, c: nat)
    requires c == CountFree(v, Start(frag, m), frag)
    ensures WholeBlocks(v, frag, m + 1) == WholeBlocks(v, frag, m) + (if c == frag then 1 else 0)
    ensures LooseFrags(v, frag, m + 1) == LooseFrags(v, frag, m) + (if c == frag then 0 else c)
    ensures Start(frag, WholeBlocks(v, frag, m) + 1) == Start(frag, WholeBlocks(v, frag, m)) + frag
  {
  }

  lemma {:induction false} CountParts(v: seq<bool>, lo: nat, m: nat, n: nat)
    ensures CountFree(v, lo, m + n) == CountFree(v, lo, m) + CountFree(v, lo + m, n)
  {
    if n > 0 {
      CountParts(v, lo, m, n - 1);
      assert lo + (m + n) - 1 == (lo + m) + n - 1;
    }
  }
}
