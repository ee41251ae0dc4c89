/** The line array of bin/ed.c: the commands that change it in place, and `global` over them. */
module EditBuffer {
  import opened EditText

  // ---------------------------------------------------------------- reversing

  ghost predicate MirrorAt(s: seq<int>, r: seq<int>, a: nat, b: nat, k: nat)
    requires a <= b <= |s|
  {
    k < |s| && k < |r| ==> r[k] == if a <= k < b then s[a + b - 1 - k] else s[k]
  }

  /** `r` is `s` with the stretch from `a` up to `b` reversed. */
  ghost predicate Reversed(s: seq<int>, r: seq<int>, a: nat, b: nat)
  {
    a <= b <= |s| == |r| && forall k: nat :: MirrorAt(s, r, a, b, k)
  }

  /** Where each word comes from when the stretches `a` to `b` and `b` to `c` are exchanged. */
  function Source(a: nat, b: nat, c: nat, k: nat): nat
    requires a <= b <= c
  {
    if a <= k < a + (c - b) then k + (b - a) else if a + (c - b) <= k < c then k - (c - b) else k
  }

  ghost predicate FromAt(s: seq<int>, r: seq<int>, a: nat, b: nat, c: nat, k: nat)
    requires a <= b <= c
  {
    k < |s| && k < |r| ==> Source(a, b, c, k) < |s| && r[k] == s[Source(a, b, c, k)]
  }

  /** `r` is `s` with the stretches from `a` up to `b` and from there up to `c` exchanged. */
  ghost predicate Rotated(s: seq<int>, r: seq<int>, a: nat, b: nat, c: nat)
  {
    a <= b <= c <= |s| == |r| && forall k: nat :: FromAt(s, r, a, b, c, k)
  }

  /** The exchange of two stretches, in pieces. */
  lemma RotatedIs(s: seq<int>, r: seq<int>, a: nat, b: nat, c: nat)
    requires Rotated(s, r, a, b, c)
    ensures r == s[..a] + s[b..c] + s[a..b] + s[c..]
  {
    var t := s[..a] + s[b..c] + s[a..b] + s[c..];
    forall k: nat | k < |s| ensures r[k] == t[k] {
      assert FromAt(s, r, a, b, c, k);
    }
  }

  /** Three reversals exchange two neighbouring stretches. */
  lemma ThreeReversals(s: seq<int>, s1: seq<int>, s2: seq<int>, s3: seq<int>, a: nat, b: nat, c: nat)
    requires Reversed(s, s1, a, b) && Reversed(s1, s2, b, c) && Reversed(s2, s3, a, c)
    ensures Rotated(s, s3, a, b, c)
  {
    forall k: nat ensures FromAt(s, s3, a, b, c, k) {
      var i: nat := if a <= k < c then a + c - 1 - k else k;
      var j: nat := if b <= i < c then b + c - 1 - i else i;
      assert MirrorAt(s2, s3, a, c, k) && MirrorAt(s1, s2, b, c, i) && MirrorAt(s, s1, a, b, j);
    }
  }

  /** Word `k` while a stretch is being reversed from both its ends. */
  ghost predicate SwappedAt(was: seq<int>, now: seq<int>, a1: nat, a2: nat, lo: nat, hi: nat, k: nat)
    requires a1 <= hi && lo <= a2 && a1 <= a2 <= |was|
  {
    |now| == |was| && (k < |was| ==> now[k] == if (a1 <= k < lo) || (hi <= k < a2) then was[a1 + a2 - 1 - k] else was[k])
  }

  ghost predicate Swapping(was: seq<int>, now: seq<int>, a1: nat, a2: nat, lo: nat, hi: nat)
  {
    && a1 <= lo <= hi <= a2 <= |was| == |now| && lo - a1 == a2 - hi
    && forall k: nat :: SwappedAt(was, now, a1, a2, lo, hi, k)
  }

  lemma SwappedMore(was: seq<int>, now: seq<int>, now': seq<int>, a1: nat, a2: nat, lo: nat, hi: nat, lo': nat, hi': nat)
    requires Swapping(was, now, a1, a2, lo, hi) && lo < hi' && lo' == lo + 1 && hi == hi' + 1
    requires now' == now[hi' := now[lo]][lo := now[hi']]
    ensures Swapping(was, now', a1, a2, lo', hi')
  {
    assert SwappedAt(was, now, a1, a2, lo, hi, lo) && SwappedAt(was, now, a1, a2, lo, hi, hi');
    forall k: nat ensures SwappedAt(was, now', a1, a2, lo', hi', k) {
      assert SwappedAt(was, now, a1, a2, lo, hi, k);
    }
  }

  lemma AllSwapped(was: seq<int>, now: seq<int>, a1: nat, a2: nat, lo: nat, hi: nat)
    requires Swapping(was, now, a1, a2, lo, hi) && hi <= lo + 1
    ensures Reversed(was, now, a1, a2)
  {
    forall k: nat ensures MirrorAt(was, now, a1, a2, k) {
      assert SwappedAt(was, now, a1, a2, lo, hi, k);
    }
  }

  class Buffer {
    /** Line 0 is no line; lines 1 to `dol` are.  One word behind the array's `nlall` is the one that
        `rdelete` may read behind the last line. */
    var zero: array<int>
    var dol: nat
    var dot: nat
    var subnewa: int
    var subolda: int
    var tline: int

    ghost predicate Valid()
      reads this, zero
    {
      dol + 1 < zero.Length && dot <= dol && !Marked(zero[0]) && !Marked(subolda) && !Marked(tline)
    }

    constructor (nlall: nat)
      requires 0 < nlall
      ensures Valid() && fresh(zero) && Stands() == Text([], 0, 0, 0, 0)
    {
      zero := new int[nlall + 1](_ => 0);
      dol, dot, subnewa, subolda, tline := 0, 0, 0, 0, 0;
    }

    ghost function Lines(): (l: seq<int>)
      reads `dol, `zero, zero
      requires dol < zero.Length
      ensures |l| == dol
    {
      zero[1..dol + 1]
    }

    ghost function Stands(): Text
      reads this, zero
      requires dol < zero.Length
    {
      Text(Lines(), dot, subnewa, subolda, tline)
    }

    /** `reverse`: the words from `a1` up to `a2` in the opposite order. */
    method Reverse(a1: nat, a2: nat)
      requires a1 < a2 <= zero.Length
      modifies zero
      ensures Reversed(old(zero[..]), zero[..], a1, a2)
    {
      var z := zero;
      ghost var was := z[..];
      var lo, hi := a1, a2;
      while true
        invariant 0 <= lo && 0 <= hi && Swapping(was, z[..], a1, a2, lo, hi)
        decreases hi - lo
      {
        ghost var now, top := z[..], hi;
        hi := hi - 1;
        var t := z[hi];
        if hi <= lo {
          AllSwapped(was, now, a1, a2, lo, top);
          return;
        }
        z[hi] := z[lo];
        z[lo] := t;
        assert z[..] == now[hi := now[lo]][lo := now[hi]];
        SwappedMore(was, now, z[..], a1, a2, lo, top, lo + 1, hi);
        lo := lo + 1;
      }
    }

    /** The inner loop of `append`: the lines from `rdot` on move up by one. */
    method ShiftUp(rdot: nat)
      requires 1 <= rdot <= dol < zero.Length
      modifies zero
      ensures forall k :: 0 <= k < zero.Length ==>
                zero[k] == if rdot < k <= dol then old(zero[k - 1]) else old(zero[k])
    {
      var a1 := dol;
      while a1 > rdot
        invariant rdot <= a1 <= dol
        invariant forall k :: 0 <= k < zero.Length ==>
                    zero[k] == if a1 < k <= dol then old(zero[k - 1]) else old(zero[k])
      {
        zero[a1] := zero[a1 - 1];
        a1 := a1 - 1;
      }
    }

    /** The array gets 512 words more. */
    method Grow()
      requires Valid()
      modifies `zero
      ensures Valid() && Stands() == old(Stands()) && fresh(zero) && dol + 2 < zero.Length
    {
      var bigger := new int[zero.Length + 512](i requires 0 <= i reads this, zero => if i < zero.Length then zero[i] else 0);
      ghost var l := Lines();
      zero := bigger;
      assert Lines() == l;
    }

    /** `putline`: the word for a new line. */
    method Putline() returns (tl: int)
      modifies `tline
      ensures tl == old(tline) && tline == tl + 2
    {
      tl := tline;
      tline := tl + 2;
    }

    /** One turn of `append`: a line behind the current one. */
    method Insert(tl: int)
      requires Valid() && dol + 2 < zero.Length
      modifies `dol, `dot, zero
      ensures Valid() && dot == old(dot) + 1
      ensures Lines() == old(Lines())[..old(dot)] + [tl] + old(Lines())[old(dot)..]
    {
      ghost var z, n := zero[..], dol;
      dol := dol + 1;
      dot := dot + 1;
      ShiftUp(dot);
      zero[dot] := tl;
      ghost var z', a := zero[..], dot - 1;
      forall k: nat ensures InsertedAt(z, z', n, a, tl, k) {
      }
      InsertedLines(z, z', n, a, tl);
      assert Lines() == z'[1..dol + 1];
      assert old(Lines()) == z[1..n + 1];
    }

    /** The same, with room made for it. */
    method AppendOne()
      requires Valid()
      modifies this, zero
      ensures Valid() && (zero == old(zero) || fresh(zero))
      ensures Stands() == old(Stands()).(lines := Lines(), dot := dot, tline := old(tline) + 2) && dot == old(dot) + 1
      ensures Lines() == old(Lines())[..old(dot)] + [old(tline)] + old(Lines())[old(dot)..]
    {
      if dol + 1 >= zero.Length - 1 {
        Grow();
      }
      var tl := Putline();
      Insert(tl);
    }

    /** `append`: `n` new lines behind line `a`, one by one. */
    method AppendLines(a: nat, n: nat)
      requires Valid() && a <= dol
      modifies this, zero
      ensures Valid() && (zero == old(zero) || fresh(zero))
      ensures Stands() == AppendOn(old(Stands()), a, n)
    {
      ghost var t := Stands();
      var nline := 0;
      dot := a;
      assert t.lines == t.lines[..a] + NewWords(t.tline, 0) + t.lines[a..];
      while nline < n
        invariant nline <= n && Valid() && (zero == old(zero) || fresh(zero))
        invariant Stands() == AppendOn(t, a, nline)
      {
        AppendedOne(t, a, nline);
        AppendOne();
        nline := nline + 1;
      }
    }

    /** The loop of `rdelete`: what is from `a2` on moves down to `a1`. */
    method ShiftDown(ad1: nat, ad2: nat)
      requires 1 <= ad1 < ad2 <= dol + 1 < zero.Length
      modifies zero
      ensures forall k :: 0 <= k < ad1 ==> zero[k] == old(zero[k])
      ensures forall k :: ad1 <= k <= dol - (ad2 - ad1) ==> zero[k] == old(zero[k + (ad2 - ad1)])
    {
      var a1, a2, a3 := ad1, ad2, dol;
      ghost var d := a2 - a1;
      var z := zero;
      z[a1] := z[a2];
      a1, a2 := a1 + 1, a2 + 1;
      while a2 <= a3
        invariant ad1 < a1 < a2 <= a3 + 2 && a2 == a1 + d
        invariant forall k :: 0 <= k < ad1 ==> z[k] == old(zero[k])
        invariant forall k :: a1 <= k < zero.Length ==> z[k] == old(zero[k])
        invariant forall k :: ad1 <= k < a1 ==> z[k] == old(zero[k + d])
      {
        z[a1] := z[a2];
        a1, a2 := a1 + 1, a2 + 1;
      }
    }

    /** `rdelete`: lines `ad1` to `ad2` go, the line behind them becomes current. */
    method RDelete(ad1: nat, ad2: nat)
      requires Valid() && 1 <= ad1 <= ad2 <= dol
      modifies `dol, `dot, zero
      ensures Valid() && Lines() == old(Lines())[..ad1 - 1] + old(Lines())[ad2..]
      ensures dot == Least(ad1, dol)
    {
      ghost var z, n := zero[..], dol;
      ShiftDown(ad1, ad2 + 1);
      dol := dol - (ad2 + 1 - ad1);
      var a1 := ad1;
      if a1 > dol {
        a1 := dol;
      }
      dot := a1;
      DeletedLines(z, zero[..], n, ad1, ad2);
      assert Lines() == zero[..][1..dol + 1];
      assert old(Lines()) == z[1..n + 1];
    }

    /** `gdelete`: all marked lines go in one pass. */
    method GDelete()
      requires Valid() && dol > 0
      modifies `dol, `dot, zero
      ensures Valid() && Lines() == Kept(old(Lines())) && dot == DotByGdelete(old(Lines()), old(dot))
    {
      ghost var l, was := Lines(), zero[..];
      var a3, a1 := dol, 1;
      while !Marked(zero[a1])
        invariant 1 <= a1 <= a3 && zero[..] == was
        invariant forall k :: 1 <= k < a1 ==> !Marked(was[k])
        decreases a3 - a1
      {
        if a1 >= a3 {
          NoneMarked(l);
          return;
        }
        a1 := a1 + 1;
      }
      FirstMark(l, a1 - 1);
      Compact(a1);
    }

    /** The second loop of `gdelete`, from the line behind the first marked one. */
    method CompactLoop(first: nat) returns (a1: nat)
      requires Valid() && 1 <= first <= dol && Midway(Lines(), Lines(), first, first + 1, dot, dot)
      modifies `dot, zero
      ensures Valid() && Midway(old(Lines()), Lines(), a1, dol + 1, old(dot), dot)
    {
      ghost var l := Lines();
      var a2 := first + 1;
      a1 := first;
      while a2 <= dol
        invariant Valid() && a2 <= dol + 1 && dol == |l| && Midway(l, Lines(), a1, a2, old(dot), dot)
        decreases dol - a2
      {
        a1, a2 := CompactOne(a1, a2, l, old(dot));
      }
    }

    /** One turn of the second loop of `gdelete`. */
    method CompactOne(a1: nat, a2: nat, ghost l: seq<int>, ghost dot0: nat) returns (a1': nat, a2': nat)
      requires Valid() && a2 <= dol == |l| && Midway(l, Lines(), a1, a2, dot0, dot)
      modifies `dot, zero
      ensures Valid() && a2' == a2 + 1 && Midway(l, Lines(), a1', a2', dot0, dot)
    {
      CompactedMore(l, Lines(), a2 - 1, a1 - 1, a2);
      DotMore(l, a2 - 1, dot0, dot, a2, a1);
      a2' := a2 + 1;
      if Marked(zero[a2]) {
        dot := a1;
        a1' := a1;
      } else {
        KeepOne(a1, a2);
        a1' := a1 + 1;
      }
    }

    /** `*a1 = *a2`. */
    method KeepOne(a1: nat, a2: nat)
      requires Valid() && 1 <= a1 <= dol && 1 <= a2 <= dol
      modifies zero
      ensures Valid() && Lines() == old(Lines())[a1 - 1 := old(Lines())[a2 - 1]] && zero[0] == old(zero[0])
    {
      zero[a1] := zero[a2];
    }

    method Compact(first: nat)
      requires Valid() && 1 <= first <= dol
      requires Midway(Lines(), Lines(), first, first + 1, dot, dot)
      modifies `dol, `dot, zero
      ensures Valid() && Lines() == Kept(old(Lines())) && dot == DotByGdelete(old(Lines()), old(dot))
    {
      ghost var l := Lines();
      var a1 := CompactLoop(first);
      ghost var now := Lines();
      assert l[..dol] == l;
      LastPlaceOfNone(l);
      PrefixLines(zero[..], now, a1 - 1);
      dol := a1 - 1;
      if dot > dol {
        dot := dol;
      }
    }

    /** The marks of lines `ad1` to `ad2` are cleared. */
    method ClearMarks(ad1: nat, ad2: nat)
      requires Valid() && 1 <= ad1 <= ad2 <= dol
      modifies zero
      ensures Valid() && Lines() == Cleared(old(Lines()), ad1 - 1, ad2)
      ensures forall k :: 0 <= k < zero.Length && (k == 0 || k > dol) ==> zero[k] == old(zero[k])
    {
      ghost var l := Lines();
      var a := ad1;
      while a <= ad2
        invariant ad1 <= a <= ad2 + 1 && Valid()
        invariant forall k :: 0 <= k < zero.Length ==>
                    zero[k] == if ad1 <= k < a then Clear(old(zero[k])) else old(zero[k])
      {
        zero[a] := Clear(zero[a]);
        a := a + 1;
      }
      ghost var l', r := Lines(), Cleared(l, ad1 - 1, ad2);
      forall k: nat | k < dol ensures l'[k] == r[k] {
        assert l'[k] == zero[k + 1];
      }
    }

    /** The lines behind the first `p`, up to `q` and from there up to `r`, change places. */
    method Rotate(p: nat, q: nat, r: nat)
      requires Valid() && p < q < r <= dol
      modifies zero
      ensures Valid() && Rotated(old(Lines()), Lines(), p, q, r)
    {
      ghost var z, l := zero[..], Lines();
      assert l == z[1..dol + 1];
      Reverse(p + 1, q + 1);
      ghost var z1 := zero[..];
      Reverse(q + 1, r + 1);
      ghost var z2 := zero[..];
      Reverse(p + 1, r + 1);
      ghost var z3 := zero[..];
      ghost var l3 := Lines();
      assert l3 == z3[1..dol + 1] && zero[0] == z3[0];
      RotatedLines(z, z1, z2, z3, l, l3, p, q, r, dol);
    }

    /** The block goes to a place before it, and its last line becomes current. */
    method MoveUp(ad1: nat, ad2: nat, adt: nat)
      requires Valid() && adt < ad1 < ad2 <= dol + 1
      modifies `dot, zero
      ensures Valid() && dot == adt + (ad2 - ad1) && Lines() == Shifted(old(Lines()), ad1 - 1, ad2 - 1, adt)
    {
      ghost var l := Lines();
      dot := adt + (ad2 - ad1);
      if adt + 1 != ad1 {
        Rotate(adt, ad1 - 1, ad2 - 1);
        RotatedIs(l, Lines(), adt, ad1 - 1, ad2 - 1);
      } else {
        ShiftedNone(l, adt, ad2 - 1);
      }
    }

    /** The block goes to a place behind it. */
    method MoveDown(ad1: nat, ad2: nat, adt: nat)
      requires Valid() && 1 <= ad1 < ad2 <= adt <= dol
      modifies `dot, zero
      ensures Valid() && dot == adt && Lines() == Shifted(old(Lines()), ad1 - 1, ad2 - 1, adt)
    {
      ghost var l := Lines();
      dot := adt;
      Rotate(ad1 - 1, ad2 - 1, adt);
      RotatedIs(l, Lines(), ad1 - 1, ad2 - 1, adt);
    }

    /** The second half of `move`: three reversals, before the block or behind it. */
    method MoveBlock(addr1: nat, addr2: nat, adt: nat) returns (ok: bool)
      requires Valid() && 1 <= addr1 <= addr2 <= dol && adt <= dol
      modifies `dot, zero
      ensures Valid() && ok == !(addr1 <= adt <= addr2)
      ensures ok ==> Lines() == Shifted(old(Lines()), addr1 - 1, addr2, adt)
      ensures ok ==> dot == if adt < addr1 then adt + (addr2 - addr1 + 1) else adt
      ensures !ok ==> Lines() == old(Lines()) && dot == old(dot)
    {
      var ad1, ad2 := addr1, addr2 + 1;
      if adt < ad1 {
        MoveUp(ad1, ad2, adt);
        return true;
      } else if adt >= ad2 {
        MoveDown(ad1, ad2, adt);
        return true;
      }
      return false;
    }

    /** `move`: lines `addr1` to `addr2`, unmarked, to behind line `adt`, unless it is one of them. */
    method MoveLines(addr1: nat, addr2: nat, adt: nat) returns (ok: bool)
      requires Valid() && 1 <= addr1 <= addr2 <= dol && adt <= dol
      modifies `dot, zero
      ensures Valid() && ok == !(addr1 <= adt <= addr2)
      ensures ok ==> Lines() == Shifted(Cleared(old(Lines()), addr1 - 1, addr2), addr1 - 1, addr2, adt)
      ensures ok ==> dot == if adt < addr1 then adt + (addr2 - addr1 + 1) else adt
      ensures !ok ==> Lines() == Cleared(old(Lines()), addr1 - 1, addr2) && dot == old(dot)
    {
      ClearMarks(addr1, addr2);
      ok := MoveBlock(addr1, addr2, adt);
    }

    /** The first loop of `global`: of the lines addressed, those are marked that match as asked. */
    method Mark(addr1: nat, addr2: nat, hits: set<int>, k: bool)
      requires Valid() && 1 <= addr1
      modifies zero
      ensures Valid() && Lines() == MarksOn(old(Lines()), addr1, addr2, hits, k)
    {
      ghost var l := Lines();
      zero[0] := Clear(zero[0]);
      var a1 := 1;
      while a1 <= dol
        invariant 1 <= a1 <= dol + 1 && Valid() && Halfmarked(l, Lines(), a1 - 1, addr1, addr2, hits, k)
      {
        MarkNext(a1, addr1, addr2, hits, k, l, a1 - 1);
        a1 := a1 + 1;
      }
      assert l[..dol] == l && Lines()[..dol] == Lines();
    }

    /** One turn of it. */
    method MarkNext(a1: nat, addr1: nat, addr2: nat, hits: set<int>, k: bool, ghost l: seq<int>, ghost n: nat)
      requires Valid() && 1 <= a1 <= dol && n == a1 - 1 && Halfmarked(l, Lines(), n, addr1, addr2, hits, k)
      modifies zero
      ensures Valid() && Halfmarked(l, Lines(), a1, addr1, addr2, hits, k)
    {
      MarkMore(l, Lines(), n, addr1, addr2, hits, k);
      assert zero[a1] == Lines()[n];
      MarkOne(a1, addr1 <= a1 <= addr2 && (Clear(zero[a1]) in hits) == k);
    }

    /** `*a1 &= ~01`, and `*a1 |= 01` if the line is to be marked. */
    method MarkOne(a1: nat, mark: bool)
      requires Valid() && 1 <= a1 <= dol
      modifies zero
      ensures Valid() && Lines() == old(Lines())[a1 - 1 := Clear(old(Lines())[a1 - 1]) + if mark then 1 else 0]
    {
      zero[a1] := Clear(zero[a1]);
      if mark {
        zero[a1] := zero[a1] + 1;
      }
    }

    /** One line gets another word. */
    method SetLine(a: nat, w: int)
      requires Valid() && 1 <= a <= dol
      modifies zero
      ensures Valid() && Lines() == old(Lines())[a - 1 := w]
    {
      zero[a] := w;
    }

    // -------------------------------------------------------------- addresses

    /** The loop of `address` for a pattern; -1 if no line matches. */
    method SearchLine(forward: bool, hits: set<int>) returns (a1: int)
      requires Valid()
      ensures a1 == Searched(Lines(), dot, forward, hits, dol + 1)
    {
      ghost var l := Lines();
      var a := dot;
      ghost var n := dol + 1;
      while true
        invariant 0 <= a <= dol && 0 < n && Searched(l, a, forward, hits, n) == Searched(l, dot, forward, hits, dol + 1)
        invariant n == StepsBack(a, dot, dol, forward)
        decreases n
      {
        if forward {
          a := a + 1;
          if a > dol {
            a := 0;
          }
        } else if a == 0 {
          a := dol;
        } else {
          a := a - 1;
        }
        assert a > 0 ==> l[a - 1] == zero[a];
        if a > 0 && Clear(zero[a]) in hits {
          return a;
        }
        if a == dot {
          return -1;
        }
        n := n - 1;
      }
    }

    /** `address`; -1 where the original reports an error. */
    method Address(a: Addr) returns (r: int)
      requires Valid()
      ensures r == AddrAt(Stands(), a)
    {
      var a1, minus := 0, 0;
      match a {
        case Abs(n) => minus := n;
        case Here(off) => a1, minus := dot, off;
        case End(off) => a1, minus := dol, off;
        case Search(forward, hits, off) =>
          a1 := SearchLine(forward, hits);
          minus := off;
      }
      if a1 < 0 || a1 + minus < 0 || a1 + minus > dol {
        return -1;
      }
      return a1 + minus;
    }

    /** The loop of `commands` over the addresses in front of a command; -1 for none. */
    method Addresses(spec: Spec) returns (ok: bool, addr1: int, addr2: int)
      requires Valid()
      modifies `dot
      ensures Valid() && Read(ok, Stands(), addr1, addr2) == Resolved(old(Stands()), spec)
    {
      ghost var t := Stands();
      addr1, addr2 := -1, -1;
      var i := 0;
      while i < |spec.seps|
        invariant i <= |spec.seps| && Valid() && -1 <= addr2 <= dol
        invariant Walked(t, spec.seps, -1) == Walked(Stands(), spec.seps[i..], addr2)
      {
        ghost var rest := spec.seps[i..];
        var sep := spec.seps[i];
        assert rest[0] == sep && rest[1..] == spec.seps[i + 1..];
        addr2 := Address(sep.a);
        if addr2 < 0 {
          return false, -1, -1;
        }
        if sep.semi {
          dot := addr2;
        }
        i := i + 1;
      }
      addr1 := addr2;
      if spec.last.AnAddr? {
        var a := Address(spec.last.a);
        if a < 0 {
          return false, -1, -1;
        }
        addr1, addr2 := if addr1 < 0 then a else addr1, a;
      }
      ok := true;
    }

    // -------------------------------------------------------------- commands

    /** `join`. */
    method JoinLines(addr1: nat, addr2: nat, longs: set<seq<int>>) returns (ok: bool)
      requires Valid() && 1 <= addr1 <= addr2 <= dol
      modifies `dol, `dot, `tline, zero
      ensures Valid() && Ran(ok, Stands()) == JoinOn(old(Stands()), addr1, addr2, longs)
    {
      ghost var l := Lines();
      var words := GetWords(addr1, addr2);
      if words in longs {
        return false;
      }
      var tl := Putline();
      SetLine(addr1, tl);
      ghost var m := Lines();
      if addr1 < addr2 {
        RDelete(addr1 + 1, addr2);
      }
      dot := addr1;
      JoinedLines(l, m, addr1, addr2, tl);
      ok := true;
    }

    /** The lines that `join` reads. */
    method GetWords(addr1: nat, addr2: nat) returns (words: seq<int>)
      requires Valid() && 1 <= addr1 <= addr2 <= dol
      ensures words == Words(Lines()[addr1 - 1..addr2])
    {
      ghost var l := Lines();
      words := [];
      var a1 := addr1;
      assert l[addr1 - 1..addr1 - 1] == [];
      while a1 <= addr2
        invariant addr1 <= a1 <= addr2 + 1 && words == Words(l[addr1 - 1..a1 - 1])
      {
        assert l[addr1 - 1..a1][..a1 - addr1] == l[addr1 - 1..a1 - 1] && l[addr1 - 1..a1][a1 - addr1] == zero[a1];
        words := words + [Clear(zero[a1])];
        a1 := a1 + 1;
      }
    }

    /** `move(1)`: copies at the end, and three reversals. */
    method CopyLines(addr1: nat, addr2: nat, adt: nat)
      requires Valid() && 1 <= addr1 <= addr2 <= dol && adt <= dol
      modifies this, zero
      ensures Valid() && (zero == old(zero) || fresh(zero))
      ensures Stands() == CopyOn(old(Stands()), addr1, addr2, adt)
    {
      ghost var l, n, w := Lines(), addr2 + 1 - addr1, tline;
      var ad1 := dol + 1;
      AppendLines(dol, addr2 + 1 - addr1);
      var ad2 := dol + 1;
      ghost var m := Lines();
      CopyShifted(l, m, NewWords(w, n), adt);
      MoveUp(ad1, ad2, adt);
    }

    /** A substitution in line `a1` brings in `nl` line breaks. */
    method SubstLine(a1: nat, nl: nat)
      requires Valid() && 1 <= a1 <= dol
      modifies this, zero
      ensures Valid() && (zero == old(zero) || fresh(zero))
      ensures Stands() == SubstLineOn(old(Stands()), a1, nl)
    {
      ghost var l := Lines();
      subnewa := Putline();
      subolda := Clear(zero[a1]);
      SetLine(a1, subnewa);
      ghost var m := Lines();
      AppendLines(a1, nl);
      assert m[..a1] == l[..a1 - 1] + [subnewa] && m[a1..] == l[a1..];
    }

    /** The loop of `substitute` over the lines addressed. */
    method SubstLines(addr1: nat, addr2: nat, splits: map<int, nat>, long: set<int>, ghost r: Ran) returns (ok: bool)
      requires Valid() && 1 <= addr1 <= addr2 <= dol
      requires SubstLeadsTo(Stands(), addr1, addr2 + 1 - addr1, splits, long, r)
      modifies this, zero
      ensures Valid() && (zero == old(zero) || fresh(zero)) && r == Ran(ok, Stands())
    {
      var a1, last := addr1, addr2;
      ok := true;
      while a1 <= last
        invariant Valid() && (zero == old(zero) || fresh(zero)) && 1 <= a1 <= last + 1 <= dol + 1 && ok
        invariant SubstLeadsTo(Stands(), a1, last + 1 - a1, splits, long, r)
        decreases last + 1 - a1
      {
        var nl;
        ok, nl := SubstNext(a1, last + 1 - a1, splits, long, r);
        if !ok {
          return;
        }
        a1, last := a1 + nl + 1, last + nl;
      }
      SubstEnds(Stands(), a1, splits, long, r);
    }

    /** One turn of it: line `a1`, the first of `n` to go, and `nl` new lines behind it. */
    method SubstNext(a1: nat, n: nat, splits: map<int, nat>, long: set<int>, ghost r: Ran) returns (ok: bool, nl: nat)
      requires Valid() && 1 <= a1 <= dol && n > 0 && SubstLeadsTo(Stands(), a1, n, splits, long, r)
      modifies this, zero
      ensures Valid() && (zero == old(zero) || fresh(zero))
      ensures if ok then dol == old(dol) + nl && SubstLeadsTo(Stands(), a1 + nl + 1, n - 1, splits, long, r)
              else r == Ran(false, Stands())
    {
      SubstStep(Stands(), a1, n, splits, long, r);
      var w := Clear(zero[a1]);
      assert w == Clear(Lines()[a1 - 1]);
      ok, nl := w !in long, 0;
      if ok && w in splits {
        nl := splits[w];
        SubstLine(a1, nl);
      }
    }

    /** `substitute`. */
    method Substitute(addr1: nat, addr2: nat, splits: map<int, nat>, long: set<int>) returns (ok: bool)
      requires Valid() && 1 <= addr1 <= addr2 <= dol
      modifies this, zero
      ensures Valid() && (zero == old(zero) || fresh(zero))
      ensures Ran(ok, Stands()) == SubstOn(old(Stands()), addr1, addr2 + 1 - addr1, splits, long)
    {
      ghost var r := SubstOn(Stands(), addr1, addr2 + 1 - addr1, splits, long);
      ok := SubstLines(addr1, addr2, splits, long, r);
    }

    /** `u` in line `a`. */
    method UndoLine(a: nat) returns (ok: bool)
      requires Valid() && 1 <= a <= dol
      modifies `dot, zero
      ensures Valid() && Ran(ok, Stands()) == UndoOn(old(Stands()), a)
    {
      assert zero[a] == Lines()[a - 1];
      if Clear(zero[a]) != subnewa {
        return false;
      }
      SetLine(a, subolda);
      dot := a;
      ok := true;
    }

    /** `m` and `t`: the target is read behind the addresses. */
    method MoveOrCopy(addr1: nat, addr2: nat, to: MaybeAddr, copy: bool) returns (ok: bool)
      requires Valid() && 1 <= addr1 <= addr2 <= dol
      modifies this, zero
      ensures Valid() && (zero == old(zero) || fresh(zero))
      ensures Ran(ok, Stands()) == MoveOrCopyOn(old(Stands()), addr1, addr2, to, copy)
    {
      var adt := -1;
      if to.AnAddr? {
        adt := Address(to.a);
      }
      if adt < 0 {
        return false;
      }
      ok := true;
      if copy {
        CopyLines(addr1, addr2, adt);
      } else {
        ok := MoveLines(addr1, addr2, adt);
      }
    }

    /** `c`. */
    method ChangeLines(addr1: nat, addr2: nat, n: nat)
      requires Valid() && 1 <= addr1 <= addr2 <= dol
      modifies this, zero
      ensures Valid() && (zero == old(zero) || fresh(zero))
      ensures Stands() == AppendOn(DeleteOn(old(Stands()), addr1, addr2), addr1 - 1, n)
    {
      RDelete(addr1, addr2);
      AppendLines(addr1 - 1, n);
    }

    /** A command on lines that `setdot` and `nonzero` have let pass. */
    method RunOnLines(c: Cmd, addr1: nat, addr2: nat) returns (ok: bool)
      requires Valid() && 1 <= addr1 <= addr2 <= dol
      modifies this, zero
      ensures Valid() && (zero == old(zero) || fresh(zero))
      ensures Ran(ok, Stands()) == OnLines(old(Stands()), c, addr1, addr2)
    {
      ok := true;
      match c
      case Insert(_, n) =>
        AppendLines(addr2 - 1, n);
      case Change(_, n) =>
        ChangeLines(addr1, addr2, n);
      case Delete(_) =>
        RDelete(addr1, addr2);
      case Join(_, longs) =>
        ok := JoinLines(addr1, addr2, longs);
      case Move(_, to) =>
        ok := MoveOrCopy(addr1, addr2, to, false);
      case Copy(_, to) =>
        ok := MoveOrCopy(addr1, addr2, to, true);
      case Subst(_, splits, long) =>
        ok := Substitute(addr1, addr2, splits, long);
      case Undo(_) =>
        ok := UndoLine(addr2);
      case Print(_) =>
        dot := addr2;
      case _ =>
        ok := false;
    }

    /** A command behind its addresses. */
    method Apply(c: Cmd, b1: int, b2: int) returns (ok: bool)
      requires Valid() && b1 <= dol && b2 <= dol
      modifies this, zero
      ensures Valid() && (zero == old(zero) || fresh(zero))
      ensures Ran(ok, Stands()) == Applied(old(Stands()), c, b1, b2)
    {
      if c.Nested? {
        return false;
      }
      var addr1, addr2 := b1, b2;
      if addr2 < 0 {
        if c.ReadIn? {
          addr1, addr2 := if dol == 0 then 0 else 1, dol;
        } else if c.Join? {
          addr1, addr2 := dot, dot + 1;
        } else {
          addr1, addr2 := dot, dot;
        }
      }
      if addr1 > addr2 {
        return false;
      }
      if c.Append? || c.ReadIn? {
        AppendLines(addr2, c.n);
        return true;
      }
      if addr1 <= 0 || addr2 > dol {
        return false;
      }
      ok := RunOnLines(c, addr1, addr2);
    }

    /** A command as `commands` runs it under a global command. */
    method Run(c: Cmd) returns (ok: bool)
      requires Valid()
      modifies this, zero
      ensures Valid() && (zero == old(zero) || fresh(zero))
      ensures Ran(ok, Stands()) == RunOn(old(Stands()), c)
    {
      var addr1, addr2;
      ok, addr1, addr2 := Addresses(c.spec);
      if ok {
        ok := Apply(c, addr1, addr2);
      }
    }

    /** The command list, until one of them fails. */
    method RunAll(cmds: seq<Cmd>) returns (ok: bool)
      requires Valid()
      modifies this, zero
      ensures Valid() && (zero == old(zero) || fresh(zero))
      ensures Ran(ok, Stands()) == RunAllOn(old(Stands()), cmds)
    {
      ghost var t := Stands();
      ok := true;
      var n := 0;
      RanNone(t, cmds);
      while n < |cmds| && ok
        invariant n <= |cmds| && Valid() && (zero == old(zero) || fresh(zero))
        invariant RanTo(t, cmds, n, Ran(ok, Stands()))
        decreases |cmds| - n
      {
        ghost var s := Stands();
        ok := Run(cmds[n]);
        RanMore(t, cmds, n, s, Ran(ok, Stands()));
        n := n + 1;
      }
      RanAll(t, cmds, n, Ran(ok, Stands()));
    }

    /** One pass of `global`: the line loses its mark and becomes current, the commands run. */
    method GlobalPass(a1: nat, cmds: seq<Cmd>) returns (ok: bool)
      requires Valid() && 1 <= a1 <= dol
      modifies this, zero
      ensures Valid() && (zero == old(zero) || fresh(zero))
      ensures Ran(ok, Stands()) == PassOn(old(Stands()), a1 - 1, cmds)
    {
      assert zero[a1] == Lines()[a1 - 1];
      SetLine(a1, Clear(zero[a1]));
      dot := a1;
      ok := RunAll(cmds);
    }

    /** The pass for the first marked line leaves the rest of the loop to do. */
    method GlobalNext(a1: nat, cmds: seq<Cmd>, ghost r: Ran) returns (ok: bool)
      requires Valid() && LeadsTo(Stands(), cmds, r) && 1 <= a1 <= dol && Marked(zero[a1])
      requires AllPlain(zero[..], a1)
      modifies this, zero
      ensures Valid() && (zero == old(zero) || fresh(zero)) && MarkCount(Lines()) < MarkCount(old(Lines()))
      ensures if ok then LeadsTo(Stands(), cmds, r) else r == Ran(false, Stands())
    {
      ghost var t := Stands();
      PassCounts(t, a1 - 1, cmds);
      LinesPlain(zero[..], Lines(), a1);
      ok := GlobalPass(a1, cmds);
      LeadsOn(t, a1 - 1, cmds, r, Ran(ok, Stands()));
    }

    /** The loop of `global` over the marked lines, which ends because each pass leaves fewer of them. */
    method GlobalLoop(cmds: seq<Cmd>, ghost r: Ran) returns (ok: bool)
      requires Valid() && LeadsTo(Stands(), cmds, r)
      modifies this, zero
      ensures Valid() && (zero == old(zero) || fresh(zero)) && r == Ran(ok, Stands())
    {
      var a1 := 0;
      NonePlain(zero[..]);
      while a1 <= dol
        invariant Valid() && (zero == old(zero) || fresh(zero)) && a1 <= dol + 1
        invariant LeadsTo(Stands(), cmds, r)
        invariant AllPlain(zero[..], a1)
        decreases MarkCount(Lines()), dol + 1 - a1
      {
        if Marked(zero[a1]) {
          ok := GlobalNext(a1, cmds, r);
          if !ok {
            return;
          }
          NonePlain(zero[..]);
          a1 := 0;
        } else {
          OneMorePlain(zero[..], a1, a1 + 1);
          a1 := a1 + 1;
        }
      }
      ok := true;
      LinesPlain(zero[..], Lines(), a1);
      NoneMarked(Lines());
      LeadsNowhere(Stands(), cmds, r);
    }

    /** `global` behind the marking. */
    method Global(cmds: seq<Cmd>) returns (ok: bool)
      requires Valid()
      modifies this, zero
      ensures Valid() && (zero == old(zero) || fresh(zero))
      ensures Ran(ok, Stands()) == GlobalOn(old(Stands()), cmds)
    {
      ghost var r := LeadsFrom(Stands(), cmds);
      ok := GlobalLoop(cmds, r);
    }

    /** `g`, or `v`, as a whole. */
    method GlobalCommand(spec: Spec, hits: set<int>, k: bool, cmds: seq<Cmd>) returns (ok: bool)
      requires Valid()
      modifies this, zero
      ensures Valid() && (zero == old(zero) || fresh(zero))
      ensures Ran(ok, Stands()) == GlobalCommandOn(old(Stands()), spec, hits, k, cmds)
    {
      var addr1, addr2;
      ok, addr1, addr2 := Addresses(spec);
      if !ok {
        return;
      }
      if addr2 < 0 {
        addr1, addr2 := if dol == 0 then 0 else 1, dol;
      }
      if addr1 > addr2 || addr1 <= 0 || addr2 > dol {
        return false;
      }
      ok := GlobalOver(addr1, addr2, hits, k, cmds);
    }

    /** `g`, or `v`, behind its addresses. */
    method GlobalOver(addr1: nat, addr2: nat, hits: set<int>, k: bool, cmds: seq<Cmd>) returns (ok: bool)
      requires Valid() && 1 <= addr1 <= addr2 <= dol
      modifies this, zero
      ensures Valid() && (zero == old(zero) || fresh(zero))
      ensures Ran(ok, Stands()) == GlobalOverOn(old(Stands()), addr1, addr2, hits, k, cmds)
    {
      ghost var r := OverFrom(Stands(), addr1, addr2, hits, k, cmds);
      ok := MarkAndRun(addr1, addr2, hits, k, cmds, r);
    }

    method MarkAndRun(addr1: nat, addr2: nat, hits: set<int>, k: bool, cmds: seq<Cmd>, ghost r: Ran) returns (ok: bool)
      requires Valid() && 1 <= addr1 <= addr2 <= dol && LeadsOver(Stands(), addr1, addr2, hits, k, cmds, r)
      modifies this, zero
      ensures Valid() && (zero == old(zero) || fresh(zero)) && r == Ran(ok, Stands())
    {
      OverOn(Stands(), addr1, addr2, hits, k, cmds, r);
      MarkAll(addr1, addr2, hits, k);
      if cmds == [Delete(NOWHERE)] {
        GDeleteAll();
        ok := true;
      } else {
        ok := GlobalLoop(cmds, r);
      }
    }

    method MarkAll(addr1: nat, addr2: nat, hits: set<int>, k: bool)
      requires Valid() && 1 <= addr1
      modifies zero
      ensures Valid() && Stands() == MarkedOn(old(Stands()), addr1, addr2, hits, k)
    {
      Mark(addr1, addr2, hits, k);
    }

    method GDeleteAll()
      requires Valid() && dol > 0
      modifies `dol, `dot, zero
      ensures Valid() && Stands() == GDeleteOn(old(Stands()))
    {
      GDelete();
    }
  }

  /** The first `n` commands come to `r`. */
  ghost predicate RanTo(t: Text, cmds: seq<Cmd>, n: nat, r: Ran)
  {
    n <= |cmds| && forall u: Text :: SameText(u, t) && u.dot <= |u.lines| ==> RunAllOn(u, cmds[..n]) == r
  }

  lemma RanNone(t: Text, cmds: seq<Cmd>)
    ensures RanTo(t, cmds, 0, Ran(true, t))
  {
    assert cmds[..0] == [];
  }

  lemma RanMore(t: Text, cmds: seq<Cmd>, n: nat, s: Text, r: Ran)
    requires RanTo(t, cmds, n, Ran(true, s)) && n < |cmds| && t.dot <= |t.lines| && s.dot <= |s.lines|
    requires r == RunOn(s, cmds[n])
    ensures RanTo(t, cmds, n + 1, r)
  {
    assert SameText(t, t);
    assert cmds[..n + 1][..n] == cmds[..n];
  }

  lemma RanAll(t: Text, cmds: seq<Cmd>, n: nat, r: Ran)
    requires RanTo(t, cmds, n, r) && t.dot <= |t.lines| && (n == |cmds| || !r.ok)
    ensures r == RunAllOn(t, cmds)
  {
    assert SameText(t, t);
    if n == |cmds| {
      assert cmds[..n] == cmds;
    } else {
      FailedStays(t, cmds, n);
    }
  }

  /** `g` on lines `a1` to `a2` comes to `r`. */
  ghost predicate LeadsOver(t: Text, a1: int, a2: int, hits: set<int>, k: bool, cmds: seq<Cmd>, r: Ran)
  {
    forall u: Text :: SameText(u, t) && TextOk(u) ==> GlobalOverOn(u, a1, a2, hits, k, cmds) == r
  }

  lemma OverFrom(t: Text, a1: int, a2: int, hits: set<int>, k: bool, cmds: seq<Cmd>) returns (r: Ran)
    requires TextOk(t)
    ensures r == GlobalOverOn(t, a1, a2, hits, k, cmds) && LeadsOver(t, a1, a2, hits, k, cmds, r)
  {
    r := GlobalOverOn(t, a1, a2, hits, k, cmds);
  }

  /** Once the lines are marked, it is `gdelete` or the loop. */
  lemma OverOn(t: Text, a1: int, a2: int, hits: set<int>, k: bool, cmds: seq<Cmd>, r: Ran)
    requires TextOk(t) && LeadsOver(t, a1, a2, hits, k, cmds, r)
    ensures var m := MarkedOn(t, a1, a2, hits, k);
            if cmds == [Delete(NOWHERE)] then r == Ran(true, GDeleteOn(m)) else LeadsTo(m, cmds, r)
  {
    assert SameText(t, t);
  }

  /** One more line behind those appended. */
  lemma AppendedOne(t: Text, a: nat, n: nat)
    requires a <= |t.lines|
    ensures var s := AppendOn(t, a, n);
            AppendOn(t, a, n + 1)
            == s.(lines := s.lines[..s.dot] + [s.tline] + s.lines[s.dot..], dot := s.dot + 1, tline := s.tline + 2)
  {
    var l, w := t.lines, NewWords(t.tline, n);
    var s := l[..a] + w + l[a..];
    assert s[..a + n] == l[..a] + w && s[a + n..] == l[a..];
    assert l[..a] + NewWords(t.tline, n + 1) == l[..a] + w + [t.tline + 2 * n];
  }

  /** New lines at the end, moved to behind line `adt`. */
  lemma CopyShifted(l: seq<int>, m: seq<int>, copies: seq<int>, adt: nat)
    requires adt <= |l| && m == l[..|l|] + copies + l[|l|..]
    ensures Shifted(m, |l|, |m|, adt) == l[..adt] + copies + l[adt..]
  {
    assert m[..adt] == l[..adt] && m[|l|..|m|] == copies && m[adt..|l|] == l[adt..] && m[|m|..] == [];
  }

  /** The first of the lines joined has its new word, the others go. */
  lemma JoinedLines(l: seq<int>, m: seq<int>, a1: nat, a2: nat, tl: int)
    requires 1 <= a1 <= a2 <= |l| && m == l[a1 - 1 := tl]
    ensures m[..a1] + m[a2..] == l[..a1 - 1] + [tl] + l[a2..]
    ensures a1 == a2 ==> m == m[..a1] + m[a2..]
  {
    assert m[..a1] == l[..a1 - 1] + [tl] && m[a2..] == l[a2..];
  }

  /** From here on, `substitute` comes to `r`. */
  ghost predicate SubstLeadsTo(t: Text, a: nat, n: nat, splits: map<int, nat>, long: set<int>, r: Ran)
  {
    && 1 <= a && a + n <= |t.lines| + 1
    && forall u: Text :: SameText(u, t) && a + n <= |u.lines| + 1 ==> SubstOn(u, a, n, splits, long) == r
  }

  /** What one turn of the loop of `substitute` leaves to do. */
  lemma SubstStep(t: Text, a: nat, n: nat, splits: map<int, nat>, long: set<int>, r: Ran)
    requires SubstLeadsTo(t, a, n, splits, long, r) && n > 0
    ensures var w := Clear(t.lines[a - 1]);
            if w in long then r == Ran(false, t)
            else if w !in splits then SubstLeadsTo(t, a + 1, n - 1, splits, long, r)
            else SubstLeadsTo(SubstLineOn(t, a, splits[w]), a + splits[w] + 1, n - 1, splits, long, r)
  {
    assert SameText(t, t);
  }

  lemma SubstEnds(t: Text, a: nat, splits: map<int, nat>, long: set<int>, r: Ran)
    requires SubstLeadsTo(t, a, 0, splits, long, r)
    ensures r == Ran(true, t)
  {
    assert SameText(t, t);
  }

  /** How many steps the search from `a` is before it comes to `dot` again. */
  function StepsBack(a: nat, dot: nat, dol: nat, forward: bool): int
  {
    if forward then if a < dot then dot - a else dot + dol + 1 - a
    else if a > dot then a - dot else a + dol + 1 - dot
  }

  /** Of the first `n` lines those asked for are marked, and no others. */
  ghost predicate Halfmarked(l: seq<int>, now: seq<int>, n: nat, a1: int, a2: int, hits: set<int>, k: bool)
  {
    n <= |l| == |now| && now[..n] == MarksOn(l[..n], a1, a2, hits, k) && now[n..] == l[n..]
  }

  lemma MarkMore(l: seq<int>, now: seq<int>, n: nat, a1: int, a2: int, hits: set<int>, k: bool)
    requires Halfmarked(l, now, n, a1, a2, hits, k) && n < |l|
    ensures now[n] == l[n]
    ensures var w := Clear(now[n]);
            Halfmarked(l, now[n := w + if a1 <= n + 1 <= a2 && (w in hits) == k then 1 else 0], n + 1, a1, a2, hits, k)
  {
    assert now[n] == now[n..][0] && l[n] == l[n..][0];
    var w := Clear(now[n]);
    var now' := now[n := w + if a1 <= n + 1 <= a2 && (w in hits) == k then 1 else 0];
    assert l[..n + 1][..n] == l[..n] && now'[..n + 1] == now[..n] + [now'[n]];
    assert now'[n + 1..] == now[n..][1..] && l[n + 1..] == l[n..][1..];
  }

  /** The lines kept of the first `n` are at the front, the others where they were. */
  ghost predicate Compacted(l: seq<int>, now: seq<int>, n: nat, m: nat)
  {
    m <= n <= |l| == |now| && now[..m] == Kept(l[..n]) && now[n..] == l[n..]
  }

  /** The second loop of `gdelete` with line `a2` next and `a1` the next place. */
  ghost predicate Midway(l: seq<int>, now: seq<int>, a1: nat, a2: nat, dot0: nat, dot: nat)
  {
    1 <= a1 < a2 <= |l| + 1 && Compacted(l, now, a2 - 1, a1 - 1) && DotSoFar(l, a2 - 1, dot0, dot)
  }

  lemma CompactedMore(l: seq<int>, now: seq<int>, n: nat, m: nat, n': nat)
    requires Compacted(l, now, n, m) && n < |l| && n' == n + 1
    ensures now[n] == l[n]
    ensures if Marked(l[n]) then Compacted(l, now, n', m) else Compacted(l, now[m := now[n]], n', m + 1)
  {
    KeptStep(l, n);
    assert now[n] == now[n..][0] && now[n'..] == now[n..][1..] && l[n'..] == l[n..][1..];
    if !Marked(l[n]) {
      var now' := now[m := now[n]];
      assert now'[..m + 1] == now[..m] + [now[n]];
      assert now'[n'..] == now[n'..];
    }
  }

  ghost predicate DotSoFar(l: seq<int>, n: nat, dot0: nat, dot: nat)
  {
    n <= |l| && MarkCount(l[..n]) >= 1 && dot == if MarkCount(l[..n]) == 1 then dot0 else LastPlace(l[..n])
  }

  lemma DotMore(l: seq<int>, n: nat, dot0: nat, dot: nat, n': nat, a1: nat)
    requires DotSoFar(l, n, dot0, dot) && n < |l| && n' == n + 1 && a1 == |Kept(l[..n])| + 1
    ensures DotSoFar(l, n', dot0, if Marked(l[n]) then a1 else dot)
  {
    KeptStep(l, n);
  }

  /** One line more. */
  lemma KeptStep(l: seq<int>, n: nat)
    requires n < |l|
    ensures MarkCount(l[..n + 1]) == MarkCount(l[..n]) + (if Marked(l[n]) then 1 else 0)
    ensures Kept(l[..n + 1]) == if Marked(l[n]) then Kept(l[..n]) else Kept(l[..n]) + [l[n]]
    ensures LastPlace(l[..n + 1]) == if Marked(l[n]) then |Kept(l[..n])| + 1 else LastPlace(l[..n])
  {
    assert l[..n + 1][..n] == l[..n];
  }

  /** The lines up to the first marked one. */
  lemma FirstMark(l: seq<int>, i: nat)
    requires i < |l| && Marked(l[i]) && forall k: nat | k < i :: !Marked(l[k])
    ensures MarkCount(l[..i + 1]) == 1 && Kept(l[..i + 1]) == l[..i] && LastPlace(l[..i + 1]) == i + 1
  {
    assert l[..i + 1][..i] == l[..i];
    NoneMarked(l[..i]);
  }

  lemma ShiftedNone(l: seq<int>, a: nat, b: nat)
    requires a <= b <= |l|
    ensures Shifted(l, a, b, a) == l
  {
  }

  ghost predicate InsertedAt(z: seq<int>, z': seq<int>, n: nat, a: nat, tl: int, k: nat)
  {
    k < |z| && k < |z'| ==> z'[k] == if k == a + 1 then tl else if a + 1 < k <= n + 1 then z[k - 1] else z[k]
  }

  lemma InsertedLines(z: seq<int>, z': seq<int>, n: nat, a: nat, tl: int)
    requires |z'| == |z| && a <= n && n + 1 < |z| && forall k: nat :: InsertedAt(z, z', n, a, tl, k)
    ensures z'[1..n + 2] == z[1..n + 1][..a] + [tl] + z[1..n + 1][a..]
  {
    var l := z[1..n + 1];
    var r := l[..a] + [tl] + l[a..];
    assert |z'[1..n + 2]| == n + 1 == |r|;
    forall k: nat | k < n + 1 ensures z'[1..n + 2][k] == r[k] {
      var j := k + 1;
      assert InsertedAt(z, z', n, a, tl, j) && z'[1..n + 2][k] == z'[j];
      if k < a {
        assert r[k] == l[..a][k] == z[j];
      } else if k > a {
        assert r[k] == l[a..][k - a - 1] == l[k - 1] == z[k];
      }
    }
  }

  lemma PrefixLines(z: seq<int>, l: seq<int>, m: nat)
    requires m <= |l| < |z| && l == z[1..|l| + 1]
    ensures z[1..m + 1] == l[..m]
  {
  }

  lemma DeletedLines(z: seq<int>, z': seq<int>, n: nat, ad1: nat, ad2: nat)
    requires |z'| == |z| && 1 <= ad1 <= ad2 <= n < |z|
    requires forall k :: 0 <= k < ad1 ==> z'[k] == z[k]
    requires forall k :: ad1 <= k <= n - (ad2 + 1 - ad1) ==> z'[k] == z[k + (ad2 + 1 - ad1)]
    ensures z'[1..n - (ad2 + 1 - ad1) + 1] == z[1..n + 1][..ad1 - 1] + z[1..n + 1][ad2..]
  {
    var l, m := z[1..n + 1], n - (ad2 + 1 - ad1);
    var front, back := l[..ad1 - 1], l[ad2..];
    forall k | 0 <= k < m ensures z'[1..m + 1][k] == (front + back)[k] {
      assert z'[1..m + 1][k] == z'[k + 1];
      if k >= ad1 - 1 {
        assert (front + back)[k] == back[k - (ad1 - 1)] == l[ad2 + (k - (ad1 - 1))];
        assert z'[k + 1] == z[k + 1 + (ad2 + 1 - ad1)];
      } else {
        assert (front + back)[k] == l[k];
        assert z'[k + 1] == z[k + 1];
      }
    }
  }

  lemma RotatedLines(z: seq<int>, z1: seq<int>, z2: seq<int>, z3: seq<int>, l: seq<int>, l3: seq<int>,
                     p: nat, q: nat, r: nat, dol: nat)
    requires p <= q <= r <= dol < |z| && Reversed(z, z1, p + 1, q + 1)
    requires Reversed(z1, z2, q + 1, r + 1) && Reversed(z2, z3, p + 1, r + 1)
    requires l == z[1..dol + 1] && l3 == z3[1..dol + 1]
    ensures z3[0] == z[0] && Rotated(l, l3, p, q, r)
  {
    var a, b, c := p + 1, q + 1, r + 1;
    ThreeReversals(z, z1, z2, z3, a, b, c);
    assert FromAt(z, z3, a, b, c, 0);
    forall k: nat ensures FromAt(l, l3, p, q, r, k) {
      var j := k + 1;
      assert FromAt(z, z3, a, b, c, j);
    }
  }

  ghost predicate PlainBefore(z: seq<int>, a: nat, k: nat)
  {
    k < a && k < |z| ==> !Marked(z[k])
  }

  ghost predicate AllPlain(z: seq<int>, a: nat)
  {
    forall k: nat :: PlainBefore(z, a, k)
  }

  lemma NonePlain(z: seq<int>)
    ensures AllPlain(z, 0)
  {
  }

  lemma OneMorePlain(z: seq<int>, a: nat, a': nat)
    requires a < |z| && !Marked(z[a]) && a' == a + 1 && AllPlain(z, a)
    ensures AllPlain(z, a')
  {
    forall k: nat ensures PlainBefore(z, a', k) {
      assert PlainBefore(z, a, k);
    }
  }

  /** Words of the lines before line `a1` are those before `a1`. */
  lemma LinesPlain(z: seq<int>, l: seq<int>, a1: nat)
    requires 0 < a1 <= |l| + 1 && |l| < |z| && l == z[1..|l| + 1] && AllPlain(z, a1)
    ensures forall k: nat | k < a1 - 1 :: !Marked(l[k])
  {
    forall k: nat | k < a1 - 1 ensures !Marked(l[k]) {
      var j := k + 1;
      assert PlainBefore(z, a1, j);
    }
  }
}
