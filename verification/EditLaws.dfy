/** Laws of addresses and commands in bin/ed.c: what they come to, said of the lines and the current line
    and not of how they are read. */
module EditLaws {
  import opened EditText

  // ---------------------------------------------------------------- commas and semicolons

  /** The addresses in front of a command, in order. */
  function AddrList(spec: Spec): (l: seq<Addr>)
    ensures |l| == |spec.seps| + (if spec.last.AnAddr? then 1 else 0)
    ensures forall i | 0 <= i < |spec.seps| :: l[i] == spec.seps[i].a
    ensures spec.last.AnAddr? ==> l[|spec.seps|] == spec.last.a
  {
    seq(|spec.seps|, i requires 0 <= i < |spec.seps| => spec.seps[i].a)
    + (if spec.last.AnAddr? then [spec.last.a] else [])
  }

  ghost predicate CommaAt(seps: seq<Sep>, i: nat)
  {
    i < |seps| ==> !seps[i].semi
  }

  /** No address stands in front of a semicolon. */
  ghost predicate Commas(seps: seq<Sep>)
  {
    forall i: nat :: CommaAt(seps, i)
  }

  ghost predicate BadAt(t: Text, l: seq<Addr>, i: nat)
    requires t.dot <= |t.lines|
  {
    i < |l| && AddrAt(t, l[i]) < 0
  }

  lemma {:induction false} WalkedCommas(t: Text, seps: seq<Sep>, a2: int)
    requires t.dot <= |t.lines| && -1 <= a2 <= |t.lines| && Commas(seps)
    ensures var r := Walked(t, seps, a2);
            && r.t == t
            && (r.ok <==> forall i | 0 <= i < |seps| :: AddrAt(t, seps[i].a) >= 0)
            && (r.ok ==> r.a2 == if seps == [] then a2 else AddrAt(t, seps[|seps| - 1].a))
    decreases |seps|
  {
    if seps != [] {
      assert CommaAt(seps, 0);
      var a := AddrAt(t, seps[0].a);
      if a >= 0 {
        var more := seps[1..];
        forall i: nat ensures CommaAt(more, i) {
          assert CommaAt(seps, i + 1);
        }
        WalkedCommas(t, more, a);
        assert forall i | 0 < i < |seps| :: seps[i] == more[i - 1];
      }
    }
  }

  /** Behind commas the current line stays, each address is read from there, and the last two count;
      a comma at the end makes the last one count twice. */
  lemma CommasStay(t: Text, spec: Spec)
    requires t.dot <= |t.lines| && Commas(spec.seps)
    ensures var r, l := Resolved(t, spec), AddrList(spec);
            && r.t == t
            && (!r.ok <==> exists i: nat :: BadAt(t, l, i))
            && (r.ok && |l| == 0 ==> r.a1 == r.a2 == -1)
            && (r.ok && |l| > 0 ==> r.a2 == AddrAt(t, l[|l| - 1]))
            && (r.ok && |l| > 0 ==>
                  r.a1 == if |l| > 1 && spec.last.AnAddr? then AddrAt(t, l[|l| - 2]) else AddrAt(t, l[|l| - 1]))
  {
    var l := AddrList(spec);
    WalkedCommas(t, spec.seps, -1);
    if i: nat :| BadAt(t, l, i) {
      assert i < |spec.seps| ==> l[i] == spec.seps[i].a;
    }
    forall i | 0 <= i < |spec.seps| && AddrAt(t, spec.seps[i].a) < 0 ensures BadAt(t, l, i) {
    }
    assert spec.last.AnAddr? && AddrAt(t, spec.last.a) < 0 ==> BadAt(t, l, |spec.seps|);
  }

  lemma {:induction false} WalkedOn(t: Text, first: seq<Sep>, rest: seq<Sep>, a2: int)
    requires t.dot <= |t.lines| && -1 <= a2 <= |t.lines|
    ensures var w := Walked(t, first, a2);
            Walked(t, first + rest, a2) == if w.ok then Walked(w.t, rest, w.a2) else w
    decreases |first|
  {
    if first == [] {
      assert first + rest == rest;
    } else {
      var a := AddrAt(t, first[0].a);
      assert (first + rest)[1..] == first[1..] + rest;
      if a >= 0 {
        WalkedOn(if first[0].semi then t.(dot := a) else t, first[1..], rest, a);
      }
    }
  }

  /** Behind a semicolon, what follows is read as from the text whose current line is where the address in
      front of the semicolon led, with that line as the first address; an error before it is the error. */
  lemma SemicolonMoves(t: Text, first: seq<Sep>, a: Addr, rest: seq<Sep>, last: MaybeAddr)
    requires t.dot <= |t.lines|
    ensures var p, r := Resolved(t, Spec(first, AnAddr(a))), Resolved(t, Spec(first + [Sep(a, true)] + rest, last));
            && (!p.ok ==> !r.ok && r.t == p.t)
            && (p.ok ==> p.a2 >= 0 && r == Resolved(p.t.(dot := p.a2), Spec([Sep(Abs(p.a2), false)] + rest, last)))
  {
    var s := [Sep(a, true)] + rest;
    assert first + [Sep(a, true)] + rest == first + s && s[1..] == rest;
    WalkedOn(t, first, s, -1);
    var p := Resolved(t, Spec(first, AnAddr(a)));
    if p.ok {
      var again := [Sep(Abs(p.a2), false)] + rest;
      assert again[1..] == rest;
    }
  }

  /** The second of two lines is counted from the current line behind a comma, from the first line behind
      a semicolon. */
  lemma CommaOrSemicolon(t: Text, n: nat, semi: bool, off: int)
    requires t.dot <= |t.lines| && n <= |t.lines| && 0 <= (if semi then n else t.dot) + off <= |t.lines|
    ensures var r := Resolved(t, Spec([Sep(Abs(n), semi)], AnAddr(Here(off))));
            && r.ok && r.a1 == n && r.a2 == (if semi then n else t.dot) + off
            && r.t.dot == if semi then n else t.dot
  {
    var seps, t' := [Sep(Abs(n), semi)], if semi then t.(dot := n) else t;
    assert seps[1..] == [] && AddrAt(t, Abs(n)) == n;
    assert Walked(t, seps, -1) == Walked(t', [], n) == Read(true, t', n, n);
  }

  // ---------------------------------------------------------------- searches

  /** Line `a`, if it is one of `lo` to `hi`, does not match. */
  ghost predicate MissAt(l: seq<int>, hits: set<int>, lo: int, hi: int, a: nat)
  {
    lo <= a <= hi ==> !Hit(l, a, hits)
  }

  ghost predicate Misses(l: seq<int>, hits: set<int>, lo: int, hi: int)
  {
    forall a: nat :: MissAt(l, hits, lo, hi, a)
  }

  lemma MissesMore(l: seq<int>, hits: set<int>, lo: int, hi: int, lo': int, hi': int, b: nat)
    requires Misses(l, hits, lo, hi) && !Hit(l, b, hits)
    requires lo - 1 <= lo' && hi' <= hi + 1 && (lo' < lo ==> lo' == b) && (hi < hi' ==> hi' == b)
    ensures Misses(l, hits, lo', hi')
  {
    forall a: nat ensures MissAt(l, hits, lo', hi', a) {
      assert MissAt(l, hits, lo, hi, a);
    }
  }

  /** Forward, the next matching line below is met first, then, from the top, one up to the current. */
  ghost predicate NearestForward(l: seq<int>, dot: nat, hits: set<int>, r: int, a: nat)
  {
    Hit(l, a, hits) ==> if a > dot then dot < r <= a else r > dot || 0 < r <= a
  }

  /** Backward, the nearest matching line above, then, from the bottom, one down to the current. */
  ghost predicate NearestBackward(l: seq<int>, dot: nat, hits: set<int>, r: int, a: nat)
  {
    Hit(l, a, hits) ==> if a < dot then a <= r < dot else 0 < r < dot || r >= a
  }

  /** The search forward has come to line `at` and has not met a match; `round` if past the last line. */
  lemma {:induction false} SearchedForward(l: seq<int>, dot: nat, at: nat, hits: set<int>, n: nat, round: bool)
    requires dot <= |l| && at <= |l|
    requires !round ==> dot <= at && n == |l| + 1 - (at - dot) && Misses(l, hits, dot + 1, at)
    requires round ==> at <= dot && n == dot - at && Misses(l, hits, dot + 1, |l|) && Misses(l, hits, 1, at)
    ensures forall a: nat :: NearestForward(l, dot, hits, Searched(l, at, true, hits, n), a)
    decreases n
  {
    var b := Next(at, |l|, true);
    if n == 0 || Hit(l, b, hits) {
      var r := Searched(l, at, true, hits, n);
      forall a: nat ensures NearestForward(l, dot, hits, r, a) {
        assert MissAt(l, hits, dot + 1, if round then |l| else at, a) && (round ==> MissAt(l, hits, 1, at, a));
      }
    } else if at == |l| {
      assert Misses(l, hits, 1, 0) by {
        forall a: nat ensures MissAt(l, hits, 1, 0, a) {
        }
      }
      SearchedForward(l, dot, b, hits, n - 1, true);
    } else {
      MissesMore(l, hits, if round then 1 else dot + 1, at, if round then 1 else dot + 1, b, b);
      SearchedForward(l, dot, b, hits, n - 1, round);
    }
  }

  /** The same backward; `round` if past the first line. */
  lemma {:induction false} SearchedBackward(l: seq<int>, dot: nat, at: nat, hits: set<int>, n: nat, round: bool)
    requires dot <= |l| && at <= |l|
    requires !round ==> at <= dot && n == at + 1 + (|l| - dot) && Misses(l, hits, at, dot - 1)
    requires round ==> dot <= at && n == at - dot && Misses(l, hits, 1, dot - 1) && Misses(l, hits, at, |l|)
    ensures forall a: nat :: NearestBackward(l, dot, hits, Searched(l, at, false, hits, n), a)
    decreases n
  {
    var b := Next(at, |l|, false);
    if n == 0 || Hit(l, b, hits) {
      var r := Searched(l, at, false, hits, n);
      forall a: nat ensures NearestBackward(l, dot, hits, r, a) {
        assert MissAt(l, hits, if round then 1 else at, dot - 1, a) && (round ==> MissAt(l, hits, at, |l|, a));
      }
    } else if at == 0 {
      assert Misses(l, hits, |l|, |l|) by {
        forall a: nat ensures MissAt(l, hits, |l|, |l|, a) {
        }
      }
      MissesMore(l, hits, 0, dot - 1, 1, dot - 1, b);
      SearchedBackward(l, dot, b, hits, n - 1, true);
    } else {
      MissesMore(l, hits, at, if round then |l| else dot - 1, b, if round then |l| else dot - 1, b);
      SearchedBackward(l, dot, b, hits, n - 1, round);
    }
  }

  lemma NoneYet(l: seq<int>, hits: set<int>, lo: int, hi: int)
    requires hi < lo
    ensures Misses(l, hits, lo, hi)
  {
    forall a: nat ensures MissAt(l, hits, lo, hi, a) {
    }
  }

  /** A search leads to the nearest matching line, down or up from the current one and round the buffer; it
      fails exactly if no line matches. */
  lemma SearchNearest(t: Text, forward: bool, hits: set<int>, off: int)
    requires t.dot <= |t.lines| && off == 0
    ensures var r := AddrAt(t, Search(forward, hits, off));
            && (r < 0 <==> forall a: nat :: MissAt(t.lines, hits, 1, |t.lines|, a))
            && (r >= 0 ==> Hit(t.lines, r, hits))
            && forall a: nat ::
                 if forward then NearestForward(t.lines, t.dot, hits, r, a) else NearestBackward(t.lines, t.dot, hits, r, a)
  {
    var l := t.lines;
    var dot: int := t.dot;
    NoneYet(l, hits, dot + 1, dot);
    NoneYet(l, hits, dot, dot - 1);
    if forward {
      SearchedForward(l, dot, dot, hits, |l| + 1, false);
    } else {
      SearchedBackward(l, dot, dot, hits, |l| + 1, false);
    }
    var r := AddrAt(t, Search(forward, hits, off));
    if r < 0 {
      forall a: nat ensures MissAt(l, hits, 1, |l|, a) {
        assert if forward then NearestForward(l, dot, hits, r, a) else NearestBackward(l, dot, hits, r, a);
      }
    } else {
      assert !MissAt(l, hits, 1, |l|, r);
    }
  }

  // ---------------------------------------------------------------- what a command does to the lines

  /** Word `i` of the new ones is the one of the `i`-th line put away. */
  ghost predicate FreshAt(t: Text, w: seq<int>, i: nat)
  {
    i < |w| ==> w[i] == t.tline + 2 * i
  }

  ghost predicate Fresh(t: Text, w: seq<int>)
  {
    forall i: nat :: FreshAt(t, w, i)
  }

  /** `n` new lines stand for lines `a + 1` to `b`, all others as they were. */
  ghost predicate Stands(t: Text, l: seq<int>, a: nat, b: nat, n: nat)
  {
    && a <= b <= |t.lines| && |l| == |t.lines| - (b - a) + n && l[..a] == t.lines[..a] && l[a + n..] == t.lines[b..]
    && Fresh(t, l[a..a + n])
  }

  lemma {:induction false} FreshWords(t: Text, w: int, n: nat)
    requires w == t.tline
    ensures Fresh(t, NewWords(w, n))
  {
    if n > 0 {
      FreshWords(t, w, n - 1);
      forall i: nat ensures FreshAt(t, NewWords(w, n), i) {
        assert FreshAt(t, NewWords(w, n - 1), i);
      }
    } else {
      forall i: nat ensures FreshAt(t, NewWords(w, n), i) {
      }
    }
  }

  lemma Inserted(t: Text, u: Text, a: nat, b: nat, n: nat)
    requires a <= b <= |t.lines| && u.tline == t.tline && u.lines == t.lines[..a] + t.lines[b..]
    ensures Stands(t, AppendOn(u, a, n).lines, a, b, n) && AppendOn(u, a, n).dot == a + n
  {
    var w := NewWords(t.tline, n);
    FreshWords(t, t.tline, n);
    var l := AppendOn(u, a, n).lines;
    assert u.lines[..a] == t.lines[..a] && u.lines[a..] == t.lines[b..];
    assert l[a..a + n] == w;
  }

  /** The last of the `n` lines in place of lines `a + 1` to `b` is the current line; if there are none,
      line `a`. */
  ghost predicate Replaces(t: Text, r: Ran, a: nat, b: nat, n: nat)
  {
    r.ok && Stands(t, r.t.lines, a, b, n) && r.t.dot == a + n
  }

  /** `a`, `r` and `i` bring lines in behind line `a2` and before it. */
  lemma NewLines(t: Text, c: Cmd, a1: nat, a2: nat)
    requires t.dot <= |t.lines| && 1 <= a1 <= a2 <= |t.lines|
    ensures c.Append? || c.ReadIn? ==> Replaces(t, Applied(t, c, a1, a2), a2, a2, c.n)
    ensures c.Insert? ==> Replaces(t, Applied(t, c, a1, a2), a2 - 1, a2 - 1, c.n)
  {
    if c.Append? || c.ReadIn? {
      InsertedAt(t, a2, c.n);
    } else if c.Insert? {
      InsertedAt(t, a2 - 1, c.n);
    }
  }

  /** `t` brings copies in behind its target, `c` lines in place of others, `j` one line for all. */
  lemma LinesReplaced(t: Text, c: Cmd, a1: nat, a2: nat)
    requires t.dot <= |t.lines| && 1 <= a1 <= a2 <= |t.lines|
    ensures c.Change? ==> Replaces(t, Applied(t, c, a1, a2), a1 - 1, a2, c.n)
    ensures c.Join? && Applied(t, c, a1, a2).ok ==> Replaces(t, Applied(t, c, a1, a2), a1 - 1, a2, 1)
    ensures c.Copy? && Target(t, c.to) >= 0 ==>
              Replaces(t, Applied(t, c, a1, a2), Target(t, c.to), Target(t, c.to), a2 + 1 - a1)
  {
    if c.Change? {
      Inserted(t, DeleteOn(t, a1, a2), a1 - 1, a2, c.n);
    } else if c.Join? && Applied(t, c, a1, a2).ok {
      JoinedOne(t, c, a1, a2);
    } else if c.Copy? && Target(t, c.to) >= 0 {
      InsertedAt(t, Target(t, c.to), a2 + 1 - a1);
    }
  }

  lemma InsertedAt(t: Text, a: nat, n: nat)
    requires a <= |t.lines|
    ensures Replaces(t, Ran(true, AppendOn(t, a, n)), a, a, n)
  {
    assert t.lines[..a] + t.lines[a..] == t.lines;
    Inserted(t, t, a, a, n);
  }

  lemma JoinedOne(t: Text, c: Cmd, a1: nat, a2: nat)
    requires t.dot <= |t.lines| && 1 <= a1 <= a2 <= |t.lines| && c.Join? && Applied(t, c, a1, a2).ok
    ensures Replaces(t, Applied(t, c, a1, a2), a1 - 1, a2, 1)
  {
    var r := Applied(t, c, a1, a2).t;
    var w := [t.tline];
    assert r.lines[a1 - 1..a1] == w;
    forall i: nat ensures FreshAt(t, w, i) {
    }
  }

  /** `d` leaves the line behind those it takes current, or the last one. */
  lemma DeletedLines(t: Text, c: Cmd, a1: nat, a2: nat)
    requires t.dot <= |t.lines| && 1 <= a1 <= a2 <= |t.lines| && c.Delete?
    ensures var r := Applied(t, c, a1, a2);
            && r.ok && Stands(t, r.t.lines, a1 - 1, a2, 0)
            && if a2 < |t.lines| then r.t.dot > 0 && r.t.lines[r.t.dot - 1] == t.lines[a2] else r.t.dot == |r.t.lines|
  {
  }

  ghost predicate ClearedAt(l: seq<int>, m: seq<int>, a: nat, p: nat, n: nat, i: nat)
  {
    i < n && a + i < |l| && p + i < |m| ==> m[p + i] == Clear(l[a + i])
  }

  /** With the block `a` to `b` taken out of `l`, and the `b - a` lines from `p` on taken out of `m`, the rest is
      the same, and so are the blocks but for marks. */
  ghost predicate Moved(l: seq<int>, m: seq<int>, a: nat, b: nat, p: nat)
  {
    var n := b - a;
    && a <= b <= |l| == |m| && p + n <= |m| && m[..p] + m[p + n..] == l[..a] + l[b..]
    && forall i: nat :: ClearedAt(l, m, a, p, n, i)
  }

  /** `m`: the block stands behind its target, its last line is current, and the other lines are in order. */
  lemma MovedLines(t: Text, c: Cmd, a1: nat, a2: nat, adt: nat, p: nat)
    requires t.dot <= |t.lines| && 1 <= a1 <= a2 <= |t.lines| && c.Move? && adt == Target(t, c.to)
    requires if adt < a1 then p == adt else a2 < adt && p == adt - (a2 + 1 - a1)
    ensures var r := Applied(t, c, a1, a2);
            r.ok && Moved(t.lines, r.t.lines, a1 - 1, a2, p) && r.t.dot == p + (a2 + 1 - a1)
  {
    MoveApplied(t, c, a1, a2, adt);
    BlockMoved(t.lines, a1 - 1, a2, adt, p);
  }

  lemma MoveApplied(t: Text, c: Cmd, a1: nat, a2: nat, adt: nat)
    requires t.dot <= |t.lines| && 1 <= a1 <= a2 <= |t.lines| && c.Move? && adt == Target(t, c.to)
    ensures Applied(t, c, a1, a2) == MoveOn(t, a1, a2, adt)
  {
  }

  lemma BlockMoved(l: seq<int>, a: nat, b: nat, adt: nat, p: nat)
    requires a <= b <= |l| && if adt <= a then p == adt else b <= adt <= |l| && p == adt - (b - a)
    ensures Moved(l, Shifted(Cleared(l, a, b), a, b, adt), a, b, p)
  {
    var k := Cleared(l, a, b);
    if adt <= a {
      ShiftedUp(k, a, b, adt);
    } else {
      ShiftedDown(k, a, b, adt);
    }
    AsMoved(l, k, Shifted(k, a, b, adt), a, b, p);
  }

  lemma AsMoved(l: seq<int>, k: seq<int>, m: seq<int>, a: nat, b: nat, p: nat)
    requires a <= b <= |l| == |m| && p + (b - a) <= |m| && k == Cleared(l, a, b)
    requires m[..p] + m[p + (b - a)..] == k[..a] + k[b..] && m[p..p + (b - a)] == k[a..b]
    ensures Moved(l, m, a, b, p)
  {
    var n := b - a;
    assert k[..a] == l[..a] && k[b..] == l[b..];
    forall i: nat ensures ClearedAt(l, m, a, p, n, i) {
      if i < n {
        SliceAt(m, p, p + n, i);
        SliceAt(k, a, b, i);
      }
    }
  }

  lemma SliceAt(s: seq<int>, a: nat, b: nat, i: nat)
    requires a <= b <= |s| && i < b - a
    ensures s[a..b][i] == s[a + i]
  {
  }

  lemma ShiftedUp(l: seq<int>, a: nat, b: nat, adt: nat)
    requires adt <= a <= b <= |l|
    ensures var m, n := Shifted(l, a, b, adt), b - a;
            && m[..adt] + m[adt + n..] == l[..a] + l[b..] && m[..adt] == l[..adt] && m[adt..adt + n] == l[a..b]
  {
    var m, n := Shifted(l, a, b, adt), b - a;
    assert l[..adt] + l[adt..a] == l[..a];
    assert m[adt + n..] == l[adt..a] + l[b..];
  }

  lemma ShiftedDown(l: seq<int>, a: nat, b: nat, adt: nat)
    requires a <= b <= adt <= |l|
    ensures var m, n, p := Shifted(l, a, b, adt), b - a, adt - (b - a);
            && m[..p] + m[p + n..] == l[..a] + l[b..] && m[..p] == l[..a] + l[b..adt] && m[p..p + n] == l[a..b]
  {
    var m, n, p := Shifted(l, a, b, adt), b - a, adt - (b - a);
    assert m[p + n..] == l[adt..];
    assert l[b..adt] + l[adt..] == l[b..];
  }

  /** What follows `r`: a substitution in the `m` lines that were line `a` and on when there were `size` lines. */
  function SubstThen(r: Ran, size: nat, a: nat, m: nat, splits: map<int, nat>, long: set<int>): Ran
    requires 1 <= a && a + m <= size + 1 && size <= |r.t.lines|
  {
    if r.ok then SubstOn(r.t, a + (|r.t.lines| - size), m, splits, long) else r
  }

  lemma SubstFirst(t: Text, a: nat, n: nat, splits: map<int, nat>, long: set<int>)
    requires 1 <= a && a + n <= |t.lines| + 1 && n > 0
    ensures var w := Clear(t.lines[a - 1]);
            SubstOn(t, a, n, splits, long)
            == if w in long then Ran(false, t)
               else if w !in splits then SubstOn(t, a + 1, n - 1, splits, long)
               else SubstOn(SubstLineOn(t, a, splits[w]), a + splits[w] + 1, n - 1, splits, long)
  {
  }

  ghost predicate InTwo(t: Text, a: nat, n: nat, m: nat, splits: map<int, nat>, long: set<int>)
    requires 1 <= a && a + n + m <= |t.lines| + 1
  {
    var r := SubstOn(t, a, n, splits, long);
    |r.t.lines| >= |t.lines| && SubstOn(t, a, n + m, splits, long) == SubstThen(r, |t.lines|, a + n, m, splits, long)
  }

  /** The first line done, `u` is the text and line `b` the next. */
  lemma InTwoFrom(t: Text, u: Text, a: nat, b: nat, n: nat, m: nat, splits: map<int, nat>, long: set<int>)
    requires 1 <= a && a + n + m <= |t.lines| + 1 && n > 0 && a < b && b - a - 1 == |u.lines| - |t.lines|
    requires InTwo(u, b, n - 1, m, splits, long)
    requires SubstOn(t, a, n, splits, long) == SubstOn(u, b, n - 1, splits, long)
    requires SubstOn(t, a, n + m, splits, long) == SubstOn(u, b, n - 1 + m, splits, long)
    ensures InTwo(t, a, n, m, splits, long)
  {
  }

  /** A substitution over two stretches is one over the first, and one over the second where that has come to
      lie; the lines it brings in are not tried. */
  lemma {:induction false} SubstInTwo(t: Text, a: nat, n: nat, m: nat, splits: map<int, nat>, long: set<int>)
    requires 1 <= a && a + n + m <= |t.lines| + 1
    ensures InTwo(t, a, n, m, splits, long)
    decreases n
  {
    if n == 0 || Clear(t.lines[a - 1]) in long {
      InTwoAtOnce(t, a, n, m, splits, long);
    } else {
      var w := Clear(t.lines[a - 1]);
      SubstFirst(t, a, n, splits, long);
      SubstFirst(t, a, n + m, splits, long);
      if w in splits {
        var u, b := SubstLineOn(t, a, splits[w]), a + splits[w] + 1;
        SubstInTwo(u, b, n - 1, m, splits, long);
        InTwoFrom(t, u, a, b, n, m, splits, long);
      } else {
        SubstInTwo(t, a + 1, n - 1, m, splits, long);
        InTwoFrom(t, t, a, a + 1, n, m, splits, long);
      }
    }
  }

  /** With nothing in the first stretch, or an error at once. */
  lemma InTwoAtOnce(t: Text, a: nat, n: nat, m: nat, splits: map<int, nat>, long: set<int>)
    requires 1 <= a && a + n + m <= |t.lines| + 1 && (n > 0 ==> Clear(t.lines[a - 1]) in long)
    ensures InTwo(t, a, n, m, splits, long)
  {
  }

  /** In one line: an error, nothing, or a new line and those behind its line breaks, the last of them current. */
  lemma SubstInOne(t: Text, a: nat, n: nat, splits: map<int, nat>, long: set<int>)
    requires 1 <= a <= |t.lines| && n == 1
    ensures var r, w := SubstOn(t, a, n, splits, long), Clear(t.lines[a - 1]);
            && (r.ok <==> w !in long)
            && (w in long || w !in splits ==> r.t == t)
            && (w !in long && w in splits ==>
                  Replaces(t, r, a - 1, a, splits[w] + 1) && r.t.subnewa == r.t.lines[a - 1] && r.t.subolda == w)
  {
    if Clear(t.lines[a - 1]) !in long && Clear(t.lines[a - 1]) in splits {
      var nl := splits[Clear(t.lines[a - 1])];
      var u := SubstLineOn(t, a, nl);
      assert SubstOn(u, a + nl + 1, 0, splits, long) == Ran(true, u);
      var more := NewWords(t.tline + 2, nl);
      var t2 := t.(tline := t.tline + 2);
      FreshWords(t2, t2.tline, nl);
      var w := [t.tline] + more;
      assert u.lines[a - 1..a + nl] == w;
      forall i: nat ensures FreshAt(t, w, i) {
        assert i > 0 ==> FreshAt(t2, more, i - 1);
      }
      assert u.lines[a + nl..] == t.lines[a..];
    }
  }

  /** Without addresses `r` goes to the end, `j` takes the next line too, and the others the current line. */
  lemma WithoutAddress(t: Text, c: Cmd)
    requires t.dot <= |t.lines|
    ensures c.Delete? && t.dot > 0 ==> Applied(t, c, -1, -1) == Applied(t, c, t.dot, t.dot)
    ensures c.Join? && 0 < t.dot < |t.lines| ==> Applied(t, c, -1, -1) == Applied(t, c, t.dot, t.dot + 1)
    ensures c.ReadIn? ==> Replaces(t, Applied(t, c, -1, -1), |t.lines|, |t.lines|, c.n)
    ensures c.Append? ==> Replaces(t, Applied(t, c, -1, -1), t.dot, t.dot, c.n)
  {
    var l := t.lines;
    assert l[..t.dot] + l[t.dot..] == l && l[..|l|] + l[|l|..] == l;
    if c.ReadIn? {
      Inserted(t, t, |l|, |l|, c.n);
    } else if c.Append? {
      Inserted(t, t, t.dot, t.dot, c.n);
    }
  }

  /** `p` leaves its last line current, `u` the line it gives back; neither moves a line. */
  lemma PrintedAndUndone(t: Text, c: Cmd, a1: nat, a2: nat)
    requires t.dot <= |t.lines| && 1 <= a1 <= a2 <= |t.lines| && (c.Print? || c.Undo?)
    ensures var r := Applied(t, c, a1, a2);
            && (c.Print? ==> r.ok && r.t.lines == t.lines)
            && (c.Undo? ==> (r.ok <==> Clear(t.lines[a2 - 1]) == t.subnewa))
            && (!r.ok ==> r.t == t) && (r.ok ==> r.t.dot == a2 && |r.t.lines| == |t.lines|)
            && (c.Undo? && r.ok ==> r.t.lines[a2 - 1] == t.subolda)
            && (r.ok ==> forall i | 0 <= i < |t.lines| && i != a2 - 1 :: r.t.lines[i] == t.lines[i])
  {
  }

  // ---------------------------------------------------------------- global commands

  /** Line `i + 1` is marked if it is addressed and its text matches, or for `v` does not, and names the same text. */
  ghost predicate MarkAt(l: seq<int>, r: seq<int>, a1: int, a2: int, hits: set<int>, k: bool, i: nat)
  {
    i < |l| && i < |r| ==>
      Clear(r[i]) == Clear(l[i]) && (Marked(r[i]) <==> a1 <= i + 1 <= a2 && (if k then Clear(l[i]) in hits else Clear(l[i]) !in hits))
  }

  lemma {:induction false} MarksAre(l: seq<int>, a1: int, a2: int, hits: set<int>, k: bool)
    ensures forall i: nat :: MarkAt(l, MarksOn(l, a1, a2, hits, k), a1, a2, hits, k, i)
  {
    var r := MarksOn(l, a1, a2, hits, k);
    if l == [] {
      forall i: nat ensures MarkAt(l, r, a1, a2, hits, k, i) {
      }
    } else {
      var n, shorter := |l| - 1, l[..|l| - 1];
      var m := MarksOn(shorter, a1, a2, hits, k);
      MarksAre(shorter, a1, a2, hits, k);
      forall i: nat ensures MarkAt(l, r, a1, a2, hits, k, i) {
        assert MarkAt(shorter, m, a1, a2, hits, k, i);
        if i < n {
          assert r[i] == m[i] && l[i] == shorter[i];
        }
      }
    }
  }

  /** Without addresses a global command is for all lines, and an error if there are none. */
  lemma GlobalForAll(t: Text, hits: set<int>, k: bool, cmds: seq<Cmd>, all: Spec)
    requires TextOk(t) && all == Spec([Sep(Abs(1), false)], AnAddr(End(0)))
    ensures t.lines != [] ==> GlobalCommandOn(t, NOWHERE, hits, k, cmds) == GlobalCommandOn(t, all, hits, k, cmds)
    ensures t.lines == [] ==> !GlobalCommandOn(t, NOWHERE, hits, k, cmds).ok
  {
    assert Resolved(t, NOWHERE) == Read(true, t, -1, -1);
    if t.lines != [] {
      assert all.seps[1..] == [] && AddrAt(t, Abs(1)) == 1;
      assert Walked(t, all.seps, -1) == Walked(t, [], 1) == Read(true, t, 1, 1);
      assert Resolved(t, all) == Read(true, t, 1, |t.lines|);
    }
  }
}
