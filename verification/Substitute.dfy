/** Substitution in bin/ed.c: `substitute`, `dosub`, `place`, and the matcher `execute` and
    `advance`, for patterns without groups and back-references. */
module Substitute {
  import opened GrepMatch

  const LBSIZE: nat := 512
  const AMPERSAND: nat := 38

  /** `locs` when it is the null pointer. */
  const NOWHERE: int := -1

  /** No item opens, closes or names a group. */
  ghost predicate PlainItem(items: seq<Item>, i: nat)
  {
    i < |items| ==>
      match items[i]
      case One(x) => SingleOk(x)
      case Many(x) => SingleOk(x)
      case Dol => true
      case _ => false
  }

  ghost predicate Plain(items: seq<Item>)
  {
    forall i: nat :: PlainItem(items, i)
  }

  // ---------------------------------------------------------------- what a pattern means

  /** A repeated item may match from `p` up to `q`: but not so as to end where the text behind the
      last substitution begins. */
  ghost predicate MayRepeat(t: seq<nat>, x: Single, p: nat, q: nat, locs: int)
  {
    q != locs && AllFit(t, x, p, q)
  }

  /** For some numbers of repetitions, items `i` and on match from `p` up to `e`. */
  ghost predicate CanEnd(items: seq<Item>, t: seq<nat>, i: nat, p: nat, locs: int, e: nat)
    requires i <= |items|
    decreases |items| - i
  {
    if i == |items| then p == e <= |t|
    else
      match items[i]
      case One(x) => p < |t| && Fits(x, t[p]) && CanEnd(items, t, i + 1, p + 1, locs, e)
      case Many(x) => exists q: nat :: MayRepeat(t, x, p, q, locs) && CanEnd(items, t, i + 1, q, locs, e)
      case Dol => p == |t| && CanEnd(items, t, i + 1, p, locs, e)
      case _ => false
  }

  ghost predicate CannotEnd(items: seq<Item>, t: seq<nat>, i: nat, p: nat, locs: int, e: nat)
  {
    i <= |items| ==> !CanEnd(items, t, i, p, locs, e)
  }

  /** Items `i` and on match nothing from `p` on. */
  ghost predicate NoEnd(items: seq<Item>, t: seq<nat>, i: nat, p: nat, locs: int)
  {
    forall e: nat :: CannotEnd(items, t, i, p, locs, e)
  }

  /** Item `i` repeated up to `q`: no more repetitions let the items behind it match. */
  ghost predicate Longest(items: seq<Item>, t: seq<nat>, i: nat, x: Single, p: nat, q: nat, locs: int)
  {
    MayRepeat(t, x, p, q, locs) && forall r: nat :: LongerFails(items, t, i, x, p, q, locs, r)
  }

  ghost predicate LongerFails(items: seq<Item>, t: seq<nat>, i: nat, x: Single, p: nat, q: nat, locs: int, r: nat)
  {
    q < r && MayRepeat(t, x, p, r, locs) ==> NoEnd(items, t, i + 1, r, locs)
  }

  /** Items `i` and on match from `p` up to `e` with each repeated item, from left to right, as long
      as it can be. */
  ghost predicate Ends(items: seq<Item>, t: seq<nat>, i: nat, p: nat, locs: int, e: nat)
    requires i <= |items|
    decreases |items| - i
  {
    if i == |items| then p == e <= |t|
    else
      match items[i]
      case One(x) => p < |t| && Fits(x, t[p]) && Ends(items, t, i + 1, p + 1, locs, e)
      case Many(x) => exists q: nat :: Longest(items, t, i, x, p, q, locs) && Ends(items, t, i + 1, q, locs, e)
      case Dol => p == |t| && Ends(items, t, i + 1, p, locs, e)
      case _ => false
  }

  /** That is one of the ways to match. */
  lemma {:induction false} EndsCan(items: seq<Item>, t: seq<nat>, i: nat, p: nat, locs: int, e: nat)
    requires i <= |items| && Ends(items, t, i, p, locs, e)
    ensures CanEnd(items, t, i, p, locs, e)
    decreases |items| - i
  {
    if i < |items| {
      match items[i]
      case One(x) => EndsCan(items, t, i + 1, p + 1, locs, e);
      case Many(x) =>
        var q: nat :| Longest(items, t, i, x, p, q, locs) && Ends(items, t, i + 1, q, locs, e);
        EndsCan(items, t, i + 1, q, locs, e);
        assert MayRepeat(t, x, p, q, locs);
      case Dol => EndsCan(items, t, i + 1, p, locs, e);
      case _ =>
    }
  }

  /** And there is one such way only. */
  lemma {:induction false} EndsOnce(items: seq<Item>, t: seq<nat>, i: nat, p: nat, locs: int, e: nat, f: nat)
    requires i <= |items| && Ends(items, t, i, p, locs, e) && Ends(items, t, i, p, locs, f)
    ensures e == f
    decreases |items| - i
  {
    if i < |items| {
      match items[i]
      case One(x) => EndsOnce(items, t, i + 1, p + 1, locs, e, f);
      case Many(x) =>
        var q: nat :| Longest(items, t, i, x, p, q, locs) && Ends(items, t, i + 1, q, locs, e);
        var r: nat :| Longest(items, t, i, x, p, r, locs) && Ends(items, t, i + 1, r, locs, f);
        EndsCan(items, t, i + 1, q, locs, e);
        EndsCan(items, t, i + 1, r, locs, f);
        assert LongerFails(items, t, i, x, p, q, locs, r) && LongerFails(items, t, i, x, p, r, locs, q);
        assert !(q < r && CannotEnd(items, t, i + 1, r, locs, f)) && !(r < q && CannotEnd(items, t, i + 1, q, locs, e));
        EndsOnce(items, t, i + 1, q, locs, e, f);
      case Dol => EndsOnce(items, t, i + 1, p, locs, e, f);
      case _ =>
    }
  }

  lemma {:induction false} EndsInText(items: seq<Item>, t: seq<nat>, i: nat, p: nat, locs: int, e: nat)
    requires i <= |items| && CanEnd(items, t, i, p, locs, e)
    ensures p <= e <= |t|
    decreases |items| - i
  {
    if i < |items| {
      match items[i]
      case One(x) => EndsInText(items, t, i + 1, p + 1, locs, e);
      case Many(x) =>
        var q: nat :| MayRepeat(t, x, p, q, locs) && CanEnd(items, t, i + 1, q, locs, e);
        EndsInText(items, t, i + 1, q, locs, e);
      case Dol => EndsInText(items, t, i + 1, p, locs, e);
      case _ =>
    }
  }

  /** A match at or behind `locs`, of at least one item, ends behind `locs`. */
  lemma {:induction false} EndsBeyond(items: seq<Item>, t: seq<nat>, i: nat, p: nat, locs: nat, e: nat)
    requires i < |items| && locs <= p && locs < |t| && CanEnd(items, t, i, p, locs, e)
    ensures locs < e <= |t|
  {
    match items[i]
    case One(x) => EndsInText(items, t, i + 1, p + 1, locs, e);
    case Many(x) =>
      var q: nat :| MayRepeat(t, x, p, q, locs) && CanEnd(items, t, i + 1, q, locs, e);
      EndsInText(items, t, i + 1, q, locs, e);
    case Dol => EndsInText(items, t, i + 1, p, locs, e);
    case _ =>
  }

  /** Only the text from `k` on matters to a match there. */
  lemma {:induction false} EndsShifted(items: seq<Item>, t: seq<nat>, k: nat, i: nat, p: nat, locs: nat, e: nat)
    requires i <= |items| && k <= |t|
    ensures CanEnd(items, t[k..], i, p, locs, e) <==> CanEnd(items, t, i, k + p, k + locs, k + e)
    decreases |items| - i
  {
    if i < |items| {
      match items[i]
      case One(x) => EndsShifted(items, t, k, i + 1, p + 1, locs, e);
      case Many(x) =>
        if CanEnd(items, t[k..], i, p, locs, e) {
          var q: nat :| MayRepeat(t[k..], x, p, q, locs) && CanEnd(items, t[k..], i + 1, q, locs, e);
          RepeatShifted(t, k, x, p, q, locs);
          EndsShifted(items, t, k, i + 1, q, locs, e);
          assert MayRepeat(t, x, k + p, k + q, k + locs);
        }
        if CanEnd(items, t, i, k + p, k + locs, k + e) {
          var r: nat :| MayRepeat(t, x, k + p, r, k + locs) && CanEnd(items, t, i + 1, r, k + locs, k + e);
          RepeatShifted(t, k, x, p, r - k, locs);
          EndsShifted(items, t, k, i + 1, r - k, locs, e);
        }
      case Dol => EndsShifted(items, t, k, i + 1, p, locs, e);
      case _ =>
    }
  }

  lemma NoEndShifted(items: seq<Item>, t: seq<nat>, k: nat, i: nat, p: nat, locs: nat)
    requires i <= |items| && k <= |t|
    ensures NoEnd(items, t[k..], i, p, locs) <==> NoEnd(items, t, i, k + p, k + locs)
  {
    var q, m := k + p, k + locs;
    if NoEnd(items, t[k..], i, p, locs) {
      forall f: nat ensures CannotEnd(items, t, i, q, m, f) {
        if CanEnd(items, t, i, q, m, f) {
          EndsInText(items, t, i, q, m, f);
          var e: nat := f - k;
          assert CannotEnd(items, t[k..], i, p, locs, e);
          EndsShifted(items, t, k, i, p, locs, e);
        }
      }
    }
    if NoEnd(items, t, i, q, m) {
      forall e: nat ensures CannotEnd(items, t[k..], i, p, locs, e) {
        var f := k + e;
        EndsShifted(items, t, k, i, p, locs, e);
        assert CannotEnd(items, t, i, q, m, f);
      }
    }
  }

  lemma LongestShifted(items: seq<Item>, t: seq<nat>, k: nat, i: nat, x: Single, p: nat, q: nat, locs: nat)
    requires i < |items| && k <= |t| && Longest(items, t, i, x, k + p, k + q, k + locs)
    ensures Longest(items, t[k..], i, x, p, q, locs)
  {
    RepeatShifted(t, k, x, p, q, locs);
    var a, b, m := k + p, k + q, k + locs;
    forall r: nat ensures LongerFails(items, t[k..], i, x, p, q, locs, r) {
      var c := k + r;
      RepeatShifted(t, k, x, p, r, locs);
      NoEndShifted(items, t, k, i + 1, r, locs);
      assert LongerFails(items, t, i, x, a, b, m, c);
    }
  }

  /** The end of a match, too, depends only on the text from `k` on. */
  lemma {:induction false} SoEndsShifted(items: seq<Item>, t: seq<nat>, k: nat, i: nat, p: nat, locs: nat, e: nat)
    requires i <= |items| && k <= |t| && Ends(items, t, i, k + p, k + locs, k + e)
    ensures Ends(items, t[k..], i, p, locs, e)
    decreases |items| - i
  {
    if i < |items| {
      match items[i]
      case One(x) => SoEndsShifted(items, t, k, i + 1, p + 1, locs, e);
      case Many(x) =>
        var r: nat :| Longest(items, t, i, x, k + p, r, k + locs) && Ends(items, t, i + 1, r, k + locs, k + e);
        assert MayRepeat(t, x, k + p, r, k + locs);
        var q: nat := r - k;
        LongestShifted(items, t, k, i, x, p, q, locs);
        SoEndsShifted(items, t, k, i + 1, q, locs, e);
      case Dol => SoEndsShifted(items, t, k, i + 1, p, locs, e);
      case _ =>
    }
  }

  lemma RepeatShifted(t: seq<nat>, k: nat, x: Single, p: nat, q: nat, locs: nat)
    requires k <= |t|
    ensures MayRepeat(t[k..], x, p, q, locs) <==> MayRepeat(t, x, k + p, k + q, k + locs)
  {
    var u := t[k..];
    if AllFit(u, x, p, q) {
      var a, b := k + p, k + q;
      forall i: nat ensures FitsAt(t, x, a, b, i) {
        if a <= i < b {
          assert FitsAt(u, x, p, q, i - k);
        }
      }
    }
    if AllFit(t, x, k + p, k + q) {
      forall i: nat ensures FitsAt(u, x, p, q, i) {
        var j := k + i;
        assert FitsAt(t, x, k + p, k + q, j);
      }
    }
  }

  // ---------------------------------------------------------------- replacing

  /** The replacement for a match: `&` stands for it, a character behind `\` for itself. */
  function Expand(rhs: seq<nat>, m: seq<nat>): seq<nat>
  {
    if rhs == [] then [] else Expand(rhs[..|rhs| - 1], m) + Piece(rhs[|rhs| - 1], m)
  }

  function Piece(c: nat, m: seq<nat>): seq<nat>
  {
    if c == AMPERSAND then m else [c % 128]
  }

  /** An `&` that is not quoted is the match. */
  lemma ExpandAnd(m: seq<nat>)
    ensures Expand([AMPERSAND], m) == m
  {
    assert [AMPERSAND][..0] == [];
    assert Expand([AMPERSAND], m) == Expand([], m) + m;
  }

  /** A text without one stands for itself, its quote bits off. */
  lemma {:induction false} ExpandPlain(rhs: seq<nat>, m: seq<nat>)
    requires AMPERSAND !in rhs
    ensures |Expand(rhs, m)| == |rhs| && forall i | 0 <= i < |rhs| :: Expand(rhs, m)[i] == rhs[i] % 128
  {
    if rhs != [] {
      ExpandPlain(rhs[..|rhs| - 1], m);
    }
  }

  /** Parts of a replacement are put out one behind the other. */
  lemma {:induction false} ExpandParts(a: seq<nat>, b: seq<nat>, m: seq<nat>)
    ensures Expand(a + b, m) == Expand(a, m) + Expand(b, m)
  {
    if b == [] {
      assert a + b == a;
    } else {
      var b', last := b[..|b| - 1], Piece(b[|b| - 1], m);
      ExpandParts(a, b', m);
      assert (a + b)[..|a + b| - 1] == a + b';
      Associate(Expand(a, m), Expand(b', m), last);
    }
  }

  /** The replacement `&` puts back what was there. */
  lemma {:induction false} AmpersandReplaced(items: seq<Item>, rhs: seq<nat>, u: seq<nat>, r: seq<nat>)
    requires rhs == [AMPERSAND] && Replaced(items, rhs, u, r)
    ensures r == u
    decreases |u|
  {
    if !(r == u && (u == [] || NoneFrom(items, u, 0, |u| + 1, 0))) {
      var a: nat, e: nat :| ReplacedBy(items, rhs, u, r, a, e);
      ExpandAnd(u[a..e]);
      CutTwice(u, a, e);
      AmpersandReplaced(items, rhs, u[e..], r[e..]);
      PrefixAndRest(r, u, e);
    }
  }

  lemma CutTwice(t: seq<nat>, a: nat, e: nat)
    requires a <= e <= |t|
    ensures t[..a] + t[a..e] == t[..e] && t[..e] + t[e..] == t
  {
  }

  lemma PrefixAndRest(r: seq<nat>, u: seq<nat>, e: nat)
    requires e <= |u| && u[..e] <= r && r[e..] == u[e..]
    ensures r == u
  {
    assert r == u[..e] + r[e..];
  }

  lemma AmpersandBecomes(items: seq<Item>, circfl: bool, rhs: seq<nat>, t: seq<nat>, t': seq<nat>, gsubf: bool)
    requires rhs == [AMPERSAND] && Becomes(items, circfl, rhs, t, t', gsubf)
    ensures t' == t
  {
    var a: nat, e: nat, r: seq<nat> :| Substituted(items, circfl, rhs, t, t', gsubf, a, e, r);
    ExpandAnd(t[a..e]);
    CutTwice(t, a, e);
    if gsubf && !circfl {
      AmpersandReplaced(items, rhs, t[e..], r);
    }
  }

  lemma {:induction false} AmpersandFitsFrom(items: seq<Item>, rhs: seq<nat>, n: nat, u: seq<nat>)
    requires rhs == [AMPERSAND] && n + |u| < LBSIZE
    ensures !TooLong(items, rhs, n, u)
    decreases |u|, 1
  {
    forall a: nat, e: nat | NextMatch(items, u, a, e) ensures !TooLongFrom(items, rhs, n, u, a, e) {
      AmpersandFitsNext(items, rhs, n, u, a, e);
    }
  }

  lemma {:induction false} AmpersandFitsNext(items: seq<Item>, rhs: seq<nat>, n: nat, u: seq<nat>, a: nat, e: nat)
    requires rhs == [AMPERSAND] && n + |u| < LBSIZE && NextMatch(items, u, a, e)
    ensures !TooLongFrom(items, rhs, n, u, a, e)
    decreases |u|, 0
  {
    var rest, m := u[e..], n + e;
    ExpandAnd(u[a..e]);
    assert |u[a..e]| == e - a && |rest| == |u| - e;
    AmpersandFitsFrom(items, rhs, m, rest);
  }

  /** So no line gets too long by it. */
  lemma AmpersandFits(items: seq<Item>, circfl: bool, rhs: seq<nat>, t: seq<nat>, gsubf: bool)
    requires rhs == [AMPERSAND] && |t| < LBSIZE
    ensures !GetsTooLong(items, circfl, rhs, t, gsubf)
  {
    forall a: nat, e: nat ensures !Overruns(items, circfl, rhs, t, gsubf, a, e) {
      if a <= e <= |t| {
        ExpandAnd(t[a..e]);
        AmpersandFitsFrom(items, rhs, e, t[e..]);
      }
    }
  }

  /** The first place where the pattern matches, and an end of the match there. */
  ghost predicate MatchAt(items: seq<Item>, t: seq<nat>, from: nat, locs: int, a: nat, e: nat)
  {
    from <= a <= e <= |t| && Ends(items, t, 0, a, locs, e) && NoneFrom(items, t, from, a, locs)
  }

  lemma NoEndEnds(items: seq<Item>, t: seq<nat>, i: nat, p: nat, locs: int, e: nat)
    requires i <= |items| && NoEnd(items, t, i, p, locs)
    ensures !Ends(items, t, i, p, locs, e)
  {
    assert CannotEnd(items, t, i, p, locs, e);
    if Ends(items, t, i, p, locs, e) {
      EndsCan(items, t, i, p, locs, e);
    }
  }

  lemma NoneEnds(items: seq<Item>, t: seq<nat>, from: nat, to: nat, locs: int, a: nat, e: nat)
    requires NoneFrom(items, t, from, to, locs) && from <= a < to
    ensures !Ends(items, t, 0, a, locs, e)
  {
    assert NoMatchAt(items, t, from, to, locs, a);
    NoEndEnds(items, t, 0, a, locs, e);
  }

  /** There is one first match at most. */
  lemma MatchOnce(items: seq<Item>, t: seq<nat>, from: nat, locs: int, a: nat, e: nat, b: nat, f: nat)
    requires MatchAt(items, t, from, locs, a, e) && MatchAt(items, t, from, locs, b, f)
    ensures a == b && e == f
  {
    if a < b {
      NoneEnds(items, t, from, b, locs, a, e);
    } else if b < a {
      NoneEnds(items, t, from, a, locs, b, f);
    }
    EndsOnce(items, t, 0, a, locs, e, f);
  }

  ghost predicate NoMatchAt(items: seq<Item>, t: seq<nat>, from: nat, to: nat, locs: int, p: nat)
  {
    from <= p < to ==> NoEnd(items, t, 0, p, locs)
  }

  ghost predicate NoneFrom(items: seq<Item>, t: seq<nat>, from: nat, to: nat, locs: int)
  {
    forall p: nat :: NoMatchAt(items, t, from, to, locs, p)
  }
  // ---------------------------------------------------------------- steps of the matcher

  /** Items `j` and on from `q` end where items `i` and on from `p` do. */
  ghost predicate SameEnd(items: seq<Item>, t: seq<nat>, i: nat, p: nat, j: nat, q: nat, locs: int, e: nat)
  {
    i <= |items| && j <= |items| ==>
      && (CanEnd(items, t, i, p, locs, e) <==> CanEnd(items, t, j, q, locs, e))
      && (Ends(items, t, i, p, locs, e) <==> Ends(items, t, j, q, locs, e))
  }

  ghost predicate SameEnds(items: seq<Item>, t: seq<nat>, i: nat, p: nat, j: nat, q: nat, locs: int)
  {
    forall e: nat :: SameEnd(items, t, i, p, j, q, locs, e)
  }

  lemma SameEndsStep(items: seq<Item>, t: seq<nat>, i: nat, p: nat, j: nat, q: nat, j': nat, q': nat, locs: int)
    requires SameEnds(items, t, i, p, j, q, locs) && SameEnds(items, t, j, q, j', q', locs)
    requires i <= |items| && j <= |items| && j' <= |items|
    ensures SameEnds(items, t, i, p, j', q', locs)
  {
    forall e: nat ensures SameEnd(items, t, i, p, j', q', locs, e) {
      assert SameEnd(items, t, i, p, j, q, locs, e) && SameEnd(items, t, j, q, j', q', locs, e);
    }
  }

  lemma NoEndBack(items: seq<Item>, t: seq<nat>, i: nat, p: nat, j: nat, q: nat, locs: int)
    requires SameEnds(items, t, i, p, j, q, locs) && NoEnd(items, t, j, q, locs)
    requires i <= |items| && j <= |items|
    ensures NoEnd(items, t, i, p, locs)
  {
    forall e: nat ensures CannotEnd(items, t, i, p, locs, e) {
      assert SameEnd(items, t, i, p, j, q, locs, e) && CannotEnd(items, t, j, q, locs, e);
    }
  }

  /** One plain item, or the end of the line: the match goes on one item further, or not at all. */
  lemma ItemStep(items: seq<Item>, t: seq<nat>, i: nat, p: nat, locs: int)
    requires i < |items| && p <= |t| && (items[i].One? || items[i].Dol?)
    ensures var fits := if items[i].One? then p < |t| && Fits(items[i].x, t[p]) else p == |t|;
            if fits then SameEnds(items, t, i, p, i + 1, if items[i].One? then p + 1 else p, locs)
            else NoEnd(items, t, i, p, locs)
  {
    var j, q := i + 1, if items[i].One? then p + 1 else p;
    if (if items[i].One? then p < |t| && Fits(items[i].x, t[p]) else p == |t|) {
      forall e: nat ensures SameEnd(items, t, i, p, j, q, locs, e) {
      }
    } else {
      forall e: nat ensures CannotEnd(items, t, i, p, locs, e) {
      }
    }
  }

  lemma RepeatIn(t: seq<nat>, x: Single, p: nat, m: nat, q: nat)
    requires RunEnd(t, x, p, m)
    ensures AllFit(t, x, p, q) <==> p <= q <= m
  {
    if p <= q <= m {
      forall i: nat ensures FitsAt(t, x, p, q, i) {
        assert FitsAt(t, x, p, m, i);
      }
    }
    if q > m && q <= |t| {
      assert !FitsAt(t, x, p, q, m) || m < p;
    }
  }

  ghost predicate RefusedAt(items: seq<Item>, t: seq<nat>, j: nat, lo: nat, hi: nat, locs: int, q: nat)
  {
    lo <= q <= hi && q != locs ==> NoEnd(items, t, j, q, locs)
  }

  ghost predicate RefusedFrom(items: seq<Item>, t: seq<nat>, j: nat, lo: nat, hi: nat, locs: int)
  {
    forall q: nat :: RefusedAt(items, t, j, lo, hi, locs, q)
  }

  lemma TriedMore(items: seq<Item>, t: seq<nat>, j: nat, lo: nat, lo': nat, hi: nat, locs: int)
    requires RefusedFrom(items, t, j, lo', hi, locs) && lo' == lo + 1 && (lo != locs ==> NoEnd(items, t, j, lo, locs))
    ensures RefusedFrom(items, t, j, lo, hi, locs)
  {
    forall q: nat ensures RefusedAt(items, t, j, lo, hi, locs, q) {
      assert RefusedAt(items, t, j, lo', hi, locs, q);
    }
  }

  lemma IsLongest(items: seq<Item>, t: seq<nat>, i: nat, x: Single, p: nat, m: nat, j: nat, q: nat, q': nat, locs: int)
    requires RunEnd(t, x, p, m) && p <= q <= m && q != locs && q' == q + 1 && j == i + 1
    requires RefusedFrom(items, t, j, q', m, locs)
    ensures Longest(items, t, i, x, p, q, locs)
  {
    RepeatIn(t, x, p, m, q);
    forall r: nat ensures LongerFails(items, t, i, x, p, q, locs, r) {
      RepeatIn(t, x, p, m, r);
      assert RefusedAt(items, t, j, q', m, locs, r);
    }
  }

  lemma AllRepeatsTried(items: seq<Item>, t: seq<nat>, i: nat, j: nat, p: nat, m: nat, locs: int)
    requires i < |items| && j == i + 1 && items[i].Many? && RunEnd(t, items[i].x, p, m)
    requires RefusedFrom(items, t, j, p, m, locs)
    ensures NoEnd(items, t, i, p, locs)
  {
    forall e: nat ensures CannotEnd(items, t, i, p, locs, e) {
      forall q: nat ensures !(MayRepeat(t, items[i].x, p, q, locs) && CanEnd(items, t, j, q, locs, e)) {
        RepeatIn(t, items[i].x, p, m, q);
        assert RefusedAt(items, t, j, p, m, locs, q);
        assert NoEnd(items, t, j, q, locs) ==> CannotEnd(items, t, j, q, locs, e);
      }
    }
  }

  class Substituter {
    const expbuf: seq<Item>
    const circfl: bool
    const rhsbuf: seq<nat>
    var linebuf: seq<nat>
    var genbuf: seq<nat>
    var loc1: nat
    var loc2: nat
    var locs: int

    ghost function Text(): seq<nat>
      reads `linebuf
    {
      if linebuf == [] then [] else linebuf[..|linebuf| - 1]
    }

    /** The line fits its buffer, and ends with its NUL. */
    ghost predicate Valid()
      reads `linebuf
    {
      && Plain(expbuf) && linebuf != [] && |linebuf| <= LBSIZE && linebuf[|linebuf| - 1] == NUL && TextOk(Text())
      && forall i :: 0 <= i < |rhsbuf| ==> 0 < rhsbuf[i] % 128
    }

    constructor (expbuf: seq<Item>, circfl: bool, rhsbuf: seq<nat>, t: seq<nat>)
      requires Plain(expbuf) && TextOk(t) && |t| < LBSIZE
      requires forall i :: 0 <= i < |rhsbuf| ==> 0 < rhsbuf[i] % 128
      ensures Valid() && Text() == t && this.expbuf == expbuf && this.circfl == circfl && this.rhsbuf == rhsbuf
    {
      this.expbuf, this.circfl, this.rhsbuf := expbuf, circfl, rhsbuf;
      linebuf := t + [NUL];
      genbuf, loc1, loc2, locs := [], 0, 0, NOWHERE;
    }

    /** The loops over `*lp++` before the label `star`. */
    method Scan(x: Single, curlp: nat) returns (lp: nat)
      requires Valid() && SingleOk(x) && curlp <= |Text()|
      ensures RunEnd(Text(), x, curlp, lp)
    {
      ghost var t := Text();
      lp := curlp;
      while Fits(x, linebuf[lp])
        invariant curlp <= lp <= |t| && AllFit(t, x, curlp, lp)
        decreases |t| - lp
      {
        ghost var next := lp + 1;
        forall i: nat ensures FitsAt(t, x, curlp, next, i) {
          assert FitsAt(t, x, curlp, lp, i);
        }
        lp := lp + 1;
      }
    }

    /** The loop behind the label `star`. */
    method Star(curlp: nat, m: nat, ep: nat) returns (r: bool)
      requires Valid() && 0 < ep <= |expbuf| && expbuf[ep - 1].Many? && locs <= curlp
      requires RunEnd(Text(), expbuf[ep - 1].x, curlp, m)
      modifies `loc2
      ensures r ==> Ends(expbuf, Text(), ep - 1, curlp, locs, loc2)
      ensures !r ==> NoEnd(expbuf, Text(), ep - 1, curlp, locs)
      decreases |expbuf| - ep, 1
    {
      ghost var t := Text();
      var lp := m + 1;
      while lp > curlp
        invariant curlp <= lp <= m + 1 && RefusedFrom(expbuf, t, ep, lp, m, locs)
        decreases lp
      {
        lp := lp - 1;
        if lp != locs {
          r := Advance(lp, ep);
          if r {
            IsLongest(expbuf, t, ep - 1, expbuf[ep - 1].x, curlp, m, ep, lp, lp + 1, locs);
            return;
          }
        }
        TriedMore(expbuf, t, ep, lp, lp + 1, m, locs);
        if lp == locs {
          break;
        }
      }
      AllRepeatsTried(expbuf, t, ep - 1, ep, curlp, m, locs);
      return false;
    }

    /** `advance`: a match of items `ep0` and on from `lp0`, its end in `loc2`. */
    method Advance(lp0: nat, ep0: nat) returns (r: bool)
      requires Valid() && ep0 <= |expbuf| && lp0 <= |Text()| && locs <= lp0
      modifies `loc2
      ensures r ==> Ends(expbuf, Text(), ep0, lp0, locs, loc2)
      ensures !r ==> NoEnd(expbuf, Text(), ep0, lp0, locs)
      decreases |expbuf| - ep0, 0
    {
      ghost var t := Text();
      var lp, ep := lp0, ep0;
      forall e: nat ensures SameEnd(expbuf, t, ep0, lp0, ep, lp, locs, e) {
      }
      while ep < |expbuf|
        invariant ep0 <= ep <= |expbuf| && lp0 <= lp <= |t|
        invariant SameEnds(expbuf, t, ep0, lp0, ep, lp, locs)
        decreases |expbuf| - ep
        modifies `loc2
      {
        assert PlainItem(expbuf, ep) && CharAt(t, lp);
        assert lp < |t| ==> linebuf[lp] == t[lp];
        if expbuf[ep].Many? {
          var m := Scan(expbuf[ep].x, lp);
          r := Star(lp, m, ep + 1);
          if r {
            assert SameEnd(expbuf, t, ep0, lp0, ep, lp, locs, loc2);
          } else {
            NoEndBack(expbuf, t, ep0, lp0, ep, lp, locs);
          }
          return;
        }
        ItemStep(expbuf, t, ep, lp, locs);
        var c := linebuf[lp];
        if expbuf[ep].One? {
          if !Fits(expbuf[ep].x, c) {
            NoEndBack(expbuf, t, ep0, lp0, ep, lp, locs);
            return false;
          }
          SameEndsStep(expbuf, t, ep0, lp0, ep, lp, ep + 1, lp + 1, locs);
          lp := lp + 1;
        } else {
          if c != NUL {
            NoEndBack(expbuf, t, ep0, lp0, ep, lp, locs);
            return false;
          }
          SameEndsStep(expbuf, t, ep0, lp0, ep, lp, ep + 1, lp, locs);
        }
        ep := ep + 1;
      }
      loc2 := lp;
      assert SameEnd(expbuf, t, ep0, lp0, ep, lp, locs, loc2);
      return true;
    }

    /** `execute`: the first match, in the whole line or (`gf`) behind the last substitution. */
    method Execute(gf: bool) returns (found: bool)
      requires Valid() && (gf ==> genbuf == linebuf && loc2 <= |Text()|)
      modifies `linebuf, `loc1, `loc2, `locs
      ensures Valid() && Text() == old(Text()) && linebuf == old(linebuf)
      ensures gf && circfl ==> !found && loc2 == old(loc2)
      ensures !gf && circfl ==> if found then loc1 == 0 && Ends(expbuf, Text(), 0, 0, NOWHERE, loc2)
                                else NoEnd(expbuf, Text(), 0, 0, NOWHERE)
      ensures !circfl ==>
                var from, avoid := if gf then old(loc2) else 0, if gf then old(loc2) else NOWHERE;
                if found then MatchAt(expbuf, Text(), from, avoid, loc1, loc2)
                else NoneFrom(expbuf, Text(), from, |Text()| + 1, avoid)
    {
      var p1 := 0;
      ghost var loc20 := loc2;
      if gf {
        if circfl {
          return false;
        }
        linebuf := genbuf;
        p1 := loc2;
        locs := loc2;
      } else {
        locs := NOWHERE;
      }
      if circfl {
        loc1 := p1;
        found := Advance(p1, 0);
        return;
      }
      found := SearchFrom(p1);
    }

    /** The loops of `execute`: places where a first plain character does not stand are passed over. */
    method SearchFrom(from: nat) returns (found: bool)
      requires Valid() && from <= |Text()| && locs <= from
      modifies `loc1, `loc2
      ensures if found then MatchAt(expbuf, Text(), from, locs, loc1, loc2)
              else NoneFrom(expbuf, Text(), from, |Text()| + 1, locs)
    {
      ghost var t := Text();
      var p1 := from;
      while p1 < |linebuf|
        invariant from <= p1 <= |linebuf| && NoneFrom(expbuf, t, from, p1, locs)
        decreases |linebuf| - p1
        modifies `loc1, `loc2
      {
        assert p1 < |t| ==> linebuf[p1] == t[p1];
        if expbuf != [] && expbuf[0].One? && expbuf[0].x.Chr? && linebuf[p1] != expbuf[0].x.c {
          assert CharAt(t, p1) && PlainItem(expbuf, 0);
          ItemStep(expbuf, t, 0, p1, locs);
        } else {
          found := Advance(p1, 0);
          if found {
            EndsCan(expbuf, t, 0, p1, locs, loc2);
            EndsInText(expbuf, t, 0, p1, locs, loc2);
            loc1 := p1;
            return;
          }
        }
        NoneMore(expbuf, t, from, p1, p1 + 1, locs);
        p1 := p1 + 1;
      }
      return false;
    }

    /** `place`. */
    method Place(l1: nat, l2: nat) returns (ok: bool)
      requires Valid() && l1 <= l2 <= |Text()|
      modifies `genbuf
      ensures ok ==> genbuf == old(genbuf) + Text()[l1..l2] && (l1 < l2 ==> |genbuf| < LBSIZE)
      ensures !ok ==> |old(genbuf)| + (l2 - l1) >= LBSIZE
    {
      ghost var t := Text();
      var l := l1;
      while l < l2
        invariant l1 <= l <= l2 && genbuf == old(genbuf) + t[l1..l] && (l1 < l ==> |genbuf| < LBSIZE)
      {
        genbuf := genbuf + [linebuf[l]];
        l := l + 1;
        assert t[l1..l] == t[l1..l - 1] + [t[l - 1]];
        if |genbuf| >= LBSIZE {
          return false;
        }
      }
      return true;
    }

    /** One character of the replacement. */
    method PutOne(c: nat) returns (ok: bool)
      requires Valid() && loc1 <= loc2 <= |Text()| && |genbuf| < LBSIZE
      modifies `genbuf
      ensures ok ==> genbuf == old(genbuf) + Piece(c, Text()[loc1..loc2]) && |genbuf| < LBSIZE
      ensures !ok ==> |old(genbuf)| + |Piece(c, Text()[loc1..loc2])| >= LBSIZE
    {
      if c == AMPERSAND {
        ok := Place(loc1, loc2);
      } else {
        genbuf := genbuf + [c % 128];
        ok := |genbuf| < LBSIZE;
      }
    }

    /** The middle of `dosub`: the replacement is spelt out. */
    method PutRhs() returns (ok: bool)
      requires Valid() && loc1 <= loc2 <= |Text()| && |genbuf| < LBSIZE
      modifies `genbuf
      ensures ok ==> genbuf == old(genbuf) + Expand(rhsbuf, Text()[loc1..loc2]) && |genbuf| < LBSIZE
      ensures !ok ==> |old(genbuf)| + |Expand(rhsbuf, Text()[loc1..loc2])| >= LBSIZE
    {
      ghost var m, gen := Text()[loc1..loc2], genbuf;
      var rp := 0;
      NothingSpelt(gen, rhsbuf, m);
      while rp < |rhsbuf|
        invariant rp <= |rhsbuf| && Spelt(gen, rhsbuf, rp, m, genbuf) && |genbuf| < LBSIZE
      {
        SpeltMore(gen, rhsbuf, rp, m, genbuf);
        ok := PutOne(rhsbuf[rp]);
        if !ok {
          return;
        }
        rp := rp + 1;
      }
      AllSpelt(gen, rhsbuf, rp, m, genbuf);
      return true;
    }

    /** The first loop of `dosub`: the line up to the match. */
    method CopyFront()
      requires Valid() && loc1 <= |Text()|
      modifies `genbuf
      ensures genbuf == Text()[..loc1]
    {
      ghost var t := Text();
      genbuf := [];
      var lp := 0;
      while lp < loc1
        invariant lp <= loc1 && genbuf == t[..lp]
      {
        genbuf := genbuf + [linebuf[lp]];
        lp := lp + 1;
      }
    }

    /** The last loop of `dosub`: the finished line goes back. */
    method CopyBack(ghost a: seq<nat>, ghost x: seq<nat>, ghost b: seq<nat>)
      requires Valid() && genbuf == a + x + b && |genbuf| < LBSIZE && TextOk(a) && TextOk(x) && TextOk(b)
      modifies `linebuf, `genbuf
      ensures Valid() && Text() == a + x + b && genbuf == linebuf
    {
      JoinedText(a, x, b);
      genbuf := genbuf + [NUL];
      linebuf := genbuf;
      assert Text() == a + x + b;
    }

    /** `dosub`: the match is replaced, and `loc2` is behind the replacement. */
    method DoSub() returns (ok: bool)
      requires Valid() && loc1 <= loc2 <= |Text()|
      modifies `linebuf, `genbuf, `loc2
      ensures Valid()
      ensures var t := old(Text());
              var x := Expand(rhsbuf, t[loc1..old(loc2)]);
              && ok == (loc1 + |x| + (|t| - old(loc2)) < LBSIZE)
              && (ok ==> Text() == t[..loc1] + x + t[old(loc2)..] && loc2 == loc1 + |x| && genbuf == linebuf)
    {
      ghost var t := Text();
      ghost var x := Expand(rhsbuf, t[loc1..loc2]);
      CopyFront();
      ok := PutRhs();
      if !ok {
        return;
      }
      var lp, behind := loc2, |genbuf|;
      ok := Place(lp, |linebuf| - 1);
      if !ok {
        return;
      }
      assert t[lp..|t|] == t[lp..];
      loc2 := behind;
      ExpandText(rhsbuf, t, loc1, lp);
      CopyBack(t[..loc1], x, t[lp..]);
    }

    /** `substitute` on one line: the first match replaced or, with `gsubf`, every match; nothing
        happens to a line that does not match, and a line that gets too long is an error. */
    method SubstituteLine(gsubf: bool) returns (matched: bool, ok: bool)
      requires Valid() && (circfl || expbuf != [])
      modifies this
      ensures ok ==> Valid()
      ensures !matched ==> ok && Text() == old(Text()) && Missed(expbuf, circfl, old(Text()))
      ensures matched && ok ==> Becomes(expbuf, circfl, rhsbuf, old(Text()), Text(), gsubf)
      ensures ok <==> !GetsTooLong(expbuf, circfl, rhsbuf, old(Text()), gsubf)
      ensures rhsbuf == [AMPERSAND] ==> ok && Text() == old(Text())
    {
      matched, ok := SubstituteMatches(gsubf);
      if rhsbuf == [AMPERSAND] {
        AmpersandFits(expbuf, circfl, rhsbuf, old(Text()), gsubf);
        if matched {
          AmpersandBecomes(expbuf, circfl, rhsbuf, old(Text()), Text(), gsubf);
        }
      }
    }

    /** The first match, and the others behind it. */
    method SubstituteMatches(gsubf: bool) returns (matched: bool, ok: bool)
      requires Valid() && (circfl || expbuf != [])
      modifies this
      ensures ok ==> Valid()
      ensures !matched ==> ok && Text() == old(Text()) && Missed(expbuf, circfl, old(Text()))
      ensures matched && ok ==> Becomes(expbuf, circfl, rhsbuf, old(Text()), Text(), gsubf)
      ensures ok <==> !GetsTooLong(expbuf, circfl, rhsbuf, old(Text()), gsubf)
    {
      ghost var t := Text();
      ghost var a, e;
      matched, ok, a, e := SubstituteFirst();
      if !matched {
        MissedFits(expbuf, circfl, rhsbuf, t, gsubf);
        return;
      }
      ghost var front, late := FirstSettles(expbuf, circfl, rhsbuf, t, gsubf, a, e);
      if !ok {
        return;
      }
      ok := FinishLine(gsubf, t, a, e, front, late);
    }

    /** `substitute` behind its first replacement. */
    method FinishLine(gsubf: bool, ghost t: seq<nat>, ghost a: nat, ghost e: nat, ghost front: seq<nat>, ghost late: bool)
        returns (ok: bool)
      requires Valid() && (circfl || expbuf != []) && genbuf == linebuf && a <= e <= |t|
      requires front == t[..a] + Expand(rhsbuf, t[a..e]) && FirstMatch(expbuf, circfl, t, a, e)
      requires |front| == loc2 <= |Text()| && Text()[..loc2] == front && Text()[loc2..] == t[e..]
      requires Fate(expbuf, rhsbuf, |front|, t[e..], late)
      modifies this
      ensures ok <==> !(gsubf && !circfl && late)
      ensures ok ==> Valid() && Becomes(expbuf, circfl, rhsbuf, t, Text(), gsubf)
    {
      ok := SubstituteMore(gsubf, front, late);
      if ok {
        ghost var r := Text()[|front|..];
        WholeLine(Text(), front);
        assert Substituted(expbuf, circfl, rhsbuf, t, Text(), gsubf, a, e, r);
      }
    }

    /** The first match of a line, replaced. */
    method SubstituteFirst() returns (matched: bool, ok: bool, ghost a: nat, ghost e: nat)
      requires Valid()
      modifies this
      ensures ok ==> Valid()
      ensures !matched ==> ok && Text() == old(Text()) && Missed(expbuf, circfl, old(Text()))
      ensures matched ==>
                var t := old(Text());
                && a <= e <= |t| && FirstMatch(expbuf, circfl, t, a, e)
                && (ok <==> a + |Expand(rhsbuf, t[a..e])| + (|t| - e) < LBSIZE)
      ensures matched && ok ==>
                var t := old(Text());
                && var front := t[..a] + Expand(rhsbuf, t[a..e]);
                   && genbuf == linebuf && |front| == loc2 <= |Text()| && Text()[..loc2] == front && Text()[loc2..] == t[e..]
    {
      ghost var t := Text();
      ok, a, e := true, 0, 0;
      matched := Execute(false);
      if !matched {
        return;
      }
      a, e := loc1, loc2;
      if circfl {
        EndsCan(expbuf, t, 0, 0, NOWHERE, e);
        EndsInText(expbuf, t, 0, 0, NOWHERE, e);
      }
      ok := DoSub();
      if ok {
        FrontAndRest(Text(), t[..a] + Expand(rhsbuf, t[a..e]), t[e..], loc2);
      }
    }

    /** What follows the first match: more of them, if asked for. */
    method SubstituteMore(gsubf: bool, ghost front: seq<nat>, ghost late: bool) returns (ok: bool)
      requires Valid() && (circfl || expbuf != []) && genbuf == linebuf
      requires |front| == loc2 <= |Text()| && Text()[..loc2] == front
      requires Fate(expbuf, rhsbuf, loc2, Text()[loc2..], late)
      modifies this
      ensures ok ==> Valid() && |front| <= |Text()| && Text()[..|front|] == front
      ensures ok && gsubf && !circfl ==> Replaced(expbuf, rhsbuf, old(Text())[|front|..], Text()[|front|..])
      ensures ok && !(gsubf && !circfl) ==> Text() == old(Text())
      ensures ok <==> !(gsubf && !circfl && late)
    {
      ok := true;
      if gsubf && !circfl {
        ok := SubstituteRest(front, late);
      } else if gsubf {
        CaretOnce();
      }
    }

    /** The loop of `substitute` when the pattern is tied to the start of the line: it ends at once. */
    method CaretOnce()
      requires Valid() && circfl && genbuf == linebuf && loc2 <= |Text()|
      modifies `linebuf, `loc1, `loc2, `locs
      ensures Valid() && Text() == old(Text())
    {
      if linebuf[loc2] != NUL {
        var found := Execute(true);
      }
    }

    /** One pass of the loop: the next match is replaced, and less text is left behind `loc2`. */
    method SubstituteNext(ghost front: seq<nat>, ghost mid: seq<nat>, ghost u: seq<nat>, ghost late: bool)
        returns (found: bool, ok: bool, ghost mid': seq<nat>)
      requires Valid() && !circfl && expbuf != [] && genbuf == linebuf && loc2 < |Text()|
      requires Halfway(expbuf, rhsbuf, Text(), loc2, front, mid, u)
      requires Fate(expbuf, rhsbuf, loc2, Text()[loc2..], late)
      modifies this
      ensures !found ==> ok && Valid() && Text() == old(Text()) && Replaced(expbuf, rhsbuf, u, Text()[|front|..])
      ensures if found then !ok ==> late else !late
      ensures found && ok ==>
                && Valid() && genbuf == linebuf && loc2 <= |Text()|
                && |Text()| - loc2 < |old(Text())| - old(loc2)
                && Halfway(expbuf, rhsbuf, Text(), loc2, front, mid', u)
                && Fate(expbuf, rhsbuf, loc2, Text()[loc2..], late)
    {
      ghost var t, k := Text(), loc2;
      ok, mid' := true, mid;
      found := Execute(true);
      if !found {
        NoneShifted(expbuf, t, k);
        NoMatchFate(expbuf, rhsbuf, k, t[k..], late);
        RestIsLeft(expbuf, rhsbuf, u, mid, t[k..]);
        DropFront(t, front, mid, k);
        return;
      }
      ok, mid' := TakeNext(k, front, mid, u, late);
    }

    /** The match found behind the first `k` characters is replaced, unless it is too much. */
    method TakeNext(ghost k: nat, ghost front: seq<nat>, ghost mid: seq<nat>, ghost u: seq<nat>, ghost late: bool)
        returns (ok: bool, ghost mid': seq<nat>)
      requires Valid() && expbuf != [] && k < |Text()| && MatchAt(expbuf, Text(), k, k, loc1, loc2)
      requires Halfway(expbuf, rhsbuf, Text(), k, front, mid, u)
      requires Fate(expbuf, rhsbuf, k, Text()[k..], late)
      modifies this
      ensures !ok ==> late
      ensures ok ==>
                && Valid() && genbuf == linebuf && loc2 <= |Text()| && |Text()| - loc2 < |old(Text())| - k
                && Halfway(expbuf, rhsbuf, Text(), loc2, front, mid', u)
                && Fate(expbuf, rhsbuf, loc2, Text()[loc2..], late)
    {
      ghost var w, m, rest := NextSettled(expbuf, rhsbuf, Text(), k, loc1, loc2, late);
      ok, mid' := ReplaceNext(k, w, m, rest, front, mid, u);
    }

    /** The next match, behind the first `k` characters, is replaced. */
    method ReplaceNext(ghost k: nat, ghost w: seq<nat>, ghost m: nat, ghost rest: seq<nat>,
                       ghost front: seq<nat>, ghost mid: seq<nat>, ghost u: seq<nat>)
        returns (ok: bool, ghost mid': seq<nat>)
      requires Valid() && k <= loc1 <= loc2 <= |Text()| && k < loc2 && w == Text()[k..]
      requires m == k + (loc1 - k) + |Expand(rhsbuf, w[loc1 - k..loc2 - k])| && rest == w[loc2 - k..]
      requires Halfway(expbuf, rhsbuf, Text(), k, front, mid, u)
      requires MatchAt(expbuf, w, 0, 0, loc1 - k, loc2 - k)
      modifies this
      ensures ok == (m + |rest| < LBSIZE)
      ensures ok ==> Valid() && genbuf == linebuf && loc2 == m <= |Text()| && Text()[loc2..] == rest
      ensures ok ==> |Text()| - loc2 == |old(Text())| - old(loc2) && Halfway(expbuf, rhsbuf, Text(), loc2, front, mid', u)
    {
      ghost var t, a, e := Text(), loc1, loc2;
      ghost var x := Expand(rhsbuf, t[a..e]);
      RestSliced(t, k, a, e);
      ok := DoSub();
      mid' := mid + t[k..a] + x;
      if ok {
        ReplacedOne(expbuf, rhsbuf, u, mid, t, k, a, e);
        SplitLine(t, front, mid, k, a, e, x);
      }
    }

    /** The loop of `substitute`: each pass leaves less text behind `loc2`, so it ends. */
    method SubstituteRest(ghost front: seq<nat>, ghost late: bool) returns (ok: bool)
      requires Valid() && !circfl && expbuf != [] && genbuf == linebuf
      requires |front| == loc2 <= |Text()| && Text()[..loc2] == front
      requires Fate(expbuf, rhsbuf, loc2, Text()[loc2..], late)
      modifies this
      ensures ok ==> Valid() && |front| <= |Text()| && Text()[..|front|] == front
      ensures ok ==> Replaced(expbuf, rhsbuf, old(Text())[|front|..], Text()[|front|..])
      ensures ok <==> !late
    {
      ghost var u, mid: seq<nat> := Text()[|front|..], [];
      ok := true;
      NothingBetween(expbuf, rhsbuf, u);
      assert front + mid == front;
      while linebuf[loc2] != NUL
        invariant Valid() && genbuf == linebuf && loc2 <= |Text()|
        invariant Halfway(expbuf, rhsbuf, Text(), loc2, front, mid, u)
        invariant ok && Fate(expbuf, rhsbuf, loc2, Text()[loc2..], late)
        decreases |Text()| - loc2
      {
        var found;
        found, ok, mid := SubstituteNext(front, mid, u, late);
        if !found || !ok {
          return;
        }
      }
      assert CharAt(Text(), loc2);
      RestIsLeft(expbuf, rhsbuf, u, mid, Text()[loc2..]);
      NoMatchFate(expbuf, rhsbuf, loc2, Text()[loc2..], late);
      DropFront(Text(), front, mid, loc2);
    }
  }

  /** The line is `front` and `mid` up to `k`, and what `u` becomes goes on from there. */
  ghost predicate Halfway(items: seq<Item>, rhs: seq<nat>, t: seq<nat>, k: nat, front: seq<nat>, mid: seq<nat>, u: seq<nat>)
  {
    k <= |t| && k == |front| + |mid| && t == front + mid + t[k..] && Continues(items, rhs, u, mid, t[k..])
  }

  lemma FrontAndRest(t: seq<nat>, front: seq<nat>, u: seq<nat>, k: nat)
    requires t == front + u && k == |front|
    ensures k <= |t| && t[..k] == front && t[k..] == u
  {
  }

  lemma WholeLine(t: seq<nat>, front: seq<nat>)
    requires |front| <= |t| && t[..|front|] == front
    ensures t == front + t[|front|..]
  {
  }

  lemma DropFront(t: seq<nat>, front: seq<nat>, mid: seq<nat>, k: nat)
    requires k <= |t| && k == |front| + |mid| && t == front + mid + t[k..]
    ensures t[|front|..] == mid + t[k..] && t[..|front|] == front
  {
  }

  /** In the text behind a substitution, `a` to `e` is the next match, and `r` is what becomes of it. */
  ghost predicate ReplacedBy(items: seq<Item>, rhs: seq<nat>, u: seq<nat>, r: seq<nat>, a: nat, e: nat)
    decreases |u|, 0
  {
    && u != [] && 0 < e && MatchAt(items, u, 0, 0, a, e)
    && var x := u[..a] + Expand(rhs, u[a..e]);
       x <= r && Replaced(items, rhs, u[e..], r[|x|..])
  }

  /** `r` is the text `u` behind a substitution with all further matches replaced. */
  ghost predicate Replaced(items: seq<Item>, rhs: seq<nat>, u: seq<nat>, r: seq<nat>)
    decreases |u|, 1
  {
    || (r == u && (u == [] || NoneFrom(items, u, 0, |u| + 1, 0)))
    || exists a: nat, e: nat :: ReplacedBy(items, rhs, u, r, a, e)
  }

  /** The match that a line is first substituted at. */
  ghost predicate FirstMatch(items: seq<Item>, circfl: bool, t: seq<nat>, a: nat, e: nat)
  {
    if circfl then a == 0 && Ends(items, t, 0, 0, NOWHERE, e) else MatchAt(items, t, 0, NOWHERE, a, e)
  }

  ghost predicate Missed(items: seq<Item>, circfl: bool, t: seq<nat>)
  {
    if circfl then NoEnd(items, t, 0, 0, NOWHERE) else NoneFrom(items, t, 0, |t| + 1, NOWHERE)
  }

  /** In the text `u` behind a substitution, `a` to `e` is the next match. */
  ghost predicate NextMatch(items: seq<Item>, u: seq<nat>, a: nat, e: nat)
  {
    u != [] && 0 < e && MatchAt(items, u, 0, 0, a, e)
  }

  /** Replacing one of the matches in the text `u` behind `n` characters makes the line too long. */
  ghost predicate TooLong(items: seq<Item>, rhs: seq<nat>, n: nat, u: seq<nat>)
    decreases |u|, 1
  {
    exists a: nat, e: nat :: NextMatch(items, u, a, e) && TooLongFrom(items, rhs, n, u, a, e)
  }

  /** So does replacing the next one, from `a` to `e`, or one of those behind it. */
  ghost predicate TooLongFrom(items: seq<Item>, rhs: seq<nat>, n: nat, u: seq<nat>, a: nat, e: nat)
    requires NextMatch(items, u, a, e)
    decreases |u|, 0
  {
    var m := n + a + |Expand(rhs, u[a..e])|;
    m + (|u| - e) >= LBSIZE || TooLong(items, rhs, m, u[e..])
  }

  /** No match, nothing too long. */
  lemma NoMatchFits(items: seq<Item>, rhs: seq<nat>, n: nat, u: seq<nat>)
    requires u == [] || NoneFrom(items, u, 0, |u| + 1, 0)
    ensures !TooLong(items, rhs, n, u)
  {
    forall a: nat, e: nat ensures !NextMatch(items, u, a, e) {
      if u != [] && MatchAt(items, u, 0, 0, a, e) {
        NoneEnds(items, u, 0, |u| + 1, 0, a, e);
      }
    }
  }

  /** Whether the line gets too long is settled by the next match and what follows it. */
  lemma NextMatchFits(items: seq<Item>, rhs: seq<nat>, n: nat, u: seq<nat>, a: nat, e: nat)
    requires NextMatch(items, u, a, e)
    ensures TooLong(items, rhs, n, u) <==> TooLongFrom(items, rhs, n, u, a, e)
  {
    forall b: nat, f: nat | NextMatch(items, u, b, f) ensures b == a && f == e {
      MatchOnce(items, u, 0, 0, a, e, b, f);
    }
  }

  ghost predicate SameSeq(v: seq<nat>, u: seq<nat>)
  {
    v == u
  }

  /** Whether the line gets too long from here on. */
  ghost predicate Fate(items: seq<Item>, rhs: seq<nat>, n: nat, u: seq<nat>, late: bool)
  {
    forall v: seq<nat> :: SameSeq(v, u) ==> TooLong(items, rhs, n, v) == late
  }

  /** Without a match, it does not. */
  lemma NoMatchFate(items: seq<Item>, rhs: seq<nat>, n: nat, u: seq<nat>, late: bool)
    requires Fate(items, rhs, n, u, late) && (u == [] || NoneFrom(items, u, 0, |u| + 1, 0))
    ensures !late
  {
    assert SameSeq(u, u);
    NoMatchFits(items, rhs, n, u);
  }

  /** The next match is too much, or leaves the rest to be. */
  lemma NextFate(items: seq<Item>, rhs: seq<nat>, n: nat, u: seq<nat>, a: nat, e: nat, late: bool)
    requires Fate(items, rhs, n, u, late) && NextMatch(items, u, a, e)
    ensures var m := n + a + |Expand(rhs, u[a..e])|;
            if m + (|u| - e) >= LBSIZE then late else Fate(items, rhs, m, u[e..], late)
  {
    assert SameSeq(u, u);
    NextMatchFits(items, rhs, n, u, a, e);
    assert |u[e..]| == |u| - e;
  }

  /** The same for the match from `a` to `e` of the whole line. */
  lemma NextSettled(items: seq<Item>, rhs: seq<nat>, t: seq<nat>, k: nat, a: nat, e: nat, late: bool)
      returns (w: seq<nat>, m: nat, rest: seq<nat>)
    requires items != [] && k < |t| && MatchAt(items, t, k, k, a, e) && Fate(items, rhs, k, t[k..], late)
    ensures k < e && k <= a && w == t[k..] && MatchAt(items, w, 0, 0, a - k, e - k)
    ensures m == k + (a - k) + |Expand(rhs, w[a - k..e - k])| && rest == w[e - k..]
    ensures if m + |rest| >= LBSIZE then late else Fate(items, rhs, m, rest, late)
  {
    EndsCan(items, t, 0, a, k, e);
    EndsBeyond(items, t, 0, a, k, e);
    MatchShifted(items, t, k, a, e);
    w := t[k..];
    m := k + (a - k) + |Expand(rhs, w[a - k..e - k])|;
    rest := w[e - k..];
    NextFate(items, rhs, k, w, a - k, e - k, late);
  }

  /** A line gets too long, at its first match or, with `gsubf`, at a later one. */
  ghost predicate Overruns(items: seq<Item>, circfl: bool, rhs: seq<nat>, t: seq<nat>, gsubf: bool, a: nat, e: nat)
  {
    && a <= e <= |t| && FirstMatch(items, circfl, t, a, e)
    && var m := a + |Expand(rhs, t[a..e])|;
       m + (|t| - e) >= LBSIZE || (gsubf && !circfl && TooLong(items, rhs, m, t[e..]))
  }

  ghost predicate GetsTooLong(items: seq<Item>, circfl: bool, rhs: seq<nat>, t: seq<nat>, gsubf: bool)
  {
    exists a: nat, e: nat :: Overruns(items, circfl, rhs, t, gsubf, a, e)
  }

  lemma MissedFits(items: seq<Item>, circfl: bool, rhs: seq<nat>, t: seq<nat>, gsubf: bool)
    requires Missed(items, circfl, t)
    ensures !GetsTooLong(items, circfl, rhs, t, gsubf)
  {
    forall a: nat, e: nat ensures !Overruns(items, circfl, rhs, t, gsubf, a, e) {
      if a <= e <= |t| && FirstMatch(items, circfl, t, a, e) {
        if circfl {
          NoEndEnds(items, t, 0, 0, NOWHERE, e);
        } else {
          NoneEnds(items, t, 0, |t| + 1, NOWHERE, a, e);
        }
      }
    }
  }

  /** The first match settles it, with what becomes of the rest. */
  lemma FirstSettles(items: seq<Item>, circfl: bool, rhs: seq<nat>, t: seq<nat>, gsubf: bool, a: nat, e: nat)
      returns (front: seq<nat>, late: bool)
    requires a <= e <= |t| && FirstMatch(items, circfl, t, a, e)
    ensures front == t[..a] + Expand(rhs, t[a..e]) && |front| == a + |Expand(rhs, t[a..e])|
    ensures Fate(items, rhs, |front|, t[e..], late)
    ensures GetsTooLong(items, circfl, rhs, t, gsubf) <==> |front| + (|t| - e) >= LBSIZE || (gsubf && !circfl && late)
  {
    front := t[..a] + Expand(rhs, t[a..e]);
    late := TooLong(items, rhs, |front|, t[e..]);
    forall b: nat, f: nat | Overruns(items, circfl, rhs, t, gsubf, b, f)
      ensures Overruns(items, circfl, rhs, t, gsubf, a, e)
    {
      FirstOnce(items, circfl, t, a, e, b, f);
    }
    if Overruns(items, circfl, rhs, t, gsubf, a, e) {
      assert GetsTooLong(items, circfl, rhs, t, gsubf);
    }
  }

  lemma FirstOnce(items: seq<Item>, circfl: bool, t: seq<nat>, a: nat, e: nat, b: nat, f: nat)
    requires FirstMatch(items, circfl, t, a, e) && FirstMatch(items, circfl, t, b, f)
    ensures a == b && e == f
  {
    if circfl {
      EndsOnce(items, t, 0, 0, NOWHERE, e, f);
    } else {
      MatchOnce(items, t, 0, NOWHERE, a, e, b, f);
    }
  }

  /** What a text behind a substitution becomes is settled. */
  lemma {:induction false} ReplacedOnce(items: seq<Item>, rhs: seq<nat>, u: seq<nat>, r: seq<nat>, s: seq<nat>)
    requires Replaced(items, rhs, u, r) && Replaced(items, rhs, u, s)
    ensures r == s
    decreases |u|
  {
    if u == [] || NoneFrom(items, u, 0, |u| + 1, 0) {
      NotReplaced(items, rhs, u, r);
      NotReplaced(items, rhs, u, s);
    } else {
      var a: nat, e: nat :| ReplacedBy(items, rhs, u, r, a, e);
      var b: nat, f: nat :| ReplacedBy(items, rhs, u, s, b, f);
      MatchOnce(items, u, 0, 0, a, e, b, f);
      var x := u[..a] + Expand(rhs, u[a..e]);
      ReplacedOnce(items, rhs, u[e..], r[|x|..], s[|x|..]);
      assert r == x + r[|x|..] && s == x + s[|x|..];
    }
  }

  lemma NotReplaced(items: seq<Item>, rhs: seq<nat>, u: seq<nat>, r: seq<nat>)
    requires Replaced(items, rhs, u, r) && (u == [] || NoneFrom(items, u, 0, |u| + 1, 0))
    ensures r == u
  {
    forall a: nat, e: nat ensures !ReplacedBy(items, rhs, u, r, a, e) {
      if u != [] && MatchAt(items, u, 0, 0, a, e) {
        NoneEnds(items, u, 0, |u| + 1, 0, a, e);
      }
    }
  }

  /** What `substitute` makes of a line is settled by the line, the pattern and the replacement. */
  lemma BecomesOnce(items: seq<Item>, circfl: bool, rhs: seq<nat>, t: seq<nat>, t1: seq<nat>, t2: seq<nat>, gsubf: bool)
    requires Becomes(items, circfl, rhs, t, t1, gsubf) && Becomes(items, circfl, rhs, t, t2, gsubf)
    ensures t1 == t2
  {
    var a: nat, e: nat, r: seq<nat> :| Substituted(items, circfl, rhs, t, t1, gsubf, a, e, r);
    var b: nat, f: nat, s: seq<nat> :| Substituted(items, circfl, rhs, t, t2, gsubf, b, f, s);
    FirstOnce(items, circfl, t, a, e, b, f);
    if gsubf && !circfl {
      ReplacedOnce(items, rhs, t[e..], r, s);
    }
  }

  /** The first match `a` to `e` of the line is replaced; behind it the rest is `r`. */
  ghost predicate Substituted(items: seq<Item>, circfl: bool, rhs: seq<nat>, t: seq<nat>, t': seq<nat>, gsubf: bool,
                              a: nat, e: nat, r: seq<nat>)
  {
    && a <= e <= |t| && t' == t[..a] + Expand(rhs, t[a..e]) + r
    && FirstMatch(items, circfl, t, a, e)
    && (if gsubf && !circfl then Replaced(items, rhs, t[e..], r) else r == t[e..])
  }

  /** The line `t` with its first match, or every match, replaced is `t'`. */
  ghost predicate Becomes(items: seq<Item>, circfl: bool, rhs: seq<nat>, t: seq<nat>, t': seq<nat>, gsubf: bool)
  {
    exists a: nat, e: nat, r: seq<nat> :: Substituted(items, circfl, rhs, t, t', gsubf, a, e, r)
  }

  /** Whatever the rest `w` becomes, `u` becomes `mid` and that. */
  ghost predicate ContinuesWith(items: seq<Item>, rhs: seq<nat>, u: seq<nat>, mid: seq<nat>, w: seq<nat>, r: seq<nat>)
  {
    Replaced(items, rhs, w, r) ==> Replaced(items, rhs, u, mid + r)
  }

  ghost predicate Continues(items: seq<Item>, rhs: seq<nat>, u: seq<nat>, mid: seq<nat>, w: seq<nat>)
  {
    forall r: seq<nat> :: ContinuesWith(items, rhs, u, mid, w, r)
  }

  lemma NothingBetween(items: seq<Item>, rhs: seq<nat>, u: seq<nat>)
    ensures Continues(items, rhs, u, [], u)
  {
    forall r: seq<nat> ensures ContinuesWith(items, rhs, u, [], u, r) {
      assert [] + r == r;
    }
  }

  lemma RestIsLeft(items: seq<Item>, rhs: seq<nat>, u: seq<nat>, mid: seq<nat>, w: seq<nat>)
    requires Continues(items, rhs, u, mid, w) && (w == [] || NoneFrom(items, w, 0, |w| + 1, 0))
    ensures Replaced(items, rhs, u, mid + w)
  {
    assert ContinuesWith(items, rhs, u, mid, w, w);
  }

  lemma MatchShifted(items: seq<Item>, t: seq<nat>, k: nat, a: nat, e: nat)
    requires k <= |t| && MatchAt(items, t, k, k, a, e)
    ensures MatchAt(items, t[k..], 0, 0, a - k, e - k)
  {
    SoEndsShifted(items, t, k, 0, a - k, 0, e - k);
    NoneShiftedTo(items, t, k, a);
  }

  lemma NoneShiftedTo(items: seq<Item>, t: seq<nat>, k: nat, to: nat)
    requires k <= |t| && k <= to && NoneFrom(items, t, k, to, k)
    ensures NoneFrom(items, t[k..], 0, to - k, 0)
  {
    var u, n := t[k..], to - k;
    forall p: nat ensures NoMatchAt(items, u, 0, n, 0, p) {
      if p < n {
        forall e: nat ensures CannotEnd(items, u, 0, p, 0, e) {
          var q, f := k + p, k + e;
          assert NoMatchAt(items, t, k, to, k, q) && CannotEnd(items, t, 0, q, k, f);
          EndsShifted(items, t, k, 0, p, 0, e);
        }
      }
    }
  }

  lemma NoneShifted(items: seq<Item>, t: seq<nat>, k: nat)
    requires k <= |t| && NoneFrom(items, t, k, |t| + 1, k)
    ensures NoneFrom(items, t[k..], 0, |t[k..]| + 1, 0)
  {
    NoneShiftedTo(items, t, k, |t| + 1);
  }

  lemma RestSliced(t: seq<nat>, k: nat, a: nat, e: nat)
    requires k <= a <= e <= |t|
    ensures t[k..][..a - k] == t[k..a]
    ensures t[k..][a - k..e - k] == t[a..e]
    ensures t[k..][e - k..] == t[e..]
  {
  }

  /** One more match is replaced, and the rest is behind it. */
  lemma ReplacedOne(items: seq<Item>, rhs: seq<nat>, u: seq<nat>, mid: seq<nat>, t: seq<nat>, k: nat, a: nat, e: nat)
    requires k <= a <= e <= |t| && k < e && Continues(items, rhs, u, mid, t[k..])
    requires MatchAt(items, t[k..], 0, 0, a - k, e - k)
    ensures Continues(items, rhs, u, mid + t[k..a] + Expand(rhs, t[a..e]), t[e..])
  {
    var w, w' := t[k..], t[e..];
    var x := t[k..a] + Expand(rhs, t[a..e]);
    var mid' := mid + t[k..a] + Expand(rhs, t[a..e]);
    RestSliced(t, k, a, e);
    forall r: seq<nat> ensures ContinuesWith(items, rhs, u, mid', w', r) {
      if Replaced(items, rhs, w', r) {
        assert (x + r)[|x|..] == r;
        assert ReplacedBy(items, rhs, w, x + r, a - k, e - k);
        assert ContinuesWith(items, rhs, u, mid, w, x + r);
        assert mid + (x + r) == mid' + r;
      }
    }
  }

  lemma SplitLine(t: seq<nat>, front: seq<nat>, mid: seq<nat>, k: nat, a: nat, e: nat, x: seq<nat>)
    requires k <= a <= e <= |t| && t == front + mid + t[k..] && k == |front| + |mid|
    ensures var t' := t[..a] + x + t[e..];
            && t'[a + |x|..] == t[e..] && a + |x| == |front| + |mid + t[k..a] + x|
            && t' == front + (mid + t[k..a] + x) + t'[a + |x|..]
  {
    assert t[..a] == front + mid + t[k..a];
  }

  lemma NoneMore(items: seq<Item>, t: seq<nat>, from: nat, p: nat, p': nat, locs: int)
    requires NoneFrom(items, t, from, p, locs) && NoEnd(items, t, 0, p, locs) && p' == p + 1
    ensures NoneFrom(items, t, from, p', locs)
  {
    forall q: nat ensures NoMatchAt(items, t, from, p', locs, q) {
      assert NoMatchAt(items, t, from, p, locs, q);
    }
  }

  lemma {:induction false} ExpandGrows(rhs: seq<nat>, n: nat, m: seq<nat>)
    requires n <= |rhs|
    ensures |Expand(rhs[..n], m)| <= |Expand(rhs, m)|
    decreases |rhs|
  {
    if n < |rhs| {
      var r := rhs[..|rhs| - 1];
      ExpandGrows(r, n, m);
      assert r[..n] == rhs[..n];
    } else {
      assert rhs[..n] == rhs;
    }
  }

  lemma ExpandStep(rhs: seq<nat>, n: nat, m: seq<nat>)
    requires n < |rhs|
    ensures Expand(rhs[..n + 1], m) == Expand(rhs[..n], m) + Piece(rhs[n], m)
    ensures |Expand(rhs[..n + 1], m)| <= |Expand(rhs, m)|
  {
    assert rhs[..n + 1][..n] == rhs[..n];
    ExpandGrows(rhs, n + 1, m);
  }

  /** The first `n` characters of the replacement are behind `gen`. */
  ghost predicate Spelt(gen: seq<nat>, rhs: seq<nat>, n: nat, m: seq<nat>, now: seq<nat>)
  {
    n <= |rhs| && now == gen + Expand(rhs[..n], m)
  }

  lemma NothingSpelt(gen: seq<nat>, rhs: seq<nat>, m: seq<nat>)
    ensures Spelt(gen, rhs, 0, m, gen)
  {
    assert rhs[..0] == [];
  }

  lemma SpeltMore(gen: seq<nat>, rhs: seq<nat>, n: nat, m: seq<nat>, now: seq<nat>)
    requires n < |rhs| && Spelt(gen, rhs, n, m, now)
    ensures Spelt(gen, rhs, n + 1, m, now + Piece(rhs[n], m))
    ensures |now| + |Piece(rhs[n], m)| <= |gen| + |Expand(rhs, m)|
  {
    ExpandStep(rhs, n, m);
    Associate(gen, Expand(rhs[..n], m), Piece(rhs[n], m));
  }

  lemma AllSpelt(gen: seq<nat>, rhs: seq<nat>, n: nat, m: seq<nat>, now: seq<nat>)
    requires n == |rhs| && Spelt(gen, rhs, n, m, now)
    ensures now == gen + Expand(rhs, m)
  {
    assert rhs[..n] == rhs;
  }

  lemma Associate(a: seq<nat>, b: seq<nat>, c: seq<nat>)
    ensures a + b + c == a + (b + c)
  {
  }

  /** Parts of a line make a line. */
  lemma PartText(t: seq<nat>, a: nat, b: nat)
    requires TextOk(t) && a <= b <= |t|
    ensures TextOk(t[a..b])
  {
    forall i: nat ensures CharAt(t[a..b], i) {
      assert CharAt(t, a + i);
    }
  }

  lemma AddText(s: seq<nat>, t: seq<nat>)
    requires TextOk(s) && TextOk(t)
    ensures TextOk(s + t)
  {
    forall i: nat ensures CharAt(s + t, i) {
      assert CharAt(s, i);
      if i >= |s| {
        assert CharAt(t, i - |s|);
      }
    }
  }

  lemma JoinedText(a: seq<nat>, b: seq<nat>, c: seq<nat>)
    requires TextOk(a) && TextOk(b) && TextOk(c)
    ensures TextOk(a + b + c)
  {
    AddText(a, b);
    AddText(a + b, c);
  }

  lemma {:induction false} ExpandedText(rhs: seq<nat>, m: seq<nat>)
    requires TextOk(m) && forall i :: 0 <= i < |rhs| ==> 0 < rhs[i] % 128
    ensures TextOk(Expand(rhs, m))
    decreases |rhs|
  {
    if rhs != [] {
      var n: nat := |rhs| - 1;
      ExpandedText(rhs[..n], m);
      var last := if rhs[n] == AMPERSAND then m else [rhs[n] % 128];
      forall i: nat ensures CharAt(last, i) {
        assert CharAt(m, i);
      }
      AddText(Expand(rhs[..n], m), last);
    }
  }

  lemma ExpandText(rhs: seq<nat>, t: seq<nat>, a: nat, e: nat)
    requires TextOk(t) && a <= e <= |t| && forall i :: 0 <= i < |rhs| ==> 0 < rhs[i] % 128
    ensures TextOk(t[..a]) && TextOk(Expand(rhs, t[a..e])) && TextOk(t[e..])
  {
    assert t[..a] == t[0..a] && t[e..] == t[e..|t|];
    PartText(t, 0, a);
    PartText(t, a, e);
    PartText(t, e, |t|);
    ExpandedText(rhs, t[a..e]);
  }
}
