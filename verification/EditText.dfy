/** What the commands of bin/ed.c do to the lines: a line is the word that names its text, and the
    word's low bit marks it for `global`. */
module EditText {

  // ---------------------------------------------------------------- mark bits

  /** The low bit of a line's word marks it. */
  predicate Marked(w: int)
  {
    w % 2 == 1
  }

  /** `w & ~01`. */
  function Clear(w: int): (c: int)
    ensures !Marked(c) && (!Marked(w) ==> c == w)
  {
    w - w % 2
  }

  function MarkCount(s: seq<int>): nat
  {
    if s == [] then 0 else MarkCount(s[..|s| - 1]) + (if Marked(s[|s| - 1]) then 1 else 0)
  }

  /** The lines without a mark, in order. */
  function Kept(s: seq<int>): (r: seq<int>)
    ensures |r| + MarkCount(s) == |s|
  {
    if s == [] then []
    else
      var r := Kept(s[..|s| - 1]);
      if Marked(s[|s| - 1]) then r else r + [s[|s| - 1]]
  }

  /** Where the last marked line would be if the marked lines before it were gone; 0 if none. */
  function LastPlace(s: seq<int>): nat
  {
    if s == [] then 0
    else if Marked(s[|s| - 1]) then |Kept(s[..|s| - 1])| + 1
    else LastPlace(s[..|s| - 1])
  }

  lemma {:induction false} LastPlaceOfNone(s: seq<int>)
    ensures LastPlace(s) == 0 <==> MarkCount(s) == 0
    ensures LastPlace(s) <= |Kept(s)| + 1
  {
    if s != [] {
      LastPlaceOfNone(s[..|s| - 1]);
    }
  }

  lemma {:induction false} CountOfParts(a: seq<int>, b: seq<int>)
    ensures MarkCount(a + b) == MarkCount(a) + MarkCount(b)
  {
    if b == [] {
      assert a + b == a;
    } else {
      var b' := b[..|b| - 1];
      CountOfParts(a, b');
      assert (a + b)[..|a + b| - 1] == a + b';
    }
  }

  lemma {:induction false} KeptOfParts(a: seq<int>, b: seq<int>)
    ensures Kept(a + b) == Kept(a) + Kept(b)
  {
    if b == [] {
      assert a + b == a;
    } else {
      var b', w := b[..|b| - 1], b[|b| - 1];
      KeptOfParts(a, b');
      assert (a + b)[..|a + b| - 1] == a + b';
      assert Kept(a) + (Kept(b') + [w]) == Kept(a) + Kept(b') + [w];
    }
  }

  ghost predicate PlainAt(s: seq<int>, i: nat)
  {
    i < |s| ==> !Marked(s[i])
  }

  lemma {:induction false} PlainIsKept(s: seq<int>)
    requires forall i: nat :: PlainAt(s, i)
    ensures MarkCount(s) == 0 && Kept(s) == s
  {
    if s != [] {
      var n: nat := |s| - 1;
      var r := s[..n];
      forall i: nat ensures PlainAt(r, i) {
        assert PlainAt(s, i);
      }
      PlainIsKept(r);
      assert PlainAt(s, n) && s == r + [s[n]];
    }
  }

  lemma {:induction false} UncountedIsPlain(s: seq<int>, i: nat)
    requires MarkCount(s) == 0
    ensures PlainAt(s, i)
  {
    if s != [] {
      UncountedIsPlain(s[..|s| - 1], i);
    }
  }

  lemma NoneMarked(s: seq<int>)
    ensures MarkCount(s) == 0 <==> forall i: nat | i < |s| :: !Marked(s[i])
    ensures MarkCount(s) == 0 ==> Kept(s) == s
  {
    if MarkCount(s) == 0 {
      forall i: nat ensures PlainAt(s, i) {
        UncountedIsPlain(s, i);
      }
      forall i: nat | i < |s| ensures !Marked(s[i]) {
        assert PlainAt(s, i);
      }
      PlainIsKept(s);
    }
    if forall i: nat | i < |s| :: !Marked(s[i]) {
      forall i: nat ensures PlainAt(s, i) {
      }
      PlainIsKept(s);
    }
  }

  /** Taking out a marked line keeps the others' count, their order, and where the last is. */
  lemma {:induction false} TakeOut(a: seq<int>, w: int, b: seq<int>)
    requires Marked(w)
    ensures MarkCount(a + [w] + b) == MarkCount(a + b) + 1
    ensures Kept(a + [w] + b) == Kept(a + b)
    ensures LastPlace(a + [w] + b) == if MarkCount(b) > 0 then LastPlace(a + b) else |Kept(a)| + 1
    decreases |b|
  {
    var s := a + [w] + b;
    if b == [] {
      assert s == a + [w] && s[..|a|] == a && a + b == a;
    } else {
      var b' := b[..|b| - 1];
      TakeOut(a, w, b');
      assert s[..|s| - 1] == a + [w] + b';
      assert (a + b)[..|a + b| - 1] == a + b';
    }
  }

  // ---------------------------------------------------------------- the current line after g/.../d

  function Least(a: nat, b: nat): nat
  {
    if a < b then a else b
  }

  /** The current line after `d` has been run on each marked line in turn. */
  function DotByLoop(s: seq<int>, dot: nat): nat
  {
    if MarkCount(s) == 0 then dot else Least(LastPlace(s), |Kept(s)|)
  }

  /** The current line after the linear `gdelete`: its first marked line does not set it. */
  function DotByGdelete(s: seq<int>, dot: nat): nat
  {
    if MarkCount(s) == 0 then dot
    else if MarkCount(s) == 1 then Least(dot, |Kept(s)|)
    else Least(LastPlace(s), |Kept(s)|)
  }

  /** Of three lines the first is marked and the second is current: the loop leaves the new
      line 1 current, `gdelete` the new line 2. */
  lemma DotsCanDiffer(a: int, b: int, c: int)
    requires Marked(a) && !Marked(b) && !Marked(c)
    ensures DotByLoop([a, b, c], 2) == 1 && DotByGdelete([a, b, c], 2) == 2
  {
    var s1, s2, s3 := [a], [a, b], [a, b, c];
    assert s3[..2] == s2 && s2[..1] == s1 && s1[..0] == [];
    assert MarkCount(s1) == 1 && LastPlace(s1) == 1 && Kept(s1) == [];
    assert MarkCount(s2) == 1 && LastPlace(s2) == 1 && Kept(s2) == [b];
  }

  // ---------------------------------------------------------------- addresses

  /** A place in the lines: a number, or an offset from the current line, the last, or the next line
      whose text matches.  The text of a word never changes, so the words that match are a set. */
  datatype Addr = Abs(n: int) | Here(off: int) | End(off: int) | Search(forward: bool, hits: set<int>, off: int)

  /** An address and what follows it: a comma, or a semicolon, which makes it the current line. */
  datatype Sep = Sep(a: Addr, semi: bool)

  datatype MaybeAddr = NoAddr | AnAddr(a: Addr)

  /** The addresses in front of a command. */
  datatype Spec = Spec(seps: seq<Sep>, last: MaybeAddr)

  /** What a buffer stands for: the words of the last substitution are for `u`, `tline` is the word
      that the next line put away will get. */
  datatype Text = Text(lines: seq<int>, dot: nat, subnewa: int, subolda: int, tline: int)

  predicate TextOk(t: Text)
  {
    t.dot <= |t.lines| && !Marked(t.subolda) && !Marked(t.tline)
  }

  /** The line behind line `a`, or before it, round the buffer and line 0. */
  function Next(a: nat, dol: nat, forward: bool): (b: nat)
    requires a <= dol
    ensures b <= dol
  {
    if forward then if a == dol then 0 else a + 1
    else if a == 0 then dol else a - 1
  }

  predicate Hit(l: seq<int>, a: nat, hits: set<int>)
  {
    0 < a <= |l| && Clear(l[a - 1]) in hits
  }

  /** The first line from the one next to `a` on that matches, within `n` steps; -1 if none does. */
  function Searched(l: seq<int>, a: nat, forward: bool, hits: set<int>, n: nat): (r: int)
    requires a <= |l|
    ensures -1 <= r <= |l| && (r >= 0 ==> Hit(l, r, hits))
    decreases n
  {
    if n == 0 then -1
    else
      var b := Next(a, |l|, forward);
      if Hit(l, b, hits) then b else Searched(l, b, forward, hits, n - 1)
  }

  /** The line an address stands for; -1 if there is none. */
  function AddrAt(t: Text, a: Addr): (r: int)
    requires t.dot <= |t.lines|
    ensures -1 <= r <= |t.lines|
  {
    var base := match a
      case Abs(_) => 0
      case Here(_) => t.dot
      case End(_) => |t.lines|
      case Search(forward, hits, _) => Searched(t.lines, t.dot, forward, hits, |t.lines| + 1);
    var off := if a.Abs? then a.n else a.off;
    if base < 0 || base + off < 0 || base + off > |t.lines| then -1 else base + off
  }

  /** Addresses read: whether there was an error, and the lines `a1` and `a2`, -1 for none. */
  datatype Read = Read(ok: bool, t: Text, a1: int, a2: int)

  function Walked(t: Text, seps: seq<Sep>, a2: int): (r: Read)
    requires t.dot <= |t.lines| && -1 <= a2 <= |t.lines|
    ensures r.t == t.(dot := r.t.dot) && r.t.dot <= |t.lines| && -1 <= r.a2 <= |t.lines|
    decreases |seps|
  {
    if seps == [] then Read(true, t, a2, a2)
    else
      var a := AddrAt(t, seps[0].a);
      if a < 0 then Read(false, t, -1, -1)
      else Walked(if seps[0].semi then t.(dot := a) else t, seps[1..], a)
  }

  /** The last two addresses count; with one, both are that. */
  function Resolved(t: Text, spec: Spec): (r: Read)
    requires t.dot <= |t.lines|
    ensures r.t == t.(dot := r.t.dot) && r.t.dot <= |t.lines| && -1 <= r.a1 <= |t.lines| && -1 <= r.a2 <= |t.lines|
    ensures r.a1 < 0 <==> r.a2 < 0
  {
    var w := Walked(t, spec.seps, -1);
    if !w.ok then Read(false, w.t, -1, -1)
    else if spec.last.NoAddr? then Read(true, w.t, w.a2, w.a2)
    else
      var a := AddrAt(w.t, spec.last.a);
      if a < 0 then Read(false, w.t, -1, -1)
      else Read(true, w.t, if w.a2 < 0 then a else w.a2, a)
  }

  /** `setdot` and `nonzero` refuse the lines `a1` to `a2`. */
  predicate Refused(t: Text, a1: int, a2: int)
  {
    a1 > a2 || a1 <= 0 || a2 > |t.lines|
  }

  // ---------------------------------------------------------------- commands

  /** The commands that change the lines or the current one.  `n` lines are typed or read; `splits`
      has the words whose text a substitution matches, with the number of line breaks it brings in,
      and `long` those that it would make too long; `long` of `j` are the stretches too long for one
      line.  `g` inside `g` is an error. */
  datatype Cmd =
    | Append(spec: Spec, n: nat)
    | Insert(spec: Spec, n: nat)
    | Change(spec: Spec, n: nat)
    | Delete(spec: Spec)
    | Join(spec: Spec, longs: set<seq<int>>)
    | Move(spec: Spec, to: MaybeAddr)
    | Copy(spec: Spec, to: MaybeAddr)
    | Subst(spec: Spec, splits: map<int, nat>, long: set<int>)
    | Undo(spec: Spec)
    | Print(spec: Spec)
    | ReadIn(spec: Spec, n: nat)
    | Nested(spec: Spec)

  datatype Ran = Ran(ok: bool, t: Text)

  /** The words of the next `n` lines put away. */
  function NewWords(w: int, n: nat): (r: seq<int>)
    ensures |r| == n
  {
    if n == 0 then [] else NewWords(w, n - 1) + [w + 2 * (n - 1)]
  }

  /** `append` of `n` lines behind line `a`. */
  function AppendOn(t: Text, a: nat, n: nat): (r: Text)
    requires a <= |t.lines|
    ensures r.dot <= |r.lines|
  {
    t.(lines := t.lines[..a] + NewWords(t.tline, n) + t.lines[a..], dot := a + n, tline := t.tline + 2 * n)
  }

  /** `rdelete`. */
  function DeleteOn(t: Text, a1: nat, a2: nat): (r: Text)
    requires 1 <= a1 <= a2 <= |t.lines|
    ensures r.dot <= |r.lines| == |t.lines| - (a2 + 1 - a1)
  {
    var l := t.lines[..a1 - 1] + t.lines[a2..];
    t.(lines := l, dot := Least(a1, |l|))
  }

  /** The lines without their marks. */
  function Words(l: seq<int>): (r: seq<int>)
    ensures |r| == |l|
  {
    if l == [] then [] else Words(l[..|l| - 1]) + [Clear(l[|l| - 1])]
  }

  /** `join`: one new line for lines `a1` to `a2`. */
  function JoinOn(t: Text, a1: nat, a2: nat, longs: set<seq<int>>): (r: Ran)
    requires 1 <= a1 <= a2 <= |t.lines|
    ensures t.dot <= |t.lines| ==> r.t.dot <= |r.t.lines|
  {
    if Words(t.lines[a1 - 1..a2]) in longs then Ran(false, t)
    else Ran(true, t.(lines := t.lines[..a1 - 1] + [t.tline] + t.lines[a2..], dot := a1, tline := t.tline + 2))
  }

  /** The words from `a` up to `b` without their marks. */
  function Cleared(l: seq<int>, a: nat, b: nat): (r: seq<int>)
    requires a <= b <= |l|
    ensures |r| == |l|
  {
    seq(|l|, k requires 0 <= k < |l| => if a <= k < b then Clear(l[k]) else l[k])
  }

  /** The lines from `a` up to `b` moved behind the first `adt`. */
  function Shifted(l: seq<int>, a: nat, b: nat, adt: nat): (r: seq<int>)
    requires a <= b <= |l| && (adt <= a || b <= adt <= |l|)
    ensures |r| == |l|
  {
    if adt <= a then l[..adt] + l[a..b] + l[adt..a] + l[b..]
    else l[..a] + l[b..adt] + l[a..b] + l[adt..]
  }

  /** `m`: lines `a1` to `a2`, without their marks, behind line `adt` unless that is one of them. */
  function MoveOn(t: Text, a1: nat, a2: nat, adt: nat): (r: Ran)
    requires 1 <= a1 <= a2 <= |t.lines| && adt <= |t.lines|
    ensures t.dot <= |t.lines| ==> r.t.dot <= |r.t.lines|
  {
    var l := Cleared(t.lines, a1 - 1, a2);
    if a1 <= adt <= a2 then Ran(false, t.(lines := l))
    else Ran(true, t.(lines := Shifted(l, a1 - 1, a2, adt), dot := if adt < a1 then adt + (a2 + 1 - a1) else adt))
  }

  /** `t`: new lines of the same text behind line `adt`. */
  function CopyOn(t: Text, a1: nat, a2: nat, adt: nat): (r: Text)
    requires 1 <= a1 <= a2 <= |t.lines| && adt <= |t.lines|
    ensures r.dot <= |r.lines|
  {
    AppendOn(t, adt, a2 + 1 - a1)
  }

  /** A substitution in line `a`: a new word for it, and `n` new lines behind it. */
  function SubstLineOn(t: Text, a: nat, n: nat): (r: Text)
    requires 1 <= a <= |t.lines|
    ensures r.dot <= |r.lines| == |t.lines| + n
  {
    Text(t.lines[..a - 1] + [t.tline] + NewWords(t.tline + 2, n) + t.lines[a..], a + n, t.tline,
         Clear(t.lines[a - 1]), t.tline + 2 + 2 * n)
  }

  /** `substitute` in the `n` lines from line `a` on, until one gets too long. */
  function SubstOn(t: Text, a: nat, n: nat, splits: map<int, nat>, long: set<int>): (r: Ran)
    requires 1 <= a && a + n <= |t.lines| + 1
    ensures t.dot <= |t.lines| ==> r.t.dot <= |r.t.lines|
    decreases n
  {
    if n == 0 then Ran(true, t)
    else
      var w := Clear(t.lines[a - 1]);
      if w in long then Ran(false, t)
      else if w !in splits then SubstOn(t, a + 1, n - 1, splits, long)
      else SubstOn(SubstLineOn(t, a, splits[w]), a + splits[w] + 1, n - 1, splits, long)
  }

  /** `u` in line `a`. */
  function UndoOn(t: Text, a: nat): (r: Ran)
    requires 1 <= a <= |t.lines|
    ensures t.dot <= |t.lines| ==> r.t.dot <= |r.t.lines|
  {
    if Clear(t.lines[a - 1]) != t.subnewa then Ran(false, t)
    else Ran(true, t.(lines := t.lines[a - 1 := t.subolda], dot := a))
  }

  /** The commands on lines `a1` to `a2` that `setdot` and `nonzero` have let pass. */
  function OnLines(t: Text, c: Cmd, a1: nat, a2: nat): (r: Ran)
    requires t.dot <= |t.lines| && 1 <= a1 <= a2 <= |t.lines|
    ensures r.t.dot <= |r.t.lines|
  {
    match c
    case Insert(_, n) => Ran(true, AppendOn(t, a2 - 1, n))
    case Change(_, n) => Ran(true, AppendOn(DeleteOn(t, a1, a2), a1 - 1, n))
    case Delete(_) => Ran(true, DeleteOn(t, a1, a2))
    case Join(_, longs) => JoinOn(t, a1, a2, longs)
    case Move(_, to) => MoveOrCopyOn(t, a1, a2, to, false)
    case Copy(_, to) => MoveOrCopyOn(t, a1, a2, to, true)
    case Subst(_, splits, long) => SubstOn(t, a1, a2 + 1 - a1, splits, long)
    case Undo(_) => UndoOn(t, a2)
    case Print(_) => Ran(true, t.(dot := a2))
    case _ => Ran(false, t)
  }

  function MoveOrCopyOn(t: Text, a1: nat, a2: nat, to: MaybeAddr, copy: bool): (r: Ran)
    requires t.dot <= |t.lines| && 1 <= a1 <= a2 <= |t.lines|
    ensures r.t.dot <= |r.t.lines|
  {
    var adt := Target(t, to);
    if adt < 0 then Ran(false, t)
    else if copy then Ran(true, CopyOn(t, a1, a2, adt))
    else MoveOn(t, a1, a2, adt)
  }

  function Target(t: Text, to: MaybeAddr): (r: int)
    requires t.dot <= |t.lines|
    ensures -1 <= r <= |t.lines|
  {
    if to.NoAddr? then -1 else AddrAt(t, to.a)
  }

  /** A command behind its addresses; without any, it takes the current line, `j` the next one too,
      and `r` all lines. */
  function Applied(t: Text, c: Cmd, b1: int, b2: int): (r: Ran)
    requires t.dot <= |t.lines| && b1 <= |t.lines| && b2 <= |t.lines|
    ensures r.t.dot <= |r.t.lines|
  {
    var none, dol := b2 < 0, |t.lines|;
    var a1 := if !none then b1 else if c.ReadIn? then if dol == 0 then 0 else 1 else t.dot;
    var a2 := if !none then b2 else if c.ReadIn? then dol else if c.Join? then t.dot + 1 else t.dot;
    if c.Nested? then Ran(false, t)
    else if c.Append? || c.ReadIn? then
      if a1 > a2 || a2 < 0 then Ran(false, t) else Ran(true, AppendOn(t, a2, c.n))
    else if Refused(t, a1, a2) then Ran(false, t)
    else OnLines(t, c, a1, a2)
  }

  /** A command as `commands` runs it under a global command, and whether it succeeds. */
  function RunOn(t: Text, c: Cmd): (r: Ran)
    requires t.dot <= |t.lines|
    ensures r.t.dot <= |r.t.lines|
  {
    var e := Resolved(t, c.spec);
    if !e.ok then Ran(false, e.t) else Applied(e.t, c, e.a1, e.a2)
  }

  /** A list of commands, until one of them fails. */
  function RunAllOn(t: Text, cmds: seq<Cmd>): (r: Ran)
    requires t.dot <= |t.lines|
    ensures r.t.dot <= |r.t.lines|
  {
    if cmds == [] then Ran(true, t)
    else
      var r := RunAllOn(t, cmds[..|cmds| - 1]);
      if r.ok then RunOn(r.t, cmds[|cmds| - 1]) else r
  }

  lemma {:induction false} FailedStays(t: Text, cmds: seq<Cmd>, n: nat)
    requires t.dot <= |t.lines| && n <= |cmds| && !RunAllOn(t, cmds[..n]).ok
    ensures RunAllOn(t, cmds) == RunAllOn(t, cmds[..n])
  {
    if n == |cmds| {
      assert cmds[..n] == cmds;
    } else {
      var shorter := cmds[..|cmds| - 1];
      assert shorter[..n] == cmds[..n];
      FailedStays(t, shorter, n);
    }
  }

  // ---------------------------------------------------------------- no command makes a marked line

  lemma {:induction false} NewWordsPlain(w: int, n: nat)
    requires !Marked(w)
    ensures MarkCount(NewWords(w, n)) == 0 && !Marked(w + 2 * n)
  {
    if n > 0 {
      NewWordsPlain(w, n - 1);
      var more := NewWords(w, n);
      assert more[..n - 1] == NewWords(w, n - 1);
    }
  }

  lemma AppendCounts(t: Text, a: nat, n: nat)
    requires TextOk(t) && a <= |t.lines|
    ensures var r := AppendOn(t, a, n); TextOk(r) && MarkCount(r.lines) == MarkCount(t.lines)
  {
    NewWordsPlain(t.tline, n);
    InsertedCounts(t.lines, a, NewWords(t.tline, n));
  }

  lemma DeleteCounts(t: Text, a1: nat, a2: nat)
    requires TextOk(t) && 1 <= a1 <= a2 <= |t.lines|
    ensures var r := DeleteOn(t, a1, a2); TextOk(r) && MarkCount(r.lines) <= MarkCount(t.lines)
  {
    CutCounts(t.lines, a1 - 1, a2);
  }

  lemma CutCounts(l: seq<int>, a: nat, b: nat)
    requires a <= b <= |l|
    ensures MarkCount(l[..a] + l[b..]) <= MarkCount(l)
  {
    assert l == l[..a] + l[a..b] + l[b..];
    ThreeParts(l[..a], l[a..b], l[b..]);
    CountOfParts(l[..a], l[b..]);
  }

  lemma JoinCounts(t: Text, a1: nat, a2: nat, longs: set<seq<int>>)
    requires TextOk(t) && 1 <= a1 <= a2 <= |t.lines|
    ensures var r := JoinOn(t, a1, a2, longs).t; TextOk(r) && MarkCount(r.lines) <= MarkCount(t.lines)
  {
    var l := t.lines;
    CutCounts(l, a1 - 1, a2);
    CountOfParts(l[..a1 - 1], l[a2..]);
    ThreeParts(l[..a1 - 1], [t.tline], l[a2..]);
    OneCount(t.tline);
  }

  lemma {:induction false} ClearedCounts(l: seq<int>, a: nat, b: nat)
    requires a <= b <= |l|
    ensures MarkCount(Cleared(l, a, b)) <= MarkCount(l)
  {
    if a == b {
      assert Cleared(l, a, b) == l;
    } else {
      ClearedCounts(l, a, b - 1);
      SetCounts(Cleared(l, a, b - 1), b - 1, Clear(l[b - 1]));
      assert Cleared(l, a, b) == Cleared(l, a, b - 1)[b - 1 := Clear(l[b - 1])];
    }
  }

  lemma MoveCounts(t: Text, a1: nat, a2: nat, adt: nat)
    requires TextOk(t) && 1 <= a1 <= a2 <= |t.lines| && adt <= |t.lines|
    ensures var r := MoveOn(t, a1, a2, adt).t; TextOk(r) && MarkCount(r.lines) <= MarkCount(t.lines)
  {
    var l, a := Cleared(t.lines, a1 - 1, a2), a1 - 1;
    ClearedCounts(t.lines, a, a2);
    if !(a1 <= adt <= a2) {
      ShiftedCounts(l, a, a2, adt);
    }
  }

  lemma SubstLineCounts(t: Text, a: nat, n: nat)
    requires TextOk(t) && 1 <= a <= |t.lines|
    ensures var r := SubstLineOn(t, a, n); TextOk(r) && MarkCount(r.lines) <= MarkCount(t.lines)
  {
    NewWordsPlain(t.tline + 2, n);
    SetInsertCounts(t.lines, a, t.tline, NewWords(t.tline + 2, n));
  }

  lemma SetInsertCounts(l: seq<int>, a: nat, w: int, more: seq<int>)
    requires 1 <= a <= |l| && !Marked(w) && MarkCount(more) == 0
    ensures MarkCount(l[..a - 1] + [w] + more + l[a..]) <= MarkCount(l)
  {
    var x, v, y := l[..a - 1], l[a - 1], l[a..];
    assert l == x + [v] + y;
    FourParts(x, [w], more, y);
    ThreeParts(x, [v], y);
    OneCount(w);
  }

  lemma {:induction false} SubstCounts(t: Text, a: nat, n: nat, splits: map<int, nat>, long: set<int>)
    requires TextOk(t) && 1 <= a && a + n <= |t.lines| + 1
    ensures var r := SubstOn(t, a, n, splits, long).t; TextOk(r) && MarkCount(r.lines) <= MarkCount(t.lines)
    decreases n, 1
  {
    if n > 0 {
      var w := Clear(t.lines[a - 1]);
      if w !in long {
        if w in splits {
          SubstMoreCounts(t, a, n, splits, long, splits[w]);
        } else {
          SubstCounts(t, a + 1, n - 1, splits, long);
        }
      }
    }
  }

  lemma {:induction false} SubstMoreCounts(t: Text, a: nat, n: nat, splits: map<int, nat>, long: set<int>, nl: nat)
    requires TextOk(t) && 1 <= a && a + n <= |t.lines| + 1 && n > 0
    ensures var r := SubstOn(SubstLineOn(t, a, nl), a + nl + 1, n - 1, splits, long).t;
            TextOk(r) && MarkCount(r.lines) <= MarkCount(t.lines)
    decreases n, 0
  {
    SubstLineCounts(t, a, nl);
    SubstCounts(SubstLineOn(t, a, nl), a + nl + 1, n - 1, splits, long);
  }

  lemma ChangeCounts(t: Text, a1: nat, a2: nat, n: nat)
    requires TextOk(t) && 1 <= a1 <= a2 <= |t.lines|
    ensures var r := AppendOn(DeleteOn(t, a1, a2), a1 - 1, n); TextOk(r) && MarkCount(r.lines) <= MarkCount(t.lines)
  {
    DeleteCounts(t, a1, a2);
    AppendCounts(DeleteOn(t, a1, a2), a1 - 1, n);
  }

  lemma MoveOrCopyCounts(t: Text, a1: nat, a2: nat, to: MaybeAddr, copy: bool)
    requires TextOk(t) && 1 <= a1 <= a2 <= |t.lines|
    ensures var r := MoveOrCopyOn(t, a1, a2, to, copy).t; TextOk(r) && MarkCount(r.lines) <= MarkCount(t.lines)
  {
    var adt := Target(t, to);
    if adt >= 0 {
      if copy {
        AppendCounts(t, adt, a2 + 1 - a1);
      } else {
        MoveCounts(t, a1, a2, adt);
      }
    }
  }

  lemma UndoCounts(t: Text, a: nat)
    requires TextOk(t) && 1 <= a <= |t.lines|
    ensures var r := UndoOn(t, a).t; TextOk(r) && MarkCount(r.lines) <= MarkCount(t.lines)
  {
    SetCounts(t.lines, a - 1, t.subolda);
  }

  lemma OnLinesCounts(t: Text, c: Cmd, a1: nat, a2: nat)
    requires TextOk(t) && 1 <= a1 <= a2 <= |t.lines|
    ensures var r := OnLines(t, c, a1, a2).t; TextOk(r) && MarkCount(r.lines) <= MarkCount(t.lines)
  {
    match c {
      case Insert(_, n) => AppendCounts(t, a2 - 1, n);
      case Change(_, n) => ChangeCounts(t, a1, a2, n);
      case Delete(_) => DeleteCounts(t, a1, a2);
      case Join(_, longs) => JoinCounts(t, a1, a2, longs);
      case Move(_, to) => MoveOrCopyCounts(t, a1, a2, to, false);
      case Copy(_, to) => MoveOrCopyCounts(t, a1, a2, to, true);
      case Subst(_, splits, long) => SubstCounts(t, a1, a2 + 1 - a1, splits, long);
      case Undo(_) => UndoCounts(t, a2);
      case _ =>
    }
  }

  /** No command makes a marked line, whatever lines it is addressed to. */
  lemma RunCounts(t: Text, c: Cmd)
    requires TextOk(t)
    ensures var r := RunOn(t, c).t; TextOk(r) && MarkCount(r.lines) <= MarkCount(t.lines)
  {
    var e := Resolved(t, c.spec);
    if e.ok {
      AppliedCounts(e.t, c, e.a1, e.a2);
    }
  }

  lemma AppliedCounts(t: Text, c: Cmd, b1: int, b2: int)
    requires TextOk(t) && b1 <= |t.lines| && b2 <= |t.lines|
    ensures var r := Applied(t, c, b1, b2).t; TextOk(r) && MarkCount(r.lines) <= MarkCount(t.lines)
  {
    var none, dol := b2 < 0, |t.lines|;
    var a1 := if !none then b1 else if c.ReadIn? then if dol == 0 then 0 else 1 else t.dot;
    var a2 := if !none then b2 else if c.ReadIn? then dol else if c.Join? then t.dot + 1 else t.dot;
    if c.Append? || c.ReadIn? {
      if a1 <= a2 && 0 <= a2 {
        AppendCounts(t, a2, c.n);
      }
    } else if !c.Nested? && !Refused(t, a1, a2) {
      OnLinesCounts(t, c, a1, a2);
    }
  }

  lemma {:induction false} RunAllCounts(t: Text, cmds: seq<Cmd>)
    requires TextOk(t)
    ensures var r := RunAllOn(t, cmds).t; TextOk(r) && MarkCount(r.lines) <= MarkCount(t.lines)
  {
    if cmds != [] {
      var shorter := cmds[..|cmds| - 1];
      RunAllCounts(t, shorter);
      if RunAllOn(t, shorter).ok {
        RunCounts(RunAllOn(t, shorter).t, cmds[|cmds| - 1]);
      }
    }
  }

  // ---------------------------------------------------------------- global commands

  /** One pass of `global`: line `i + 1` loses its mark and becomes current, the commands run. */
  function PassOn(t: Text, i: nat, cmds: seq<Cmd>): (r: Ran)
    requires i < |t.lines|
    ensures r.t.dot <= |r.t.lines|
  {
    RunAllOn(t.(lines := t.lines[i := Clear(t.lines[i])], dot := i + 1), cmds)
  }

  /** Each pass leaves fewer lines marked. */
  lemma PassCounts(t: Text, i: nat, cmds: seq<Cmd>)
    requires TextOk(t) && i < |t.lines| && Marked(t.lines[i])
    ensures var r := PassOn(t, i, cmds).t; TextOk(r) && MarkCount(r.lines) < MarkCount(t.lines)
  {
    var l := t.lines[i := Clear(t.lines[i])];
    SetCounts(t.lines, i, Clear(t.lines[i]));
    RunAllCounts(t.(lines := l, dot := i + 1), cmds);
  }

  function FirstMarked(l: seq<int>): (i: nat)
    requires MarkCount(l) > 0
    ensures i < |l| && Marked(l[i])
  {
    if MarkCount(l[..|l| - 1]) > 0 then FirstMarked(l[..|l| - 1]) else |l| - 1
  }

  lemma {:induction false} FirstMarkedIs(l: seq<int>, i: nat)
    requires i < |l| && Marked(l[i]) && forall k: nat | k < i :: !Marked(l[k])
    ensures MarkCount(l) > 0 && FirstMarked(l) == i
  {
    var n := |l| - 1;
    var shorter := l[..n];
    assert forall k: nat | k < n :: shorter[k] == l[k];
    if i < n {
      FirstMarkedIs(shorter, i);
    } else {
      NoneMarked(shorter);
      assert MarkCount(shorter) == 0;
    }
  }

  /** What `global` does with the lines marked: a pass for the first of them, as long as there is
      one and no command fails. */
  ghost function GlobalOn(t: Text, cmds: seq<Cmd>): (r: Ran)
    requires TextOk(t)
    ensures TextOk(r.t) && (r.ok ==> MarkCount(r.t.lines) == 0)
    decreases MarkCount(t.lines)
  {
    if MarkCount(t.lines) == 0 then Ran(true, t)
    else
      var i := FirstMarked(t.lines);
      PassCounts(t, i, cmds);
      var p := PassOn(t, i, cmds);
      if p.ok then GlobalOn(p.t, cmds) else p
  }

  /** The first loop of `global`: of lines `a1` to `a2`, those are marked that match as asked, and no others. */
  function MarksOn(l: seq<int>, a1: int, a2: int, hits: set<int>, k: bool): (r: seq<int>)
    ensures |r| == |l|
  {
    if l == [] then []
    else
      var n, w := |l| - 1, Clear(l[|l| - 1]);
      MarksOn(l[..n], a1, a2, hits, k) + [w + if a1 <= n + 1 <= a2 && (w in hits) == k then 1 else 0]
  }

  function MarkedOn(t: Text, a1: int, a2: int, hits: set<int>, k: bool): (r: Text)
    ensures TextOk(t) ==> TextOk(r)
  {
    t.(lines := MarksOn(t.lines, a1, a2, hits, k))
  }

  /** `gdelete`. */
  function GDeleteOn(t: Text): Text
  {
    t.(lines := Kept(t.lines), dot := DotByGdelete(t.lines, t.dot))
  }

  const NOWHERE: Spec := Spec([], NoAddr)

  /** The whole command `g`, or `v`: addresses, marks, and the commands on each line marked. */
  ghost function GlobalCommandOn(t: Text, spec: Spec, hits: set<int>, k: bool, cmds: seq<Cmd>): (r: Ran)
    requires TextOk(t)
    ensures r.ok ==> MarkCount(r.t.lines) == 0
  {
    var e := Resolved(t, spec);
    var none, dol := e.a2 < 0, |t.lines|;
    var a1, a2 := if none then if dol == 0 then 0 else 1 else e.a1, if none then dol else e.a2;
    if !e.ok || Refused(e.t, a1, a2) then Ran(false, e.t) else GlobalOverOn(e.t, a1, a2, hits, k, cmds)
  }

  /** The same on lines `a1` to `a2`. */
  ghost function GlobalOverOn(t: Text, a1: int, a2: int, hits: set<int>, k: bool, cmds: seq<Cmd>): (r: Ran)
    requires TextOk(t)
    ensures r.ok ==> MarkCount(r.t.lines) == 0
  {
    var m := MarkedOn(t, a1, a2, hits, k);
    if cmds == [Delete(NOWHERE)] then
      KeptHasNone(m.lines);
      Ran(true, GDeleteOn(m))
    else GlobalOn(m, cmds)
  }

  lemma {:induction false} KeptHasNone(l: seq<int>)
    ensures MarkCount(Kept(l)) == 0
  {
    if l != [] {
      var k := Kept(l[..|l| - 1]);
      KeptHasNone(l[..|l| - 1]);
      if !Marked(l[|l| - 1]) {
        assert (k + [l[|l| - 1]])[..|k|] == k;
      }
    }
  }

  ghost predicate SameText(u: Text, t: Text)
  {
    u == t
  }

  /** From here on, `global` comes to `r`. */
  ghost predicate LeadsTo(t: Text, cmds: seq<Cmd>, r: Ran)
  {
    forall u: Text :: SameText(u, t) && TextOk(u) ==> GlobalOn(u, cmds) == r
  }

  lemma LeadsFrom(t: Text, cmds: seq<Cmd>) returns (r: Ran)
    requires TextOk(t)
    ensures r == GlobalOn(t, cmds) && LeadsTo(t, cmds, r)
  {
    r := GlobalOn(t, cmds);
  }

  lemma LeadsOn(t: Text, i: nat, cmds: seq<Cmd>, r: Ran, p: Ran)
    requires TextOk(t) && LeadsTo(t, cmds, r) && i < |t.lines| && p == PassOn(t, i, cmds) && TextOk(p.t)
    requires Marked(t.lines[i]) && forall k: nat | k < i :: !Marked(t.lines[k])
    ensures if p.ok then LeadsTo(p.t, cmds, r) else p == r
  {
    assert SameText(t, t);
    FirstMarkedIs(t.lines, i);
  }

  lemma LeadsNowhere(t: Text, cmds: seq<Cmd>, r: Ran)
    requires TextOk(t) && LeadsTo(t, cmds, r) && MarkCount(t.lines) == 0
    ensures r == Ran(true, t)
  {
    assert SameText(t, t);
  }

  /** The command `d` on every marked line: what is left are the unmarked lines. */
  lemma {:induction false} GlobalDelete(t: Text, cmds: seq<Cmd>)
    requires TextOk(t) && cmds == [Delete(NOWHERE)]
    ensures GlobalOn(t, cmds) == Ran(true, t.(lines := Kept(t.lines), dot := DotByLoop(t.lines, t.dot)))
    decreases MarkCount(t.lines)
  {
    NoneMarked(t.lines);
    if MarkCount(t.lines) > 0 {
      var l, i := t.lines, FirstMarked(t.lines);
      NoneBefore(l);
      PassCounts(t, i, cmds);
      DeletePass(t, i, cmds);
      DeleteStep(l, i, t.dot);
      GlobalDelete(PassOn(t, i, cmds).t, cmds);
    }
  }

  /** So `gdelete` keeps the lines that the loop it stands for keeps.  It leaves another current line
      only if exactly one line is marked, unless that one is the current line, or both are the last line
      or the one before it. */
  lemma DotsAgree(t: Text, cmds: seq<Cmd>)
    requires TextOk(t) && cmds == [Delete(NOWHERE)]
    ensures var g, l := GlobalOn(t, cmds).t, t.lines;
            && g.lines == Kept(l)
            && (g.dot == DotByGdelete(l, t.dot) <==>
                  MarkCount(l) == 1 ==>
                    var marked := FirstMarked(l) + 1;
                    t.dot == marked || (t.dot >= |l| - 1 && marked >= |l| - 1))
  {
    GlobalDelete(t, cmds);
    if MarkCount(t.lines) == 1 {
      OnlyMark(t.lines);
    }
  }

  /** The last place of one mark is its own. */
  lemma {:induction false} OnlyMark(l: seq<int>)
    requires MarkCount(l) == 1
    ensures LastPlace(l) == FirstMarked(l) + 1
  {
    var n := |l| - 1;
    if Marked(l[n]) {
      NoneMarked(l[..n]);
    } else {
      OnlyMark(l[..n]);
    }
  }

  lemma DeletePass(t: Text, i: nat, cmds: seq<Cmd>)
    requires i < |t.lines| && cmds == [Delete(NOWHERE)]
    ensures PassOn(t, i, cmds)
            == Ran(true, t.(lines := t.lines[..i] + t.lines[i + 1..], dot := Least(i + 1, |t.lines| - 1)))
  {
    var l, l' := t.lines, t.lines[i := Clear(t.lines[i])];
    var t' := t.(lines := l', dot := i + 1);
    assert cmds[..|cmds| - 1] == [] && RunAllOn(t', cmds) == RunOn(t', cmds[0]);
    assert Resolved(t', NOWHERE) == Read(true, t', -1, -1);
    assert RunOn(t', cmds[0]) == Ran(true, DeleteOn(t', i + 1, i + 1));
    assert l'[..i] == l[..i] && l'[i + 1..] == l[i + 1..];
  }

  lemma {:induction false} NoneBefore(l: seq<int>)
    requires MarkCount(l) > 0
    ensures forall k: nat | k < FirstMarked(l) :: !Marked(l[k])
  {
    var shorter := l[..|l| - 1];
    if MarkCount(shorter) > 0 {
      NoneBefore(shorter);
    } else {
      NoneMarked(shorter);
    }
  }

  /** A substitution in a line that is undone at once leaves the line as it was, but for its mark. */
  lemma UndoneSubst(t: Text, splits: map<int, nat>)
    requires TextOk(t) && t.dot > 0 && Clear(t.lines[t.dot - 1]) in splits && splits[Clear(t.lines[t.dot - 1])] == 0
    ensures var r := RunOn(RunOn(t, Subst(NOWHERE, splits, {})).t, Undo(NOWHERE));
            r.ok && r.t.lines == t.lines[t.dot - 1 := Clear(t.lines[t.dot - 1])] && r.t.dot == t.dot
  {
    var l, a := t.lines, t.dot;
    var s := SubstLineOn(t, a, 0);
    assert RunOn(t, Subst(NOWHERE, splits, {})) == SubstOn(t, a, 1, splits, {});
    assert SubstOn(s, a + 1, 0, splits, {}) == Ran(true, s);
    assert l[..a - 1] + [t.tline] + [] + l[a..] == l[a - 1 := t.tline];
    assert s.lines == l[a - 1 := t.tline] && s.dot == a;
    assert RunOn(s, Undo(NOWHERE)) == UndoOn(s, a);
  }

  // ---------------------------------------------------------------- counting marks

  lemma ThreeParts(x: seq<int>, y: seq<int>, z: seq<int>)
    ensures MarkCount(x + y + z) == MarkCount(x) + MarkCount(y) + MarkCount(z)
  {
    CountOfParts(x + y, z);
    CountOfParts(x, y);
  }

  lemma OneCount(w: int)
    ensures MarkCount([w]) == if Marked(w) then 1 else 0
  {
    assert [w][..0] == [];
  }

  lemma InsertedCounts(l: seq<int>, a: nat, tls: seq<int>)
    requires a <= |l| && MarkCount(tls) == 0
    ensures MarkCount(l[..a] + tls + l[a..]) == MarkCount(l)
  {
    var x, y := l[..a], l[a..];
    assert l == x + y;
    ThreeParts(x, tls, y);
    CountOfParts(x, y);
  }

  lemma SetCounts(l: seq<int>, a: nat, w: int)
    requires a < |l| && !Marked(w)
    ensures MarkCount(l[a := w]) == MarkCount(l) - (if Marked(l[a]) then 1 else 0)
  {
    var x, v, y := l[..a], l[a], l[a + 1..];
    assert l == x + [v] + y;
    assert l[a := w] == x + [w] + y;
    ThreeParts(x, [v], y);
    ThreeParts(x, [w], y);
    OneCount(v);
    OneCount(w);
  }

  lemma FourParts(a: seq<int>, b: seq<int>, c: seq<int>, d: seq<int>)
    ensures MarkCount(a + b + c + d) == MarkCount(a) + MarkCount(b) + MarkCount(c) + MarkCount(d)
  {
    CountOfParts(a + b + c, d);
    CountOfParts(a + b, c);
    CountOfParts(a, b);
  }

  lemma SwappedCounts(w: seq<int>, x: seq<int>, y: seq<int>, z: seq<int>)
    ensures MarkCount(w + y + x + z) == MarkCount(w + x + y + z)
  {
    FourParts(w, y, x, z);
    FourParts(w, x, y, z);
  }

  lemma Glue(r: seq<int>, a: nat, b: nat, c: nat)
    requires a <= b <= c <= |r|
    ensures r == r[..a] + r[a..b] + r[b..c] + r[c..]
  {
  }

  lemma ShiftedCounts(l: seq<int>, a: nat, b: nat, adt: nat)
    requires a <= b <= |l| && (adt <= a || b <= adt <= |l|)
    ensures MarkCount(Shifted(l, a, b, adt)) == MarkCount(l)
  {
    if adt <= a {
      Glue(l, adt, a, b);
      SwappedCounts(l[..adt], l[adt..a], l[a..b], l[b..]);
    } else {
      Glue(l, a, b, adt);
      SwappedCounts(l[..a], l[a..b], l[b..adt], l[adt..]);
    }
  }

  /** Deleting the first marked line changes neither what is kept nor where it all ends. */
  lemma DeleteStep(l: seq<int>, i: nat, dot: nat)
    requires i < |l| && Marked(l[i]) && forall k: nat | k < i :: !Marked(l[k])
    ensures var l' := l[..i] + l[i + 1..];
            && MarkCount(l') == MarkCount(l) - 1 && Kept(l') == Kept(l)
            && DotByLoop(l', Least(i + 1, |l'|)) == DotByLoop(l, dot)
  {
    var a, w, b := l[..i], l[i], l[i + 1..];
    assert l == a + [w] + b;
    TakeOut(a, w, b);
    CountOfParts(a, b);
    KeptOfParts(a, b);
    NoneMarked(a);
    NoneMarked(b);
  }
}
