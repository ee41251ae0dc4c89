/** The RT-11 floppy directory of etc/arff.c: `lookup`, `rtr`, `mkent`, `rtk` and `scrunch`.
    A file's place on the floppy is nowhere stored: it is the sum of the lengths before it. */
module Floppy {

  const BLOCK: nat := 512

  /** A name in RAD50, three words. */
  datatype Name = Name(a: nat, b: nat, c: nat)

  const NO_NAME: Name := Name(0, 0, 0)

  datatype Stat = Temp | Null | File

  datatype Ent = Ent(stat: Stat, name: Name, len: nat)

  /** A directory segment: its first block, its entries before the end mark, and room for entries. */
  datatype Segment = Segment(stfile: nat, ents: seq<Ent>, room: nat)

  /** What `lookup` answers: in which segment, at which entry, from which byte on, how many bytes. */
  datatype Dope = Absent | Dope(seg: nat, ent: nat, startad: nat, count: nat)

  /** Where a file lies: its first block and how many blocks. */
  datatype Place = Nowhere | Place(seg: nat, start: nat, len: nat)

  predicate Named(e: Ent, name: Name)
  {
    e.stat != Null && e.name == name
  }

  // ---------------------------------------------------------------- places

  function Blocks(ents: seq<Ent>): nat
  {
    if ents == [] then 0 else ents[0].len + Blocks(ents[1..])
  }

  /** The first file of that name among entries that begin at block `at`. */
  function PlaceIn(ents: seq<Ent>, seg: nat, at: nat, name: Name): Place
  {
    if ents == [] then Nowhere
    else if Named(ents[0], name) then Place(seg, at, ents[0].len)
    else PlaceIn(ents[1..], seg, at + ents[0].len, name)
  }

  /** The first file of that name in the segments from `k` on. */
  function PlaceFrom(segs: seq<Segment>, k: nat, name: Name): Place
    decreases |segs| - k
  {
    if k >= |segs| then Nowhere
    else
      var p := PlaceIn(segs[k].ents, k, segs[k].stfile, name);
      if p == Nowhere then PlaceFrom(segs, k + 1, name) else p
  }

  lemma {:induction false} BlocksOfParts(a: seq<Ent>, b: seq<Ent>)
    ensures Blocks(a + b) == Blocks(a) + Blocks(b)
  {
    if a == [] {
      assert a + b == b;
    } else {
      BlocksOfParts(a[1..], b);
      assert (a + b)[1..] == a[1..] + b;
    }
  }

  lemma {:induction false} PlaceOfParts(a: seq<Ent>, b: seq<Ent>, seg: nat, at: nat, name: Name)
    ensures PlaceIn(a + b, seg, at, name)
            == if PlaceIn(a, seg, at, name) == Nowhere then PlaceIn(b, seg, at + Blocks(a), name)
               else PlaceIn(a, seg, at, name)
  {
    if a == [] {
      assert a + b == b;
    } else {
      PlaceOfParts(a[1..], b, seg, at + a[0].len, name);
      assert (a + b)[1..] == a[1..] + b;
    }
  }

  /** A stretch without the file is exchanged for another as long. */
  lemma PlaceKept(a: seq<Ent>, m: seq<Ent>, m': seq<Ent>, b: seq<Ent>, seg: nat, at: nat, name: Name)
    requires Blocks(m) == Blocks(m')
    requires PlaceIn(m, seg, at + Blocks(a), name) == Nowhere == PlaceIn(m', seg, at + Blocks(a), name)
    ensures PlaceIn(a + m + b, seg, at, name) == PlaceIn(a + m' + b, seg, at, name)
    ensures Blocks(a + m + b) == Blocks(a + m' + b)
  {
    PlaceOfParts(a + m, b, seg, at, name);
    PlaceOfParts(a, m, seg, at, name);
    PlaceOfParts(a + m', b, seg, at, name);
    PlaceOfParts(a, m', seg, at, name);
    BlocksOfParts(a + m, b);
    BlocksOfParts(a, m);
    BlocksOfParts(a + m', b);
    BlocksOfParts(a, m');
  }

  /** Where entry `i` begins. */
  function StartOf(seg: Segment, i: nat): nat
    requires i <= |seg.ents|
  {
    seg.stfile + Blocks(seg.ents[..i])
  }

  /** Entries lie one behind the other, inside the segment. */
  lemma EntriesApart(seg: Segment, i: nat, j: nat)
    requires i < j < |seg.ents|
    ensures StartOf(seg, i) + seg.ents[i].len <= StartOf(seg, j)
    ensures StartOf(seg, j) + seg.ents[j].len <= seg.stfile + Blocks(seg.ents)
  {
    PartBefore(seg.ents, i, j);
    PartBefore(seg.ents, j, |seg.ents|);
    assert seg.ents[..|seg.ents|] == seg.ents;
  }

  lemma PartBefore(ents: seq<Ent>, i: nat, j: nat)
    requires i < j <= |ents|
    ensures Blocks(ents[..i]) + ents[i].len <= Blocks(ents[..j])
  {
    var a, b := ents[..i], ents[i..j];
    assert ents[..j] == a + b;
    BlocksOfParts(a, b);
  }

  // ---------------------------------------------------------------- the answers of lookup

  /** Entry `i` is the first of that name. */
  ghost predicate FirstAt(ents: seq<Ent>, name: Name, i: nat)
  {
    i < |ents| && Named(ents[i], name) && forall j: nat | j < i :: !Named(ents[j], name)
  }

  lemma {:induction false} PlaceOfFirst(ents: seq<Ent>, seg: nat, at: nat, name: Name, i: nat)
    requires FirstAt(ents, name, i)
    ensures PlaceIn(ents, seg, at, name) == Place(seg, at + Blocks(ents[..i]), ents[i].len)
  {
    if i > 0 {
      assert !Named(ents[0], name);
      assert ents[..i][1..] == ents[1..][..i - 1];
      PlaceOfFirst(ents[1..], seg, at + ents[0].len, name, i - 1);
    }
  }

  lemma {:induction false} NoPlace(ents: seq<Ent>, seg: nat, at: nat, name: Name)
    requires forall j: nat | j < |ents| :: !Named(ents[j], name)
    ensures PlaceIn(ents, seg, at, name) == Nowhere
  {
    if ents != [] {
      NoPlace(ents[1..], seg, at + ents[0].len, name);
    }
  }

  /** `lookup`'s answer is the file's place, in bytes. */
  ghost predicate Answers(segs: seq<Segment>, name: Name, d: Dope)
  {
    match PlaceFrom(segs, 0, name)
    case Nowhere => d == Absent
    case Place(seg, start, len) =>
      && d.Dope? && d == Dope(seg, d.ent, start * BLOCK, len * BLOCK)
      && seg < |segs| && FirstAt(segs[seg].ents, name, d.ent)
      && StartOf(segs[seg], d.ent) == start && segs[seg].ents[d.ent].len == len
  }

  /** Every other name is found where it was. */
  ghost predicate OthersStay(segs: seq<Segment>, segs': seq<Segment>, name: Name)
  {
    forall other: Name :: OtherStays(segs, segs', name, other)
  }

  ghost predicate OtherStays(segs: seq<Segment>, segs': seq<Segment>, name: Name, other: Name)
  {
    other != name ==> PlaceFrom(segs', 0, other) == PlaceFrom(segs, 0, other)
  }

  /** Only segment `k` changes, and the name's place in it does not. */
  lemma {:induction false} OneSegmentChanged(segs: seq<Segment>, k: nat, s: Segment, from: nat, name: Name)
    requires k < |segs| && PlaceIn(s.ents, k, s.stfile, name) == PlaceIn(segs[k].ents, k, segs[k].stfile, name)
    ensures PlaceFrom(segs[k := s], from, name) == PlaceFrom(segs, from, name)
    decreases |segs| - from
  {
    if from < |segs| {
      OneSegmentChanged(segs, k, s, from + 1, name);
    }
  }
  // ---------------------------------------------------------------- what each step keeps

  lemma OnePlace(e: Ent, seg: nat, at: nat, name: Name)
    ensures PlaceIn([e], seg, at, name) == if Named(e, name) then Place(seg, at, e.len) else Nowhere
    ensures Blocks([e]) == e.len
  {
    assert [e][1..] == [];
  }

  lemma TwoPlaces(e: Ent, f: Ent, seg: nat, at: nat, name: Name)
    requires !Named(e, name) && !Named(f, name)
    ensures PlaceIn([e, f], seg, at, name) == Nowhere && Blocks([e, f]) == e.len + f.len
  {
    assert [e, f][1..] == [f];
    OnePlace(f, seg, at + e.len, name);
  }

  /** Entry `i` and those it becomes are of the same length, and neither is a file of that name. */
  lemma EntryChanged(ents: seq<Ent>, i: nat, m: seq<Ent>, seg: nat, at: nat, name: Name)
    requires i < |ents| && !Named(ents[i], name) && Blocks(m) == ents[i].len
    requires PlaceIn(m, seg, at + Blocks(ents[..i]), name) == Nowhere
    ensures PlaceIn(ents[..i] + m + ents[i + 1..], seg, at, name) == PlaceIn(ents, seg, at, name)
    ensures Blocks(ents[..i] + m + ents[i + 1..]) == Blocks(ents)
  {
    assert ents == ents[..i] + [ents[i]] + ents[i + 1..];
    OnePlace(ents[i], seg, at + Blocks(ents[..i]), name);
    PlaceKept(ents[..i], [ents[i]], m, ents[i + 1..], seg, at, name);
  }

  /** The entries with a file at entry `i`, and what is left of the free space behind it. */
  function Added(ents: seq<Ent>, i: nat, count: nat, name: Name): seq<Ent>
    requires i < |ents| && count <= ents[i].len
  {
    var file := Ent(File, name, count);
    if ents[i].len == count then ents[..i] + [file] + ents[i + 1..]
    else ents[..i] + [file, ents[i].(len := ents[i].len - count)] + ents[i + 1..]
  }

  /** `mkent` leaves every other file where it was, and the segment's total. */
  lemma AddedKeeps(ents: seq<Ent>, i: nat, count: nat, name: Name, seg: nat, at: nat, other: Name)
    requires i < |ents| && count <= ents[i].len && ents[i].stat == Null && other != name
    ensures PlaceIn(Added(ents, i, count, name), seg, at, other) == PlaceIn(ents, seg, at, other)
    ensures Blocks(Added(ents, i, count, name)) == Blocks(ents)
  {
    var file, rest := Ent(File, name, count), ents[i].(len := ents[i].len - count);
    var b := at + Blocks(ents[..i]);
    if ents[i].len == count {
      OnePlace(file, seg, b, other);
      EntryChanged(ents, i, [file], seg, at, other);
    } else {
      TwoPlaces(file, rest, seg, b, other);
      EntryChanged(ents, i, [file, rest], seg, at, other);
    }
  }

  /** The same total, whatever the names. */
  lemma AddedBlocks(ents: seq<Ent>, i: nat, count: nat, name: Name)
    requires i < |ents| && count <= ents[i].len
    ensures Blocks(Added(ents, i, count, name)) == Blocks(ents)
  {
    var file, rest := Ent(File, name, count), ents[i].(len := ents[i].len - count);
    if ents[i].len == count {
      assert [file][1..] == [];
      ChangedBlocks(ents, i, [file]);
    } else {
      assert [file, rest][1..] == [rest] && [rest][1..] == [] && Blocks([rest]) == rest.len;
      ChangedBlocks(ents, i, [file, rest]);
    }
  }

  lemma ChangedBlocks(ents: seq<Ent>, i: nat, m: seq<Ent>)
    requires i < |ents| && Blocks(m) == ents[i].len
    ensures Blocks(ents[..i] + m + ents[i + 1..]) == Blocks(ents)
  {
    assert ents == ents[..i] + [ents[i]] + ents[i + 1..];
    assert [ents[i]][1..] == [];
    BlocksOfParts(ents[..i] + [ents[i]], ents[i + 1..]);
    BlocksOfParts(ents[..i], [ents[i]]);
    BlocksOfParts(ents[..i] + m, ents[i + 1..]);
    BlocksOfParts(ents[..i], m);
  }

  /** The new file lies where the free space began. */
  lemma AddedFound(ents: seq<Ent>, i: nat, count: nat, name: Name, seg: nat, at: nat)
    requires i < |ents| && count <= ents[i].len && forall j: nat | j < |ents| :: !Named(ents[j], name)
    ensures PlaceIn(Added(ents, i, count, name), seg, at, name) == Place(seg, at + Blocks(ents[..i]), count)
  {
    var r := Added(ents, i, count, name);
    assert r[..i] == ents[..i];
    assert FirstAt(r, name, i);
    PlaceOfFirst(r, seg, at, name, i);
  }

  function Removed(ents: seq<Ent>, i: nat): seq<Ent>
    requires i < |ents|
  {
    ents[i := Ent(Null, NO_NAME, ents[i].len)]
  }

  lemma RemovedKeeps(ents: seq<Ent>, i: nat, name: Name, seg: nat, at: nat, other: Name)
    requires i < |ents| && Named(ents[i], name) && other != name
    ensures PlaceIn(Removed(ents, i), seg, at, other) == PlaceIn(ents, seg, at, other)
    ensures Blocks(Removed(ents, i)) == Blocks(ents)
  {
    var e := Ent(Null, NO_NAME, ents[i].len);
    assert Removed(ents, i) == ents[..i] + [e] + ents[i + 1..];
    OnePlace(e, seg, at + Blocks(ents[..i]), other);
    EntryChanged(ents, i, [e], seg, at, other);
  }

  lemma RemovedBlocks(ents: seq<Ent>, i: nat)
    requires i < |ents|
    ensures Blocks(Removed(ents, i)) == Blocks(ents)
  {
    var e := Ent(Null, NO_NAME, ents[i].len);
    assert Removed(ents, i) == ents[..i] + [e] + ents[i + 1..];
    assert [e][1..] == [];
    ChangedBlocks(ents, i, [e]);
  }

  /** Two free entries made one. */
  function Merged(ents: seq<Ent>, i: nat): seq<Ent>
    requires i + 1 < |ents|
  {
    ents[..i] + [ents[i + 1].(len := ents[i].len + ents[i + 1].len)] + ents[i + 2..]
  }

  lemma MergedKeeps(ents: seq<Ent>, i: nat, seg: nat, at: nat, name: Name)
    requires i + 1 < |ents| && ents[i].stat == Null && ents[i + 1].stat == Null
    ensures PlaceIn(Merged(ents, i), seg, at, name) == PlaceIn(ents, seg, at, name)
    ensures Blocks(Merged(ents, i)) == Blocks(ents)
  {
    var e, f := ents[i], ents[i + 1];
    var g := f.(len := e.len + f.len);
    assert ents == ents[..i] + [e, f] + ents[i + 2..];
    TwoPlaces(e, f, seg, at + Blocks(ents[..i]), name);
    OnePlace(g, seg, at + Blocks(ents[..i]), name);
    PlaceKept(ents[..i], [e, f], [g], ents[i + 2..], seg, at, name);
  }

  ghost predicate PlaceSame(a: seq<Ent>, b: seq<Ent>, seg: nat, at: nat, name: Name)
  {
    PlaceIn(b, seg, at, name) == PlaceIn(a, seg, at, name)
  }

  ghost predicate FreePair(ents: seq<Ent>, j: nat)
  {
    j + 1 < |ents| && ents[j].stat == Null && ents[j + 1].stat == Null
  }

  ghost predicate NoPairBefore(ents: seq<Ent>, n: nat, j: nat)
  {
    j < n ==> !FreePair(ents, j)
  }

  /** The loop of `scrunch` over one segment. */
  method ScrunchSegment(ents: seq<Ent>, ghost seg: nat, ghost at: nat) returns (r: seq<Ent>)
    ensures |r| <= |ents| && Blocks(r) == Blocks(ents)
    ensures forall name: Name :: PlaceSame(ents, r, seg, at, name)
    ensures forall j: nat :: !FreePair(r, j)
  {
    r := ents;
    var de := 0;
    while de < |r|
      invariant de <= |r| <= |ents| && Blocks(r) == Blocks(ents)
      invariant forall name: Name :: PlaceSame(ents, r, seg, at, name)
      invariant forall j: nat :: NoPairBefore(r, de, j)
      decreases 2 * |r| - de
    {
      ghost var was, d := r, de;
      if de + 1 < |r| && r[de].stat == Null && r[de + 1].stat == Null {
        r := Merged(r, de);
        MergedBlocks(was, d);
        forall name: Name ensures PlaceSame(ents, r, seg, at, name) {
          MergedKeeps(was, d, seg, at, name);
          assert PlaceSame(ents, was, seg, at, name);
        }
        forall j: nat ensures NoPairBefore(r, d, j) {
          assert NoPairBefore(was, d, j);
        }
      } else {
        de := de + 1;
        ghost var n := de;
        forall j: nat ensures NoPairBefore(r, n, j) {
          assert NoPairBefore(was, d, j);
        }
      }
    }
    forall j: nat ensures !FreePair(r, j) {
      assert NoPairBefore(r, de, j);
    }
  }

  lemma MergedBlocks(ents: seq<Ent>, i: nat)
    requires i + 1 < |ents| && ents[i].stat == Null && ents[i + 1].stat == Null
    ensures Blocks(Merged(ents, i)) == Blocks(ents)
  {
    MergedKeeps(ents, i, 0, 0, NO_NAME);
  }
  // ---------------------------------------------------------------- the directory

  /** What becomes of a request to write a file. */
  datatype Written = Reused | Appended | TooBig | SegmentFull | NoSlot

  ghost predicate RoomAt(segs: seq<Segment>, k: nat)
  {
    k < |segs| ==> |segs[k].ents| <= segs[k].room
  }

  ghost predicate TotalSame(segs: seq<Segment>, segs': seq<Segment>, k: nat)
  {
    k < |segs| && k < |segs'| ==>
      Blocks(segs'[k].ents) == Blocks(segs[k].ents) && segs'[k].stfile == segs[k].stfile && segs'[k].room == segs[k].room
  }

  /** The segments are the same in number, place and total length. */
  ghost predicate TotalsSame(segs: seq<Segment>, segs': seq<Segment>)
  {
    |segs'| == |segs| && forall k: nat :: TotalSame(segs, segs', k)
  }

  ghost predicate PlacesSame(segs: seq<Segment>, segs': seq<Segment>, name: Name)
  {
    PlaceFrom(segs', 0, name) == PlaceFrom(segs, 0, name)
  }

  lemma {:induction false} AbsentFrom(segs: seq<Segment>, k: nat, name: Name)
    requires forall j: nat | k <= j < |segs| :: PlaceIn(segs[j].ents, j, segs[j].stfile, name) == Nowhere
    ensures PlaceFrom(segs, k, name) == Nowhere
    decreases |segs| - k
  {
    if k < |segs| {
      AbsentFrom(segs, k + 1, name);
    }
  }

  ghost predicate HasNone(ents: seq<Ent>, name: Name, n: nat, j: nat)
  {
    j < n && j < |ents| ==> !Named(ents[j], name)
  }

  ghost predicate NoneNamed(ents: seq<Ent>, name: Name)
  {
    forall j: nat :: HasNone(ents, name, |ents|, j)
  }

  ghost predicate NoneIn(segs: seq<Segment>, name: Name, n: nat, k: nat)
  {
    k < n && k < |segs| ==> NoneNamed(segs[k].ents, name)
  }

  lemma NoneNamedPlace(ents: seq<Ent>, seg: nat, at: nat, name: Name)
    requires NoneNamed(ents, name)
    ensures PlaceIn(ents, seg, at, name) == Nowhere
  {
    forall j: nat | j < |ents| ensures !Named(ents[j], name) {
      assert HasNone(ents, name, |ents|, j);
    }
    NoPlace(ents, seg, at, name);
  }

  /** The file's place, when segments before `k` have no file of that name and `i` is the first in it. */
  lemma {:induction false} FoundIn(segs: seq<Segment>, from: nat, k: nat, i: nat, name: Name)
    requires from <= k < |segs| && FirstAt(segs[k].ents, name, i) && forall j: nat :: NoneIn(segs, name, k, j)
    ensures PlaceFrom(segs, from, name) == Place(k, StartOf(segs[k], i), segs[k].ents[i].len)
    decreases k - from
  {
    if from == k {
      PlaceOfFirst(segs[k].ents, k, segs[k].stfile, name, i);
    } else {
      assert NoneIn(segs, name, k, from);
      NoneNamedPlace(segs[from].ents, from, segs[from].stfile, name);
      FoundIn(segs, from + 1, k, i, name);
    }
  }

  lemma NotFound(segs: seq<Segment>, name: Name)
    requires forall k: nat :: NoneIn(segs, name, |segs|, k)
    ensures PlaceFrom(segs, 0, name) == Nowhere
  {
    forall k: nat | k < |segs| ensures PlaceIn(segs[k].ents, k, segs[k].stfile, name) == Nowhere {
      assert NoneIn(segs, name, |segs|, k);
      NoneNamedPlace(segs[k].ents, k, segs[k].stfile, name);
    }
    AbsentFrom(segs, 0, name);
  }

  /** One segment's entries change to others of the same total. */
  lemma SegmentTotals(segs: seq<Segment>, k: nat, ents: seq<Ent>)
    requires k < |segs| && Blocks(ents) == Blocks(segs[k].ents)
    ensures TotalsSame(segs, segs[k := segs[k].(ents := ents)])
  {
    var segs' := segs[k := segs[k].(ents := ents)];
    forall j: nat ensures TotalSame(segs, segs', j) {
    }
  }

  /** `(size - 1 >> 9) + 1`: the blocks a file takes; none if it is empty. */
  function CountOf(size: nat): nat
  {
    if size == 0 then 0 else (size - 1) / BLOCK + 1
  }

  lemma CountFits(size: nat, len: nat)
    requires size <= len * BLOCK
    ensures CountOf(size) <= len && size <= CountOf(size) * BLOCK
  {
  }

  lemma NoneChanged(segs: seq<Segment>, name: Name)
    ensures TotalsSame(segs, segs) && OthersStay(segs, segs, name)
  {
    forall k: nat ensures TotalSame(segs, segs, k) {
    }
    forall other: Name ensures OtherStays(segs, segs, name, other) {
    }
  }

  lemma NothingChanged(segs: seq<Segment>)
    ensures TotalsSame(segs, segs) && forall name: Name :: PlacesSame(segs, segs, name)
  {
    forall k: nat ensures TotalSame(segs, segs, k) {
    }
    forall name: Name ensures PlacesSame(segs, segs, name) {
    }
  }

  /** Entry `i` of segment `k`, the first of that name there, has become free. */
  ghost predicate RemovedAt(was: seq<Segment>, now: seq<Segment>, name: Name, k: nat, i: nat)
  {
    && k < |was| && FirstAt(was[k].ents, name, i)
    && PlaceFrom(was, 0, name) == Place(k, StartOf(was[k], i), was[k].ents[i].len)
    && now == was[k := was[k].(ents := Removed(was[k].ents, i))]
  }

  /** The file lies at the start of what was free entry `i` of segment `k`. */
  ghost predicate AppendedAt(was: seq<Segment>, now: seq<Segment>, name: Name, count: nat, k: nat, i: nat)
  {
    && k < |was| && i < |was[k].ents| && was[k].ents[i].stat == Null && count <= was[k].ents[i].len
    && now == was[k := was[k].(ents := Added(was[k].ents, i, count, name))]
    && PlaceFrom(now, 0, name) == Place(k, StartOf(was[k], i), count)
  }

  lemma AppendedKeeps(was: seq<Segment>, k: nat, i: nat, count: nat, name: Name)
    requires k < |was| && i < |was[k].ents| && was[k].ents[i].stat == Null && count <= was[k].ents[i].len
    requires forall j: nat :: NoneIn(was, name, |was|, j)
    ensures var now := was[k := was[k].(ents := Added(was[k].ents, i, count, name))];
            TotalsSame(was, now) && OthersStay(was, now, name) && AppendedAt(was, now, name, count, k, i)
  {
    var ents := was[k].ents;
    var now := was[k := was[k].(ents := Added(ents, i, count, name))];
    AddedBlocks(ents, i, count, name);
    SegmentTotals(was, k, Added(ents, i, count, name));
    forall other: Name ensures OtherStays(was, now, name, other) {
      if other != name {
        AddedKeeps(ents, i, count, name, k, was[k].stfile, other);
        OneSegmentChanged(was, k, now[k], 0, other);
      }
    }
    assert NoneIn(was, name, |was|, k);
    forall j: nat | j < |ents| ensures !Named(ents[j], name) {
      assert HasNone(ents, name, |ents|, j);
    }
    var r := Added(ents, i, count, name);
    assert r[..i] == ents[..i];
    assert FirstAt(now[k].ents, name, i);
    forall j: nat ensures NoneIn(now, name, k, j) {
      assert NoneIn(was, name, |was|, j);
    }
    FoundIn(now, 0, k, i, name);
  }

  ghost predicate NoPairIn(segs: seq<Segment>, n: nat, k: nat, j: nat)
  {
    k < n && k < |segs| ==> !FreePair(segs[k].ents, j)
  }

  /** One more segment is scrunched. */
  lemma ScrunchedOne(was: seq<Segment>, before: seq<Segment>, k: nat, ents: seq<Ent>, next: nat, now: seq<Segment>)
    requires k < |before| && next == k + 1 && now == before[k := before[k].(ents := ents)]
    requires TotalsSame(was, before) && Blocks(ents) == Blocks(before[k].ents) && |ents| <= |before[k].ents|
    requires forall name: Name :: PlacesSame(was, before, name)
    requires forall name: Name :: PlaceSame(before[k].ents, ents, k, before[k].stfile, name)
    requires forall j: nat :: !FreePair(ents, j)
    requires forall i: nat, j: nat :: NoPairIn(before, k, i, j)
    requires forall j: nat :: RoomAt(before, j)
    ensures TotalsSame(was, now) && forall name: Name :: PlacesSame(was, now, name)
    ensures (forall i: nat, j: nat :: NoPairIn(now, next, i, j)) && forall j: nat :: RoomAt(now, j)
  {
    forall j: nat ensures TotalSame(was, now, j) {
      assert TotalSame(was, before, j);
    }
    forall name: Name ensures PlacesSame(was, now, name) {
      assert PlacesSame(was, before, name) && PlaceSame(before[k].ents, ents, k, before[k].stfile, name);
      OneSegmentChanged(before, k, now[k], 0, name);
    }
    forall i: nat, j: nat ensures NoPairIn(now, next, i, j) {
      assert NoPairIn(before, k, i, j);
    }
    forall j: nat ensures RoomAt(now, j) {
      assert RoomAt(before, j);
    }
  }

  function SegEnts(segs: seq<Segment>, k: nat): seq<Ent>
  {
    if k < |segs| then segs[k].ents else []
  }

  /** Entry `i` of segment `k` is not free, or too small. */
  ghost predicate NoSlotAt(segs: seq<Segment>, size: nat, n: nat, m: nat, k: nat, i: nat)
  {
    k < n && k < |segs| && i < m && i < |segs[k].ents| && segs[k].ents[i].stat == Null ==>
      size > segs[k].ents[i].len * BLOCK
  }

  ghost predicate EarlierAt(segs: seq<Segment>, size: nat, k: nat, i: nat, g: nat, j: nat)
  {
    (g < k || (g == k && j < i)) && g < |segs| && j < |segs[g].ents| && segs[g].ents[j].stat == Null ==>
      size > segs[g].ents[j].len * BLOCK
  }

  /** Entry `i` of segment `k` is the first free one that is large enough. */
  ghost predicate FirstSlot(segs: seq<Segment>, size: nat, k: nat, i: nat)
  {
    && k < |segs| && i < |segs[k].ents| && segs[k].ents[i].stat == Null && size <= segs[k].ents[i].len * BLOCK
    && forall g: nat, j: nat :: EarlierAt(segs, size, k, i, g, j)
  }

  /** The first one has no room for an entry behind it, for what would be left over. */
  ghost predicate NoRoomAt(segs: seq<Segment>, size: nat, k: nat, i: nat)
  {
    && FirstSlot(segs, size, k, i) && segs[k].ents[i].len != CountOf(size) && |segs[k].ents| >= segs[k].room
  }

  /** The search of `rtr` for a free entry. */
  method FindSlot(segs: seq<Segment>, size: nat) returns (k: nat, i: nat, found: bool)
    ensures found ==> FirstSlot(segs, size, k, i)
    ensures !found ==> forall g: nat, j: nat :: NoSlotAt(segs, size, |segs|, |SegEnts(segs, g)|, g, j)
  {
    k, i, found := 0, 0, false;
    while k < |segs|
      invariant k <= |segs| && forall g: nat, j: nat :: NoSlotAt(segs, size, k, |SegEnts(segs, g)|, g, j)
    {
      i := 0;
      while i < |segs[k].ents|
        invariant i <= |segs[k].ents| && forall j: nat :: NoSlotAt(segs, size, |segs|, i, k, j)
      {
        if segs[k].ents[i].stat == Null && size <= segs[k].ents[i].len * BLOCK {
          forall g: nat, j: nat ensures EarlierAt(segs, size, k, i, g, j) {
            assert NoSlotAt(segs, size, k, |SegEnts(segs, g)|, g, j) && NoSlotAt(segs, size, |segs|, i, k, j);
          }
          return k, i, true;
        }
        ghost var next := i + 1;
        forall j: nat ensures NoSlotAt(segs, size, |segs|, next, k, j) {
          assert NoSlotAt(segs, size, |segs|, i, k, j);
        }
        i := i + 1;
      }
      ghost var next := k + 1;
      forall g: nat, j: nat ensures NoSlotAt(segs, size, next, |SegEnts(segs, g)|, g, j) {
        assert NoSlotAt(segs, size, k, |SegEnts(segs, g)|, g, j) && NoSlotAt(segs, size, |segs|, i, k, j);
      }
      k := k + 1;
    }
  }

  class Directory {
    var segs: seq<Segment>

    ghost predicate Valid()
      reads this
    {
      forall k: nat :: RoomAt(segs, k)
    }

    /** `lookup`: the first entry of that name, its place found by adding up the lengths before it. */
    method Lookup(name: Name) returns (d: Dope)
      ensures Answers(segs, name, d)
      ensures d == Absent ==> forall k: nat :: NoneIn(segs, name, |segs|, k)
    {
      var segnum := 0;
      while segnum < |segs|
        invariant segnum <= |segs| && forall k: nat :: NoneIn(segs, name, segnum, k)
      {
        var ents, index, de := segs[segnum].ents, 0, 0;
        assert ents[..0] == [];
        while de < |ents|
          invariant de <= |ents| && index == Blocks(ents[..de])
          invariant forall j: nat :: HasNone(ents, name, de, j)
        {
          if Named(ents[de], name) {
            forall j: nat | j < de ensures !Named(ents[j], name) {
              assert HasNone(ents, name, de, j);
            }
            FoundIn(segs, 0, segnum, de, name);
            return Dope(segnum, de, BLOCK * (segs[segnum].stfile + index), ents[de].len * BLOCK);
          }
          BlocksOfParts(ents[..de], [ents[de]]);
          OnePlace(ents[de], 0, 0, name);
          assert ents[..de + 1] == ents[..de] + [ents[de]];
          index := index + ents[de].len;
          ghost var next := de + 1;
          forall j: nat ensures HasNone(ents, name, next, j) {
            assert HasNone(ents, name, de, j);
          }
          de := de + 1;
        }
        ghost var next := segnum + 1;
        forall k: nat ensures NoneIn(segs, name, next, k) {
          assert NoneIn(segs, name, segnum, k);
        }
        segnum := segnum + 1;
      }
      NotFound(segs, name);
      return Absent;
    }

    /** The loop of `mkent` that copies entries up: there is one more, entries `i` and `i + 1` alike. */
    method CopyUp(ents: seq<Ent>, i: nat) returns (r: seq<Ent>)
      requires i < |ents|
      ensures r == ents[..i + 1] + ents[i..]
    {
      r := ents + [ents[|ents| - 1]];
      var workp := |ents| - 1;
      while workp > i
        invariant i <= workp < |ents| && |r| == |ents| + 1
        invariant forall j :: 0 <= j <= workp ==> r[j] == ents[j]
        invariant forall j :: workp < j <= |ents| ==> r[j] == ents[j - 1]
      {
        r := r[workp := r[workp - 1]];
        workp := workp - 1;
      }
      var s := ents[..i + 1] + ents[i..];
      assert forall j :: 0 <= j <= |ents| ==> r[j] == s[j];
    }

    /** `mkent`: a file in the free entry `de`, the rest of it free behind; but a full segment ends
        the program. */
    method MkEnt(segnum: nat, de: nat, count: nat, name: Name) returns (ok: bool)
      requires Valid() && segnum < |segs| && de < |segs[segnum].ents| && segs[segnum].ents[de].stat == Null
      requires count <= segs[segnum].ents[de].len
      modifies this
      ensures Valid()
      ensures ok == (old(segs)[segnum].ents[de].len == count || |old(segs)[segnum].ents| < old(segs)[segnum].room)
      ensures segs == if ok then old(segs)[segnum := old(segs)[segnum].(ents := Added(old(segs)[segnum].ents, de, count, name))]
                      else old(segs)
    {
      var s := segs[segnum];
      var ents := s.ents;
      assert RoomAt(segs, segnum);
      if ents[de].len != count {
        if |ents| == s.room {
          return false;
        }
        ents := CopyUp(ents, de);
        ents := ents[de + 1 := ents[de + 1].(len := ents[de + 1].len - count)];
      }
      ents := ents[de := Ent(File, name, count)];
      assert ents == Added(s.ents, de, count, name);
      ghost var was := segs;
      segs := segs[segnum := s.(ents := ents)];
      forall k: nat ensures RoomAt(segs, k) {
        assert RoomAt(was, k);
      }
      return true;
    }

    /** `rtk`: the file's entry becomes free. */
    method Rtk(name: Name) returns (found: bool)
      requires Valid()
      modifies this
      ensures Valid() && TotalsSame(old(segs), segs) && OthersStay(old(segs), segs, name)
      ensures found == (PlaceFrom(old(segs), 0, name) != Nowhere)
      ensures !found ==> segs == old(segs)
      ensures found ==> exists k: nat, i: nat :: RemovedAt(old(segs), segs, name, k, i)
    {
      var d := Lookup(name);
      if d.Absent? {
        NoneChanged(segs, name);
        return false;
      }
      var k, i, was := d.seg, d.ent, segs;
      var ents := was[k].ents;
      RemovedBlocks(ents, i);
      SegmentTotals(was, k, Removed(ents, i));
      segs := segs[k := segs[k].(ents := Removed(ents, i))];
      forall other: Name ensures OtherStays(was, segs, name, other) {
        if other != name {
          RemovedKeeps(ents, i, name, k, was[k].stfile, other);
          OneSegmentChanged(was, k, segs[k], 0, other);
        }
      }
      forall j: nat ensures RoomAt(segs, j) {
        assert RoomAt(was, j);
      }
      assert RemovedAt(was, segs, name, k, i);
      return true;
    }

    /** `scrunch`: free entries that meet become one. */
    method Scrunch()
      requires Valid()
      modifies this
      ensures Valid() && TotalsSame(old(segs), segs)
      ensures forall name: Name :: PlacesSame(old(segs), segs, name)
      ensures forall k: nat, j: nat :: NoPairIn(segs, |segs|, k, j)
    {
      ghost var was := segs;
      NothingChanged(was);
      var segnum := 0;
      while segnum < |segs|
        invariant Valid() && segnum <= |segs| && TotalsSame(was, segs)
        invariant forall name: Name :: PlacesSame(was, segs, name)
        invariant forall k: nat, j: nat :: NoPairIn(segs, segnum, k, j)
      {
        ghost var before := segs;
        var ents := ScrunchSegment(segs[segnum].ents, segnum, segs[segnum].stfile);
        segs := segs[segnum := segs[segnum].(ents := ents)];
        ScrunchedOne(was, before, segnum, ents, segnum + 1, segs);
        segnum := segnum + 1;
      }
    }

    /** `rtr`, as far as the directory goes: a file of that name is reused if the new one fits;
        else the first free entry that is large enough is taken. */
    method Rtr(name: Name, size: nat) returns (w: Written)
      requires Valid()
      modifies this
      ensures Valid() && TotalsSame(old(segs), segs) && OthersStay(old(segs), segs, name)
      ensures w.Reused? || w.TooBig? <==> PlaceFrom(old(segs), 0, name) != Nowhere
      ensures !w.Appended? ==> segs == old(segs)
      ensures w.Reused? ==> size <= PlaceFrom(segs, 0, name).len * BLOCK
      ensures w.TooBig? ==> size > PlaceFrom(segs, 0, name).len * BLOCK
      ensures w.Appended? ==>
                exists k: nat, i: nat :: FirstSlot(old(segs), size, k, i) && AppendedAt(old(segs), segs, name, CountOf(size), k, i)
      ensures w.SegmentFull? ==> exists k: nat, i: nat :: NoRoomAt(segs, size, k, i)
      ensures w.NoSlot? ==> forall k: nat, i: nat :: NoSlotAt(segs, size, |segs|, |SegEnts(segs, k)|, k, i)
    {
      ghost var was := segs;
      NoneChanged(was, name);
      var d := Lookup(name);
      if d.Dope? {
        return if size <= d.count then Reused else TooBig;
      }
      var k, i, found := FindSlot(segs, size);
      if !found {
        return NoSlot;
      }
      CountFits(size, segs[k].ents[i].len);
      var ok := MkEnt(k, i, CountOf(size), name);
      if !ok {
        assert NoRoomAt(segs, size, k, i);
        return SegmentFull;
      }
      AppendedKeeps(was, k, i, CountOf(size), name);
      assert AppendedAt(was, segs, name, CountOf(size), k, i);
      return Appended;
    }
  }
}
