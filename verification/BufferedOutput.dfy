/** The buffered writers of bin/ld.c that share one file: `bopen`, `bwrite`, `bputc`, `bflush`. */
module BufferedOutput {

  const BUFSIZ: nat := 1024

  /** `biobuf`: free space, the bytes stuffed so far, and where in the file they belong. */
  datatype Biobuf = Biobuf(nleft: nat, data: seq<nat>, off: nat)

  // ---------------------------------------------------------------- the file

  /** What `write` makes of a file: holes read as zero. */
  function Patch(file: seq<nat>, pos: nat, data: seq<nat>): (r: seq<nat>)
    ensures |r| == if pos + |data| > |file| then pos + |data| else |file|
    ensures forall k :: 0 <= k < |data| ==> r[pos + k] == data[k]
    ensures forall k :: 0 <= k < |file| && (k < pos || pos + |data| <= k) ==> r[k] == file[k]
  {
    var front := if pos <= |file| then file[..pos] else file + seq(pos - |file|, _ => 0);
    var back := if pos + |data| <= |file| then file[pos + |data|..] else [];
    front + data + back
  }

  ghost predicate ByteAt(file: seq<nat>, start: nat, text: seq<nat>, n: nat, k: nat)
  {
    k < n && k < |text| ==> start + k < |file| && file[start + k] == text[k]
  }

  /** The first `n` bytes of `text` are in the file from `start` on. */
  ghost predicate InFile(file: seq<nat>, start: nat, text: seq<nat>, n: nat)
  {
    forall k: nat :: ByteAt(file, start, text, n, k)
  }

  // ---------------------------------------------------------------- one stream

  /** A stream: where it starts, how much room it has, and every byte written to it. */
  datatype Stream = Stream(start: nat, room: nat, text: seq<nat>)

  /** The file has the stream's bytes up to the buffer's place, the buffer the others. */
  ghost predicate StreamOk(file: seq<nat>, b: Biobuf, s: Stream)
  {
    && s.start <= b.off && b.off - s.start + |b.data| == |s.text| <= s.room
    && b.data == s.text[b.off - s.start..]
    && InFile(file, s.start, s.text, b.off - s.start)
    && b.nleft + |b.data| <= BUFSIZ && (b.nleft == 0 ==> b.data != [])
  }

  /** The buffer gets full at a block boundary of the file. */
  predicate Aligned(b: Biobuf)
  {
    (b.off + |b.data| + b.nleft) % BUFSIZ == 0
  }

  ghost predicate Apart(s: Stream, s': Stream)
  {
    s.start + s.room <= s'.start || s'.start + s'.room <= s.start
  }

  lemma StuffKeeps(file: seq<nat>, b: Biobuf, s: Stream, p: seq<nat>)
    requires StreamOk(file, b, s) && |p| <= b.nleft && p != [] && |s.text| + |p| <= s.room
    ensures StreamOk(file, b.(nleft := b.nleft - |p|, data := b.data + p), s.(text := s.text + p))
  {
    var s', n := s.(text := s.text + p), b.off - s.start;
    forall k: nat ensures ByteAt(file, s.start, s'.text, n, k) {
      assert ByteAt(file, s.start, s.text, n, k);
    }
  }

  /** Bytes that belong next in the file, written there. */
  lemma WrittenNext(file: seq<nat>, s: Stream, n: nat, data: seq<nat>)
    requires InFile(file, s.start, s.text, n) && n + |data| <= |s.text| && data == s.text[n..n + |data|]
    ensures InFile(Patch(file, s.start + n, data), s.start, s.text, n + |data|)
  {
    var m, file' := n + |data|, Patch(file, s.start + n, data);
    forall k: nat ensures ByteAt(file', s.start, s.text, m, k) {
      assert ByteAt(file, s.start, s.text, n, k);
      if n <= k < m {
        assert file'[s.start + n + (k - n)] == data[k - n];
      }
    }
  }

  lemma FlushKeeps(file: seq<nat>, b: Biobuf, s: Stream)
    requires StreamOk(file, b, s)
    ensures StreamOk(Patch(file, b.off, b.data), Biobuf(BUFSIZ, [], b.off + |b.data|), s)
    ensures Aligned(b) && b.nleft == 0 ==> Aligned(Biobuf(BUFSIZ, [], b.off + |b.data|))
  {
    WrittenNext(file, s, b.off - s.start, b.data);
  }

  /** Whole blocks that go to the file directly, past an empty buffer. */
  lemma DirectKeeps(file: seq<nat>, b: Biobuf, s: Stream, p: seq<nat>)
    requires StreamOk(file, b, s) && b.data == [] && |s.text| + |p| <= s.room
    ensures StreamOk(Patch(file, b.off, p), b.(off := b.off + |p|), s.(text := s.text + p))
    ensures Aligned(b) && |p| % BUFSIZ == 0 ==> Aligned(b.(off := b.off + |p|))
  {
    var s', n := s.(text := s.text + p), b.off - s.start;
    forall k: nat ensures ByteAt(file, s.start, s'.text, n, k) {
      assert ByteAt(file, s.start, s.text, n, k);
    }
    WrittenNext(file, s', n, p);
  }

  /** Bytes written inside one stream's room leave the other streams alone. */
  lemma OtherKept(file: seq<nat>, b: Biobuf, s: Stream, pos: nat, data: seq<nat>, own: Stream)
    requires StreamOk(file, b, s) && Apart(own, s) && own.start <= pos && pos + |data| <= own.start + own.room
    ensures StreamOk(Patch(file, pos, data), b, s)
  {
    var n, file' := b.off - s.start, Patch(file, pos, data);
    forall k: nat ensures ByteAt(file', s.start, s.text, n, k) {
      assert ByteAt(file, s.start, s.text, n, k);
    }
  }

  /** What lies outside a stream's room is as it was. */
  ghost predicate KeptAt(file: seq<nat>, file': seq<nat>, s: Stream, k: nat)
  {
    k < |file| && (k < s.start || s.start + s.room <= k) ==> k < |file'| && file'[k] == file[k]
  }

  ghost predicate KeptOutside(file: seq<nat>, file': seq<nat>, s: Stream)
  {
    |file| <= |file'| && forall k: nat :: KeptAt(file, file', s, k)
  }

  lemma KeptAgain(a: seq<nat>, b: seq<nat>, c: seq<nat>, s: Stream)
    requires KeptOutside(a, b, s) && KeptOutside(b, c, s)
    ensures KeptOutside(a, c, s)
  {
    forall k: nat ensures KeptAt(a, c, s, k) {
      assert KeptAt(a, b, s, k) && KeptAt(b, c, s, k);
    }
  }

  lemma PatchKeepsOutside(file: seq<nat>, pos: nat, data: seq<nat>, s: Stream)
    requires s.start <= pos && pos + |data| <= s.start + s.room
    ensures KeptOutside(file, Patch(file, pos, data), s)
  {
    forall k: nat ensures KeptAt(file, Patch(file, pos, data), s, k) {
    }
  }

  ghost predicate StreamAt(file: seq<nat>, bufs: seq<Biobuf>, streams: seq<Stream>, i: nat)
  {
    i < |bufs| && i < |streams| ==> StreamOk(file, bufs[i], streams[i])
  }

  ghost predicate ApartAt(streams: seq<Stream>, i: nat, j: nat)
  {
    i < j < |streams| ==> Apart(streams[i], streams[j])
  }

  ghost predicate AllOk(file: seq<nat>, bufs: seq<Biobuf>, streams: seq<Stream>)
  {
    && |bufs| == |streams|
    && (forall i: nat :: StreamAt(file, bufs, streams, i))
    && (forall i: nat, j: nat :: ApartAt(streams, i, j))
  }

  /** A step of stream `i` that writes only inside its room keeps every stream. */
  lemma StepKeepsAll(file: seq<nat>, bufs: seq<Biobuf>, streams: seq<Stream>, i: nat, b: Biobuf, s: Stream,
                     pos: nat, data: seq<nat>, file': seq<nat>)
    requires AllOk(file, bufs, streams) && i < |bufs|
    requires s.start == streams[i].start && s.room == streams[i].room
    requires data == [] ==> file' == file
    requires data != [] ==> s.start <= pos && pos + |data| <= s.start + s.room && file' == Patch(file, pos, data)
    requires StreamOk(file', b, s)
    ensures AllOk(file', bufs[i := b], streams[i := s])
  {
    var bufs', streams' := bufs[i := b], streams[i := s];
    forall j: nat ensures StreamAt(file', bufs', streams', j) {
      assert StreamAt(file, bufs, streams, j) && ApartAt(streams, i, j) && ApartAt(streams, j, i);
      if j < |bufs| && j != i && data != [] {
        OtherKept(file, bufs[j], streams[j], pos, data, s);
      }
    }
    forall j: nat, k: nat ensures ApartAt(streams', j, k) {
      assert ApartAt(streams, j, k);
    }
  }

  class BioFile {
    var file: seq<nat>
    var pos: nat
    var boffset: nat
    var bufs: seq<Biobuf>
    ghost var streams: seq<Stream>

    /** The remembered position is the real one, and every stream is in order. */
    ghost predicate Valid()
      reads this
    {
      pos == boffset && AllOk(file, bufs, streams)
    }

    constructor ()
      ensures Valid() && file == [] && streams == []
    {
      file, pos, boffset, bufs, streams := [], 0, 0, [], [];
    }

    /** `bopen`: a stream from `off` on, with room for `room` bytes. */
    method BOpen(off: nat, ghost room: nat) returns (i: nat)
      requires Valid() && forall j: nat | j < |streams| :: Apart(streams[j], Stream(off, room, []))
      modifies `bufs, `streams
      ensures Valid() && i == |old(streams)| && streams == old(streams) + [Stream(off, room, [])]
      ensures |bufs| == i + 1 && bufs[..i] == old(bufs) && Aligned(bufs[i])
    {
      i := |bufs|;
      ghost var bufs0, streams0 := bufs, streams;
      bufs := bufs + [Biobuf(BUFSIZ - off % BUFSIZ, [], off)];
      streams := streams + [Stream(off, room, [])];
      forall j: nat ensures StreamAt(file, bufs, streams, j) {
        assert StreamAt(file, bufs0, streams0, j);
        if j == i {
          forall k: nat ensures ByteAt(file, off, [], 0, k) {
          }
        }
      }
      forall j: nat, k: nat ensures ApartAt(streams, j, k) {
        assert ApartAt(streams0, j, k);
      }
    }

    /** `lseek`, if the position is not the buffer's, and `write`. */
    method WriteAt(off: nat, data: seq<nat>)
      requires pos == boffset
      modifies `file, `pos, `boffset
      ensures file == Patch(old(file), off, data) && pos == boffset == off + |data|
    {
      if boffset != off {
        pos := off;
      }
      file := Patch(file, pos, data);
      pos := pos + |data|;
      boffset := off + |data|;
    }

    /** `bflush1`: the buffer's bytes go to their place in the file. */
    method BFlush1(i: nat)
      requires Valid() && i < |bufs|
      modifies `file, `pos, `boffset, `bufs
      ensures Valid() && KeptOutside(old(file), file, streams[i])
      ensures bufs == old(bufs)[i := bufs[i]] && bufs[i].data == []
      ensures old(bufs)[i].nleft == 0 ==> bufs[i].nleft == BUFSIZ
      ensures old(bufs)[i].nleft == 0 && Aligned(old(bufs)[i]) ==> Aligned(bufs[i])
    {
      assert StreamAt(file, bufs, streams, i);
      var b := bufs[i];
      if b.data == [] {
        KeptSame(file, streams[i]);
        return;
      }
      FlushKeeps(file, b, streams[i]);
      var b' := Biobuf(BUFSIZ, [], b.off + |b.data|);
      StepKeepsAll(file, bufs, streams, i, b', streams[i], b.off, b.data, Patch(file, b.off, b.data));
      PatchKeepsOutside(file, b.off, b.data, streams[i]);
      assert streams[i := streams[i]] == streams;
      WriteAt(b.off, b.data);
      bufs := bufs[i := b'];
    }

    /** Bytes for which the buffer has room. */
    method Stuff(i: nat, p: seq<nat>)
      requires Valid() && i < |bufs| && p != [] && |p| <= bufs[i].nleft
      requires |streams[i].text| + |p| <= streams[i].room
      modifies `bufs, `streams
      ensures Valid() && streams == old(streams)[i := old(streams)[i].(text := old(streams)[i].text + p)]
      ensures bufs == old(bufs)[i := bufs[i]] && (Aligned(old(bufs)[i]) ==> Aligned(bufs[i]))
    {
      assert StreamAt(file, bufs, streams, i);
      var b := bufs[i];
      var b' := b.(nleft := b.nleft - |p|, data := b.data + p);
      ghost var s' := streams[i].(text := streams[i].text + p);
      StuffKeeps(file, b, streams[i], p);
      StepKeepsAll(file, bufs, streams, i, b', s', 0, [], file);
      bufs := bufs[i := b'];
      streams := streams[i := s'];
    }

    /** Whole blocks that pass by the empty buffer. */
    method Direct(i: nat, p: seq<nat>)
      requires Valid() && i < |bufs| && p != [] && |p| % BUFSIZ == 0 && bufs[i].data == []
      requires |streams[i].text| + |p| <= streams[i].room
      modifies `file, `pos, `boffset, `bufs, `streams
      ensures Valid() && streams == old(streams)[i := old(streams)[i].(text := old(streams)[i].text + p)]
      ensures bufs == old(bufs)[i := bufs[i]] && (Aligned(old(bufs)[i]) ==> Aligned(bufs[i]))
      ensures KeptOutside(old(file), file, streams[i])
    {
      assert StreamAt(file, bufs, streams, i);
      var b := bufs[i];
      var b' := b.(off := b.off + |p|);
      ghost var s' := streams[i].(text := streams[i].text + p);
      DirectKeeps(file, b, streams[i], p);
      StepKeepsAll(file, bufs, streams, i, b', s', b.off, p, Patch(file, b.off, p));
      PatchKeepsOutside(file, b.off, p, s');
      WriteAt(b.off, p);
      bufs := bufs[i := b'];
      streams := streams[i := s'];
    }

    /** One trip of `bwrite` round its label: how many bytes it has taken, perhaps none. */
    method Trip(i: nat, p: seq<nat>) returns (put: nat)
      requires Valid() && i < |bufs| && p != [] && |streams[i].text| + |p| <= streams[i].room
      modifies `file, `pos, `boffset, `bufs, `streams
      ensures Valid() && put <= |p|
      ensures streams == old(streams)[i := old(streams)[i].(text := old(streams)[i].text + p[..put])]
      ensures bufs == old(bufs)[i := bufs[i]] && (Aligned(old(bufs)[i]) ==> Aligned(bufs[i]))
      ensures put > 0 || (bufs[i].nleft > 0 && old(bufs)[i].nleft == 0)
      ensures KeptOutside(old(file), file, streams[i])
    {
      ghost var own := streams[i];
      KeptSame(file, own);
      if bufs[i].nleft > 0 {
        put := bufs[i].nleft;
        if put > |p| {
          put := |p|;
        }
        Stuff(i, p[..put]);
      } else if |p| >= BUFSIZ {
        if bufs[i].data != [] {
          BFlush1(i);
        }
        ghost var file1 := file;
        put := |p| - |p| % BUFSIZ;
        Whole(|p|);
        Direct(i, p[..put]);
        OutsideOf(old(file), file1, own, streams[i]);
        KeptAgain(old(file), file1, file, streams[i]);
      } else {
        BFlush1(i);
        put := 0;
        assert own.text + p[..put] == own.text;
        assert streams[i := own] == streams;
      }
    }

    /** `bwrite`. */
    method BWrite(i: nat, p: seq<nat>)
      requires Valid() && i < |bufs| && |streams[i].text| + |p| <= streams[i].room
      modifies `file, `pos, `boffset, `bufs, `streams
      ensures Valid() && streams == old(streams)[i := old(streams)[i].(text := old(streams)[i].text + p)]
      ensures bufs == old(bufs)[i := bufs[i]] && (Aligned(old(bufs)[i]) ==> Aligned(bufs[i]))
      ensures KeptOutside(old(file), file, streams[i])
    {
      ghost var own, file0 := streams[i], file;
      var rest := p;
      ghost var done: seq<nat> := [];
      KeptSame(file, own);
      assert own.text + done == own.text && own.(text := own.text) == own && streams[i := own] == streams;
      while rest != []
        invariant Valid() && |bufs| == |old(bufs)| && done + rest == p
        invariant streams == old(streams)[i := own.(text := own.text + done)]
        invariant bufs == old(bufs)[i := bufs[i]] && (Aligned(old(bufs)[i]) ==> Aligned(bufs[i]))
        invariant KeptOutside(file0, file, own)
        decreases |rest|, if bufs[i].nleft > 0 then 0 else 1
      {
        ghost var file1, text1 := file, streams[i].text;
        var put := Trip(i, rest);
        OutsideOf(file1, file, streams[i], own);
        KeptAgain(file0, file1, file, own);
        assert own.text + done + rest[..put] == own.text + (done + rest[..put]);
        done := done + rest[..put];
        rest := rest[put..];
      }
      assert done == p;
      OutsideOf(file0, file, own, streams[i]);
    }

    /** `bputc`, with `bflushc` for a full buffer. */
    method BPutc(c: nat, i: nat)
      requires Valid() && i < |bufs| && |streams[i].text| < streams[i].room
      modifies `file, `pos, `boffset, `bufs, `streams
      ensures Valid() && streams == old(streams)[i := old(streams)[i].(text := old(streams)[i].text + [c])]
      ensures bufs == old(bufs)[i := bufs[i]] && (Aligned(old(bufs)[i]) ==> Aligned(bufs[i]))
      ensures KeptOutside(old(file), file, streams[i])
    {
      ghost var own, file0 := streams[i], file;
      KeptSame(file, own);
      if bufs[i].nleft == 0 {
        BFlush1(i);
      }
      Stuff(i, [c]);
      OutsideOf(file0, file, own, streams[i]);
    }

    /** `bflush`: every stream's bytes are in the file, from its start on, in order. */
    method BFlush()
      requires Valid()
      modifies `file, `pos, `boffset, `bufs
      ensures Valid() && |bufs| == |old(bufs)|
      ensures forall i: nat :: Drained(file, streams, |streams|, i)
    {
      var bp: nat := |bufs|;
      while bp > 0
        invariant Valid() && |bufs| == |old(bufs)| && bp <= |bufs|
        invariant forall i: nat :: EmptyFrom(bufs, bp, i)
      {
        bp := bp - 1;
        ghost var bufs0 := bufs;
        BFlush1(bp);
        EmptyMore(bufs0, bufs, bp, bp + 1);
      }
      forall i: nat ensures Drained(file, streams, |streams|, i) {
        assert StreamAt(file, bufs, streams, i) && EmptyFrom(bufs, bp, i);
      }
    }
  }

  ghost predicate Drained(file: seq<nat>, streams: seq<Stream>, n: nat, i: nat)
  {
    i < n && i < |streams| ==> InFile(file, streams[i].start, streams[i].text, |streams[i].text|)
  }

  ghost predicate EmptyFrom(bufs: seq<Biobuf>, n: nat, i: nat)
  {
    n <= i < |bufs| ==> bufs[i].data == []
  }

  lemma EmptyMore(bufs: seq<Biobuf>, bufs': seq<Biobuf>, n: nat, m: nat)
    requires n < |bufs| == |bufs'| && m == n + 1 && bufs' == bufs[n := bufs'[n]] && bufs'[n].data == []
    requires forall i: nat :: EmptyFrom(bufs, m, i)
    ensures forall i: nat :: EmptyFrom(bufs', n, i)
  {
    forall i: nat ensures EmptyFrom(bufs', n, i) {
      assert EmptyFrom(bufs, m, i);
    }
  }

  /** Only a stream's place matters to what lies outside it. */
  lemma OutsideOf(file: seq<nat>, file': seq<nat>, s: Stream, s': Stream)
    requires KeptOutside(file, file', s) && s.start == s'.start && s.room == s'.room
    ensures KeptOutside(file, file', s')
  {
    forall k: nat ensures KeptAt(file, file', s', k) {
      assert KeptAt(file, file', s, k);
    }
  }

  lemma Whole(n: nat)
    requires n >= BUFSIZ
    ensures (n - n % BUFSIZ) % BUFSIZ == 0 && 0 < n - n % BUFSIZ
  {
  }

  lemma KeptSame(file: seq<nat>, s: Stream)
    ensures KeptOutside(file, file, s)
  {
    forall k: nat ensures KeptAt(file, file, s, k) {
    }
  }
}
