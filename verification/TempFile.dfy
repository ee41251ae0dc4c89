/** The temporary file of bin/ed.c: lines go in by `putline` and come back by
    `getline`, through two block buffers over a file that may be enciphered. */
module TempFile {
  import opened Rotor

  const BLOCK: nat := 512       // bytes in a block, and in linebuf
  const LIMIT: nat := 255       // block numbers that may be used
  const NEWLINE: int := 10

  datatype Tables = Tables(t1: seq<int>, t2: seq<int>, t3: seq<int>)

  ghost predicate TablesOk(p: Tables)
  {
    Inverse(p.t1, p.t2) && Involution(p.t3)
  }

  ghost predicate ByteOf(b: seq<int>, i: int)
  {
    0 <= i < |b| ==> IsByte(b[i])
  }

  ghost predicate IsBlock(b: seq<int>)
  {
    |b| == BLOCK && forall i :: ByteOf(b, i)
  }

  /** The buffers and the file; `crypt` says whether the file is enciphered. */
  datatype Store = Store(file: map<int, seq<int>>, crypt: bool, perm: Tables,
                         iblock: int, ibuff: seq<int>, oblock: int, obuff: seq<int>)

  /** A block as it lies on the file, and back: the cipher is its own inverse. */
  ghost function Cipher(S: Store, b: seq<int>): seq<int>
    requires TablesOk(S.perm)
  {
    if S.crypt then Crypt(S.perm.t1, S.perm.t2, S.perm.t3, b, 0) else b
  }

  lemma CipherTwice(S: Store, b: seq<int>)
    requires TablesOk(S.perm) && IsBlock(b)
    ensures IsBlock(Cipher(S, b)) && Cipher(S, Cipher(S, b)) == b
  {
    forall i | 0 <= i < |b| ensures IsByte(b[i]) {
      assert ByteOf(b, i);
    }
    if S.crypt {
      CryptTwice(S.perm.t1, S.perm.t2, S.perm.t3, b, 0);
    }
    forall i ensures ByteOf(Cipher(S, b), i) {
      assert ByteOf(b, i);
    }
  }

  ghost predicate FileBlockOk(S: Store, b: int)
  {
    b in S.file ==> IsBlock(S.file[b])
  }

  /** Both buffers hold bytes, they never hold the same block, and what the input
      buffer holds is on the file unless it was changed. */
  ghost predicate StoreOk(S: Store, ichanged: bool)
  {
    && TablesOk(S.perm) && IsBlock(S.ibuff) && IsBlock(S.obuff)
    && (forall b :: FileBlockOk(S, b))
    && (S.iblock >= 0 ==> S.iblock != S.oblock)
    && (ichanged ==> S.iblock >= 0)
    && (S.iblock >= 0 && !ichanged ==> S.iblock in S.file && S.ibuff == Cipher(S, S.file[S.iblock]))
  }

  /** What a reader finds in block `b`. */
  ghost function View(S: Store, b: int): seq<int>
    requires TablesOk(S.perm)
  {
    if b < 0 then []
    else if b == S.iblock then S.ibuff
    else if b == S.oblock then S.obuff
    else if b in S.file then Cipher(S, S.file[b])
    else []
  }

  /** The byte at `x`, or -1 where nothing was ever stored. */
  ghost function ByteAt(S: Store, x: nat): int
    requires TablesOk(S.perm)
  {
    var v := View(S, x / BLOCK);
    if x % BLOCK < |v| then v[x % BLOCK] else -1
  }

  ghost predicate SameByte(S: Store, S': Store, x: nat)
    requires TablesOk(S.perm) && TablesOk(S'.perm)
  {
    ByteAt(S, x) >= 0 ==> ByteAt(S', x) == ByteAt(S, x)
  }

  /** Loading a clean input buffer with another block changes no byte. */
  lemma LoadKeeps(S: Store, b: int)
    requires StoreOk(S, false) && b in S.file && 0 <= b && b != S.oblock
    ensures var S' := S.(iblock := b, ibuff := Cipher(S, S.file[b]));
            && StoreOk(S', false)
            && forall x: nat :: SameByte(S, S', x)
  {
    var S' := S.(iblock := b, ibuff := Cipher(S, S.file[b]));
    assert FileBlockOk(S, b);
    CipherTwice(S, S.file[b]);
    forall c ensures FileBlockOk(S', c) {
      assert FileBlockOk(S, c);
    }
    forall x: nat ensures SameByte(S, S', x) {
    }
  }

  /** Writing a changed input buffer back leaves every byte where it was. */
  lemma WriteBackKeeps(S: Store)
    requires StoreOk(S, true) && S.iblock >= 0
    ensures var S' := S.(file := S.file[S.iblock := Cipher(S, S.ibuff)]);
            StoreOk(S', false) && forall x: nat :: SameByte(S, S', x)
  {
    var S' := S.(file := S.file[S.iblock := Cipher(S, S.ibuff)]);
    CipherTwice(S, S.ibuff);
    forall c ensures FileBlockOk(S', c) {
      assert FileBlockOk(S, c);
    }
    forall x: nat ensures SameByte(S, S', x) {
    }
  }

  /** Handing the output buffer on to block `b`, after its old block is written:
      only bytes of block `b` may change. */
  lemma FlushKeeps(S: Store, b: int, ichanged: bool)
    requires StoreOk(S, ichanged) && 0 <= b && b != S.iblock && b != S.oblock
    ensures var file' := if S.oblock >= 0 then S.file[S.oblock := Cipher(S, S.obuff)] else S.file;
            var S' := S.(file := file', oblock := b);
            && StoreOk(S', ichanged)
            && forall x: nat | x / BLOCK != b :: SameByte(S, S', x)
  {
    var file' := if S.oblock >= 0 then S.file[S.oblock := Cipher(S, S.obuff)] else S.file;
    var S' := S.(file := file', oblock := b);
    CipherTwice(S, S.obuff);
    forall c ensures FileBlockOk(S', c) {
      assert FileBlockOk(S, c);
    }
    forall x: nat | x / BLOCK != b ensures SameByte(S, S', x) {
    }
  }

  /** Storing one byte into the output buffer changes that byte alone. */
  lemma PokeKeeps(S: Store, off: nat, v: int, ichanged: bool)
    requires StoreOk(S, ichanged) && S.oblock >= 0 && off < BLOCK && IsByte(v)
    ensures var S' := S.(obuff := S.obuff[off := v]);
            && StoreOk(S', ichanged)
            && ByteAt(S', S.oblock * BLOCK + off) == v
            && forall x: nat | x != S.oblock * BLOCK + off :: SameByte(S, S', x)
  {
    var S' := S.(obuff := S.obuff[off := v]);
    forall i ensures ByteOf(S'.obuff, i) {
      assert ByteOf(S.obuff, i);
    }
    forall c ensures FileBlockOk(S', c) {
      assert FileBlockOk(S, c);
    }
    Position(S.oblock, off);
    forall x: nat | x != S.oblock * BLOCK + off ensures SameByte(S, S', x) {
      assert x == x / BLOCK * BLOCK + x % BLOCK;
    }
  }

  lemma Position(b: nat, off: nat)
    requires off < BLOCK
    ensures (b * BLOCK + off) / BLOCK == b && (b * BLOCK + off) % BLOCK == off
  {
  }

  // ---------------------------------------------------------------- lines

  ghost predicate HeldAt(S: Store, a: nat, text: seq<int>, k: nat)
    requires TablesOk(S.perm)
  {
    k <= |text| ==> ByteAt(S, 2 * a + k) == if k < |text| then text[k] else 0
  }

  /** The text and the null behind it lie on the file from address `a` on. */
  ghost predicate Held(S: Store, a: nat, text: seq<int>)
    requires TablesOk(S.perm)
  {
    forall k: nat :: HeldAt(S, a, text, k)
  }

  predicate CharOk(text: seq<int>, i: int)
  {
    0 <= i < |text| ==> 0 < text[i] < SIZE && text[i] != NEWLINE
  }

  ghost predicate TextOk(text: seq<int>)
  {
    |text| < BLOCK && forall i :: CharOk(text, i)
  }

  /** The byte of the null that ends a line. */
  function EndOf(a: nat, text: seq<int>): nat
  {
    2 * a + |text|
  }

  /** Line `a` is whole, and does not need the block at the end of the file unless
      that block is in the output buffer. */
  ghost predicate LineOk(S: Store, lines: map<nat, seq<int>>, tline: nat, a: nat)
    requires TablesOk(S.perm)
  {
    a in lines ==>
      && 2 <= a && a % 2 == 0 && TextOk(lines[a]) && Held(S, a, lines[a])
      && EndOf(a, lines[a]) < 2 * tline
      && (EndOf(a, lines[a]) / BLOCK < tline / 256 || S.oblock == tline / 256)
  }

  /** Different lines share no byte. */
  ghost predicate Apart(lines: map<nat, seq<int>>, a: nat, b: nat)
  {
    a in lines && b in lines && a < b ==> EndOf(a, lines[a]) < 2 * b
  }

  ghost predicate LinesOk(S: Store, lines: map<nat, seq<int>>, tline: nat)
    requires TablesOk(S.perm)
  {
    && (forall a: nat :: LineOk(S, lines, tline, a))
    && (forall a: nat, b: nat :: Apart(lines, a, b))
    && tline % 2 == 0 && 2 <= tline <= LIMIT * 256
    && -1 <= S.iblock < tline / 256 && -1 <= S.oblock <= tline / 256
  }

  lemma HeldKept(S: Store, S': Store, a: nat, text: seq<int>)
    requires TablesOk(S.perm) && TablesOk(S'.perm) && Held(S, a, text) && TextOk(text)
    requires forall x: nat | 2 * a <= x <= EndOf(a, text) :: SameByte(S, S', x)
    ensures Held(S', a, text)
  {
    forall k: nat ensures HeldAt(S', a, text, k) {
      assert HeldAt(S, a, text, k) && CharOk(text, k);
      if k <= |text| {
        assert SameByte(S, S', 2 * a + k);
      }
    }
  }

  /** A block that holds a byte of a line can be read. */
  lemma HeldKnown(S: Store, a: nat, text: seq<int>, k: nat)
    requires TablesOk(S.perm) && Held(S, a, text) && TextOk(text) && k <= |text|
    ensures var b := (2 * a + k) / BLOCK;
            && (b == S.iblock || b == S.oblock || b in S.file)
            && ByteAt(S, 2 * a + k) == (if k < |text| then text[k] else 0)
  {
    assert HeldAt(S, a, text, k) && CharOk(text, k);
  }

  /** Reading changes no byte, so every line stays where it is. */
  lemma ReadKeepsLines(S: Store, S': Store, lines: map<nat, seq<int>>, tline: nat)
    requires TablesOk(S.perm) && TablesOk(S'.perm) && LinesOk(S, lines, tline)
    requires forall x: nat :: SameByte(S, S', x)
    requires S'.oblock == S.oblock && -1 <= S'.iblock < tline / 256
    ensures LinesOk(S', lines, tline)
  {
    forall a: nat ensures LineOk(S', lines, tline, a) {
      assert LineOk(S, lines, tline, a);
      if a in lines {
        HeldKept(S, S', a, lines[a]);
      }
    }
  }

  /** A line's blocks come before the end of the file, or are that last block,
      which then is in the output buffer. */
  lemma LineBlock(S: Store, lines: map<nat, seq<int>>, tline: nat, a: nat, k: nat)
    requires TablesOk(S.perm) && LinesOk(S, lines, tline) && a in lines && k <= |lines[a]|
    ensures var b := (2 * a + k) / BLOCK;
            && b < LIMIT && (b < tline / 256 || (b == tline / 256 && b == S.oblock))
            && (b == S.iblock || b == S.oblock || b in S.file)
            && ByteAt(S, 2 * a + k) == (if k < |lines[a]| then lines[a][k] else 0)
            && (k < |lines[a]| ==> lines[a][k] != 0)
  {
    assert LineOk(S, lines, tline, a) && CharOk(lines[a], k);
    HeldKnown(S, a, lines[a], k);
  }

  /** The first byte of the block whose address is `t`. */
  lemma NextBlock(x: nat, t: nat)
    requires x % BLOCK == 0 && t == x / BLOCK * 256
    ensures x / BLOCK < 256 ==> BlockOf(t) == x / BLOCK && OffsetOf(t) == 0
  {
  }

  /** Where byte `k` of the line at address `a` lies. */
  lemma AddressBytes(a: nat, tl: nat)
    requires a % 2 == 0 && tl / 2 * 2 == a && a <= LIMIT * 256
    ensures OffsetOf(tl) == 2 * a % BLOCK && BlockOf(tl) == 2 * a / BLOCK && tl / 256 * 256 == 2 * a / BLOCK * 256
  {
    var q, r, d := a / 256, a % 256, tl - a;
    assert a == 256 * q + r && r % 2 == 0 && 0 <= d < 2;
    assert tl == 256 * q + (r + d) && 0 <= r + d < 256;
    assert tl / 256 == q && 2 * a == BLOCK * q + 2 * r && 2 * a / BLOCK == q && 2 * a % BLOCK == 2 * r;
    assert 2 * tl == BLOCK * q + (2 * r + 2 * d) && 2 * tl % BLOCK == 2 * r + 2 * d;
    EvenOffset(r, d);
  }

  lemma EvenOffset(r: nat, d: nat)
    requires r % 2 == 0 && d < 2
    ensures (2 * r + 2 * d) / 4 * 4 == 2 * r
  {
    var h := r / 2;
    assert 2 * r + 2 * d == 4 * h + 2 * d;
  }

  /** Line `a` is whole and ends before the end of the file. */
  ghost predicate LineSaved(S: Store, lines: map<nat, seq<int>>, tline: nat, a: nat)
    requires TablesOk(S.perm)
  {
    a in lines ==>
      2 <= a && a % 2 == 0 && TextOk(lines[a]) && Held(S, a, lines[a]) && EndOf(a, lines[a]) < 2 * tline
  }

  /** Byte `j` of a line being written is in place once `i` of them are. */
  ghost predicate WrittenAt(S: Store, tline: nat, full: seq<int>, i: nat, j: nat)
    requires TablesOk(S.perm)
  {
    j < i && j < |full| ==> ByteAt(S, 2 * tline + j) == full[j]
  }

  /** `i` bytes of `full` are written behind the lines so far. */
  ghost predicate Putting(S: Store, lines: map<nat, seq<int>>, tline: nat, full: seq<int>, i: nat)
    requires TablesOk(S.perm)
  {
    && (forall a: nat :: LineSaved(S, lines, tline, a))
    && (forall a: nat, b: nat :: Apart(lines, a, b))
    && (forall j: nat :: WrittenAt(S, tline, full, i, j))
    && tline % 2 == 0 && 2 <= tline && -1 <= S.iblock < tline / 256
  }

  /** What was written before byte `x` survives a change from byte `x` on. */
  lemma PuttingKept(S: Store, S': Store, lines: map<nat, seq<int>>, tline: nat, full: seq<int>, i: nat)
    requires TablesOk(S.perm) && TablesOk(S'.perm) && Putting(S, lines, tline, full, i) && S'.iblock == S.iblock
    requires forall j | 0 <= j < |full| :: IsByte(full[j])
    requires forall y: nat | y < 2 * tline + i :: SameByte(S, S', y)
    ensures Putting(S', lines, tline, full, i)
  {
    forall a: nat ensures LineSaved(S', lines, tline, a) {
      assert LineSaved(S, lines, tline, a);
      if a in lines {
        HeldKept(S, S', a, lines[a]);
      }
    }
    forall j: nat ensures WrittenAt(S', tline, full, i, j) {
      assert WrittenAt(S, tline, full, i, j);
      if j < i {
        assert SameByte(S, S', 2 * tline + j);
      }
    }
  }

  /** Byte `i` is written: one more is in place. */
  lemma PuttingMore(S: Store, lines: map<nat, seq<int>>, tline: nat, full: seq<int>, i: nat)
    requires TablesOk(S.perm) && Putting(S, lines, tline, full, i) && i < |full|
    requires ByteAt(S, 2 * tline + i) == full[i]
    ensures Putting(S, lines, tline, full, i + 1)
  {
    var i' := i + 1;
    forall j: nat ensures WrittenAt(S, tline, full, i', j) {
      assert WrittenAt(S, tline, full, i, j);
    }
  }

  /** The output buffer is about to stand for the block at the end of the file. */
  lemma PuttingStarts(S: Store, S': Store, lines: map<nat, seq<int>>, tline: nat, full: seq<int>)
    requires TablesOk(S.perm) && TablesOk(S'.perm) && LinesOk(S, lines, tline) && S'.iblock == S.iblock
    requires forall x: nat | x / BLOCK != tline / 256 || S.oblock == tline / 256 :: SameByte(S, S', x)
    ensures Putting(S', lines, tline, full, 0)
  {
    forall a: nat ensures LineSaved(S', lines, tline, a) {
      assert LineOk(S, lines, tline, a);
      if a in lines {
        forall x: nat | 2 * a <= x <= EndOf(a, lines[a]) ensures SameByte(S, S', x) {
          assert x / BLOCK <= EndOf(a, lines[a]) / BLOCK;
        }
        HeldKept(S, S', a, lines[a]);
      }
    }
  }

  /** The step from one line's address to the next: whole groups of four bytes. */
  function NextAddress(tline: nat, count: nat): nat
  {
    tline + (count + 3) / 2 / 2 * 2
  }

  lemma AddressStep(tline: nat, count: nat)
    requires tline % 2 == 0 && 0 < count
    ensures NextAddress(tline, count) % 2 == 0
    ensures 2 * tline + count <= 2 * NextAddress(tline, count)
    ensures (2 * tline + count - 1) / BLOCK < LIMIT ==> NextAddress(tline, count) <= LIMIT * 256
    ensures (2 * tline + count - 1) / BLOCK <= NextAddress(tline, count) / 256
  {
    var q := (count + 3) / 4;
    assert (count + 3) / 2 / 2 == q && 4 * q >= count;
  }

  /** The line is complete: it joins the others. */
  lemma PuttingDone(S: Store, lines: map<nat, seq<int>>, tline: nat, text: seq<int>)
    requires TablesOk(S.perm) && Putting(S, lines, tline, text + [0], |text| + 1) && TextOk(text)
    requires S.oblock == EndOf(tline, text) / BLOCK && S.oblock < LIMIT
    ensures LinesOk(S, lines[tline := text], NextAddress(tline, |text| + 1))
  {
    var lines', tline', full := lines[tline := text], NextAddress(tline, |text| + 1), text + [0];
    AddressStep(tline, |text| + 1);
    forall k: nat ensures HeldAt(S, tline, text, k) {
      assert WrittenAt(S, tline, full, |text| + 1, k);
    }
    forall a: nat ensures LineOk(S, lines', tline', a) {
      assert LineSaved(S, lines, tline, a);
    }
    forall a: nat, b: nat ensures Apart(lines', a, b) {
      assert Apart(lines, a, b) && LineSaved(S, lines, tline, a) && LineSaved(S, lines, tline, b);
    }
  }

  /** The block limit was hit: the lines so far stay as they were. */
  lemma PuttingFails(S: Store, lines: map<nat, seq<int>>, tline: nat, full: seq<int>, i: nat)
    requires TablesOk(S.perm) && Putting(S, lines, tline, full, i)
    requires S.oblock == tline / 256 && tline <= LIMIT * 256
    ensures LinesOk(S, lines, tline)
  {
    forall a: nat ensures LineOk(S, lines, tline, a) {
      assert LineSaved(S, lines, tline, a);
    }
  }

  /** The first null or newline of `s` from `i` on. */
  function LineEnd(s: seq<int>, i: nat): (e: nat)
    requires i <= |s|
    ensures i <= e <= |s|
    ensures e < |s| ==> s[e] == 0 || s[e] == NEWLINE
    ensures forall k | i <= k < e :: s[k] != 0 && s[k] != NEWLINE
    decreases |s| - i
  {
    if i == |s| || s[i] == 0 || s[i] == NEWLINE then i else LineEnd(s, i + 1)
  }

  lemma LineText(linebuf: seq<int>, text: seq<int>)
    requires LineEnd(linebuf, 0) < |linebuf| <= BLOCK && text == linebuf[..LineEnd(linebuf, 0)]
    requires forall k | 0 <= k < |linebuf| :: IsByte(linebuf[k])
    ensures TextOk(text) && forall j | 0 <= j < |text + [0]| :: IsByte((text + [0])[j])
  {
    forall i ensures CharOk(text, i) {
    }
  }

  /** Where `getblock` points its caller: into a buffer, or nowhere at all. */
  datatype Place = Input(off: nat) | Output(off: nat) | TempError

  /** Line addresses count pairs of bytes; the lowest bit marks a line. */
  function BlockOf(atl: nat): nat
  {
    atl / 256 % 256
  }

  function OffsetOf(atl: nat): (off: nat)
    ensures off < BLOCK
  {
    2 * atl % BLOCK / 4 * 4
  }

  class TempBuffer {
    const ibuff: array<int>
    const obuff: array<int>
    const crbuf: array<int>
    const xtflag: bool
    const perm: Tables
    var tfile: map<int, seq<int>>
    var iblock: int
    var oblock: int
    var ichanged: bool
    var tline: nat
    ghost var lines: map<nat, seq<int>>

    /** `init`: an empty file, enciphered when `xtflag` says so. */
    constructor (xtflag: bool, perm: Tables)
      requires TablesOk(perm)
      ensures Valid() && lines == map[] && tline == 2 && fresh(ibuff) && fresh(obuff) && fresh(crbuf)
    {
      ibuff := new int[BLOCK](_ => 0);
      obuff := new int[BLOCK](_ => 0);
      crbuf := new int[BLOCK](_ => 0);
      this.xtflag := xtflag;
      this.perm := perm;
      tfile := map[];
      iblock, oblock := -1, -1;
      ichanged := false;
      tline := 2;
      lines := map[];
    }

    ghost predicate Shape()
    {
      && ibuff.Length == obuff.Length == crbuf.Length == BLOCK
      && ibuff != obuff && ibuff != crbuf && obuff != crbuf
    }

    ghost function S(): Store
      reads this, ibuff, obuff
    {
      Store(tfile, xtflag, perm, iblock, ibuff[..], oblock, obuff[..])
    }

    ghost predicate Sound()
      reads this, ibuff, obuff
    {
      Shape() && StoreOk(S(), ichanged)
    }

    /** Writes the changed input buffer back to the file. */
    method WriteBack()
      requires Sound() && iblock >= 0
      modifies this`tfile, ibuff
      ensures tfile == old(tfile)[iblock := Cipher(old(S()), old(ibuff[..]))]
    {
      if xtflag {
        CrBlock(perm.t1, perm.t2, perm.t3, ibuff, 0);
      }
      tfile := tfile[iblock := ibuff[..]];
    }

    /** Reads block `b` of the file into the input buffer, and deciphers it. */
    method ReadInput(b: nat)
      requires Shape() && TablesOk(perm) && b in tfile && |tfile[b]| == BLOCK
      modifies ibuff
      ensures ibuff[..] == Cipher(S(), tfile[b])
    {
      var blk := tfile[b];
      forall i | 0 <= i < BLOCK {
        ibuff[i] := blk[i];
      }
      assert ibuff[..] == blk;
      if xtflag {
        CrBlock(perm.t1, perm.t2, perm.t3, ibuff, 0);
      }
    }

    /** Reads block `bno`, which neither buffer holds, into the input buffer. */
    method Load(bno: nat)
      requires Sound() && bno != iblock && bno != oblock && bno in tfile
      modifies this`tfile, this`iblock, this`ichanged, ibuff
      ensures Sound() && !ichanged && iblock == bno
      ensures forall x: nat :: SameByte(old(S()), S(), x)
      ensures forall b :: b in old(tfile) ==> b in tfile
    {
      ghost var s0 := S();
      if ichanged {
        WriteBackKeeps(s0);
        WriteBack();
      }
      ichanged := false;
      iblock := bno;
      ghost var s1 := s0.(file := tfile);
      assert StoreOk(s1, false) && forall x: nat :: SameByte(s0, s1, x);
      assert FileBlockOk(s1, bno);
      ReadInput(bno);
      LoadKeeps(s1, bno);
      assert S() == s1.(iblock := bno, ibuff := Cipher(s1, tfile[bno]));
      forall x: nat ensures SameByte(s0, S(), x) {
        assert SameByte(s0, s1, x) && SameByte(s1, S(), x);
      }
    }
  
    /** Writes the output buffer to its block, and makes it stand for `bno`. */
    method SwitchOutput(bno: nat)
      requires Sound() && bno != iblock && bno != oblock
      modifies this`tfile, this`oblock, crbuf
      ensures Sound() && oblock == bno
      ensures forall x: nat | x / BLOCK != bno :: SameByte(old(S()), S(), x)
    {
      FlushKeeps(S(), bno, ichanged);
      WriteOut();
      oblock := bno;
    }

    /** Writes the output buffer to its block, enciphered if need be. */
    method WriteOut()
      requires Shape() && TablesOk(perm)
      modifies this`tfile, crbuf
      ensures tfile == if oblock >= 0 then old(tfile)[oblock := Cipher(S(), obuff[..])] else old(tfile)
    {
      if oblock >= 0 {
        if xtflag {
          forall i | 0 <= i < BLOCK {
            crbuf[i] := obuff[i];
          }
          assert crbuf[..] == obuff[..];
          CrBlock(perm.t1, perm.t2, perm.t3, crbuf, 0);
          tfile := tfile[oblock := crbuf[..]];
        } else {
          tfile := tfile[oblock := obuff[..]];
        }
      }
    }

    /** `getblock`: points into a buffer that stands for the block of address `atl`. */
    method GetBlock(atl: nat, write: bool) returns (p: Place, nleft: nat)
      requires Sound()
      requires var b := BlockOf(atl);
               if write then b != iblock else b >= LIMIT || b == iblock || b == oblock || b in tfile
      modifies this`tfile, this`iblock, this`oblock, this`ichanged, ibuff, crbuf
      ensures p.TempError? <==> BlockOf(atl) >= LIMIT
      ensures p.TempError? ==> S() == old(S()) && ichanged == old(ichanged)
      ensures !p.TempError? ==> Sound() && p.off == OffsetOf(atl) && nleft == BLOCK - p.off
      ensures !p.TempError? ==> if p.Input? then iblock == BlockOf(atl) else oblock == BlockOf(atl)
      ensures !p.TempError? && write ==>
                && p.Output? && iblock == old(iblock) && ichanged == old(ichanged)
                && forall x: nat | x / BLOCK != oblock || oblock == old(oblock) :: SameByte(old(S()), S(), x)
      ensures !p.TempError? && !write ==>
                && oblock == old(oblock) && (ichanged ==> old(ichanged))
                && (iblock == old(iblock) || (iblock == BlockOf(atl) && iblock != oblock))
                && forall x: nat :: SameByte(old(S()), S(), x)
    {
      var bno := atl / 256 % 256;
      var off := 2 * atl % 512 / 4 * 4;
      if bno >= 255 {
        return TempError, 0;
      }
      nleft := 512 - off;
      if bno == iblock {
        ichanged := ichanged || write;
        return Input(off), nleft;
      }
      if bno == oblock {
        return Output(off), nleft;
      }
      if !write {
        Load(bno);
        return Input(off), nleft;
      }
      SwitchOutput(bno);
      return Output(off), nleft;
    }
  
    /** Lines written so far can all be read back. */
    ghost predicate Valid()
      reads this, ibuff, obuff
    {
      Sound() && !ichanged && LinesOk(S(), lines, tline)
    }

    /** Pointer, room left and block address of a reader that has come to byte `x`. */
    ghost predicate At(p: Place, bp: int, nl: int, t: nat, x: nat)
      reads this
    {
      && !p.TempError? && (if p.Input? then iblock == x / BLOCK else oblock == x / BLOCK)
      && bp == x % BLOCK && nl == BLOCK - bp && t == x / BLOCK * 256
    }

    /** `getblock` for reading byte `k` of line `a`. */
    method ReadAt(atl: nat, ghost a: nat, ghost k: nat) returns (p: Place, nl: nat)
      requires Valid() && a in lines && k <= |lines[a]|
      requires BlockOf(atl) == (2 * a + k) / BLOCK && OffsetOf(atl) == (2 * a + k) % BLOCK
      modifies this`tfile, this`iblock, this`oblock, this`ichanged, ibuff, crbuf
      ensures Valid() && !p.TempError? && At(p, p.off, nl, (2 * a + k) / BLOCK * 256, 2 * a + k)
    {
      LineBlock(S(), lines, tline, a, k);
      ghost var s0 := S();
      p, nl := GetBlock(atl, false);
      ReadKeepsLines(s0, S(), lines, tline);
    }

    /** One turn of the loop in `getline`: hands over byte `k` of line `a`, and
        goes on to the next byte unless this one is the null. */
    method NextByte(p: Place, bp: int, nl: int, t: nat, ghost a: nat, ghost k: nat)
      returns (c: int, p': Place, bp': int, nl': int, t': nat)
      requires Valid() && a in lines && k <= |lines[a]|
      requires At(p, bp, nl, t, 2 * a + k)
      modifies this`tfile, this`iblock, this`oblock, this`ichanged, ibuff, crbuf
      ensures Valid() && c == (lines[a] + [0])[k] && (c == 0 <==> k == |lines[a]|)
      ensures c != 0 ==> At(p', bp', nl', t', 2 * a + k + 1)
    {
      LineBlock(S(), lines, tline, a, k);
      c := if p.Input? then ibuff[bp] else obuff[bp];
      p', bp', nl', t' := p, bp + 1, nl, t;
      if c == 0 {
        return;
      }
      nl' := nl' - 1;
      if nl' == 0 {
        t' := t' + 256;
        p', bp', nl' := Refill(t', a, k + 1);
      }
    }

    /** The next block of a line, from byte `k` on. */
    method Refill(t: nat, ghost a: nat, ghost k: nat) returns (p: Place, bp: int, nl: int)
      requires Valid() && a in lines && k <= |lines[a]|
      requires (2 * a + k) % BLOCK == 0 && t == (2 * a + k) / BLOCK * 256
      modifies this`tfile, this`iblock, this`oblock, this`ichanged, ibuff, crbuf
      ensures Valid() && At(p, bp, nl, t, 2 * a + k)
    {
      NextBlock(2 * a + k, t);
      LineBlock(S(), lines, tline, a, k);
      p, nl := ReadAt(t, a, k);
      bp := p.off;
    }

    /** The first byte of the line at address `tl`. */
    method FirstByte(tl: nat, ghost a: nat) returns (p: Place, bp: int, nl: int, t: nat)
      requires Valid() && a == tl / 2 * 2 && a in lines
      modifies this`tfile, this`iblock, this`oblock, this`ichanged, ibuff, crbuf
      ensures Valid() && At(p, bp, nl, t, 2 * a)
    {
      assert LineOk(S(), lines, tline, a);
      AddressBytes(a, tl);
      p, nl := ReadAt(tl, a, 0);
      bp, t := p.off, tl / 256 * 256;
    }

    /** `getline`: the text of the line at address `tl`, marked or not. */
    method GetLine(tl: nat) returns (linebuf: seq<int>)
      requires Valid() && tl / 2 * 2 in lines
      modifies this`tfile, this`iblock, this`oblock, this`ichanged, ibuff, crbuf
      ensures Valid() && linebuf == lines[tl / 2 * 2] + [0]
    {
      ghost var a := tl / 2 * 2;
      ghost var full := lines[a] + [0];
      var p, bp, nleft, t := FirstByte(tl, a);
      var c := 1;
      linebuf := [];
      while c != 0
        invariant Valid() && |linebuf| <= |full| && linebuf == full[..|linebuf|]
        invariant c == 0 <==> |linebuf| == |full|
        invariant c != 0 ==> At(p, bp, nleft, t, 2 * a + |linebuf|)
        decreases |full| - |linebuf|
      {
        ghost var k := |linebuf|;
        c, p, bp, nleft, t := NextByte(p, bp, nleft, t, a, k);
        linebuf := linebuf + [c];
      }
    }

    /** Stores one character through the pointer `getblock` gave to `putline`. */
    method Poke(bp: nat, v: int, ghost full: seq<int>, ghost i: nat)
      requires Sound() && Putting(S(), lines, tline, full, i) && i < |full| && IsByte(v)
      requires forall j | 0 <= j < |full| :: IsByte(full[j])
      requires oblock >= 0 && oblock == (2 * tline + i) / BLOCK && bp == (2 * tline + i) % BLOCK
      modifies obuff
      ensures Sound() && Putting(S(), lines, tline, full, i)
      ensures v == full[i] ==> Putting(S(), lines, tline, full, i + 1)
    {
      ghost var s0 := S();
      PokeKeeps(s0, bp, v, ichanged);
      obuff[bp] := v;
      assert S() == s0.(obuff := s0.obuff[bp := v]);
      assert 2 * tline + i == oblock * BLOCK + bp;
      PuttingKept(s0, S(), lines, tline, full, i);
      if v == full[i] {
        PuttingMore(S(), lines, tline, full, i);
      }
    }

    /** `getblock` for the block that the next byte of a line runs into. */
    method NextOutput(atl: nat, ghost full: seq<int>, ghost i: nat) returns (ok: bool, bp: nat, nl: nat)
      requires Sound() && Putting(S(), lines, tline, full, i) && i > 0
      requires forall j | 0 <= j < |full| :: IsByte(full[j])
      requires (2 * tline + i) % BLOCK == 0 && atl == (2 * tline + i) / BLOCK * 256 && atl < 65536
      modifies this`tfile, this`iblock, this`oblock, this`ichanged, ibuff, crbuf
      ensures Sound() && Putting(S(), lines, tline, full, i) && ichanged == old(ichanged)
      ensures ok <==> (2 * tline + i) / BLOCK < LIMIT
      ensures ok ==> oblock == (2 * tline + i) / BLOCK && bp == 0 && nl == BLOCK
      ensures !ok ==> oblock == old(oblock)
    {
      ghost var s0 := S();
      NextBlock(2 * tline + i, atl);
      var p;
      p, nl := GetBlock(atl, true);
      if p.TempError? {
        return false, 0, nl;
      }
      PuttingKept(s0, S(), lines, tline, full, i);
      return true, p.off, nl;
    }

    /** One turn of the loop in `putline`. */
    method PutByte(c: int, bp: nat, nl: nat, t: nat, ghost full: seq<int>, ghost i: nat)
      returns (ok: bool, bp': nat, nl': nat, t': nat)
      requires Sound() && Putting(S(), lines, tline, full, i) && i < |full| <= BLOCK && IsByte(c)
      requires full[i] == if c == NEWLINE then 0 else c
      requires forall j | 0 <= j < |full| :: IsByte(full[j])
      requires oblock == (2 * tline + i) / BLOCK && bp == (2 * tline + i) % BLOCK && nl == BLOCK - bp
      requires t == (2 * tline + i) / BLOCK * 256 && oblock < LIMIT
      modifies this`tfile, this`iblock, this`oblock, this`ichanged, ibuff, obuff, crbuf
      ensures Sound() && Putting(S(), lines, tline, full, i + 1) && ichanged == old(ichanged)
      ensures ok <==> full[i] == 0 || (2 * tline + i + 1) / BLOCK < LIMIT
      ensures full[i] == 0 || !ok ==> oblock == old(oblock)
      ensures full[i] != 0 && ok ==>
                && oblock == (2 * tline + i + 1) / BLOCK && bp' == (2 * tline + i + 1) % BLOCK
                && nl' == BLOCK - bp' && t' == (2 * tline + i + 1) / BLOCK * 256
    {
      Poke(bp, c, full, i);
      if c == NEWLINE {
        Poke(bp, 0, full, i);
      }
      ok, bp', nl', t' := true, bp + 1, nl, t;
      if c == 0 || c == NEWLINE {
        return;
      }
      nl' := nl' - 1;
      if nl' == 0 {
        t' := t' + 256;
        ok, bp', nl' := NextOutput(t', full, i + 1);
      }
    }

    /** The loop of `putline`; `lp` counts the characters taken from `linebuf`. */
    method PutChars(linebuf: seq<int>, bp0: nat, nl0: nat, t0: nat, ghost full: seq<int>)
      returns (ok: bool, lp: nat, linebp: nat)
      requires Sound() && !ichanged && Putting(S(), lines, tline, full, 0)
      requires 0 < |full| == LineEnd(linebuf, 0) + 1 <= |linebuf| <= BLOCK && full[|full| - 1] == 0
      requires forall j | 0 <= j < |full| :: IsByte(full[j]) && IsByte(linebuf[j])
      requires forall j | 0 <= j < |full| - 1 :: full[j] == linebuf[j] && full[j] != 0 && full[j] != NEWLINE
      requires oblock == tline / 256 < LIMIT && bp0 == 2 * tline % BLOCK && nl0 == BLOCK - bp0
      requires t0 == tline / 256 * 256
      modifies this`tfile, this`iblock, this`oblock, this`ichanged, ibuff, obuff, crbuf
      ensures Sound() && !ichanged && Putting(S(), lines, tline, full, lp)
      ensures ok <==> (2 * tline + |full| - 1) / BLOCK < LIMIT
      ensures ok ==> lp == |full| && oblock == (2 * tline + |full| - 1) / BLOCK
      ensures ok ==> linebp == if linebuf[|full| - 1] == NEWLINE then lp else 0
      ensures !ok ==> oblock == tline / 256
    {
      var bp, nl, t, done := bp0, nl0, t0, false;
      lp, linebp := 0, 0;
      while !done
        invariant 0 <= lp <= |full| && Sound() && !ichanged && Putting(S(), lines, tline, full, lp)
        invariant done <==> lp == |full|
        invariant done ==> oblock == (2 * tline + lp - 1) / BLOCK < LIMIT
        invariant done ==> linebp == if linebuf[|full| - 1] == NEWLINE then lp else 0
        invariant !done ==> oblock == (2 * tline + lp) / BLOCK < LIMIT && linebp == 0
        invariant !done ==> bp == (2 * tline + lp) % BLOCK && nl == BLOCK - bp && t == (2 * tline + lp) / BLOCK * 256
        decreases |full| - lp
      {
        var c := linebuf[lp];
        ok, bp, nl, t := PutByte(c, bp, nl, t, full, lp);
        lp := lp + 1;
        if !ok {
          return;
        }
        if c == 0 || c == NEWLINE {
          linebp := if c == NEWLINE then lp else 0;
          done := true;
        }
      }
      ok := true;
    }

    /** `putline`: appends the text of `linebuf` up to its first null or newline, and
        returns its address; `linebp` is what follows a newline, 0 without one.
        It fails when the line would run into the last block number. */
    method PutLine(linebuf: seq<int>) returns (ok: bool, addr: nat, linebp: nat)
      requires Valid() && LineEnd(linebuf, 0) < |linebuf| <= BLOCK
      requires forall k | 0 <= k < |linebuf| :: IsByte(linebuf[k])
      modifies this, ibuff, obuff, crbuf
      ensures Valid()
      ensures ok <==> EndOf(old(tline), linebuf[..LineEnd(linebuf, 0)]) / BLOCK < LIMIT
      ensures !ok ==> lines == old(lines) && tline == old(tline)
      ensures ok ==> addr == old(tline) && addr !in old(lines) && lines == old(lines)[addr := linebuf[..LineEnd(linebuf, 0)]]
      ensures ok ==> linebp == if linebuf[LineEnd(linebuf, 0)] == NEWLINE then LineEnd(linebuf, 0) + 1 else 0
    {
      ghost var text := linebuf[..LineEnd(linebuf, 0)];
      ghost var full, s0 := text + [0], S();
      LineText(linebuf, text);
      assert LineOk(s0, lines, tline, tline);
      AddressBytes(tline, tline);
      var p, nl := GetBlock(tline, true);
      if p.TempError? {
        return false, 0, 0;
      }
      PuttingStarts(s0, S(), lines, tline, full);
      var lp;
      ok, lp, linebp := PutChars(linebuf, p.off, nl, tline / 256 * 256, full);
      if !ok {
        PuttingFails(S(), lines, tline, full, lp);
        return false, 0, 0;
      }
      addr := Record(text, lp);
    }

    /** The line is complete: its address is handed out and the next one is found. */
    method Record(ghost text: seq<int>, lp: nat) returns (addr: nat)
      requires Sound() && !ichanged && Putting(S(), lines, tline, text + [0], lp) && lp == |text| + 1
      requires TextOk(text) && oblock == EndOf(tline, text) / BLOCK && oblock < LIMIT
      modifies this`lines, this`tline
      ensures Valid() && addr == old(tline) && addr !in old(lines) && lines == old(lines)[addr := text]
    {
      PuttingDone(S(), lines, tline, text);
      assert LineSaved(S(), lines, tline, tline);
      addr := tline;
      lines := lines[addr := text];
      tline := tline + (lp + 3) / 2 / 2 * 2;
    }
  }
}
