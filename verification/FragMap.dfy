/** The free map of a cylinder group, one bit a fragment: `setbit`, `clrbit`, and `isblock`,
    `setblock`, `clrblock` of etc/mkfs.c and etc/icheck.c for each legal number of
    fragments in a block. */
module FragMap {
  import opened FragCount

  type Bitmap = seq<bv8>

  predicate Legal(frag: nat)
  {
    frag == 1 || frag == 2 || frag == 4 || frag == 8
  }

  /** `1 << k`. */
  function BitMask(k: nat): bv8
    requires k < 8
  {
    if k == 0 then 0x01 else if k == 1 then 0x02 else if k == 2 then 0x04 else if k == 3 then 0x08
    else if k == 4 then 0x10 else if k == 5 then 0x20 else if k == 6 then 0x40 else 0x80
  }

  /** The mask for block `h`: so many ones, shifted by the block's place in its byte. */
  function BlockMask(frag: nat, h: nat): bv8
    requires Legal(frag)
  {
    if frag == 8 then 0xff
    else if frag == 4 then if h % 2 == 0 then 0x0f else 0xf0
    else if frag == 2 then
      if h % 4 == 0 then 0x03 else if h % 4 == 1 then 0x0c else if h % 4 == 2 then 0x30 else 0xc0
    else BitMask(h % 8)
  }

  /** The byte that holds block `h`. */
  function BlockByte(frag: nat, h: nat): nat
    requires Legal(frag)
  {
    if frag == 8 then h else if frag == 4 then h / 2 else if frag == 2 then h / 4 else h / 8
  }

  predicate HasBit(b: bv8, k: nat)
    requires k < 8
  {
    b & BitMask(k) != 0
  }

  /** `isset`: fragment `i` is free. */
  predicate Free(bits: Bitmap, i: nat)
  {
    i / 8 < |bits| && HasBit(bits[i / 8], i % 8)
  }

  function SetBit(bits: Bitmap, i: nat): Bitmap
    requires i / 8 < |bits|
  {
    bits[i / 8 := bits[i / 8] | BitMask(i % 8)]
  }

  function ClrBit(bits: Bitmap, i: nat): Bitmap
    requires i / 8 < |bits|
  {
    bits[i / 8 := bits[i / 8] & !BitMask(i % 8)]
  }

  function SetBlock(bits: Bitmap, frag: nat, h: nat): Bitmap
    requires Legal(frag) && BlockByte(frag, h) < |bits|
  {
    var b := BlockByte(frag, h);
    bits[b := bits[b] | BlockMask(frag, h)]
  }

  function ClrBlock(bits: Bitmap, frag: nat, h: nat): Bitmap
    requires Legal(frag) && BlockByte(frag, h) < |bits|
  {
    var b := BlockByte(frag, h);
    bits[b := bits[b] & !BlockMask(frag, h)]
  }

  predicate IsBlock(bits: Bitmap, frag: nat, h: nat)
    requires Legal(frag) && BlockByte(frag, h) < |bits|
  {
    bits[BlockByte(frag, h)] & BlockMask(frag, h) == BlockMask(frag, h)
  }

  // ---------------------------------------------------------------- masks

  lemma SetOne(b: bv8, m: bv8, k: nat)
    requires k < 8
    ensures HasBit(b | m, k) <==> HasBit(b, k) || HasBit(m, k)
  {
  }

  lemma ClearOne(b: bv8, m: bv8, k: nat)
    requires k < 8
    ensures HasBit(b & !m, k) <==> HasBit(b, k) && !HasBit(m, k)
  {
  }

  lemma BitMaskHas(j: nat, k: nat)
    requires j < 8 && k < 8
    ensures HasBit(BitMask(j), k) <==> j == k
  {
  }

  lemma MaskCovers8(h: nat, i: nat)
    requires i / 8 == h
    ensures HasBit(BlockMask(8, h), i % 8) && h * 8 <= i < h * 8 + 8
  {
  }

  lemma MaskCovers4(h: nat, i: nat)
    requires i / 8 == h / 2
    ensures HasBit(BlockMask(4, h), i % 8) <==> h * 4 <= i < h * 4 + 4
  {
  }

  lemma MaskCovers2(h: nat, i: nat)
    requires i / 8 == h / 4
    ensures HasBit(BlockMask(2, h), i % 8) <==> h * 2 <= i < h * 2 + 2
  {
  }

  /** The mask of a block covers the block's bits in its byte. */
  lemma MaskCovers(frag: nat, h: nat, i: nat)
    requires Legal(frag) && i / 8 == BlockByte(frag, h)
    ensures HasBit(BlockMask(frag, h), i % 8) <==> InBlock(frag, h, i)
  {
    StartIs(frag, h);
    if frag == 8 {
      MaskCovers8(h, i);
    } else if frag == 4 {
      MaskCovers4(h, i);
    } else if frag == 2 {
      MaskCovers2(h, i);
    } else {
      BitMaskHas(h % 8, i % 8);
    }
  }

  lemma OtherByte(frag: nat, h: nat, i: nat)
    requires Legal(frag) && i / 8 != BlockByte(frag, h)
    ensures !InBlock(frag, h, i)
  {
    StartIs(frag, h);
  }

  /** A byte contains a mask exactly if it has all its bits. */
  lemma ContainsMask(b: bv8, m: bv8)
    ensures b & m == m <==> forall k: nat | k < 8 :: HasBit(m, k) ==> HasBit(b, k)
  {
    if forall k: nat | k < 8 :: HasBit(m, k) ==> HasBit(b, k) {
      assert HasBit(m, 0) ==> HasBit(b, 0);
      assert HasBit(m, 1) ==> HasBit(b, 1);
      assert HasBit(m, 2) ==> HasBit(b, 2);
      assert HasBit(m, 3) ==> HasBit(b, 3);
      assert HasBit(m, 4) ==> HasBit(b, 4);
      assert HasBit(m, 5) ==> HasBit(b, 5);
      assert HasBit(m, 6) ==> HasBit(b, 6);
      assert HasBit(m, 7) ==> HasBit(b, 7);
    }
  }

  // ---------------------------------------------------------------- what the operations do to fragments

  lemma SetBitAt(bits: Bitmap, j: nat, i: nat)
    requires j / 8 < |bits|
    ensures Free(SetBit(bits, j), i) <==> Free(bits, i) || i == j
  {
    if i / 8 == j / 8 {
      SetOne(bits[j / 8], BitMask(j % 8), i % 8);
      BitMaskHas(j % 8, i % 8);
    }
  }

  lemma ClrBitAt(bits: Bitmap, j: nat, i: nat)
    requires j / 8 < |bits|
    ensures Free(ClrBit(bits, j), i) <==> Free(bits, i) && i != j
  {
    if i / 8 == j / 8 {
      ClearOne(bits[j / 8], BitMask(j % 8), i % 8);
      BitMaskHas(j % 8, i % 8);
    }
  }

  lemma SetMaskAt(bits: Bitmap, b: nat, m: bv8, i: nat)
    requires b < |bits|
    ensures Free(bits[b := bits[b] | m], i) <==> Free(bits, i) || (i / 8 == b && HasBit(m, i % 8))
  {
    if i / 8 == b {
      SetOne(bits[b], m, i % 8);
    }
  }

  lemma ClrMaskAt(bits: Bitmap, b: nat, m: bv8, i: nat)
    requires b < |bits|
    ensures Free(bits[b := bits[b] & !m], i) <==> Free(bits, i) && !(i / 8 == b && HasBit(m, i % 8))
  {
    if i / 8 == b {
      ClearOne(bits[b], m, i % 8);
    }
  }

  /** A fragment is in a block exactly if its bit is in the block's byte and mask. */
  lemma InBlockMeans(frag: nat, h: nat, i: nat)
    requires Legal(frag)
    ensures InBlock(frag, h, i) <==> i / 8 == BlockByte(frag, h) && HasBit(BlockMask(frag, h), i % 8)
  {
    if i / 8 == BlockByte(frag, h) {
      MaskCovers(frag, h, i);
    } else {
      OtherByte(frag, h, i);
    }
  }

  lemma SetBlockAt(bits: Bitmap, frag: nat, h: nat, i: nat)
    requires Legal(frag) && BlockByte(frag, h) < |bits|
    ensures Free(SetBlock(bits, frag, h), i) <==> Free(bits, i) || InBlock(frag, h, i)
  {
    InBlockMeans(frag, h, i);
    SetMaskAt(bits, BlockByte(frag, h), BlockMask(frag, h), i);
  }

  lemma ClrBlockAt(bits: Bitmap, frag: nat, h: nat, i: nat)
    requires Legal(frag) && BlockByte(frag, h) < |bits|
    ensures Free(ClrBlock(bits, frag, h), i) <==> Free(bits, i) && !InBlock(frag, h, i)
  {
    InBlockMeans(frag, h, i);
    ClrMaskAt(bits, BlockByte(frag, h), BlockMask(frag, h), i);
  }

  ghost predicate FreeIfIn(bits: Bitmap, frag: nat, h: nat, i: nat)
  {
    InBlock(frag, h, i) ==> Free(bits, i)
  }

  /** `isblock` holds exactly if every fragment of the block is free. */
  lemma IsBlockMeans(bits: Bitmap, frag: nat, h: nat)
    requires Legal(frag) && BlockByte(frag, h) < |bits|
    ensures IsBlock(bits, frag, h) <==> forall i: nat :: FreeIfIn(bits, frag, h, i)
  {
    var b, mask := BlockByte(frag, h), BlockMask(frag, h);
    ContainsMask(bits[b], mask);
    if IsBlock(bits, frag, h) {
      forall i: nat ensures FreeIfIn(bits, frag, h, i) {
        InBlockMeans(frag, h, i);
      }
    }
    if forall i: nat :: FreeIfIn(bits, frag, h, i) {
      forall k: nat | k < 8 ensures HasBit(mask, k) ==> HasBit(bits[b], k) {
        BitOfBlock(bits, frag, h, b, k, 8 * b + k);
      }
    }
  }

  lemma BitOfBlock(bits: Bitmap, frag: nat, h: nat, b: nat, k: nat, i: nat)
    requires Legal(frag) && b == BlockByte(frag, h) < |bits| && k < 8 && i == 8 * b + k && FreeIfIn(bits, frag, h, i)
    ensures HasBit(BlockMask(frag, h), k) ==> HasBit(bits[b], k)
  {
    assert i / 8 == b && i % 8 == k;
    InBlockMeans(frag, h, i);
  }

  /** The map as a list of truth values. */
  ghost function View(bits: Bitmap): (v: seq<bool>)
    ensures |v| == 8 * |bits|
  {
    seq(8 * |bits|, i requires 0 <= i < 8 * |bits| => Free(bits, i))
  }

  ghost predicate ViewSetAt(v: seq<bool>, v': seq<bool>, lo: nat, hi: nat, i: nat)
  {
    IsFree(v', i) <==> IsFree(v, i) || lo <= i < hi
  }

  ghost predicate ViewClrAt(v: seq<bool>, v': seq<bool>, lo: nat, hi: nat, i: nat)
  {
    IsFree(v', i) <==> IsFree(v, i) && !(lo <= i < hi)
  }

  lemma SetBlockView(bits: Bitmap, frag: nat, h: nat, lo: nat, hi: nat, bits': Bitmap)
    requires Legal(frag) && BlockByte(frag, h) < |bits| && lo == Start(frag, h) && hi == lo + frag
    requires bits' == SetBlock(bits, frag, h)
    ensures forall i: nat :: ViewSetAt(View(bits), View(bits'), lo, hi, i)
  {
    forall i: nat ensures ViewSetAt(View(bits), View(bits'), lo, hi, i) {
      SetBlockAt(bits, frag, h, i);
    }
  }

  lemma ClrBlockView(bits: Bitmap, frag: nat, h: nat, lo: nat, hi: nat, bits': Bitmap)
    requires Legal(frag) && BlockByte(frag, h) < |bits| && lo == Start(frag, h) && hi == lo + frag
    requires bits' == ClrBlock(bits, frag, h)
    ensures forall i: nat :: ViewClrAt(View(bits), View(bits'), lo, hi, i)
  {
    forall i: nat ensures ViewClrAt(View(bits), View(bits'), lo, hi, i) {
      ClrBlockAt(bits, frag, h, i);
    }
  }

  lemma SetBitView(bits: Bitmap, j: nat)
    requires j / 8 < |bits|
    ensures View(SetBit(bits, j)) == View(bits)[j := true]
  {
    var v, v' := View(bits)[j := true], View(SetBit(bits, j));
    forall i: nat | i < |v| ensures v'[i] == v[i] {
      SetBitAt(bits, j, i);
    }
  }

  lemma ClrBitView(bits: Bitmap, j: nat)
    requires j / 8 < |bits|
    ensures View(ClrBit(bits, j)) == View(bits)[j := false]
  {
    var v, v' := View(bits)[j := false], View(ClrBit(bits, j));
    forall i: nat | i < |v| ensures v'[i] == v[i] {
      ClrBitAt(bits, j, i);
    }
  }

  lemma SameInView(bits: Bitmap, frag: nat, h: nat, lo: nat, hi: nat, i: nat)
    requires lo == Start(frag, h) && hi == lo + frag
    ensures FreeIfIn(bits, frag, h, i) <==> IntervalAt(View(bits), lo, hi, lo, hi, i)
  {
  }

  lemma AllInView(bits: Bitmap, frag: nat, h: nat, lo: nat, hi: nat)
    requires lo == Start(frag, h) && hi == lo + frag
    ensures (forall i: nat :: FreeIfIn(bits, frag, h, i)) <==> Interval(View(bits), lo, hi, lo, hi)
  {
    if forall i: nat :: FreeIfIn(bits, frag, h, i) {
      forall i: nat ensures IntervalAt(View(bits), lo, hi, lo, hi, i) {
        SameInView(bits, frag, h, lo, hi, i);
      }
    }
    if Interval(View(bits), lo, hi, lo, hi) {
      forall i: nat ensures FreeIfIn(bits, frag, h, i) {
        SameInView(bits, frag, h, lo, hi, i);
      }
    }
  }

  /** `isblock` and the count of a block's free fragments say the same. */
  lemma WholeIsBlock(bits: Bitmap, frag: nat, h: nat)
    requires Legal(frag) && BlockByte(frag, h) < |bits|
    ensures IsBlock(bits, frag, h) <==> CountFree(View(bits), Start(frag, h), frag) == frag
  {
    var lo, hi := Start(frag, h), Start(frag, h) + frag;
    IsBlockMeans(bits, frag, h);
    CountAll(View(bits), lo, frag);
    AllInView(bits, frag, h, lo, hi);
  }
}
