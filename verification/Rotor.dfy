/** The one-rotor cipher of bin/ed.c: how a key sets the rotor up, and what the
    machine does to a buffer.  Bytes are numbers below 256. */
module Rotor {

  const SIZE: nat := 256

  predicate IsByte(b: int)
  {
    0 <= b < SIZE
  }

  // ---------------------------------------------------------------- what the tables promise

  ghost predicate InverseAt(t1: seq<int>, t2: seq<int>, i: int)
    requires |t1| == |t2| == SIZE
  {
    IsByte(i) ==> IsByte(t1[i]) && IsByte(t2[i]) && t2[t1[i]] == i && t1[t2[i]] == i
  }

  /** `t1` is a permutation of the bytes and `t2` its inverse. */
  ghost predicate Inverse(t1: seq<int>, t2: seq<int>)
  {
    |t1| == |t2| == SIZE && forall i :: InverseAt(t1, t2, i)
  }

  ghost predicate SwapsAt(t3: seq<int>, i: int)
    requires |t3| == SIZE
  {
    IsByte(i) ==> IsByte(t3[i]) && t3[i] != i && t3[t3[i]] == i
  }

  /** `t3` exchanges the bytes in pairs, leaving none alone. */
  ghost predicate Involution(t3: seq<int>)
  {
    |t3| == SIZE && forall i :: SwapsAt(t3, i)
  }

  // ---------------------------------------------------------------- the machine

  /** The low byte of `x`, as `& 0377` gives it. */
  function Low(x: int): (r: int)
    ensures IsByte(r)
    ensures IsByte(x) ==> r == x
  {
    x % SIZE
  }

  function Look(t: seq<int>, x: int): int
    requires |t| == SIZE
  {
    t[Low(x)]
  }

  /** One byte through the rotor, with the two counters at `n1` and `n2`. */
  function Turn(t1: seq<int>, t2: seq<int>, t3: seq<int>, b: int, n1: int, n2: int): (c: int)
    requires |t1| == |t2| == |t3| == SIZE
    ensures IsByte(c)
  {
    Low(Look(t2, Look(t3, Look(t1, b + n1) + n2) - n2) - n1)
  }

  /** One byte through the rotor at stream position `pos`. */
  function CryptByte(t1: seq<int>, t2: seq<int>, t3: seq<int>, b: int, pos: nat): (c: int)
    requires |t1| == |t2| == |t3| == SIZE
    ensures IsByte(c)
  {
    Turn(t1, t2, t3, b, pos % SIZE, pos / SIZE % SIZE)
  }

  function Crypt(t1: seq<int>, t2: seq<int>, t3: seq<int>, text: seq<int>, start: nat): (c: seq<int>)
    requires |t1| == |t2| == |t3| == SIZE
    ensures |c| == |text|
    ensures forall i | 0 <= i < |c| :: IsByte(c[i])
  {
    seq(|text|, i requires 0 <= i < |text| => CryptByte(t1, t2, t3, text[i], start + i))
  }

  lemma LowShift(x: int, q: int)
    requires IsByte(x)
    ensures Low(x + SIZE * q) == x
  {
  }

  lemma LowCancels(x: int, n: int)
    requires IsByte(x)
    ensures Low(Low(x - n) + n) == x && Low(Low(x + n) - n) == x
  {
    assert x - n == SIZE * ((x - n) / SIZE) + Low(x - n);
    LowShift(x, -((x - n) / SIZE));
    assert x + n == SIZE * ((x + n) / SIZE) + Low(x + n);
    LowShift(x, -((x + n) / SIZE));
  }

  /** The way of a byte: in at `x`, to the reflector at `z`, back from it and out. */
  lemma TurnIs(t1: seq<int>, t2: seq<int>, t3: seq<int>, b: int, n1: int, n2: int, x: int, z: int, v: int)
    requires |t1| == |t2| == |t3| == SIZE
    requires x == Low(b + n1) && z == Low(t1[x] + n2) && v == Low(t3[z] - n2)
    ensures Turn(t1, t2, t3, b, n1, n2) == Low(t2[v] - n1)
  {
  }

  /** What goes through the rotor comes back on a second turn at the same counters. */
  lemma TurnTwice(t1: seq<int>, t2: seq<int>, t3: seq<int>, b: int, n1: int, n2: int)
    requires Inverse(t1, t2) && Involution(t3) && IsByte(b)
    ensures Turn(t1, t2, t3, Turn(t1, t2, t3, b, n1, n2), n1, n2) == b
  {
    var x := Low(b + n1);
    var y := t1[x];
    var z := Low(y + n2);
    var w := t3[z];
    var v := Low(w - n2);
    var u := t2[v];
    assert InverseAt(t1, t2, x) && SwapsAt(t3, z) && InverseAt(t1, t2, v);
    LowCancels(u, n1);
    LowCancels(w, n2);
    LowCancels(y, n2);
    LowCancels(b, n1);
    TurnIs(t1, t2, t3, b, n1, n2, x, z, v);
    TurnIs(t1, t2, t3, Low(u - n1), n1, n2, u, w, y);
  }

  /** Enciphering twice from the same start gives the text back. */
  lemma CryptTwice(t1: seq<int>, t2: seq<int>, t3: seq<int>, text: seq<int>, start: nat)
    requires Inverse(t1, t2) && Involution(t3) && forall i | 0 <= i < |text| :: IsByte(text[i])
    ensures Crypt(t1, t2, t3, Crypt(t1, t2, t3, text, start), start) == text
  {
    var c := Crypt(t1, t2, t3, text, start);
    var d := Crypt(t1, t2, t3, c, start);
    forall i | 0 <= i < |text| ensures d[i] == text[i] {
      TurnTwice(t1, t2, t3, text[i], (start + i) % SIZE, (start + i) / SIZE % SIZE);
      assert c[i] == CryptByte(t1, t2, t3, text[i], start + i);
      assert d[i] == CryptByte(t1, t2, t3, c[i], start + i);
    }
  }

  /** A stream may be cut anywhere, as long as each piece starts where it lies. */
  lemma CryptPieces(t1: seq<int>, t2: seq<int>, t3: seq<int>, a: seq<int>, b: seq<int>, start: nat)
    requires |t1| == |t2| == |t3| == SIZE
    ensures Crypt(t1, t2, t3, a + b, start) == Crypt(t1, t2, t3, a, start) + Crypt(t1, t2, t3, b, start + |a|)
  {
    var left, right := Crypt(t1, t2, t3, a + b, start), Crypt(t1, t2, t3, a, start) + Crypt(t1, t2, t3, b, start + |a|);
    forall i | 0 <= i < |left| ensures left[i] == right[i] {
      if |a| <= i {
        assert (a + b)[i] == b[i - |a|];
      }
    }
  }

  /** The stream position past which the two rotor counters repeat. */
  lemma CryptPeriod(t1: seq<int>, t2: seq<int>, t3: seq<int>, b: int, pos: nat)
    requires |t1| == |t2| == |t3| == SIZE
    ensures CryptByte(t1, t2, t3, b, pos + SIZE * SIZE) == CryptByte(t1, t2, t3, b, pos)
  {
    assert (pos + SIZE * SIZE) % SIZE == pos % SIZE;
    assert (pos + SIZE * SIZE) / SIZE == pos / SIZE + SIZE;
  }

  /** `crblock`: enciphers `buf` in place, keeping the two counters by hand. */
  method CrBlock(t1: seq<int>, t2: seq<int>, t3: seq<int>, buf: array<int>, startn: nat)
    requires |t1| == |t2| == |t3| == SIZE
    modifies buf
    ensures buf[..] == Crypt(t1, t2, t3, old(buf[..]), startn)
  {
    var n1 := startn % SIZE;
    var n2 := startn / SIZE % SIZE;
    var p := 0;
    while p < buf.Length
      invariant 0 <= p <= buf.Length
      invariant n1 == (startn + p) % SIZE && n2 == (startn + p) / SIZE % SIZE
      invariant forall i | 0 <= i < p :: buf[i] == CryptByte(t1, t2, t3, old(buf[i]), startn + i)
      invariant forall i | p <= i < buf.Length :: buf[i] == old(buf[i])
    {
      buf[p] := Low(t2[Low(t3[Low(t1[Low(buf[p] + n1)] + n2)] - n2)] - n1);
      NextCounters(startn + p);
      n1 := n1 + 1;
      if n1 == SIZE {
        n1 := 0;
        n2 := n2 + 1;
        if n2 == SIZE {
          n2 := 0;
        }
      }
      p := p + 1;
    }
  }

  lemma NextCounters(pos: nat)
    ensures var n1, n2 := pos % SIZE, pos / SIZE % SIZE;
            if n1 + 1 < SIZE then (pos + 1) % SIZE == n1 + 1 && (pos + 1) / SIZE % SIZE == n2
            else (pos + 1) % SIZE == 0 && (pos + 1) / SIZE % SIZE == if n2 + 1 == SIZE then 0 else n2 + 1
  {
  }

  // ---------------------------------------------------------------- the machine as it stands on the table

  /** Whole turns make no difference. */
  lemma LowTurns(x: int, q: int)
    ensures Low(x + SIZE * q) == Low(x)
  {
    var n := x / SIZE + q;
    assert x + SIZE * q == Low(x) + SIZE * n;
    LowShift(Low(x), n);
  }

  lemma LowTwice(x: int, n: int)
    ensures Low(Low(x) + n) == Low(x + n) && Low(x + Low(n)) == Low(x + n) && Low(x - Low(n)) == Low(x - n)
  {
    var p, q := x / SIZE, n / SIZE;
    assert x == SIZE * p + Low(x) && n == SIZE * q + Low(n);
    LowTurns(Low(x) + n, p);
    LowTurns(x + Low(n), q);
    LowTurns(x - n, q);
  }

  /** The reflector `t3` turned on by one. */
  ghost predicate ReflectorOn(t3: seq<int>, u3: seq<int>)
  {
    |t3| == |u3| == SIZE && forall x | 0 <= x < SIZE :: u3[x] == Low(t3[Low(x + 1)] - 1)
  }

  /** The rotor, `t1` on the way in and `t2` on the way out, turned on by one. */
  ghost predicate RotorOn(t1: seq<int>, t2: seq<int>, u1: seq<int>, u2: seq<int>)
  {
    |t1| == |t2| == |u1| == |u2| == SIZE
    && forall x | 0 <= x < SIZE :: u1[x] == t1[Low(x + 1)] && u2[x] == Low(t2[x] - 1)
  }

  /** A counter one further, on the way in and on the way out. */
  lemma OneFurther(y: int, n: int)
    ensures Low(y + Low(n + 1)) == Low(Low(y + Low(n)) + 1)
    ensures Low(y - Low(n + 1)) == Low(Low(y - 1) - Low(n))
  {
    FurtherIn(y, n);
    FurtherOut(y, n);
  }

  lemma FurtherIn(y: int, n: int)
    ensures Low(y + Low(n + 1)) == Low(Low(y + Low(n)) + 1)
  {
    LowTwice(y, n + 1);
    LowTwice(y, n);
    LowTwice(y + n, 1);
  }

  lemma FurtherOut(y: int, n: int)
    ensures Low(y - Low(n + 1)) == Low(Low(y - 1) - Low(n))
  {
    LowTwice(y, n + 1);
    LowTwice(y - 1, -n);
    LowTwice(Low(y - 1), n);
  }

  lemma TurnWithReflector(t1: seq<int>, t2: seq<int>, t3: seq<int>, u3: seq<int>, b: int, n1: int, n2: int)
    requires |t1| == |t2| == SIZE && ReflectorOn(t3, u3)
    ensures Turn(t1, t2, t3, b, n1, Low(n2 + 1)) == Turn(t1, t2, u3, b, n1, Low(n2))
  {
    var y := Look(t1, b + n1);
    OneFurther(y, n2);
    OneFurther(t3[Low(y + Low(n2 + 1))], n2);
  }

  lemma TurnWithRotor(t1: seq<int>, t2: seq<int>, t3: seq<int>, u1: seq<int>, u2: seq<int>, b: int, n1: int, n2: int)
    requires RotorOn(t1, t2, u1, u2) && |t3| == SIZE
    ensures Turn(t1, t2, t3, b, Low(n1 + 1), n2) == Turn(u1, u2, t3, b, Low(n1), n2)
  {
    OneFurther(b, n1);
    var y := Look(t1, b + Low(n1 + 1));
    OneFurther(t2[Low(Look(t3, y + n2) - n2)], n1);
  }

  /** 256 bytes on, a byte meets the reflector turned on by one. */
  lemma ReflectorStep(t1: seq<int>, t2: seq<int>, t3: seq<int>, u3: seq<int>, b: int, pos: nat)
    requires |t1| == |t2| == SIZE && ReflectorOn(t3, u3)
    ensures CryptByte(t1, t2, t3, b, pos + SIZE) == CryptByte(t1, t2, u3, b, pos)
  {
    assert (pos + SIZE) % SIZE == pos % SIZE && (pos + SIZE) / SIZE == pos / SIZE + 1;
    TurnWithReflector(t1, t2, t3, u3, b, pos % SIZE, pos / SIZE);
  }

  /** One byte on, a byte meets the rotor turned on by one. */
  lemma RotorStep(t1: seq<int>, t2: seq<int>, t3: seq<int>, u1: seq<int>, u2: seq<int>, b: int, pos: nat)
    requires RotorOn(t1, t2, u1, u2) && |t3| == SIZE && pos % SIZE + 1 < SIZE
    ensures CryptByte(t1, t2, t3, b, pos + 1) == CryptByte(u1, u2, t3, b, pos)
  {
    NextCounters(pos);
    TurnWithRotor(t1, t2, t3, u1, u2, b, pos % SIZE, Low(pos / SIZE));
  }

  /** After a whole turn of the rotor, it meets the reflector turned on by one too. */
  lemma WholeTurn(t1: seq<int>, t2: seq<int>, t3: seq<int>, u1: seq<int>, u2: seq<int>, u3: seq<int>, b: int, pos: nat)
    requires RotorOn(t1, t2, u1, u2) && ReflectorOn(t3, u3) && pos % SIZE + 1 == SIZE
    ensures CryptByte(t1, t2, t3, b, pos + 1) == CryptByte(u1, u2, u3, b, pos)
  {
    var n1, n2 := pos % SIZE, pos / SIZE;
    NextCounters(pos);
    LowTurns(0, 1);
    TurnWithRotor(t1, t2, u3, u1, u2, b, n1, Low(n2));
    TurnWithReflector(t1, t2, t3, u3, b, 0, n2);
    LowTwice(n2, 1);
  }

  /** A machine with real wheels: its tables are where the wheels now stand. */
  datatype Machine = Machine(t1: seq<int>, t2: seq<int>, t3: seq<int>)

  ghost predicate MachineOk(m: Machine)
  {
    |m.t1| == |m.t2| == |m.t3| == SIZE && forall x | 0 <= x < SIZE :: IsByte(m.t1[x]) && IsByte(m.t2[x]) && IsByte(m.t3[x])
  }

  /** Behind byte `pos` the rotor turns by one, and with each whole turn of it the reflector. */
  ghost predicate MachineStep(m: Machine, m': Machine, pos: nat)
  {
    && RotorOn(m.t1, m.t2, m'.t1, m'.t2) && |m.t3| == SIZE
    && if pos % SIZE + 1 == SIZE then ReflectorOn(m.t3, m'.t3) else m'.t3 == m.t3
  }

  ghost predicate MachineRun(ms: seq<Machine>)
  {
    ms != [] && MachineOk(ms[0]) && forall k: nat, next: nat | next == k + 1 < |ms| :: MachineStep(ms[k], ms[next], k)
  }

  /** What wheels and counters turn together. */
  lemma {:induction false} WheelsUpTo(ms: seq<Machine>, pos: nat, j: nat, b: int)
    requires MachineRun(ms) && j <= pos && j < |ms|
    ensures var m, m' := ms[0], ms[j];
            && |m'.t1| == |m'.t2| == |m'.t3| == SIZE
            && CryptByte(m.t1, m.t2, m.t3, b, pos) == Turn(m'.t1, m'.t2, m'.t3, b, Low(pos - j), Low(pos / SIZE - j / SIZE))
  {
    if j > 0 {
      var k := j - 1;
      WheelsUpTo(ms, pos, k, b);
      var m, m' := ms[k], ms[j];
      assert MachineStep(m, m', k);
      TurnWithRotor(m.t1, m.t2, m.t3, m'.t1, m'.t2, b, pos - j, Low(pos / SIZE - k / SIZE));
      if k % SIZE + 1 == SIZE {
        assert j / SIZE == k / SIZE + 1;
        TurnWithReflector(m'.t1, m'.t2, m.t3, m'.t3, b, Low(pos - j), pos / SIZE - j / SIZE);
      } else {
        assert j / SIZE == k / SIZE;
      }
    }
  }

  /** A machine without counters, whose wheels turn behind each byte, enciphers the same. */
  lemma WheelsTurn(ms: seq<Machine>, pos: nat, b: int)
    requires MachineRun(ms) && pos < |ms| && IsByte(b)
    ensures var m, m' := ms[0], ms[pos];
            MachineOk(m') && CryptByte(m.t1, m.t2, m.t3, b, pos) == m'.t2[m'.t3[m'.t1[b]]]
  {
    WheelsUpTo(ms, pos, pos, b);
    StillBytes(ms, pos);
  }

  lemma {:induction false} StillBytes(ms: seq<Machine>, pos: nat)
    requires MachineRun(ms) && pos < |ms|
    ensures MachineOk(ms[pos])
  {
    if pos > 0 {
      var k := pos - 1;
      StillBytes(ms, k);
      assert MachineStep(ms[k], ms[pos], k);
    }
  }

  // ---------------------------------------------------------------- setting the machine up

  const LONG: nat := 0x1_0000_0000

  /** The value that stays of `x` in a signed 32-bit word. */
  function Long(x: int): int
  {
    var r := x % LONG;
    if r < LONG / 2 then r else r - LONG
  }

  lemma LongIs(x: int)
    ensures -0x8000_0000 <= Long(x) < 0x8000_0000 && (x - Long(x)) % LONG == 0
  {
    var r := x % LONG;
    assert x == LONG * (x / LONG) + r;
    assert x - (r - LONG) == LONG * (x / LONG + 1);
  }

  /** The remainder of the original's language, which takes the sign of `x`, then
      stored in an unsigned word. */
  function UnsignedRemainder(x: int, m: nat): (r: nat)
    requires 0 < m
  {
    var t := if x < 0 then -((-x) % m) else x % m;
    t % LONG
  }

  /** It leaves a multiple of `m`: of a negative number, when the word is read as a signed one. */
  lemma RemainderIs(x: int, m: nat, r: nat)
    requires 0 < m <= LONG && r == UnsignedRemainder(x, m)
    ensures x >= 0 ==> r < m && (x - r) % m == 0
    ensures x < 0 ==> (r == 0 && x % m == 0) || (LONG - m < r < LONG && (x - (r - LONG)) % m == 0)
  {
    if x < 0 {
      var q, s := (-x) / m, (-x) % m;
      assert -x == m * q + s && x + s == m * (-q);
      assert s > 0 ==> (-s) % LONG == LONG - s;
      WholeMultiple(-q, m);
    } else {
      assert x - x % m == m * (x / m);
      WholeMultiple(x / m, m);
    }
  }

  lemma WholeMultiple(q: int, m: nat)
    requires 0 < m
    ensures (m * q) % m == 0
  {
    var r := (m * q) % m;
    assert m * q == m * ((m * q) / m) + r;
    assert r == m * (q - (m * q) / m);
    if q != (m * q) / m {
      assert q - (m * q) / m >= 1 || q - (m * q) / m <= -1;
    }
  }

  // ---------------------------------------------------------------- the tables that a key makes

  /** The first seed, from the scrambled key. */
  function SeedOf(buf: seq<int>): int
  {
    if buf == [] then 123 else Long(SeedOf(buf[..|buf| - 1]) * buf[|buf| - 1] + (|buf| - 1))
  }

  /** From `ic` on round the first `k` positions, at most `n` further: the first one unpaired. */
  function Partner(t3: seq<int>, k: nat, ic: nat, n: nat): (r: nat)
    requires ic < k <= |t3|
    ensures r < k
    decreases n
  {
    if n == 0 || t3[ic] == 0 then ic else Partner(t3, k, (ic + 1) % k, n - 1)
  }

  datatype Wiring = Wiring(seed: int, t1: seq<int>, t3: seq<int>)

  ghost predicate StartAt(t1: seq<int>, t3: seq<int>, j: nat)
  {
    j < |t1| && j < |t3| ==> t1[j] == j && t3[j] == 0
  }

  /** Before the first step every byte stands for itself and is unpaired. */
  ghost predicate Start(w: Wiring, buf: seq<int>)
  {
    w.seed == SeedOf(buf) && |w.t1| == |w.t3| == SIZE && forall j: nat :: StartAt(w.t1, w.t3, j)
  }

  /** Byte `k` changes places with another at or below it. */
  function Shuffled(t1: seq<int>, k: nat, random: nat): (r: seq<int>)
    requires k < |t1|
    ensures |r| == |t1|
  {
    var ic := Low(random) % (k + 1);
    t1[k := t1[ic]][ic := t1[k]]
  }

  /** Byte `k`, if it is unpaired, is paired with one below it. */
  function PairedOff(t3: seq<int>, k: nat, random: nat): (r: seq<int>)
    requires k < |t3|
    ensures |r| == |t3|
  {
    if t3[k] != 0 || k == 0 then t3  // byte 0 is never left unpaired
    else
      var ic := Partner(t3, k, Low(random / SIZE) % k, k);
      t3[k := ic][ic := k]
  }

  /** Step `i` of the wiring. */
  function WireOne(w: Wiring, buf: seq<int>, i: nat): (r: Wiring)
    requires |buf| == 13 && i < SIZE == |w.t1| == |w.t3|
    ensures |r.t1| == |r.t3| == SIZE
  {
    var seed := Long(5 * w.seed + buf[i % 13]);
    var random, k := UnsignedRemainder(seed, 65521), SIZE - 1 - i;
    Wiring(seed, Shuffled(w.t1, k, random), PairedOff(w.t3, k, random))
  }

  function Wire(w: Wiring, buf: seq<int>, n: nat): (r: Wiring)
    requires |buf| == 13 && n <= SIZE == |w.t1| == |w.t3|
    ensures |r.t1| == |r.t3| == SIZE
  {
    if n == 0 then w else WireOne(Wire(w, buf, n - 1), buf, n - 1)
  }

  /** Seed 123 and a key that begins with 97 exchange bytes 255 and 200, and pair 255 with 2. */
  lemma FirstWire(w: Wiring, buf: seq<int>)
    requires |buf| == 13 && buf[0] == 97 && w.seed == 123 && |w.t1| == |w.t3| == SIZE
    requires forall j: nat :: StartAt(w.t1, w.t3, j)
    ensures var r := WireOne(w, buf, 0);
            && r.seed == 712 && r.t1 == w.t1[255 := 200][200 := 255] && r.t3 == w.t3[255 := 2][2 := 255]
  {
    assert StartAt(w.t1, w.t3, 255) && StartAt(w.t1, w.t3, 200) && StartAt(w.t1, w.t3, 2);
    assert Long(712) == 712 && UnsignedRemainder(712, 65521) == 712;
    assert 712 % SIZE == 200 && 712 / SIZE == 2;
    assert Low(712) % 256 == 200 && Low(712 / SIZE) % 255 == 2;
  }

  ghost predicate Wired(w: Wiring, buf: seq<int>, n: nat, t1: seq<int>, t3: seq<int>)
  {
    |buf| == 13 && Start(w, buf) && n <= SIZE && t1 == Wire(w, buf, n).t1 && t3 == Wire(w, buf, n).t3
  }

  /** The tables of a key: `t1` and `t3` are wired up step by step, `t2` undoes `t1`. */
  ghost predicate KeyTables(buf: seq<int>, t1: seq<int>, t2: seq<int>, t3: seq<int>)
  {
    Inverse(t1, t2) && Involution(t3) && exists w: Wiring :: Wired(w, buf, |t1|, t1, t3)
  }

  lemma StartOnce(w: Wiring, v: Wiring, buf: seq<int>)
    requires Start(w, buf) && Start(v, buf)
    ensures w == v
  {
    forall j: nat | j < SIZE ensures w.t1[j] == v.t1[j] && w.t3[j] == v.t3[j] {
      assert StartAt(w.t1, w.t3, j) && StartAt(v.t1, v.t3, j);
    }
    assert w.t1 == v.t1 && w.t3 == v.t3;
  }

  lemma InverseOnce(t1: seq<int>, t2: seq<int>, u2: seq<int>)
    requires Inverse(t1, t2) && Inverse(t1, u2)
    ensures t2 == u2
  {
    forall i | 0 <= i < SIZE ensures t2[i] == u2[i] {
      assert InverseAt(t1, t2, i) && InverseAt(t1, u2, i) && InverseAt(t1, u2, t2[i]);
    }
  }

  /** One key makes one set of tables. */
  lemma SameKeySameTables(buf: seq<int>, t1: seq<int>, t2: seq<int>, t3: seq<int>, u1: seq<int>, u2: seq<int>, u3: seq<int>)
    requires KeyTables(buf, t1, t2, t3) && KeyTables(buf, u1, u2, u3)
    ensures t1 == u1 && t2 == u2 && t3 == u3
  {
    var w :| Wired(w, buf, |t1|, t1, t3);
    var v :| Wired(v, buf, |u1|, u1, u3);
    StartOnce(w, v, buf);
    assert t1 == u1;
    InverseOnce(t1, t2, u2);
  }

  /** So what one machine has enciphered, another set up with the same key deciphers. */
  lemma SameKeyDeciphers(buf: seq<int>, t1: seq<int>, t2: seq<int>, t3: seq<int>, u1: seq<int>, u2: seq<int>, u3: seq<int>,
                         text: seq<int>, start: nat)
    requires KeyTables(buf, t1, t2, t3) && KeyTables(buf, u1, u2, u3) && forall i | 0 <= i < |text| :: IsByte(text[i])
    ensures Crypt(u1, u2, u3, Crypt(t1, t2, t3, text, start), start) == text
  {
    SameKeySameTables(buf, t1, t2, t3, u1, u2, u3);
    CryptTwice(t1, t2, t3, text, start);
  }

  // ---------------------------------------------------------------- why the tables come out right

  function Zeros(s: seq<int>): nat
  {
    if s == [] then 0 else Zeros(s[..|s| - 1]) + if s[|s| - 1] == 0 then 1 else 0
  }

  lemma {:induction false} SetOne(s: seq<int>, i: nat, v: int)
    requires i < |s| && s[i] == 0 && v != 0
    ensures Zeros(s[i := v]) == Zeros(s) - 1
  {
    var s', n := s[i := v], |s| - 1;
    if i == n {
      assert s'[..n] == s[..n];
    } else {
      assert s'[..n] == s[..n][i := v];
      SetOne(s[..n], i, v);
    }
  }

  lemma {:induction false} SomeZero(s: seq<int>) returns (z: nat)
    requires Zeros(s) > 0
    ensures z < |s| && s[z] == 0
  {
    var n := |s| - 1;
    if s[n] == 0 {
      z := n;
    } else {
      z := SomeZero(s[..n]);
    }
  }

  /** Bytes from `k` up are paired off; below `k`, a byte is zero in the table if
      it is still unpaired, and else paired with one from `k` up. */
  ghost predicate PairedAt(t3: seq<int>, k: int, i: int)
    requires |t3| == SIZE
  {
    if !IsByte(i) then true
    else if k <= i then SwapsAt(t3, i)
    else IsByte(t3[i]) && (t3[i] != 0 ==> k <= t3[i] && t3[t3[i]] == i)
  }

  ghost predicate Paired(t3: seq<int>, k: int)
  {
    |t3| == SIZE && forall i :: PairedAt(t3, k, i)
  }

  /** Byte `k` finds its partner `ic`, both still unpaired. */
  lemma PairUp(t3: seq<int>, k: nat, ic: nat)
    requires 0 < k < SIZE && ic < k && Paired(t3, k + 1) && t3[k] == 0 && t3[ic] == 0
    ensures Paired(t3[k := ic][ic := k], k)
    ensures Zeros(t3[k := ic][ic := k][..k]) == Zeros(t3[..k + 1]) - 2
  {
    var t3' := t3[k := ic][ic := k];
    forall i ensures PairedAt(t3', k, i) {
      assert PairedAt(t3, k + 1, i);
    }
    assert t3'[..k] == t3[..k][ic := k];
    SetOne(t3[..k], ic, k);
    assert t3[..k + 1][..k] == t3[..k];
  }

  /** Byte `k` has its partner already. */
  lemma AlreadyPaired(t3: seq<int>, k: nat)
    requires k < SIZE && Paired(t3, k + 1) && t3[k] != 0
    ensures Paired(t3, k) && Zeros(t3[..k]) == Zeros(t3[..k + 1])
  {
    forall i ensures PairedAt(t3, k, i) {
      assert PairedAt(t3, k + 1, i) && PairedAt(t3, k + 1, k);
    }
    assert t3[..k + 1][..k] == t3[..k];
  }

  /** With an even number of bytes unpaired, none of them is left alone. */
  lemma PartnerLeft(t3: seq<int>, k: nat) returns (z: nat)
    requires k < SIZE && |t3| == SIZE && t3[k] == 0 && Zeros(t3[..k + 1]) % 2 == 0
    ensures z < k && t3[z] == 0
  {
    assert t3[..k + 1][..k] == t3[..k];
    z := SomeZero(t3[..k]);
  }

  /** Exchanging two entries of `t1` exchanges two of its inverse. */
  lemma SwapInverse(t1: seq<int>, inv: seq<int>, i: nat, j: nat)
    requires Inverse(t1, inv) && i < SIZE && j < SIZE
    requires IsByte(t1[i]) && IsByte(t1[j])
    ensures Inverse(t1[i := t1[j]][j := t1[i]], inv[t1[j] := i][t1[i] := j])
  {
    var t1', inv' := t1[i := t1[j]][j := t1[i]], inv[t1[j] := i][t1[i] := j];
    assert InverseAt(t1, inv, i) && InverseAt(t1, inv, j);
    forall b ensures InverseAt(t1', inv', b) {
      assert InverseAt(t1, inv, b);
    }
  }

  lemma StartTables(t1: seq<int>, t3: seq<int>)
    requires |t1| == |t3| == SIZE && forall j | 0 <= j < SIZE :: t1[j] == j && t3[j] == 0
    ensures Inverse(t1, t1) && Paired(t3, SIZE) && Zeros(t3) == SIZE
  {
    forall i ensures InverseAt(t1, t1, i) && PairedAt(t3, SIZE, i) {
    }
    AllZeros(t3);
  }

  lemma {:induction false} AllZeros(s: seq<int>)
    requires forall j | 0 <= j < |s| :: s[j] == 0
    ensures Zeros(s) == |s|
  {
    if s != [] {
      AllZeros(s[..|s| - 1]);
    }
  }

  lemma AllPaired(t3: seq<int>)
    requires Paired(t3, 0)
    ensures Involution(t3)
  {
    forall i ensures SwapsAt(t3, i) {
      assert PairedAt(t3, 0, i);
    }
  }

  /** One step of the shuffle: entries `k` and `ic` change places. */
  method Exchange(t1: array<int>, k: nat, ic: nat, ghost inv: seq<int>) returns (ghost inv': seq<int>)
    requires t1.Length == SIZE && k < SIZE && ic < SIZE && Inverse(t1[..], inv)
    modifies t1
    ensures Inverse(t1[..], inv') && t1[..] == old(t1[..])[k := old(t1[ic])][ic := old(t1[k])]
  {
    ghost var s := t1[..];
    assert InverseAt(s, inv, k) && InverseAt(s, inv, ic);
    SwapInverse(s, inv, k, ic);
    inv' := inv[s[ic] := k][s[k] := ic];
    var temp := t1[k];
    t1[k] := t1[ic];
    t1[ic] := temp;
    assert t1[..] == s[k := s[ic]][ic := s[k]];
  }

  lemma NextIndex(ic: nat, k: nat)
    requires ic < k
    ensures (ic + 1) % k == if ic + 1 == k then 0 else ic + 1
  {
  }

  /** The search for the first unpaired byte from `r % k` on; `z` is one. */
  method SearchPartner(t3: array<int>, k: nat, r: nat, ghost z: nat) returns (ic: nat)
    requires z < k < t3.Length && t3[z] == 0
    ensures ic < k && t3[ic] == 0 && ic == Partner(t3[..], k, r % k, k)
  {
    ic := r % k;
    ghost var n := k;
    while t3[ic] != 0
      invariant ic < k && (if ic <= z then z - ic else z + k - ic) < n <= k
      invariant Partner(t3[..], k, ic, n) == Partner(t3[..], k, r % k, k)
      decreases n
    {
      NextIndex(ic, k);
      n := n - 1;
      ic := (ic + 1) % k;
    }
  }

  /** Pairs byte `k` with the first unpaired one from `r % k` on. */
  method FindPartner(t3: array<int>, k: nat, r: nat)
    requires t3.Length == SIZE && k < SIZE && Paired(t3[..], k + 1) && t3[k] == 0
    requires Zeros(t3[..][..k + 1]) % 2 == 0
    modifies t3
    ensures Paired(t3[..], k) && Zeros(t3[..][..k]) % 2 == 0
    ensures 0 < k && var ic := Partner(old(t3[..]), k, r % k, k); t3[..] == old(t3[..])[k := ic][ic := k]
  {
    ghost var s := t3[..];
    ghost var z := PartnerLeft(s, k);
    var ic := SearchPartner(t3, k, r, z);
    PairUp(s, k, ic);
    t3[k] := ic;
    t3[ic] := k;
    assert t3[..] == s[k := ic][ic := k];
  }

  /** The last loop: `t2` is filled in as the inverse of `t1`. */
  method Invert(t1: array<int>, t2: array<int>, ghost inv: seq<int>)
    requires t1.Length == t2.Length == SIZE && t1 != t2 && Inverse(t1[..], inv)
    modifies t2
    ensures t2[..] == inv
  {
    ghost var s := t1[..];
    for i := 0 to SIZE
      invariant t1[..] == s
      invariant forall v | IsByte(v) && 0 <= inv[v] < i :: t2[v] == inv[v]
    {
      assert InverseAt(s, inv, i);
      t2[Low(t1[i])] := i;
      forall v | IsByte(v) && inv[v] == i ensures t2[v] == i {
        assert InverseAt(s, inv, v);
      }
    }
    forall v | IsByte(v) ensures t2[v] == inv[v] {
      assert InverseAt(s, inv, v);
    }
  }

  /** The first loop of `crinit`. */
  method FirstSeed(buf: seq<int>) returns (seed: int)
    requires |buf| == 13
    ensures seed == SeedOf(buf)
  {
    seed := 123;
    assert buf[..0] == [];
    for i := 0 to 13
      invariant seed == SeedOf(buf[..i])
    {
      assert buf[..i + 1][..i] == buf[..i];
      seed := Long(seed * buf[i] + i);
    }
    assert buf[..13] == buf;
  }

  /** How far the wiring is, and why it can go on: with `k` bytes to go, an even number of those is unpaired. */
  ghost predicate UnderWay(w: Wiring, buf: seq<int>, i: nat, seed: int, t1: seq<int>, t3: seq<int>, inv: seq<int>)
  {
    && i <= SIZE && Wired(w, buf, i, t1, t3) && seed == Wire(w, buf, i).seed
    && Inverse(t1, inv) && Paired(t3, SIZE - i) && Zeros(t3[..SIZE - i]) % 2 == 0
  }

  /** One turn of the loop that fills the tables. */
  method WireStep(buf: seq<int>, i: nat, seed0: int, t1: array<int>, t3: array<int>, ghost w: Wiring, ghost inv: seq<int>)
      returns (seed: int, ghost inv': seq<int>)
    requires t1.Length == t3.Length == SIZE && t1 != t3 && i < SIZE
    requires UnderWay(w, buf, i, seed0, t1[..], t3[..], inv)
    modifies t1, t3
    ensures UnderWay(w, buf, i + 1, seed, t1[..], t3[..], inv')
  {
    seed := Long(5 * seed0 + buf[i % 13]);
    var random := UnsignedRemainder(seed, 65521);
    var k := SIZE - 1 - i;
    inv' := Exchange(t1, k, Low(random) % (k + 1), inv);
    random := random / SIZE;
    if t3[k] != 0 {
      AlreadyPaired(t3[..], k);
    } else {
      FindPartner(t3, k, Low(random));
    }
  }

  /** `crinit`: builds the three tables from the 13 characters that the key was
      scrambled into; a null key builds nothing. */
  method CrInit(nullKey: bool, buf: seq<int>, t1: array<int>, t2: array<int>, t3: array<int>) returns (keyed: int)
    requires |buf| == 13 && t1.Length == t2.Length == t3.Length == SIZE
    requires t1 != t2 && t1 != t3 && t2 != t3
    modifies t1, t2, t3
    ensures keyed == if nullKey then 0 else 1
    ensures nullKey ==> t1[..] == old(t1[..]) && t2[..] == old(t2[..]) && t3[..] == old(t3[..])
    ensures !nullKey ==> KeyTables(buf, t1[..], t2[..], t3[..])
  {
    if nullKey {
      return 0;
    }
    var seed := FirstSeed(buf);
    for i := 0 to SIZE
      invariant forall j | 0 <= j < i :: t1[j] == j && t3[j] == 0
    {
      t1[i] := i;
      t3[i] := 0;
    }
    StartTables(t1[..], t3[..]);
    ghost var w, inv := Wiring(seed, t1[..], t3[..]), t1[..];
    StartWiring(w, buf);
    for i := 0 to SIZE
      invariant UnderWay(w, buf, i, seed, t1[..], t3[..], inv)
    {
      seed, inv := WireStep(buf, i, seed, t1, t3, w, inv);
    }
    Invert(t1, t2, inv);
    AllPaired(t3[..]);
    assert Wired(w, buf, |t1[..]|, t1[..], t3[..]);
    return 1;
  }

  lemma StartWiring(w: Wiring, buf: seq<int>)
    requires |buf| == 13 && w.seed == SeedOf(buf) && |w.t1| == |w.t3| == SIZE
    requires forall j | 0 <= j < SIZE :: w.t1[j] == j && w.t3[j] == 0
    ensures Wired(w, buf, 0, w.t1, w.t3) && w.t3[..SIZE] == w.t3
  {
    forall j: nat ensures StartAt(w.t1, w.t3, j) {
    }
  }
}
