// The 32-bit reflected CRC register: shifting it by one bit, feeding it message bits, and the laws
// of both. The operations on bit vectors are named so that the proofs can treat them as opaque.
module CrcRegister {

  const POLYNOMIAL: bv32 := 0xEDB8_8320

  function Xor(a: bv32, b: bv32): bv32 { a ^ b }

  function Half(c: bv32): bv32 { c >> 1 }

  function Double(c: bv32): bv32 { c << 1 }

  predicate Odd(c: bv32) { c & 1 == 1 }

  predicate Top(c: bv32) { c & 0x8000_0000 != 0 }

  // One bit step: the bit that falls out decides whether the polynomial is added.
  function Shift(c: bv32): bv32 {
    if Odd(c) then Xor(Half(c), POLYNOMIAL) else Half(c)
  }

  function Shifts(c: bv32, n: nat): bv32
    decreases n
  {
    if n == 0 then c else Shifts(Shift(c), n - 1)
  }

  // The word whose lowest bit is b.
  function BitWord(b: bool): bv32 { if b then 1 else 0 }

  // ---- addition of words, and the operations that respect it ----

  lemma XorCommutes(a: bv32, b: bv32)
    ensures Xor(a, b) == Xor(b, a)
  {}

  lemma XorAssociates(a: bv32, b: bv32, c: bv32)
    ensures Xor(Xor(a, b), c) == Xor(a, Xor(b, c))
  {}

  lemma XorUnit(a: bv32)
    ensures Xor(a, 0) == a && Xor(0, a) == a && Xor(a, a) == 0
  {}

  lemma XorCancels(a: bv32, b: bv32, c: bv32)
    ensures Xor(a, b) == Xor(a, c) ==> b == c
  {
    XorAssociates(a, a, b);
    XorAssociates(a, a, c);
    XorUnit(a);
    XorUnit(b);
    XorUnit(c);
    hide Xor;
  }

  lemma XorSwaps(a: bv32, b: bv32, c: bv32, d: bv32)
    ensures Xor(Xor(a, b), Xor(c, d)) == Xor(Xor(a, c), Xor(b, d))
  {
    hide Xor;
    XorAssociates(a, b, Xor(c, d));
    XorAssociates(b, c, d);
    XorCommutes(b, c);
    XorAssociates(c, b, d);
    XorAssociates(a, c, Xor(b, d));
  }

  lemma HalfIsLinear(a: bv32, b: bv32)
    ensures Half(Xor(a, b)) == Xor(Half(a), Half(b))
  {}

  lemma DoubleIsLinear(a: bv32, b: bv32)
    ensures Double(Xor(a, b)) == Xor(Double(a), Double(b))
  {}

  lemma OddIsLinear(a: bv32, b: bv32)
    ensures Odd(Xor(a, b)) <==> Odd(a) != Odd(b)
  {}

  lemma TopIsLinear(a: bv32, b: bv32)
    ensures Top(Xor(a, b)) <==> Top(a) != Top(b)
  {}

  // What a shift adds.
  function Tap(c: bv32): bv32 { if Odd(c) then POLYNOMIAL else 0 }

  lemma ShiftAsXor(c: bv32)
    ensures Shift(c) == Xor(Half(c), Tap(c))
  {
    hide Xor, Half, Odd;
    XorUnit(Half(c));
  }

  lemma TapIsLinear(a: bv32, b: bv32)
    ensures Tap(Xor(a, b)) == Xor(Tap(a), Tap(b))
  {
    hide Xor, Odd;
    OddIsLinear(a, b);
    XorUnit(POLYNOMIAL);
    XorUnit(0);
  }

  lemma ShiftIsLinear(a: bv32, b: bv32)
    ensures Shift(Xor(a, b)) == Xor(Shift(a), Shift(b))
  {
    hide Shift, Xor, Tap, Half;
    ShiftAsXor(a);
    ShiftAsXor(b);
    ShiftAsXor(Xor(a, b));
    TapIsLinear(a, b);
    HalfIsLinear(a, b);
    XorSwaps(Half(a), Tap(a), Half(b), Tap(b));
  }

  lemma {:induction false} ShiftsIsLinear(a: bv32, b: bv32, n: nat)
    ensures Shifts(Xor(a, b), n) == Xor(Shifts(a, n), Shifts(b, n))
    decreases n
  {
    hide Xor, Shift;
    if n > 0 {
      ShiftIsLinear(a, b);
      ShiftsIsLinear(Shift(a), Shift(b), n - 1);
    }
  }

  // The polynomial has its top bit set, so no information is lost in a shift.
  lemma ShiftIsInjective(a: bv32, b: bv32)
    requires Shift(a) == Shift(b)
    ensures a == b
  {}

  lemma {:induction false} ShiftsIsInjective(a: bv32, b: bv32, n: nat)
    requires Shifts(a, n) == Shifts(b, n)
    ensures a == b
    decreases n
  {
    hide Xor, Shift;
    if n > 0 {
      ShiftsIsInjective(Shift(a), Shift(b), n - 1);
      ShiftIsInjective(a, b);
    }
  }

  // ---- feeding bits ----

  function Feed(c: bv32, b: bool): bv32 { Shift(Xor(c, BitWord(b))) }

  function FeedAll(c: bv32, bits: seq<bool>): bv32
    decreases |bits|
  {
    if bits == [] then c else FeedAll(Feed(c, bits[0]), bits[1..])
  }

  lemma {:induction false} FeedAllAppend(c: bv32, m: seq<bool>, p: seq<bool>)
    ensures FeedAll(c, m + p) == FeedAll(FeedAll(c, m), p)
    decreases |m|
  {
    hide Feed;
    if m == [] {
      assert m + p == p;
    } else {
      assert (m + p)[1..] == m[1..] + p;
      FeedAllAppend(Feed(c, m[0]), m[1..], p);
    }
  }

  lemma {:induction false} FeedAllIsInjective(c: bv32, d: bv32, m: seq<bool>)
    requires FeedAll(c, m) == FeedAll(d, m)
    ensures c == d
    decreases |m|
  {
    hide Xor, Shift, BitWord;
    if m != [] {
      FeedAllIsInjective(Feed(c, m[0]), Feed(d, m[0]), m[1..]);
      ShiftIsInjective(Xor(c, BitWord(m[0])), Xor(d, BitWord(m[0])));
      XorCommutes(c, BitWord(m[0]));
      XorCommutes(d, BitWord(m[0]));
      XorCancels(BitWord(m[0]), c, d);
    }
  }

  // ---- feeding up to 32 bits at once ----

  // The word with message bit i as its bit i.
  function Pack(m: seq<bool>): bv32
    decreases |m|
  {
    if m == [] then 0 else Xor(BitWord(m[0]), Double(Pack(m[1..])))
  }

  // The top k bits are zero.
  predicate Room(v: bv32, k: nat)
    decreases k
  {
    if k == 0 then true else if Top(v) then false else Room(Double(v), k - 1)
  }

  lemma {:induction false} RoomXor(v: bv32, w: bv32, k: nat)
    requires Room(v, k) && Room(w, k)
    ensures Room(Xor(v, w), k)
    decreases k
  {
    hide Xor, Double, Top;
    if k > 0 {
      TopIsLinear(v, w);
      DoubleIsLinear(v, w);
      RoomXor(Double(v), Double(w), k - 1);
    }
  }

  lemma {:induction false} RoomLess(v: bv32, k: nat, j: nat)
    requires Room(v, k) && j <= k
    ensures Room(v, j)
    decreases k
  {
    hide Double, Top;
    if j > 0 {
      RoomLess(Double(v), k - 1, j - 1);
    }
  }

  lemma {:induction false} RoomZero(k: nat)
    ensures Room(0, k)
    decreases k
  {
    if k > 0 {
      assert Double(0) == 0;
      RoomZero(k - 1);
    }
  }

  lemma RoomBit(b: bool, k: nat)
    requires k <= 31
    ensures Room(BitWord(b), k)
  {
    RoomZero(k);
    assert Room(0x0800_0000, 4);
    assert Room(0x0080_0000, 8);
    assert Room(0x0008_0000, 12);
    assert Room(0x0000_8000, 16);
    assert Room(0x0000_0800, 20);
    assert Room(0x0000_0080, 24);
    assert Room(0x0000_0008, 28);
    assert Room(1, 31);
    hide Room;
    RoomLess(1, 31, k);
  }

  lemma {:induction false} PackRoom(m: seq<bool>)
    requires |m| <= 32
    ensures Room(Pack(m), 32 - |m|)
    decreases |m|
  {
    hide Xor, Double, Top, BitWord;
    if m == [] {
      RoomZero(32);
    } else {
      PackRoom(m[1..]);
      RoomBit(m[0], 32 - |m|);
      RoomXor(BitWord(m[0]), Double(Pack(m[1..])), 32 - |m|);
    }
  }

  lemma ShiftOfDouble(v: bv32)
    requires !Top(v)
    ensures Shift(Double(v)) == v
  {}

  lemma FeedOfDouble(c: bv32, b: bool, v: bv32)
    requires !Top(v)
    ensures Xor(Feed(c, b), v) == Shift(Xor(c, Xor(BitWord(b), Double(v))))
  {
    hide Xor, Double, Top, Shift, BitWord;
    ShiftOfDouble(v);
    ShiftIsLinear(Xor(c, BitWord(b)), Double(v));
    XorAssociates(c, BitWord(b), Double(v));
  }

  // Feeding at most 32 bits one by one is adding them all first and shifting afterwards.
  lemma {:induction false} FeedPacked(c: bv32, m: seq<bool>)
    requires |m| <= 32
    ensures FeedAll(c, m) == Shifts(Xor(c, Pack(m)), |m|)
    decreases |m|
  {
    hide Xor, Double, Top, Shift, BitWord, Feed;
    if m == [] {
      XorUnit(c);
    } else {
      var rest := m[1..];
      PackRoom(rest);
      FeedPacked(Feed(c, m[0]), rest);
      FeedOfDouble(c, m[0], Pack(rest));
    }
  }

  lemma BitWordThenDouble(b: bool, v: bv32)
    ensures Odd(Xor(BitWord(b), Double(v))) <==> b
  {
    OddIsLinear(BitWord(b), Double(v));
  }

  lemma DoubleIsInjective(v: bv32, w: bv32)
    requires !Top(v) && !Top(w) && Double(v) == Double(w)
    ensures v == w
  {}

  lemma {:induction false} PackIsInjective(m: seq<bool>, p: seq<bool>)
    requires |m| == |p| <= 32 && Pack(m) == Pack(p)
    ensures m == p
    decreases |m|
  {
    hide Xor, Double, Top, BitWord, Odd;
    if m != [] {
      var v, w := Pack(m[1..]), Pack(p[1..]);
      PackRoom(m[1..]);
      PackRoom(p[1..]);
      BitWordThenDouble(m[0], v);
      BitWordThenDouble(p[0], w);
      XorCancels(BitWord(m[0]), Double(v), Double(w));
      DoubleIsInjective(v, w);
      PackIsInjective(m[1..], p[1..]);
      assert m == [m[0]] + m[1..] && p == [p[0]] + p[1..];
    }
  }

  // Two different messages of the same length, at most 32 bits, never lead one register to the
  // same place.
  lemma ShortBurstChangesRegister(c: bv32, x: seq<bool>, y: seq<bool>)
    requires |x| == |y| <= 32 && x != y
    ensures FeedAll(c, x) != FeedAll(c, y)
  {
    hide Xor, FeedAll, Shifts, Pack;
    if FeedAll(c, x) == FeedAll(c, y) {
      FeedPacked(c, x);
      FeedPacked(c, y);
      ShiftsIsInjective(Xor(c, Pack(x)), Xor(c, Pack(y)), |x|);
      XorCancels(c, Pack(x), Pack(y));
      PackIsInjective(x, y);
    }
  }
}
