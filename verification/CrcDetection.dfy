// Which alterations a CRC-32 sees.
module CrcDetection {
  import opened CrcRegister
  import opened CrcDivision
  import opened Crc

  // The CRC, taken out of its final complement, is the remainder of the message shifted up by 32
  // places, the initial ones added to its front.
  lemma Crc32IsLongDivision(data: seq<bv8>)
    ensures Remainder(Mix(ALL_ONES, Bits(data) + Zeros(32)))
         == Mix(Xor(Crc32(data), ALL_ONES), Zeros(32))
  {
    hide *;
    RegisterIsRemainder(ALL_ONES, Bits(data));
    Unmask(data);
  }

  lemma Unmask(data: seq<bv8>)
    ensures Xor(Crc32(data), ALL_ONES) == FeedAll(ALL_ONES, Bits(data))
  {
    hide FeedAll, Bits;
    XorAgain(FeedAll(ALL_ONES, Bits(data)), ALL_ONES);
  }

  lemma XorAgain(a: bv32, b: bv32)
    ensures Xor(Xor(a, b), b) == a
  {
    hide Xor;
    XorAssociates(a, b, b);
    XorUnit(a);
    XorUnit(b);
  }

  lemma SameCrcSameRegister(a: seq<bv8>, b: seq<bv8>)
    ensures Crc32(a) == Crc32(b) <==> FeedAll(ALL_ONES, Bits(a)) == FeedAll(ALL_ONES, Bits(b))
  {
    hide Crc32, FeedAll, Bits;
    Unmask(a);
    Unmask(b);
    CrcOfRegister(a);
    CrcOfRegister(b);
  }

  lemma CrcOfRegister(a: seq<bv8>)
    ensures Crc32(a) == Xor(FeedAll(ALL_ONES, Bits(a)), ALL_ONES)
  {}

  // ---- linearity ----

  function Difference(x: seq<bool>, y: seq<bool>): (d: seq<bool>)
    requires |x| == |y|
    ensures |d| == |x|
  {
    seq(|x|, i requires 0 <= i < |x| => x[i] != y[i])
  }

  lemma BitWordIsLinear(p: bool, q: bool)
    ensures BitWord(p != q) == Xor(BitWord(p), BitWord(q))
  {}

  // Feeding differences is the difference of feeding.
  lemma {:induction false} FeedIsLinear(c: bv32, d: bv32, x: seq<bool>, y: seq<bool>)
    requires |x| == |y|
    ensures Xor(FeedAll(c, x), FeedAll(d, y)) == FeedAll(Xor(c, d), Difference(x, y))
    decreases |x|
  {
    hide Xor, Feed, Difference;
    if x != [] {
      FeedIsLinear(Feed(c, x[0]), Feed(d, y[0]), x[1..], y[1..]);
      TailOfDifference(x, y);
      FeedOneIsLinear(c, d, x[0], y[0]);
    }
  }

  lemma TailOfDifference(x: seq<bool>, y: seq<bool>)
    requires |x| == |y| > 0
    ensures Difference(x, y)[0] == (x[0] != y[0])
    ensures Difference(x, y)[1..] == Difference(x[1..], y[1..])
  {
    var d, e := Difference(x, y)[1..], Difference(x[1..], y[1..]);
    assert |d| == |e|;
    forall i | 0 <= i < |d| ensures d[i] == e[i] {
      assert x[1..][i] == x[i + 1] && y[1..][i] == y[i + 1];
    }
  }

  lemma FeedOneIsLinear(c: bv32, d: bv32, p: bool, q: bool)
    ensures Xor(Feed(c, p), Feed(d, q)) == Feed(Xor(c, d), p != q)
  {
    hide Xor, Shift, BitWord;
    var u, v := BitWord(p), BitWord(q);
    ShiftIsLinear(Xor(c, u), Xor(d, v));
    XorSwaps(c, u, d, v);
    BitWordIsLinear(p, q);
  }

  // ---- zero remainders ----

  function Unpack(c: bv32): seq<bool> { Mix(c, Zeros(32)) }

  function HalveBy(c: bv32, n: nat): bv32
    decreases n
  {
    if n == 0 then c else HalveBy(Half(c), n - 1)
  }

  lemma {:induction false} AllZero(c: bv32, n: nat)
    requires Mix(c, Zeros(n)) == Zeros(n) && HalveBy(c, n) == 0
    ensures c == 0
    decreases n
  {
    hide Odd, Half;
    if n > 0 {
      assert Zeros(n)[1..] == Zeros(n - 1);
      assert Mix(c, Zeros(n))[0] == Odd(c);
      assert Mix(c, Zeros(n))[1..] == Mix(Half(c), Zeros(n - 1));
      AllZero(Half(c), n - 1);
      HalfZero(c);
    }
  }

  lemma HalfZero(c: bv32)
    requires !Odd(c) && Half(c) == 0
    ensures c == 0
  {}

  lemma HalveBy8(c: bv32, n: nat)
    ensures HalveBy(c, n + 8) == HalveBy(Byte1(c), n)
  {
    EightHalves(c);
    hide Half, Byte1;
    var c1 := Half(c); var c2 := Half(c1); var c3 := Half(c2); var c4 := Half(c3);
    assert HalveBy(c, n + 8) == HalveBy(c1, n + 7) == HalveBy(c2, n + 6) == HalveBy(c3, n + 5) == HalveBy(c4, n + 4);
    var c5 := Half(c4); var c6 := Half(c5); var c7 := Half(c6);
    assert HalveBy(c4, n + 4) == HalveBy(c5, n + 3) == HalveBy(c6, n + 2) == HalveBy(c7, n + 1);
  }

  lemma FourBytes(c: bv32)
    ensures Byte1(Byte1(Byte1(Byte1(c)))) == 0
  {}

  lemma HalveBy32(c: bv32)
    ensures HalveBy(c, 32) == 0
  {
    hide Byte1, HalveBy;
    HalveBy8(c, 24);
    HalveBy8(Byte1(c), 16);
    HalveBy8(Byte1(Byte1(c)), 8);
    HalveBy8(Byte1(Byte1(Byte1(c))), 0);
    FourBytes(c);
    assert HalveBy(0, 0) == 0 by { HalveByNone(0); }
  }

  lemma HalveByNone(c: bv32)
    ensures HalveBy(c, 0) == c
  {}

  lemma UnpackZero(c: bv32)
    ensures Unpack(c) == Zeros(32) <==> c == 0
  {
    hide HalveBy, Odd, Half;
    HalveBy32(c);
    MixZero(Zeros(32));
    if Unpack(c) == Zeros(32) { AllZero(c, 32); }
  }

  // Two equally long tables have the same CRC exactly when the generator divides their
  // difference (shifted up by 32 places).
  ghost predicate GeneratorDivides(e: seq<bool>) {
    Remainder(e + Zeros(32)) == Zeros(32)
  }

  lemma SameCrcIffGeneratorDivides(a: seq<bv8>, b: seq<bv8>)
    requires |a| == |b|
    ensures Crc32(a) == Crc32(b) <==> GeneratorDivides(Difference(Bits(a), Bits(b)))
  {
    hide Crc32, FeedAll, Bits, Remainder, Mix, Zeros, Xor, Difference;
    SameCrcSameRegister(a, b);
    var e := Difference(Bits(a), Bits(b));
    var x, y := FeedAll(ALL_ONES, Bits(a)), FeedAll(ALL_ONES, Bits(b));
    FeedIsLinear(ALL_ONES, ALL_ONES, Bits(a), Bits(b));
    XorUnit(ALL_ONES);
    RegisterIsRemainder(0, e);
    MixZero(e + Zeros(32));
    UnpackZero(FeedAll(0, e));
    ZeroIffEqual(x, y);
  }

  // The difference of two CRCs is what the generator leaves of the difference of the messages.
  lemma CrcDifference(a: seq<bv8>, b: seq<bv8>)
    requires |a| == |b|
    ensures Unpack(Xor(Crc32(a), Crc32(b))) == Remainder(Difference(Bits(a), Bits(b)) + Zeros(32))
  {
    hide *;
    var e := Difference(Bits(a), Bits(b));
    var x, y := FeedAll(ALL_ONES, Bits(a)), FeedAll(ALL_ONES, Bits(b));
    CrcOfRegister(a);
    CrcOfRegister(b);
    XorSwaps(x, ALL_ONES, y, ALL_ONES);
    XorUnit(ALL_ONES);
    XorUnit(Xor(x, y));
    FeedIsLinear(ALL_ONES, ALL_ONES, Bits(a), Bits(b));
    RegisterIsRemainder(0, e);
    MixZero(e + Zeros(32));
    UnpackIs(FeedAll(0, e));
  }

  lemma UnpackIs(c: bv32)
    ensures Unpack(c) == Mix(c, Zeros(32))
  {}

  lemma UnpackIsInjective(c: bv32, d: bv32)
    requires Unpack(c) == Unpack(d)
    ensures c == d
  {
    hide *;
    UnpackIs(c);
    UnpackIs(d);
    UnpackIs(Xor(c, d));
    MixTwice(c, c, Zeros(32));
    MixTwice(c, d, Zeros(32));
    XorUnit(c);
    MixZero(Zeros(32));
    UnpackZero(Xor(c, d));
    ZeroIffEqual(c, d);
  }

  lemma ZeroIffEqual(x: bv32, y: bv32)
    ensures Xor(x, y) == 0 <==> x == y
  {
    XorCancels(x, y, x);
    XorUnit(x);
  }

  // ---- bursts ----

  lemma ByteBitsAreInjective(x: bv8, y: bv8)
    requires ByteBits(x) == ByteBits(y)
    ensures x == y
  {
    hide Pack, ByteBits;
    PackByte(x);
    PackByte(y);
    WordIsInjective(x, y);
  }

  lemma WordIsInjective(x: bv8, y: bv8)
    requires Word(x) == Word(y)
    ensures x == y
  {}

  lemma {:induction false} BitsAreInjective(x: seq<bv8>, y: seq<bv8>)
    requires |x| == |y| && Bits(x) == Bits(y)
    ensures x == y
    decreases |x|
  {
    hide ByteBits;
    if x != [] {
      ByteBitsLength(x[0]);
      ByteBitsLength(y[0]);
      assert ByteBits(x[0]) == Bits(x)[..8] == Bits(y)[..8] == ByteBits(y[0]);
      assert Bits(x[1..]) == Bits(x)[8..] == Bits(y)[8..] == Bits(y[1..]);
      ByteBitsAreInjective(x[0], y[0]);
      BitsAreInjective(x[1..], y[1..]);
      assert x == [x[0]] + x[1..] && y == [y[0]] + y[1..];
    }
  }

  // Changing at most 32 consecutive bits always changes the register, whatever surrounds them.
  lemma BitBurstIsSeen(c: bv32, p: seq<bool>, x: seq<bool>, y: seq<bool>, q: seq<bool>)
    requires |x| == |y| <= 32 && x != y
    ensures FeedAll(c, p + x + q) != FeedAll(c, p + y + q)
  {
    hide FeedAll;
    FeedAllAppend(c, p + x, q);
    FeedAllAppend(c, p + y, q);
    FeedAllAppend(c, p, x);
    FeedAllAppend(c, p, y);
    ShortBurstChangesRegister(FeedAll(c, p), x, y);
    if FeedAll(c, p + x + q) == FeedAll(c, p + y + q) {
      FeedAllIsInjective(FeedAll(c, p + x), FeedAll(c, p + y), q);
    }
  }

  // The same for at most four consecutive bytes and the finished CRC.
  lemma ByteBurstIsSeen(p: seq<bv8>, x: seq<bv8>, y: seq<bv8>, q: seq<bv8>)
    requires |x| == |y| <= 4 && x != y
    ensures Crc32(p + x + q) != Crc32(p + y + q)
  {
    hide Crc32, FeedAll, Bits;
    BitsAppend(p + x, q);
    BitsAppend(p, x);
    BitsAppend(p + y, q);
    BitsAppend(p, y);
    if Bits(x) == Bits(y) { BitsAreInjective(x, y); }
    BitBurstIsSeen(ALL_ONES, Bits(p), Bits(x), Bits(y), Bits(q));
    SameCrcSameRegister(p + x + q, p + y + q);
  }

  // The same, the burst given by its place.
  lemma WindowIsSeen(a: seq<bv8>, b: seq<bv8>, p: nat, e: nat)
    requires |a| == |b| && p <= e <= |a| && e - p <= 4 && a != b
    requires forall i :: 0 <= i < |a| && !(p <= i < e) ==> a[i] == b[i]
    ensures Crc32(a) != Crc32(b)
  {
    hide Crc32;
    var x, y := a[p..e], b[p..e];
    assert a == a[..p] + x + a[e..];
    assert b == a[..p] + y + a[e..];
    ByteBurstIsSeen(a[..p], x, y, a[e..]);
  }
}
