// CRC-32 of a byte sequence: the bit-serial definition, and the table-driven loop that computes it.
module Crc {
  import opened CrcRegister
  import opened CrcDivision
  import opened CrcTable

  const ALL_ONES: bv32 := 0xffff_ffff

  // A byte enters the register lowest bit first.
  function ByteBits(b: bv8): seq<bool> {
    [b & 1 != 0, b & 2 != 0, b & 4 != 0, b & 8 != 0, b & 16 != 0, b & 32 != 0, b & 64 != 0, b & 128 != 0]
  }

  function Bits(data: seq<bv8>): (bits: seq<bool>)
    ensures |bits| == 8 * |data|
    decreases |data|
  {
    if data == [] then [] else ByteBits(data[0]) + Bits(data[1..])
  }

  // The bit-serial CRC: all ones at the start, complemented at the end.
  function Crc32(data: seq<bv8>): bv32 {
    Xor(FeedAll(ALL_ONES, Bits(data)), ALL_ONES)
  }

  function Word(b: bv8): bv32 { b as bv32 }

  function LowByte(c: bv32): bv8 { (c & 0xff) as bv8 }

  function Byte0(c: bv32): bv32 { c & 0xff }

  function Rest(c: bv32): bv32 { c & 0xffff_ff00 }

  // Adding a bit below what is packed already.
  function Push(b: bool, w: bv32): bv32 { Xor(BitWord(b), Double(w)) }

  lemma ByteIsPushed(b: bv8)
    ensures Word(b) ==
      Push(b & 1 != 0, Push(b & 2 != 0, Push(b & 4 != 0, Push(b & 8 != 0,
      Push(b & 16 != 0, Push(b & 32 != 0, Push(b & 64 != 0, Push(b & 128 != 0, 0))))))))
  {}

  lemma PackOf8(m: seq<bool>)
    requires |m| == 8
    ensures Pack(m) == Push(m[0], Push(m[1], Push(m[2], Push(m[3], Push(m[4], Push(m[5], Push(m[6], Push(m[7], 0))))))))
  {
    hide *;
    PackNone(m[8..]);
    PackStep(m, 7);
    PackStep(m, 6);
    PackStep(m, 5);
    PackStep(m, 4);
    PackStep(m, 3);
    PackStep(m, 2);
    PackStep(m, 1);
    PackStep(m, 0);
    assert m[0..] == m;
  }

  lemma PackNone(m: seq<bool>)
    requires m == []
    ensures Pack(m) == 0
  {}

  lemma PackByte(b: bv8)
    ensures Pack(ByteBits(b)) == Word(b)
  {
    ByteIsPushed(b);
    ByteBitsLength(b);
    var m := ByteBits(b);
    assert m[0] == (b & 1 != 0) && m[1] == (b & 2 != 0) && m[2] == (b & 4 != 0) && m[3] == (b & 8 != 0);
    assert m[4] == (b & 16 != 0) && m[5] == (b & 32 != 0) && m[6] == (b & 64 != 0) && m[7] == (b & 128 != 0);
    hide *;
    PackOf8(m);
  }

  lemma PackStep(m: seq<bool>, i: nat)
    requires i < |m|
    ensures Pack(m[i..]) == Push(m[i], Pack(m[i + 1..]))
  {
    assert m[i..][1..] == m[i + 1..];
  }

  // Above the lowest byte nothing falls out of the register for eight shifts.
  lemma RestIsEven(c: bv32)
    ensures !Odd(Rest(c)) && !Odd(Half(Rest(c))) && !Odd(Half(Half(Rest(c))))
    ensures !Odd(Half(Half(Half(Rest(c))))) && !Odd(Half(Half(Half(Half(Rest(c))))))
    ensures !Odd(Half(Half(Half(Half(Half(Rest(c))))))) && !Odd(Half(Half(Half(Half(Half(Half(Rest(c))))))))
    ensures !Odd(Half(Half(Half(Half(Half(Half(Half(Rest(c)))))))))
  {}

  lemma ByteSplit(c: bv32)
    ensures c == Xor(Rest(c), Byte0(c)) && Byte1(Rest(c)) == Byte1(c)
  {}

  lemma ShiftsOfRest(c: bv32)
    ensures Shifts(Rest(c), 8) == Byte1(c)
  {
    RestIsEven(c);
    EightHalves(Rest(c));
    ByteSplit(c);
    hide Odd, Half, Rest, Byte1, Byte0, Xor;
    var c0 := Rest(c);
    var c1 := Half(c0); var c2 := Half(c1); var c3 := Half(c2); var c4 := Half(c3);
    var c5 := Half(c4); var c6 := Half(c5); var c7 := Half(c6);
    assert Shifts(c0, 8) == Shifts(c1, 7) == Shifts(c2, 6) == Shifts(c3, 5) == Shifts(c4, 4);
    assert Shifts(c4, 4) == Shifts(c5, 3) == Shifts(c6, 2) == Shifts(c7, 1) == Half(c7);
  }

  lemma TableIndex(c: bv32, b: bv8)
    ensures Byte0(Xor(c, Word(b))) == Word(LowByte(c) ^ b)
    ensures Byte1(Xor(c, Word(b))) == Byte1(c)
  {}

  // One step of the table-driven loop feeds the eight bits of a byte.
  lemma TableStep(c: bv32, b: bv8)
    ensures FeedAll(c, ByteBits(b)) == Xor(Byte1(c), TableEntry(LowByte(c) ^ b))
  {
    hide FeedAll, Shifts, Pack, ByteBits, TableEntry, Xor, Byte1, Byte0, Rest, LowByte;
    assert |ByteBits(b)| == 8 by { ByteBitsLength(b); }
    FeedPacked(c, ByteBits(b));
    PackByte(b);
    var x := Xor(c, Word(b));
    ByteSplit(x);
    ShiftsIsLinear(Rest(x), Byte0(x), 8);
    ShiftsOfRest(x);
    TableIndex(c, b);
    TableIsEightShifts(LowByte(c) ^ b);
  }

  lemma ByteBitsLength(b: bv8)
    ensures |ByteBits(b)| == 8
  {}

  lemma {:induction false} BitsAppend(a: seq<bv8>, b: seq<bv8>)
    ensures Bits(a + b) == Bits(a) + Bits(b)
    decreases |a|
  {
    hide ByteBits;
    if a == [] {
      assert a + b == b;
    } else {
      assert (a + b)[1..] == a[1..] + b;
      BitsAppend(a[1..], b);
    }
  }

  lemma BitsOfOne(b: bv8)
    ensures Bits([b]) == ByteBits(b)
  {
    assert [b][1..] == [];
  }

  // The accumulator is 64 bits wide; these are the loop body and the final complement.
  function Update(crc: bv64, b: bv8): bv64 {
    (crc >> 8) ^ (TableEntry((crc & 0xff) as bv8 ^ b) as bv64)
  }

  function Complement(crc: bv64): bv64 { crc ^ 0xffff_ffff }

  predicate Fits32(crc: bv64) { crc <= 0xffff_ffff }

  function Wide(c: bv32): (w: bv64)
    ensures Fits32(w)
  {
    c as bv64
  }

  function Narrow(crc: bv64): bv32
    requires Fits32(crc)
  {
    crc as bv32
  }

  lemma UpdateIndex(c: bv32, b: bv8)
    ensures (Wide(c) & 0xff) as bv8 ^ b == LowByte(c) ^ b
  {}

  lemma UpdateValue(c: bv32, t: bv32)
    ensures (Wide(c) >> 8) ^ (t as bv64) == Wide(Xor(Byte1(c), t))
  {}

  lemma UpdateIsTableStep(c: bv32, b: bv8)
    ensures Update(Wide(c), b) == Wide(Xor(Byte1(c), TableEntry(LowByte(c) ^ b)))
  {
    hide TableEntry, Wide, LowByte, Byte1, Xor;
    UpdateIndex(c, b);
    UpdateValue(c, TableEntry(LowByte(c) ^ b));
  }

  lemma ComplementIsXor(c: bv32)
    ensures Complement(Wide(c)) == Wide(Xor(c, ALL_ONES)) && Narrow(Wide(c)) == c
  {}

  lemma FeedNothing()
    ensures FeedAll(ALL_ONES, []) == ALL_ONES && Wide(ALL_ONES) == 0xffff_ffff
  {}

  // The table-driven loop. The accumulator never leaves its low 32 bits.
  method CalculateCrc(pt: seq<bv8>, size: nat) returns (r: bv32)
    requires size <= |pt|
    ensures r == Crc32(pt[..size])
  {
    hide Xor, FeedAll, TableEntry, LowByte, Byte1, Wide, ByteBits, Update, Complement, Narrow, Fits32;
    FeedNothing();
    var crc: bv64 := 0xffff_ffff;
    var i, left := 0, size;
    while left != 0
      invariant i + left == size
      invariant Fits32(crc) && crc == Wide(FeedAll(ALL_ONES, Bits(pt[..i])))
    {
      RegisterStep(pt, i);
      UpdateIsTableStep(FeedAll(ALL_ONES, Bits(pt[..i])), pt[i]);
      crc := Update(crc, pt[i]);
      i, left := i + 1, left - 1;
    }
    ghost var register := FeedAll(ALL_ONES, Bits(pt[..i]));
    ComplementIsXor(register);
    ComplementIsXor(Xor(register, ALL_ONES));
    crc := Complement(crc);
    r := Narrow(crc);
  }

  lemma RegisterStep(pt: seq<bv8>, i: nat)
    requires i < |pt|
    ensures var c := FeedAll(ALL_ONES, Bits(pt[..i]));
      FeedAll(ALL_ONES, Bits(pt[..i + 1])) == Xor(Byte1(c), TableEntry(LowByte(c) ^ pt[i]))
  {
    hide *;
    assert pt[..i + 1] == pt[..i] + [pt[i]];
    BitsAppend(pt[..i], [pt[i]]);
    BitsOfOne(pt[i]);
    FeedAllAppend(ALL_ONES, Bits(pt[..i]), ByteBits(pt[i]));
    TableStep(FeedAll(ALL_ONES, Bits(pt[..i])), pt[i]);
  }

  // The register after one more byte, and after three.
  function Next(c: bv32, b: bv8): bv32 { Xor(Byte1(c), TableEntry(LowByte(c) ^ b)) }

  function NextThree(c: bv32, b: bv8): bv32 { Next(Next(Next(c, b), b + 1), b + 2) }

  ghost predicate Reaches(data: seq<bv8>, c: bv32) { FeedAll(ALL_ONES, Bits(data)) == c }

  lemma NextReached(data: seq<bv8>, c: bv32, b: bv8)
    requires Reaches(data, c)
    ensures Reaches(data + [b], Next(c, b))
  {
    hide FeedAll, Bits, Xor, Byte1, TableEntry, LowByte;
    var pt := data + [b];
    assert pt[..|data| + 1] == pt && pt[..|data|] == data;
    RegisterStep(pt, |data|);
  }

  lemma ThreeReached(data: seq<bv8>, c: bv32, b: bv8)
    requires Reaches(data, c)
    ensures Reaches(data + [b, b + 1, b + 2], NextThree(c, b))
  {
    hide Reaches, Next;
    NextReached(data, c, b);
    NextReached(data + [b], Next(c, b), b + 1);
    NextReached(data + [b] + [b + 1], Next(Next(c, b), b + 1), b + 2);
    assert data + [b, b + 1, b + 2] == data + [b] + [b + 1] + [b + 2];
  }

  lemma CheckRegister1()
    ensures NextThree(0xFFFF_FFFF, 0x31) == 0x77B7_9C2D
  {
    assert Next(0xFFFF_FFFF, 0x31) == 0x7C23_1048;
    assert Next(0x7C23_1048, 0x32) == 0xB0AC_BB32;
  }

  lemma CheckRegister2()
    ensures NextThree(0x77B7_9C2D, 0x34) == 0xF68D_2C9E
  {
    assert Next(0x77B7_9C2D, 0x34) == 0x641C_1F5C;
    assert Next(0x641C_1F5C, 0x35) == 0x340A_C5E3;
  }

  lemma CheckRegister3()
    ensures NextThree(0xF68D_2C9E, 0x37) == 0x340B_C6D9
  {
    assert Next(0xF68D_2C9E, 0x37) == 0xAFFC_9660;
    assert Next(0xAFFC_9660, 0x38) == 0x651F_2550;
  }

  // The check value of CRC-32: that of the nine characters `123456789`.
  lemma CheckValue()
    ensures Crc32([0x31, 0x32, 0x33, 0x34, 0x35, 0x36, 0x37, 0x38, 0x39]) == 0xCBF4_3926
  {
    hide *;
    NothingReached();
    CheckRegister1();
    CheckRegister2();
    CheckRegister3();
    ThreeReached([], 0xFFFF_FFFF, 0x31);
    ThreeReached([] + [0x31, 0x32, 0x33], 0x77B7_9C2D, 0x34);
    ThreeReached([] + [0x31, 0x32, 0x33] + [0x34, 0x35, 0x36], 0xF68D_2C9E, 0x37);
    var data: seq<bv8> := [0x31, 0x32, 0x33, 0x34, 0x35, 0x36, 0x37, 0x38, 0x39];
    assert data == [] + [0x31, 0x32, 0x33] + [0x34, 0x35, 0x36] + [0x37, 0x38, 0x39];
    Finished(data, 0x340B_C6D9);
  }

  lemma NothingReached()
    ensures Reaches([], 0xFFFF_FFFF)
  {}

  lemma Finished(data: seq<bv8>, c: bv32)
    requires Reaches(data, c)
    ensures Crc32(data) == c ^ 0xFFFF_FFFF
  {
    hide FeedAll, Bits;
  }
}
