// The register as schoolbook long division of polynomials over the field of two elements: a
// message is a dividend, highest power first, and the register holds what the generator leaves.
module CrcDivision {
  import opened CrcRegister

  // The generator is x^32 + x^26 + ... + x + 1 (section 8 of RFC 1952); these are its powers below 32.
  predicate GeneratorHas(e: int) {
    e in {26, 23, 22, 16, 12, 11, 10, 8, 7, 5, 4, 2, 1, 0}
  }

  // Takes the generator, its leading power already cancelled, off the front of a dividend.
  function Subtract(t: seq<bool>): seq<bool> {
    seq(|t|, i requires 0 <= i < |t| => if i < 32 then t[i] != GeneratorHas(31 - i) else t[i])
  }

  // Long division: cancel the leading term with the generator until 32 terms are left.
  function Remainder(t: seq<bool>): seq<bool>
    decreases |t|
  {
    if |t| <= 32 then t
    else if t[0] then Remainder(Subtract(t[1..]))
    else Remainder(t[1..])
  }

  function Zeros(n: nat): seq<bool> { seq(n, _ => false) }

  // Adds the bits of the register, lowest first, to the front of a dividend.
  function Mix(c: bv32, t: seq<bool>): (r: seq<bool>)
    ensures |r| == |t|
    decreases |t|
  {
    if t == [] then [] else [Odd(c) != t[0]] + Mix(Half(c), t[1..])
  }

  function BitAt(c: bv32, i: nat): bool
    decreases i
  {
    if i == 0 then Odd(c) else BitAt(Half(c), i - 1)
  }

  lemma {:induction false} MixAt(c: bv32, t: seq<bool>, i: nat)
    requires i < |t|
    ensures Mix(c, t)[i] == (t[i] != BitAt(c, i))
    decreases i
  {
    hide Odd, Half;
    if i > 0 {
      MixAt(Half(c), t[1..], i - 1);
    }
  }

  function Byte1(c: bv32): bv32 { c >> 8 }

  lemma EightHalves(c: bv32)
    ensures Half(Half(Half(Half(Half(Half(Half(Half(c)))))))) == Byte1(c)
  {}

  lemma BitAtPlus8(c: bv32, i: nat)
    ensures BitAt(c, i + 8) == BitAt(Byte1(c), i)
  {
    hide Odd, Half, Byte1;
    EightHalves(c);
    var c1 := Half(c); var c2 := Half(c1); var c3 := Half(c2); var c4 := Half(c3);
    assert BitAt(c, i + 8) == BitAt(c1, i + 7) == BitAt(c2, i + 6) == BitAt(c3, i + 5) == BitAt(c4, i + 4);
    var c5 := Half(c4); var c6 := Half(c5); var c7 := Half(c6);
    assert BitAt(c4, i + 4) == BitAt(c5, i + 3) == BitAt(c6, i + 2) == BitAt(c7, i + 1);
  }

  lemma {:induction false} BitAtZero(i: nat)
    ensures !BitAt(0, i)
  {
    assert !Odd(0) && Half(0) == 0;
    if i > 0 { BitAtZero(i - 1); }
  }

  lemma LowBits(i: nat)
    requires i < 8
    ensures BitAt(0xEDB8_8320, i) <==> i == 5
    ensures BitAt(0x00ED_B883, i) <==> i in {0, 1, 7}
    ensures BitAt(0x0000_EDB8, i) <==> i in {3, 4, 5, 7}
    ensures BitAt(0x0000_00ED, i) <==> i in {0, 2, 3, 5, 6, 7}
  {
    if i == 0 {} else if i == 1 {} else if i == 2 {} else if i == 3 {}
    else if i == 4 {} else if i == 5 {} else if i == 6 {} else {}
  }

  // The reflected polynomial constant spells out the generator.
  lemma PolynomialBits(i: nat)
    ensures BitAt(POLYNOMIAL, i) <==> i < 32 && GeneratorHas(31 - i)
  {
    hide BitAt;
    assert Byte1(0xEDB8_8320) == 0x00ED_B883 && Byte1(0x00ED_B883) == 0x0000_EDB8;
    assert Byte1(0x0000_EDB8) == 0x0000_00ED && Byte1(0x0000_00ED) == 0;
    if i < 8 {
      LowBits(i);
    } else {
      BitAtPlus8(0xEDB8_8320, i - 8);
      if i < 16 {
        LowBits(i - 8);
      } else {
        BitAtPlus8(0x00ED_B883, i - 16);
        if i < 24 {
          LowBits(i - 16);
        } else {
          BitAtPlus8(0x0000_EDB8, i - 24);
          if i < 32 {
            LowBits(i - 24);
          } else {
            BitAtPlus8(0x0000_00ED, i - 32);
            BitAtZero(i - 32);
          }
        }
      }
    }
  }

  lemma MixPolynomial(t: seq<bool>)
    ensures Mix(POLYNOMIAL, t) == Subtract(t)
  {
    forall i | 0 <= i < |t| ensures Mix(POLYNOMIAL, t)[i] == Subtract(t)[i] {
      MixAt(POLYNOMIAL, t, i);
      PolynomialBits(i);
    }
  }

  lemma {:induction false} MixZero(t: seq<bool>)
    ensures Mix(0, t) == t
    decreases |t|
  {
    if t != [] {
      assert !Odd(0) && Half(0) == 0;
      MixZero(t[1..]);
    }
  }

  lemma {:induction false} MixTwice(c: bv32, d: bv32, t: seq<bool>)
    ensures Mix(c, Mix(d, t)) == Mix(Xor(c, d), t)
    decreases |t|
  {
    hide Xor, Odd, Half;
    if t != [] {
      OddIsLinear(c, d);
      HalfIsLinear(c, d);
      MixTwice(Half(c), Half(d), t[1..]);
      var u := Mix(d, t);
      assert u[0] == (Odd(d) != t[0]) && u[1..] == Mix(Half(d), t[1..]);
    }
  }

  lemma FeedByHalf(c: bv32, b: bool)
    ensures Feed(c, b) == if Odd(c) != b then Xor(POLYNOMIAL, Half(c)) else Half(c)
  {
    hide Xor, Odd, Half;
    var w := BitWord(b);
    OddIsLinear(c, w);
    HalfIsLinear(c, w);
    assert Half(w) == 0 && Odd(w) == b by { SmallWord(b); }
    XorUnit(Half(c));
    XorCommutes(POLYNOMIAL, Half(c));
  }

  lemma SmallWord(b: bool)
    ensures Half(BitWord(b)) == 0 && Odd(BitWord(b)) == b
  {}

  // The register after feeding m is what long division leaves of m followed by 32 zeros.
  lemma {:induction false} RegisterIsRemainder(c: bv32, m: seq<bool>)
    ensures Remainder(Mix(c, m + Zeros(32))) == Mix(FeedAll(c, m), Zeros(32))
    decreases |m|
  {
    hide Xor, Odd, Half, Feed;
    var z := Zeros(32);
    if m == [] {
      assert m + z == z;
    } else {
      var t := Mix(c, m + z);
      var rest := m[1..] + z;
      assert (m + z)[1..] == rest;
      assert t[0] == (Odd(c) != m[0]) && t[1..] == Mix(Half(c), rest);
      FeedByHalf(c, m[0]);
      MixPolynomial(t[1..]);
      MixTwice(POLYNOMIAL, Half(c), rest);
      assert Remainder(t) == Remainder(Mix(Feed(c, m[0]), rest));
      RegisterIsRemainder(Feed(c, m[0]), m[1..]);
    }
  }
}
