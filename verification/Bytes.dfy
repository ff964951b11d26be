// Bytes, and little-endian numbers made of them.
module Bytes {

  type Byte = x: int | 0 <= x < 256

  function Le(s: seq<Byte>): nat
    decreases |s|
  {
    if s == [] then 0 else s[0] + 256 * Le(s[1..])
  }

  function ToLe(v: nat, n: nat): (s: seq<Byte>)
    ensures |s| == n
    decreases n
  {
    if n == 0 then [] else [v % 256] + ToLe(v / 256, n - 1)
  }

  function Power256(n: nat): nat
    decreases n
  {
    if n == 0 then 1 else 256 * Power256(n - 1)
  }

  lemma {:induction false} LeOfToLe(v: nat, n: nat)
    requires v < Power256(n)
    ensures Le(ToLe(v, n)) == v
    decreases n
  {
    if n > 0 {
      LeOfToLe(v / 256, n - 1);
      assert ToLe(v, n)[1..] == ToLe(v / 256, n - 1);
    }
  }

  // The first byte counts least.
  lemma LeOfFour(s: seq<Byte>)
    requires |s| == 4
    ensures Le(s) == s[0] as int + 0x100 * (s[1] as int) + 0x1_0000 * (s[2] as int) + 0x100_0000 * (s[3] as int)
  {
    LeOfFirst(s);
    LeOfFirst(s[1..]);
    LeOfFirst(s[2..]);
    LeOfFirst(s[3..]);
    assert s[1..][1..] == s[2..] && s[2..][1..] == s[3..] && s[3..][1..] == [] && Le([]) == 0;
  }

  lemma LeOfFirst(s: seq<Byte>)
    requires s != []
    ensures Le(s) == s[0] + 256 * Le(s[1..])
  {}

  lemma LeOfEight(s: seq<Byte>)
    requires |s| == 8
    ensures Le(s) == s[0] as int + 0x100 * (s[1] as int) + 0x1_0000 * (s[2] as int) + 0x100_0000 * (s[3] as int)
      + 0x1_0000_0000 * (s[4] as int) + 0x100_0000_0000 * (s[5] as int)
      + 0x1_0000_0000_0000 * (s[6] as int) + 0x100_0000_0000_0000 * (s[7] as int)
  {
    LeOfFirst(s);
    LeOfFirst(s[1..]);
    LeOfFirst(s[2..]);
    LeOfFirst(s[3..]);
    LeOfFour(s[4..]);
    assert s[1..][1..] == s[2..] && s[2..][1..] == s[3..] && s[3..][1..] == s[4..];
    hide Le;
  }

  lemma ToLeFour(v: nat)
    ensures ToLe(v, 4) == [v % 0x100, v / 0x100 % 0x100, v / 0x1_0000 % 0x100, v / 0x100_0000 % 0x100]
  {
    var a, b, c := v / 256, v / 256 / 256, v / 256 / 256 / 256;
    ToLeFirst(v, 4);
    ToLeFirst(a, 3);
    ToLeFirst(b, 2);
    ToLeFirst(c, 1);
    Quotients(v);
  }

  lemma ToLeFirst(v: nat, n: nat)
    requires n > 0
    ensures ToLe(v, n) == [v % 256] + ToLe(v / 256, n - 1)
    ensures ToLe(v / 256, 0) == []
  {}

  lemma Quotients(v: nat)
    ensures v / 256 / 256 == v / 0x1_0000 && v / 256 / 256 / 256 == v / 0x100_0000
  {}
}
