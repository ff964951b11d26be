// Numbers to text and back: ValueToHex and ValueToString of the print library, xtoi and Atoi of
// the string library.
module Numbers {
  import opened Text
  import opened Division

  const ZERO: CHAR16 := 0x30
  const MINUS: CHAR16 := 0x2D
  const COMMA: CHAR16 := 0x2C
  const SPACE: CHAR16 := 0x20
  const UPPER_A: CHAR16 := 0x41
  const LOWER_A: CHAR16 := 0x61

  predicate Base(b: nat) { b == 10 || b == 16 }

  lemma BothBases()
    ensures Base(10) && Base(16)
  {}

  // ---- digits ----

  function Digits(v: nat, b: nat): (ds: seq<nat>)
    requires Base(b)
    ensures forall i :: 0 <= i < |ds| ==> ds[i] < b
    ensures v > 0 <==> ds != []
    decreases v
  {
    if v == 0 then [] else Digits(v / b, b) + [v % b]
  }

  function Value(ds: seq<nat>, b: nat): nat
    decreases |ds|
  {
    if ds == [] then 0 else b * Value(ds[..|ds| - 1], b) + ds[|ds| - 1]
  }

  lemma {:induction false} ValueOfDigits(v: nat, b: nat)
    requires Base(b)
    ensures Value(Digits(v, b), b) == v
    decreases v
  {
    if v > 0 {
      LastDigit(v, b);
      ValueOfDigits(v / b, b);
      var ds := Digits(v, b);
      assert ds[..|ds| - 1] == Digits(v / b, b);
    }
  }

  lemma LastDigit(v: nat, b: nat)
    requires Base(b)
    ensures b * (v / b) + v % b == v && v % b < b
  {}

  lemma SixteenTimes(k: nat)
    ensures Power2(k + 4) == 16 * Power2(k)
  {
    assert Power2(k + 4) == 2 * Power2(k + 3) == 4 * Power2(k + 2) == 8 * Power2(k + 1);
  }

  lemma DigitsEnd(v: nat, b: nat)
    requires Base(b) && v > 0
    ensures Digits(v, b) == Digits(v / b, b) + [v % b] && v / b < v && v % b < b
  {
    if b == 10 { assert v / 10 < v && v % 10 < 10; } else { assert v / 16 < v && v % 16 < 16; }
  }

  lemma NoDigits(b: nat)
    requires Base(b)
    ensures Digits(0, b) == []
  {}

  lemma {:induction false} FewHexDigits(v: nat, n: nat)
    requires v < Power2(4 * n)
    ensures |Digits(v, 16)| <= n
    decreases n
  {
    if v > 0 {
      assert n > 0 by { assert Power2(0) == 1; }
      SixteenTimes(4 * (n - 1));
      DigitsEnd(v, 16);
      hide Digits, Power2;
      Below(v, 16, Power2(4 * (n - 1)));
      FewHexDigits(v / 16, n - 1);
    } else {
      NoDigits(16);
    }
  }

  lemma Below(v: nat, b: nat, p: nat)
    requires b == 10 || b == 16
    requires v < (if b == 16 then 16 * p else 8 * p)
    ensures v / b < p
  {
    if b == 10 {
      assert v / 10 * 10 <= v;
    } else {
      assert v / 16 * 16 <= v;
    }
  }

  // A decimal digit is worth more than three bits.
  lemma {:induction false} FewDecimalDigits(v: nat, n: nat)
    requires v < Power2(3 * n)
    ensures |Digits(v, 10)| <= n
    decreases n
  {
    if v > 0 {
      assert n > 0 by { assert Power2(0) == 1; }
      EightTimes(3 * (n - 1));
      DigitsEnd(v, 10);
      hide Digits, Power2;
      Below(v, 10, Power2(3 * (n - 1)));
      FewDecimalDigits(v / 10, n - 1);
    } else {
      NoDigits(10);
    }
  }

  lemma EightTimes(k: nat)
    ensures Power2(k + 3) == 8 * Power2(k)
  {
    assert Power2(k + 3) == 2 * Power2(k + 2) == 4 * Power2(k + 1);
  }

  // The digits of 64-bit numbers fit the digit buffers.
  lemma FewDigits(v: nat)
    requires v < TWO64
    ensures |Digits(v, 16)| <= 16 && |Digits(v, 10)| <= 22
  {
    Power2Of64();
    assert Power2(66) == 2 * Power2(65) == 4 * Power2(64);
    hide Power2, Digits;
    FewHexDigits(v, 16);
    FewDecimalDigits(v, 22);
  }

  // What the digit loops find: the digits still to come are those of v.
  lemma NextDigit(ds: seq<nat>, v: nat, b: nat, k: nat)
    requires Base(b) && v > 0 && k <= |ds| && Digits(v, b) == ds[..|ds| - k]
    ensures k < |ds| && ds[|ds| - 1 - k] == v % b < b
    ensures Digits(v / b, b) == ds[..|ds| - (k + 1)] && v / b < v
  {
    DigitsEnd(v, b);
    hide Digits, Base;
    var rest := Digits(v / b, b);
    assert ds[..|ds| - k] == rest + [v % b];
    assert ds[..|ds| - k][..|ds| - k - 1] == rest;
  }

  function DigitChar(d: nat): CHAR16
    requires d < 16
  {
    if d < 10 then ZERO + d else UPPER_A + d - 10
  }

  function Spell(ds: seq<nat>): (s: CString)
    requires forall i :: 0 <= i < |ds| ==> ds[i] < 16
    ensures |s| == |ds| && forall i :: 0 <= i < |ds| ==> s[i] == DigitChar(ds[i])
  {
    seq(|ds|, i requires 0 <= i < |ds| => DigitChar(ds[i]))
  }

  // ---- printing ----

  function HexText(v: nat): CString {
    if v == 0 then [ZERO] else Spell(Digits(v, 16))
  }

  predicate DigitsBelow16(ds: seq<nat>) { forall i :: 0 <= i < |ds| ==> ds[i] < 16 }

  // The digit buffer holds the digits, least significant first.
  ghost predicate Holds(str: seq<CHAR16>, ds: seq<nat>)
    requires DigitsBelow16(ds)
  {
    |ds| <= |str| && forall i :: 0 <= i < |ds| ==> str[i] == DigitChar(ds[|ds| - 1 - i])
  }

  // The last k of the digits have been stored, least significant first; those of v remain.
  ghost predicate Stored(now: seq<CHAR16>, ds: seq<nat>, v: nat, b: nat, k: nat) {
    && Base(b) && DigitsBelow16(ds) && k <= |ds| <= |now| && Digits(v, b) == ds[..|ds| - k]
    && forall i :: 0 <= i < k ==> now[i] == DigitChar(ds[|ds| - 1 - i])
  }

  lemma NothingStored(now: seq<CHAR16>, v: nat, b: nat)
    requires Base(b) && |Digits(v, b)| <= |now|
    ensures Stored(now, Digits(v, b), v, b, 0)
  {
    hide DigitChar;
    assert Digits(v, b)[..|Digits(v, b)|] == Digits(v, b);
  }

  lemma StoreOne(now: seq<CHAR16>, ds: seq<nat>, v: nat, b: nat, k: nat)
    requires Base(b) && v > 0 && Stored(now, ds, v, b, k)
    ensures k < |now| && v % b < 16 && v / b < v
    ensures Stored(now[k := DigitChar(v % b)], ds, v / b, b, k + 1)
  {
    NextDigit(ds, v, b, k);
    hide Digits, DigitChar;
  }

  lemma AllStored(now: seq<CHAR16>, ds: seq<nat>, b: nat, k: nat)
    requires Stored(now, ds, 0, b, k)
    ensures k == |ds| && DigitsBelow16(ds) && Holds(now, ds)
  {
    NoDigits(b);
    hide DigitChar;
  }

  // The digits of v, least significant first, by shifting.
  method StoreHexDigits(str: array<CHAR16>, value: nat) returns (p1: nat)
    requires 0 < value < TWO64 && 16 <= str.Length
    modifies str
    ensures p1 == |Digits(value, 16)| && DigitsBelow16(Digits(value, 16)) && Holds(str[..], Digits(value, 16))
  {
    hide *;
    FewDigits(value);
    BothBases();
    NothingStored(str[..], value, 16);
    ghost var ds := Digits(value, 16);
    var v: nat := value;
    p1 := 0;
    while v != 0
      invariant Stored(str[..], ds, v, 16, p1)
      decreases v
    {
      StoreOne(str[..], ds, v, 16, p1);
      str[p1] := DigitChar(v % 16);
      p1 := p1 + 1;
      v := v / 16;
    }
    AllStored(str[..], ds, 16, p1);
  }

  // The buffer with a text written at some place.
  function Overlay(was: seq<CHAR16>, at: nat, text: seq<CHAR16>): (r: seq<CHAR16>)
    requires at + |text| <= |was|
    ensures |r| == |was|
  {
    was[..at] + text + was[at + |text|..]
  }

  lemma OverlayOn(was: seq<CHAR16>, at: nat, t: seq<CHAR16>, u: seq<CHAR16>)
    requires at + |t| + |u| <= |was|
    ensures Overlay(Overlay(was, at, t), at + |t|, u) == Overlay(was, at, t + u)
  {
    var m := Overlay(was, at, t);
    assert m[..at + |t|] == was[..at] + t;
    assert m[at + |t| + |u|..] == was[at + |t| + |u|..];
  }

  lemma OverlayNothing(was: seq<CHAR16>, at: nat)
    requires at <= |was|
    ensures Overlay(was, at, []) == was
  {}

  lemma OverlaySlices(was: seq<CHAR16>, text: seq<CHAR16>)
    requires |text| <= |was|
    ensures Overlay(was, 0, text)[..|text|] == text && Overlay(was, 0, text)[|text|..] == was[|text|..]
  {}

  method Put(buffer: array<CHAR16>, p: nat, c: CHAR16) returns (next: nat)
    requires p < buffer.Length
    modifies buffer
    ensures next == p + 1 && buffer[..] == Overlay(old(buffer[..]), p, [c])
  {
    buffer[p] := c;
    next := p + 1;
  }

  lemma HeldDigit(str: seq<CHAR16>, ds: seq<nat>, j: nat)
    requires DigitsBelow16(ds) && Holds(str, ds) && j < |ds|
    ensures |ds| <= |str| && ds[j] < 16 && str[|ds| - j - 1] == DigitChar(ds[j])
  {}

  lemma NonZeroHex(v: nat)
    requires v > 0
    ensures HexText(v) == Spell(Digits(v, 16))
  {}

  // All but p1 of the digits have been put at the front of the buffer, up to p2.
  ghost predicate Spelling(was: seq<CHAR16>, now: seq<CHAR16>, str: seq<CHAR16>, ds: seq<nat>, p1: nat, p2: nat) {
    && DigitsBelow16(ds) && Holds(str, ds) && p1 <= |ds| < |was| && p2 == |ds| - p1
    && now == Overlay(was, 0, Spell(ds)[..p2])
  }

  lemma SpellingStarts(was: seq<CHAR16>, str: seq<CHAR16>, ds: seq<nat>)
    requires DigitsBelow16(ds) && Holds(str, ds) && |ds| < |was|
    ensures Spelling(was, was, str, ds, |ds|, 0)
  {
    assert Spell(ds)[..0] == [];
    OverlayNothing(was, 0);
  }

  lemma SpellingStep(was: seq<CHAR16>, now: seq<CHAR16>, str: seq<CHAR16>, ds: seq<nat>, p1: nat, p2: nat)
    requires Spelling(was, now, str, ds, p1, p2) && p1 > 0
    ensures p1 <= |str| && p2 < |now| && Spelling(was, Overlay(now, p2, [str[p1 - 1]]), str, ds, p1 - 1, p2 + 1)
  {
    HeldDigit(str, ds, p2);
    assert Spell(ds)[..p2 + 1] == Spell(ds)[..p2] + [str[p1 - 1]];
    hide Overlay, Spell, Holds, DigitsBelow16, DigitChar;
    OverlayOn(was, 0, Spell(ds)[..p2], [str[p1 - 1]]);
  }

  lemma SpellingEnds(was: seq<CHAR16>, now: seq<CHAR16>, str: seq<CHAR16>, ds: seq<nat>, p2: nat)
    requires Spelling(was, now, str, ds, 0, p2)
    ensures DigitsBelow16(ds) && p2 == |Spell(ds)| < |was|
    ensures Overlay(now, p2, [0]) == Overlay(was, 0, Spell(ds) + [0])
  {
    assert Spell(ds)[..p2] == Spell(ds);
    hide Overlay, Spell, Holds, DigitsBelow16;
    OverlayOn(was, 0, Spell(ds), [0]);
  }

  method ValueToHex(buffer: array<CHAR16>, value: nat)
    requires value < TWO64 && |HexText(value)| < buffer.Length
    modifies buffer
    ensures buffer[..|HexText(value)| + 1] == HexText(value) + [0]
    ensures buffer[|HexText(value)| + 1..] == old(buffer[|HexText(value)| + 1..])
  {
    if value == 0 {
      buffer[0] := ZERO;
      buffer[1] := 0;
      return;
    }
    hide *;
    ghost var was, text := buffer[..], HexText(value);
    OverlaySlices(was, text + [0]);
    SpellHex(buffer, value);
    assert buffer[..][..|text| + 1] == buffer[..|text| + 1] && buffer[..][|text| + 1..] == buffer[|text| + 1..];
  }

  // The same for a number that is not zero.
  method SpellHex(buffer: array<CHAR16>, value: nat)
    requires 0 < value < TWO64 && |HexText(value)| < buffer.Length
    modifies buffer
    ensures buffer[..] == Overlay(old(buffer[..]), 0, HexText(value) + [0])
  {
    hide *;
    BothBases();
    var str := new CHAR16[30];
    var p1: nat := StoreHexDigits(str, value);
    var p2: nat := 0;
    ghost var was, digits, ds := buffer[..], str[..], Digits(value, 16);
    NonZeroHex(value);
    SpellingStarts(was, digits, ds);
    while p1 != 0
      invariant str[..] == digits && Spelling(was, buffer[..], digits, ds, p1, p2)
    {
      SpellingStep(was, buffer[..], digits, ds, p1, p2);
      p1 := p1 - 1;
      p2 := Put(buffer, p2, str[p1]);
    }
    SpellingEnds(was, buffer[..], digits, ds, p2);
    p2 := Put(buffer, p2, 0);
  }

  // ---- parsing ----

  function SkipSpaces(s: CString, i: nat): (j: nat)
    requires i <= |s|
    ensures i <= j <= |s|
    decreases |s| - i
  {
    if i < |s| && s[i] == SPACE then SkipSpaces(s, i + 1) else i
  }

  function Upper(c: CHAR16): CHAR16 {
    if LOWER_A <= c <= LOWER_A + 5 then c - (LOWER_A - UPPER_A) else c
  }

  // What a character counts as in a base: its digit, or nothing.
  predicate IsDigit(c: CHAR16, b: nat)
    requires Base(b)
  {
    ZERO <= c <= ZERO + 9 || (b == 16 && UPPER_A <= Upper(c) <= UPPER_A + 5)
  }

  function DigitOf(c: CHAR16, b: nat): nat
    requires Base(b) && IsDigit(c, b)
  {
    if c <= ZERO + 9 then c - ZERO else Upper(c) - UPPER_A + 10
  }

  // The digits from place i up to the first character that is none.
  function DigitRun(s: CString, i: nat, b: nat): seq<nat>
    requires i <= |s| && Base(b)
    decreases |s| - i
  {
    if i < |s| && IsDigit(s[i], b) then [DigitOf(s[i], b)] + DigitRun(s, i + 1, b) else []
  }

  function Parsed(s: CString, b: nat): nat
    requires Base(b)
  {
    Value(DigitRun(s, SkipSpaces(s, 0), b), b) % TWO64
  }

  lemma ValueSnoc(ds: seq<nat>, d: nat, b: nat)
    ensures Value(ds + [d], b) == b * Value(ds, b) + d
  {
    assert (ds + [d])[..|ds|] == ds;
  }

  lemma NothingRead(b: nat)
    ensures Value([], b) == 0
  {}

  // u << 4 | d: the low four bits of the shifted value are zero.
  function ShiftIn(u: nat, d: nat): nat { u * 16 % TWO64 + d }

  // u * 10 + d, in 64 bits.
  function PutIn(u: nat, d: nat): nat { (u * 10 + d) % TWO64 }

  lemma DigitPutIn(u: nat, d: nat)
    ensures PutIn(u, d) == (u * 10 + d) % TWO64
  {}

  const TWO60: nat := 0x1000_0000_0000_0000

  lemma ShiftedIn(u: nat, d: nat)
    requires u < TWO64 && d < 16
    ensures ShiftIn(u, d) == (u * 16 + d) % TWO64
  {
    var k, m := u / TWO60, u % TWO60;
    Remainder(16 * u, k, 16 * m);
    Remainder(16 * u + d, k, 16 * m + d);
  }

  lemma Remainder(a: nat, n: nat, r: nat)
    requires a == n * TWO64 + r && r < TWO64
    ensures a % TWO64 == r
  {}

  // From `start` on the digits before place i have been read, and u is their value modulo 2^64.
  ghost predicate Reading(s: CString, start: nat, i: nat, b: nat, u: nat) {
    && Base(b) && start <= i <= |s| && u < TWO64 && i - start <= |DigitRun(s, start, b)|
    && DigitRun(s, i, b) == DigitRun(s, start, b)[i - start..]
    && u == Value(DigitRun(s, start, b)[..i - start], b) % TWO64
  }

  lemma ReadingStarts(s: CString, start: nat, b: nat)
    requires Base(b) && start <= |s|
    ensures Reading(s, start, start, b, 0)
  {
    NothingRead(b);
    hide DigitRun, Value;
    assert DigitRun(s, start, b)[..0] == [];
  }

  lemma ReadDigit(s: CString, start: nat, i: nat, b: nat, u: nat)
    requires Reading(s, start, i, b, u) && Base(b) && i < |s| && IsDigit(s[i], b)
    ensures u < TWO64 && Reading(s, start, i + 1, b, (u * b + DigitOf(s[i], b)) % TWO64)
  {
    var run, k, d := DigitRun(s, start, b), i - start, DigitOf(s[i], b);
    assert run[k..] == [d] + DigitRun(s, i + 1, b);
    hide Value, DigitRun, IsDigit, DigitOf;
    assert run[k] == run[k..][0] == d && run[k + 1..] == run[k..][1..];
    assert run[..k + 1] == run[..k] + [d];
    ValueSnoc(run[..k], d, b);
    Wraps(Value(run[..k], b), b, d);
  }

  lemma Wraps(x: nat, b: nat, d: nat)
    requires Base(b)
    ensures (x % TWO64 * b + d) % TWO64 == (b * x + d) % TWO64
  {
    var q, r := x / TWO64, x % TWO64;
    var y := r * b + d;
    if b == 10 {
      Remainder(10 * x + d, 10 * q + y / TWO64, y % TWO64);
    } else {
      Remainder(16 * x + d, 16 * q + y / TWO64, y % TWO64);
    }
  }

  lemma ReadingEnds(s: CString, i: nat, b: nat, u: nat)
    requires Base(b) && Reading(s, SkipSpaces(s, 0), i, b, u) && (i < |s| ==> !IsDigit(s[i], b))
    ensures u == Parsed(s, b)
  {
    var run, k := DigitRun(s, SkipSpaces(s, 0), b), i - SkipSpaces(s, 0);
    assert run[k..] == [];
    assert k == |run| && run[..k] == run;
  }

  // The leading spaces.
  method SkipLeading(str: CString) returns (i: nat)
    ensures i == SkipSpaces(str, 0)
  {
    i := 0;
    while At(str, i) != 0 && At(str, i) == SPACE
      invariant 0 <= i <= |str| && SkipSpaces(str, i) == SkipSpaces(str, 0)
      decreases |str| - i
    {
      i := i + 1;
    }
  }

  lemma AtPlace(s: CString, i: nat)
    requires i <= |s|
    ensures At(s, i) == 0 <==> i == |s|
    ensures i < |s| ==> At(s, i) == s[i]
  {}

  lemma DecimalDigit(c: CHAR16)
    ensures IsDigit(c, 10) <==> ZERO <= c <= ZERO + 9
    ensures IsDigit(c, 10) ==> DigitOf(c, 10) == c - ZERO
  {}

  lemma HexDigit(c: CHAR16)
    ensures IsDigit(c, 16) <==> ZERO <= Upper(c) <= ZERO + 9 || UPPER_A <= Upper(c) <= UPPER_A + 5
    ensures IsDigit(c, 16) ==> DigitOf(c, 16) == Upper(c) - (if Upper(c) >= UPPER_A then UPPER_A - 10 else ZERO) < 16
    ensures Upper(c) == if LOWER_A <= c <= LOWER_A + 5 then c - (LOWER_A - UPPER_A) else c
  {}

  // The value, modulo 2^64, of the hexadecimal digits that follow any leading spaces.
  method Xtoi(str: CString) returns (u: nat)
    ensures u == Parsed(str, 16)
  {
    hide *;
    var i := SkipLeading(str);
    u := 0;
    ghost var start := i;
    BothBases();
    ReadingStarts(str, i, 16);
    while true
      invariant i <= |str| && Reading(str, start, i, 16, u)
      decreases |str| - i
    {
      var c := At(str, i);
      AtPlace(str, i);
      if c == 0 {
        break;
      }
      HexDigit(c);
      if c >= LOWER_A && c <= LOWER_A + 5 {
        c := c - (LOWER_A - UPPER_A);
      }
      if (c >= ZERO && c <= ZERO + 9) || (c >= UPPER_A && c <= UPPER_A + 5) {
        var d := c - if c >= UPPER_A then UPPER_A - 10 else ZERO;
        ReadDigit(str, start, i, 16, u);
        ShiftedIn(u, d);
        u := ShiftIn(u, d);
        i := i + 1;
      } else {
        break;
      }
    }
    ReadingEnds(str, i, 16, u);
  }

  // The value, modulo 2^64, of the decimal digits that follow any leading spaces.
  method Atoi(str: CString) returns (u: nat)
    ensures u == Parsed(str, 10)
  {
    hide *;
    var i := SkipLeading(str);
    u := 0;
    ghost var start := i;
    BothBases();
    ReadingStarts(str, i, 10);
    while true
      invariant i <= |str| && Reading(str, start, i, 10, u)
      decreases |str| - i
    {
      var c := At(str, i);
      AtPlace(str, i);
      if c == 0 {
        break;
      }
      DecimalDigit(c);
      if c >= ZERO && c <= ZERO + 9 {
        ReadDigit(str, start, i, 10, u);
        DigitPutIn(u, c - ZERO);
        u := PutIn(u, c - ZERO);
        i := i + 1;
      } else {
        break;
      }
    }
    ReadingEnds(str, i, 10, u);
  }

  // ---- decimal text ----

  // The text of the first j of n digits: a comma goes before a digit when a multiple of three
  // digits, that one included, is still to come.
  function WithCommas(ds: seq<nat>, j: nat): seq<CHAR16>
    requires j <= |ds| && forall i :: 0 <= i < |ds| ==> ds[i] < 16
    decreases j
  {
    if j == 0 then []
    else
      WithCommas(ds, j - 1)
      + (if j > 1 && (|ds| - (j - 1)) % 3 == 0 then [COMMA] else [])
      + [DigitChar(ds[j - 1])]
  }

  // Groups of three counted from the right.
  function Grouped(s: seq<CHAR16>): seq<CHAR16>
    decreases |s|
  {
    if |s| <= 3 then s else Grouped(s[..|s| - 3]) + [0x2C] + s[|s| - 3..]
  }

  function WithoutCommas(s: seq<CHAR16>): seq<CHAR16>
    decreases |s|
  {
    if s == [] then []
    else WithoutCommas(s[..|s| - 1]) + if s[|s| - 1] == 0x2C then [] else [s[|s| - 1]]
  }

  lemma DropLast(s: seq<CHAR16>, c: CHAR16)
    ensures WithoutCommas(s + [c]) == WithoutCommas(s) + if c == 0x2C then [] else [c]
  {
    assert (s + [c])[..|s|] == s;
  }

  lemma OneMoreDigit(ds: seq<nat>, j: nat)
    requires j < |ds| && DigitsBelow16(ds)
    ensures WithCommas(ds, j + 1) == WithCommas(ds, j)
      + (if j > 0 && (|ds| - j) % 3 == 0 then [COMMA] else []) + [Spell(ds)[j]]
    ensures Spell(ds)[j] != COMMA && Spell(ds)[..j + 1] == Spell(ds)[..j] + [Spell(ds)[j]]
  {}

  lemma NoCommas(ds: seq<nat>)
    requires DigitsBelow16(ds)
    ensures WithoutCommas(WithCommas(ds, 0)) == Spell(ds)[..0]
  {}

  // Deleting the commas leaves the plain digits.
  lemma {:induction false} CommasAreOnlyAdded(ds: seq<nat>, j: nat)
    requires j <= |ds| && DigitsBelow16(ds)
    ensures WithoutCommas(WithCommas(ds, j)) == Spell(ds)[..j]
    decreases j
  {
    hide WithoutCommas, WithCommas, Spell;
    if j == 0 {
      NoCommas(ds);
    } else {
      CommasAreOnlyAdded(ds, j - 1);
      OneMoreDigit(ds, j - 1);
      var before, c := WithCommas(ds, j - 1), Spell(ds)[j - 1];
      assert before + [] == before;
      DropLast(before, c);
      DropLast(before, COMMA);
      DropLast(before + [COMMA], c);
    }
  }

  lemma OneMoreGroup(ds: seq<nat>, j: nat)
    requires 3 < j <= |ds| && (|ds| - j) % 3 == 0 && DigitsBelow16(ds)
    ensures var s := Spell(ds)[..j];
      s[..j - 3] == Spell(ds)[..j - 3] && WithCommas(ds, j) == WithCommas(ds, j - 3) + [COMMA] + s[j - 3..]
  {
    hide WithCommas, Spell;
    NotThirds(|ds| - j);
    OneMoreDigit(ds, j - 3);
    OneMoreDigit(ds, j - 2);
    OneMoreDigit(ds, j - 1);
    var s := Spell(ds);
    assert s[..j][j - 3..] == [s[j - 3], s[j - 2], s[j - 1]];
  }

  lemma NotThirds(x: nat)
    requires x % 3 == 0
    ensures (x + 1) % 3 != 0 && (x + 2) % 3 != 0 && (x + 3) % 3 == 0
  {}

  lemma ThreeLess(n: nat, j: nat)
    requires 3 < j <= n && (n - j) % 3 == 0
    ensures (n - (j - 3)) % 3 == 0
  {}

  // Commas stand exactly between the groups of three counted from the right.
  lemma {:induction false} CommasGroupByThree(ds: seq<nat>, j: nat)
    requires j <= |ds| && (|ds| - j) % 3 == 0 && DigitsBelow16(ds)
    ensures WithCommas(ds, j) == Grouped(Spell(ds)[..j])
    decreases j
  {
    hide WithCommas, Spell, DigitsBelow16;
    if j > 3 {
      ThreeLess(|ds|, j);
      CommasGroupByThree(ds, j - 3);
      OneMoreGroup(ds, j);
    } else {
      FirstGroup(ds, j);
    }
  }

  lemma FirstGroup(ds: seq<nat>, j: nat)
    requires j <= |ds| && (|ds| - j) % 3 == 0 && j <= 3 && DigitsBelow16(ds)
    ensures WithCommas(ds, j) == Spell(ds)[..j]
  {
    var s := Spell(ds);
    assert WithCommas(ds, 0) == s[..0];
    if j >= 1 { assert WithCommas(ds, 1) == s[..1]; }
    if j >= 2 { assert WithCommas(ds, 2) == s[..2]; }
    if j >= 3 { assert WithCommas(ds, 3) == s[..3]; }
  }

  function Magnitude(v: int): nat { if v < 0 then -v else v }

  lemma Decimal(v: int)
    ensures DigitsBelow16(Digits(Magnitude(v), 10))
  {}

  function DecimalText(v: int, comma: bool): seq<CHAR16> {
    if v == 0 then [ZERO]
    else
      Decimal(v);
      var ds := Digits(Magnitude(v), 10);
      Sign(v) + DigitText(ds, |ds|, comma)
  }

  function Sign(v: int): seq<CHAR16> { if v < 0 then [MINUS] else [] }

  // The text of the first j digits.
  function DigitText(ds: seq<nat>, j: nat, comma: bool): seq<CHAR16>
    requires j <= |ds| && DigitsBelow16(ds)
  {
    if comma then WithCommas(ds, j) else Spell(ds)[..j]
  }

  // The places left until the next comma: what the counter of the printing loop holds before
  // digit j, the first digit never being preceded by one.
  function Countdown(n: nat, j: nat, comma: bool): int
    requires j <= n
  {
    if !comma then 1000 - j
    else if j == 0 && n % 3 == 0 then 4
    else (n - j) % 3 + 1
  }

  lemma CountdownNext(n: nat, j: nat, comma: bool)
    requires j < n <= 22
    ensures Countdown(n, j, comma) == 1 <==> comma && j > 0 && (n - j) % 3 == 0
    ensures Countdown(n, j + 1, comma) == if Countdown(n, j, comma) == 1 then 3 else Countdown(n, j, comma) - 1
  {}

  lemma NextDigitText(ds: seq<nat>, j: nat, comma: bool)
    requires j < |ds| && DigitsBelow16(ds)
    ensures DigitText(ds, 0, comma) == []
    ensures DigitText(ds, j + 1, comma) == DigitText(ds, j, comma)
      + (if comma && j > 0 && (|ds| - j) % 3 == 0 then [COMMA] else []) + [DigitChar(ds[j])]
  {
    OneMoreDigit(ds, j);
    assert Spell(ds)[..0] == [];
  }

  lemma {:induction false} DigitTextGrows(ds: seq<nat>, j: nat, k: nat, comma: bool)
    requires j <= k <= |ds| && DigitsBelow16(ds)
    ensures |DigitText(ds, j, comma)| <= |DigitText(ds, k, comma)|
    decreases k
  {
    if j < k {
      DigitTextGrows(ds, j, k - 1, comma);
      NextDigitText(ds, k - 1, comma);
      hide DigitText;
    }
  }

  // The digits of v, least significant first, by repeated division.
  method StoreDigits(str: array<CHAR16>, value: nat) returns (p1: nat)
    requires 0 < value < TWO64 && 22 <= str.Length
    modifies str
    ensures p1 == |Digits(value, 10)| <= 22
    ensures DigitsBelow16(Digits(value, 10)) && Holds(str[..], Digits(value, 10))
  {
    hide *;
    FewDigits(value);
    BothBases();
    NothingStored(str[..], value, 10);
    ghost var ds := Digits(value, 10);
    var v: nat := value;
    p1 := 0;
    while v != 0
      invariant v < TWO64 && Stored(str[..], ds, v, 10, p1)
      decreases v
    {
      StoreOne(str[..], ds, v, 10, p1);
      var q, r := DivU64x32(v, 10);
      ExactDivisionIsUnique(v, 10, q, r);
      str[p1] := DigitChar(r);
      p1 := p1 + 1;
      v := q;
    }
    AllStored(str[..], ds, 10, p1);
  }

  function WithComma(due: bool, c: CHAR16): (t: seq<CHAR16>)
    ensures |t| == if due then 2 else 1
  {
    if due then [COMMA, c] else [c]
  }

  // Puts a digit into the buffer, and a comma before it when one is due.
  method PutDigit(buffer: array<CHAR16>, p: nat, due: bool, c: CHAR16) returns (next: nat)
    requires p + |WithComma(due, c)| <= buffer.Length
    modifies buffer
    ensures next == p + |WithComma(due, c)| && buffer[..] == Overlay(old(buffer[..]), p, WithComma(due, c))
  {
    next := p;
    if due {
      OverlayOn(buffer[..], p, [COMMA], [c]);
      next := Put(buffer, next, COMMA);
    }
    next := Put(buffer, next, c);
  }

  // All but p1 of the digits have been put behind `at`, up to p2, and the countdown is right.
  ghost predicate Emitting(was: seq<CHAR16>, now: seq<CHAR16>, str: seq<CHAR16>, at: nat, p1: nat, p2: nat, c: int,
                           ds: seq<nat>, comma: bool)
  {
    && DigitsBelow16(ds) && p1 <= |ds| <= 22 && Holds(str, ds)
    && at + |DigitText(ds, |ds|, comma)| < |was|
    && c == Countdown(|ds|, |ds| - p1, comma)
    && var text := DigitText(ds, |ds| - p1, comma);
       at + |text| <= |was| && p2 == at + |text| && now == Overlay(was, at, text)
  }

  lemma EmittingStep(was: seq<CHAR16>, now: seq<CHAR16>, str: seq<CHAR16>, at: nat, p1: nat, p2: nat, c: int,
                     ds: seq<nat>, comma: bool)
    requires Emitting(was, now, str, at, p1, p2, c, ds, comma) && p1 > 0
    ensures p1 <= |str|
    ensures var due := c - 1 == 0; var t := WithComma(due, str[p1 - 1]);
      p2 + |t| <= |now| &&
      Emitting(was, Overlay(now, p2, t), str, at, p1 - 1, p2 + |t|, if due then 3 else c - 1, ds, comma)
  {
    var j, due := |ds| - p1, c - 1 == 0;
    hide DigitText, Countdown, DigitChar, Holds, Overlay, DigitsBelow16, WithComma;
    HeldDigit(str, ds, j);
    NextText(ds, j, comma, c);
    OverlayOn(was, at, DigitText(ds, j, comma), WithComma(due, DigitChar(ds[j])));
  }

  lemma NextText(ds: seq<nat>, j: nat, comma: bool, c: int)
    requires DigitsBelow16(ds) && j < |ds| <= 22 && c == Countdown(|ds|, j, comma) && ds[j] < 16
    ensures DigitText(ds, j + 1, comma) == DigitText(ds, j, comma) + WithComma(c - 1 == 0, DigitChar(ds[j]))
    ensures (if c - 1 == 0 then 3 else c - 1) == Countdown(|ds|, j + 1, comma)
    ensures |DigitText(ds, j + 1, comma)| <= |DigitText(ds, |ds|, comma)|
  {
    hide DigitText, Countdown, DigitChar, WithCommas, Spell;
    NextDigitText(ds, j, comma);
    CountdownNext(|ds|, j, comma);
    DigitTextGrows(ds, j + 1, |ds|, comma);
    assert [COMMA] + [DigitChar(ds[j])] == [COMMA, DigitChar(ds[j])];
  }

  // ca[n % 3], or more than any number has digits.
  function FirstCount(n: nat, comma: bool): nat {
    if !comma then 999 else if n % 3 == 0 then 3 else n % 3
  }

  lemma EmittingStarts(was: seq<CHAR16>, str: seq<CHAR16>, at: nat, c: int, ds: seq<nat>, comma: bool)
    requires DigitsBelow16(ds) && ds != [] && |ds| <= 22 && Holds(str, ds) && at + |DigitText(ds, |ds|, comma)| < |was|
    requires c == FirstCount(|ds|, comma) + 1
    ensures Emitting(was, was, str, at, |ds|, at, c, ds, comma)
  {
    NextDigitText(ds, 0, comma);
    OverlayNothing(was, at);
  }

  // The second loop: the digits are taken back from `str`, most significant first, with the
  // commas put in between.
  method EmitDigits(buffer: array<CHAR16>, at: nat, str: array<CHAR16>, n: nat, comma: bool, ghost ds: seq<nat>)
    returns (p2: nat)
    requires 1 <= n == |ds| <= 22 && DigitsBelow16(ds) && str != buffer && Holds(str[..], ds)
    requires at + |DigitText(ds, n, comma)| < buffer.Length
    modifies buffer
    ensures p2 == at + |DigitText(ds, n, comma)|
    ensures buffer[..] == Overlay(old(buffer[..]), at, DigitText(ds, n, comma))
  {
    hide *;
    p2 := at;
    var p1: nat := n;
    var c: int := FirstCount(n, comma) + 1;
    ghost var was, digits := buffer[..], str[..];
    EmittingStarts(was, digits, at, c, ds, comma);
    while p1 != 0
      invariant str[..] == digits && Emitting(was, buffer[..], digits, at, p1, p2, c, ds, comma)
    {
      EmittingStep(was, buffer[..], digits, at, p1, p2, c, ds, comma);
      c := c - 1;
      p1 := p1 - 1;
      p2 := PutDigit(buffer, p2, c == 0, str[p1]);
      if c == 0 {
        c := 3;
      }
    }
    EmittingEnds(was, buffer[..], digits, at, p2, c, ds, comma);
  }

  lemma EmittingEnds(was: seq<CHAR16>, now: seq<CHAR16>, str: seq<CHAR16>, at: nat, p2: nat, c: int,
                     ds: seq<nat>, comma: bool)
    requires Emitting(was, now, str, at, 0, p2, c, ds, comma)
    ensures DigitsBelow16(ds) && p2 == at + |DigitText(ds, |ds|, comma)| < |was|
    ensures now == Overlay(was, at, DigitText(ds, |ds|, comma))
  {}

  lemma NonZeroText(v: int, comma: bool)
    requires v != 0
    ensures var ds := Digits(Magnitude(v), 10);
      ds != [] && DigitsBelow16(ds) && DecimalText(v, comma) == Sign(v) + DigitText(ds, |ds|, comma)
  {
    Decimal(v);
  }

  // v is a 64-bit signed number; the buffer has room for its text and a terminator. The least such
  // number is its own negation in 64 bits, which the division then reads as 2^63; in C the negation
  // overflows.
  method ValueToString(buffer: array<CHAR16>, comma: bool, v: int)
    requires -(TWO63 as int) <= v < TWO63 && |DecimalText(v, comma)| < buffer.Length
    modifies buffer
    ensures buffer[..|DecimalText(v, comma)| + 1] == DecimalText(v, comma) + [0]
    ensures buffer[|DecimalText(v, comma)| + 1..] == old(buffer[|DecimalText(v, comma)| + 1..])
  {
    if v == 0 {
      buffer[0] := ZERO;
      buffer[1] := 0;
      return;
    }
    hide *;
    ghost var was, text := buffer[..], DecimalText(v, comma);
    OverlaySlices(was, text + [0]);
    SignedToString(buffer, comma, v);
    assert buffer[..][..|text| + 1] == buffer[..|text| + 1] && buffer[..][|text| + 1..] == buffer[|text| + 1..];
  }

  // The pieces of the text, put one behind the other.
  lemma TextInPieces(was: seq<CHAR16>, v: int, comma: bool)
    requires -(TWO63 as int) <= v < TWO63 && v != 0 && |DecimalText(v, comma)| < |was|
    ensures Base(10) && 0 < Magnitude(v) < TWO64
    ensures var ds := Digits(Magnitude(v), 10); var text := DecimalText(v, comma);
      && DigitsBelow16(ds) && |text| == |Sign(v)| + |DigitText(ds, |ds|, comma)| && Overlay(was, 0, []) == was
      && Overlay(Overlay(was, 0, Sign(v)), |Sign(v)|, DigitText(ds, |ds|, comma)) == Overlay(was, 0, text)
      && Overlay(Overlay(was, 0, text), |text|, [0]) == Overlay(was, 0, text + [0])
    ensures Sign(v) == if v < 0 then [MINUS] else []
  {
    hide DecimalText, Digits, DigitText, DigitsBelow16, Overlay, Countdown, WithCommas, Spell, DigitChar;
    NonZeroText(v, comma);
    var ds := Digits(Magnitude(v), 10);
    OverlayNothing(was, 0);
    OverlayOn(was, 0, Sign(v), DigitText(ds, |ds|, comma));
    OverlayOn(was, 0, DecimalText(v, comma), [0]);
  }

  // The same for a number that is not zero.
  method SignedToString(buffer: array<CHAR16>, comma: bool, v: int)
    requires -(TWO63 as int) <= v < TWO63 && v != 0 && |DecimalText(v, comma)| < buffer.Length
    modifies buffer
    ensures buffer[..] == Overlay(old(buffer[..]), 0, DecimalText(v, comma) + [0])
  {
    hide *;
    TextInPieces(buffer[..], v, comma);
    var p2: nat := 0;
    if v < 0 {
      p2 := Put(buffer, 0, MINUS);
    }
    var str := new CHAR16[40];
    var n := StoreDigits(str, Magnitude(v));
    p2 := EmitDigits(buffer, p2, str, n, comma, Digits(Magnitude(v), 10));
    p2 := Put(buffer, p2, 0);
  }

  // ---- round trips ----

  lemma SpelledDigit(d: nat, b: nat)
    requires Base(b) && d < b
    ensures IsDigit(DigitChar(d), b) && DigitOf(DigitChar(d), b) == d
    ensures DigitChar(d) != SPACE
  {}

  // Reading back spelled digits finds exactly them.
  lemma {:induction false} RunOfSpelled(ds: seq<nat>, i: nat, b: nat)
    requires Base(b) && i <= |ds| && forall k :: 0 <= k < |ds| ==> ds[k] < b
    ensures DigitRun(Spell(ds), i, b) == ds[i..]
    decreases |ds| - i
  {
    if i < |ds| {
      SpelledDigit(ds[i], b);
      RunOfSpelled(ds, i + 1, b);
    }
  }

  lemma ParsedSpelled(ds: seq<nat>, b: nat)
    requires Base(b) && ds != [] && forall k :: 0 <= k < |ds| ==> ds[k] < b
    ensures Parsed(Spell(ds), b) == Value(ds, b) % TWO64
  {
    SpelledDigit(ds[0], b);
    RunOfSpelled(ds, 0, b);
  }

  lemma ParsedZero(b: nat)
    requires Base(b)
    ensures Parsed([ZERO], b) == 0
  {
    assert [ZERO] == Spell([0]);
    ParsedSpelled([0], b);
    assert [0][..0] == [];
    assert Value([0], b) == b * Value([], b) + 0;
  }

  lemma HexRoundTrip(v: nat)
    requires v < TWO64
    ensures Parsed(HexText(v), 16) == v
  {
    hide Parsed, Digits, Value, Spell;
    if v == 0 {
      ParsedZero(16);
    } else {
      SomeDigits(v, 16);
      ParsedSpelled(Digits(v, 16), 16);
      ValueOfDigits(v, 16);
    }
  }

  lemma SomeDigits(v: nat, b: nat)
    requires Base(b) && v > 0
    ensures Digits(v, b) != [] && DigitsBelow16(Digits(v, b))
  {}

  lemma PlainText(v: nat)
    requires v > 0
    ensures DigitsBelow16(Digits(v, 10)) && DecimalText(v, false) == Spell(Digits(v, 10))
  {
    hide Digits, Spell;
    NonZeroText(v, false);
  }

  lemma DecimalRoundTrip(v: nat)
    requires v < TWO64
    ensures 0 !in DecimalText(v, false)
    ensures Parsed(DecimalText(v, false), 10) == v
  {
    hide Parsed, Digits, Value, Spell;
    if v == 0 {
      ParsedZero(10);
    } else {
      hide DecimalText;
      PlainText(v);
      SomeDigits(v, 10);
      ParsedSpelled(Digits(v, 10), 10);
      ValueOfDigits(v, 10);
    }
  }

  // Behind the sign of a negative number stands its magnitude, the least 64-bit number included.
  lemma NegativeRoundTrip(v: int)
    requires -0x8000_0000_0000_0000 <= v < 0
    ensures var text := DecimalText(v, false);
      text != [] && text[0] == 0x2D && 0 !in text[1..] && Parsed(text[1..], 10) == -v
  {
    DecimalTextIs(v);
    hide DecimalText, Parsed;
    DecimalRoundTrip(-v);
    assert DecimalText(v, false)[1..] == DecimalText(-v, false);
  }

  // ---- texts and their characters ----

  lemma LastSpelled(v: nat, b: nat)
    requires Base(b) && v > 0
    ensures DigitsBelow16(Digits(v, b)) && DigitsBelow16(Digits(v / b, b)) && v % b < 16
    ensures Spell(Digits(v, b)) == Spell(Digits(v / b, b)) + [DigitChar(v % b)]
  {
    DigitsEnd(v, b);
    hide DigitChar;
  }

  // Sixteens are put one by one behind the text of what remains: `0` to `9` and `A` to `F`.
  lemma HexTextIs(v: nat)
    ensures var d := v % 16; var last: CHAR16 := if d < 10 then 0x30 + d else 0x41 + (d - 10);
      HexText(v) == if v < 16 then [last] else HexText(v / 16) + [last]
  {
    if v > 0 {
      LastSpelled(v, 16);
      NoDigits(16);
      hide Digits;
    }
  }

  // Tens are put one by one behind the text of what remains, and a minus before the text of a negative
  // number's magnitude.
  lemma DecimalTextIs(v: int)
    ensures v < 0 ==> forall comma :: DecimalText(v, comma) == [0x2D] + DecimalText(-v, comma)
    ensures 0 <= v < 10 ==> DecimalText(v, false) == [0x30 + v]
    ensures v >= 10 ==> DecimalText(v, false) == DecimalText(v / 10, false) + [0x30 + v % 10]
  {
    if v < 0 {
      NegativeText(v);
    } else if v > 0 {
      var u: nat := v;
      LastSpelled(u, 10);
      NoDigits(10);
      PlainText(u);
      if u >= 10 { PlainText(u / 10); }
      hide Digits, DecimalText;
    }
  }

  lemma NegativeText(v: int)
    requires v < 0
    ensures forall comma :: DecimalText(v, comma) == [0x2D] + DecimalText(-v, comma)
  {
    Decimal(v);
    hide Digits, DigitText;
  }

  // A character that spells the digit d.
  predicate Spells(c: CHAR16, d: nat, b: nat) {
    || (d <= 9 && c == 0x30 + d)
    || (b == 16 && 10 <= d <= 15 && (c == 0x41 + (d - 10) || c == 0x61 + (d - 10)))
  }

  // A character that spells no digit.
  predicate SpellsNone(c: CHAR16, b: nat) {
    !(0x30 <= c <= 0x39) && (b == 16 ==> !(0x41 <= c <= 0x46) && !(0x61 <= c <= 0x66))
  }

  predicate AllSpelled(t: seq<CHAR16>, ds: seq<nat>, b: nat) {
    |t| == |ds| && forall i :: 0 <= i < |ds| ==> Spells(t[i], ds[i], b)
  }

  // What xtoi and Atoi make of n spaces and the digits behind them, whatever follows.
  lemma ParsedIs(s: CString, n: nat, ds: seq<nat>, b: nat)
    requires b == 10 || b == 16
    requires n + |ds| <= |s| && (forall i :: 0 <= i < n ==> s[i] == 0x20) && AllSpelled(s[n..n + |ds|], ds, b)
    requires n + |ds| < |s| ==> SpellsNone(s[n + |ds|], b)
    requires ds == [] && n < |s| ==> s[n] != 0x20
    ensures Parsed(s, b) == Value(ds, b) % 0x1_0000_0000_0000_0000
  {
    if ds != [] { assert s[n..n + |ds|][0] == s[n]; }
    SpacesSkipped(s, 0, n);
    RunOfDigits(s, n, ds, b);
    hide SkipSpaces, DigitRun, Value;
  }

  lemma {:induction false} SpacesSkipped(s: CString, i: nat, n: nat)
    requires i <= n <= |s| && (forall k :: i <= k < n ==> s[k] == 0x20) && (n < |s| ==> s[n] != 0x20)
    ensures SkipSpaces(s, i) == n
    decreases n - i
  {
    if i < n { SpacesSkipped(s, i + 1, n); }
  }

  lemma {:induction false} RunOfDigits(s: CString, n: nat, ds: seq<nat>, b: nat)
    requires b == 10 || b == 16
    requires n + |ds| <= |s| && AllSpelled(s[n..n + |ds|], ds, b)
    requires n + |ds| < |s| ==> SpellsNone(s[n + |ds|], b)
    ensures DigitRun(s, n, b) == ds
    decreases |ds|
  {
    if ds == [] {
      if n < |s| { NoDigit(s[n], b); }
    } else {
      var t := s[n..n + |ds|];
      assert t[0] == s[n] && t[1..] == s[n + 1..n + |ds|];
      assert AllSpelled(t[1..], ds[1..], b);
      DigitSpelled(s[n], ds[0], b);
      RunOfDigits(s, n + 1, ds[1..], b);
      hide Spells, IsDigit, DigitOf;
    }
  }

  lemma NoDigit(c: CHAR16, b: nat)
    requires b == 10 || b == 16
    requires SpellsNone(c, b)
    ensures !IsDigit(c, b)
  {}

  lemma DigitSpelled(c: CHAR16, d: nat, b: nat)
    requires (b == 10 || b == 16) && Spells(c, d, b)
    ensures IsDigit(c, b) && DigitOf(c, b) == d
  {}

  // The text with commas is the plain text grouped by three behind the sign, and without its
  // commas it is the plain text.
  lemma CommaText(v: int)
    ensures var plain := DecimalText(v, false)[|Sign(v)|..];
      && DecimalText(v, false) == Sign(v) + plain
      && DecimalText(v, true) == Sign(v) + Grouped(plain)
      && WithoutCommas(Grouped(plain)) == plain
  {
    Decimal(v);
    var ds := Digits(Magnitude(v), 10);
    if v == 0 {
      assert [ZERO][..0] == [];
      DropLast([], ZERO);
    } else {
      CommasGroupByThree(ds, |ds|);
      CommasAreOnlyAdded(ds, |ds|);
      assert Spell(ds)[..|ds|] == Spell(ds);
      assert DecimalText(v, false) == Sign(v) + Spell(ds);
      assert DecimalText(v, false)[|Sign(v)|..] == Spell(ds);
    }
  }
}
