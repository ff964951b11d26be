// Walking SMBIOS structures (section 6.1.3 of DMTF DSP0134): a formatted area whose second byte
// is its length, then NUL-terminated strings and one more NUL, or two NULs when there are none.
module Smbios {
  import opened Bytes
  import opened Options

  const HEADER_LENGTH := 4
  const SKIP_ALL := 0xffff

  datatype StructureRecord = Structure(formatted: seq<Byte>, strings: seq<seq<Byte>>)

  type Structure = s: StructureRecord |
    && HEADER_LENGTH <= |s.formatted| < 256 && s.formatted[1] == |s.formatted|
    && forall i :: 0 <= i < |s.strings| ==> s.strings[i] != [] && 0 !in s.strings[i]
    witness Structure([0, 4, 0, 0], [])

  // The strings, each with its NUL, and the NUL that ends them.
  function StringArea(strings: seq<seq<Byte>>): seq<Byte>
    decreases |strings|
  {
    if strings == [] then [0] else strings[0] + [0] + StringArea(strings[1..])
  }

  function Encode(s: Structure): seq<Byte> {
    s.formatted + (if s.strings == [] then [0] else []) + StringArea(s.strings)
  }

  function EncodeTable(ss: seq<Structure>): seq<Byte>
    decreases |ss|
  {
    if ss == [] then [] else Encode(ss[0]) + EncodeTable(ss[1..])
  }

  ghost predicate BytesAt(mem: seq<Byte>, a: nat, bytes: seq<Byte>) {
    a + |bytes| <= |mem| && mem[a..a + |bytes|] == bytes
  }

  // Where string k (from 0) starts, counted from the start of the structure.
  function StringStart(s: Structure, k: nat): nat
    requires k <= |s.strings|
  {
    |s.formatted| + Length(s.strings[..k])
  }

  function Length(strings: seq<seq<Byte>>): nat
    decreases |strings|
  {
    if strings == [] then 0 else Length(strings[..|strings| - 1]) + |strings[|strings| - 1]| + 1
  }

  lemma AreaAt(mem: seq<Byte>, a: nat, strings: seq<seq<Byte>>)
    requires strings != [] && BytesAt(mem, a, StringArea(strings))
    ensures a + |strings[0]| + 1 < |mem| && mem[a..a + |strings[0]|] == strings[0] && mem[a + |strings[0]|] == 0
    ensures BytesAt(mem, a + |strings[0]| + 1, StringArea(strings[1..]))
  {
    var area, first := StringArea(strings), strings[0];
    var rest := StringArea(strings[1..]);
    var w := mem[a..a + |area|];
    assert w[..|first|] == first && w[|first|] == 0 && w[|first| + 1..] == rest;
    AreaNotEmpty(strings[1..]);
  }

  lemma AreaNotEmpty(strings: seq<seq<Byte>>)
    ensures StringArea(strings) != []
    ensures (forall i :: 0 <= i < |strings| ==> strings[i] != [] && 0 !in strings[i]) ==>
      (StringArea(strings)[0] == 0 <==> strings == [])
  {}

  lemma LengthTo(strings: seq<seq<Byte>>, k: nat)
    requires k < |strings|
    ensures Length(strings[..k + 1]) == Length(strings[..k]) + |strings[k]| + 1
  {
    assert strings[..k + 1][..k] == strings[..k];
  }

  lemma {:induction false} AreaLength(strings: seq<seq<Byte>>)
    ensures |StringArea(strings)| == Length(strings) + 1
    decreases |strings|
  {
    if strings != [] {
      AreaLength(strings[1..]);
      LengthFromFront(strings);
    }
  }

  lemma {:induction false} LengthFromFront(strings: seq<seq<Byte>>)
    requires strings != []
    ensures Length(strings) == |strings[0]| + 1 + Length(strings[1..])
    decreases |strings|
  {
    var front := strings[..|strings| - 1];
    if front == [] {
      assert strings[1..] == [];
    } else {
      LengthFromFront(front);
      assert front[1..] == strings[1..][..|strings| - 2];
    }
  }

  // Section by section: the formatted area, then the strings.
  lemma Areas(mem: seq<Byte>, raw: nat, s: Structure)
    requires BytesAt(mem, raw, Encode(s))
    ensures raw + 1 < |mem| && mem[raw + 1] == |s.formatted|
    ensures s.strings != [] ==> BytesAt(mem, raw + |s.formatted|, StringArea(s.strings))
    ensures s.strings == [] ==> raw + |s.formatted| + 1 < |mem|
    ensures s.strings == [] ==> mem[raw + |s.formatted|] == 0 && mem[raw + |s.formatted| + 1] == 0
    ensures |Encode(s)| == |s.formatted| + Length(s.strings) + (if s.strings == [] then 2 else 1)
  {
    var w, n := mem[raw..raw + |Encode(s)|], |s.formatted|;
    assert w[1] == s.formatted[1];
    AreaLength(s.strings);
    if s.strings != [] {
      assert w[n..] == StringArea(s.strings);
    } else {
      assert w[n] == 0 && w[n + 1] == 0;
    }
  }

  lemma FirstStart(s: Structure)
    ensures StringStart(s, 0) == |s.formatted| && s.strings[0..] == s.strings
    ensures Length([]) == 0
  {}

  // What the walk finds at string k: its bytes and NUL, then another string or the last NUL.
  lemma AtString(mem: seq<Byte>, at: nat, s: Structure, k: nat)
    requires k < |s.strings| && BytesAt(mem, at, StringArea(s.strings[k..]))
    ensures var str := s.strings[k];
      && at + |str| + 1 < |mem| && mem[at..at + |str|] == str && mem[at + |str|] == 0 && 0 !in str
      && BytesAt(mem, at + |str| + 1, StringArea(s.strings[k + 1..]))
      && (mem[at + |str| + 1] == 0 <==> k + 1 == |s.strings|)
    ensures StringStart(s, k + 1) == StringStart(s, k) + |s.strings[k]| + 1
    ensures k + 1 == |s.strings| ==> StringStart(s, k + 1) == |s.formatted| + Length(s.strings)
  {
    var rest := s.strings[k..];
    AreaAt(mem, at, rest);
    LengthTo(s.strings, k);
    assert rest[1..] == s.strings[k + 1..];
    AreaNotEmpty(rest[1..]);
    var next := at + |rest[0]| + 1;
    assert mem[next] == mem[next..next + |StringArea(rest[1..])|][0];
    assert s.strings[..|s.strings|] == s.strings;
  }

  class StructurePointer {
    var raw: nat

    constructor (raw: nat)
      ensures this.raw == raw
    {
      this.raw := raw;
    }
  }

  // Past the string at `at`, to the place after its NUL.
  method SkipString(mem: seq<Byte>, at: nat, ghost str: seq<Byte>) returns (next: nat)
    requires at + |str| < |mem| && mem[at..at + |str|] == str && mem[at + |str|] == 0 && 0 !in str
    ensures next == at + |str| + 1
  {
    next := at;
    while mem[next] != 0
      invariant at <= next <= at + |str|
      decreases at + |str| - next
    {
      if next < at + |str| {
        assert mem[next] == str[next - at];
      }
      next := next + 1;
      if next < at + |str| {
        assert mem[next] == str[next - at];
      }
    }
    next := next + 1;
  }

  // String `number` (from 1), the pointer staying where it is; beyond the last one no string, and
  // the pointer at the next structure. Without strings, number 1 is the first of the two NULs.
  function Answer(s: Structure, raw: nat, number: nat): (Option<nat>, nat) {
    if number == 0 then (None, raw)
    else if number == 1 || number <= |s.strings| then
      FirstStart(s);
      (Some(raw + if s.strings == [] then |s.formatted| else StringStart(s, number - 1)), raw)
    else (None, raw + |Encode(s)|)
  }

  method LibGetSmbiosString(mem: seq<Byte>, smbios: StructurePointer, number: nat, ghost s: Structure)
    returns (str: Option<nat>)
    requires number <= 0xffff && BytesAt(mem, smbios.raw, Encode(s))
    modifies smbios
    ensures (str, smbios.raw) == Answer(s, old(smbios.raw), number)
  {
    hide *;
    ghost var raw := smbios.raw;
    StartWalk(mem, raw, s, number);
    var at: nat := smbios.raw + mem[smbios.raw + 1];
    var index: nat := 1;
    while index <= number
      invariant 1 <= index && (number > 0 ==> index <= number) && smbios.raw == raw && Walking(mem, raw, s, index, at)
      invariant number == 0 ==> Answer(s, raw, number) == (None, raw)
      decreases number - index
    {
      WalkStep(mem, raw, s, index, at, number);
      if number == index {
        return Some(at);
      }
      at := SkipString(mem, at, Current(s, index));
      if mem[at] == 0 {
        smbios.raw := at + 1;
        return None;
      }
      index := index + 1;
    }
    return None;
  }

  // The walk stands at string `index` (from 1), or at the first NUL when there are no strings.
  ghost predicate Walking(mem: seq<Byte>, raw: nat, s: Structure, index: nat, at: nat) {
    if s.strings == [] then
      index == 1 && at == raw + |s.formatted| && at + 1 < |mem| && mem[at] == 0 && mem[at + 1] == 0
    else
      && 1 <= index <= |s.strings| && at == raw + StringStart(s, index - 1)
      && BytesAt(mem, at, StringArea(s.strings[index - 1..]))
  }

  ghost function Current(s: Structure, index: nat): seq<Byte> {
    if 1 <= index <= |s.strings| then s.strings[index - 1] else []
  }

  lemma StartWalk(mem: seq<Byte>, raw: nat, s: Structure, number: nat)
    requires BytesAt(mem, raw, Encode(s))
    ensures raw + 1 < |mem| && Walking(mem, raw, s, 1, raw + mem[raw + 1])
    ensures number == 0 ==> Answer(s, raw, number) == (None, raw)
  {
    Areas(mem, raw, s);
    FirstStart(s);
  }

  // What a step finds at `at`: a string and its NUL, and behind it either the last NUL of the
  // structure or the next string.
  ghost predicate StepFinds(mem: seq<Byte>, raw: nat, s: Structure, index: nat, at: nat) {
    var str := Current(s, index);
    var next := at + |str| + 1;
    && next < |mem| && mem[at..at + |str|] == str && mem[at + |str|] == 0 && 0 !in str
    && (mem[next] == 0 <==> index >= |s.strings|)
    && (mem[next] == 0 ==> next + 1 == raw + |Encode(s)|)
    && (mem[next] != 0 ==> Walking(mem, raw, s, index + 1, next))
  }

  lemma StepWithoutStrings(mem: seq<Byte>, raw: nat, s: Structure, at: nat)
    requires BytesAt(mem, raw, Encode(s)) && Walking(mem, raw, s, 1, at) && s.strings == []
    ensures StepFinds(mem, raw, s, 1, at)
  {
    Areas(mem, raw, s);
    FirstStart(s);
    hide Encode, BytesAt, StringStart, StringArea;
  }

  lemma StepWithStrings(mem: seq<Byte>, raw: nat, s: Structure, index: nat, at: nat)
    requires BytesAt(mem, raw, Encode(s)) && Walking(mem, raw, s, index, at) && s.strings != []
    ensures StepFinds(mem, raw, s, index, at)
  {
    hide Encode, StringArea, Length, BytesAt, StringStart;
    Areas(mem, raw, s);
    AtString(mem, at, s, index - 1);
  }

  lemma WalkStep(mem: seq<Byte>, raw: nat, s: Structure, index: nat, at: nat, number: nat)
    requires BytesAt(mem, raw, Encode(s)) && Walking(mem, raw, s, index, at) && index <= number
    ensures index == number ==> Answer(s, raw, number) == (Some(at), raw)
    ensures var str := Current(s, index); var next := at + |str| + 1;
      && next < |mem| && mem[at..at + |str|] == str && mem[at + |str|] == 0 && 0 !in str
      && (mem[next] == 0 && index < number ==> Answer(s, raw, number) == (None, next + 1))
      && (mem[next] != 0 ==> Walking(mem, raw, s, index + 1, next))
  {
    hide Encode, StringArea, Length, BytesAt, StringStart;
    if s.strings == [] {
      StepWithoutStrings(mem, raw, s, at);
    } else {
      StepWithStrings(mem, raw, s, index, at);
    }
  }

  lemma BytesInTwo(mem: seq<Byte>, a: nat, b: seq<Byte>, c: seq<Byte>)
    requires BytesAt(mem, a, b + c)
    ensures BytesAt(mem, a, b) && BytesAt(mem, a + |b|, c)
  {
    var w := mem[a..a + |b + c|];
    assert mem[a..a + |b|] == w[..|b|] == b;
    assert mem[a + |b|..a + |b| + |c|] == w[|b|..] == c;
  }

  // From one structure of a table to the next.
  lemma NextStructure(mem: seq<Byte>, raw: nat, ss: seq<Structure>)
    requires ss != [] && BytesAt(mem, raw, EncodeTable(ss))
    ensures BytesAt(mem, raw, Encode(ss[0])) && BytesAt(mem, raw + |Encode(ss[0])|, EncodeTable(ss[1..]))
  {
    hide Encode;
    BytesInTwo(mem, raw, Encode(ss[0]), EncodeTable(ss[1..]));
  }

  lemma StringIsThere(mem: seq<Byte>, raw: nat, s: Structure, k: nat)
    requires k < |s.strings| && BytesAt(mem, raw, Encode(s))
    ensures BytesAt(mem, raw + StringStart(s, k), s.strings[k] + [0])
  {
    AreaIsThere(mem, raw, s, k);
    hide StringStart, Encode;
    AtString(mem, raw + StringStart(s, k), s, k);
    var at, str := raw + StringStart(s, k), s.strings[k];
    assert mem[at..at + |str| + 1] == mem[at..at + |str|] + [mem[at + |str|]];
  }

  lemma {:induction false} AreaIsThere(mem: seq<Byte>, raw: nat, s: Structure, k: nat)
    requires k < |s.strings| && BytesAt(mem, raw, Encode(s))
    ensures BytesAt(mem, raw + StringStart(s, k), StringArea(s.strings[k..]))
    decreases k
  {
    hide Encode, StringStart, BytesAt, StringArea, Length;
    if k == 0 {
      Areas(mem, raw, s);
      FirstStart(s);
    } else {
      AreaIsThere(mem, raw, s, k - 1);
      AtString(mem, raw + StringStart(s, k - 1), s, k - 1);
    }
  }

  // ---- skipping from structure to structure ----

  lemma SomeBytes(s: Structure)
    ensures |Encode(s)| > 0
  {}

  // Where skip after skip leads, until one does not move the pointer or the structures end.
  function SkipAll(table: seq<Structure>, start: nat): nat
    decreases |table|
  {
    if table == [] || Answer(table[0], start, SKIP_ALL).1 == start then start
    else SkipAll(table[1..], Answer(table[0], start, SKIP_ALL).1)
  }

  ghost predicate Skippable(table: seq<Structure>) {
    forall i :: 0 <= i < |table| ==> |table[i].strings| < 0xffff
  }

  // Asking for string -1 again and again leads to the end of the structures exactly when none of
  // them has 65535 strings or more; one that has holds the pointer where it is.
  lemma {:induction false} SkipsToEndIff(table: seq<Structure>, start: nat)
    ensures SkipAll(table, start) == start + |EncodeTable(table)| <==> Skippable(table)
    ensures SkipAll(table, start) <= start + |EncodeTable(table)|
    decreases |table|
  {
    hide Encode, Answer, Skippable;
    SkippableFirst(table);
    if table != [] {
      SomeBytes(table[0]);
      SkipAnswer(table[0], start);
      SkipsToEndIff(table[1..], start + |Encode(table[0])|);
    }
  }

  lemma SkippableFirst(table: seq<Structure>)
    ensures Skippable([])
    ensures table != [] ==> (Skippable(table) <==> |table[0].strings| < SKIP_ALL && Skippable(table[1..]))
  {
    if table != [] {
      var rest := table[1..];
      assert forall i :: 0 <= i < |rest| ==> rest[i] == table[i + 1];
    }
  }

  lemma SkipAnswer(s: Structure, raw: nat)
    ensures |s.strings| < SKIP_ALL ==> Answer(s, raw, SKIP_ALL) == (None, raw + |Encode(s)|)
    ensures |s.strings| >= SKIP_ALL ==> Answer(s, raw, SKIP_ALL).0.Some? && Answer(s, raw, SKIP_ALL).1 == raw
  {}

  // For instance: the answer is the last of 65535 strings.
  lemma TooManyStringsToSkip(raw: nat)
    ensures var s := Structure([0, 4, 0, 0], seq(65535, _ => [1]));
      Answer(s, raw, SKIP_ALL) == (Some(raw + StringStart(s, 65534)), raw)
  {}

  // ---- the system's serial number and GUID ----

  const SYSTEM_INFORMATION := 1
  const SYSTEM_INFORMATION_LENGTH := 0x19
  const SERIAL_NUMBER := 7
  const UUID := 8

  // The scan gets no further than such a structure.
  predicate Stops(s: Structure) {
    s.formatted[0] == SYSTEM_INFORMATION || |s.strings| >= SKIP_ALL
  }

  function FirstStop(ss: seq<Structure>): (k: nat)
    ensures k <= |ss| && (k < |ss| ==> Stops(ss[k])) && forall i :: 0 <= i < k ==> !Stops(ss[i])
    decreases |ss|
  {
    if ss == [] || Stops(ss[0]) then 0 else 1 + FirstStop(ss[1..])
  }

  lemma FirstStopIs(ss: seq<Structure>, k: nat)
    requires k <= |ss| && (forall i :: 0 <= i < k ==> !Stops(ss[i])) && (k == |ss| || Stops(ss[k]))
    ensures FirstStop(ss) == k
  {}

  // How many structures start within so many bytes.
  function Reached(table: seq<Structure>, length: nat): (n: nat)
    ensures n <= |table|
    decreases |table|
  {
    if table == [] || length == 0 then 0
    else 1 + Reached(table[1..], if length > |Encode(table[0])| then length - |Encode(table[0])| else 0)
  }

  lemma {:induction false} ReachedIff(table: seq<Structure>, length: nat, k: nat)
    requires k < |table|
    ensures k < Reached(table, length) <==> |EncodeTable(table[..k])| < length
    decreases k
  {
    hide Encode;
    SomeBytes(table[0]);
    if k == 0 {
      assert table[..0] == [];
    } else {
      var rest := table[1..];
      assert table[..k][1..] == rest[..k - 1] && table[..k][0] == table[0];
      ReachedIff(rest, if length > |Encode(table[0])| then length - |Encode(table[0])| else 0, k - 1);
    }
  }

  // The routine reports success in every case; `Unset` when it left the caller's variables alone.
  datatype SystemInformation = Unset | Found(guid: seq<Byte>, serialNumber: Option<nat>)

  // What structures say: the first of them at which the scan stops decides, and says nothing when
  // it is of the older, shorter kind or has too many strings to be skipped.
  function Described(ss: seq<Structure>, start: nat): SystemInformation {
    var k := FirstStop(ss);
    if k == |ss| || ss[k].formatted[0] != SYSTEM_INFORMATION || |ss[k].formatted| < SYSTEM_INFORMATION_LENGTH then Unset
    else
      Found(ss[k].formatted[UUID..UUID + 16],
            Answer(ss[k], start + |EncodeTable(ss[..k])|, ss[k].formatted[SERIAL_NUMBER]).0)
  }

  predicate IsLong(s: Structure) {
    s.formatted[0] == SYSTEM_INFORMATION && |s.formatted| >= SYSTEM_INFORMATION_LENGTH
  }

  // The first system information structure that is long enough.
  function FirstLong(ss: seq<Structure>): (k: nat)
    ensures k <= |ss| && (k < |ss| ==> IsLong(ss[k])) && forall i :: 0 <= i < k ==> !IsLong(ss[i])
    decreases |ss|
  {
    if ss == [] || IsLong(ss[0]) then 0 else 1 + FirstLong(ss[1..])
  }

  function Report(ss: seq<Structure>, start: nat, k: nat): SystemInformation
    requires k < |ss| && IsLong(ss[k])
  {
    Found(ss[k].formatted[UUID..UUID + 16],
          Answer(ss[k], start + |EncodeTable(ss[..k])|, ss[k].formatted[SERIAL_NUMBER]).0)
  }

  // It is the one reported exactly when nothing before it stops the scan: neither one of the
  // shorter kind, which the scan never leaves, nor one with too many strings.
  lemma ReportsFirstLongIff(ss: seq<Structure>, start: nat)
    ensures FirstLong(ss) == |ss| ==> Described(ss, start) == Unset
    ensures FirstLong(ss) < |ss| ==>
      (Described(ss, start) == Report(ss, start, FirstLong(ss)) <==> forall i :: 0 <= i < FirstLong(ss) ==> !Stops(ss[i]))
  {
    hide *;
    DescribedAtStop(ss, start);
    var k, j := FirstLong(ss), FirstStop(ss);
    if k < |ss| {
      LongStops(ss[k]);
      assert j <= k;
      if j == k {
        assert Described(ss, start) == Report(ss, start, k);
      } else {
        assert Stops(ss[j]) && !IsLong(ss[j]);
      }
    }
  }

  lemma LongStops(s: Structure)
    requires IsLong(s)
    ensures Stops(s)
  {}

  lemma DescribedAtStop(ss: seq<Structure>, start: nat)
    ensures var j := FirstStop(ss);
      Described(ss, start) == if j < |ss| && IsLong(ss[j]) then Report(ss, start, j) else Unset
    ensures forall k :: 0 <= k < |ss| && IsLong(ss[k]) ==> Report(ss, start, k).Found?
  {
    hide Encode, EncodeTable, Answer, FirstStop;
  }

  // For instance a structure of the older kind hides the long one behind it.
  lemma ShortStructureHidesLong(start: nat)
    ensures var short: Structure := Structure([1, 4, 0, 0], []);
      var long: Structure := Structure([1, 0x19] + seq(0x17, _ => 0), []);
      Described([short, long], start) == Unset && FirstLong([short, long]) == 1
  {
    var short: Structure := Structure([1, 4, 0, 0], []);
    var long: Structure := Structure([1, 0x19] + seq(0x17, _ => 0), []);
    assert [short, long][1..] == [long];
    assert Stops(short) && IsLong(long) && !IsLong(short);
    assert FirstStop([short, long]) == 0;
  }

  // The answer byte by byte, for a structure of type 1 that the scan gets to: a header of four bytes,
  // the numbers of four strings, the last of them the serial number, the 16 bytes of the GUID, and at
  // least one byte more. Of a shorter structure nothing is said.
  lemma SystemStructure(ss: seq<Structure>, start: nat, k: nat, names: seq<Byte>, serial: Byte, guid: seq<Byte>,
                        rest: seq<Byte>)
    requires k < |ss| && forall i :: 0 <= i < k ==> ss[i].formatted[0] != 1 && |ss[i].strings| < 65535
    requires |names| == 5 && |guid| == 16
    requires [1] + [|ss[k].formatted|] + names + [serial] + guid + rest == ss[k].formatted
    ensures rest == [] ==> Described(ss, start) == Unset
    ensures rest != [] ==>
      var raw := start + |EncodeTable(ss[..k])|; var s := ss[k];
      Described(ss, start) == Found(guid,
        if serial == 0 then None
        else if serial <= |s.strings| then Some(raw + StringStart(s, serial - 1))
        else if serial == 1 then Some(raw + |s.formatted|)
        else None)
  {
    hide *;
    SystemFields(ss[k], names, serial, guid, rest);
    Earlier(ss, k);
    FirstStopIs(ss, k);
    DescribedMeans(ss, start);
  }

  lemma Earlier(ss: seq<Structure>, k: nat)
    requires k <= |ss| && forall i :: 0 <= i < k ==> ss[i].formatted[0] != 1 && |ss[i].strings| < 65535
    ensures forall i :: 0 <= i < k ==> !Stops(ss[i])
  {}

  lemma SystemFields(s: Structure, names: seq<Byte>, serial: Byte, guid: seq<Byte>, rest: seq<Byte>)
    requires |names| == 5 && |guid| == 16 && [1] + [|s.formatted|] + names + [serial] + guid + rest == s.formatted
    ensures |s.formatted| == 0x18 + |rest| && s.formatted[0] == 1 && s.formatted[7] == serial && s.formatted[8..24] == guid
    ensures Stops(s)
  {
    assert ([1] + [|s.formatted|] + names + [serial] + guid + rest)[8..24] == guid;
  }

  lemma DescribedMeans(ss: seq<Structure>, start: nat)
    ensures var k := FirstStop(ss);
      k < |ss| && ss[k].formatted[0] == 1 ==>
        var s, raw := ss[k], start + |EncodeTable(ss[..k])|;
        Described(ss, start) ==
          if |s.formatted| < 0x19 then Unset
          else
            Found(s.formatted[8..24],
              if s.formatted[7] == 0 then None
              else if s.formatted[7] <= |s.strings| then Some(raw + StringStart(s, s.formatted[7] - 1))
              else if s.formatted[7] == 1 then Some(raw + |s.formatted|)
              else None)
  {
    hide Encode, EncodeTable, FirstStop, StringStart;
  }

  lemma {:induction false} TableSnoc(ss: seq<Structure>, k: nat)
    requires k < |ss|
    ensures |EncodeTable(ss[..k + 1])| == |EncodeTable(ss[..k])| + |Encode(ss[k])|
    decreases k
  {
    hide Encode;
    assert ss[..k + 1][1..] == ss[1..][..k];
    if k > 0 {
      assert ss[..k][1..] == ss[1..][..k - 1];
      TableSnoc(ss[1..], k - 1);
    } else {
      assert EncodeTable(ss[..1]) == Encode(ss[0]) + [];
    }
  }

  // Structures have bytes: k of them have at least k.
  lemma {:induction false} ManyBytes(ss: seq<Structure>, k: nat)
    requires k <= |ss|
    ensures k <= |EncodeTable(ss[..k])|
    decreases k
  {
    hide Encode, EncodeTable;
    if k > 0 {
      ManyBytes(ss, k - 1);
      TableSnoc(ss, k - 1);
      SomeBytes(ss[k - 1]);
    }
  }

  // The formatted area of a structure in memory.
  lemma FormattedAt(mem: seq<Byte>, raw: nat, s: Structure)
    requires BytesAt(mem, raw, Encode(s))
    ensures raw + |s.formatted| <= |mem| && forall i :: 0 <= i < |s.formatted| ==> mem[raw + i] == s.formatted[i]
  {
    var e, n := Encode(s), |s.formatted|;
    assert |e| >= n && forall i :: 0 <= i < n ==> e[i] == s.formatted[i];
    hide Encode;
    forall i | 0 <= i < n ensures mem[raw + i] == s.formatted[i] {
      assert mem[raw..raw + |e|][i] == e[i];
    }
  }

  // The fields the scan looks at.
  lemma FieldsAt(mem: seq<Byte>, raw: nat, s: Structure)
    requires BytesAt(mem, raw, Encode(s))
    ensures raw + |s.formatted| <= |mem| && mem[raw] == s.formatted[0] && mem[raw + 1] == |s.formatted|
    ensures |s.formatted| >= SYSTEM_INFORMATION_LENGTH ==>
      && mem[raw + SERIAL_NUMBER] == s.formatted[SERIAL_NUMBER]
      && mem[raw + UUID..raw + UUID + 16] == s.formatted[UUID..UUID + 16]
  {
    hide Encode, BytesAt;
    FormattedAt(mem, raw, s);
    assert mem[raw + 0] == s.formatted[0] && mem[raw + 1] == s.formatted[1];
  }

  // The scan stands at structure k, which starts within the stated length; `stuck` when it will
  // stay there. Otherwise the counter has counted the structures passed.
  ghost predicate Scanning(mem: seq<Byte>, start: nat, table: seq<Structure>, length: nat, raw: nat,
                           index: nat, k: nat, stuck: bool)
  {
    && k < |table| && raw == start + |EncodeTable(table[..k])| && BytesAt(mem, raw, EncodeTable(table[k..]))
    && |EncodeTable(table[..k])| < length
    && (forall i :: 0 <= i < k ==> !Stops(table[i]))
    && (if stuck then Sticks(table[k]) else index == k)
  }

  predicate Sticks(s: Structure) {
    Stops(s) && (s.formatted[0] == SYSTEM_INFORMATION ==> |s.formatted| < SYSTEM_INFORMATION_LENGTH)
  }

  // The structures in memory reach as far as the scan goes: up to the stated length, or to one at
  // which it stops.
  predicate ReachesFar(table: seq<Structure>, length: nat) {
    FirstStop(table) < |table| || length <= |EncodeTable(table)|
  }

  lemma StartScan(mem: seq<Byte>, start: nat, table: seq<Structure>, length: nat)
    requires BytesAt(mem, start, EncodeTable(table)) && ReachesFar(table, length) && length > 0
    ensures Scanning(mem, start, table, length, start, 0, 0, false)
  {
    assert table[0..] == table && table[..0] == [];
    hide Encode, BytesAt;
  }

  lemma NothingStated(table: seq<Structure>, start: nat)
    ensures Described(table[..Reached(table, 0)], start) == Unset
  {}

  lemma AtStructure(mem: seq<Byte>, raw: nat, table: seq<Structure>, k: nat)
    requires k < |table| && BytesAt(mem, raw, EncodeTable(table[k..]))
    ensures BytesAt(mem, raw, Encode(table[k])) && BytesAt(mem, raw + |Encode(table[k])|, EncodeTable(table[k + 1..]))
  {
    hide Encode, EncodeTable, BytesAt;
    NextStructure(mem, raw, table[k..]);
    assert table[k..][0] == table[k] && table[k..][1..] == table[k + 1..];
  }

  // What the scan reads at structure k.
  lemma ScanRead(mem: seq<Byte>, start: nat, table: seq<Structure>, length: nat, raw: nat, index: nat, k: nat, stuck: bool)
    requires Scanning(mem, start, table, length, raw, index, k, stuck)
    ensures k < |table| && BytesAt(mem, raw, Encode(table[k])) && raw + 1 < |mem|
    ensures mem[raw] == table[k].formatted[0] && mem[raw + 1] == |table[k].formatted|
    ensures mem[raw] == SYSTEM_INFORMATION && mem[raw + 1] < SYSTEM_INFORMATION_LENGTH ==>
      Scanning(mem, start, table, length, raw, index + 1, k, true)
  {
    hide Encode, EncodeTable, BytesAt;
    AtStructure(mem, raw, table, k);
    FieldsAt(mem, raw, table[k]);
  }

  // What the structures within the stated length say, from structure k on.
  lemma StopsWithin(table: seq<Structure>, start: nat, length: nat, k: nat)
    requires k < |table| && |EncodeTable(table[..k])| < length
    requires (forall i :: 0 <= i < k ==> !Stops(table[i])) && Stops(table[k])
    ensures var ss := table[..Reached(table, length)];
      k < |ss| && FirstStop(ss) == k && ss[k] == table[k] && ss[..k] == table[..k]
  {
    hide Stops, Encode, EncodeTable, Reached;
    ReachedIff(table, length, k);
    FirstStopIs(table[..Reached(table, length)], k);
  }

  // A system information structure that is long enough.
  lemma ScanFound(mem: seq<Byte>, start: nat, table: seq<Structure>, length: nat, raw: nat, index: nat, k: nat, stuck: bool)
    requires Scanning(mem, start, table, length, raw, index, k, stuck) && k < |table|
    requires table[k].formatted[0] == SYSTEM_INFORMATION && |table[k].formatted| >= SYSTEM_INFORMATION_LENGTH
    ensures raw + UUID + 16 <= |mem|
    ensures Described(table[..Reached(table, length)], start)
         == Found(mem[raw + UUID..raw + UUID + 16], Answer(table[k], raw, mem[raw + SERIAL_NUMBER]).0)
  {
    hide Encode, EncodeTable, BytesAt, Answer, Reached;
    AtStructure(mem, raw, table, k);
    FieldsAt(mem, raw, table[k]);
    StopsWithin(table, start, length, k);
  }

  // A structure of another type: the skip moves on, or it does not.
  lemma ScanOn(mem: seq<Byte>, start: nat, table: seq<Structure>, length: nat, raw: nat, index: nat, k: nat, stuck: bool)
    requires Scanning(mem, start, table, length, raw, index, k, stuck) && ReachesFar(table, length)
    requires k < |table| && table[k].formatted[0] != SYSTEM_INFORMATION
    ensures var next := Answer(table[k], raw, SKIP_ALL).1;
      if |table[k].strings| >= SKIP_ALL then
        next == raw < start + length && Scanning(mem, start, table, length, raw, index + 1, k, true)
      else if next >= start + length then Described(table[..Reached(table, length)], start) == Unset
      else Scanning(mem, start, table, length, next, index + 1, k + 1, false)
  {
    SkipAnswer(table[k], raw);
    hide Encode, EncodeTable, BytesAt, Answer, Reached, Described, FirstStop;
    if |table[k].strings| < SKIP_ALL {
      AtStructure(mem, raw, table, k);
      TableSnoc(table, k);
      if |EncodeTable(table[..k + 1])| >= length {
        NothingMore(table, start, length, k);
      } else {
        MoreLeft(table, length, k + 1);
      }
    }
  }

  lemma NothingMore(table: seq<Structure>, start: nat, length: nat, k: nat)
    requires k < |table| && |EncodeTable(table[..k])| < length <= |EncodeTable(table[..k + 1])|
    requires forall i :: 0 <= i <= k ==> !Stops(table[i])
    ensures Described(table[..Reached(table, length)], start) == Unset
  {
    hide Stops, Encode, EncodeTable, Reached;
    ReachedIff(table, length, k);
    if k + 1 < |table| { ReachedIff(table, length, k + 1); }
    FirstStopIs(table[..Reached(table, length)], k + 1);
  }

  lemma MoreLeft(table: seq<Structure>, length: nat, k: nat)
    requires k <= |table| && ReachesFar(table, length) && |EncodeTable(table[..k])| < length
    requires forall i :: 0 <= i < k ==> !Stops(table[i])
    ensures k < |table|
  {
    hide Encode, EncodeTable, Stops;
    assert table[..|table|] == table;
  }

  lemma ScanEnds(mem: seq<Byte>, start: nat, table: seq<Structure>, length: nat, raw: nat, index: nat, k: nat, stuck: bool)
    requires Scanning(mem, start, table, length, raw, index, k, stuck) && index >= length
    ensures Described(table[..Reached(table, length)], start) == Unset
  {
    hide Encode, EncodeTable, BytesAt, Answer, Reached;
    ManyBytes(table, k);
    StopsWithin(table, start, length, k);
  }

  // The scan goes by the stated length, whatever the structures themselves add up to: those that
  // start within it are looked at.
  method LibGetSmbiosSystemGuidAndSerialNumber(mem: seq<Byte>, tableAddress: nat, tableLength: nat,
                                               ghost table: seq<Structure>)
    returns (info: SystemInformation)
    requires BytesAt(mem, tableAddress, EncodeTable(table)) && tableLength <= 0xffff && ReachesFar(table, tableLength)
    ensures info == Described(table[..Reached(table, tableLength)], tableAddress)
  {
    hide Answer, Described, FirstStop, Scanning, Reached, ReachesFar, Encode, EncodeTable, BytesAt, Stops, Sticks;
    var smbios := new StructurePointer(tableAddress);
    var end := tableAddress + tableLength;
    var index: nat := 0;
    ghost var k: nat, stuck := 0, false;
    if tableLength > 0 {
      StartScan(mem, tableAddress, table, tableLength);
    }
    while index < tableLength
      invariant tableLength > 0 ==> Scanning(mem, tableAddress, table, tableLength, smbios.raw, index, k, stuck)
    {
      ScanRead(mem, tableAddress, table, tableLength, smbios.raw, index, k, stuck);
      if mem[smbios.raw] == SYSTEM_INFORMATION {
        if mem[smbios.raw + 1] < SYSTEM_INFORMATION_LENGTH {
          stuck := true;
          index := index + 1;
          continue;
        }
        ScanFound(mem, tableAddress, table, tableLength, smbios.raw, index, k, stuck);
        var guid := mem[smbios.raw + UUID..smbios.raw + UUID + 16];
        var serialNumber := LibGetSmbiosString(mem, smbios, mem[smbios.raw + SERIAL_NUMBER], table[k]);
        return Found(guid, serialNumber);
      }
      ScanOn(mem, tableAddress, table, tableLength, smbios.raw, index, k, stuck);
      var next := LibGetSmbiosString(mem, smbios, SKIP_ALL, table[k]);
      if smbios.raw >= end {
        return Unset;
      }
      k, stuck := if |table[k].strings| >= SKIP_ALL then k else k + 1, |table[k].strings| >= SKIP_ALL;
      index := index + 1;
    }
    if tableLength > 0 {
      ScanEnds(mem, tableAddress, table, tableLength, smbios.raw, index, k, stuck);
    } else {
      NothingStated(table, tableAddress);
    }
    return Unset;
  }

  // Where the stated length is that of the structures, all of them are looked at.
  lemma {:induction false} AllReached(table: seq<Structure>)
    ensures Reached(table, |EncodeTable(table)|) == |table|
    decreases |table|
  {
    hide Encode;
    if table != [] {
      SomeBytes(table[0]);
      AllReached(table[1..]);
    }
  }
}
