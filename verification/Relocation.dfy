// Self-relocation of the loaded image: the two ports differ in the type code of a relative entry
// and in where the addend is kept (R_X86_64_RELATIVE, section 4.4.1 of the System V ABI AMD64
// supplement, and its AArch64 counterpart).
module Relocation {
  import opened Bytes

  const WORD64: nat := 0x1_0000_0000_0000_0000
  const HALF64: nat := 0x8000_0000_0000_0000

  const DT_RELA := 7
  const DT_RELASZ := 8
  const DT_RELAENT := 9

  datatype Machine = X86_64 | AArch64 {
    function RelativeType(): nat { if X86_64? then 8 else 1027 }
    // Elf64_Rel has no addend; Elf64_Rela does.
    function EntrySize(): nat { if X86_64? then 16 else 24 }
  }

  datatype Dyn = Dyn(tag: int, val: nat)

  datatype EfiStatus = Success | LoadError

  // ---- words in memory ----

  function Load(mem: seq<Byte>, a: nat): nat
    requires a + 8 <= |mem|
  {
    Le(mem[a..a + 8])
  }

  function Store(mem: seq<Byte>, a: nat, v: nat): (r: seq<Byte>)
    requires a + 8 <= |mem|
    ensures |r| == |mem| && forall i :: 0 <= i < |mem| && !(a <= i < a + 8) ==> r[i] == mem[i]
  {
    mem[..a] + ToLe(v, 8) + mem[a + 8..]
  }

  lemma StoredIsLoaded(mem: seq<Byte>, a: nat, v: nat)
    requires a + 8 <= |mem| && v < WORD64
    ensures Load(Store(mem, a, v), a) == v
  {
    hide Le, ToLe;
    assert Power256(8) == WORD64 by { EightBytes(); }
    LeOfToLe(v, 8);
    assert Store(mem, a, v)[a..a + 8] == ToLe(v, 8);
  }

  lemma EightBytes()
    ensures Power256(8) == WORD64
  {
    assert Power256(4) == 0x1_0000_0000;
    assert Power256(8) == 256 * Power256(7) == 256 * 256 * Power256(6) == 256 * 256 * 256 * Power256(5)
        == 256 * 256 * 256 * 256 * Power256(4);
  }

  // ---- relocation entries ----

  datatype Entry = Entry(offset: nat, relative: bool, addend: nat)

  function EntryAt(machine: Machine, mem: seq<Byte>, a: nat): Entry
    requires a + machine.EntrySize() <= |mem|
  {
    Entry(Load(mem, a), Load(mem, a + 8) % 0x1_0000_0000 == machine.RelativeType(),
          if machine.X86_64? then 0 else Load(mem, a + 16))
  }

  // The bytes n entries take up.
  function Span(n: nat, entrySize: nat): nat { n * entrySize }

  // n entries, `entrySize` bytes apart.
  function Entries(machine: Machine, mem: seq<Byte>, a: nat, entrySize: nat, n: nat): (es: seq<Entry>)
    requires machine.EntrySize() <= entrySize && a + Span(n, entrySize) <= |mem|
    ensures |es| == n
    decreases n
  {
    if n == 0 then []
    else
      EntryFits(a, entrySize, n, |mem|);
      [EntryAt(machine, mem, a)] + Entries(machine, mem, a + entrySize, entrySize, n - 1)
  }

  lemma EntryFits(a: nat, entrySize: nat, n: nat, size: nat)
    requires n > 0 && a + Span(n, entrySize) <= size
    ensures a + entrySize <= size && a + entrySize + Span(n - 1, entrySize) <= size
  {
    assert Span(n, entrySize) == entrySize + Span(n - 1, entrySize);
  }

  // Addresses are computed modulo 2^64; the load base may stand for a negative number.
  function Target(base: nat, e: Entry): nat { (base + e.offset) % WORD64 }

  predicate Targetable(size: nat, base: nat, e: Entry) {
    e.relative ==> Target(base, e) + 8 <= size
  }

  function NewWord(machine: Machine, mem: seq<Byte>, base: nat, e: Entry): nat
    requires e.relative && Targetable(|mem|, base, e)
  {
    (base + if machine.X86_64? then Load(mem, Target(base, e)) else e.addend) % WORD64
  }

  function Apply(machine: Machine, mem: seq<Byte>, base: nat, e: Entry): (r: seq<Byte>)
    requires Targetable(|mem|, base, e)
    ensures |r| == |mem|
  {
    if e.relative then Store(mem, Target(base, e), NewWord(machine, mem, base, e)) else mem
  }

  function ApplyAll(machine: Machine, mem: seq<Byte>, base: nat, es: seq<Entry>): (r: seq<Byte>)
    requires forall i :: 0 <= i < |es| ==> Targetable(|mem|, base, es[i])
    ensures |r| == |mem|
    decreases |es|
  {
    if es == [] then mem else ApplyAll(machine, Apply(machine, mem, base, es[0]), base, es[1..])
  }

  ghost predicate Apart(base: nat, e: Entry, start: nat, length: nat) {
    e.relative ==> Target(base, e) + 8 <= start || start + length <= Target(base, e)
  }

  ghost predicate DisjointTargets(base: nat, es: seq<Entry>) {
    forall i, j :: 0 <= i < j < |es| && es[j].relative ==> Apart(base, es[i], Target(base, es[j]), 8)
  }

  // ---- the code ----

  // The scan of the dynamic table; of repeated tags the last counts.
  function Find(dyn: seq<Dyn>, tag: int): nat
    decreases |dyn|
  {
    if dyn == [] then 0
    else if dyn[|dyn| - 1].tag == tag then dyn[|dyn| - 1].val
    else Find(dyn[..|dyn| - 1], tag)
  }

  predicate Has(dyn: seq<Dyn>, tag: int) { exists i :: 0 <= i < |dyn| && dyn[i].tag == tag }

  function Signed(v: nat): int { if v % WORD64 < HALF64 then v % WORD64 else v % WORD64 - WORD64 }

  method ScanDynamic(ldbase: nat, dyn: seq<Dyn>) returns (rel: nat, relsz: int, relent: int)
    ensures rel == if Has(dyn, DT_RELA) then (Find(dyn, DT_RELA) + ldbase) % WORD64 else 0
    ensures relsz == Signed(Find(dyn, DT_RELASZ)) && relent == Signed(Find(dyn, DT_RELAENT))
  {
    rel, relsz, relent := 0, 0, 0;
    var i := 0;
    while i < |dyn|
      invariant 0 <= i <= |dyn|
      invariant rel == if Has(dyn[..i], DT_RELA) then (Find(dyn[..i], DT_RELA) + ldbase) % WORD64 else 0
      invariant relsz == Signed(Find(dyn[..i], DT_RELASZ)) && relent == Signed(Find(dyn[..i], DT_RELAENT))
    {
      ScanStep(dyn, i);
      match dyn[i].tag {
        case 7 => rel := (dyn[i].val + ldbase) % WORD64;
        case 8 => relsz := Signed(dyn[i].val);
        case 9 => relent := Signed(dyn[i].val);
        case _ =>
      }
      i := i + 1;
    }
    assert dyn[..i] == dyn;
  }

  lemma ScanStep(dyn: seq<Dyn>, i: nat)
    requires i < |dyn|
    ensures forall tag :: Find(dyn[..i + 1], tag) == if dyn[i].tag == tag then dyn[i].val else Find(dyn[..i], tag)
    ensures forall tag :: Has(dyn[..i + 1], tag) <==> dyn[i].tag == tag || Has(dyn[..i], tag)
  {
    var q := dyn[..i + 1];
    assert q[..i] == dyn[..i] && q[i] == dyn[i];
    forall tag ensures Find(q, tag) == if dyn[i].tag == tag then dyn[i].val else Find(dyn[..i], tag) {
      assert q[..|q| - 1] == dyn[..i];
    }
    forall tag ensures Has(q, tag) <==> dyn[i].tag == tag || Has(dyn[..i], tag) {
      if k :| 0 <= k < |q| && q[k].tag == tag { assert k < i ==> dyn[..i][k].tag == tag; }
      if k :| 0 <= k < i && dyn[..i][k].tag == tag { assert q[k].tag == tag; }
    }
  }

  // The loop, run on whatever it finds: every entry it reads lies in memory, and so does every word
  // it changes. The table itself may be changed on the way.
  ghost predicate CanRun(machine: Machine, mem: seq<Byte>, base: nat, rel: nat, relsz: int, relent: int)
    decreases relsz
  {
    relsz > 0 ==>
      && relent > 0 && rel + machine.EntrySize() <= |mem| && Targetable(|mem|, base, EntryAt(machine, mem, rel))
      && CanRun(machine, Apply(machine, mem, base, EntryAt(machine, mem, rel)), base,
                (rel + relent) % WORD64, relsz - relent, relent)
  }

  ghost function Run(machine: Machine, mem: seq<Byte>, base: nat, rel: nat, relsz: int, relent: int): (r: seq<Byte>)
    requires CanRun(machine, mem, base, rel, relsz, relent)
    ensures |r| == |mem|
    decreases relsz
  {
    if relsz <= 0 then mem
    else
      Run(machine, Apply(machine, mem, base, EntryAt(machine, mem, rel)), base,
          (rel + relent) % WORD64, relsz - relent, relent)
  }

  // What the dynamic table says of the relocation table.
  datatype Table = Table(rel: nat, relsz: int, relent: int)

  function TableOf(ldbase: nat, dyn: seq<Dyn>): Table {
    Table(if Has(dyn, DT_RELA) then (Find(dyn, DT_RELA) + ldbase) % WORD64 else 0,
          Signed(Find(dyn, DT_RELASZ)), Signed(Find(dyn, DT_RELAENT)))
  }

  ghost predicate Relocatable(machine: Machine, mem: seq<Byte>, ldbase: nat, dyn: seq<Dyn>) {
    var t := TableOf(ldbase, dyn);
    t.rel != 0 && t.relent != 0 ==> CanRun(machine, mem, ldbase, t.rel, t.relsz, t.relent)
  }

  // Memory after relocation.
  ghost function Relocated(machine: Machine, mem: seq<Byte>, ldbase: nat, dyn: seq<Dyn>): seq<Byte>
    requires Relocatable(machine, mem, ldbase, dyn)
  {
    var t := TableOf(ldbase, dyn);
    if t.rel == 0 || t.relent == 0 then mem else Run(machine, mem, ldbase, t.rel, t.relsz, t.relent)
  }

  lemma RelocatedMeans(machine: Machine, mem: seq<Byte>, ldbase: nat, dyn: seq<Dyn>)
    requires Relocatable(machine, mem, ldbase, dyn)
    ensures var t := TableOf(ldbase, dyn);
      if t.rel == 0 || t.relent == 0 then Relocated(machine, mem, ldbase, dyn) == mem
      else
        && CanRun(machine, mem, ldbase, t.rel, t.relsz, t.relent)
        && Relocated(machine, mem, ldbase, dyn) == Run(machine, mem, ldbase, t.rel, t.relsz, t.relent)
    ensures TableOf(ldbase, dyn) == Table(if Has(dyn, DT_RELA) then (Find(dyn, DT_RELA) + ldbase) % WORD64 else 0,
                                          Signed(Find(dyn, DT_RELASZ)), Signed(Find(dyn, DT_RELAENT)))
  {
    hide Has, Find, Signed, CanRun, Run;
  }

  // `ldbase` is the load base as an unsigned number. Where the table is not changed on the way, all
  // its n entries are applied as they stood at the start.
  method Relocate(machine: Machine, mem: array<Byte>, ldbase: nat, dyn: seq<Dyn>, ghost n: nat)
    returns (status: EfiStatus)
    requires Relocatable(machine, mem[..], ldbase, dyn)
    modifies mem
    ensures status == LoadError <==> (TableOf(ldbase, dyn).rel == 0) != (TableOf(ldbase, dyn).relent == 0)
    ensures mem[..] == Relocated(machine, old(mem[..]), ldbase, dyn)
    ensures Tabled(machine, old(mem[..]), ldbase, dyn, n) ==>
      mem[..] == ApplyAll(machine, old(mem[..]), ldbase, TableEntries(machine, old(mem[..]), ldbase, dyn, n))
  {
    ghost var start := mem[..];
    if Tabled(machine, start, ldbase, dyn, n) {
      RelocatedIsAllEntries(machine, start, ldbase, dyn, n);
    }
    RelocatedMeans(machine, start, ldbase, dyn);
    hide *;
    var rel, relsz, relent := ScanDynamic(ldbase, dyn);
    if rel == 0 && relent == 0 {
      return Success;
    }
    if rel == 0 || relent == 0 {
      return LoadError;
    }
    RelocateAll(machine, mem, ldbase, rel, relsz, relent);
    status := Success;
  }

  method Store64(mem: array<Byte>, a: nat, v: nat)
    requires a + 8 <= mem.Length
    modifies mem
    ensures mem[..] == Store(old(mem[..]), a, v)
  {
    var w := ToLe(v, 8);
    ghost var before := mem[..];
    forall i | 0 <= i < 8 {
      mem[a + i] := w[i];
    }
    assert mem[..] == before[..a] + w + before[a + 8..];
  }

  // What applying the entry at rel means.
  lemma OneEntry(machine: Machine, mem: seq<Byte>, base: nat, rel: nat)
    requires rel + machine.EntrySize() <= |mem| && Targetable(|mem|, base, EntryAt(machine, mem, rel))
    ensures rel + 16 <= |mem| && (machine == AArch64 ==> rel + 24 <= |mem|)
    ensures var at := (base + Load(mem, rel)) % WORD64; var after := Apply(machine, mem, base, EntryAt(machine, mem, rel));
      if Load(mem, rel + 8) % 0x1_0000_0000 != machine.RelativeType() then after == mem
      else
        && at + 8 <= |mem|
        && after == Store(mem, at, if machine == X86_64 then (Load(mem, at) + base) % WORD64
                                   else (base + Load(mem, rel + 16)) % WORD64)
  {
    hide Load, Store;
  }

  // The body of the relocation loop, for the entry at rel.
  method RelocateOne(machine: Machine, mem: array<Byte>, ldbase: nat, rel: nat, ghost e: Entry)
    requires rel + machine.EntrySize() <= mem.Length && e == EntryAt(machine, mem[..], rel)
    requires Targetable(mem.Length, ldbase, e)
    modifies mem
    ensures mem[..] == Apply(machine, old(mem[..]), ldbase, e)
  {
    hide Load, Store, Apply, EntryAt, Targetable, Target, NewWord, Machine.EntrySize, Machine.RelativeType;
    OneEntry(machine, mem[..], ldbase, rel);
    if Load(mem[..], rel + 8) % 0x1_0000_0000 == machine.RelativeType() {
      var addr := (ldbase + Load(mem[..], rel)) % WORD64;
      if machine.X86_64? {
        Store64(mem, addr, (Load(mem[..], addr) + ldbase) % WORD64);
      } else {
        Store64(mem, addr, (ldbase + Load(mem[..], rel + 16)) % WORD64);
      }
    }
  }

  // The relocation loop.
  method RelocateAll(machine: Machine, mem: array<Byte>, ldbase: nat, table: nat, size: int, relent: int)
    requires CanRun(machine, mem[..], ldbase, table, size, relent)
    modifies mem
    ensures mem[..] == Run(machine, old(mem[..]), ldbase, table, size, relent)
  {
    hide EntryAt, Apply, Machine.EntrySize, Targetable;
    var rel: nat, relsz: int := table, size;
    while relsz > 0
      invariant CanRun(machine, mem[..], ldbase, rel, relsz, relent)
      invariant Run(machine, mem[..], ldbase, rel, relsz, relent) == Run(machine, old(mem[..]), ldbase, table, size, relent)
      decreases relsz
    {
      RelocateOne(machine, mem, ldbase, rel, EntryAt(machine, mem[..], rel));
      rel := (rel + relent) % WORD64;
      relsz := relsz - relent;
    }
  }

  // ---- tables that are not changed on the way ----

  // A table of n entries within memory, with every target within memory and clear of the table.
  ghost predicate Runnable(machine: Machine, mem: seq<Byte>, base: nat, rel: nat, entrySize: nat, n: nat) {
    && machine.EntrySize() <= entrySize && rel + Span(n, entrySize) <= |mem|
    && var es := Entries(machine, mem, rel, entrySize, n);
       forall i :: 0 <= i < n ==> Targetable(|mem|, base, es[i]) && Apart(base, es[i], rel, Span(n, entrySize))
  }

  lemma ApplyElsewhere(machine: Machine, mem: seq<Byte>, base: nat, e: Entry, start: nat, length: nat)
    requires Targetable(|mem|, base, e) && Apart(base, e, start, length) && start + length <= |mem|
    ensures forall a :: start <= a < start + length ==> Apply(machine, mem, base, e)[a] == mem[a]
  {}

  // k entries of the table have been applied to memory, and the table is still intact.
  ghost predicate Underway(machine: Machine, start: seq<Byte>, now: seq<Byte>, base: nat, rel: nat,
                           entrySize: nat, n: nat, k: nat)
    requires Runnable(machine, start, base, rel, entrySize, n) && k <= n
  {
    var es := Entries(machine, start, rel, entrySize, n);
    && |now| == |start| && (forall a :: rel <= a < rel + Span(n, entrySize) ==> now[a] == start[a])
    && ApplyAll(machine, start, base, es) == ApplyAll(machine, now, base, es[k..])
  }

  lemma OneMoreUnderway(machine: Machine, start: seq<Byte>, now: seq<Byte>, base: nat, rel: nat,
                        entrySize: nat, n: nat, k: nat)
    requires Runnable(machine, start, base, rel, entrySize, n) && k < n
    requires Underway(machine, start, now, base, rel, entrySize, n, k)
    ensures rel + Span(k, entrySize) + machine.EntrySize() <= |now| == |start|
    ensures var e := EntryAt(machine, now, rel + Span(k, entrySize));
      Targetable(|now|, base, e) && Underway(machine, start, Apply(machine, now, base, e), base, rel, entrySize, n, k + 1)
  {
    hide EntryAt, Entries, Apply, Machine.EntrySize, Span, Targetable, Apart;
    var es := Entries(machine, start, rel, entrySize, n);
    EntryFromTable(machine, start, now, rel, entrySize, n, k);
    ApplyElsewhere(machine, now, base, es[k], rel, Span(n, entrySize));
    OneApplied(machine, now, base, es, k);
  }

  lemma UnderwayEnds(machine: Machine, start: seq<Byte>, now: seq<Byte>, base: nat, rel: nat, entrySize: nat, n: nat)
    requires Runnable(machine, start, base, rel, entrySize, n)
    ensures Underway(machine, start, start, base, rel, entrySize, n, 0)
    ensures Underway(machine, start, now, base, rel, entrySize, n, n) ==>
      now == ApplyAll(machine, start, base, Entries(machine, start, rel, entrySize, n))
  {
    var es := Entries(machine, start, rel, entrySize, n);
    assert es[0..] == es && es[n..] == [];
  }

  // The loop visits n entries: the last one may be cut short by the size.
  predicate Visits(relsz: int, relent: nat, n: nat) {
    relsz <= Span(n, relent) && (n > 0 ==> relsz > Span(n - 1, relent))
  }

  // On such a table the loop applies the entries, as they stood at the start, one after the other.
  lemma RunAppliesAll(machine: Machine, mem: seq<Byte>, base: nat, rel: nat, relsz: int, relent: nat, n: nat)
    requires |mem| <= WORD64 && Runnable(machine, mem, base, rel, relent, n) && Visits(relsz, relent, n)
    ensures CanRun(machine, mem, base, rel, relsz, relent)
    ensures Run(machine, mem, base, rel, relsz, relent) == ApplyAll(machine, mem, base, Entries(machine, mem, rel, relent, n))
  {
    hide *;
    if n == 0 {
      EmptyTable(machine, mem, base, rel, relsz, relent);
    } else {
      RunStarts(machine, mem, base, rel, relent, n);
      RunTheRest(machine, mem, mem, base, rel, relsz, relent, n, 0);
    }
  }

  lemma EmptyTable(machine: Machine, mem: seq<Byte>, base: nat, rel: nat, relsz: int, relent: nat)
    requires Runnable(machine, mem, base, rel, relent, 0) && Visits(relsz, relent, 0)
    ensures CanRun(machine, mem, base, rel, relsz, relent) && Run(machine, mem, base, rel, relsz, relent) == mem
    ensures ApplyAll(machine, mem, base, Entries(machine, mem, rel, relent, 0)) == mem
  {}

  lemma RunStarts(machine: Machine, mem: seq<Byte>, base: nat, rel: nat, relent: nat, n: nat)
    requires |mem| <= WORD64 && Runnable(machine, mem, base, rel, relent, n) && n > 0
    ensures relent > 0 && Span(0, relent) == 0 && (rel + Span(0, relent)) % WORD64 == rel
    ensures Underway(machine, mem, mem, base, rel, relent, n, 0)
  {
    EntrySizePositive(machine);
    assert relent > 0;
    MoreToDo(n, relent);
    UnderwayEnds(machine, mem, mem, base, rel, relent, n);
    assert rel + Span(n, relent) <= |mem|;
    hide Runnable, Underway, Span;
    NextAddress(rel, relent);
  }

  lemma {:induction false} RunTheRest(machine: Machine, start: seq<Byte>, now: seq<Byte>, base: nat, rel: nat,
                                      relsz: int, relent: nat, n: nat, k: nat)
    requires |start| <= WORD64 && relent > 0 && Runnable(machine, start, base, rel, relent, n) && k <= n
    requires Visits(relsz, relent, n) && Underway(machine, start, now, base, rel, relent, n, k)
    ensures var at := (rel + Span(k, relent)) % WORD64; var left := relsz - Span(k, relent);
      && CanRun(machine, now, base, at, left, relent)
      && Run(machine, now, base, at, left, relent) == ApplyAll(machine, start, base, Entries(machine, start, rel, relent, n))
    decreases n - k
  {
    EntrySizePositive(machine);
    hide Entries, ApplyAll, Machine.EntrySize, EntryAt, Apply, Targetable, Runnable, Underway;
    MoreToDo(n - k, relent);
    if k == n {
      UnderwayEnds(machine, start, now, base, rel, relent, n);
    } else {
      SpanOrder(k, n, relent);
      OneMoreUnderway(machine, start, now, base, rel, relent, n, k);
      var e := EntryAt(machine, now, rel + Span(k, relent));
      RunTheRest(machine, start, Apply(machine, now, base, e), base, rel, relsz, relent, n, k + 1);
      hide Span, Visits;
      NextAddress(rel + Span(k, relent), relent);
    }
  }

  lemma NextAddress(a: nat, relent: nat)
    ensures (a % WORD64 + relent) % WORD64 == (a + relent) % WORD64
    ensures a < WORD64 ==> a % WORD64 == a
  {}

  lemma {:induction false} SpanGrows(k: nat, n: nat, relent: nat)
    requires k <= n
    ensures Span(k, relent) <= Span(n, relent)
    decreases n - k
  {
    if k < n {
      assert (k + 1) * relent == k * relent + relent;
      SpanGrows(k + 1, n, relent);
    }
  }

  lemma SpanOrder(k: nat, n: nat, relent: nat)
    requires k < n && relent > 0
    ensures Span(k + 1, relent) == Span(k, relent) + relent
    ensures Span(k, relent) <= Span(n - 1, relent)
  {
    assert (k + 1) * relent == k * relent + relent;
    SpanGrows(k, n - 1, relent);
  }

  lemma OneApplied(machine: Machine, mem: seq<Byte>, base: nat, es: seq<Entry>, k: nat)
    requires k < |es| && forall i :: 0 <= i < |es| ==> Targetable(|mem|, base, es[i])
    ensures ApplyAll(machine, mem, base, es[k..])
         == ApplyAll(machine, Apply(machine, mem, base, es[k]), base, es[k + 1..])
  {
    hide Apply, Targetable;
    assert es[k..][1..] == es[k + 1..];
  }

  lemma MoreToDo(m: nat, relent: nat)
    requires relent > 0
    ensures Span(m, relent) > 0 <==> m > 0
    ensures Span(0, relent) == 0
  {}

  lemma SpanStep(k: nat, n: nat, entrySize: nat)
    requires k < n && entrySize > 0
    ensures Span(0, entrySize) == 0
    ensures Span(k + 1, entrySize) == Span(k, entrySize) + entrySize <= Span(n, entrySize)
    ensures Span(n - k, entrySize) == entrySize + Span(n - (k + 1), entrySize) > 0
  {
    assert Span(n, entrySize) == k * entrySize + entrySize + (n - k - 1) * entrySize;
  }

  lemma {:induction false} EntriesAt(machine: Machine, mem: seq<Byte>, a: nat, entrySize: nat, n: nat, k: nat)
    requires machine.EntrySize() <= entrySize && a + Span(n, entrySize) <= |mem| && k < n
    ensures a + Span(k, entrySize) + entrySize <= a + Span(n, entrySize)
    ensures Entries(machine, mem, a, entrySize, n)[k] == EntryAt(machine, mem, a + Span(k, entrySize))
    decreases k
  {
    EntrySizePositive(machine);
    hide EntryAt, Span;
    EntryFits(a, entrySize, n, |mem|);
    SpanStep(k, n, entrySize);
    if k > 0 {
      SpanStep(k - 1, n, entrySize);
      EntriesAt(machine, mem, a + entrySize, entrySize, n - 1, k - 1);
    }
  }

  lemma EntrySizePositive(machine: Machine)
    ensures machine.EntrySize() > 0
  {}

  lemma SameEntry(machine: Machine, mem: seq<Byte>, now: seq<Byte>, a: nat)
    requires |mem| == |now| && a + machine.EntrySize() <= |mem|
    requires forall i :: a <= i < a + machine.EntrySize() ==> mem[i] == now[i]
    ensures EntryAt(machine, mem, a) == EntryAt(machine, now, a)
  {
    hide Le;
    assert mem[a..a + 8] == now[a..a + 8];
    assert mem[a + 8..a + 16] == now[a + 8..a + 16];
    if machine.AArch64? { assert mem[a + 16..a + 24] == now[a + 16..a + 24]; }
  }

  // Entry k is read from the table as it was at the start.
  lemma EntryFromTable(machine: Machine, mem: seq<Byte>, now: seq<Byte>, rel: nat, entrySize: nat, n: nat, k: nat)
    requires machine.EntrySize() <= entrySize && rel + Span(n, entrySize) <= |mem| == |now| && k < n
    requires forall i :: rel <= i < rel + Span(n, entrySize) ==> mem[i] == now[i]
    ensures rel + Span(k, entrySize) + entrySize <= rel + Span(n, entrySize)
    ensures EntryAt(machine, now, rel + Span(k, entrySize)) == Entries(machine, mem, rel, entrySize, n)[k]
  {
    hide EntryAt, Entries;
    EntriesAt(machine, mem, rel, entrySize, n, k);
    SameEntry(machine, mem, now, rel + Span(k, entrySize));
  }

  // ---- what relocation does to memory ----

  ghost predicate AllTargetable(size: nat, base: nat, es: seq<Entry>) {
    forall i :: 0 <= i < |es| ==> Targetable(size, base, es[i])
  }

  // A place that no target covers keeps its byte.
  lemma {:induction false} UntargetedUnchanged(machine: Machine, mem: seq<Byte>, base: nat, es: seq<Entry>,
                                               start: nat, length: nat)
    requires AllTargetable(|mem|, base, es) && start + length <= |mem|
    requires forall i :: 0 <= i < |es| ==> Apart(base, es[i], start, length)
    ensures forall a :: start <= a < start + length ==> ApplyAll(machine, mem, base, es)[a] == mem[a]
    decreases |es|
  {
    if es != [] {
      ApplyElsewhere(machine, mem, base, es[0], start, length);
      hide Apply, Apart, Targetable;
      UntargetedUnchanged(machine, Apply(machine, mem, base, es[0]), base, es[1..], start, length);
    }
  }

  lemma SameBytesSameWord(m: seq<Byte>, n: seq<Byte>, a: nat)
    requires |m| == |n| && a + 8 <= |m| && forall i :: a <= i < a + 8 ==> m[i] == n[i]
    ensures Load(m, a) == Load(n, a)
  {
    assert m[a..a + 8] == n[a..a + 8];
  }

  lemma TargetHoldsNewWord(machine: Machine, mem: seq<Byte>, base: nat, e: Entry)
    requires e.relative && Targetable(|mem|, base, e)
    ensures Load(Apply(machine, mem, base, e), Target(base, e)) == NewWord(machine, mem, base, e)
  {
    StoredIsLoaded(mem, Target(base, e), NewWord(machine, mem, base, e));
  }

  lemma OtherWordKept(machine: Machine, mem: seq<Byte>, base: nat, e: Entry, t: nat)
    requires Targetable(|mem|, base, e) && t + 8 <= |mem| && Apart(base, e, t, 8)
    ensures Load(Apply(machine, mem, base, e), t) == Load(mem, t)
  {
    hide Load;
    ApplyElsewhere(machine, mem, base, e, t, 8);
    SameBytesSameWord(mem, Apply(machine, mem, base, e), t);
  }

  lemma OtherWordKeptByAll(machine: Machine, mem: seq<Byte>, base: nat, es: seq<Entry>, t: nat)
    requires AllTargetable(|mem|, base, es) && t + 8 <= |mem|
    requires forall i :: 0 <= i < |es| ==> Apart(base, es[i], t, 8)
    ensures Load(ApplyAll(machine, mem, base, es), t) == Load(mem, t)
  {
    hide Load, Apart, Targetable;
    UntargetedUnchanged(machine, mem, base, es, t, 8);
    SameBytesSameWord(mem, ApplyAll(machine, mem, base, es), t);
  }

  lemma TailDisjoint(base: nat, es: seq<Entry>)
    requires es != [] && DisjointTargets(base, es)
    ensures DisjointTargets(base, es[1..])
  {
    forall i, j | 0 <= i < j < |es| - 1 && es[1..][j].relative
      ensures Apart(base, es[1..][i], Target(base, es[1..][j]), 8)
    {
      assert Apart(base, es[i + 1], Target(base, es[j + 1]), 8);
    }
  }

  // The other targets are apart from a given one.
  lemma DisjointMeans(base: nat, es: seq<Entry>, k: nat)
    requires es != [] && DisjointTargets(base, es) && 0 < k < |es|
    ensures es[k].relative ==> Apart(base, es[0], Target(base, es[k]), 8)
    ensures es[0].relative ==> Apart(base, es[k], Target(base, es[0]), 8)
  {}

  lemma FirstTargetOnce(machine: Machine, mem: seq<Byte>, base: nat, es: seq<Entry>)
    requires AllTargetable(|mem|, base, es) && DisjointTargets(base, es) && es != [] && es[0].relative
    ensures Load(ApplyAll(machine, mem, base, es), Target(base, es[0])) == NewWord(machine, mem, base, es[0])
  {
    TailTargetable(|mem|, base, es, 0);
    FirstApart(base, es, 0);
    hide Load, Apply, Apart, DisjointTargets, Targetable, AllTargetable, NewWord;
    TargetHoldsNewWord(machine, mem, base, es[0]);
    OtherWordKeptByAll(machine, Apply(machine, mem, base, es[0]), base, es[1..], Target(base, es[0]));
  }

  lemma NewWordKept(machine: Machine, mem: seq<Byte>, base: nat, es: seq<Entry>, k: nat)
    requires AllTargetable(|mem|, base, es) && DisjointTargets(base, es) && 0 < k < |es| && es[k].relative
    ensures Targetable(|mem|, base, es[0])
    ensures NewWord(machine, Apply(machine, mem, base, es[0]), base, es[k]) == NewWord(machine, mem, base, es[k])
  {
    TailTargetable(|mem|, base, es, k);
    FirstApart(base, es, k);
    hide Load, Apply, Apart, DisjointTargets, Targetable, AllTargetable, NewWord;
    OtherWordKept(machine, mem, base, es[0], Target(base, es[k]));
    SameNewWord(machine, mem, Apply(machine, mem, base, es[0]), base, es[k]);
  }

  lemma {:induction false} EachHoldsNewWord(machine: Machine, mem: seq<Byte>, base: nat, es: seq<Entry>, k: nat)
    requires AllTargetable(|mem|, base, es) && DisjointTargets(base, es) && k < |es| && es[k].relative
    ensures Target(base, es[k]) + 8 <= |mem|
    ensures Load(ApplyAll(machine, mem, base, es), Target(base, es[k])) == NewWord(machine, mem, base, es[k])
    decreases k
  {
    TailTargetable(|mem|, base, es, k);
    TailDisjoint(base, es);
    hide Load, Apply, Apart, DisjointTargets, Targetable, AllTargetable, NewWord;
    if k == 0 {
      FirstTargetOnce(machine, mem, base, es);
    } else {
      NewWordKept(machine, mem, base, es, k);
      EachHoldsNewWord(machine, Apply(machine, mem, base, es[0]), base, es[1..], k - 1);
    }
  }

  // With disjoint targets each word is relocated exactly once: the load base is added to what it held
  // at the start, or to its addend.
  lemma EachTargetOnce(machine: Machine, mem: seq<Byte>, base: nat, es: seq<Entry>, k: nat)
    requires AllTargetable(|mem|, base, es) && DisjointTargets(base, es) && k < |es| && es[k].relative
    ensures var t := (base + es[k].offset) % 0x1_0000_0000_0000_0000;
      && t + 8 <= |mem|
      && Le(ApplyAll(machine, mem, base, es)[t..t + 8])
         == (base + if machine == X86_64 then Le(mem[t..t + 8]) else es[k].addend) % 0x1_0000_0000_0000_0000
  {
    hide *;
    EachHoldsNewWord(machine, mem, base, es, k);
    AllTargetableMeans(|mem|, base, es);
    NewWordMeans(machine, mem, ApplyAll(machine, mem, base, es), base, es[k]);
  }

  lemma AllTargetableMeans(size: nat, base: nat, es: seq<Entry>)
    requires AllTargetable(size, base, es)
    ensures forall i :: 0 <= i < |es| ==> Targetable(size, base, es[i])
  {}

  lemma NewWordMeans(machine: Machine, mem: seq<Byte>, after: seq<Byte>, base: nat, e: Entry)
    requires e.relative && Targetable(|mem|, base, e) && |after| == |mem|
    ensures var t := (base + e.offset) % 0x1_0000_0000_0000_0000;
      && Target(base, e) == t && t + 8 <= |mem| && Load(after, t) == Le(after[t..t + 8])
      && NewWord(machine, mem, base, e)
         == (base + if machine == X86_64 then Le(mem[t..t + 8]) else e.addend) % 0x1_0000_0000_0000_0000
  {
    hide Le;
  }

  lemma TailTargetable(size: nat, base: nat, es: seq<Entry>, k: nat)
    requires AllTargetable(size, base, es) && k < |es|
    ensures AllTargetable(size, base, es[1..]) && Targetable(size, base, es[0]) && Targetable(size, base, es[k])
    ensures es[k].relative ==> Target(base, es[k]) + 8 <= size
  {}

  lemma FirstApart(base: nat, es: seq<Entry>, k: nat)
    requires DisjointTargets(base, es) && k < |es| && es[k].relative
    ensures k > 0 ==> Apart(base, es[0], Target(base, es[k]), 8)
    ensures k == 0 ==> forall i :: 0 <= i < |es| - 1 ==> Apart(base, es[1..][i], Target(base, es[0]), 8)
  {
    forall i | k == 0 && 0 <= i < |es| - 1 ensures Apart(base, es[1..][i], Target(base, es[0]), 8) {
      DisjointMeans(base, es, i + 1);
    }
  }

  lemma SameNewWord(machine: Machine, mem: seq<Byte>, next: seq<Byte>, base: nat, e: Entry)
    requires e.relative && Targetable(|mem|, base, e) && |next| == |mem|
    requires Load(next, Target(base, e)) == Load(mem, Target(base, e))
    ensures NewWord(machine, next, base, e) == NewWord(machine, mem, base, e)
  {
    hide Load;
  }

  ghost predicate HoldsAddends(mem: seq<Byte>, base: nat, es: seq<Entry>)
    requires AllTargetable(|mem|, base, es)
  {
    forall i :: 0 <= i < |es| && es[i].relative ==> Load(mem, Target(base, es[i])) == es[i].addend
  }

  // ---- the two ports ----

  datatype Stretch = Stretch(start: nat, length: nat)

  predicate Within(t: Stretch, a: int) { t.start <= a < t.start + t.length }

  // The memories differ within the two stretches at most.
  ghost predicate SameOutside(m: seq<Byte>, n: seq<Byte>, t: Stretch, u: Stretch) {
    |m| == |n| && forall a :: 0 <= a < |m| && !Within(t, a) && !Within(u, a) ==> m[a] == n[a]
  }

  // The same entries up to their addends.
  ghost predicate SameTargets(xs: seq<Entry>, es: seq<Entry>) {
    |xs| == |es| && forall i :: 0 <= i < |xs| ==> xs[i].offset == es[i].offset && xs[i].relative == es[i].relative
  }

  ghost predicate AllApart(base: nat, es: seq<Entry>, t: Stretch) {
    forall i :: 0 <= i < |es| ==> Apart(base, es[i], t.start, t.length)
  }

  // Where every target already holds its addend, the x86_64 entries, which have none, and the
  // aarch64 entries leave the same memory outside the stretches that keep their tables.
  lemma {:induction false} PortsAgree(mx: seq<Byte>, ma: seq<Byte>, base: nat, xs: seq<Entry>, es: seq<Entry>,
                                      t: Stretch, u: Stretch)
    requires SameOutside(mx, ma, t, u) && SameTargets(xs, es) && AllApart(base, es, t) && AllApart(base, es, u)
    requires AllTargetable(|mx|, base, xs) && AllTargetable(|ma|, base, es)
    requires DisjointTargets(base, es) && HoldsAddends(ma, base, es)
    ensures SameOutside(ApplyAll(X86_64, mx, base, xs), ApplyAll(AArch64, ma, base, es), t, u)
    decreases |es|
  {
    if es != [] {
      FirstAgrees(mx, ma, base, xs[0], es[0], t, u);
      TailDisjoint(base, es);
      TailTargetable(|mx|, base, xs, 0);
      TailTargetable(|ma|, base, es, 0);
      TailHoldsAddends(ma, base, es);
      TailApart(base, es, t);
      TailApart(base, es, u);
      assert SameTargets(xs[1..], es[1..]);
      hide Load, Apply, Apart, AllApart, DisjointTargets, Targetable, AllTargetable, NewWord, HoldsAddends, SameOutside;
      hide SameTargets;
      PortsAgree(Apply(X86_64, mx, base, xs[0]), Apply(AArch64, ma, base, es[0]), base, xs[1..], es[1..], t, u);
    }
  }

  lemma TailApart(base: nat, es: seq<Entry>, t: Stretch)
    requires es != [] && AllApart(base, es, t)
    ensures AllApart(base, es[1..], t)
  {}

  lemma FirstAgrees(mx: seq<Byte>, ma: seq<Byte>, base: nat, x: Entry, e: Entry, t: Stretch, u: Stretch)
    requires SameOutside(mx, ma, t, u) && x.offset == e.offset && x.relative == e.relative
    requires Targetable(|ma|, base, e) && Apart(base, e, t.start, t.length) && Apart(base, e, u.start, u.length)
    requires e.relative ==> Load(ma, Target(base, e)) == e.addend
    ensures Targetable(|mx|, base, x)
    ensures SameOutside(Apply(X86_64, mx, base, x), Apply(AArch64, ma, base, e), t, u)
  {
    if e.relative {
      var at := Target(base, e);
      assert Target(base, x) == at;
      hide Load, Store, Target;
      SameBytesSameWord(mx, ma, at);
      StoredOutside(mx, ma, at, NewWord(AArch64, ma, base, e), t, u);
    }
  }

  lemma StoredOutside(m: seq<Byte>, n: seq<Byte>, a: nat, v: nat, t: Stretch, u: Stretch)
    requires SameOutside(m, n, t, u) && a + 8 <= |m|
    ensures SameOutside(Store(m, a, v), Store(n, a, v), t, u)
  {
    hide ToLe;
    var p, q := Store(m, a, v), Store(n, a, v);
    forall i | a <= i < a + 8 ensures p[i] == q[i] {
      assert p[i] == ToLe(v, 8)[i - a] == q[i];
    }
  }

  lemma TailHoldsAddends(mem: seq<Byte>, base: nat, es: seq<Entry>)
    requires es != [] && AllTargetable(|mem|, base, es) && DisjointTargets(base, es) && HoldsAddends(mem, base, es)
    ensures Targetable(|mem|, base, es[0]) && AllTargetable(|mem|, base, es[1..])
    ensures HoldsAddends(Apply(AArch64, mem, base, es[0]), base, es[1..])
  {
    var rest, next := es[1..], Apply(AArch64, mem, base, es[0]);
    hide Load, Apply, DisjointTargets;
    forall i | 0 <= i < |rest| && rest[i].relative ensures Load(next, Target(base, rest[i])) == rest[i].addend {
      assert rest[i] == es[i + 1] && Targetable(|mem|, base, es[i + 1]);
      DisjointMeans(base, es, i + 1);
      OtherWordKept(AArch64, mem, base, es[0], Target(base, rest[i]));
    }
  }

  // The image's relocation table as this port reads it: n entries, not changed on the way.
  ghost predicate Tabled(machine: Machine, mem: seq<Byte>, base: nat, dyn: seq<Dyn>, n: nat) {
    var t := TableOf(base, dyn);
    && t.rel != 0 && t.relent > 0 && |mem| <= WORD64
    && Runnable(machine, mem, base, t.rel, t.relent, n) && Visits(t.relsz, t.relent, n)
  }

  ghost function TableEntries(machine: Machine, mem: seq<Byte>, base: nat, dyn: seq<Dyn>, n: nat): (es: seq<Entry>)
    requires Tabled(machine, mem, base, dyn, n)
    ensures |es| == n
  {
    var t := TableOf(base, dyn);
    Entries(machine, mem, t.rel, t.relent, n)
  }

  ghost function TableStretch(base: nat, dyn: seq<Dyn>, n: nat): Stretch {
    var t := TableOf(base, dyn);
    Stretch(t.rel, Span(n, if t.relent > 0 then t.relent else 0))
  }

  lemma RelocatedIsAllEntries(machine: Machine, mem: seq<Byte>, base: nat, dyn: seq<Dyn>, n: nat)
    requires Tabled(machine, mem, base, dyn, n)
    ensures AllTargetable(|mem|, base, TableEntries(machine, mem, base, dyn, n))
    ensures AllApart(base, TableEntries(machine, mem, base, dyn, n), TableStretch(base, dyn, n))
    ensures Relocatable(machine, mem, base, dyn)
    ensures Relocated(machine, mem, base, dyn) == ApplyAll(machine, mem, base, TableEntries(machine, mem, base, dyn, n))
  {
    var t := TableOf(base, dyn);
    RunAppliesAll(machine, mem, base, t.rel, t.relsz, t.relent, n);
    hide Apart, Targetable, Entries, TableOf, CanRun, Run, ApplyAll;
  }

  // ---- the tables byte by byte ----

  // The low half of a word is its first four bytes.
  lemma LowHalf(w: seq<Byte>)
    requires |w| == 8
    ensures Le(w) % 0x1_0000_0000 == Le(w[..4])
  {
    LeOfEight(w);
    LeOfFour(w[..4]);
    LeOfFour(w[4..]);
    FourBytes(w[..4]);
    hide Le;
    Halves(Le(w), Le(w[4..]), Le(w[..4]));
  }

  lemma FourBytes(s: seq<Byte>)
    requires |s| == 4
    ensures Le(s) < 0x1_0000_0000
  {
    LeOfFour(s);
    hide Le;
  }

  lemma Halves(v: nat, high: nat, low: nat)
    requires v == low + 0x1_0000_0000 * high && low < 0x1_0000_0000
    ensures v % 0x1_0000_0000 == low
  {}

  // An entry: where to relocate, eight bytes; the type code, the first four bytes of the next eight; on
  // aarch64 the addend, eight bytes more.
  lemma EntryFields(machine: Machine, mem: seq<Byte>, a: nat)
    requires a + machine.EntrySize() <= |mem|
    ensures machine.EntrySize() == if machine == X86_64 then 16 else 24
    ensures EntryAt(machine, mem, a).offset == Le(mem[a..a + 8])
    ensures EntryAt(machine, mem, a).relative <==> Le(mem[a + 8..a + 12]) == if machine == X86_64 then 8 else 1027
    ensures machine == AArch64 ==> EntryAt(machine, mem, a).addend == Le(mem[a + 16..a + 24])
  {
    LowHalf(mem[a + 8..a + 16]);
    assert mem[a + 8..a + 16][..4] == mem[a + 8..a + 12];
    hide Le;
  }

  // Of the dynamic entries with a tag the last counts.
  lemma {:induction false} LastCounts(dyn: seq<Dyn>, tag: int, i: nat)
    requires i < |dyn| && dyn[i].tag == tag && forall j :: i < j < |dyn| ==> dyn[j].tag != tag
    ensures Find(dyn, tag) == dyn[i].val && Has(dyn, tag)
    decreases |dyn|
  {
    if i < |dyn| - 1 {
      LastCounts(dyn[..|dyn| - 1], tag, i);
    }
  }

  // Without an entry of a tag its number is 0.
  lemma {:induction false} NoneCounts(base: nat, dyn: seq<Dyn>)
    ensures (forall i :: 0 <= i < |dyn| ==> dyn[i].tag != 7) ==> TableOf(base, dyn).rel == 0
    ensures (forall i :: 0 <= i < |dyn| ==> dyn[i].tag != 8) ==> TableOf(base, dyn).relsz == 0
    ensures (forall i :: 0 <= i < |dyn| ==> dyn[i].tag != 9) ==> TableOf(base, dyn).relent == 0
    decreases |dyn|
  {
    if dyn != [] {
      NoneCounts(base, dyn[..|dyn| - 1]);
    }
  }

  // The last entries with tags 7, 8 and 9 say where the table is, how long it is and how far apart
  // its entries are; lengths are signed.
  lemma TableFields(base: nat, dyn: seq<Dyn>, i: nat, j: nat, k: nat)
    requires i < |dyn| && dyn[i].tag == 7 && forall m :: i < m < |dyn| ==> dyn[m].tag != 7
    requires j < |dyn| && dyn[j].tag == 8 && forall m :: j < m < |dyn| ==> dyn[m].tag != 8
    requires k < |dyn| && dyn[k].tag == 9 && forall m :: k < m < |dyn| ==> dyn[m].tag != 9
    requires dyn[j].val < 0x1_0000_0000_0000_0000 && dyn[k].val < 0x1_0000_0000_0000_0000
    ensures TableOf(base, dyn) == Table((dyn[i].val + base) % 0x1_0000_0000_0000_0000,
      if dyn[j].val < 0x8000_0000_0000_0000 then dyn[j].val else dyn[j].val - 0x1_0000_0000_0000_0000,
      if dyn[k].val < 0x8000_0000_0000_0000 then dyn[k].val else dyn[k].val - 0x1_0000_0000_0000_0000)
  {
    LastCounts(dyn, 7, i);
    LastCounts(dyn, 8, j);
    LastCounts(dyn, 9, k);
    hide Find, Has;
  }

  // The whole routine on an image whose table is clear of its disjoint targets: the word that entry k
  // names ends as the load base and what it held, or the load base and its addend.
  lemma RelocatedWord(machine: Machine, mem: seq<Byte>, base: nat, dyn: seq<Dyn>, n: nat, k: nat)
    requires Tabled(machine, mem, base, dyn, n) && k < n
    requires DisjointTargets(base, TableEntries(machine, mem, base, dyn, n))
    ensures var a := TableOf(base, dyn).rel + k * TableOf(base, dyn).relent;
      && 0 <= a && a + (if machine == X86_64 then 16 else 24) <= |mem|
      && (Le(mem[a + 8..a + 12]) == (if machine == X86_64 then 8 else 1027) ==>
            var t := (base + Le(mem[a..a + 8])) % 0x1_0000_0000_0000_0000;
            && t + 8 <= |mem|
            && Relocatable(machine, mem, base, dyn)
            && Le(Relocated(machine, mem, base, dyn)[t..t + 8])
               == (base + if machine == X86_64 then Le(mem[t..t + 8]) else Le(mem[a + 16..a + 24])) % 0x1_0000_0000_0000_0000)
  {
    hide *;
    EntryOfTable(machine, mem, base, dyn, n, k);
    EntryFields(machine, mem, TableOf(base, dyn).rel + k * TableOf(base, dyn).relent);
    RelocatedTarget(machine, mem, base, dyn, n, k);
  }

  lemma RelocatedTarget(machine: Machine, mem: seq<Byte>, base: nat, dyn: seq<Dyn>, n: nat, k: nat)
    requires Tabled(machine, mem, base, dyn, n) && k < n
    requires DisjointTargets(base, TableEntries(machine, mem, base, dyn, n))
    ensures var e := TableEntries(machine, mem, base, dyn, n)[k];
      e.relative ==>
        var t := (base + e.offset) % 0x1_0000_0000_0000_0000;
        && t + 8 <= |mem|
        && Relocatable(machine, mem, base, dyn)
        && Le(Relocated(machine, mem, base, dyn)[t..t + 8])
           == (base + if machine == X86_64 then Le(mem[t..t + 8]) else e.addend) % 0x1_0000_0000_0000_0000
  {
    hide *;
    RelocatedIsAllEntries(machine, mem, base, dyn, n);
    var es := TableEntries(machine, mem, base, dyn, n);
    if es[k].relative {
      EachTargetOnce(machine, mem, base, es, k);
    }
  }

  lemma EntryOfTable(machine: Machine, mem: seq<Byte>, base: nat, dyn: seq<Dyn>, n: nat, k: nat)
    requires Tabled(machine, mem, base, dyn, n) && k < n
    ensures var a := TableOf(base, dyn).rel + k * TableOf(base, dyn).relent;
      0 <= a && a + machine.EntrySize() <= |mem| && TableEntries(machine, mem, base, dyn, n)[k] == EntryAt(machine, mem, a)
  {
    var t := TableOf(base, dyn);
    EntriesAt(machine, mem, t.rel, t.relent, n, k);
    assert k * t.relent == Span(k, t.relent);
    hide Entries, TableOf, EntryAt;
  }

  // The same image for the two ports: its tables differ in type code, entry size, stride and place,
  // memory outside them is the same, and every target holds its addend. Both loops then leave the
  // same memory outside the tables.
  lemma ImagesRelocateAlike(mx: seq<Byte>, dx: seq<Dyn>, ma: seq<Byte>, da: seq<Dyn>, base: nat, n: nat)
    requires Tabled(X86_64, mx, base, dx, n) && Tabled(AArch64, ma, base, da, n)
    requires SameOutside(mx, ma, TableStretch(base, dx, n), TableStretch(base, da, n))
    requires SameTargets(TableEntries(X86_64, mx, base, dx, n), TableEntries(AArch64, ma, base, da, n))
    requires AllTargetable(|ma|, base, TableEntries(AArch64, ma, base, da, n))
    requires DisjointTargets(base, TableEntries(AArch64, ma, base, da, n))
    requires HoldsAddends(ma, base, TableEntries(AArch64, ma, base, da, n))
    ensures Relocatable(X86_64, mx, base, dx) && Relocatable(AArch64, ma, base, da)
    ensures SameOutside(Relocated(X86_64, mx, base, dx), Relocated(AArch64, ma, base, da),
                        TableStretch(base, dx, n), TableStretch(base, da, n))
  {
    RelocatedIsAllEntries(X86_64, mx, base, dx, n);
    RelocatedIsAllEntries(AArch64, ma, base, da, n);
    var xs, es := TableEntries(X86_64, mx, base, dx, n), TableEntries(AArch64, ma, base, da, n);
    hide TableEntries, TableStretch, Tabled, Relocatable, Relocated, ApplyAll, AllTargetable, DisjointTargets, HoldsAddends;
    hide SameOutside;
    SameApart(base, xs, es, TableStretch(base, dx, n));
    PortsAgree(mx, ma, base, xs, es, TableStretch(base, dx, n), TableStretch(base, da, n));
  }

  lemma SameApart(base: nat, xs: seq<Entry>, es: seq<Entry>, t: Stretch)
    requires SameTargets(xs, es) && AllApart(base, xs, t)
    ensures AllApart(base, es, t)
  {
    forall i | 0 <= i < |es| ensures Apart(base, es[i], t.start, t.length) {
      assert Apart(base, xs[i], t.start, t.length);
    }
  }
}
