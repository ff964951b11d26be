// The intrusive circular lists of efilink.h. Memory is what the macros see of it: two link
// words, Flink and Blink, at the address of each entry.
module LinkedList {

  type Address = nat

  datatype Links = Links(flink: map<Address, Address>, blink: map<Address, Address>)

  // The entry after place i, and the one before it, going round.
  function After(r: seq<Address>, i: nat): Address
    requires i < |r|
  {
    if i + 1 < |r| then r[i + 1] else r[0]
  }

  function Before(r: seq<Address>, i: nat): Address
    requires i < |r|
  {
    if i > 0 then r[i - 1] else r[|r| - 1]
  }

  ghost predicate Distinct(r: seq<Address>) {
    forall i, j :: 0 <= i < j < |r| ==> r[i] != r[j]
  }

  // There is an entry at address a.
  predicate Known(l: Links, a: Address) {
    a in l.flink && a in l.blink
  }

  // The entries of r, in this order, form one cycle; r[0] is the list head.
  ghost predicate Ring(l: Links, r: seq<Address>) {
    && r != [] && Distinct(r)
    && Forward(l.flink, r) && Backward(l.blink, r)
  }

  ghost predicate Forward(flink: map<Address, Address>, r: seq<Address>) {
    forall i :: 0 <= i < |r| ==> r[i] in flink && flink[r[i]] == After(r, i)
  }

  ghost predicate Backward(blink: map<Address, Address>, r: seq<Address>) {
    forall i :: 0 <= i < |r| ==> r[i] in blink && blink[r[i]] == Before(r, i)
  }

  ghost predicate RingLinks(l: Links, r: seq<Address>, i: nat)
    requires i < |r|
  {
    Distinct(r) && Known(l, r[i]) && l.flink[r[i]] == After(r, i) && l.blink[r[i]] == Before(r, i)
  }

  lemma RingPlace(l: Links, r: seq<Address>, i: nat)
    requires Ring(l, r) && i < |r|
    ensures RingLinks(l, r, i)
  {}

  // Both memories have the same entries, and agree on the links outside r.
  ghost predicate SameOutside(l: Links, m: Links, r: seq<Address>) {
    && l.flink.Keys == m.flink.Keys && l.blink.Keys == m.blink.Keys
    && (forall a :: a in l.flink && a !in r ==> l.flink[a] == m.flink[a])
    && (forall a :: a in l.blink && a !in r ==> l.blink[a] == m.blink[a])
  }

  // ---- the macros, on links ----

  function Initialized(l: Links, head: Address): Links {
    Links(l.flink[head := head], l.blink[head := head])
  }

  function Removed(l: Links, e: Address): Links
    requires e in l.flink && e in l.blink
  {
    var f, b := l.flink[e], l.blink[e];
    Links(l.flink[b := f], l.blink[f := b])
  }

  function TailInserted(l: Links, head: Address, e: Address): Links
    requires head in l.blink
  {
    var b := l.blink[head];
    Links(l.flink[e := head][b := e], l.blink[e := b][head := e])
  }

  function HeadInserted(l: Links, head: Address, e: Address): Links
    requires head in l.flink
  {
    var f := l.flink[head];
    Links(l.flink[e := f][head := e], l.blink[e := head][f := e])
  }

  // Entry2 is taken out, then written before Entry1 with the links read at the start.
  function Swapped(l: Links, e1: Address, e2: Address): Links
    requires e1 in l.blink && e2 in l.flink && e2 in l.blink
  {
    var f2, b2, b1 := l.flink[e2], l.blink[e2], l.blink[e1];
    Links(l.flink[b2 := f2][e2 := e1][b1 := e2], l.blink[f2 := b2][e2 := b1][e1 := e2])
  }

  // ---- the macros, in place ----

  class LinkMemory {
    var flink: map<Address, Address>
    var blink: map<Address, Address>

    constructor (l: Links)
      ensures Now() == l
    {
      flink, blink := l.flink, l.blink;
    }

    function Now(): Links
      reads this
    {
      Links(flink, blink)
    }

    method InitializeListHead(head: Address)
      modifies this
      ensures Now() == Initialized(old(Now()), head)
      ensures Ring(Now(), [head])
    {
      InitializedIsRing(Now(), head);
      flink := flink[head := head];
      blink := blink[head := head];
    }

    // The entry at place k of a list is taken out, and the others keep their order.
    method RemoveEntryList(entry: Address, ghost r: seq<Address>, ghost k: nat)
      requires entry in flink && entry in blink
      modifies this
      ensures Now() == Removed(old(Now()), entry)
      ensures Ring(old(Now()), r) && 1 <= k < |r| && r[k] == entry ==>
        Ring(Now(), Without(r, k)) && SameOutside(old(Now()), Now(), Without(r, k))
    {
      if Ring(Now(), r) && 1 <= k < |r| && r[k] == entry {
        RemovedRing(Now(), r, k);
      }
      hide Ring, SameOutside, Without;
      var f := flink[entry];
      var b := blink[entry];
      flink := flink[b := f];
      blink := blink[f := b];
    }

    // An entry that is not in the list becomes its last.
    method InsertTailList(head: Address, entry: Address, ghost r: seq<Address>)
      requires head in blink
      modifies this
      ensures Now() == TailInserted(old(Now()), head, entry)
      ensures Addable(old(Now()), r, head, entry) ==>
        Ring(Now(), r + [entry]) && SameOutside(old(Now()), Now(), r + [entry])
    {
      if Addable(Now(), r, head, entry) {
        TailInsertedRing(Now(), r, entry);
      }
      hide Ring, SameOutside, Addable;
      var b := blink[head];
      flink := flink[entry := head];
      blink := blink[entry := b];
      flink := flink[b := entry];
      blink := blink[head := entry];
    }

    // An entry that is not in the list becomes its first, behind the head.
    method InsertHeadList(head: Address, entry: Address, ghost r: seq<Address>)
      requires head in flink
      modifies this
      ensures Now() == HeadInserted(old(Now()), head, entry)
      ensures Addable(old(Now()), r, head, entry) ==>
        Ring(Now(), [head, entry] + r[1..]) && SameOutside(old(Now()), Now(), [head, entry] + r[1..])
    {
      if Addable(Now(), r, head, entry) {
        HeadInsertedRing(Now(), r, entry);
      }
      hide Ring, SameOutside, Addable;
      var f := flink[head];
      flink := flink[entry := f];
      blink := blink[entry := head];
      blink := blink[f := entry];
      flink := flink[head := entry];
    }

    // Of a list with Entry1 at place i and Entry2 at place j: it survives when they may be swapped,
    // and Entry2, if it is not the head, then stands directly before Entry1.
    method SwapListEntries(entry1: Address, entry2: Address, ghost r: seq<Address>, ghost i: nat, ghost j: nat)
      requires entry1 in blink && entry2 in flink && entry2 in blink
      modifies this
      ensures Now() == Swapped(old(Now()), entry1, entry2)
      ensures StandAt(old(Now()), r, i, j, entry1, entry2) ==>
        (StillOneRing(Now(), r) <==> Swappable(r, i, j))
      ensures StandAt(old(Now()), r, i, j, entry1, entry2) && Swappable(r, i, j) && 1 <= j ==>
        Ring(Now(), MovedBefore(r, i, j))
    {
      if StandAt(Now(), r, i, j, entry1, entry2) {
        SwapKeepsRingIff(Now(), r, i, j);
        if Swappable(r, i, j) && 1 <= j {
          SwapMovesBefore(Now(), r, i, j);
        }
      }
      hide StandAt, Swappable, StillOneRing, Ring, MovedBefore;
      var entry2Flink := flink[entry2];
      var entry2Blink := blink[entry2];
      var entry1Blink := blink[entry1];
      flink := flink[entry2Blink := entry2Flink];
      blink := blink[entry2Flink := entry2Blink];
      flink := flink[entry2 := entry1];
      blink := blink[entry2 := entry1Blink];
      flink := flink[entry1Blink := entry2];
      blink := blink[entry1 := entry2];
    }

    // Every link of the list is passed once through the firmware's address conversion.
    method RtConvertList(convert: Address -> Address, listHead: Address, ghost r: seq<Address>)
      requires Ring(Now(), r) && listHead == r[0]
      modifies this
      ensures Now() == Links(Converted(old(flink), convert, r), Converted(old(blink), convert, r))
    {
      hide *;
      ghost var l := Links(flink, blink);
      NowIs();
      var link := listHead;
      ghost var k := 0;
      ConversionStarts(l, convert, r);
      while true
        invariant Converting(l, Links(flink, blink), convert, r, k, link)
        decreases |r| - k
      {
        ConvertOne(l, Links(flink, blink), convert, r, k, link);
        var nextLink := flink[link];
        flink := flink[link := convert(flink[link])];
        blink := blink[link := convert(blink[link])];
        link := nextLink;
        if link == listHead {
          break;
        }
        k := k + 1;
      }
      NowIs();
    }

    lemma NowIs()
      ensures Now() == Links(flink, blink)
    {}
  }

  // The links of the first k entries have been converted, and the walk stands at entry k.
  ghost predicate Converting(l: Links, now: Links, convert: Address -> Address, r: seq<Address>, k: nat, link: Address) {
    && Ring(l, r) && k < |r| && link == r[k]
    && now == Links(Converted(l.flink, convert, r[..k]), Converted(l.blink, convert, r[..k]))
  }

  lemma ConversionStarts(l: Links, convert: Address -> Address, r: seq<Address>)
    requires Ring(l, r)
    ensures r != [] && Converting(l, l, convert, r, 0, r[0])
  {
    NoneConverted(l.flink, convert);
    NoneConverted(l.blink, convert);
    hide Converted;
    assert r[..0] == [];
  }

  // One entry's links converted; the walk goes to the next, or has come round to the head.
  lemma ConvertOne(l: Links, now: Links, convert: Address -> Address, r: seq<Address>, k: nat, link: Address)
    requires Converting(l, now, convert, r, k, link)
    ensures k < |r| && link in now.flink && link in now.blink
    ensures var next := Links(now.flink[link := convert(now.flink[link])], now.blink[link := convert(now.blink[link])]);
      if now.flink[link] == r[0] then next == Links(Converted(l.flink, convert, r), Converted(l.blink, convert, r))
      else k + 1 < |r| && Converting(l, next, convert, r, k + 1, now.flink[link])
  {
    hide Ring, Converted, Distinct;
    RingPlace(l, r, k);
    RingHead(l, r);
    OneMoreConverted(l.flink, convert, r, k);
    OneMoreConverted(l.blink, convert, r, k);
    NotTheHead(r, k);
    assert r[..|r|] == r;
  }

  lemma NotTheHead(r: seq<Address>, k: nat)
    requires Distinct(r) && k < |r|
    ensures After(r, k) == r[0] <==> k + 1 == |r|
  {}

  // Memory holds the list r with this head, and the entry, which is not in the list.
  ghost predicate Addable(l: Links, r: seq<Address>, head: Address, entry: Address) {
    Ring(l, r) && r[0] == head && Known(l, entry) && entry !in r
  }

  // Memory holds the list r with the two entries at places i and j.
  ghost predicate StandAt(l: Links, r: seq<Address>, i: nat, j: nat, entry1: Address, entry2: Address) {
    Ring(l, r) && i < |r| && j < |r| && r[i] == entry1 && r[j] == entry2
  }

  // The map with the links of the entries in `done` converted.
  function Converted(m: map<Address, Address>, convert: Address -> Address, done: seq<Address>): map<Address, Address> {
    map a | a in m :: if a in done then convert(m[a]) else m[a]
  }

  lemma NoneConverted(m: map<Address, Address>, convert: Address -> Address)
    ensures Converted(m, convert, []) == m
  {}

  lemma OneMoreConverted(m: map<Address, Address>, convert: Address -> Address, r: seq<Address>, k: nat)
    requires k < |r| && Distinct(r) && r[k] in m
    ensures var c := Converted(m, convert, r[..k]);
      r[k] in c && c[r[k]] == m[r[k]] && c[r[k] := convert(m[r[k]])] == Converted(m, convert, r[..k + 1])
  {
    assert r[..k + 1] == r[..k] + [r[k]];
  }

  // ---- what each macro does to a ring ----

  lemma InitializedIsRing(l: Links, head: Address)
    ensures Ring(Initialized(l, head), [head])
  {}

  lemma TailInsertedRing(l: Links, r: seq<Address>, e: Address)
    requires Ring(l, r) && Known(l, e) && e !in r
    ensures Ring(TailInserted(l, r[0], e), r + [e])
    ensures SameOutside(l, TailInserted(l, r[0], e), r + [e])
  {
    var n := |r|;
    var s := r + [e];
    assert s[n] == e && s[n - 1] == r[n - 1] && l.blink[r[0]] == r[n - 1];
    assert Distinct(s);
  }

  function WithFirst(r: seq<Address>, e: Address): (s: seq<Address>)
    requires r != []
    ensures |s| == |r| + 1 && forall i :: 0 <= i < |s| ==> s[i] == if i == 0 then r[0] else if i == 1 then e else r[i - 1]
  {
    [r[0], e] + r[1..]
  }

  lemma FirstForward(flink: map<Address, Address>, r: seq<Address>, e: Address)
    requires r != [] && Distinct(r) && Forward(flink, r) && e !in r
    ensures Forward(flink[e := After(r, 0)][r[0] := e], WithFirst(r, e))
  {
    hide WithFirst;
    var s, m := WithFirst(r, e), flink[e := After(r, 0)][r[0] := e];
    forall i | 0 <= i < |s| ensures s[i] in m && m[s[i]] == After(s, i) {
      if i >= 2 {
        assert flink[r[i - 1]] == After(r, i - 1);
      }
    }
  }

  lemma FirstBackward(blink: map<Address, Address>, r: seq<Address>, e: Address)
    requires r != [] && Distinct(r) && Backward(blink, r) && e !in r
    ensures Backward(blink[e := r[0]][After(r, 0) := e], WithFirst(r, e))
  {
    hide WithFirst;
    var s, m := WithFirst(r, e), blink[e := r[0]][After(r, 0) := e];
    forall i | 0 <= i < |s| ensures s[i] in m && m[s[i]] == Before(s, i) {
      if i != 1 {
        var j := if i == 0 then 0 else i - 1;
        assert blink[r[j]] == Before(r, j);
      }
    }
  }

  lemma FirstDistinct(r: seq<Address>, e: Address)
    requires r != [] && Distinct(r) && e !in r
    ensures Distinct(WithFirst(r, e)) && WithFirst(r, e) == [r[0], e] + r[1..]
    ensures e in WithFirst(r, e) && forall a :: a in r ==> a in WithFirst(r, e)
  {
    var s := WithFirst(r, e);
    assert s[1] == e;
    forall a | a in r ensures a in s {
      var i :| 0 <= i < |r| && r[i] == a;
      assert a == if i == 0 then s[0] else s[i + 1];
    }
  }

  lemma HeadInsertedRing(l: Links, r: seq<Address>, e: Address)
    requires Ring(l, r) && Known(l, e) && e !in r
    ensures Ring(HeadInserted(l, r[0], e), [r[0], e] + r[1..])
    ensures SameOutside(l, HeadInserted(l, r[0], e), [r[0], e] + r[1..])
  {
    hide WithFirst, Forward, Backward, Distinct;
    RingPlace(l, r, 0);
    RingPlace(l, r, if |r| > 1 then 1 else 0);
    FirstDistinct(r, e);
    FirstForward(l.flink, r, e);
    FirstBackward(l.blink, r, e);
    assert After(r, 0) in r && r[0] in r;
  }

  function Without(r: seq<Address>, k: nat): seq<Address>
    requires k < |r|
  {
    r[..k] + r[k + 1..]
  }

  // Place i without entry k is place j of the whole, and its neighbours are the same but for the gap.
  lemma WithoutPlace(r: seq<Address>, k: nat, i: nat) returns (j: nat)
    requires Distinct(r) && 1 <= k < |r| && i < |r| - 1
    ensures j < |r| && |Without(r, k)| == |r| - 1 && Without(r, k)[i] == r[j]
    ensures After(Without(r, k), i) == if r[j] == Before(r, k) then After(r, k) else After(r, j)
    ensures Before(Without(r, k), i) == if r[j] == After(r, k) then Before(r, k) else Before(r, j)
  {
    j := if i < k then i else i + 1;
    assert Before(r, k) == r[k - 1] && (After(r, k) == if k + 1 < |r| then r[k + 1] else r[0]);
    assert r[j] == r[k - 1] <==> j == k - 1;
    assert r[j] == After(r, k) <==> j == if k + 1 < |r| then k + 1 else 0;
  }

  lemma WithoutForward(flink: map<Address, Address>, r: seq<Address>, k: nat)
    requires Distinct(r) && Forward(flink, r) && 1 <= k < |r|
    ensures Forward(flink[Before(r, k) := After(r, k)], Without(r, k))
  {
    hide Distinct, After, Before, Without;
    var s, m := Without(r, k), flink[Before(r, k) := After(r, k)];
    assert |s| == |r| - 1 by { var j := WithoutPlace(r, k, 0); }
    forall i | 0 <= i < |s| ensures s[i] in m && m[s[i]] == After(s, i) {
      var j := WithoutPlace(r, k, i);
      assert flink[r[j]] == After(r, j);
    }
  }

  lemma WithoutBackward(blink: map<Address, Address>, r: seq<Address>, k: nat)
    requires Distinct(r) && Backward(blink, r) && 1 <= k < |r|
    ensures Backward(blink[After(r, k) := Before(r, k)], Without(r, k))
  {
    hide Distinct, After, Before, Without;
    var s, m := Without(r, k), blink[After(r, k) := Before(r, k)];
    assert |s| == |r| - 1 by { var j := WithoutPlace(r, k, 0); }
    forall i | 0 <= i < |s| ensures s[i] in m && m[s[i]] == Before(s, i) {
      var j := WithoutPlace(r, k, i);
      assert blink[r[j]] == Before(r, j);
    }
  }

  lemma WithoutFacts(r: seq<Address>, k: nat)
    requires Distinct(r) && 1 <= k < |r|
    ensures Distinct(Without(r, k)) && r[k] !in Without(r, k)
    ensures Before(r, k) in Without(r, k) && After(r, k) in Without(r, k)
    ensures forall a :: a in Without(r, k) ==> a in r
  {
    var s := Without(r, k);
    assert s[k - 1] == r[k - 1];
    assert After(r, k) == if k + 1 < |r| then s[k] else s[0];
  }

  lemma RemovedRing(l: Links, r: seq<Address>, k: nat)
    requires Ring(l, r) && 1 <= k < |r|
    ensures Ring(Removed(l, r[k]), Without(r, k))
    ensures SameOutside(l, Removed(l, r[k]), Without(r, k))
  {
    assert l.flink[r[k]] == After(r, k) && l.blink[r[k]] == Before(r, k);
    assert Without(r, k) != [];
    WithoutForward(l.flink, r, k);
    WithoutBackward(l.blink, r, k);
    WithoutFacts(r, k);
    assert After(r, k) in r && Before(r, k) in r;
    hide Without, After, Before;
  }

  // ---- whole runs ----

  datatype Step = AddHead(e: Address) | AddTail(e: Address) | Drop(e: Address)

  function Perform(l: Links, head: Address, step: Step): (m: Links)
    requires Known(l, head) && Known(l, step.e)
    ensures l.flink.Keys <= m.flink.Keys && l.blink.Keys <= m.blink.Keys
  {
    match step
    case AddHead(e) => HeadInserted(l, head, e)
    case AddTail(e) => TailInserted(l, head, e)
    case Drop(e) => Removed(l, e)
  }

  function PerformAll(l: Links, head: Address, steps: seq<Step>): Links
    requires Known(l, head) && forall i :: 0 <= i < |steps| ==> Known(l, steps[i].e)
    decreases |steps|
  {
    if steps == [] then l
    else
      var m := Perform(l, head, steps[0]);
      StaysKnown(l, m, steps);
      PerformAll(m, head, steps[1..])
  }

  lemma StaysKnown(l: Links, m: Links, steps: seq<Step>)
    requires l.flink.Keys <= m.flink.Keys && l.blink.Keys <= m.blink.Keys
    requires steps != [] && forall i :: 0 <= i < |steps| ==> Known(l, steps[i].e)
    ensures forall i :: 0 <= i < |steps[1..]| ==> Known(m, steps[1..][i].e)
  {
    forall i | 0 <= i < |steps[1..]| ensures Known(m, steps[1..][i].e) {
      assert Known(l, steps[i + 1].e);
    }
  }

  function IndexOf(r: seq<Address>, e: Address): (k: nat)
    requires e in r
    ensures k < |r| && r[k] == e
  {
    if r[0] == e then 0 else 1 + IndexOf(r[1..], e)
  }

  // A step is legal when it adds an entry that is not in the list, or drops one that is.
  predicate Legal(r: seq<Address>, step: Step) {
    match step
    case Drop(e) => r != [] && e in r[1..]
    case _ => r != [] && step.e !in r
  }

  function Order(r: seq<Address>, step: Step): (s: seq<Address>)
    requires Legal(r, step)
    ensures s != []
  {
    match step
    case AddHead(e) => [r[0], e] + r[1..]
    case AddTail(e) => r + [e]
    case Drop(e) => Without(r, 1 + IndexOf(r[1..], e))
  }

  predicate AllLegal(r: seq<Address>, steps: seq<Step>)
    decreases |steps|
  {
    if steps == [] then true else Legal(r, steps[0]) && AllLegal(Order(r, steps[0]), steps[1..])
  }

  function FinalOrder(r: seq<Address>, steps: seq<Step>): seq<Address>
    requires AllLegal(r, steps)
    decreases |steps|
  {
    if steps == [] then r else FinalOrder(Order(r, steps[0]), steps[1..])
  }

  ghost predicate Apart(q: seq<Address>, r: seq<Address>) {
    forall a :: a in q ==> a !in r
  }

  // Another list, if there is one.
  ghost predicate EmptyOrRing(l: Links, q: seq<Address>) {
    q == [] || Ring(l, q)
  }

  lemma OtherRingKept(l: Links, m: Links, q: seq<Address>, r: seq<Address>)
    requires EmptyOrRing(l, q) && SameOutside(l, m, r) && Apart(q, r)
    ensures EmptyOrRing(m, q)
  {
    assert forall i :: 0 <= i < |q| ==> q[i] in q;
  }

  lemma StepKeepsRing(l: Links, r: seq<Address>, step: Step, q: seq<Address>)
    requires Ring(l, r) && Legal(r, step) && Known(l, r[0]) && Known(l, step.e)
    requires EmptyOrRing(l, q) && Apart(q, r) && step.e !in q
    ensures Ring(Perform(l, r[0], step), Order(r, step)) && Order(r, step)[0] == r[0]
    ensures EmptyOrRing(Perform(l, r[0], step), q) && Apart(q, Order(r, step))
  {
    hide Ring, EmptyOrRing, SameOutside, Apart, HeadInserted, TailInserted, Removed, Without, Distinct;
    RingHead(l, r);
    var e, m := step.e, Perform(l, r[0], step);
    match step
    case AddHead(_) =>
      HeadInsertedRing(l, r, e);
      KeptApart(l, m, q, [r[0], e] + r[1..], r, e);
    case AddTail(_) =>
      TailInsertedRing(l, r, e);
      KeptApart(l, m, q, r + [e], r, e);
    case Drop(_) =>
      var k := 1 + IndexOf(r[1..], e);
      assert 1 <= k < |r| && r[k] == e;
      RemovedRing(l, r, k);
      WithoutFacts(r, k);
      KeptApart(l, m, q, Without(r, k), r, e);
  }

  lemma KeptApart(l: Links, m: Links, q: seq<Address>, s: seq<Address>, r: seq<Address>, e: Address)
    requires EmptyOrRing(l, q) && SameOutside(l, m, s) && Apart(q, r) && e !in q
    requires forall a :: a in s ==> a in r || a == e
    ensures EmptyOrRing(m, q) && Apart(q, s)
  {
    OtherRingKept(l, m, q, s);
  }

  // After any legal run the list is one cycle in the order the steps say, and every other list
  // is as it was.
  lemma {:induction false} RunKeepsRings(l: Links, r: seq<Address>, steps: seq<Step>, q: seq<Address>)
    requires Ring(l, r) && AllLegal(r, steps) && Known(l, r[0])
    requires forall i :: 0 <= i < |steps| ==> Known(l, steps[i].e) && steps[i].e !in q
    requires EmptyOrRing(l, q) && Apart(q, r)
    ensures Ring(PerformAll(l, r[0], steps), FinalOrder(r, steps))
    ensures EmptyOrRing(PerformAll(l, r[0], steps), q)
    decreases |steps|
  {
    assert r != [];
    hide Ring, EmptyOrRing, Order, Legal;
    if steps != [] {
      StepKeepsRing(l, r, steps[0], q);
      var m := Perform(l, r[0], steps[0]);
      RunKeepsRings(m, Order(r, steps[0]), steps[1..], q);
    }
  }

  // Starting from an initialised head.
  lemma RunFromInitialized(l: Links, head: Address, steps: seq<Step>, q: seq<Address>)
    requires AllLegal([head], steps) && EmptyOrRing(l, q) && head !in q
    requires forall i :: 0 <= i < |steps| ==> Known(Initialized(l, head), steps[i].e) && steps[i].e !in q
    ensures Ring(PerformAll(Initialized(l, head), head, steps), FinalOrder([head], steps))
    ensures EmptyOrRing(PerformAll(Initialized(l, head), head, steps), q)
  {
    var m := Initialized(l, head);
    InitializedIsRing(l, head);
    assert EmptyOrRing(m, q) by {
      assert forall i :: 0 <= i < |q| ==> q[i] in q;
    }
    RunKeepsRings(m, [head], steps, q);
  }

  // ---- swapping ----

  function Rotated(r: seq<Address>, k: nat): seq<Address>
    requires k < |r|
  {
    r[k..] + r[..k]
  }

  lemma RotatedRing(l: Links, r: seq<Address>, k: nat)
    requires Ring(l, r) && k < |r|
    ensures Ring(l, Rotated(r, k))
  {
    var s, n := Rotated(r, k), |r|;
    forall i | 0 <= i < n
      ensures s[i] in l.flink && l.flink[s[i]] == After(s, i) && s[i] in l.blink && l.blink[s[i]] == Before(s, i)
    {
      var j := if i + k < n then i + k else i + k - n;
      assert s[i] == r[j] && l.flink[r[j]] == After(r, j) && l.blink[r[j]] == Before(r, j);
    }
    RotatedDistinct(r, k);
  }

  lemma RotatedDistinct(r: seq<Address>, k: nat)
    requires Distinct(r) && k < |r|
    ensures Distinct(Rotated(r, k))
  {}

  // Seen from Entry1, swapping takes Entry2 out and puts it at the tail.
  lemma SwappedRing(l: Links, r: seq<Address>, k: nat)
    requires Ring(l, r) && 1 <= k < |r| - 1
    ensures Ring(Swapped(l, r[0], r[k]), Without(r, k) + [r[k]])
    ensures SameOutside(l, Swapped(l, r[0], r[k]), r)
  {
    hide Ring, Removed, Swapped, TailInserted, Without, SameOutside, Distinct, Before, After;
    RingHead(l, r);
    RemovedRing(l, r, k);
    WithoutFacts(r, k);
    SwapIsRemoveThenInsert(l, r, k);
    TailInsertedRing(Removed(l, r[k]), Without(r, k), r[k]);
    SameOutsideJoins(l, Removed(l, r[k]), Swapped(l, r[0], r[k]), Without(r, k), Without(r, k) + [r[k]], r);
  }

  lemma RingHead(l: Links, r: seq<Address>)
    requires Ring(l, r)
    ensures r != [] && Distinct(r)
    ensures forall k :: 1 <= k < |r| ==> Without(r, k) != [] && Without(r, k)[0] == r[0]
    ensures forall k :: 0 <= k < |r| ==> Known(l, r[k])
  {}

  lemma SameOutsideJoins(l: Links, m: Links, n: Links, p: seq<Address>, q: seq<Address>, r: seq<Address>)
    requires SameOutside(l, m, p) && SameOutside(m, n, q)
    requires forall a :: a in p || a in q ==> a in r
    ensures SameOutside(l, n, r)
  {}

  lemma SwapIsRemoveThenInsert(l: Links, r: seq<Address>, k: nat)
    requires Ring(l, r) && 1 <= k < |r| - 1
    ensures Known(Removed(l, r[k]), r[k]) && Known(Removed(l, r[k]), r[0])
    ensures Swapped(l, r[0], r[k]) == TailInserted(Removed(l, r[k]), r[0], r[k])
  {
    assert l.flink[r[k]] == After(r, k) == r[k + 1];
    assert l.blink[r[k]] == r[k - 1];
    assert r[0] in l.flink && r[0] in l.blink;
  }

  ghost predicate StillOneRing(m: Links, r: seq<Address>) {
    exists s :: Ring(m, s) && |s| == |r| && forall a :: a in s <==> a in r
  }

  lemma NoSelfLink(s: seq<Address>, t: nat)
    requires Distinct(s) && |s| >= 2 && t < |s|
    ensures After(s, t) != s[t]
  {}

  lemma SelfLinkBreaksRing(m: Links, r: seq<Address>, e: Address)
    requires |r| >= 2 && e in r && e in m.flink && m.flink[e] == e
    ensures !StillOneRing(m, r)
  {
    forall s | Ring(m, s) && |s| == |r| && e in s ensures false {
      var t := IndexOf(s, e);
      NoSelfLink(s, t);
    }
  }

  // Entry1 at place i, Entry2 at place j: they differ, and Entry2 does not already stand before
  // Entry1; or the head is all there is.
  predicate Swappable(r: seq<Address>, i: nat, j: nat)
    requires i < |r| && j < |r|
  {
    |r| == 1 || (i != j && Before(r, i) != r[j])
  }

  // The list survives a swap exactly then.
  lemma SwapKeepsRingIff(l: Links, r: seq<Address>, i: nat, j: nat)
    requires Ring(l, r) && i < |r| && j < |r|
    ensures StillOneRing(Swapped(l, r[i], r[j]), r) <==> Swappable(r, i, j)
  {
    var m := Swapped(l, r[i], r[j]);
    assert l.blink[r[i]] == Before(r, i);
    if |r| == 1 {
      assert Ring(m, r);
    } else if Swappable(r, i, j) {
      SwapElsewhere(l, r, i, j);
    } else {
      assert m.flink[r[j]] == r[j];
      SelfLinkBreaksRing(m, r, r[j]);
    }
  }

  // Swapping neighbours in the order in which they already stand: Entry2 is left leading to itself.
  lemma SwapOfNeighboursLosesList()
    ensures var l := Links(map[0 := 1, 1 := 2, 2 := 0], map[0 := 2, 1 := 0, 2 := 1]);
      && Ring(l, [0, 1, 2])
      && Swapped(l, 2, 1).flink[1] == 1 && !StillOneRing(Swapped(l, 2, 1), [0, 1, 2])
  {
    var l, r := Links(map[0 := 1, 1 := 2, 2 := 0], map[0 := 2, 1 := 0, 2 := 1]), [0, 1, 2];
    assert Ring(l, r);
    SwapKeepsRingIff(l, r, 2, 1);
  }

  lemma SwapElsewhere(l: Links, r: seq<Address>, i: nat, j: nat)
    requires Ring(l, r) && i < |r| && j < |r| && i != j && l.blink[r[i]] != r[j]
    ensures StillOneRing(Swapped(l, r[i], r[j]), r)
  {
    hide Ring, Rotated, After, Swapped, Without;
    var k := SwapSeenFromEntry1(l, r, i, j);
    SameMembers(r, i, k);
  }

  lemma SwapSeenFromEntry1(l: Links, r: seq<Address>, i: nat, j: nat) returns (k: nat)
    requires Ring(l, r) && i < |r| && j < |r| && i != j && l.blink[r[i]] != r[j]
    ensures k == (if i <= j then j - i else j - i + |r|) && k < |r|
    ensures Ring(Swapped(l, r[i], r[j]), Without(Rotated(r, i), k) + [r[j]])
    ensures Rotated(r, i)[k] == r[j]
  {
    hide Ring, Rotated, After, Swapped, Without;
    k := RotatedPlace(r, i, j);
    RotatedRing(l, r, i);
    RingPlace(l, Rotated(r, i), 0);
    RingPlace(l, r, i);
    RingPlace(l, r, j);
    SwappedRing(l, Rotated(r, i), k);
  }

  // The order with r[j] taken out and put directly before r[i]; before the head is the tail.
  function MovedBefore(r: seq<Address>, i: nat, j: nat): seq<Address>
    requires i < |r| && 1 <= j < |r| && Swappable(r, i, j)
  {
    if i == 0 then Without(r, j) + [r[j]]
    else if i < j then r[..i] + [r[j]] + r[i..j] + r[j + 1..]
    else r[..j] + r[j + 1..i] + [r[j]] + r[i..]
  }

  // Such a swap moves Entry2, if it is not the head, directly before Entry1.
  lemma SwapMovesBefore(l: Links, r: seq<Address>, i: nat, j: nat)
    requires Ring(l, r) && i < |r| && 1 <= j < |r| && Swappable(r, i, j)
    ensures Ring(Swapped(l, r[i], r[j]), MovedBefore(r, i, j))
  {
    RingPlace(l, r, i);
    RingPlace(l, r, j);
    hide Ring, Swapped, Without, Rotated, MovedBefore;
    var k := SwapSeenFromEntry1(l, r, i, j);
    var p := TurnedToHead(r, i, j, k);
    RotatedRing(Swapped(l, r[i], r[j]), Without(Rotated(r, i), k) + [r[j]], p);
  }

  // The same order, seen from Entry1 and from the head.
  lemma TurnedToHead(r: seq<Address>, i: nat, j: nat, k: nat) returns (p: nat)
    requires i < |r| && 1 <= j < |r| && Swappable(r, i, j) && k == if i <= j then j - i else j - i + |r|
    ensures k < |Rotated(r, i)| && p < |r| == |Without(Rotated(r, i), k) + [r[j]]|
    ensures Rotated(Without(Rotated(r, i), k) + [r[j]], p) == MovedBefore(r, i, j)
  {
    p := if i == 0 then 0 else if i < j then |r| - i - 1 else |r| - i;
    if i == 0 {
      TurnedAtHead(r, j);
    } else if i < j {
      TurnedForward(r, i, j);
    } else {
      TurnedBack(r, i, j);
    }
  }

  lemma TurnedAtHead(r: seq<Address>, j: nat)
    requires 1 <= j < |r|
    ensures Rotated(r, 0) == r && Rotated(Without(r, j) + [r[j]], 0) == Without(r, j) + [r[j]]
    ensures |Without(r, j) + [r[j]]| == |r|
  {}

  lemma TurnedForward(r: seq<Address>, i: nat, j: nat)
    requires 0 < i < j < |r|
    ensures j - i < |Rotated(r, i)| && |Without(Rotated(r, i), j - i) + [r[j]]| == |r|
    ensures Rotated(Without(Rotated(r, i), j - i) + [r[j]], |r| - i - 1) == r[..i] + [r[j]] + r[i..j] + r[j + 1..]
  {
    assert Without(Rotated(r, i), j - i) == r[i..j] + r[j + 1..] + r[..i];
  }

  lemma TurnedBack(r: seq<Address>, i: nat, j: nat)
    requires 1 <= j < i < |r|
    ensures j - i + |r| < |Rotated(r, i)| && |Without(Rotated(r, i), j - i + |r|) + [r[j]]| == |r|
    ensures Rotated(Without(Rotated(r, i), j - i + |r|) + [r[j]], |r| - i) == r[..j] + r[j + 1..i] + [r[j]] + r[i..]
  {
    assert Without(Rotated(r, i), j - i + |r|) == r[i..] + r[..j] + r[j + 1..i];
  }

  lemma RotatedPlace(r: seq<Address>, i: nat, j: nat) returns (k: nat)
    requires i < |r| && j < |r|
    ensures k == if i <= j then j - i else j - i + |r|
    ensures k < |Rotated(r, i)| == |r| && Rotated(r, i)[k] == r[j] && Rotated(r, i)[0] == r[i]
  {
    k := if i <= j then j - i else j - i + |r|;
  }

  lemma SameMembers(r: seq<Address>, i: nat, k: nat)
    requires i < |r| && k < |r|
    ensures var s := Rotated(r, i);
      |s| == |r| == |Without(s, k) + [s[k]]| && forall a :: a in Without(s, k) + [s[k]] <==> a in r
  {
    var s := Rotated(r, i);
    var t := Without(s, k) + [s[k]];
    forall a | a in r ensures a in t {
      var x := IndexOf(r, a);
      var y := if x >= i then x - i else x - i + |r|;
      assert s[y] == a;
      assert a == if y < k then t[y] else if y == k then t[|t| - 1] else t[y - 1];
    }
    forall a | a in t ensures a in r {
      var y := IndexOf(t, a);
      assert a in s;
    }
  }

  // ---- conversion ----

  function Image(convert: Address -> Address, r: seq<Address>): seq<Address> {
    seq(|r|, i requires 0 <= i < |r| => convert(r[i]))
  }

  // Once the entries are reached at their new addresses, the converted links form the same list.
  lemma ConvertedIsRing(l: Links, convert: Address -> Address, r: seq<Address>, v: Links)
    requires Ring(l, r)
    requires forall i, j :: 0 <= i < j < |r| ==> convert(r[i]) != convert(r[j])
    requires var m := Links(Converted(l.flink, convert, r), Converted(l.blink, convert, r));
      forall i :: 0 <= i < |r| ==>
        && convert(r[i]) in v.flink && v.flink[convert(r[i])] == m.flink[r[i]]
        && convert(r[i]) in v.blink && v.blink[convert(r[i])] == m.blink[r[i]]
    ensures Ring(v, Image(convert, r))
  {
    var s := Image(convert, r);
    assert Distinct(s);
    forall i | 0 <= i < |s|
      ensures s[i] in v.flink && v.flink[s[i]] == After(s, i) && s[i] in v.blink && v.blink[s[i]] == Before(s, i)
    {
      assert r[i] in r && l.flink[r[i]] == After(r, i) && l.blink[r[i]] == Before(r, i);
    }
  }
}
