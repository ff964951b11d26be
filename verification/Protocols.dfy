// Installing several protocol interfaces at once, all or none. The boot services are those of
// section 7.3 of the UEFI specification, reduced to the handle database: a handle exists as long
// as it carries a protocol.
module Protocols {
  import opened Options

  type Handle = nat
  type Guid = nat
  type Interface = nat

  type Database = map<Handle, map<Guid, Interface>>

  datatype Status = Success | OutOfResources | InvalidParameter | NotFound {
    predicate IsError() { this != Success }
  }

  const TPL_NOTIFY := 16

  datatype Pair = Pair(guid: Guid, interface: Interface)
  datatype Change = Change(guid: Guid, before: Interface, after: Interface)

  // The protocols of a handle, if it exists.
  function On(db: Database, h: Handle): map<Guid, Interface> {
    if h in db then db[h] else map[]
  }

  // The database with exactly the protocols m on h.
  function With(db: Database, h: Handle, m: map<Guid, Interface>): Database {
    if m == map[] then db - {h} else db[h := m]
  }

  // The database with one interface put on h.
  function Put(db: Database, h: Handle, guid: Guid, interface: Interface): Database {
    var m: map<Guid, Interface> := On(db, h)[guid := interface];
    db[h := m]
  }

  predicate Carries(db: Database, h: Handle, guid: Guid, interface: Interface) {
    h in db && guid in db[h] && db[h][guid] == interface
  }

  ghost predicate NoEmptyHandles(db: Database) {
    forall h :: h in db ==> db[h] != map[]
  }

  function Pairs(ps: seq<Pair>): map<Guid, Interface>
    decreases |ps|
  {
    if ps == [] then map[] else Pairs(ps[..|ps| - 1])[ps[|ps| - 1].guid := ps[|ps| - 1].interface]
  }

  // ---- the boot services ----

  // What the firmware requires of an installation, besides memory.
  predicate Accepted(db: Database, handle: Option<Handle>, guid: Guid) {
    handle.Some? ==> handle.value in db && guid !in db[handle.value]
  }

  class BootServices {
    var db: Database
    var nextHandle: Handle
    var tpl: nat
    // Whether the n-th request for memory is granted.
    const granted: nat -> bool
    var requests: nat

    ghost predicate Valid()
      reads this
    {
      NoEmptyHandles(db) && forall h :: h in db ==> h < nextHandle
    }

    constructor (granted: nat -> bool)
      ensures Valid() && db == map[] && this.granted == granted
    {
      db, nextHandle, tpl, requests := map[], 0, 4, 0;
      this.granted := granted;
    }

    method RaiseTPL(newTpl: nat) returns (oldTpl: nat)
      requires tpl <= newTpl
      modifies this`tpl
      ensures oldTpl == old(tpl) && tpl == newTpl
    {
      oldTpl, tpl := tpl, newTpl;
    }

    method RestoreTPL(oldTpl: nat)
      requires oldTpl <= tpl
      modifies this`tpl
      ensures tpl == oldTpl
    {
      tpl := oldTpl;
    }

    method InstallProtocolInterface(handle: Option<Handle>, guid: Guid, interface: Interface)
      returns (status: Status, newHandle: Option<Handle>)
      requires Valid()
      modifies this`db, this`nextHandle, this`requests
      ensures Valid() && requests == old(requests) + 1
      ensures status.IsError() ==> db == old(db) && newHandle == handle
      ensures status == if !Accepted(old(db), handle, guid) then InvalidParameter
                        else if !granted(old(requests)) then OutOfResources else Success
      ensures status == Success ==>
        && newHandle.Some? && (if handle.Some? then newHandle == handle else newHandle.value !in old(db))
        && db == Put(old(db), newHandle.value, guid, interface)
    {
      requests := requests + 1;
      newHandle := handle;
      if handle.Some? && (handle.value !in db || guid in db[handle.value]) {
        return InvalidParameter, newHandle;
      }
      if !granted(requests - 1) {
        return OutOfResources, newHandle;
      }
      var h := nextHandle;
      if handle.Some? {
        h := handle.value;
      } else {
        nextHandle := nextHandle + 1;
      }
      assert guid in On(db, h)[guid := interface];
      db := Put(db, h, guid, interface);
      status, newHandle := Success, Some(h);
    }

    method UninstallProtocolInterface(handle: Handle, guid: Guid, interface: Interface) returns (status: Status)
      requires Valid()
      modifies this`db
      ensures Valid()
      ensures status == Success <==> Carries(old(db), handle, guid, interface)
      ensures status.IsError() ==> db == old(db)
      ensures status == Success ==> db == With(old(db), handle, old(db)[handle] - {guid})
    {
      if !Carries(db, handle, guid, interface) {
        return NotFound;
      }
      db := With(db, handle, db[handle] - {guid});
      status := Success;
    }

    method ReinstallProtocolInterface(handle: Handle, guid: Guid, before: Interface, after: Interface, undo: bool)
      returns (status: Status)
      requires Valid()
      modifies this`db, this`requests
      ensures Valid()
      ensures status == if !Carries(old(db), handle, guid, before) then NotFound
                        else if !undo && !granted(old(requests)) then OutOfResources else Success
      ensures status.IsError() ==> db == old(db)
      ensures status == Success ==> db == Put(old(db), handle, guid, after)
      ensures requests == old(requests) + 1
    {
      requests := requests + 1;
      if !Carries(db, handle, guid, before) {
        return NotFound;
      }
      if !undo && !granted(requests - 1) {
        return OutOfResources;
      }
      assert guid in On(db, handle)[guid := after];
      db := Put(db, handle, guid, after);
      status := Success;
    }
  }

  // ---- installing ----

  lemma PairsSnoc(ps: seq<Pair>, k: nat)
    requires k < |ps|
    ensures Pairs(ps[..k + 1]) == Pairs(ps[..k])[ps[k].guid := ps[k].interface]
  {
    assert ps[..k + 1][..k] == ps[..k];
  }

  lemma {:induction false} PairsKeys(ps: seq<Pair>, g: Guid)
    ensures g in Pairs(ps) <==> exists i :: 0 <= i < |ps| && ps[i].guid == g
    decreases |ps|
  {
    if ps != [] {
      var front := ps[..|ps| - 1];
      PairsKeys(front, g);
      if i :| 0 <= i < |front| && front[i].guid == g { assert ps[i].guid == g; }
      if i :| 0 <= i < |ps| && ps[i].guid == g { assert i < |front| ==> front[i].guid == g; }
    }
  }

  ghost predicate DistinctGuids(ps: seq<Pair>) {
    forall i, j :: 0 <= i < j < |ps| ==> ps[i].guid != ps[j].guid
  }

  // Taking the first of distinct pairs out again.
  lemma {:induction false} PairsTail(ps: seq<Pair>)
    requires ps != [] && DistinctGuids(ps)
    ensures Pairs(ps) - {ps[0].guid} == Pairs(ps[1..])
    ensures ps[0].guid in Pairs(ps) && Pairs(ps)[ps[0].guid] == ps[0].interface
    decreases |ps|
  {
    if |ps| == 1 {
      assert ps[..0] == [] && ps[1..] == [];
    } else {
      var front := ps[..|ps| - 1];
      PairsTail(front);
      assert ps[1..][..|ps| - 2] == front[1..];
      assert ps[|ps| - 1] == ps[1..][|ps| - 2];
      assert ps[|ps| - 1].guid != ps[0].guid;
    }
  }

  // Every request for memory is granted from the first on.
  ghost predicate AllGranted(granted: nat -> bool, from: nat, n: nat) {
    forall i :: from <= i < from + n ==> granted(i)
  }

  lemma NoneGranted(granted: nat -> bool, from: nat, n: nat)
    ensures AllGranted(granted, from, 0)
  {}

  lemma OneMoreGranted(granted: nat -> bool, from: nat, k: nat, n: nat)
    requires k < n
    ensures AllGranted(granted, from, k + 1) <==> AllGranted(granted, from, k) && granted(from + k)
    ensures AllGranted(granted, from, n) ==> AllGranted(granted, from, k + 1)
  {}

  // What a complete installation needs.
  ghost predicate Installable(db: Database, handle: Option<Handle>, ps: seq<Pair>) {
    && DistinctGuids(ps)
    && (handle.Some? && ps != [] ==> handle.value in db)
    && (handle.Some? ==> forall i :: 0 <= i < |ps| ==> ps[i].guid !in On(db, handle.value))
  }

  // The handle that carries the new protocols: the given one, or a new one.
  ghost predicate InstalledOn(base: Database, given: Option<Handle>, h: Handle) {
    if given.Some? then h == given.value && h in base else h !in base
  }

  // The database with the pairs added to what h had.
  function Installed(base: Database, h: Handle, ps: seq<Pair>): Database {
    With(base, h, On(base, h) + Pairs(ps))
  }

  // The protocols and interfaces of every handle after an installation on h.
  lemma InstalledMeans(base: Database, h: Handle, ps: seq<Pair>, g: Guid)
    ensures forall k :: k != h ==> (k in Installed(base, h, ps) <==> k in base)
    ensures forall k :: k != h && k in base ==> k in Installed(base, h, ps) && Installed(base, h, ps)[k] == base[k]
    ensures g in On(Installed(base, h, ps), h) <==> g in On(base, h) || exists i :: 0 <= i < |ps| && ps[i].guid == g
    ensures DistinctGuids(ps) ==> forall i :: 0 <= i < |ps| && ps[i].guid == g ==> On(Installed(base, h, ps), h)[g] == ps[i].interface
    ensures g in On(base, h) && (forall i :: 0 <= i < |ps| ==> ps[i].guid != g) ==>
      On(Installed(base, h, ps), h)[g] == On(base, h)[g]
  {
    PairsKeys(ps, g);
    PairsValue(ps, g);
    hide Pairs, DistinctGuids;
    OnAfterWith(base, h, On(base, h) + Pairs(ps));
  }

  lemma {:induction false} PairsValue(ps: seq<Pair>, g: Guid)
    ensures DistinctGuids(ps) ==> forall i :: 0 <= i < |ps| && ps[i].guid == g ==> g in Pairs(ps) && Pairs(ps)[g] == ps[i].interface
    decreases |ps|
  {
    if ps != [] && DistinctGuids(ps) {
      var front := ps[..|ps| - 1];
      assert DistinctGuids(front);
      PairsValue(front, g);
      forall i | 0 <= i < |ps| && ps[i].guid == g ensures g in Pairs(ps) && Pairs(ps)[g] == ps[i].interface {
        if i < |front| { assert front[i] == ps[i] && ps[|ps| - 1].guid != g; }
      }
    }
  }

  lemma NothingInstalled(base: Database, h: Handle)
    requires NoEmptyHandles(base)
    ensures Installed(base, h, []) == base
  {
    assert On(base, h) + map[] == On(base, h);
  }

  lemma OnAfterWith(base: Database, h: Handle, m: map<Guid, Interface>)
    ensures On(With(base, h, m), h) == m
    ensures m != map[] ==> h in With(base, h, m)
  {}

  // What one more installation does, and when it is refused.
  lemma OneMoreInstalled(base: Database, h: Handle, ps: seq<Pair>, k: nat)
    requires k < |ps|
    ensures Put(Installed(base, h, ps[..k]), h, ps[k].guid, ps[k].interface) == Installed(base, h, ps[..k + 1])
    ensures ps[k].guid in On(Installed(base, h, ps[..k]), h)
       <==> ps[k].guid in On(base, h) || ps[k].guid in Pairs(ps[..k])
    ensures k > 0 ==> h in Installed(base, h, ps[..k])
  {
    PairsSnoc(ps, k);
    hide Pairs, On;
    var m := On(base, h) + Pairs(ps[..k]);
    OnAfterWith(base, h, m);
    PutOnTop(base, h, m, ps[k].guid, ps[k].interface);
    assert m[ps[k].guid := ps[k].interface] == On(base, h) + Pairs(ps[..k + 1]);
    if k > 0 {
      PairsKeys(ps[..k], ps[0].guid);
      assert ps[..k][0].guid == ps[0].guid;
      assert ps[0].guid in m;
    }
  }

  lemma PutOnTop(base: Database, h: Handle, m: map<Guid, Interface>, g: Guid, x: Interface)
    ensures Put(With(base, h, m), h, g, x) == With(base, h, m[g := x])
  {
    OnAfterWith(base, h, m);
    hide On;
    assert g in m[g := x];
    assert (base - {h})[h := m[g := x]] == base[h := m[g := x]];
  }

  lemma OneMoreInstallable(base: Database, given: Option<Handle>, ps: seq<Pair>, k: nat)
    requires k < |ps| && Installable(base, given, ps[..k])
    ensures Installable(base, given, ps[..k + 1]) <==>
      && ps[k].guid !in Pairs(ps[..k])
      && (given.Some? ==> given.value in base && ps[k].guid !in On(base, given.value))
    ensures Installable(base, given, ps) ==> Installable(base, given, ps[..k + 1])
  {
    PairsKeys(ps[..k], ps[k].guid);
    var q := ps[..k + 1];
    assert forall i :: 0 <= i < k ==> q[i] == ps[..k][i];
    assert q[k] == ps[k];
  }

  lemma OneLessInstalled(base: Database, h: Handle, ps: seq<Pair>)
    requires ps != [] && DistinctGuids(ps) && ps[0].guid !in On(base, h)
    ensures var db := Installed(base, h, ps);
      && h in db && ps[0].guid in db[h] && db[h][ps[0].guid] == ps[0].interface
      && With(db, h, db[h] - {ps[0].guid}) == Installed(base, h, ps[1..])
  {
    PairsTail(ps);
    var m := On(base, h) + Pairs(ps);
    assert ps[0].guid in m;
    assert m - {ps[0].guid} == On(base, h) + Pairs(ps[1..]);
    assert With(With(base, h, m), h, m - {ps[0].guid}) == With(base, h, m - {ps[0].guid});
  }

  // Takes the first `count` of the pairs out again, first to last. Like every change of several
  // interfaces, it is made with notifications held off.
  method RollBack(bs: BootServices, h: Handle, pairs: seq<Pair>, count: nat, ghost base: Database)
    requires bs.Valid() && bs.tpl == 16 && NoEmptyHandles(base) && count <= |pairs|
    requires DistinctGuids(pairs[..count]) && forall i :: 0 <= i < count ==> pairs[i].guid !in On(base, h)
    requires bs.db == Installed(base, h, pairs[..count])
    modifies bs`db
    ensures bs.Valid() && bs.db == base
  {
    hide Installed, With;
    var index := count;
    ghost var k := 0;
    ghost var all := pairs[..count];
    assert all[0..] == all;
    while index != 0
      invariant 0 <= k <= count && index == count - k && bs.Valid()
      invariant bs.db == Installed(base, h, all[k..])
      decreases index
    {
      assert DistinctGuids(all[k..]) && all[k..][0] == pairs[k] && all[k..][1..] == all[k + 1..];
      OneLessInstalled(base, h, all[k..]);
      var pair := pairs[count - index];
      var status := bs.UninstallProtocolInterface(h, pair.guid, pair.interface);
      k := k + 1;
      index := index - 1;
    }
    assert all[k..] == [];
    NothingInstalled(base, h);
  }

  // What stopped the installation behind `completed` pairs: a pair that may not go in, or a request
  // for memory that was not granted.
  ghost predicate StoppedInstalling(status: Status, granted: nat -> bool, from: nat, db: Database,
                                    given: Option<Handle>, ps: seq<Pair>, completed: nat)
  {
    && completed < |ps| && Installable(db, given, ps[..completed]) && AllGranted(granted, from, completed)
    && if Installable(db, given, ps[..completed + 1]) then status == OutOfResources && !granted(from + completed)
       else status == InvalidParameter
  }

  method LibInstallProtocolInterfaces(bs: BootServices, given: Option<Handle>, pairs: seq<Pair>)
    returns (status: Status, handle: Option<Handle>, ghost completed: nat)
    requires bs.Valid() && bs.tpl <= TPL_NOTIFY
    modifies bs
    ensures bs.Valid() && bs.tpl == old(bs.tpl)
    ensures status.IsError() ==> bs.db == old(bs.db) && handle == given
    ensures status.IsError() ==>
      StoppedInstalling(status, bs.granted, old(bs.requests), old(bs.db), given, pairs, completed)
    ensures status == Success <==>
      Installable(old(bs.db), given, pairs) && AllGranted(bs.granted, old(bs.requests), |pairs|)
    ensures status == Success && pairs == [] ==> bs.db == old(bs.db) && handle == given
    ensures status == Success && pairs != [] ==>
      handle.Some? && InstalledOn(old(bs.db), given, handle.value) && bs.db == Installed(old(bs.db), handle.value, pairs)
  {
    hide Installed, Installable, AllGranted, InstalledOn, Pairs, InstalledUpTo, StoppedInstalling;
    var oldTpl := bs.RaiseTPL(TPL_NOTIFY);
    var oldHandle := given;
    var index;
    status, handle, index := InstallUntilError(bs, given, pairs);
    completed := index;
    UpToMeans(bs.db, old(bs.db), given, handle, pairs, index);
    if status.IsError() {
      if index > 0 {
        InstallableMeans(old(bs.db), given, handle.value, pairs, index);
        RollBack(bs, handle.value, pairs, index, old(bs.db));
      }
      handle := oldHandle;
    }
    bs.RestoreTPL(oldTpl);
  }

  lemma NoneEmpty(bs: BootServices)
    requires bs.Valid()
    ensures NoEmptyHandles(bs.db)
  {}

  lemma InstallingStopped(status: Status, granted: nat -> bool, from: nat, db: Database, given: Option<Handle>,
                          ps: seq<Pair>, k: nat)
    requires k < |ps| && Installable(db, given, ps[..k]) && AllGranted(granted, from, k)
    requires if Installable(db, given, ps[..k + 1]) then status == OutOfResources && !granted(from + k)
             else status == InvalidParameter
    ensures StoppedInstalling(status, granted, from, db, given, ps, k)
  {
    hide Installable, AllGranted;
  }

  // Pairs 0 to k - 1 have gone in, on the handle given or on a new one.
  ghost predicate InstalledUpTo(db: Database, base: Database, given: Option<Handle>, handle: Option<Handle>,
                                ps: seq<Pair>, k: nat)
    requires k <= |ps|
  {
    && Installable(base, given, ps[..k])
    && (k == 0 ==> handle == given && db == base)
    && (k > 0 ==> handle.Some? && InstalledOn(base, given, handle.value) && db == Installed(base, handle.value, ps[..k]))
  }

  // The installing loop: `index` pairs went in before it stopped.
  method InstallUntilError(bs: BootServices, given: Option<Handle>, pairs: seq<Pair>)
    returns (status: Status, handle: Option<Handle>, index: nat)
    requires bs.Valid() && bs.tpl == 16
    modifies bs`db, bs`nextHandle, bs`requests
    ensures bs.Valid() && index <= |pairs| && InstalledUpTo(bs.db, old(bs.db), given, handle, pairs, index)
    ensures status == Success ==> index == |pairs| && pairs[..index] == pairs
    ensures status.IsError() ==> StoppedInstalling(status, bs.granted, old(bs.requests), old(bs.db), given, pairs, index)
    ensures status == Success <==>
      Installable(old(bs.db), given, pairs) && AllGranted(bs.granted, old(bs.requests), |pairs|)
  {
    hide Installed, Installable, InstalledUpTo, Accepted, Put, AllGranted, BootServices.Valid, NoEmptyHandles;
    hide StoppedInstalling;
    handle, index, status := given, 0, Success;
    ghost var base := bs.db;
    NothingToInstall(base, given, pairs);
    NoneGranted(bs.granted, bs.requests, |pairs|);
    NoneEmpty(bs);
    while status == Success && index < |pairs|
      invariant 0 <= index <= |pairs| && status == Success && bs.Valid()
      invariant InstalledUpTo(bs.db, base, given, handle, pairs, index)
      invariant AllGranted(bs.granted, old(bs.requests), index) && bs.requests == old(bs.requests) + index
      decreases |pairs| - index
    {
      var pair := pairs[index];
      InstallAttempt(bs.db, base, given, handle, pairs, index);
      UpToMeans(bs.db, base, given, handle, pairs, index);
      OneMoreGranted(bs.granted, old(bs.requests), index, |pairs|);
      ghost var db, before := bs.db, handle;
      status, handle := bs.InstallProtocolInterface(handle, pair.guid, pair.interface);
      if status.IsError() {
        InstallingStopped(status, bs.granted, old(bs.requests), base, given, pairs, index);
        return;
      }
      OneMoreUpTo(db, bs.db, base, given, before, handle, pairs, index);
      index := index + 1;
    }
    assert pairs[..index] == pairs;
    UpToMeans(bs.db, base, given, handle, pairs, index);
  }

  lemma UpToMeans(db: Database, base: Database, given: Option<Handle>, handle: Option<Handle>, ps: seq<Pair>, k: nat)
    requires k <= |ps| && InstalledUpTo(db, base, given, handle, ps, k)
    ensures Installable(base, given, ps[..k])
    ensures k == 0 ==> handle == given && db == base
    ensures k > 0 ==>
      handle.Some? && InstalledOn(base, given, handle.value) && db == Installed(base, handle.value, ps[..k])
  {}

  lemma OneMoreUpTo(db: Database, db': Database, base: Database, given: Option<Handle>, before: Option<Handle>,
                    handle: Option<Handle>, ps: seq<Pair>, k: nat)
    requires k < |ps| && InstalledUpTo(db, base, given, before, ps, k) && NoEmptyHandles(base)
    requires Accepted(db, before, ps[k].guid)
    requires handle.Some? && (if before.Some? then handle == before else handle.value !in db)
    requires db' == Put(db, handle.value, ps[k].guid, ps[k].interface)
    ensures InstalledUpTo(db', base, given, handle, ps, k + 1)
  {
    hide Installable, Put, Installed;
    InstallAttempt(db, base, given, before, ps, k);
    FirstOrNext(base, given, before, handle.value, ps, k);
  }

  lemma NothingToInstall(base: Database, given: Option<Handle>, ps: seq<Pair>)
    ensures Installable(base, given, ps[..0]) && InstalledUpTo(base, base, given, given, ps, 0)
  {}

  // The firmware accepts pair k exactly when it may be installed after the pairs before it.
  lemma InstallAttempt(db: Database, base: Database, given: Option<Handle>, handle: Option<Handle>, ps: seq<Pair>, k: nat)
    requires k < |ps| && InstalledUpTo(db, base, given, handle, ps, k)
    ensures Accepted(db, handle, ps[k].guid) <==> Installable(base, given, ps[..k + 1])
    ensures Installable(base, given, ps) ==> Installable(base, given, ps[..k + 1])
  {
    hide Installed, With, Put, Installable;
    OneMoreInstallable(base, given, ps, k);
    PairsKeys(ps[..k], ps[k].guid);
    if k > 0 {
      OneMoreInstalled(base, handle.value, ps, k);
      assert On(db, handle.value) == db[handle.value];
    }
  }

  lemma FirstOrNext(base: Database, given: Option<Handle>, before: Option<Handle>, h: Handle, ps: seq<Pair>, k: nat)
    requires k < |ps| && NoEmptyHandles(base)
    requires k == 0 ==> before == given
    requires k > 0 ==> before == Some(h)
    ensures Put(if k == 0 then base else Installed(base, h, ps[..k]), h, ps[k].guid, ps[k].interface)
         == Installed(base, h, ps[..k + 1])
  {
    hide Put, Installed, Pairs;
    OneMoreInstalled(base, h, ps, k);
    if k == 0 {
      assert ps[..0] == [];
      NothingInstalled(base, h);
    }
  }

  lemma InstallableMeans(base: Database, given: Option<Handle>, h: Handle, ps: seq<Pair>, k: nat)
    requires 0 < k <= |ps| && Installable(base, given, ps[..k]) && InstalledOn(base, given, h)
    ensures DistinctGuids(ps[..k]) && forall i :: 0 <= i < k ==> ps[i].guid !in On(base, h)
  {
    assert forall i :: 0 <= i < k ==> ps[..k][i] == ps[i];
  }

  // ---- reinstalling ----

  function Redo(db: Database, h: Handle, c: Change): Database {
    if Carries(db, h, c.guid, c.before) then Put(db, h, c.guid, c.after) else db
  }

  function RedoAll(db: Database, h: Handle, cs: seq<Change>): Database
    decreases |cs|
  {
    if cs == [] then db else RedoAll(Redo(db, h, cs[0]), h, cs[1..])
  }

  function Inverse(cs: seq<Change>): (r: seq<Change>)
    ensures |r| == |cs| && forall i :: 0 <= i < |cs| ==> r[i] == Change(cs[i].guid, cs[i].after, cs[i].before)
  {
    seq(|cs|, i requires 0 <= i < |cs| => Change(cs[i].guid, cs[i].after, cs[i].before))
  }

  // Every change finds the interface it replaces.
  predicate AllCarried(db: Database, h: Handle, cs: seq<Change>)
    decreases |cs|
  {
    if cs == [] then true else Carries(db, h, cs[0].guid, cs[0].before) && AllCarried(Redo(db, h, cs[0]), h, cs[1..])
  }

  lemma {:induction false} RedoAllSnoc(db: Database, h: Handle, cs: seq<Change>, k: nat)
    requires k < |cs|
    ensures RedoAll(db, h, cs[..k + 1]) == Redo(RedoAll(db, h, cs[..k]), h, cs[k])
    ensures AllCarried(db, h, cs[..k + 1]) <==>
      AllCarried(db, h, cs[..k]) && Carries(RedoAll(db, h, cs[..k]), h, cs[k].guid, cs[k].before)
    decreases k
  {
    hide Redo, Carries;
    assert cs[..k + 1][1..] == cs[1..][..k];
    if k > 0 {
      assert cs[..k][1..] == cs[1..][..k - 1];
      RedoAllSnoc(Redo(db, h, cs[0]), h, cs[1..], k - 1);
    } else {
      assert cs[..1][1..] == [];
    }
  }

  lemma {:induction false} AllCarriedPrefix(db: Database, h: Handle, cs: seq<Change>, k: nat)
    requires k <= |cs| && AllCarried(db, h, cs)
    ensures AllCarried(db, h, cs[..k])
    decreases k
  {
    hide Redo, Carries;
    if k > 0 {
      AllCarriedPrefix(Redo(db, h, cs[0]), h, cs[1..], k - 1);
      assert cs[..k][1..] == cs[1..][..k - 1];
    }
  }

  lemma WholeThenPart(db: Database, h: Handle, cs: seq<Change>, k: nat)
    requires k <= |cs|
    ensures AllCarried(db, h, cs) ==> AllCarried(db, h, cs[..k])
  {
    if AllCarried(db, h, cs) { AllCarriedPrefix(db, h, cs, k); }
  }

  // What stopped the changes behind `completed` of them: one that did not find the interface it
  // replaces, or a request for memory that was not granted.
  ghost predicate StoppedReinstalling(status: Status, granted: nat -> bool, from: nat, db: Database, h: Handle,
                                      cs: seq<Change>, completed: nat)
  {
    && completed < |cs| && AllCarried(db, h, cs[..completed]) && AllGranted(granted, from, completed)
    && if AllCarried(db, h, cs[..completed + 1]) then status == OutOfResources && !granted(from + completed)
       else status == NotFound
  }

  // `h` is the handle handed to the boot service. The undo steps are granted their memory.
  method LibReinstallProtocolInterfaces(bs: BootServices, h: Handle, changes: seq<Change>)
    returns (status: Status, ghost completed: nat)
    requires bs.Valid() && bs.tpl <= TPL_NOTIFY
    modifies bs
    ensures bs.Valid() && bs.tpl == old(bs.tpl) && completed <= |changes|
    ensures status == Success <==>
      AllCarried(old(bs.db), h, changes) && AllGranted(bs.granted, old(bs.requests), |changes|)
    ensures status == Success ==> bs.db == ReplacedAll(old(bs.db), h, changes)
    ensures status.IsError() ==>
      && StoppedReinstalling(status, bs.granted, old(bs.requests), old(bs.db), h, changes, completed)
      && bs.db == RedoAll(RedoAll(old(bs.db), h, changes[..completed]), h, Inverse(changes[..completed]))
    ensures status.IsError() && DistinctChanges(changes[..completed]) ==> bs.db == old(bs.db)
  {
    hide RedoAll, AllCarried, AllGranted, ReplacedAll, Inverse, DistinctChanges, StoppedReinstalling;
    var oldTpl := bs.RaiseTPL(TPL_NOTIFY);
    var index: nat;
    status, index := ReinstallUntilError(bs, h, changes);
    completed := index;
    assert changes[..|changes|] == changes;
    if status.IsError() {
      UndoChanges(bs, h, changes, index);
      if DistinctChanges(changes[..index]) {
        UndoRestores(old(bs.db), h, changes[..index]);
      }
    } else {
      RedoAllMeans(old(bs.db), h, changes);
    }
    bs.RestoreTPL(oldTpl);
  }

  // The interfaces a handle ends up with: for each protocol the last one it was given.
  function After(cs: seq<Change>): map<Guid, Interface>
    decreases |cs|
  {
    if cs == [] then map[] else After(cs[..|cs| - 1])[cs[|cs| - 1].guid := cs[|cs| - 1].after]
  }

  lemma {:induction false} AfterIsLast(cs: seq<Change>, g: Guid)
    ensures g in After(cs) <==> exists i :: 0 <= i < |cs| && cs[i].guid == g
    ensures g in After(cs) ==>
      exists i :: 0 <= i < |cs| && cs[i].guid == g && After(cs)[g] == cs[i].after &&
        forall j :: i < j < |cs| ==> cs[j].guid != g
    decreases |cs|
  {
    if cs != [] {
      var front := cs[..|cs| - 1];
      AfterIsLast(front, g);
      if cs[|cs| - 1].guid == g {
        assert After(cs)[g] == cs[|cs| - 1].after;
      } else if i :| 0 <= i < |front| && front[i].guid == g && After(front)[g] == front[i].after
                     && forall j :: i < j < |front| ==> front[j].guid != g {
        assert cs[i].guid == g && After(cs)[g] == cs[i].after;
      }
    }
  }

  // The database with those interfaces on h, and nothing else changed.
  function ReplacedAll(db: Database, h: Handle, cs: seq<Change>): Database {
    if h in db then db[h := db[h] + After(cs)] else db
  }

  lemma {:induction false} RedoAllMeans(db: Database, h: Handle, cs: seq<Change>)
    requires AllCarried(db, h, cs)
    ensures RedoAll(db, h, cs) == ReplacedAll(db, h, cs) && (cs != [] ==> h in db)
    decreases |cs|
  {
    if cs == [] {
      assert h in db ==> db[h] + map[] == db[h];
    } else {
      var k := |cs| - 1;
      var front := cs[..k];
      assert cs[..k + 1] == cs;
      RedoAllSnoc(db, h, cs, k);
      RedoAllMeans(db, h, front);
      hide RedoAll, AllCarried;
      assert db[h] + After(cs) == (db[h] + After(front))[cs[k].guid := cs[k].after];
    }
  }

  method ReinstallUntilError(bs: BootServices, h: Handle, changes: seq<Change>) returns (status: Status, index: nat)
    requires bs.Valid() && bs.tpl == 16
    modifies bs`db, bs`requests
    ensures bs.Valid() && index <= |changes|
    ensures AllCarried(old(bs.db), h, changes[..index]) && bs.db == RedoAll(old(bs.db), h, changes[..index])
    ensures status == Success ==> index == |changes|
    ensures status.IsError() ==>
      StoppedReinstalling(status, bs.granted, old(bs.requests), old(bs.db), h, changes, index)
    ensures status == Success <==>
      AllCarried(old(bs.db), h, changes) && AllGranted(bs.granted, old(bs.requests), |changes|)
  {
    hide RedoAll, AllCarried, Carries, Put, AllGranted, BootServices.Valid, StoppedReinstalling, Redo;
    ghost var base := bs.db;
    index, status := 0, Success;
    assert changes[..0] == [];
    NoneGranted(bs.granted, bs.requests, |changes|);
    NoChanges(base, h);
    while status == Success && index < |changes|
      invariant index <= |changes| && status == Success && bs.Valid()
      invariant AllCarried(base, h, changes[..index]) && bs.db == RedoAll(base, h, changes[..index])
      invariant AllGranted(bs.granted, old(bs.requests), index) && bs.requests == old(bs.requests) + index
      decreases |changes| - index
    {
      RedoAllSnoc(base, h, changes, index);
      WholeThenPart(base, h, changes, index + 1);
      OneMoreGranted(bs.granted, old(bs.requests), index, |changes|);
      var c := changes[index];
      CarriedRedo(bs.db, h, c);
      status := bs.ReinstallProtocolInterface(h, c.guid, c.before, c.after, false);
      if status.IsError() {
        ReinstallingStopped(status, bs.granted, old(bs.requests), base, h, changes, index);
        return;
      }
      index := index + 1;
    }
    assert changes[..index] == changes;
  }

  lemma CarriedRedo(db: Database, h: Handle, c: Change)
    ensures Carries(db, h, c.guid, c.before) ==> Redo(db, h, c) == Put(db, h, c.guid, c.after)
  {}

  lemma ReinstallingStopped(status: Status, granted: nat -> bool, from: nat, db: Database, h: Handle, cs: seq<Change>,
                            k: nat)
    requires k < |cs| && AllCarried(db, h, cs[..k]) && AllGranted(granted, from, k)
    requires if AllCarried(db, h, cs[..k + 1]) then status == OutOfResources && !granted(from + k)
             else status == NotFound
    ensures StoppedReinstalling(status, granted, from, db, h, cs, k)
  {
    hide AllCarried, AllGranted;
  }

  lemma NoChanges(db: Database, h: Handle)
    ensures RedoAll(db, h, []) == db && AllCarried(db, h, [])
  {}

  method UndoChanges(bs: BootServices, h: Handle, changes: seq<Change>, count: nat)
    requires bs.Valid() && bs.tpl == 16 && count <= |changes|
    modifies bs`db, bs`requests
    ensures bs.Valid() && bs.db == RedoAll(old(bs.db), h, Inverse(changes[..count]))
  {
    var index := count;
    ghost var inverse, k := Inverse(changes[..count]), 0;
    assert inverse[..0] == [];
    hide RedoAll;
    NoChanges(bs.db, h);
    while index != 0
      invariant 0 <= k <= count && index == count - k && bs.Valid()
      invariant bs.db == RedoAll(old(bs.db), h, inverse[..k])
      decreases index
    {
      RedoAllSnoc(old(bs.db), h, inverse, k);
      var c := changes[count - index];
      var status := bs.ReinstallProtocolInterface(h, c.guid, c.after, c.before, true);
      k := k + 1;
      index := index - 1;
    }
    assert inverse[..k] == inverse;
  }

  ghost predicate DistinctChanges(cs: seq<Change>) {
    forall i, j :: 0 <= i < j < |cs| ==> cs[i].guid != cs[j].guid
  }

  // The routine hands the services the address of its caller's handle: unless that happens to be a
  // handle of the database, the first change is refused and nothing is done.
  lemma AddressIsNoHandle(db: Database, address: Handle, cs: seq<Change>)
    requires address !in db && cs != []
    ensures !AllCarried(db, address, cs)
    ensures forall k :: 0 <= k <= |cs| && AllCarried(db, address, cs[..k]) ==> k == 0
  {
    forall k | 0 < k <= |cs| ensures !AllCarried(db, address, cs[..k]) {
      assert cs[..k][0] == cs[0];
    }
  }

  lemma PutCommutes(db: Database, h: Handle, g: Guid, x: Interface, c: Change)
    requires h in db && c.guid != g
    ensures Redo(Put(db, h, g, x), h, c) == Put(Redo(db, h, c), h, g, x)
  {
    var m: map<Guid, Interface> := db[h];
    assert m[g := x][c.guid := c.after] == m[c.guid := c.after][g := x];
    assert db[h := m[g := x]][h := m[g := x][c.guid := c.after]] == db[h := m[g := x][c.guid := c.after]];
  }

  lemma {:induction false} PutCommutesWithAll(db: Database, h: Handle, g: Guid, x: Interface, cs: seq<Change>)
    requires h in db && forall i :: 0 <= i < |cs| ==> cs[i].guid != g
    ensures RedoAll(Put(db, h, g, x), h, cs) == Put(RedoAll(db, h, cs), h, g, x) && h in RedoAll(db, h, cs)
    decreases |cs|
  {
    if cs != [] {
      PutCommutes(db, h, g, x, cs[0]);
      assert h in Redo(db, h, cs[0]);
      hide Redo, Put;
      PutCommutesWithAll(Redo(db, h, cs[0]), h, g, x, cs[1..]);
    }
  }

  // For pairwise distinct protocols, undoing first to last restores the database.
  lemma {:induction false} UndoRestores(db: Database, h: Handle, cs: seq<Change>)
    requires DistinctChanges(cs) && AllCarried(db, h, cs)
    ensures RedoAll(RedoAll(db, h, cs), h, Inverse(cs)) == db
    decreases |cs|
  {
    if cs != [] {
      var c, rest := cs[0], cs[1..];
      var tail := RedoAll(db, h, rest);
      PutCommutesWithAll(db, h, c.guid, c.after, rest);
      PutCommutesWithAll(db, h, c.guid, c.before, rest);
      PutBack(db, h, c);
      PutBack(tail, h, c);
      CarriedWithout(db, h, c, rest);
      assert Inverse(cs)[1..] == Inverse(rest);
      assert RedoAll(db, h, cs) == Put(tail, h, c.guid, c.after);
      assert Redo(Put(tail, h, c.guid, c.after), h, Inverse(cs)[0]) == tail by {
        assert Put(Put(tail, h, c.guid, c.after), h, c.guid, c.before) == Put(tail, h, c.guid, c.before);
      }
      UndoRestores(db, h, rest);
    }
  }

  lemma PutBack(db: Database, h: Handle, c: Change)
    requires h in db
    ensures Put(Put(db, h, c.guid, c.after), h, c.guid, c.before) == Put(db, h, c.guid, c.before)
    ensures Carries(db, h, c.guid, c.before) ==> Put(db, h, c.guid, c.before) == db
    ensures Carries(Put(db, h, c.guid, c.after), h, c.guid, c.after)
  {
    assert db[h][c.guid := c.after][c.guid := c.before] == db[h][c.guid := c.before];
    if Carries(db, h, c.guid, c.before) { assert db[h][c.guid := c.before] == db[h]; }
  }

  // The later changes find their interfaces without the first one, too.
  lemma {:induction false} CarriedWithout(db: Database, h: Handle, c: Change, cs: seq<Change>)
    requires h in db && forall i :: 0 <= i < |cs| ==> cs[i].guid != c.guid
    requires AllCarried(Put(db, h, c.guid, c.after), h, cs)
    ensures AllCarried(db, h, cs)
    decreases |cs|
  {
    if cs != [] {
      PutCommutes(db, h, c.guid, c.after, cs[0]);
      CarriedWithout(Redo(db, h, cs[0]), h, c, cs[1..]);
    }
  }

  // Undoing puts the interfaces back, whatever they are.
  ghost predicate UndoIsSafe(guids: seq<Guid>) {
    forall db: Database, h: Handle, cs: seq<Change> ::
      Named(cs, guids) && AllCarried(db, h, cs) ==> RedoAll(RedoAll(db, h, cs), h, Inverse(cs)) == db
  }

  predicate Named(cs: seq<Change>, guids: seq<Guid>) {
    |cs| == |guids| && forall i :: 0 <= i < |cs| ==> cs[i].guid == guids[i]
  }

  // A list of protocols is safe to undo exactly when none is listed twice.
  lemma UndoIsSafeIff(guids: seq<Guid>)
    ensures UndoIsSafe(guids) <==> forall i, j :: 0 <= i < j < |guids| ==> guids[i] != guids[j]
  {
    if i, j :| 0 <= i < j < |guids| && guids[i] == guids[j] {
      ListedTwice(guids, i, j);
      assert Named(Staged(guids, i, j), guids);
      assert !UndoIsSafe(guids);
    } else {
      forall db: Database, h: Handle, cs: seq<Change> | Named(cs, guids) && AllCarried(db, h, cs)
        ensures RedoAll(RedoAll(db, h, cs), h, Inverse(cs)) == db
      {
        UndoRestores(db, h, cs);
      }
    }
  }

  // The interface of the protocol listed at places i and j, before change k: 0, then 1, then 2.
  function Level(i: nat, j: nat, k: nat): Interface {
    if k <= i then 0 else if k <= j then 1 else 2
  }

  // All protocols on handle 0 with interface 0, but g with interface v.
  function Stage(guids: seq<Guid>, g: Guid, v: Interface): Database {
    map[0 := AllZero(guids)[g := v]]
  }

  function AllZero(guids: seq<Guid>): map<Guid, Interface> {
    map x | x in guids :: 0
  }

  function StagedChange(guids: seq<Guid>, i: nat, j: nat, k: nat): Change
    requires i < j < |guids| && k < |guids|
  {
    if guids[k] == guids[i] then Change(guids[k], Level(i, j, k), Level(i, j, k + 1)) else Change(guids[k], 0, 0)
  }

  // The protocol moves up at its places i and j; every other change replaces an interface by itself.
  function Staged(guids: seq<Guid>, i: nat, j: nat): (cs: seq<Change>)
    requires i < j < |guids|
    ensures |cs| == |guids| && forall k :: 0 <= k < |cs| ==> cs[k] == StagedChange(guids, i, j, k)
  {
    seq(|guids|, k requires 0 <= k < |guids| => StagedChange(guids, i, j, k))
  }

  lemma RedoOnStage(guids: seq<Guid>, g: Guid, v: Interface, c: Change)
    requires g in guids && c.guid in guids && (c.guid != g ==> c.before == 0 && c.after == 0)
    ensures Carries(Stage(guids, g, v), 0, c.guid, c.before) <==> c.guid != g || c.before == v
    ensures Redo(Stage(guids, g, v), 0, c) == Stage(guids, g, if c.guid == g && c.before == v then c.after else v)
  {
    var m: map<Guid, Interface> := AllZero(guids);
    var db := Stage(guids, g, v);
    assert On(db, 0) == m[g := v];
    if c.guid != g {
      assert m[g := v][c.guid := 0] == m[g := v];
      assert db[0 := m[g := v]] == db;
    } else if c.before == v {
      assert m[g := v][g := c.after] == m[g := c.after];
      assert db[0 := m[g := c.after]] == Stage(guids, g, c.after);
    }
  }

  lemma {:induction false} StageAfter(guids: seq<Guid>, i: nat, j: nat, k: nat)
    requires i < j < |guids| && guids[i] == guids[j] && k <= |guids|
    ensures AllCarried(Stage(guids, guids[i], 0), 0, Staged(guids, i, j)[..k])
    ensures RedoAll(Stage(guids, guids[i], 0), 0, Staged(guids, i, j)[..k]) == Stage(guids, guids[i], Level(i, j, k))
    decreases k
  {
    hide Stage, Redo, Carries, RedoAll, AllCarried;
    var cs, start := Staged(guids, i, j), Stage(guids, guids[i], 0);
    NoChanges(start, 0);
    if k == 0 {
      assert cs[..0] == [];
    } else {
      StageAfter(guids, i, j, k - 1);
      RedoAllSnoc(start, 0, cs, k - 1);
      RedoOnStage(guids, guids[i], Level(i, j, k - 1), cs[k - 1]);
    }
  }

  // Undoing, only the change at place j still finds its interface.
  lemma {:induction false} StageUndone(guids: seq<Guid>, i: nat, j: nat, k: nat)
    requires i < j < |guids| && guids[i] == guids[j] && k <= |guids|
    ensures RedoAll(Stage(guids, guids[i], 2), 0, Inverse(Staged(guids, i, j))[..k])
         == Stage(guids, guids[i], if k <= j then 2 else 1)
    decreases k
  {
    hide Stage, Redo, Carries, RedoAll;
    var inverse, end := Inverse(Staged(guids, i, j)), Stage(guids, guids[i], 2);
    NoChanges(end, 0);
    if k == 0 {
      assert inverse[..0] == [];
    } else {
      StageUndone(guids, i, j, k - 1);
      RedoAllSnoc(end, 0, inverse, k - 1);
      RedoOnStage(guids, guids[i], if k - 1 <= j then 2 else 1, inverse[k - 1]);
    }
  }

  lemma ListedTwice(guids: seq<Guid>, i: nat, j: nat)
    requires i < j < |guids| && guids[i] == guids[j]
    ensures var db, cs := Stage(guids, guids[i], 0), Staged(guids, i, j);
      AllCarried(db, 0, cs) && RedoAll(RedoAll(db, 0, cs), 0, Inverse(cs)) != db
  {
    hide RedoAll, AllCarried, Inverse;
    var n, cs := |guids|, Staged(guids, i, j);
    StageAfter(guids, i, j, n);
    StageUndone(guids, i, j, n);
    assert cs[..n] == cs && Inverse(cs)[..n] == Inverse(cs);
    assert Stage(guids, guids[i], 1)[0][guids[i]] == 1 && Stage(guids, guids[i], 0)[0][guids[i]] == 0;
  }

  // For instance, with a protocol listed twice: 0 becomes 1 becomes 2, and is left at 1.
  lemma UndoMayNotRestore()
    ensures var db: Database := map[7 := map[5 := 0]];
      var cs := [Change(5, 0, 1), Change(5, 1, 2)];
      && AllCarried(db, 7, cs)
      && RedoAll(RedoAll(db, 7, cs), 7, Inverse(cs)) == map[7 := map[5 := 1]]
  {
    var db: Database := map[7 := map[5 := 0]];
    var db1: Database := map[7 := map[5 := 1]];
    var db2: Database := map[7 := map[5 := 2]];
    var cs := [Change(5, 0, 1), Change(5, 1, 2)];
    assert cs[1..] == [Change(5, 1, 2)] && cs[1..][1..] == [];
    assert map[5 := 0][5 := 1] == map[5 := 1] && map[5 := 1][5 := 2] == map[5 := 2] && map[5 := 2][5 := 1] == map[5 := 1];
    assert Redo(db, 7, cs[0]) == db1 && Redo(db1, 7, cs[1]) == db2;
    var inverse := Inverse(cs);
    assert inverse == [Change(5, 1, 0), Change(5, 2, 1)];
    assert inverse[1..] == [Change(5, 2, 1)] && inverse[1..][1..] == [];
    assert Redo(db2, 7, inverse[0]) == db2 && Redo(db2, 7, inverse[1]) == db1;
    assert RedoAll(db, 7, cs) == RedoAll(db1, 7, cs[1..]) == RedoAll(db2, 7, cs[1..][1..]) == db2;
    assert RedoAll(db2, 7, inverse) == RedoAll(db2, 7, inverse[1..]) == RedoAll(db1, 7, inverse[1..][1..]) == db1;
  }
}
