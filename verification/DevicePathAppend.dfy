// Building new device paths out of old ones.
module DevicePathAppend {
  import opened Bytes
  import opened Options
  import opened DevicePathNodes
  import opened DevicePath

  // ---- appending an instance ----

  // The path with its end turned into the end of an instance.
  function AsInstance(ns: seq<Node>): (r: seq<Node>)
    requires IsPath(ns)
    ensures |r| == |ns|
  {
    var last := ns[|ns| - 1];
    ns[..|ns| - 1] + [Node(last.kind, END_INSTANCE, last.payload)]
  }

  lemma JoinIsPath(ns: seq<Node>, ms: seq<Node>)
    requires IsPath(ns) && IsPath(ms)
    ensures IsPath(AsInstance(ns) + ms)
  {
    var a := AsInstance(ns);
    assert a[|ns| - 1].sub == END_INSTANCE;
  }

  lemma {:induction false} JoinedInstances(ns: seq<Node>, ms: seq<Node>)
    requires IsPath(ns) && IsPath(ms)
    ensures IsPath(AsInstance(ns) + ms)
    ensures Instances(AsInstance(ns) + ms) == Instances(ns) + Instances(ms)
    decreases |ns|
  {
    hide Instances, Enumerated, IsEnd, IsPath, EndIndex, StopIndex, AsInstance;
    var k := EndIndex(ns);
    JoinIsPath(ns, ms);
    FirstInstance(ns);
    FirstInstance(AsInstance(ns) + ms);
    SameEndIndex(ns, ms);
    if !IsEnd(ns[k]) {
      JoinedInstances(ns[k + 1..], ms);
    }
  }

  // Instance by instance, the joined path starts as the old one did.
  lemma SameEndIndex(ns: seq<Node>, ms: seq<Node>)
    requires IsPath(ns) && IsPath(ms) && IsPath(AsInstance(ns) + ms)
    ensures var j, k := AsInstance(ns) + ms, EndIndex(ns);
      && EndIndex(j) == k && j[..k] == ns[..k] && !IsEnd(j[k])
      && if IsEnd(ns[k]) then j[k + 1..] == ms
         else k + 1 < |ns| && IsPath(ns[k + 1..]) && j[k + 1..] == AsInstance(ns[k + 1..]) + ms
  {
    var j, k := AsInstance(ns) + ms, EndIndex(ns);
    assert forall i :: 0 <= i <= k ==> IsEndType(j[i]) == IsEndType(ns[i]);
    assert j[..k] == ns[..k];
    if IsEnd(ns[k]) {
      assert k + 1 == |ns|;
      assert j[k + 1..] == ms;
    } else {
      RestIsPath(ns, k);
      TailAsInstance(ns, k + 1);
      hide IsPath;
      assert j[k + 1..] == AsInstance(ns)[k + 1..] + ms;
    }
  }

  lemma TailAsInstance(ns: seq<Node>, k: nat)
    requires IsPath(ns) && k < |ns| && IsPath(ns[k..])
    ensures AsInstance(ns)[k..] == AsInstance(ns[k..])
  {
    var m := ns[k..];
    assert m[..|m| - 1] == ns[..|ns| - 1][k..];
  }

  lemma AsInstanceSize(ns: seq<Node>)
    requires IsPath(ns)
    ensures Size(AsInstance(ns)) == Size(ns)
    ensures Encode(AsInstance(ns)) == Encode(ns)[Size(ns) - 3 := END_INSTANCE]
  {
    var k := |ns| - 1;
    var a := AsInstance(ns);
    SizeSplit(ns, k);
    SizeSplit(a, k);
    assert a[..k] == ns[..k];
    assert ns[k..] == [ns[k]] && a[k..] == [a[k]];
    EncodeOne(ns[k]);
    EncodeOne(a[k]);
  }

  method AppendDevicePathInstance(mem: seq<Byte>, src: Option<nat>, instance: nat, pool: bool,
                                  ghost ns: seq<Node>, ghost ms: seq<Node>)
    returns (path: array?<Byte>)
    requires src.Some? ==> IsPath(ns) && NodesAt(mem, src.value, ns) && pool
    requires IsPath(ms) && NodesAt(mem, instance, ms)
    ensures path != null <==> pool
    ensures path != null ==> fresh(path)
    ensures path != null ==> path[..] == (if src.Some? then Encode(AsInstance(ns) + ms) else Encode(ms))
  {
    hide Encode, IsPath;
    if src.None? {
      path := DuplicateDevicePath(mem, instance, pool, ms);
      return;
    }
    var srcSize := DevicePathSize(mem, src.value, ns);
    var instanceSize := DevicePathSize(mem, instance, ms);
    var ptr := new Byte[srcSize + instanceSize];
    CopyMem(ptr, 0, mem, src.value, srcSize);
    assert ptr[..srcSize] == Encode(ns);
    var devPath := TurnEnd(ptr, ns);
    CopyMem(ptr, devPath, mem, instance, instanceSize);
    EncodeAppend(AsInstance(ns), ms);
    path := ptr;
  }

  // Turns the end of the path at the start of the buffer into an instance end.
  method TurnEnd(ptr: array<Byte>, ghost ns: seq<Node>) returns (next: nat)
    requires IsPath(ns) && Size(ns) <= ptr.Length && ptr[..Size(ns)] == Encode(ns)
    modifies ptr
    ensures next == Size(ns) && ptr[..next] == Encode(AsInstance(ns))
  {
    hide Encode, IsPath, IsDevicePathEndType, DevicePathSubType, DevicePathNodeLength;
    var devPath := FindPathEnd(ptr[..], 0, ns);
    AsInstanceSize(ns);
    ghost var before := ptr[..];
    ptr[devPath + 1] := END_INSTANCE;
    assert ptr[..] == before[devPath + 1 := END_INSTANCE];
    SameLength(before, ptr[..], devPath);
    next := NextDevicePathNode(ptr[..], devPath);
  }

  lemma SameLength(b: seq<Byte>, c: seq<Byte>, o: nat)
    requires Header(b, o) && c == b[o + 1 := END_INSTANCE]
    ensures DevicePathNodeLength(c, o) == DevicePathNodeLength(b, o)
  {}

  // ---- appending a path to every instance ----

  // What the copying loop lays down for some instances.
  function LaidDown(insts: seq<seq<Node>>, ms: seq<Node>): seq<Node>
    decreases |insts|
  {
    if insts == [] then [] else insts[0] + ms + [END_INSTANCE_NODE] + LaidDown(insts[1..], ms)
  }

  // The finished copy, of the instances the walker enumerates: its last marker becomes an end-entire.
  function Appended(ns: seq<Node>, ms: seq<Node>): seq<Node>
    requires IsPath(ns)
  {
    var all := LaidDown(Enumerated(ns), ms);
    LaidDownEnds(Enumerated(ns), ms);
    all[..|all| - 1] + [END_ENTIRE_NODE]
  }

  lemma {:induction false} LaidDownEnds(insts: seq<seq<Node>>, ms: seq<Node>)
    ensures insts != [] ==>
      |LaidDown(insts, ms)| > 0 && LaidDown(insts, ms)[|LaidDown(insts, ms)| - 1] == END_INSTANCE_NODE
    decreases |insts|
  {
    if |insts| > 1 { LaidDownEnds(insts[1..], ms); }
  }

  // The bytes of the first path that reach the copy, a marker for each instance included.
  function Kept(ns: seq<Node>): nat
    requires IsPath(ns)
  {
    Size(LaidDown(Enumerated(ns), []))
  }

  lemma LaidDownFirst(inst: seq<Node>, rest: seq<seq<Node>>, ms: seq<Node>)
    ensures LaidDown([inst] + rest, ms) == inst + ms + [END_INSTANCE_NODE] + LaidDown(rest, ms)
    ensures Encode(LaidDown([inst] + rest, ms))
         == Encode(inst) + Encode(ms) + EncodeNode(END_INSTANCE_NODE) + Encode(LaidDown(rest, ms))
  {
    assert ([inst] + rest)[1..] == rest;
    hide Encode, EncodeNode;
    EncodeAppend(inst + ms + [END_INSTANCE_NODE], LaidDown(rest, ms));
    EncodeAppend(inst + ms, [END_INSTANCE_NODE]);
    EncodeAppend(inst, ms);
    EncodeOne(END_INSTANCE_NODE);
  }

  lemma {:induction false} LaidDownSize(insts: seq<seq<Node>>, ms: seq<Node>)
    ensures Size(LaidDown(insts, ms)) == Size(LaidDown(insts, [])) + |insts| * Size(ms)
    decreases |insts|
  {
    if insts != [] {
      hide Encode, EncodeNode, LaidDown;
      var rest := insts[1..];
      assert insts == [insts[0]] + rest;
      LaidDownFirst(insts[0], rest, ms);
      LaidDownFirst(insts[0], rest, []);
      NothingEncoded();
      LaidDownSize(rest, ms);
      OnceMore(|rest|, Size(ms));
    }
  }

  lemma OnceMore(n: nat, x: nat)
    ensures (n + 1) * x == x + n * x
  {}

  // No more reaches the copy than there was, and all of it when no instance is cut.
  lemma {:induction false} KeptAtMost(ns: seq<Node>)
    requires IsPath(ns)
    ensures Kept(ns) <= Size(ns)
    ensures ShortInstances(ns) ==> Kept(ns) == Size(ns)
    decreases |ns|
  {
    var k := StopIndex(ns);
    KeptStep(ns);
    SizeSplit(ns, k + 1);
    SizeTo(ns, k);
    if ShortInstances(ns) { ShortMeans(ns); }
    hide Instances, Enumerated, Encode, EncodeNode, IsPath, Kept, ShortInstances, StopIndex;
    NothingEncoded();
    if ns[k].sub != END_ENTIRE {
      KeptAtMost(ns[k + 1..]);
    }
  }

  lemma KeptStep(ns: seq<Node>)
    requires IsPath(ns)
    ensures var k := StopIndex(ns);
      if ns[k].sub == END_ENTIRE then Kept(ns) == Size(ns[..k]) + NODE_HEADER
      else k + 1 < |ns| && IsPath(ns[k + 1..]) && Kept(ns) == Size(ns[..k]) + NODE_HEADER + Kept(ns[k + 1..])
  {
    assert StopIndex(ns) < |ns|;
    hide Instances, Enumerated, Encode, IsPath, StopIndex, LaidDown;
    FirstInstance(ns);
    var k := StopIndex(ns);
    if ns[k].sub == END_ENTIRE {
      assert Enumerated(ns) == [ns[..k]] + [];
      KeptOfFirst(ns[..k], []);
      NothingLaidDown();
    } else {
      KeptOfFirst(ns[..k], Enumerated(ns[k + 1..]));
    }
  }

  lemma KeptOfFirst(inst: seq<Node>, rest: seq<seq<Node>>)
    ensures Size(LaidDown([inst] + rest, [])) == Size(inst) + NODE_HEADER + Size(LaidDown(rest, []))
  {
    LaidDownFirst(inst, rest, []);
    NothingEncoded();
    EndBytes();
    hide LaidDown, Encode, EncodeNode;
  }

  lemma NothingLaidDown()
    ensures Size(LaidDown([], [])) == 0
  {}

  // An uncut first instance ends in an end node, and the instances after it are uncut too.
  lemma ShortMeans(ns: seq<Node>)
    requires IsPath(ns) && ShortInstances(ns)
    ensures var k := StopIndex(ns);
      && k == EndIndex(ns) && NodeLength(ns[k]) == NODE_HEADER
      && if ns[k].sub == END_ENTIRE then k + 1 == |ns|
         else k + 1 < |ns| && IsPath(ns[k + 1..]) && ShortInstances(ns[k + 1..])
  {
    var k := EndIndex(ns);
    FirstInstance(ns);
    EndLength(ns, k);
    if IsEnd(ns[k]) {
      LastEnd(ns, k);
      ShortThenShort(ns[..k], []);
      assert [ns[..k]] + [] == [ns[..k]];
    } else {
      ShortThenShort(ns[..k], Instances(ns[k + 1..]));
    }
    hide Instances, Enumerated, IsPath;
  }

  lemma EndLength(ns: seq<Node>, k: nat)
    requires IsPath(ns) && k < |ns| && IsEndType(ns[k])
    ensures NodeLength(ns[k]) == NODE_HEADER
  {}

  lemma LastEnd(ns: seq<Node>, k: nat)
    requires IsPath(ns) && k < |ns| && IsEnd(ns[k])
    ensures k == |ns| - 1
  {}

  // The buffer that is asked for: n instances in x bytes, and a second path of y bytes.
  function Allocation(n: int, x: int, y: int): int { x * n + y }

  predicate Fits(ns: seq<Node>, ms: seq<Node>)
    requires IsPath(ns)
  {
    Size(LaidDown(Enumerated(ns), ms)) <= Allocation(|Enumerated(ns)|, Size(ns), Size(ms))
  }

  // What is laid down fits the buffer exactly when what is kept of the first path and one second path
  // per instance do; so when there is one instance or the second path is no longer than the first,
  // and for uncut instances exactly then.
  lemma WrittenFits(ns: seq<Node>, ms: seq<Node>)
    requires IsPath(ns)
    ensures Fits(ns, ms) <==> Kept(ns) + |Enumerated(ns)| * Size(ms) <= Size(ns) * |Enumerated(ns)| + Size(ms)
    ensures |Enumerated(ns)| == 1 || Size(ms) <= Size(ns) ==> Fits(ns, ms)
    ensures ShortInstances(ns) ==> (Fits(ns, ms) <==> |Instances(ns)| == 1 || Size(ms) <= Size(ns))
    ensures ShortInstances(ns) && |Instances(ns)| == 1 ==>
      Size(LaidDown(Enumerated(ns), ms)) == Allocation(1, Size(ns), Size(ms))
  {
    EnumeratesInstancesIff(ns);
    KeptAtMost(ns);
    LaidDownSize(Enumerated(ns), ms);
    hide Instances, Enumerated, Encode, IsPath, ShortInstances, LaidDown;
    var n, x, y := |Enumerated(ns)|, Size(ns), Size(ms);
    Surplus(n, x, y);
  }

  // For instance: of two empty instances and a path of two nodes, 32 bytes are laid down in 28.
  lemma BufferIsOverrun()
    ensures var ns, ms := [END_INSTANCE_NODE, END_ENTIRE_NODE], [PLAIN_NODE, PLAIN_NODE, END_ENTIRE_NODE];
      && IsPath(ns) && IsPath(ms) && ShortInstances(ns) && !Fits(ns, ms)
      && Size(LaidDown(Enumerated(ns), ms)) == 32 && Allocation(|Enumerated(ns)|, Size(ns), Size(ms)) == 28
  {
    var ns, ms := [END_INSTANCE_NODE, END_ENTIRE_NODE], [PLAIN_NODE, PLAIN_NODE, END_ENTIRE_NODE];
    assert IsPath(ns) && IsPath(ms);
    TwoEmptyInstances();
    EnumeratesInstancesIff(ns);
    EncodeTwo(END_INSTANCE_NODE, END_ENTIRE_NODE);
    EncodeTwo(PLAIN_NODE, PLAIN_NODE);
    EncodeOne(END_ENTIRE_NODE);
    assert ms == [PLAIN_NODE, PLAIN_NODE] + [END_ENTIRE_NODE];
    EncodeAppend([PLAIN_NODE, PLAIN_NODE], [END_ENTIRE_NODE]);
    assert NodeLength(PLAIN_NODE) == 4 && NodeLength(END_ENTIRE_NODE) == 4 && NodeLength(END_INSTANCE_NODE) == 4;
    hide Encode, EncodeNode, Instances, Enumerated, LaidDown, IsPath;
    KeptAtMost(ns);
    LaidDownSize(Enumerated(ns), ms);
  }

  lemma TwoEmptyInstances()
    ensures var ns := [END_INSTANCE_NODE, END_ENTIRE_NODE];
      IsPath(ns) && Instances(ns) == [[], []] && ShortInstances(ns)
  {
    var ns := [END_INSTANCE_NODE, END_ENTIRE_NODE];
    assert IsPath(ns) && IsPath([END_ENTIRE_NODE]);
    assert ns[..0] == [] && ns[1..] == [END_ENTIRE_NODE] && [END_ENTIRE_NODE][..0] == [];
    assert EndIndex(ns) == 0 && EndIndex([END_ENTIRE_NODE]) == 0;
    assert Instances([END_ENTIRE_NODE]) == [[]];
    assert Instances(ns) == [[]] + [[]];
  }

  lemma Surplus(n: int, x: int, y: int)
    requires n >= 1
    ensures x + n * y <= Allocation(n, x, y) <==> n == 1 || y <= x
    ensures n == 1 ==> x + n * y == Allocation(n, x, y)
  {
    SplitOne(n, x);
    SplitOne(n, y);
    if n > 1 { SameOrder(n - 1, x, y); }
  }

  lemma SplitOne(n: int, x: int)
    ensures x * n == x + (n - 1) * x && n * x == x + (n - 1) * x
  {}

  lemma SameOrder(m: int, x: int, y: int)
    requires m >= 1
    ensures m * y <= m * x <==> y <= x
  {
    if y <= x { assert m * (x - y) >= 0; } else { assert m * (y - x) >= y - x; }
  }

  const END_INSTANCE_BYTES: seq<Byte> := [0x7f, 0x01, 4, 0]
  const END_ENTIRE_BYTES: seq<Byte> := [0x7f, 0xff, 4, 0]

  lemma EndBytes()
    ensures EncodeNode(END_INSTANCE_NODE) == END_INSTANCE_BYTES && EncodeNode(END_ENTIRE_NODE) == END_ENTIRE_BYTES
  {}

  // One round of the copying loop.
  method LayDown(dst: array<Byte>, dstPos: nat, mem: seq<Byte>, inst: nat, size: nat, src2: nat, src2Size: nat,
                 ghost laid: seq<Byte>)
    returns (pos: nat)
    requires inst + size <= |mem| && src2 + src2Size <= |mem|
    requires laid == mem[inst..inst + size] + mem[src2..src2 + src2Size] + END_INSTANCE_BYTES
    requires dstPos + |laid| <= dst.Length
    modifies dst
    ensures pos == dstPos + |laid| && dst[..pos] == old(dst[..dstPos]) + laid
  {
    pos := dstPos;
    CopyMem(dst, pos, mem, inst, size);
    pos := pos + size;
    CopyMem(dst, pos, mem, src2, src2Size);
    pos := pos + src2Size;
    CopyMem(dst, pos, END_INSTANCE_BYTES, 0, NODE_HEADER);
    pos := pos + NODE_HEADER;
  }

  // What is laid down for the instances after the first.
  function LaterBytes(ns: seq<Node>, ms: seq<Node>): seq<Byte>
    requires IsPath(ns)
  {
    FirstInstance(ns);
    if ns[StopIndex(ns)].sub == END_ENTIRE then []
    else Encode(LaidDown(Enumerated(ns[StopIndex(ns) + 1..]), ms))
  }

  lemma LaterBytesAre(ns: seq<Node>, ms: seq<Node>)
    requires IsPath(ns)
    ensures var k := StopIndex(ns);
      if ns[k].sub == END_ENTIRE then LaterBytes(ns, ms) == []
      else k + 1 < |ns| && IsPath(ns[k + 1..]) && LaterBytes(ns, ms) == Encode(LaidDown(Enumerated(ns[k + 1..]), ms))
  {
    hide Instances, Enumerated, Encode, IsPath, LaidDown;
    FirstInstance(ns);
  }

  lemma LaidDownStep(ns: seq<Node>, ms: seq<Node>)
    requires IsPath(ns)
    ensures Encode(LaidDown(Enumerated(ns), ms))
         == Encode(ns[..StopIndex(ns)]) + Encode(ms) + END_INSTANCE_BYTES + LaterBytes(ns, ms)
  {
    EndBytes();
    NothingEncoded();
    FirstInstance(ns);
    LaterBytesAre(ns, ms);
    assert LaidDown([], ms) == [];
    hide Instances, Enumerated, Encode, EncodeNode, IsPath, StopIndex, LaidDown, LaterBytes;
    var k := StopIndex(ns);
    if ns[k].sub == END_ENTIRE {
      LaidDownFirst(ns[..k], [], ms);
      assert [ns[..k]] + [] == [ns[..k]];
    } else {
      LaidDownFirst(ns[..k], Enumerated(ns[k + 1..]), ms);
    }
  }

  lemma NothingEncoded()
    ensures Encode([]) == []
  {}

  lemma AppendedBytes(ns: seq<Node>, ms: seq<Node>)
    requires IsPath(ns)
    ensures var all := Encode(LaidDown(Enumerated(ns), ms));
      |all| >= NODE_HEADER && Encode(Appended(ns, ms)) == all[..|all| - NODE_HEADER] + END_ENTIRE_BYTES
  {
    EndBytes();
    hide Enumerated, Encode, EncodeNode, IsPath;
    var nodes := LaidDown(Enumerated(ns), ms);
    LaidDownEnds(Enumerated(ns), ms);
    var front := nodes[..|nodes| - 1];
    assert nodes == front + [END_INSTANCE_NODE];
    EncodeAppend(front, [END_INSTANCE_NODE]);
    EncodeAppend(front, [END_ENTIRE_NODE]);
    EncodeOne(END_INSTANCE_NODE);
    EncodeOne(END_ENTIRE_NODE);
  }

  // The copying loop, over all instances of the path at src1.
  method LayDownAll(dst: array<Byte>, mem: seq<Byte>, src1: nat, src2: nat, src2Size: nat,
                    ghost ns: seq<Node>, ghost ms: seq<Node>)
    returns (dstPos: nat)
    requires IsPath(ns) && NodesAt(mem, src1, ns)
    requires NodesAt(mem, src2, ms) && src2Size == Size(ms)
    requires Size(LaidDown(Enumerated(ns), ms)) <= dst.Length
    modifies dst
    ensures dstPos == Size(LaidDown(Enumerated(ns), ms))
    ensures dst[..dstPos] == Encode(LaidDown(Enumerated(ns), ms))
  {
    ghost var all := Encode(LaidDown(Enumerated(ns), ms));
    dstPos := 0;
    var rest := Some(src1);
    ghost var cur, done: seq<Byte> := ns, [];
    while rest.Some?
      invariant dstPos == |done| <= dst.Length && dst[..dstPos] == done && Laying(mem, all, done, rest, cur, ms)
      decreases if rest.Some? then |cur| else -1
    {
      rest, dstPos, done, cur := LayInstance(dst, dstPos, mem, rest, src2, src2Size, all, done, cur, ms);
    }
  }

  // One call of DevicePathInstance and what is laid down for its result.
  method LayInstance(dst: array<Byte>, dstPos: nat, mem: seq<Byte>, rest: Option<nat>, src2: nat, src2Size: nat,
                     ghost all: seq<Byte>, ghost done: seq<Byte>, ghost cur: seq<Node>, ghost ms: seq<Node>)
    returns (next: Option<nat>, pos: nat, ghost done': seq<Byte>, ghost cur': seq<Node>)
    requires rest.Some? && Laying(mem, all, done, rest, cur, ms)
    requires NodesAt(mem, src2, ms) && src2Size == Size(ms)
    requires dstPos == |done| && |all| <= dst.Length && dst[..dstPos] == done
    modifies dst
    ensures pos == |done'| <= dst.Length && dst[..pos] == done' && Laying(mem, all, done', next, cur', ms)
    ensures next.Some? ==> |cur'| < |cur|
  {
    OneMoreLaid(mem, all, done, rest, cur, ms, src2);
    assert IsPath(cur) && NodesAt(mem, rest.value, cur);
    hide *;
    var inst, size;
    inst, size, next := DevicePathInstance(mem, rest, cur);
    done' := done + LaidFor(cur, ms);
    pos := LayDown(dst, dstPos, mem, inst.value, size, src2, src2Size, LaidFor(cur, ms));
    cur' := if next.Some? then cur[StopIndex(cur) + 1..] else cur;
  }

  // `done` has been laid down; the instances of `cur`, standing at `rest`, remain.
  ghost predicate Laying(mem: seq<Byte>, all: seq<Byte>, done: seq<Byte>, rest: Option<nat>,
                         cur: seq<Node>, ms: seq<Node>) {
    if rest.None? then all == done
    else
      && IsPath(cur) && NodesAt(mem, rest.value, cur)
      && all == done + Encode(LaidDown(Enumerated(cur), ms))
  }

  // What one round lays down.
  function LaidFor(cur: seq<Node>, ms: seq<Node>): seq<Byte>
    requires IsPath(cur)
  {
    Encode(cur[..StopIndex(cur)]) + Encode(ms) + END_INSTANCE_BYTES
  }

  lemma OneMoreLaid(mem: seq<Byte>, all: seq<Byte>, done: seq<Byte>, rest: Option<nat>,
                    cur: seq<Node>, ms: seq<Node>, src2: nat)
    requires Laying(mem, all, done, rest, cur, ms) && rest.Some? && IsPath(cur) && NodesAt(mem, src2, ms)
    ensures var k := StopIndex(cur); var at := rest.value;
      && k < |cur| && at + Size(cur[..k]) <= |mem| && src2 + Size(ms) <= |mem|
      && LaidFor(cur, ms) == mem[at..at + Size(cur[..k])] + mem[src2..src2 + Size(ms)] + END_INSTANCE_BYTES
      && |done| + |LaidFor(cur, ms)| <= |all| && |LaidFor(cur, ms)| == Size(cur[..k]) + Size(ms) + NODE_HEADER
      && (cur[k].sub == END_ENTIRE ==> Laying(mem, all, done + LaidFor(cur, ms), None, cur, ms))
      && (cur[k].sub != END_ENTIRE ==>
            k + 1 < |cur| && Laying(mem, all, done + LaidFor(cur, ms), Some(at + Size(cur[..k + 1])), cur[k + 1..], ms))
  {
    hide Instances, Enumerated, Encode, IsPath, LaidDown, LaterBytes;
    var k := StopIndex(cur);
    LaidDownStep(cur, ms);
    LaterBytesAre(cur, ms);
    NodesFrom(mem, rest.value, cur, k);
    if cur[k].sub != END_ENTIRE {
      NodesFrom(mem, rest.value, cur, k + 1);
    }
    assert all == done + LaidFor(cur, ms) + LaterBytes(cur, ms);
  }

  method AppendDevicePath(mem: seq<Byte>, src1: Option<nat>, src2: Option<nat>, pool: bool,
                          ghost ns: seq<Node>, ghost ms: seq<Node>)
    returns (path: array?<Byte>)
    requires src1.Some? || src2.Some?
    requires src1.Some? ==> IsPath(ns) && NodesAt(mem, src1.value, ns)
    requires src2.Some? ==> IsPath(ms) && NodesAt(mem, src2.value, ms)
    requires src1.Some? && src2.Some? ==> Fits(ns, ms)
    ensures path != null <==> pool
    ensures path != null ==> fresh(path)
    ensures path != null && src1.None? ==> path[..] == Encode(ms)
    ensures path != null && src2.None? ==> path[..] == Encode(ns)
    ensures path != null && src1.Some? && src2.Some? ==>
      && path.Length == Allocation(|Enumerated(ns)|, Size(ns), Size(ms))
      && Size(Appended(ns, ms)) <= path.Length && path[..Size(Appended(ns, ms))] == Encode(Appended(ns, ms))
      && (|Instances(ns)| == 1 && ShortInstances(ns) ==> path.Length == Size(Appended(ns, ms)))
  {
    hide Instances, Enumerated, Encode, EncodeNode, IsPath, LaidDown, Appended, ShortInstances;
    if src1.None? {
      path := DuplicateDevicePath(mem, src2.value, pool, ms);
      return;
    }
    if src2.None? {
      path := DuplicateDevicePath(mem, src1.value, pool, ns);
      return;
    }
    EnumeratesInstancesIff(ns);
    WrittenFits(ns, ms);
    AppendedBytes(ns, ms);
    ghost var all := Encode(LaidDown(Enumerated(ns), ms));
    var src1Size := DevicePathSize(mem, src1.value, ns);
    var src1Inst := DevicePathInstanceCount(mem, src1, ns);
    var src2Size := DevicePathSize(mem, src2.value, ms);
    if !pool {
      return null;
    }
    var dst := new Byte[src1Size * src1Inst + src2Size];
    var dstPos := LayDownAll(dst, mem, src1.value, src2.value, src2Size, ns, ms);
    dstPos := dstPos - NODE_HEADER;
    CopyMem(dst, dstPos, END_ENTIRE_BYTES, 0, NODE_HEADER);
    assert dst[..dstPos + NODE_HEADER] == all[..dstPos] + END_ENTIRE_BYTES;
    path := dst;
  }

  // The node with a terminator behind it; an end-entire node is one itself.
  function Terminated(n: Node): (ms: seq<Node>)
    requires WellFormed(n)
    ensures IsPath(ms)
  {
    if IsEnd(n) then [n] else [n, END_ENTIRE_NODE]
  }

  predicate WellFormed(n: Node) {
    IsEndType(n) ==> n.payload == [] && n.sub in {END_ENTIRE, END_INSTANCE}
  }

  method AppendDevicePathNode(mem: seq<Byte>, src1: Option<nat>, node: nat, tempPool: bool, pool: bool,
                              ghost ns: seq<Node>, ghost n: Node)
    returns (path: array?<Byte>)
    requires NodesAt(mem, node, [n]) && WellFormed(n)
    requires src1.Some? ==> IsPath(ns) && NodesAt(mem, src1.value, ns) && Fits(ns, Terminated(n))
    ensures path != null <==> tempPool && pool
    ensures path != null ==> fresh(path)
    ensures path != null && src1.None? ==> path[..] == Encode(Terminated(n))
    ensures path != null && src1.Some? ==>
      && Size(Appended(ns, Terminated(n))) <= path.Length
      && path[..Size(Appended(ns, Terminated(n)))] == Encode(Appended(ns, Terminated(n)))
      && (|Instances(ns)| == 1 && ShortInstances(ns) ==> path.Length == Size(Appended(ns, Terminated(n))))
  {
    hide Instances, Enumerated, Encode, EncodeNode, LaidDown, Appended, ShortInstances, Fits;
    ReadNode(mem, node, [n]);
    var length := DevicePathNodeLength(mem, node);
    if !tempPool {
      return null;
    }
    var temp := new Byte[length + NODE_HEADER];
    CopyMem(temp, 0, mem, node, length);
    assert temp[..length] == EncodeNode(n);
    SetDevicePathEndNode(temp, length);
    // The pool block is memory like any other.
    var memory := mem + temp[..];
    TerminatedIsThere(mem, memory, temp[..], n);
    if src1.Some? {
      assert memory[src1.value..src1.value + Size(ns)] == mem[src1.value..src1.value + Size(ns)];
    }
    path := AppendDevicePath(memory, src1, Some(|mem|), pool, ns, Terminated(n));
  }

  lemma TerminatedIsThere(mem: seq<Byte>, memory: seq<Byte>, temp: seq<Byte>, n: Node)
    requires WellFormed(n) && memory == mem + temp && temp == EncodeNode(n) + END_ENTIRE_BYTES
    ensures NodesAt(memory, |mem|, Terminated(n))
  {
    EncodeOne(n);
    EncodeTwo(n, END_ENTIRE_NODE);
    EndBytes();
    hide Encode, EncodeNode;
    assert memory[|mem|..|mem| + |EncodeNode(n)|] == EncodeNode(n);
    assert memory[|mem|..|mem| + |temp|] == temp;
  }

  lemma EncodeTwo(n: Node, m: Node)
    ensures Encode([n, m]) == EncodeNode(n) + EncodeNode(m)
  {
    assert [n, m] == [n] + [m];
    EncodeAppend([n], [m]);
    EncodeOne(n);
    EncodeOne(m);
  }

  method SetDevicePathEndNode(b: array<Byte>, o: nat)
    requires o + NODE_HEADER <= b.Length
    modifies b
    ensures b[..] == old(b[..o]) + END_ENTIRE_BYTES + old(b[o + NODE_HEADER..])
  {
    b[o] := END_TYPE;
    b[o + 1] := END_ENTIRE;
    b[o + 2] := 4;
    b[o + 3] := 0;
  }

  // ---- what the result reads as ----

  // A reader of the finished copy finds the first instance, as far as the walker went, followed by
  // the second path, and stops at the terminator that was copied along with it.
  lemma AppendedReadsAs(ns: seq<Node>, ms: seq<Node>)
    requires IsPath(ns) && IsPath(ms)
    ensures IsPath(Enumerated(ns)[0] + ms)
    ensures NodesAt(Encode(Appended(ns, ms)), 0, Enumerated(ns)[0] + ms)
  {
    FirstEnumerated(ns);
    var insts := Enumerated(ns);
    var front := insts[0] + ms;
    assert insts == [insts[0]] + insts[1..];
    LaidDownFirst(insts[0], insts[1..], ms);
    LaidDownEnds(insts, ms);
    var all, a := LaidDown(insts, ms), Appended(ns, ms);
    hide *;
    JoinedIsPath(insts[0], ms);
    FrontOfAll(front, LaidDown(insts[1..], ms), all);
    assert a[..|front|] == front by { AppendedFront(ns, ms, front); }
    SizeSplit(a, |front|);
    AtTheFront(a, front);
  }

  lemma AppendedFront(ns: seq<Node>, ms: seq<Node>, front: seq<Node>)
    requires IsPath(ns)
    requires var all := LaidDown(Enumerated(ns), ms); |front| < |all| && all[..|front|] == front
    ensures |front| <= |Appended(ns, ms)| && Appended(ns, ms)[..|front|] == front
  {
    hide Enumerated, LaidDown, IsPath;
    LaidDownEnds(Enumerated(ns), ms);
  }

  lemma FrontOfAll(front: seq<Node>, rest: seq<Node>, all: seq<Node>)
    requires all == front + [END_INSTANCE_NODE] + rest
    ensures |front| < |all| && all[..|front|] == front
  {}

  lemma AtTheFront(a: seq<Node>, front: seq<Node>)
    requires |front| <= |a| && a[..|front|] == front
    ensures NodesAt(Encode(a), 0, front)
  {
    SizeSplit(a, |front|);
    hide Encode;
  }

  lemma FirstEnumerated(ns: seq<Node>)
    requires IsPath(ns)
    ensures Enumerated(ns)[0] == ns[..StopIndex(ns)] && NoEnds(Enumerated(ns)[0])
  {
    FirstOfEnumerated(ns);
    hide Enumerated, IsPath;
  }

  ghost predicate NoEnds(inst: seq<Node>) {
    forall i :: 0 <= i < |inst| ==> !IsEndType(inst[i])
  }

  lemma JoinedIsPath(inst: seq<Node>, ms: seq<Node>)
    requires IsPath(ms) && NoEnds(inst)
    ensures IsPath(inst + ms)
  {
    var j := inst + ms;
    assert j[|j| - 1] == ms[|ms| - 1];
    assert forall i :: 0 <= i < |j| ==> j[i] == if i < |inst| then inst[i] else ms[i - |inst|];
  }

  lemma JoinedEndIndex(inst: seq<Node>, ms: seq<Node>)
    requires IsPath(ms) && NoEnds(inst) && IsPath(inst + ms)
    ensures EndIndex(inst + ms) == |inst| + EndIndex(ms)
  {
    hide IsPath;
    var j, k := inst + ms, EndIndex(ms);
    assert j[|inst| + k] == ms[k];
  }

  lemma JoinedNodes(inst: seq<Node>, ms: seq<Node>)
    requires IsPath(ms) && NoEnds(inst)
    ensures IsPath(inst + ms)
    ensures |Instances(inst + ms)| == |Instances(ms)| > 0
    ensures |Instances(inst + ms)[0]| == |inst| + EndIndex(ms)
  {
    hide *;
    JoinedIsPath(inst, ms);
    JoinedEndIndex(inst, ms);
    FirstInstance(inst + ms);
    FirstInstance(ms);
    JoinedSlices(inst, ms, EndIndex(ms));
  }

  lemma JoinedSlices(inst: seq<Node>, ms: seq<Node>, k: nat)
    requires k < |ms|
    ensures var j := inst + ms;
      |j[..|inst| + k]| == |inst| + k && j[|inst| + k] == ms[k] && j[|inst| + k + 1..] == ms[k + 1..]
  {}

  // The documented result: the second path appended to each instance.
  function Promised(insts: seq<seq<Node>>, ms: seq<Node>): seq<seq<Node>>
    requires IsPath(ms)
    requires forall i :: 0 <= i < |insts| ==> IsPath(insts[i] + ms)
    decreases |insts|
  {
    if insts == [] then [] else Instances(insts[0] + ms) + Promised(insts[1..], ms)
  }

  lemma {:induction false} InstancesHaveNoEnds(ns: seq<Node>)
    requires IsPath(ns)
    ensures forall i :: 0 <= i < |Instances(ns)| ==> NoEnds(Instances(ns)[i])
    decreases |ns|
  {
    hide Instances, Enumerated;
    FirstInstance(ns);
    if !IsEnd(ns[EndIndex(ns)]) {
      var rest := ns[EndIndex(ns) + 1..];
      InstancesHaveNoEnds(rest);
      assert forall i :: 1 <= i < |Instances(ns)| ==> Instances(ns)[i] == Instances(rest)[i - 1];
    }
  }

  lemma InstancesExtend(ns: seq<Node>, ms: seq<Node>)
    requires IsPath(ns) && IsPath(ms)
    ensures forall i :: 0 <= i < |Instances(ns)| ==> IsPath(Instances(ns)[i] + ms)
  {
    InstancesHaveNoEnds(ns);
    forall i | 0 <= i < |Instances(ns)| ensures IsPath(Instances(ns)[i] + ms) {
      JoinedNodes(Instances(ns)[i], ms);
    }
  }

  lemma {:induction false} PromisedCount(insts: seq<seq<Node>>, ms: seq<Node>)
    requires IsPath(ms)
    requires forall i :: 0 <= i < |insts| ==> NoEnds(insts[i])
    requires forall i :: 0 <= i < |insts| ==> IsPath(insts[i] + ms)
    ensures |Promised(insts, ms)| == |insts| * |Instances(ms)|
    decreases |insts|
  {
    hide Instances, IsPath;
    if insts != [] {
      JoinedNodes(insts[0], ms);
      PromisedCount(insts[1..], ms);
      assert |insts| * |Instances(ms)| == |Instances(ms)| + |insts[1..]| * |Instances(ms)|;
    }
  }

  // What is read keeps that promise exactly when there is a single instance to append to, and the
  // walker does not cut it.
  lemma AppendReachesEveryInstanceIff(ns: seq<Node>, ms: seq<Node>)
    requires IsPath(ns) && IsPath(ms)
    ensures IsPath(Enumerated(ns)[0] + ms)
    ensures forall i :: 0 <= i < |Instances(ns)| ==> IsPath(Instances(ns)[i] + ms)
    ensures Instances(Enumerated(ns)[0] + ms) == Promised(Instances(ns), ms)
       <==> |Instances(ns)| == 1 && |Instances(ns)[0]| <= CUT_OFF
  {
    hide *;
    InstancesExtend(ns, ms);
    InstancesHaveNoEnds(ns);
    FirstEnumerated(ns);
    FirstOfBoth(ns);
    var insts, first := Instances(ns), Enumerated(ns)[0];
    JoinedNodes(first, ms);
    JoinedNodes(insts[0], ms);
    if |insts| == 1 {
      assert insts == [insts[0]];
      OnePromised(insts[0], ms);
      if |insts[0]| > CUT_OFF {
        assert Instances(first + ms)[0] != Instances(insts[0] + ms)[0];
      }
    } else {
      PromisedCount(insts, ms);
      MoreThanOnce(|insts|, |Instances(ms)|);
    }
  }

  lemma FirstOfBoth(ns: seq<Node>)
    requires IsPath(ns)
    ensures |Instances(ns)| >= 1
    ensures var inst := Instances(ns)[0];
      if |inst| <= CUT_OFF then Enumerated(ns)[0] == inst else |Enumerated(ns)[0]| == CUT_OFF
  {
    FirstInstance(ns);
    hide Instances, Enumerated, IsPath;
  }

  lemma OnePromised(inst: seq<Node>, ms: seq<Node>)
    requires IsPath(ms) && IsPath(inst + ms)
    ensures forall i :: 0 <= i < |[inst]| ==> IsPath([inst][i] + ms)
    ensures Promised([inst], ms) == Instances(inst + ms)
  {
    hide Instances, IsPath;
    assert Promised([inst][1..], ms) == [];
  }

  lemma MoreThanOnce(n: nat, m: nat)
    requires n > 1 && m > 0
    ensures n * m > m
  {
    assert n * m == m + (n - 1) * m;
  }

  const PLAIN_NODE: Node := Node(1, 1, [])

  // Appended to a path of two empty instances, a node is found in the first of them only.
  lemma SecondInstanceIsMissed()
    ensures var ns, ms := [END_INSTANCE_NODE, END_ENTIRE_NODE], [PLAIN_NODE, END_ENTIRE_NODE];
      && IsPath(ns) && IsPath(ms) && Instances(ns) == [[], []] && IsPath(Enumerated(ns)[0] + ms)
      && Instances(Enumerated(ns)[0] + ms) == [[PLAIN_NODE]]
      && IsPath([] + ms) && Promised(Instances(ns), ms) == [[PLAIN_NODE], [PLAIN_NODE]]
  {
    var ns, ms := [END_INSTANCE_NODE, END_ENTIRE_NODE], [PLAIN_NODE, END_ENTIRE_NODE];
    TwoEmptyInstances();
    EnumeratesInstancesIff(ns);
    assert IsPath(ms) && EndIndex(ms) == 1;
    assert [] + ms == ms && ms[..1] == [PLAIN_NODE];
    assert Instances(ms) == [[PLAIN_NODE]];
    var insts: seq<seq<Node>> := [[], []];
    assert insts[1..] == [[]] && insts[1..][1..] == [];
    assert Promised(insts[1..], ms) == Instances([] + ms) + Promised([], ms);
  }
}
