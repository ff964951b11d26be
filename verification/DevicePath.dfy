// Walking, counting and copying device paths.
module DevicePath {
  import opened Bytes
  import opened Options
  import opened DevicePathNodes

  // ---- instances ----

  function EndIndex(ns: seq<Node>): (k: nat)
    requires IsPath(ns)
    ensures k < |ns| && IsEndType(ns[k]) && forall i :: 0 <= i < k ==> !IsEndType(ns[i])
  {
    FirstEnd(ns, 0)
  }

  function FirstEnd(ns: seq<Node>, i: nat): (k: nat)
    requires IsPath(ns) && i < |ns|
    ensures i <= k < |ns| && IsEndType(ns[k]) && forall j :: i <= j < k ==> !IsEndType(ns[j])
    decreases |ns| - i
  {
    if IsEndType(ns[i]) then i else FirstEnd(ns, i + 1)
  }

  // The instances a path is made of.
  function Instances(ns: seq<Node>): (r: seq<seq<Node>>)
    requires IsPath(ns)
    ensures r != [] && r[0] == ns[..EndIndex(ns)]
    decreases |ns|
  {
    var k := EndIndex(ns);
    [ns[..k]] + if IsEnd(ns[k]) then [] else Instances(ns[k + 1..])
  }

  // The walker gives up on an instance after this many nodes.
  const CUT_OFF := 513

  function StopIndex(ns: seq<Node>): nat
    requires IsPath(ns)
  {
    if EndIndex(ns) <= CUT_OFF then EndIndex(ns) else CUT_OFF
  }

  // What repeated calls of DevicePathInstance enumerate.
  function Enumerated(ns: seq<Node>): (r: seq<seq<Node>>)
    requires IsPath(ns)
    ensures r != []
    decreases |ns|
  {
    var k := StopIndex(ns);
    [ns[..k]] + if ns[k].sub == END_ENTIRE then [] else Enumerated(ns[k + 1..])
  }

  ghost predicate ShortInstances(ns: seq<Node>)
    requires IsPath(ns)
  {
    AllShort(Instances(ns))
  }

  ghost predicate AllShort(insts: seq<seq<Node>>) {
    forall i :: 0 <= i < |insts| ==> |insts[i]| <= 513
  }

  lemma ShortThenShort(first: seq<Node>, rest: seq<seq<Node>>)
    ensures AllShort([first] + rest) <==> |first| <= CUT_OFF && AllShort(rest)
  {
    var all := [first] + rest;
    assert forall i :: 0 <= i < |rest| ==> rest[i] == all[i + 1];
    assert all[0] == first;
  }

  // The walker enumerates the instances exactly when none has more nodes than the cut-off.
  lemma {:induction false} EnumeratesInstancesIff(ns: seq<Node>)
    requires IsPath(ns)
    ensures Enumerated(ns) == Instances(ns) <==> ShortInstances(ns)
    decreases |ns|
  {
    hide Instances, Enumerated;
    var k := EndIndex(ns);
    FirstInstance(ns);
    if k > CUT_OFF {
      assert |Instances(ns)[0]| == k && |Enumerated(ns)[0]| == CUT_OFF;
    } else if !IsEnd(ns[k]) {
      var rest := ns[k + 1..];
      EnumeratesInstancesIff(rest);
      ShortThenShort(ns[..k], Instances(rest));
      assert ([ns[..k]] + Instances(rest))[1..] == Instances(rest);
      assert ([ns[..k]] + Enumerated(rest))[1..] == Enumerated(rest);
    }
  }

  lemma RestIsPath(ns: seq<Node>, k: nat)
    requires IsPath(ns) && k < |ns| && !IsEnd(ns[k])
    ensures k + 1 < |ns| && IsPath(ns[k + 1..])
  {
    PathTail(ns, k + 1);
  }

  lemma FirstInstance(ns: seq<Node>)
    requires IsPath(ns)
    ensures var k := EndIndex(ns);
      if IsEnd(ns[k]) then Instances(ns) == [ns[..k]]
      else k + 1 < |ns| && IsPath(ns[k + 1..]) && Instances(ns) == [ns[..k]] + Instances(ns[k + 1..])
    ensures var k := StopIndex(ns);
      if ns[k].sub == END_ENTIRE then Enumerated(ns) == [ns[..k]]
      else k + 1 < |ns| && IsPath(ns[k + 1..]) && Enumerated(ns) == [ns[..k]] + Enumerated(ns[k + 1..])
  {
    FirstOfInstances(ns);
    FirstOfEnumerated(ns);
  }

  lemma FirstOfInstances(ns: seq<Node>)
    requires IsPath(ns)
    ensures var k := EndIndex(ns);
      if IsEnd(ns[k]) then Instances(ns) == [ns[..k]]
      else k + 1 < |ns| && IsPath(ns[k + 1..]) && Instances(ns) == [ns[..k]] + Instances(ns[k + 1..])
  {
    if !IsEnd(ns[EndIndex(ns)]) { RestIsPath(ns, EndIndex(ns)); }
    hide IsPath, FirstEnd, EndIndex, IsEndType;
  }

  lemma FirstOfEnumerated(ns: seq<Node>)
    requires IsPath(ns)
    ensures var k := StopIndex(ns);
      if ns[k].sub == END_ENTIRE then Enumerated(ns) == [ns[..k]]
      else k + 1 < |ns| && IsPath(ns[k + 1..]) && Enumerated(ns) == [ns[..k]] + Enumerated(ns[k + 1..])
  {
    var k := StopIndex(ns);
    if ns[k].sub != END_ENTIRE { RestIsPath(ns, k); }
    assert k < |ns|;
    hide IsPath, FirstEnd, EndIndex, IsEndType, StopIndex, IsEnd;
  }

  // An instance of 514 nodes is enumerated as one of 513 and an empty one; a node is lost.
  lemma LongInstanceIsCut(n: Node)
    requires !IsEndType(n) && n.sub != END_ENTIRE
    ensures var ns := seq(514, _ => n) + [END_ENTIRE_NODE];
      IsPath(ns) && Instances(ns) == [ns[..514]] && Enumerated(ns) == [ns[..513], []]
  {
    var ns := seq(514, _ => n) + [END_ENTIRE_NODE];
    assert IsPath(ns);
    FirstInstance(ns);
    assert EndIndex(ns) == 514 && StopIndex(ns) == 513 && ns[513] == n;
    var last := ns[514..];
    assert last == [END_ENTIRE_NODE] && IsPath(last);
    FirstInstance(last);
    assert EndIndex(last) == 0 && last[..0] == [];
  }

  // ---- memory primitives ----

  method CopyMem(dest: array<Byte>, d: nat, src: seq<Byte>, s: nat, len: nat)
    requires d + len <= dest.Length && s + len <= |src|
    modifies dest
    ensures dest[..] == old(dest[..d]) + src[s..s + len] + old(dest[d + len..])
    ensures dest[..d + len] == old(dest[..d]) + src[s..s + len] && dest[d + len..] == old(dest[d + len..])
  {
    var i := 0;
    while i < len
      invariant 0 <= i <= len
      invariant dest[..d] == old(dest[..d]) && dest[d + len..] == old(dest[d + len..])
      invariant dest[d..d + i] == src[s..s + i]
    {
      dest[d + i] := src[s + i];
      i := i + 1;
      assert src[s..s + i] == src[s..s + i - 1] + [src[s + i - 1]];
      assert dest[d..d + i] == dest[d..d + i - 1] + [dest[d + i - 1]];
    }
    assert dest[..d + len] == dest[..d] + dest[d..d + len];
    assert dest[..] == dest[..d + len] + dest[d + len..];
  }

  // ---- the walkers ----

  lemma EmptySize(ns: seq<Node>)
    ensures Size(ns[..0]) == 0 && ns[0..] == ns
  {}

  // The first instance at *DevicePath, its size in bytes, and where the next one starts.
  method DevicePathInstance(b: seq<Byte>, path: Option<nat>, ghost ns: seq<Node>)
    returns (start: Option<nat>, size: nat, next: Option<nat>)
    requires path.Some? ==> IsPath(ns) && NodesAt(b, path.value, ns)
    ensures start == path
    ensures path.Some? ==>
      var k := StopIndex(ns);
      && size == Size(ns[..k])
      && next == (if ns[k].sub == END_ENTIRE then None else Some(path.value + Size(ns[..k + 1])))
      && (next.Some? ==> IsPath(ns[k + 1..]) && NodesAt(b, next.value, ns[k + 1..]))
    ensures path.None? ==> next.None?
  {
    hide Encode, IsPath, EncodeNode, Enumerated, Instances;
    start, size, next := path, 0, None;
    if path.None? {
      return;
    }
    EmptySize(ns);
    var devPath := path.value;
    var count := 0;
    var following: nat := 0;
    while true
      invariant count <= StopIndex(ns)
      invariant devPath == path.value + Size(ns[..count]) && NodesAt(b, devPath, ns[count..])
      decreases StopIndex(ns) - count
    {
      ReadNode(b, devPath, ns[count..]);
      SizeTo(ns, count);
      assert ns[count..][1..] == ns[count + 1..];
      following := NextDevicePathNode(b, devPath);
      if IsDevicePathEndType(b, devPath) {
        break;
      }
      if count > 512 {
        break;
      }
      devPath := following;
      count := count + 1;
    }
    FirstInstance(ns);
    next := if DevicePathSubType(b, devPath) == END_ENTIRE then None else Some(following);
    size := devPath - path.value;
  }

  method DevicePathInstanceCount(b: seq<Byte>, path: Option<nat>, ghost nodes: seq<Node>) returns (count: nat)
    requires path.Some? ==> IsPath(nodes) && NodesAt(b, path.value, nodes)
    ensures count == if path.Some? then |Enumerated(nodes)| else 0
  {
    count := 0;
    ghost var ns := nodes;
    var rest := path;
    while true
      invariant rest.Some? ==> IsPath(ns) && NodesAt(b, rest.value, ns)
      invariant (if path.Some? then |Enumerated(nodes)| else 0) ==
                count + if rest.Some? then |Enumerated(ns)| else 0
      decreases if rest.Some? then |ns| else -1
    {
      var start, size, next := DevicePathInstance(b, rest, ns);
      if start.None? {
        break;
      }
      count := count + 1;
      rest := next;
      if next.Some? {
        ns := ns[StopIndex(ns) + 1..];
      }
    }
  }

  // The walk to the end-entire node, which the size computation and the appenders share.
  method FindPathEnd(b: seq<Byte>, path: nat, ghost ns: seq<Node>) returns (devPath: nat)
    requires IsPath(ns) && NodesAt(b, path, ns)
    ensures devPath == path + Size(ns) - NODE_HEADER && Header(b, devPath)
    ensures DevicePathNodeLength(b, devPath) == NODE_HEADER
  {
    hide Encode, EncodeNode, IsDevicePathEndType, DevicePathSubType, DevicePathNodeLength;
    EmptySize(ns);
    devPath := path;
    ghost var k := 0;
    ReadNode(b, path, ns);
    while !IsDevicePathEnd(b, devPath)
      invariant k < |ns| && devPath == path + Size(ns[..k]) && NodesAt(b, devPath, ns[k..])
      invariant Header(b, devPath) && IsDevicePathEnd(b, devPath) == IsEnd(ns[k])
      decreases |ns| - k
    {
      ReadNode(b, devPath, ns[k..]);
      SizeTo(ns, k);
      assert ns[k..][1..] == ns[k + 1..];
      devPath := NextDevicePathNode(b, devPath);
      k := k + 1;
      ReadNode(b, devPath, ns[k..]);
    }
    assert ns[..k + 1] == ns;
    SizeTo(ns, k);
    ReadNode(b, devPath, ns[k..]);
  }

  method DevicePathSize(b: seq<Byte>, path: nat, ghost ns: seq<Node>) returns (size: nat)
    requires IsPath(ns) && NodesAt(b, path, ns)
    ensures size == Size(ns)
  {
    var end := FindPathEnd(b, path, ns);
    size := end - path + NODE_HEADER;
  }

  // NULL when the pool is exhausted.
  method DuplicateDevicePath(b: seq<Byte>, path: nat, pool: bool, ghost ns: seq<Node>) returns (copy: array?<Byte>)
    requires IsPath(ns) && NodesAt(b, path, ns)
    ensures copy != null <==> pool
    ensures copy != null ==> fresh(copy) && copy[..] == Encode(ns)
  {
    var size := DevicePathSize(b, path, ns);
    if !pool {
      return null;
    }
    copy := new Byte[size];
    CopyMem(copy, 0, b, path, size);
  }
}
