// Device path nodes as bytes: a type, a subtype, a 16-bit length and a payload (section 9.3 of
// the UEFI 2.4 specification), with the macros that read and write them.
module DevicePathNodes {
  import opened Bytes

  const NODE_HEADER := 4
  const TYPE_UNPACKED: Byte := 0x80
  const END_TYPE: Byte := 0x7f
  const END_ENTIRE: Byte := 0xff
  const END_INSTANCE: Byte := 0x01

  datatype NodeRecord = Node(kind: Byte, sub: Byte, payload: seq<Byte>)

  type Node = n: NodeRecord | |n.payload| + NODE_HEADER < 0x1_0000 witness Node(0, 0, [])

  function NodeLength(n: Node): nat { NODE_HEADER + |n.payload| }

  function EncodeNode(n: Node): (r: seq<Byte>)
    ensures |r| == NodeLength(n)
  {
    [n.kind, n.sub, NodeLength(n) % 256, NodeLength(n) / 256] + n.payload
  }

  function Encode(ns: seq<Node>): seq<Byte>
    decreases |ns|
  {
    if ns == [] then [] else EncodeNode(ns[0]) + Encode(ns[1..])
  }

  function Size(ns: seq<Node>): nat { |Encode(ns)| }

  predicate IsEndType(n: Node) { n.kind % 128 == END_TYPE }

  predicate IsEnd(n: Node) { IsEndType(n) && n.sub == END_ENTIRE }

  const END_ENTIRE_NODE: Node := Node(END_TYPE, END_ENTIRE, [])
  const END_INSTANCE_NODE: Node := Node(END_TYPE, END_INSTANCE, [])

  // A path ends at its first and only end-entire node; the other end nodes close instances.
  predicate IsPath(ns: seq<Node>) {
    && ns != []
    && IsEnd(ns[|ns| - 1])
    && (forall i :: 0 <= i < |ns| - 1 ==> !IsEnd(ns[i]))
    && (forall i :: 0 <= i < |ns| && IsEndType(ns[i]) ==>
          ns[i].payload == [] && ns[i].sub in {END_ENTIRE, END_INSTANCE})
  }

  // The nodes stand at offset o of the bytes b.
  ghost predicate NodesAt(b: seq<Byte>, o: nat, ns: seq<Node>) {
    o + Size(ns) <= |b| && b[o..o + Size(ns)] == Encode(ns)
  }

  // ---- the macros ----

  predicate Header(b: seq<Byte>, o: nat) { o + NODE_HEADER <= |b| }

  function DevicePathType(b: seq<Byte>, o: nat): nat
    requires Header(b, o)
  {
    b[o] % 128
  }

  function DevicePathSubType(b: seq<Byte>, o: nat): Byte
    requires Header(b, o)
  {
    b[o + 1]
  }

  function DevicePathNodeLength(b: seq<Byte>, o: nat): nat
    requires Header(b, o)
  {
    b[o + 2] as int + 256 * (b[o + 3] as int)
  }

  function NextDevicePathNode(b: seq<Byte>, o: nat): nat
    requires Header(b, o)
  {
    o + DevicePathNodeLength(b, o)
  }

  predicate IsDevicePathEndType(b: seq<Byte>, o: nat)
    requires Header(b, o)
  {
    DevicePathType(b, o) == END_TYPE
  }

  predicate IsDevicePathEnd(b: seq<Byte>, o: nat)
    requires Header(b, o)
  {
    IsDevicePathEndType(b, o) && DevicePathSubType(b, o) == END_ENTIRE
  }

  // ---- encoding lemmas ----

  lemma {:induction false} EncodeAppend(ns: seq<Node>, ms: seq<Node>)
    ensures Encode(ns + ms) == Encode(ns) + Encode(ms)
    decreases |ns|
  {
    hide EncodeNode;
    if ns == [] {
      assert ns + ms == ms;
    } else {
      assert (ns + ms)[1..] == ns[1..] + ms;
      EncodeAppend(ns[1..], ms);
    }
  }

  lemma EncodeOne(n: Node)
    ensures Encode([n]) == EncodeNode(n)
  {
    assert [n][1..] == [];
  }

  lemma SizeTo(ns: seq<Node>, k: nat)
    requires k < |ns|
    ensures Size(ns[..k + 1]) == Size(ns[..k]) + NodeLength(ns[k])
  {
    assert ns[..k + 1] == ns[..k] + [ns[k]];
    EncodeAppend(ns[..k], [ns[k]]);
    EncodeOne(ns[k]);
  }

  lemma SizeSplit(ns: seq<Node>, k: nat)
    requires k <= |ns|
    ensures Encode(ns) == Encode(ns[..k]) + Encode(ns[k..])
    ensures Size(ns) == Size(ns[..k]) + Size(ns[k..])
  {
    assert ns == ns[..k] + ns[k..];
    EncodeAppend(ns[..k], ns[k..]);
  }

  // What the macros read at the first of some nodes, and where the others stand.
  lemma ReadNode(b: seq<Byte>, o: nat, ns: seq<Node>)
    requires ns != [] && NodesAt(b, o, ns)
    ensures Header(b, o)
    ensures IsDevicePathEndType(b, o) == IsEndType(ns[0])
    ensures DevicePathSubType(b, o) == ns[0].sub
    ensures DevicePathNodeLength(b, o) == NodeLength(ns[0])
    ensures NodesAt(b, o + NodeLength(ns[0]), ns[1..])
    ensures b[o..o + NodeLength(ns[0])] == EncodeNode(ns[0])
    ensures b[o] == ns[0].kind
    ensures o + 4 <= |b| && b[o + 1] == ns[0].sub && b[o + 2] as int + 256 * (b[o + 3] as int) == 4 + |ns[0].payload|
    ensures IsDevicePathEndType(b, o) <==> b[o] == 0x7f || b[o] == 0xff
    ensures IsDevicePathEnd(b, o) <==> (b[o] == 0x7f || b[o] == 0xff) && b[o + 1] == 0xff
  {
    var e := Encode(ns);
    var len := NodeLength(ns[0]);
    assert e[..len] == EncodeNode(ns[0]);
    assert e[len..] == Encode(ns[1..]);
    var w := b[o..o + |e|];
    assert w[0] == b[o] && w[1] == b[o + 1] && w[2] == b[o + 2] && w[3] == b[o + 3];
    assert b[o + len..o + |e|] == w[len..];
    assert b[o..o + len] == w[..len];
  }

  // The same at node k.
  lemma NodesFrom(b: seq<Byte>, o: nat, ns: seq<Node>, k: nat)
    requires k <= |ns| && NodesAt(b, o, ns)
    ensures NodesAt(b, o + Size(ns[..k]), ns[k..])
    ensures NodesAt(b, o, ns[..k])
  {
    SizeSplit(ns, k);
    var w := b[o..o + Size(ns)];
    var m := Size(ns[..k]);
    assert b[o..o + m] == w[..m];
    assert b[o + m..o + Size(ns)] == w[m..];
  }

  lemma PathTail(ns: seq<Node>, k: nat)
    requires IsPath(ns) && k < |ns|
    ensures IsPath(ns[k..])
  {}

  // The bytes determine the path.
  lemma {:induction false} PathIsDetermined(b: seq<Byte>, o: nat, ns: seq<Node>, ms: seq<Node>)
    requires IsPath(ns) && IsPath(ms) && NodesAt(b, o, ns) && NodesAt(b, o, ms)
    ensures ns == ms
    decreases |ns|
  {
    hide Encode, IsDevicePathEndType, DevicePathSubType, DevicePathNodeLength;
    ReadNode(b, o, ns);
    ReadNode(b, o, ms);
    var n, m := EncodeNode(ns[0]), EncodeNode(ms[0]);
    assert n == m;
    assert ns[0].payload == n[4..] == m[4..] == ms[0].payload;
    assert ns[0] == ms[0];
    if |ns| > 1 {
      assert |ms| > 1;
      PathTail(ns, 1);
      PathTail(ms, 1);
      PathIsDetermined(b, o + NodeLength(ns[0]), ns[1..], ms[1..]);
    }
    assert ns == [ns[0]] + ns[1..] && ms == [ms[0]] + ms[1..];
  }
}
