// Realigning a device path: every node is padded to a multiple of the alignment.
module DevicePathUnpack {
  import opened Bytes
  import opened DevicePathNodes
  import opened DevicePath

  // The alignment of the port: 4 on x86_64, ia32 and arm, 8 on ia64, aarch64 and mips64el.
  predicate Alignment(a: nat) { a == 4 || a == 8 }

  function AlignSize(size: nat, a: nat): nat
    requires Alignment(a)
  {
    if size % a != 0 then a - size % a else 0
  }

  function RoundedLength(n: Node, a: nat): nat
    requires Alignment(a)
  {
    NodeLength(n) + AlignSize(NodeLength(n), a)
  }

  function Zeros(k: nat): seq<Byte> { seq(k, _ => 0) }

  // What a node becomes: its length field holds the rounded length modulo 2^16, its type is
  // marked, and zeros follow its payload.
  function UnpackedBlock(n: Node, a: nat): (r: seq<Byte>)
    requires Alignment(a)
    ensures |r| == RoundedLength(n, a)
  {
    var len := RoundedLength(n, a);
    [Marked(n.kind), n.sub, len % 256, len / 256 % 256] + n.payload + Zeros(AlignSize(NodeLength(n), a))
  }

  // Type | 0x80.
  function Marked(kind: Byte): Byte { kind % 128 + TYPE_UNPACKED }

  function UnpackedBytes(ns: seq<Node>, a: nat): seq<Byte>
    requires Alignment(a)
    decreases |ns|
  {
    if ns == [] then [] else UnpackedBlock(ns[0], a) + UnpackedBytes(ns[1..], a)
  }

  lemma {:induction false} UnpackedAppend(ns: seq<Node>, ms: seq<Node>, a: nat)
    requires Alignment(a)
    ensures UnpackedBytes(ns + ms, a) == UnpackedBytes(ns, a) + UnpackedBytes(ms, a)
    decreases |ns|
  {
    hide UnpackedBlock;
    if ns == [] {
      assert ns + ms == ms;
    } else {
      assert (ns + ms)[1..] == ns[1..] + ms;
      UnpackedAppend(ns[1..], ms, a);
    }
  }

  lemma UnpackedTo(ns: seq<Node>, k: nat, a: nat)
    requires Alignment(a) && k < |ns|
    ensures UnpackedBytes(ns[..k + 1], a) == UnpackedBytes(ns[..k], a) + UnpackedBlock(ns[k], a)
    ensures |UnpackedBytes(ns, a)| >= |UnpackedBytes(ns[..k + 1], a)|
  {
    hide UnpackedBlock;
    assert ns[..k + 1] == ns[..k] + [ns[k]];
    UnpackedAppend(ns[..k], [ns[k]], a);
    assert UnpackedBytes([ns[k]], a) == UnpackedBlock(ns[k], a) by { assert [ns[k]][1..] == []; }
    assert ns == ns[..k + 1] + ns[k + 1..];
    UnpackedAppend(ns[..k + 1], ns[k + 1..], a);
  }

  predicate Aligned(x: nat, a: nat)
    requires Alignment(a)
  {
    x % a == 0
  }

  // The sizing pass rounds a running total, the copying pass each node by itself: the same.
  lemma RoundingAgrees(total: nat, len: nat, a: nat)
    requires Alignment(a) && Aligned(total, a)
    ensures total + len + AlignSize(total + len, a) == total + (len + AlignSize(len, a))
    ensures Aligned(len + AlignSize(len, a), a)
    ensures Aligned(total + len + AlignSize(total + len, a), a)
  {
    if a == 4 { RoundingBy4(total, len); } else { RoundingBy8(total, len); }
  }

  lemma RoundingBy4(total: nat, len: nat)
    requires total % 4 == 0
    ensures (total + len) % 4 == len % 4
    ensures (len + AlignSize(len, 4)) % 4 == 0 && (total + len + AlignSize(total + len, 4)) % 4 == 0
  {}

  lemma RoundingBy8(total: nat, len: nat)
    requires total % 8 == 0
    ensures (total + len) % 8 == len % 8
    ensures (len + AlignSize(len, 8)) % 8 == 0 && (total + len + AlignSize(total + len, 8)) % 8 == 0
  {
    assert total == 8 * (total / 8) && len == 8 * (len / 8) + len % 8;
  }

  // Turns the copied node at `dest` of `b` into its unpacked form.
  method FixNode(b: array<Byte>, dest: nat, size: nat)
    requires dest + NODE_HEADER <= b.Length
    modifies b
    ensures b[..] == old(b[..])[dest := Marked(old(b[dest]))][dest + 2 := size % 256][dest + 3 := size / 256 % 256]
  {
    b[dest + 2] := size % 256;
    b[dest + 3] := size / 256 % 256;
    b[dest] := Marked(b[dest]);
  }

  // The running total after node k, and where the walk goes on.
  lemma SizingStep(mem: seq<Byte>, src: nat, ns: seq<Node>, k: nat, a: nat)
    requires Alignment(a) && IsPath(ns) && k < |ns| && NodesAt(mem, src, ns[k..])
    requires Aligned(|UnpackedBytes(ns[..k], a)|, a)
    ensures Header(mem, src)
    ensures var total := |UnpackedBytes(ns[..k], a)| + DevicePathNodeLength(mem, src);
      && total + AlignSize(total, a) == |UnpackedBytes(ns[..k + 1], a)|
      && Aligned(|UnpackedBytes(ns[..k + 1], a)|, a)
    ensures if IsDevicePathEnd(mem, src) then ns[..k + 1] == ns
      else k + 1 < |ns| && NodesAt(mem, NextDevicePathNode(mem, src), ns[k + 1..])
  {
    hide *;
    NodeRead(mem, src, ns, k);
    NodeBehind(mem, src, ns, k);
    RoundedTotal(ns, k, a);
    LastIsEnd(ns, k);
    assert ns[..|ns|] == ns;
  }

  lemma NodeRead(mem: seq<Byte>, src: nat, ns: seq<Node>, k: nat)
    requires k < |ns| && NodesAt(mem, src, ns[k..])
    ensures Header(mem, src) && DevicePathNodeLength(mem, src) == NodeLength(ns[k])
    ensures IsDevicePathEnd(mem, src) == IsEnd(ns[k])
  {
    ReadNode(mem, src, ns[k..]);
    hide Encode, NodesAt, IsDevicePathEndType, DevicePathSubType, DevicePathNodeLength, IsEndType;
  }

  lemma RoundedTotal(ns: seq<Node>, k: nat, a: nat)
    requires Alignment(a) && k < |ns| && Aligned(|UnpackedBytes(ns[..k], a)|, a)
    ensures var total := |UnpackedBytes(ns[..k], a)| + NodeLength(ns[k]);
      && total + AlignSize(total, a) == |UnpackedBytes(ns[..k + 1], a)|
      && Aligned(|UnpackedBytes(ns[..k + 1], a)|, a)
  {
    hide UnpackedBytes, UnpackedBlock, Aligned, AlignSize, Alignment;
    UnpackedTo(ns, k, a);
    RoundingAgrees(|UnpackedBytes(ns[..k], a)|, NodeLength(ns[k]), a);
  }

  lemma NothingUnpacked(ns: seq<Node>, a: nat)
    requires Alignment(a) && IsPath(ns)
    ensures |ns| > 0 && UnpackedBytes(ns[..0], a) == [] && Aligned(0, a) && ns[0..] == ns
  {}

  method SizingPass(mem: seq<Byte>, path: nat, a: nat, ghost ns: seq<Node>) returns (size: nat)
    requires Alignment(a) && IsPath(ns) && NodesAt(mem, path, ns)
    ensures size == |UnpackedBytes(ns, a)|
  {
    hide *;
    var src := path;
    size := 0;
    ghost var k := 0;
    NothingUnpacked(ns, a);
    while true
      invariant k < |ns| && NodesAt(mem, src, ns[k..])
      invariant size == |UnpackedBytes(ns[..k], a)| && Aligned(size, a)
      decreases |ns| - k
    {
      SizingStep(mem, src, ns, k, a);
      size := size + DevicePathNodeLength(mem, src);
      size := size + AlignSize(size, a);
      if IsDevicePathEnd(mem, src) {
        break;
      }
      src := NextDevicePathNode(mem, src);
      k := k + 1;
    }
  }

  // One node of the copying pass; what lies beyond it is still zero.
  method UnpackNode(b: array<Byte>, dest: nat, mem: seq<Byte>, src: nat, a: nat, ghost n: Node) returns (next: nat)
    requires Alignment(a) && NodesAt(mem, src, [n])
    requires dest + RoundedLength(n, a) <= b.Length && b[dest..] == Zeros(b.Length - dest)
    modifies b
    ensures next == dest + RoundedLength(n, a)
    ensures b[..next] == old(b[..dest]) + UnpackedBlock(n, a)
    ensures b[next..] == Zeros(b.Length - next)
  {
    ReadNode(mem, src, [n]);
    assert RoundedLength(n, a) == NodeLength(n) + AlignSize(NodeLength(n), a);
    ghost var before, room := b[..dest], b.Length - dest - NodeLength(n);
    FixedBlock(before, n, a, room);
    ZerosAt(b.Length - dest, NodeLength(n));
    hide *;
    var size := DevicePathNodeLength(mem, src);
    CopyMem(b, dest, mem, src, size);
    assert b[..] == before + EncodeNode(n) + Zeros(room);
    size := size + AlignSize(size, a);
    FixNode(b, dest, size);
    next := dest + size;
    BlockIsInPlace(b[..], before, UnpackedBlock(n, a), Zeros(b.Length - next), next);
  }

  lemma ZerosAt(k: nat, i: nat)
    requires i <= k
    ensures Zeros(k)[i..] == Zeros(k - i)
  {}

  lemma BlockIsInPlace(now: seq<Byte>, before: seq<Byte>, block: seq<Byte>, rest: seq<Byte>, next: nat)
    requires now == before + block + rest && next == |before| + |block|
    ensures now[..next] == before + block && now[next..] == rest
  {}

  // What copying and fixing one node leaves.
  lemma FixedBlock(before: seq<Byte>, n: Node, a: nat, room: nat)
    requires Alignment(a) && AlignSize(NodeLength(n), a) <= room
    ensures var d, size, copied := |before|, RoundedLength(n, a), before + EncodeNode(n) + Zeros(room);
      && d + NODE_HEADER <= |copied| && copied[d] == n.kind
      && copied[d := Marked(n.kind)][d + 2 := size % 256][d + 3 := size / 256 % 256]
         == before + UnpackedBlock(n, a) + Zeros(room - AlignSize(NodeLength(n), a))
  {
    hide AlignSize, Alignment;
    var d, size, pad := |before|, RoundedLength(n, a), AlignSize(NodeLength(n), a);
    assert Zeros(room) == Zeros(pad) + Zeros(room - pad);
    assert EncodeNode(n)[0 := Marked(n.kind)][2 := size % 256][3 := size / 256 % 256] + Zeros(pad) == UnpackedBlock(n, a);
  }

  // The copying pass stands at node k: `src` has reached it, and the blocks of the nodes before it
  // fill the buffer up to `dest`, with zeros from there on.
  ghost predicate CopiedTo(mem: seq<Byte>, src: nat, now: seq<Byte>, dest: nat, ns: seq<Node>, k: nat, a: nat)
    requires Alignment(a)
  {
    && k < |ns| && NodesAt(mem, src, ns[k..])
    && dest == |UnpackedBytes(ns[..k], a)| <= |now| == |UnpackedBytes(ns, a)|
    && now[..dest] == UnpackedBytes(ns[..k], a) && now[dest..] == Zeros(|now| - dest)
  }

  lemma CopyStarts(mem: seq<Byte>, path: nat, now: seq<Byte>, ns: seq<Node>, a: nat)
    requires Alignment(a) && IsPath(ns) && NodesAt(mem, path, ns) && now == Zeros(|UnpackedBytes(ns, a)|)
    ensures CopiedTo(mem, path, now, 0, ns, 0, a)
  {
    assert ns[..0] == [] && ns[0..] == ns;
  }

  // The node at hand, and the room for its block.
  lemma CopyNext(mem: seq<Byte>, src: nat, now: seq<Byte>, dest: nat, ns: seq<Node>, k: nat, a: nat)
    requires Alignment(a) && IsPath(ns) && CopiedTo(mem, src, now, dest, ns, k, a)
    ensures NodesAt(mem, src, [ns[k]]) && Header(mem, src) && IsDevicePathEnd(mem, src) == IsEnd(ns[k])
    ensures dest + RoundedLength(ns[k], a) <= |now| && now[dest..] == Zeros(|now| - dest)
  {
    hide Encode, IsDevicePathEndType, DevicePathSubType, DevicePathNodeLength, UnpackedBlock, Alignment, AlignSize;
    ReadNode(mem, src, ns[k..]);
    UnpackedTo(ns, k, a);
    NodesFrom(mem, src, ns[k..], 1);
    assert ns[k..][..1] == [ns[k]];
  }

  lemma CopyGoesOn(mem: seq<Byte>, src: nat, was: seq<Byte>, dest: nat, now: seq<Byte>, next: nat,
                   ns: seq<Node>, k: nat, a: nat)
    requires Alignment(a) && IsPath(ns) && CopiedTo(mem, src, was, dest, ns, k, a) && |now| == |was|
    requires next == dest + RoundedLength(ns[k], a) <= |now|
    requires now[..next] == was[..dest] + UnpackedBlock(ns[k], a) && now[next..] == Zeros(|now| - next)
    ensures Header(mem, src)
    ensures if IsEnd(ns[k]) then now == UnpackedBytes(ns, a)
      else k + 1 < |ns| && CopiedTo(mem, NextDevicePathNode(mem, src), now, next, ns, k + 1, a)
  {
    NodeBehind(mem, src, ns, k);
    UnpackedTo(ns, k, a);
    LastIsEnd(ns, k);
    assert |UnpackedBlock(ns[k], a)| == RoundedLength(ns[k], a);
    assert ns[..|ns|] == ns;
    hide Encode, Size, NodesAt, IsPath, IsEnd, Header, NextDevicePathNode, UnpackedBytes, UnpackedBlock, RoundedLength;
    hide Zeros, Alignment;
    assert now[..next] == UnpackedBytes(ns[..k + 1], a);
    assert now[..|now|] == now;
  }

  lemma NodeBehind(mem: seq<Byte>, src: nat, ns: seq<Node>, k: nat)
    requires k < |ns| && NodesAt(mem, src, ns[k..])
    ensures Header(mem, src) && NodesAt(mem, NextDevicePathNode(mem, src), ns[k + 1..])
  {
    ReadNode(mem, src, ns[k..]);
    assert ns[k..][1..] == ns[k + 1..];
    hide Encode, NodesAt, DevicePathNodeLength;
  }

  lemma LastIsEnd(ns: seq<Node>, k: nat)
    requires IsPath(ns) && k < |ns|
    ensures IsEnd(ns[k]) <==> k == |ns| - 1
  {}

  method UnpackDevicePath(mem: seq<Byte>, path: nat, a: nat, pool: bool, ghost ns: seq<Node>)
    returns (newPath: array?<Byte>)
    requires Alignment(a) && IsPath(ns) && NodesAt(mem, path, ns)
    ensures newPath != null <==> pool
    ensures newPath != null ==> fresh(newPath) && newPath[..] == UnpackedBytes(ns, a)
  {
    hide Encode, IsDevicePathEndType, DevicePathSubType, DevicePathNodeLength, UnpackedBlock;
    hide UnpackedBytes, Alignment, IsEnd, IsPath, NodesAt, CopiedTo;
    var size := SizingPass(mem, path, a, ns);
    if !pool {
      return null;
    }
    newPath := new Byte[size](_ => 0);
    CopyStarts(mem, path, newPath[..], ns, a);
    var src := path;
    var dest: nat := 0;
    ghost var k := 0;
    while true
      invariant k < |ns| && newPath.Length == size
      invariant CopiedTo(mem, src, newPath[..], dest, ns, k, a)
      decreases |ns| - k
    {
      ghost var was := newPath[..];
      CopyNext(mem, src, was, dest, ns, k, a);
      var next := UnpackNode(newPath, dest, mem, src, a, ns[k]);
      CopyGoesOn(mem, src, was, dest, newPath[..], next, ns, k, a);
      dest := next;
      if IsDevicePathEnd(mem, src) {
        break;
      }
      src := NextDevicePathNode(mem, src);
      k := k + 1;
    }
  }

  // ---- what the unpacked bytes are ----

  // Where block k starts.
  function BlockStart(ns: seq<Node>, k: nat, a: nat): nat
    requires Alignment(a) && k <= |ns|
  {
    |UnpackedBytes(ns[..k], a)|
  }

  lemma {:induction false} BlocksAreAligned(ns: seq<Node>, k: nat, a: nat)
    requires Alignment(a) && k <= |ns|
    ensures Aligned(BlockStart(ns, k, a), a)
    decreases k
  {
    hide UnpackedBlock, AlignSize;
    if k > 0 {
      BlocksAreAligned(ns, k - 1, a);
      UnpackedTo(ns, k - 1, a);
      RoundingAgrees(BlockStart(ns, k - 1, a), NodeLength(ns[k - 1]), a);
      hide Alignment, Aligned;
    } else {
      assert UnpackedBytes(ns[..0], a) == [] && Aligned(0, a);
    }
  }

  predicate RoundingFits(n: Node, a: nat)
    requires Alignment(a)
  {
    NodeLength(n) + a <= 0x1_0000
  }

  lemma FitsOrWraps(n: Node, a: nat)
    requires Alignment(a)
    ensures RoundingFits(n, a) ==> RoundedLength(n, a) < 0x1_0000
    ensures !RoundingFits(n, a) ==> RoundedLength(n, a) == 0x1_0000
  {
    if a == 4 { Wrap4(NodeLength(n)); } else { Wrap8(NodeLength(n)); }
  }

  lemma Wrap4(len: nat)
    requires len < 0x1_0000
    ensures len <= 0xfffc ==> len + AlignSize(len, 4) <= 0xfffc
    ensures len > 0xfffc ==> len + AlignSize(len, 4) == 0x1_0000
  {}

  lemma Wrap8(len: nat)
    requires len < 0x1_0000
    ensures len <= 0xfff8 ==> len + AlignSize(len, 8) <= 0xfff8
    ensures len > 0xfff8 ==> len + AlignSize(len, 8) == 0x1_0000
  {}

  // The node an unpacked block encodes.
  function UnpackedNode(n: Node, a: nat): Node
    requires Alignment(a) && RoundingFits(n, a)
  {
    FitsOrWraps(n, a);
    Node(Marked(n.kind), n.sub, n.payload + Zeros(AlignSize(NodeLength(n), a)))
  }

  function UnpackedNodes(ns: seq<Node>, a: nat): (us: seq<Node>)
    requires Alignment(a) && forall i :: 0 <= i < |ns| ==> RoundingFits(ns[i], a)
    ensures |us| == |ns| && forall i :: 0 <= i < |ns| ==> us[i] == UnpackedNode(ns[i], a)
    decreases |ns|
  {
    if ns == [] then [] else [UnpackedNode(ns[0], a)] + UnpackedNodes(ns[1..], a)
  }

  // The unpacked bytes are the same nodes again: same masked type, same subtype, same payload
  // followed by fewer than `a` zeros.
  lemma {:induction false} UnpackedIsSameNodes(ns: seq<Node>, a: nat)
    requires Alignment(a) && forall i :: 0 <= i < |ns| ==> RoundingFits(ns[i], a)
    ensures Encode(UnpackedNodes(ns, a)) == UnpackedBytes(ns, a)
    ensures forall i :: 0 <= i < |ns| ==> SameButPadded(ns[i], UnpackedNodes(ns, a)[i], a)
    decreases |ns|
  {
    hide EncodeNode, UnpackedBlock, RoundingFits;
    if ns != [] {
      UnpackedIsSameNodes(ns[1..], a);
      BlockIsNode(ns[0], a);
      forall i | 0 <= i < |ns| ensures SameButPadded(ns[i], UnpackedNodes(ns, a)[i], a) {
        BlockIsNode(ns[i], a);
      }
    }
  }

  predicate SameButPadded(n: Node, u: Node, a: nat)
    requires Alignment(a)
  {
    && u.kind % 128 == n.kind % 128 && u.kind >= 0x80 && u.sub == n.sub
    && IsEnd(u) == IsEnd(n)
    && NodeLength(n) <= NodeLength(u) < NodeLength(n) + a && Aligned(NodeLength(u), a)
    && n.payload <= u.payload && forall i :: |n.payload| <= i < |u.payload| ==> u.payload[i] == 0
  }

  lemma BlockIsNode(n: Node, a: nat)
    requires Alignment(a) && RoundingFits(n, a)
    ensures EncodeNode(UnpackedNode(n, a)) == UnpackedBlock(n, a)
    ensures SameButPadded(n, UnpackedNode(n, a), a)
  {
    FitsOrWraps(n, a);
    RoundingAgrees(0, NodeLength(n), a);
    PadIsShort(NodeLength(n), a);
    var u := UnpackedNode(n, a);
    assert NodeLength(u) == RoundedLength(n, a);
    MarkedKind(n.kind);
    hide Alignment, AlignSize, RoundingFits, Marked;
    assert RoundedLength(n, a) / 256 % 256 == RoundedLength(n, a) / 256;
  }

  lemma MarkedKind(kind: Byte)
    ensures Marked(kind) % 128 == kind % 128 && Marked(kind) >= 0x80
  {}

  lemma PadIsShort(len: nat, a: nat)
    requires Alignment(a)
    ensures AlignSize(len, a) < a
  {}

  // Following the length fields leads from block to block exactly when every rounded length
  // fits its 16-bit field.
  lemma LengthFieldsLeadOnIff(ns: seq<Node>, a: nat)
    requires Alignment(a)
    ensures (forall k :: 0 <= k < |ns| ==> BlockLeadsOn(ns, k, a))
       <==> (forall k :: 0 <= k < |ns| ==> RoundingFits(ns[k], a))
  {
    forall k | 0 <= k < |ns| ensures BlockLeadsOn(ns, k, a) <==> RoundingFits(ns[k], a) {
      LeadsOnIff(ns, k, a);
    }
  }

  ghost predicate BlockLeadsOn(ns: seq<Node>, k: nat, a: nat)
    requires Alignment(a) && k < |ns|
  {
    var b, o := UnpackedBytes(ns, a), BlockStart(ns, k, a);
    Header(b, o) && NextDevicePathNode(b, o) == BlockStart(ns, k + 1, a)
  }

  // For instance behind a node of 0xfffd bytes: the field holds 0, and the walk stands still.
  lemma LongNodeLeadsNowhere()
    ensures var n := Node(1, 1, seq(0xfff9, _ => 0)); var ns: seq<Node> := [n, END_ENTIRE_NODE];
      && NodeLength(n) == 0xfffd && IsPath(ns) && !RoundingFits(n, 4)
      && Header(UnpackedBytes(ns, 4), 0) && NextDevicePathNode(UnpackedBytes(ns, 4), 0) == 0
  {
    var n: Node := Node(1, 1, seq(0xfff9, _ => 0));
    var ns: seq<Node> := [n, END_ENTIRE_NODE];
    assert RoundedLength(n, 4) == 0x1_0000;
    BlockLengthField(n, 4);
    var block := UnpackedBlock(n, 4);
    assert UnpackedBytes(ns, 4) == block + UnpackedBytes(ns[1..], 4);
    hide UnpackedBlock, UnpackedBytes;
    assert UnpackedBytes(ns, 4)[2] == block[2] && UnpackedBytes(ns, 4)[3] == block[3];
  }

  lemma BlockLengthField(n: Node, a: nat)
    requires Alignment(a)
    ensures DevicePathNodeLength(UnpackedBlock(n, a), 0) == RoundedLength(n, a) % 0x1_0000
  {
    FitsOrWraps(n, a);
    hide Alignment, AlignSize;
    var block, len := UnpackedBlock(n, a), RoundedLength(n, a);
    assert block[2] == len % 256 && block[3] == len / 256 % 256;
  }

  // A block byte by byte, whether or not its length fits the field: the marked type, the subtype, the
  // length less multiples of 2^16 with its low byte first, the payload, and zeros up to the next
  // multiple of the alignment.
  lemma BlockBytes(n: Node, a: nat)
    requires Alignment(a)
    ensures var block := UnpackedBlock(n, a); var end := 4 + |n.payload|;
      && end <= |block| < end + a && |block| % a == 0
      && block[0] % 128 == n.kind % 128 && block[0] >= 0x80 && block[1] == n.sub
      && block[2] as int + 256 * (block[3] as int) == |block| % 0x1_0000
      && block[4..end] == n.payload && forall i :: end <= i < |block| ==> block[i] == 0
  {
    BlockLengthField(n, a);
    MarkedKind(n.kind);
    RoundingAgrees(0, NodeLength(n), a);
    PadIsShort(NodeLength(n), a);
    hide Alignment, AlignSize, Marked;
  }

  lemma LeadsOnIff(ns: seq<Node>, k: nat, a: nat)
    requires Alignment(a) && k < |ns|
    ensures BlockLeadsOn(ns, k, a) <==> RoundingFits(ns[k], a)
  {
    hide UnpackedBlock, AlignSize;
    UnpackedTo(ns, k, a);
    FitsOrWraps(ns[k], a);
    BlockLengthField(ns[k], a);
    assert ns == ns[..k + 1] + ns[k + 1..];
    UnpackedAppend(ns[..k + 1], ns[k + 1..], a);
    var b, o, block := UnpackedBytes(ns, a), BlockStart(ns, k, a), UnpackedBlock(ns[k], a);
    hide UnpackedBytes, Alignment, RoundingFits;
    assert b[o..o + |block|] == block;
    assert b[o + 2] == block[2] && b[o + 3] == block[3];
  }
}
