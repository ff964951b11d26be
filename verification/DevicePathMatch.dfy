// Matching one device path against the instances of another.
module DevicePathMatch {
  import opened Bytes
  import opened Options
  import opened DevicePathNodes
  import opened DevicePath
  import opened DevicePathAppend

  // Until the first difference, every place compared lies within d.
  ghost predicate DiffersWithin(d: seq<Byte>, s: seq<Byte>) {
    forall i :: 0 <= i < |s| && i <= |d| && d[..i] == s[..i] ==> i < |d|
  }

  // The bytes agree up to place i, and there the first operand exceeds the second by r.
  ghost predicate FirstDifference(mem: seq<Byte>, dest: nat, src: nat, i: nat, r: int)
    requires dest + i < |mem| && src + i < |mem|
  {
    mem[dest..dest + i] == mem[src..src + i] && mem[dest + i] as int == mem[src + i] as int + r
  }

  // No place of the first operand at or after `limit` is read.
  method RtCompareMem(mem: seq<Byte>, dest: nat, src: nat, length: nat, ghost limit: nat) returns (r: int)
    requires dest <= limit <= |mem| && src + length <= |mem|
    requires DiffersWithin(mem[dest..limit], mem[src..src + length])
    ensures r == 0 <==> mem[src..src + length] <= mem[dest..limit]
    ensures r != 0 ==> exists i :: 0 <= i < length && dest + i < limit && FirstDifference(mem, dest, src, i, r)
  {
    ghost var a, b := mem[dest..limit], mem[src..src + length];
    var i, len := 0, length;
    while len != 0
      invariant 0 <= i <= |a| && 0 <= len == length - i && a[..i] == b[..i]
    {
      len := len - 1;
      assert dest + i < limit && mem[dest + i] == a[i] && mem[src + i] == b[i];
      if mem[dest + i] != mem[src + i] {
        r := mem[dest + i] as int - mem[src + i] as int;
        assert a[..i] == mem[dest..dest + i] && b[..i] == mem[src..src + i];
        assert FirstDifference(mem, dest, src, i, r);
        return;
      }
      assert a[..i + 1] == a[..i] + [a[i]] && b[..i + 1] == b[..i] + [b[i]];
      i := i + 1;
    }
    return 0;
  }

  lemma FirstBytes(ns: seq<Node>)
    requires ns != []
    ensures Size(ns) >= NodeLength(ns[0]) && Encode(ns)[0] == ns[0].kind
    ensures Encode(ns)[..NodeLength(ns[0])] == EncodeNode(ns[0])
    ensures Encode(ns)[NodeLength(ns[0])..] == Encode(ns[1..])
  {}

  lemma SameHeaderSameLength(b: seq<Byte>, c: seq<Byte>, n: Node, m: Node)
    requires NODE_HEADER <= |b| && NODE_HEADER <= |c| && b[..NODE_HEADER] == c[..NODE_HEADER]
    requires b[..NODE_HEADER] == EncodeNode(n)[..NODE_HEADER] && c[..NODE_HEADER] == EncodeNode(m)[..NODE_HEADER]
    ensures NodeLength(n) == NodeLength(m)
  {
    assert EncodeNode(n)[..NODE_HEADER][2] == EncodeNode(m)[..NODE_HEADER][2];
    assert EncodeNode(n)[..NODE_HEADER][3] == EncodeNode(m)[..NODE_HEADER][3];
  }

  // As long as the nodes of an instance agree byte for byte with a path, the comparison has not
  // reached the end of the path: no node of an instance looks like the path's terminator.
  lemma {:induction false} AgreesWithin(inst: seq<Node>, ss: seq<Node>, i: nat)
    requires NoEnds(inst) && IsPath(ss)
    requires i < Size(inst) && i <= Size(ss) && Encode(ss)[..i] == Encode(inst)[..i]
    ensures i < Size(ss)
    decreases |inst|
  {
    hide Encode, EncodeNode, IsPath;
    EmptySize(inst);
    assert inst != [] by { NothingEncoded(); }
    assert ss != [] by { PathNotEmpty(ss); }
    FirstBytes(inst);
    FirstBytes(ss);
    var a, b := Encode(inst), Encode(ss);
    var len := NodeLength(ss[0]);
    if i >= len {
      assert a[..i][0] == a[0] && b[..i][0] == b[0];
      assert !IsEndType(ss[0]);
      assert a[..i][..NODE_HEADER] == a[..NODE_HEADER] && b[..i][..NODE_HEADER] == b[..NODE_HEADER];
      assert a[..NODE_HEADER] == EncodeNode(inst[0])[..NODE_HEADER];
      assert b[..NODE_HEADER] == EncodeNode(ss[0])[..NODE_HEADER];
      SameHeaderSameLength(a, b, inst[0], ss[0]);
      RestIsPath(ss, 0);
      assert Encode(inst[1..])[..i - len] == a[..i][len..] && Encode(ss[1..])[..i - len] == b[..i][len..];
      AgreesWithin(inst[1..], ss[1..], i - len);
    }
  }

  lemma PathNotEmpty(ns: seq<Node>)
    requires IsPath(ns)
    ensures ns != []
  {}

  // Byte prefixes are node prefixes.
  lemma {:induction false} PrefixOfBytesIff(inst: seq<Node>, ss: seq<Node>)
    requires NoEnds(inst) && IsPath(ss)
    ensures Encode(inst) <= Encode(ss) <==> inst <= ss
    decreases |inst|
  {
    hide Encode, EncodeNode, IsPath;
    NothingEncoded();
    PathNotEmpty(ss);
    FirstBytes(ss);
    if inst != [] {
      FirstBytes(inst);
      var a, b := Encode(inst), Encode(ss);
      var x, y := EncodeNode(inst[0]), EncodeNode(ss[0]);
      if a <= b || inst[0] == ss[0] {
        if a <= b {
          assert a[..NODE_HEADER] == b[..NODE_HEADER];
          assert a[..NODE_HEADER] == x[..NODE_HEADER] && b[..NODE_HEADER] == y[..NODE_HEADER];
          SameHeaderSameLength(a, b, inst[0], ss[0]);
          assert x == a[..|x|] == b[..|x|] == y;
          SameNode(inst[0], ss[0]);
        }
        RestIsPath(ss, 0);
        PrefixOfBytesIff(inst[1..], ss[1..]);
        assert a == x + Encode(inst[1..]) && b == x + Encode(ss[1..]);
        assert inst == [inst[0]] + inst[1..] && ss == [inst[0]] + ss[1..];
      }
    }
  }

  lemma SameNode(n: Node, m: Node)
    requires EncodeNode(n) == EncodeNode(m)
    ensures n == m
  {
    assert n.payload == EncodeNode(n)[NODE_HEADER..] == EncodeNode(m)[NODE_HEADER..] == m.payload;
    assert EncodeNode(n)[0] == n.kind && EncodeNode(m)[0] == m.kind;
    assert EncodeNode(n)[1] == n.sub && EncodeNode(m)[1] == m.sub;
  }

  ghost predicate SomePrefix(insts: seq<seq<Node>>, ss: seq<Node>) {
    exists i :: 0 <= i < |insts| && insts[i] <= ss
  }

  // True when some enumerated instance of Multi is, node for node, where Single starts. The
  // comparison is given no more of the memory than runs to the end of Single's terminator.
  method LibMatchDevicePaths(mem: seq<Byte>, multi: Option<nat>, single: Option<nat>,
                             ghost ns: seq<Node>, ghost ss: seq<Node>)
    returns (r: bool)
    requires multi.Some? ==> IsPath(ns) && NodesAt(mem, multi.value, ns)
    requires single.Some? ==> IsPath(ss) && NodesAt(mem, single.value, ss)
    ensures r <==> multi.Some? && single.Some? && SomePrefix(Enumerated(ns), ss)
  {
    hide Encode, IsPath, Enumerated, Instances;
    if multi.None? || single.None? {
      return false;
    }
    ghost var end := single.value + Size(ss);
    var devicePath := multi;
    ghost var cur := ns;
    while true
      invariant devicePath.Some? ==> IsPath(cur) && NodesAt(mem, devicePath.value, cur)
      invariant SomePrefix(Enumerated(ns), ss) <==> devicePath.Some? && SomePrefix(Enumerated(cur), ss)
      decreases if devicePath.Some? then |cur| else -1
    {
      var inst, size, next := DevicePathInstance(mem, devicePath, cur);
      if inst.None? {
        return false;
      }
      ghost var k := StopIndex(cur);
      NodesFrom(mem, inst.value, cur, k);
      FirstInstance(cur);
      StopsBeforeEnd(cur);
      MayCompare(cur[..k], ss);
      PrefixOfBytesIff(cur[..k], ss);
      var cmp := RtCompareMem(mem, single.value, inst.value, size, end);
      SomePrefixStep(cur[..k], Enumerated(cur)[1..], ss);
      if cmp == 0 {
        return true;
      }
      if next.Some? {
        cur := cur[k + 1..];
      }
      devicePath := next;
    }
  }

  // For uncut instances that is: of some instance.
  lemma UncutAreMatched(ns: seq<Node>, ss: seq<Node>)
    requires IsPath(ns) && ShortInstances(ns)
    ensures SomePrefix(Enumerated(ns), ss) <==> SomePrefix(Instances(ns), ss)
  {
    EnumeratesInstancesIff(ns);
  }

  // A single instance of 514 nodes is cut, and the empty rest that is enumerated matches any path.
  lemma CutInstanceMatchesAnything(n: Node, ss: seq<Node>)
    requires !IsEndType(n) && n.sub != END_ENTIRE && IsPath(ss)
    ensures var ns := seq(514, _ => n) + [END_ENTIRE_NODE];
      IsPath(ns) && SomePrefix(Enumerated(ns), ss) && (|ss| < 514 ==> !SomePrefix(Instances(ns), ss))
  {
    var ns := seq(514, _ => n) + [END_ENTIRE_NODE];
    LongInstanceIsCut(n);
    hide Enumerated, Instances, IsPath;
    assert Enumerated(ns)[1] == [] && [] <= ss;
  }

  lemma StopsBeforeEnd(ns: seq<Node>)
    requires IsPath(ns)
    ensures NoEnds(ns[..StopIndex(ns)])
  {}

  lemma MayCompare(inst: seq<Node>, ss: seq<Node>)
    requires NoEnds(inst) && IsPath(ss)
    ensures DiffersWithin(Encode(ss), Encode(inst))
  {
    hide Encode, IsPath;
    forall i | 0 <= i < Size(inst) && i <= Size(ss) && Encode(ss)[..i] == Encode(inst)[..i] ensures i < Size(ss) {
      AgreesWithin(inst, ss, i);
    }
  }

  lemma SomePrefixStep(first: seq<Node>, rest: seq<seq<Node>>, ss: seq<Node>)
    ensures SomePrefix([first] + rest, ss) <==> first <= ss || SomePrefix(rest, ss)
  {
    var all := [first] + rest;
    assert all[0] == first && forall i :: 0 <= i < |rest| ==> all[i + 1] == rest[i];
  }
}
