// The header that starts every EFI table, and the CRC kept in it. A table is its bytes;
// multi-byte fields are little-endian.
module TableHeader {
  import opened CrcRegister
  import opened CrcDivision
  import opened Crc
  import opened CrcDetection

  const HEADER_LENGTH := 24
  const HEADER_SIZE_FIELD := 12
  const CRC_FIELD := 16

  type Table = h: seq<bv8> | HEADER_LENGTH <= |h| witness seq(HEADER_LENGTH, _ => 0)

  function Word32(b0: bv8, b1: bv8, b2: bv8, b3: bv8): bv32 {
    (b0 as bv32) | ((b1 as bv32) << 8) | ((b2 as bv32) << 16) | ((b3 as bv32) << 24)
  }

  function ByteOf(v: bv32, k: nat): bv8
    requires k < 4
  {
    if k == 0 then (v & 0xff) as bv8
    else if k == 1 then ((v >> 8) & 0xff) as bv8
    else if k == 2 then ((v >> 16) & 0xff) as bv8
    else (v >> 24) as bv8
  }

  lemma BytesOfWord(v: bv32)
    ensures Word32(ByteOf(v, 0), ByteOf(v, 1), ByteOf(v, 2), ByteOf(v, 3)) == v
  {}

  lemma WordOfBytes(b0: bv8, b1: bv8, b2: bv8, b3: bv8)
    ensures var v := Word32(b0, b1, b2, b3);
      ByteOf(v, 0) == b0 && ByteOf(v, 1) == b1 && ByteOf(v, 2) == b2 && ByteOf(v, 3) == b3
  {}

  function StoredCrc(h: Table): bv32 {
    Word32(h[CRC_FIELD], h[CRC_FIELD + 1], h[CRC_FIELD + 2], h[CRC_FIELD + 3])
  }

  function HeaderSize(h: Table): bv32 {
    Word32(h[HEADER_SIZE_FIELD], h[HEADER_SIZE_FIELD + 1], h[HEADER_SIZE_FIELD + 2], h[HEADER_SIZE_FIELD + 3])
  }

  predicate InCrcField(i: int) { CRC_FIELD <= i < CRC_FIELD + 4 }

  // The table with `v` in its CRC field.
  function WithCrc(h: Table, v: bv32): (r: Table)
    ensures |r| == |h| && forall i :: 0 <= i < |h| && !InCrcField(i) ==> r[i] == h[i]
  {
    h[CRC_FIELD := ByteOf(v, 0)][CRC_FIELD + 1 := ByteOf(v, 1)]
     [CRC_FIELD + 2 := ByteOf(v, 2)][CRC_FIELD + 3 := ByteOf(v, 3)]
  }

  // The CRC of the first `size` bytes, the field itself counting as zero.
  function TableCrc(h: Table, size: nat): bv32
    requires size <= |h|
  {
    Crc32(WithCrc(h, 0)[..size])
  }

  function Signed(h: Table, size: nat): Table
    requires size <= |h|
  {
    WithCrc(h, TableCrc(h, size))
  }

  predicate SizeAllowed(maxSize: nat, size: nat) {
    size != 0 && (maxSize == 0 || size <= maxSize)
  }

  predicate Accepts(maxSize: nat, size: nat, h: Table)
    requires SizeAllowed(maxSize, size) ==> size <= |h|
  {
    SizeAllowed(maxSize, size) && StoredCrc(h) == TableCrc(h, size)
  }

  // ---- the routines, in place ----

  method StoreCrc(hdr: array<bv8>, v: bv32)
    requires HEADER_LENGTH <= hdr.Length
    modifies hdr
    ensures hdr[..] == WithCrc(old(hdr[..]), v)
  {
    hide ByteOf;
    hdr[CRC_FIELD] := ByteOf(v, 0);
    hdr[CRC_FIELD + 1] := ByteOf(v, 1);
    hdr[CRC_FIELD + 2] := ByteOf(v, 2);
    hdr[CRC_FIELD + 3] := ByteOf(v, 3);
  }

  method SetCrcAltSize(size: nat, hdr: array<bv8>)
    requires HEADER_LENGTH <= hdr.Length && size <= hdr.Length
    modifies hdr
    ensures hdr[..] == Signed(old(hdr[..]), size)
  {
    hide ByteOf, Crc32;
    StoreCrc(hdr, 0);
    var crc := CalculateCrc(hdr[..], size);
    StoreCrc(hdr, crc);
    assert hdr[..] == Signed(old(hdr[..]), size);
  }

  method CheckCrcAltSize(maxSize: nat, size: nat, hdr: array<bv8>) returns (f: bool)
    requires HEADER_LENGTH <= hdr.Length
    requires SizeAllowed(maxSize, size) ==> size <= hdr.Length
    modifies hdr
    ensures hdr[..] == old(hdr[..])
    ensures f == Accepts(maxSize, size, hdr[..])
  {
    hide ByteOf, Crc32, Word32;
    if size == 0 {
      return false;
    }
    if maxSize != 0 && size > maxSize {
      return false;
    }
    var orgCrc := Word32(hdr[CRC_FIELD], hdr[CRC_FIELD + 1], hdr[CRC_FIELD + 2], hdr[CRC_FIELD + 3]);
    StoreCrc(hdr, 0);
    var crc := CalculateCrc(hdr[..], size);
    RestoreCrc(old(hdr[..]), 0);
    StoreCrc(hdr, orgCrc);
    f := orgCrc == crc;
  }

  method SetCrc(hdr: array<bv8>)
    requires HEADER_LENGTH <= hdr.Length && HeaderSize(hdr[..]) as int <= hdr.Length
    modifies hdr
    ensures hdr[..] == Signed(old(hdr[..]), HeaderSize(old(hdr[..])) as int)
  {
    hide Word32;
    SetCrcAltSize(Word32(hdr[12], hdr[13], hdr[14], hdr[15]) as int, hdr);
  }

  method CheckCrc(maxSize: nat, hdr: array<bv8>) returns (f: bool)
    requires HEADER_LENGTH <= hdr.Length
    requires SizeAllowed(maxSize, HeaderSize(hdr[..]) as int) ==> HeaderSize(hdr[..]) as int <= hdr.Length
    modifies hdr
    ensures hdr[..] == old(hdr[..])
    ensures f == Accepts(maxSize, HeaderSize(hdr[..]) as int, hdr[..])
  {
    hide Word32;
    f := CheckCrcAltSize(maxSize, Word32(hdr[12], hdr[13], hdr[14], hdr[15]) as int, hdr);
  }

  // ---- what the pair guarantees ----

  lemma WithCrcTwice(h: Table, v: bv32, w: bv32)
    ensures WithCrc(WithCrc(h, v), w) == WithCrc(h, w)
  {
    hide ByteOf;
  }

  lemma StoredWithCrc(h: Table, v: bv32)
    ensures StoredCrc(WithCrc(h, v)) == v
  {
    hide ByteOf, Word32;
    BytesOfWord(v);
  }

  lemma WithOwnCrc(h: Table)
    ensures WithCrc(h, StoredCrc(h)) == h
  {
    hide ByteOf, Word32;
    WordOfBytes(h[CRC_FIELD], h[CRC_FIELD + 1], h[CRC_FIELD + 2], h[CRC_FIELD + 3]);
  }

  lemma RestoreCrc(h: Table, v: bv32)
    ensures WithCrc(WithCrc(h, v), StoredCrc(h)) == h
  {
    WithCrcTwice(h, v, StoredCrc(h));
    WithOwnCrc(h);
  }

  // A table whose CRC was set is accepted at the same size, and nothing but the field was changed.
  lemma SignedIsAccepted(h: Table, maxSize: nat, size: nat)
    requires SizeAllowed(maxSize, size) && size <= |h|
    ensures Accepts(maxSize, size, Signed(h, size))
    ensures forall i :: 0 <= i < |h| && !InCrcField(i) ==> Signed(h, size)[i] == h[i]
  {
    hide WithCrc, StoredCrc, Crc32;
    StoredWithCrc(h, TableCrc(h, size));
    WithCrcTwice(h, TableCrc(h, size), 0);
  }

  lemma SetCrcKeepsHeaderSize(h: Table, size: nat)
    requires size <= |h|
    ensures HeaderSize(Signed(h, size)) == HeaderSize(h)
  {
    hide ByteOf, Word32, Crc32;
  }

  // An accepted table whose CRC field is left alone and which changes somewhere within four
  // consecutive covered bytes is rejected.
  lemma BurstIsRejected(h: Table, h': Table, maxSize: nat, maxSize': nat, size: nat, p: nat)
    requires |h| == |h'| && SizeAllowed(maxSize, size) && size <= |h|
    requires Accepts(maxSize, size, h)
    requires h != h' && forall i :: 0 <= i < |h| && h[i] != h'[i] ==> p <= i < p + 4 && i < size && !InCrcField(i)
    ensures !Accepts(maxSize', size, h')
  {
    hide Crc32, Word32, ByteOf, StoredCrc;
    var k :| 0 <= k < |h| && h[k] != h'[k];
    var a, b := WithCrc(h, 0)[..size], WithCrc(h', 0)[..size];
    SameStoredCrc(h, h');
    CoveredBytes(h, h', size, p);
    assert a[k] != b[k];
    WindowIsSeen(a, b, p, if p + 4 <= size then p + 4 else size);
  }

  lemma SameStoredCrc(h: Table, h': Table)
    requires |h| == |h'| && forall i :: 0 <= i < |h| && h[i] != h'[i] ==> !InCrcField(i)
    ensures StoredCrc(h) == StoredCrc(h')
  {
    hide Word32;
  }

  lemma CoveredBytes(h: Table, h': Table, size: nat, p: nat)
    requires |h| == |h'| && size <= |h|
    requires forall i :: 0 <= i < |h| && h[i] != h'[i] ==> p <= i < p + 4 && i < size && !InCrcField(i)
    ensures var a, b := WithCrc(h, 0)[..size], WithCrc(h', 0)[..size];
      forall i :: 0 <= i < size ==> if InCrcField(i) then a[i] == b[i] else a[i] == h[i] && b[i] == h'[i]
  {
    hide ByteOf;
  }

  // A damaged CRC field is rejected too.
  lemma CrcFieldDamageIsRejected(h: Table, h': Table, maxSize: nat, maxSize': nat, size: nat)
    requires |h| == |h'| && SizeAllowed(maxSize, size) && size <= |h|
    requires Accepts(maxSize, size, h)
    requires h != h' && forall i :: 0 <= i < |h| && h[i] != h'[i] ==> InCrcField(i)
    ensures !Accepts(maxSize', size, h')
  {
    hide Crc32;
    WithOwnCrc(h);
    WithOwnCrc(h');
    hide ByteOf, Word32;
    assert WithCrc(h, 0) == WithCrc(h', 0);
    assert WithCrc(h, StoredCrc(h')) == WithCrc(h', StoredCrc(h'));
  }

  // What an alteration changes of the covered bytes, the field itself counting as zero.
  function Alteration(h: Table, h': Table, size: nat): seq<bool>
    requires |h| == |h'| && size <= |h|
  {
    Difference(Bits(WithCrc(h, 0)[..size]), Bits(WithCrc(h', 0)[..size]))
  }

  // Whatever is altered, the field included, it is missed exactly when the field changes by what the
  // generator leaves of the rest; if the field is kept, when the generator divides the alteration.
  lemma AlterationMissedIff(h: Table, h': Table, maxSize: nat, size: nat)
    requires |h| == |h'| && SizeAllowed(maxSize, size) && size <= |h| && Accepts(maxSize, size, h)
    ensures Accepts(maxSize, size, h') <==>
      Unpack(Xor(StoredCrc(h), StoredCrc(h'))) == Remainder(Alteration(h, h', size) + Zeros(32))
    ensures StoredCrc(h) == StoredCrc(h') ==>
      (Accepts(maxSize, size, h') <==> GeneratorDivides(Alteration(h, h', size)))
  {
    hide Crc32, StoredCrc, Bits, Difference, GeneratorDivides, WithCrc, Unpack, Xor, Remainder;
    var a, b := WithCrc(h, 0)[..size], WithCrc(h', 0)[..size];
    CrcDifference(a, b);
    SameCrcIffGeneratorDivides(a, b);
    if Unpack(Xor(StoredCrc(h), StoredCrc(h'))) == Unpack(Xor(Crc32(a), Crc32(b))) {
      UnpackIsInjective(Xor(StoredCrc(h), StoredCrc(h')), Xor(Crc32(a), Crc32(b)));
      XorCancels(Crc32(a), StoredCrc(h'), Crc32(b));
    }
  }

  // ---- a header byte by byte ----

  // A number written lowest byte first.
  predicate Written(v: bv32, b: seq<bv8>) {
    && |b| == 4
    && v == (b[0] as bv32) | ((b[1] as bv32) << 8) | ((b[2] as bv32) << 16) | ((b[3] as bv32) << 24)
  }

  lemma WrittenMeans(v: bv32, b: seq<bv8>)
    requires |b| == 4
    ensures Written(v, b) <==> v == Word32(b[0], b[1], b[2], b[3])
  {}

  // A header: the signature and the revision, twelve bytes; the header size, the CRC and a reserved
  // word, four bytes each; then the rest of the table. Setting and checking go by the CRC of these
  // bytes with four zeros in place of their CRC.
  lemma HeaderBytes(start: seq<bv8>, size: seq<bv8>, crc: seq<bv8>, rest: seq<bv8>, maxSize: nat, n: nat)
    requires |start| == 12 && |size| == 4 && |crc| == 4 && |rest| >= 4 && n <= 20 + |rest|
    ensures var h := start + size + crc + rest; var c := Crc32((start + size + [0, 0, 0, 0] + rest)[..n]);
      && Written(HeaderSize(h), size)
      && (exists b :: Written(c, b) && Signed(h, n) == start + size + b + rest)
      && (Accepts(maxSize, n, h) <==> n != 0 && (maxSize == 0 || n <= maxSize) && Written(c, crc))
  {
    hide Crc32, Written, Word32, ByteOf, WithCrc;
    var h := start + size + crc + rest;
    var c := TableCrc(h, n);
    WithCrcBytes(start, size, crc, rest, 0);
    WithCrcBytes(start, size, crc, rest, c);
    var zeros: seq<bv8> := [0, 0, 0, 0];
    ZeroBytes();
    assert c == Crc32((start + size + zeros + rest)[..n]);
    var b := Bytes4(c);
    BytesWritten(c);
    assert Written(c, b) && Signed(h, n) == start + size + b + rest;
    WrittenMeans(HeaderSize(h), size);
    WrittenMeans(c, crc);
  }

  function Bytes4(v: bv32): seq<bv8> { [ByteOf(v, 0), ByteOf(v, 1), ByteOf(v, 2), ByteOf(v, 3)] }

  lemma BytesWritten(v: bv32)
    ensures Written(v, Bytes4(v))
  {
    BytesOfWord(v);
    WrittenMeans(v, Bytes4(v));
    hide ByteOf, Word32, Written;
  }

  lemma ZeroBytes()
    ensures Bytes4(0) == [0, 0, 0, 0]
  {}

  lemma WithCrcBytes(start: seq<bv8>, size: seq<bv8>, crc: seq<bv8>, rest: seq<bv8>, v: bv32)
    requires |start| == 12 && |size| == 4 && |crc| == 4 && |rest| >= 4
    ensures WithCrc(start + size + crc + rest, v) == start + size + Bytes4(v) + rest
  {
    hide ByteOf;
  }
}
