/** The envelope of a cached value: four length bytes, the UTF-8 type tag, the payload. */
module ExecutionValue {
  import opened Text
  import Utf8

  datatype Value = Value(typeTag: Text, payload: Bytes)

  const MAX_TYPE_TAG_BYTES := 1024

  /** `_validate_type_tag` accepts: not empty, encodable, at most 1024 bytes, no NUL. */
  predicate ValidTag(tag: Text) {
    tag != [] && NoSurrogates(tag) && |Utf8.Encode(tag)| <= MAX_TYPE_TAG_BYTES && 0 !in tag
  }

  function BigEndian(n: nat): (b: Bytes)
    requires n < 0x1_0000_0000
    ensures |b| == 4
  {
    [n / 0x100_0000, n / 0x1_0000 % 256, n / 256 % 256, n % 256]
  }

  function FromBigEndian(b: Bytes): nat
    requires |b| == 4
  {
    var b0: int, b1: int, b2: int, b3: int := b[0], b[1], b[2], b[3];
    b0 * 0x100_0000 + b1 * 0x1_0000 + b2 * 256 + b3
  }

  /** `None` where the source raises. */
  function Pack(v: Value): Option<Bytes> {
    if ValidTag(v.typeTag) then
      var tag := Utf8.Encode(v.typeTag);
      Some(BigEndian(|tag|) + tag + v.payload)
    else None
  }

  function Unpack(data: Bytes): Option<Value> {
    if |data| < 5 then None
    else
      var size := FromBigEndian(data[..4]);
      if size < 1 || size > MAX_TYPE_TAG_BYTES || |data| < 4 + size then None
      else
        match Utf8.Decode(data[4..4 + size])
        case None => None
        case Some(tag) => if ValidTag(tag) then Some(Value(tag, data[4 + size..])) else None
  }

  lemma BigEndianRoundTrip(n: nat)
    requires n < 0x1_0000_0000
    ensures FromBigEndian(BigEndian(n)) == n
  {
    assert n / 256 == n / 0x1_0000 * 256 + n / 256 % 256;
    assert n / 0x1_0000 == n / 0x100_0000 * 256 + n / 0x1_0000 % 256;
  }

  lemma BigEndianUnique(b: Bytes)
    requires |b| == 4
    ensures FromBigEndian(b) < 0x1_0000_0000 && BigEndian(FromBigEndian(b)) == b
  {
    var b0: int, b1: int, b2: int, b3: int := b[0], b[1], b[2], b[3];
    var n := FromBigEndian(b);
    assert n / 256 == b0 * 0x1_0000 + b1 * 256 + b2;
    assert n / 0x1_0000 == b0 * 256 + b1;
    assert n / 0x100_0000 == b0;
  }

  /** Unpacking inverts packing. */
  lemma UnpackPack(v: Value)
    requires Pack(v).Some?
    ensures Unpack(Pack(v).value) == Some(v)
  {
    var tag, data := Utf8.Encode(v.typeTag), Pack(v).value;
    BigEndianRoundTrip(|tag|);
    assert data[..4] == BigEndian(|tag|) && data[4..4 + |tag|] == tag && data[4 + |tag|..] == v.payload;
    Utf8.DecodeEncode(v.typeTag);
  }

  /** The parts of an accepted envelope. */
  lemma UnpackedParts(data: Bytes, v: Value) returns (size: nat)
    requires Unpack(data) == Some(v)
    ensures 1 <= size <= MAX_TYPE_TAG_BYTES && 4 + size <= |data| && size == FromBigEndian(data[..4])
    ensures Utf8.Decode(data[4..4 + size]) == Some(v.typeTag) && ValidTag(v.typeTag) && v.payload == data[4 + size..]
  {
    size := FromBigEndian(data[..4]);
  }

  lemma Reassembled(data: Bytes, size: nat, length: Bytes, tag: Bytes)
    requires 4 + size <= |data| && length == data[..4] && tag == data[4..4 + size]
    ensures |tag| == size && length + tag + data[4 + size..] == data
  {
  }

  /** Only envelopes that packing produces are accepted. */
  lemma PackUnpack(data: Bytes)
    requires Unpack(data).Some?
    ensures Pack(Unpack(data).value) == Some(data)
  {
    var v := Unpack(data).value;
    var size := UnpackedParts(data, v);
    var length, tag := data[..4], data[4..4 + size];
    BigEndianUnique(length);
    Utf8.EncodeDecode(tag);
    Reassembled(data, size, length, tag);
    assert Utf8.Encode(v.typeTag) == tag && BigEndian(|tag|) == length;
  }

  /** The accepted byte strings are exactly the packed ones. */
  lemma AcceptsExactlyPacked(data: Bytes)
    ensures Unpack(data).Some? <==> exists v :: Pack(v) == Some(data)
  {
    if Unpack(data).Some? {
      PackUnpack(data);
    }
    if v :| Pack(v) == Some(data) {
      UnpackPack(v);
    }
  }

  lemma TagMeans(t: Text)
    ensures ValidTag(t) <==>
            t != [] && (forall c | c in t :: c != 0 && (c < 0xD800 || 0xDFFF < c)) && |Utf8.Encode(t)| <= 1024
  {
    assert forall i | 0 <= i < |t| :: t[i] in t;
  }

  /** Up to 1024, the two high bytes of a length are zero. */
  lemma LengthMeans(n: nat)
    requires n <= 1024
    ensures BigEndian(n) == [0, 0, n / 256, n % 256]
  {
  }

  /**
   What is packed: a tag of one to 1024 UTF-8 bytes without NUL or surrogates, its length most significant byte first,
   the tag, and the payload to the end.
   */
  lemma PackMeans(v: Value, data: Bytes)
    ensures Pack(v) == Some(data) <==>
            && v.typeTag != [] && (forall c | c in v.typeTag :: c != 0 && (c < 0xD800 || 0xDFFF < c))
            && |Utf8.Encode(v.typeTag)| <= 1024
            && data == [0, 0, |Utf8.Encode(v.typeTag)| / 256, |Utf8.Encode(v.typeTag)| % 256]
                       + Utf8.Encode(v.typeTag) + v.payload
  {
    TagMeans(v.typeTag);
    if ValidTag(v.typeTag) {
      LengthMeans(|Utf8.Encode(v.typeTag)|);
    }
  }
}
