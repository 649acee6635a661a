/** Strict UTF-8 as Python's `str.encode("utf-8")` and `bytes.decode("utf-8")` apply it. */
module Utf8 {
  import opened Text

  function EncodeChar(c: CodePoint): (b: Bytes)
    ensures 1 <= |b| <= 4
  {
    if c < 0x80 then [c]
    else if c < 0x800 then [0xC0 + c / 64, 0x80 + c % 64]
    else if c < 0x1_0000 then [0xE0 + c / 64 / 64, 0x80 + c / 64 % 64, 0x80 + c % 64]
    else [0xF0 + c / 64 / 64 / 64, 0x80 + c / 64 / 64 % 64, 0x80 + c / 64 % 64, 0x80 + c % 64]
  }

  function Encode(t: Text): (b: Bytes)
    ensures |b| >= |t|
  {
    if t == [] then [] else EncodeChar(t[0]) + Encode(t[1..])
  }

  predicate IsContinuation(x: Byte) {
    0x80 <= x < 0xC0
  }

  /** The six payload bits of a continuation byte. */
  function Tail(x: Byte): int {
    x - 0x80
  }

  /** The first character of `b` and its width; `None` for every ill-formed prefix. */
  function DecodeChar(b: Bytes): (r: Option<(CodePoint, nat)>)
    requires b != []
    ensures r.Some? ==> 1 <= r.value.1 <= |b|
  {
    var lead: int := b[0];
    if lead < 0x80 then Some((b[0], 1))
    else if 0xC2 <= lead < 0xE0 then
      if |b| >= 2 && IsContinuation(b[1]) then Some(((lead - 0xC0) * 64 + Tail(b[1]), 2)) else None
    else if 0xE0 <= lead < 0xF0 then
      if |b| >= 3 && IsContinuation(b[1]) && IsContinuation(b[2]) then
        var c := (lead - 0xE0) * 4096 + Tail(b[1]) * 64 + Tail(b[2]);
        if c < 0x800 || 0xD800 <= c <= 0xDFFF then None else Some((c, 3))
      else None
    else if 0xF0 <= lead < 0xF5 then
      if |b| >= 4 && IsContinuation(b[1]) && IsContinuation(b[2]) && IsContinuation(b[3]) then
        var c := (lead - 0xF0) * 262144 + Tail(b[1]) * 4096 + Tail(b[2]) * 64 + Tail(b[3]);
        if c < 0x1_0000 || c >= 0x11_0000 then None else Some((c, 4))
      else None
    else None
  }

  function Decode(b: Bytes): Option<Text> {
    if b == [] then Some([])
    else
      match DecodeChar(b)
      case None => None
      case Some((c, n)) =>
        match Decode(b[n..])
        case None => None
        case Some(t) => Some([c] + t)
  }

  lemma DecodeEncodedChar(c: CodePoint, rest: Bytes)
    requires !IsSurrogate(c)
    ensures DecodeChar(EncodeChar(c) + rest) == Some((c, |EncodeChar(c)|))
  {
    if c < 0x80 {
    } else if c < 0x800 {
      assert c == c / 64 * 64 + c % 64;
    } else if c < 0x1_0000 {
      assert c == c / 64 / 64 * 4096 + c / 64 % 64 * 64 + c % 64;
    } else {
      assert c == c / 64 / 64 / 64 * 262144 + c / 64 / 64 % 64 * 4096 + c / 64 % 64 * 64 + c % 64;
    }
  }

  /** Decoding inverts encoding on every string without lone surrogates. */
  lemma {:induction false} DecodeEncode(t: Text)
    requires NoSurrogates(t)
    ensures Decode(Encode(t)) == Some(t)
  {
    if t != [] {
      DecodeEncodedChar(t[0], Encode(t[1..]));
      assert Encode(t)[|EncodeChar(t[0])|..] == Encode(t[1..]);
      DecodeEncode(t[1..]);
      assert t == [t[0]] + t[1..];
    }
  }

  lemma EncodeDecodedChar(b: Bytes)
    requires b != [] && DecodeChar(b).Some?
    ensures var (c, n) := DecodeChar(b).value;
      !IsSurrogate(c) && EncodeChar(c) == b[..n]
  {
    var (c, n) := DecodeChar(b).value;
    var lead: int := b[0];
    if n == 2 {
      assert c / 64 == lead - 0xC0 && c % 64 == Tail(b[1]);
    } else if n == 3 {
      assert c / 64 == (lead - 0xE0) * 64 + Tail(b[1]) && c % 64 == Tail(b[2]);
    } else if n == 4 {
      assert c / 64 == (lead - 0xF0) * 4096 + Tail(b[1]) * 64 + Tail(b[2]) && c % 64 == Tail(b[3]);
      assert c / 64 / 64 == (lead - 0xF0) * 64 + Tail(b[1]);
    }
  }

  /** Whatever decodes is the encoding of the string it decodes to: the decoder is strict. */
  lemma {:induction false} EncodeDecode(b: Bytes)
    requires Decode(b).Some?
    ensures NoSurrogates(Decode(b).value) && Encode(Decode(b).value) == b
  {
    if b != [] {
      var (c, n) := DecodeChar(b).value;
      EncodeDecodedChar(b);
      EncodeDecode(b[n..]);
      PrependChar(b, c, n, Decode(b[n..]).value);
    }
  }

  lemma PrependChar(b: Bytes, c: CodePoint, n: nat, t: Text)
    requires n <= |b| && !IsSurrogate(c) && EncodeChar(c) == b[..n]
    requires NoSurrogates(t) && Encode(t) == b[n..]
    ensures NoSurrogates([c] + t) && Encode([c] + t) == b
  {
    assert ([c] + t)[1..] == t;
  }

  lemma {:induction false} LessAt(u: Bytes, v: Bytes, k: nat)
    requires k < |u| && k < |v| && u[..k] == v[..k] && u[k] < v[k]
    ensures Less(u, v)
  {
    if k > 0 {
      assert u[0] == u[..k][0] == v[..k][0] == v[0];
      assert u[1..][..k - 1] == u[..k][1..] == v[..k][1..] == v[1..][..k - 1];
      LessAt(u[1..], v[1..], k - 1);
    }
  }

  /** Where the encodings of two different characters first differ. */
  lemma FirstDifference(c: CodePoint, d: CodePoint) returns (k: nat)
    requires c < d
    ensures k < |EncodeChar(c)| && k < |EncodeChar(d)|
    ensures EncodeChar(c)[..k] == EncodeChar(d)[..k] && EncodeChar(c)[k] < EncodeChar(d)[k]
  {
    if |EncodeChar(c)| < |EncodeChar(d)| || |EncodeChar(c)| == 1 {
      k := 0;
    } else if |EncodeChar(c)| == 2 {
      k := if c / 64 < d / 64 then 0 else 1;
    } else if |EncodeChar(c)| == 3 {
      k := if c / 64 / 64 < d / 64 / 64 then 0 else if c / 64 < d / 64 then 1 else 2;
      SixBitSplit(c / 64, d / 64);
      SixBitSplit(c, d);
    } else {
      k := if c / 64 / 64 / 64 < d / 64 / 64 / 64 then 0
           else if c / 64 / 64 < d / 64 / 64 then 1
           else if c / 64 < d / 64 then 2
           else 3;
      SixBitSplit(c / 64 / 64, d / 64 / 64);
      SixBitSplit(c / 64, d / 64);
      SixBitSplit(c, d);
    }
  }

  /** Numbers that differ but agree above their low six bits compare by those bits. */
  lemma SixBitSplit(m: nat, n: nat)
    requires m <= n
    ensures m / 64 <= n / 64 && (m < n && m / 64 == n / 64 ==> m % 64 < n % 64) && (m == n ==> m % 64 == n % 64)
  {
  }

  lemma EncodedCharLess(c: CodePoint, d: CodePoint, x: Bytes, y: Bytes)
    requires c < d
    ensures Less(EncodeChar(c) + x, EncodeChar(d) + y)
  {
    var k := FirstDifference(c, d);
    assert (EncodeChar(c) + x)[..k] == EncodeChar(c)[..k] && (EncodeChar(d) + y)[..k] == EncodeChar(d)[..k];
    LessAt(EncodeChar(c) + x, EncodeChar(d) + y, k);
  }

  lemma {:induction false} LessAfterPrefix(p: Bytes, u: Bytes, v: Bytes)
    ensures Less(p + u, p + v) <==> Less(u, v)
  {
    if p == [] {
      assert p + u == u && p + v == v;
    } else {
      assert (p + u)[1..] == p[1..] + u && (p + v)[1..] == p[1..] + v;
      LessAfterPrefix(p[1..], u, v);
    }
  }

  /** Sorting stored UTF-8 byte-wise (SQLite's BINARY collation) is sorting by code point (Python). */
  lemma {:induction false} EncodingPreservesOrder(a: Text, b: Text)
    ensures Less(Encode(a), Encode(b)) <==> Less(a, b)
  {
    if a != [] && b != [] {
      if a[0] == b[0] {
        LessAfterPrefix(EncodeChar(a[0]), Encode(a[1..]), Encode(b[1..]));
        EncodingPreservesOrder(a[1..], b[1..]);
      } else if a[0] < b[0] {
        EncodedCharLess(a[0], b[0], Encode(a[1..]), Encode(b[1..]));
      } else {
        EncodedCharLess(b[0], a[0], Encode(b[1..]), Encode(a[1..]));
        LessAsymmetric(Encode(b), Encode(a));
      }
    }
  }

  lemma LessAsymmetric(u: Bytes, v: Bytes)
    requires Less(u, v)
    ensures !Less(v, u)
  {
    if Less(v, u) {
      LessTransitive(u, v, u);
      LessIrreflexive(u);
    }
  }
}
