/** Text, bytes and lookups shared by every module. */
module Text {
  datatype Option<+T> = None | Some(value: T)

  type Byte = n: int | 0 <= n < 256
  type Bytes = seq<Byte>

  /** A Python string is a sequence of code points; lone surrogates are possible. */
  type CodePoint = n: int | 0 <= n < 0x11_0000
  type Text = seq<CodePoint>

  predicate IsSurrogate(c: CodePoint) {
    0xD800 <= c <= 0xDFFF
  }

  predicate NoSurrogates(t: Text) {
    forall i | 0 <= i < |t| :: !IsSurrogate(t[i])
  }

  /** Python's `<` on strings: lexicographic by code point. */
  predicate Less(a: Text, b: Text) {
    b != [] && (a == [] || a[0] < b[0] || (a[0] == b[0] && Less(a[1..], b[1..])))
  }

  lemma {:induction false} LessIrreflexive(a: Text)
    ensures !Less(a, a)
  {
    if a != [] {
      LessIrreflexive(a[1..]);
    }
  }

  lemma {:induction false} LessTransitive(a: Text, b: Text, c: Text)
    requires Less(a, b) && Less(b, c)
    ensures Less(a, c)
  {
    if a != [] && a[0] == b[0] && b[0] == c[0] {
      LessTransitive(a[1..], b[1..], c[1..]);
    }
  }

  lemma {:induction false} LessTotal(a: Text, b: Text)
    ensures Less(a, b) || a == b || Less(b, a)
  {
    if a != [] && b != [] && a[0] == b[0] {
      LessTotal(a[1..], b[1..]);
      assert a == [a[0]] + a[1..] && b == [b[0]] + b[1..];
    }
  }

  /** Said without recursion: where two texts part, the one that ends there or has the smaller code point is less. */
  lemma {:induction false} LessMeans(a: Text, b: Text, i: nat)
    requires i <= |a| && i <= |b| && a[..i] == b[..i]
    requires i < |a| && i < |b| ==> a[i] != b[i]
    ensures Less(a, b) <==> i < |b| && (i < |a| ==> a[i] < b[i])
  {
    if i > 0 {
      assert a[0] == a[..i][0] && b[0] == b[..i][0];
      assert a[1..][..i - 1] == a[..i][1..] && b[1..][..i - 1] == b[..i][1..];
      LessMeans(a[1..], b[1..], i - 1);
    }
  }
}
