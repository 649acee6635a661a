/**
 The canonical text itself, code point by code point: keys in ascending order at every depth, the punctuation, the
 escapes, the digits and the bytes.
 */
module CanonicalText {
  import opened Text
  import opened Json
  import JsonIdentity
  import Sorting
  import Utf8

  // ---------- keys ascend ----------

  /** Every object's keys are strings, ascending by code point, at every depth. */
  ghost predicate KeysAscend(j: Json) {
    match j
    case Arr(items) => forall i | 0 <= i < |items| :: KeysAscend(items[i])
    case Obj(ms) =>
      && (forall i | 0 <= i < |ms| :: ms[i].key.Name? && KeysAscend(ms[i].value))
      && (forall i, k | 0 <= i < k < |ms| :: Less(ms[i].key.text, ms[k].key.text))
    case _ => true
  }

  /** Canonicalization sorts the keys of every object ascending, at every depth. */
  lemma {:induction false} SortedAscends(j: Json)
    requires Accepted(j) && Dictionary(j)
    ensures KeysAscend(Sorted(j))
  {
    match j
    case Arr(items) =>
      forall i | 0 <= i < |items| ensures KeysAscend(Sorted(items[i])) {
        SortedAscends(items[i]);
      }
    case Obj(members) =>
      var xs := SortedValues(members);
      JsonIdentity.KeyLessIsStrict();
      JsonIdentity.DistinctKeysCompare(xs);
      Sorting.SortAscending(xs, KeyLess);
      Sorting.SortElements(xs, KeyLess);
      var sorted := Sorting.Sort(xs, KeyLess);
      forall i | 0 <= i < |sorted| ensures sorted[i].key.Name? && KeysAscend(sorted[i].value) {
        assert sorted[i] in xs;
        var k :| 0 <= k < |members| && xs[k] == sorted[i];
        SortedAscends(members[k].value);
      }
    case _ =>
  }

  /** In the bytes too: the UTF-8 forms of an object's keys ascend byte by byte. */
  lemma KeyBytesAscend(ms: seq<Member>, i: nat, k: nat)
    requires KeysAscend(Obj(ms)) && i < k < |ms|
    ensures ms[i].key.Name? && ms[k].key.Name?
    ensures Less(Utf8.Encode(ms[i].key.text), Utf8.Encode(ms[k].key.text))
  {
    Utf8.EncodingPreservesOrder(ms[i].key.text, ms[k].key.text);
  }

  // ---------- what is accepted ----------

  /** Exactly these values are refused: integers beyond 2^53 - 1, lone surrogates, other keys and other types. */
  lemma AcceptedMeans(j: Json)
    ensures Accepted(j) <==>
      match j
      case Null => true
      case Bool(_) => true
      case Int(i) => -9007199254740991 <= i <= 9007199254740991
      case Str(t) => forall c | c in t :: c < 0xD800 || 0xDFFF < c
      case Arr(items) => forall i | 0 <= i < |items| :: Accepted(items[i])
      case Obj(ms) => forall i | 0 <= i < |ms| ::
        && ms[i].key.Name? && Accepted(ms[i].value)
        && forall c | c in ms[i].key.text :: c < 0xD800 || 0xDFFF < c
      case Float => false
      case Unsupported => false
  {
    match j
    case Str(t) =>
      assert forall k | 0 <= k < |t| :: t[k] in t;
    case Obj(ms) =>
      forall i | 0 <= i < |ms| && ms[i].key.Name?
        ensures NoSurrogates(ms[i].key.text) <==> forall c | c in ms[i].key.text :: c < 0xD800 || 0xDFFF < c
      {
        assert forall k | 0 <= k < |ms[i].key.text| :: ms[i].key.text[k] in ms[i].key.text;
      }
    case _ =>
  }

  // ---------- the text of a value ----------

  /** Texts with a comma between each two. */
  function Joined(parts: seq<Text>): Text {
    if parts == [] then [] else if |parts| == 1 then parts[0] else parts[0] + [44] + Joined(parts[1..])
  }

  function ItemTexts(items: seq<Json>): (r: seq<Text>)
    requires forall i | 0 <= i < |items| :: Accepted(items[i])
    ensures |r| == |items| && forall i | 0 <= i < |r| :: r[i] == ValueText(items[i])
  {
    seq(|items|, i requires 0 <= i < |items| => ValueText(items[i]))
  }

  /** A member: the quoted key, a colon, the value. */
  function MemberTexts(ms: seq<Member>): (r: seq<Text>)
    requires forall i | 0 <= i < |ms| :: AcceptedMember(ms[i])
    ensures |r| == |ms|
    ensures forall i | 0 <= i < |r| ::
      AcceptedMember(ms[i]) && r[i] == [34] + CharsText(ms[i].key.text) + [34, 58] + ValueText(ms[i].value)
  {
    seq(|ms|, i requires 0 <= i < |ms| =>
      assert AcceptedMember(ms[i]);
      [34] + CharsText(ms[i].key.text) + [34, 58] + ValueText(ms[i].value))
  }

  lemma {:induction false} ItemsJoined(items: seq<Json>)
    requires forall i | 0 <= i < |items| :: Accepted(items[i])
    ensures ItemsText(items) == Joined(ItemTexts(items))
  {
    if |items| > 1 {
      ItemsJoined(items[1..]);
      assert ItemTexts(items)[1..] == ItemTexts(items[1..]);
    }
  }

  lemma {:induction false} MembersJoined(ms: seq<Member>)
    requires forall i | 0 <= i < |ms| :: AcceptedMember(ms[i])
    ensures MembersText(ms) == Joined(MemberTexts(ms))
  {
    if ms != [] {
      assert MemberText(ms[0]) == MemberTexts(ms)[0];
    }
    if |ms| > 1 {
      MembersJoined(ms[1..]);
      assert MemberTexts(ms)[1..] == MemberTexts(ms[1..]);
    }
  }

  /** The text of every kind of value, in code points: no spaces, commas between, quotes and brackets around. */
  lemma ValueTextMeans(j: Json)
    requires Accepted(j)
    ensures match j
      case Null => ValueText(j) == ['n' as int, 'u' as int, 'l' as int, 'l' as int]
      case Bool(true) => ValueText(j) == ['t' as int, 'r' as int, 'u' as int, 'e' as int]
      case Bool(false) => ValueText(j) == ['f' as int, 'a' as int, 'l' as int, 's' as int, 'e' as int]
      case Int(i) => ValueText(j) == IntText(i)
      case Str(t) => ValueText(j) == [34] + CharsText(t) + [34]
      case Arr(items) => ValueText(j) == ['[' as int] + Joined(ItemTexts(items)) + [']' as int]
      case Obj(ms) => ValueText(j) == ['{' as int] + Joined(MemberTexts(ms)) + ['}' as int]
      case Float => true
      case Unsupported => true
  {
    match j
    case Arr(items) => ItemsJoined(items);
    case Obj(ms) => MembersJoined(ms);
    case _ =>
  }

  // ---------- characters and digits ----------

  /** Section 7 of RFC 8259: two-character escapes, `u00` and two lower-case hexadecimal digits, or the character itself. */
  lemma CharTextMeans(c: CodePoint)
    ensures c == '"' as int ==> CharText(c) == ['\\' as int, '"' as int]
    ensures c == '\\' as int ==> CharText(c) == ['\\' as int, '\\' as int]
    ensures c == 8 ==> CharText(c) == ['\\' as int, 'b' as int]
    ensures c == 9 ==> CharText(c) == ['\\' as int, 't' as int]
    ensures c == 10 ==> CharText(c) == ['\\' as int, 'n' as int]
    ensures c == 12 ==> CharText(c) == ['\\' as int, 'f' as int]
    ensures c == 13 ==> CharText(c) == ['\\' as int, 'r' as int]
    ensures c < 32 && c !in {8, 9, 10, 12, 13} ==>
      CharText(c) == ['\\' as int, 'u' as int, '0' as int, '0' as int, '0' as int + (if c < 16 then 0 else 1),
                      if c % 16 < 10 then '0' as int + c % 16 else 'a' as int + c % 16 - 10]
    ensures c >= 32 && c != '"' as int && c != '\\' as int ==> CharText(c) == [c]
  {
  }

  lemma CharsTextMeans(c: CodePoint, t: Text)
    ensures CharsText([]) == [] && CharsText([c] + t) == CharText(c) + CharsText(t)
  {
    assert ([c] + t)[1..] == t;
  }

  /** The number that decimal digits stand for. */
  function NumberOf(t: Text): int {
    if t == [] then 0 else NumberOf(t[..|t| - 1]) * 10 + (t[|t| - 1] - '0' as int)
  }

  /** Section 6 of RFC 8259: digits only, no leading zero, and they stand for the number. */
  lemma {:induction false} DecimalMeans(n: nat)
    ensures var t := Decimal(n);
      && t != [] && (forall c | c in t :: '0' as int <= c <= '9' as int)
      && (t[0] == '0' as int ==> n == 0 && |t| == 1)
      && NumberOf(t) == n
  {
    if n >= 10 {
      DecimalMeans(n / 10);
      var t := Decimal(n);
      assert t[..|t| - 1] == Decimal(n / 10);
    } else {
      var t := Decimal(n);
      assert t[..|t| - 1] == [];
    }
  }

  lemma IntTextMeans(i: int)
    ensures IntText(i) == if i < 0 then ['-' as int] + Decimal(-i) else Decimal(i)
  {
  }

  // ---------- bytes ----------

  /** The number that a lead byte and its continuation bytes make up. */
  function Payload(b: Bytes): int
    requires 1 <= |b| <= 4
  {
    var lead: int := b[0];
    if |b| == 1 then lead
    else
      var first: int := b[1];
      if |b| == 2 then (lead - 0xC0) * 64 + (first - 0x80)
      else
        var second: int := b[2];
        if |b| == 3 then (lead - 0xE0) * 4096 + (first - 0x80) * 64 + (second - 0x80)
        else
          var third: int := b[3];
          (lead - 0xF0) * 262144 + (first - 0x80) * 4096 + (second - 0x80) * 64 + (third - 0x80)
  }

  /** Section 3 of RFC 3629: the lead and continuation bytes of each range, and the number their payloads make up. */
  lemma EncodedCharMeans(c: CodePoint)
    ensures c < 0x80 ==> Utf8.EncodeChar(c) == [c]
    ensures 0x80 <= c < 0x800 ==> |Utf8.EncodeChar(c)| == 2
    ensures 0x800 <= c < 0x1_0000 ==> |Utf8.EncodeChar(c)| == 3
    ensures 0x1_0000 <= c ==> |Utf8.EncodeChar(c)| == 4
    ensures forall i | 1 <= i < |Utf8.EncodeChar(c)| :: 0x80 <= Utf8.EncodeChar(c)[i] < 0xC0
    ensures c == Payload(Utf8.EncodeChar(c))
  {
    if c >= 0x1_0000 {
      assert c == c / 64 / 64 / 64 * 262144 + c / 64 / 64 % 64 * 4096 + c / 64 % 64 * 64 + c % 64;
    } else if c >= 0x800 {
      assert c == c / 64 / 64 * 4096 + c / 64 % 64 * 64 + c % 64;
    } else if c >= 0x80 {
      assert c == c / 64 * 64 + c % 64;
    }
  }

  lemma EncodeMeans(c: CodePoint, t: Text)
    ensures Utf8.Encode([]) == [] && Utf8.Encode([c] + t) == Utf8.EncodeChar(c) + Utf8.Encode(t)
  {
    assert ([c] + t)[1..] == t;
  }

  /** Canonical bytes are the UTF-8 form of the text of the sorted value, exactly where the value is accepted. */
  lemma CanonicalMeans(j: Json)
    ensures CanonicalJson(j).Some? <==> Accepted(j)
    ensures Accepted(j) ==> Accepted(Sorted(j)) && CanonicalJson(j) == Some(Utf8.Encode(ValueText(Sorted(j))))
  {
    if Accepted(j) {
      SortedAccepted(j);
    }
  }
}
