/** The canonical JSON profile: which values it accepts and the bytes it gives them. */
module Json {
  import opened Text
  import Sorting
  import Utf8

  /** A dictionary key; only strings survive validation. */
  datatype Key = Name(text: Text) | NonText

  /** A Python value. `Float` and `Unsupported` stand for everything outside the profile. */
  datatype Json =
    | Null
    | Bool(b: bool)
    | Int(i: int)
    | Str(t: Text)
    | Arr(items: seq<Json>)
    | Obj(members: seq<Member>)
    | Float
    | Unsupported

  /** Dictionary entries are kept in insertion order. */
  datatype Member = Member(key: Key, value: Json)

  const MAX_SAFE_INTEGER := 0x1F_FFFF_FFFF_FFFF

  /** A Python dictionary never holds one key twice, at any depth. */
  ghost predicate Dictionary(j: Json) {
    match j
    case Arr(items) => forall i | 0 <= i < |items| :: Dictionary(items[i])
    case Obj(members) =>
      && (forall i, k | 0 <= i < k < |members| :: members[i].key != members[k].key)
      && (forall i | 0 <= i < |members| :: Dictionary(members[i].value))
    case _ => true
  }

  /** `_validate`: the values that canonical_json does not refuse. */
  predicate Accepted(j: Json) {
    match j
    case Null => true
    case Bool(_) => true
    case Int(i) => -MAX_SAFE_INTEGER <= i <= MAX_SAFE_INTEGER
    case Str(t) => NoSurrogates(t)
    case Arr(items) => forall i | 0 <= i < |items| :: Accepted(items[i])
    case Obj(members) =>
      forall i | 0 <= i < |members| ::
        members[i].key.Name? && NoSurrogates(members[i].key.text) && Accepted(members[i].value)
    case Float => false
    case Unsupported => false
  }

  // ---------- printing ----------

  const QUOTE: CodePoint := 34
  const BACKSLASH: CodePoint := 92
  const COMMA: CodePoint := 44
  const COLON: CodePoint := 58
  const OPEN_BRACKET: CodePoint := 91
  const CLOSE_BRACKET: CodePoint := 93
  const OPEN_BRACE: CodePoint := 123
  const CLOSE_BRACE: CodePoint := 125
  const MINUS: CodePoint := 45
  const NULL_TEXT: Text := [110, 117, 108, 108]
  const TRUE_TEXT: Text := [116, 114, 117, 101]
  const FALSE_TEXT: Text := [102, 97, 108, 115, 101]

  function Digit(n: int): CodePoint
    requires 0 <= n < 10
  {
    48 + n
  }

  function Decimal(n: nat): (r: Text)
    ensures r != [] && 48 <= r[0] < 58
  {
    if n < 10 then [Digit(n)] else Decimal(n / 10) + [Digit(n % 10)]
  }

  function IntText(i: int): (r: Text)
    ensures r != []
  {
    if i < 0 then [MINUS] + Decimal(-i) else Decimal(i)
  }

  function HexDigit(n: int): CodePoint
    requires 0 <= n < 16
  {
    if n < 10 then 48 + n else 87 + n
  }

  /** One character of a string: the two-character escapes, `\u00xx`, or the character itself. */
  function CharText(c: CodePoint): (r: Text)
    ensures r != []
  {
    if c == QUOTE then [BACKSLASH, QUOTE]
    else if c == BACKSLASH then [BACKSLASH, BACKSLASH]
    else if c == 8 then [BACKSLASH, 98]
    else if c == 9 then [BACKSLASH, 116]
    else if c == 10 then [BACKSLASH, 110]
    else if c == 12 then [BACKSLASH, 102]
    else if c == 13 then [BACKSLASH, 114]
    else if c < 0x20 then [BACKSLASH, 117, 48, 48, HexDigit(c / 16), HexDigit(c % 16)]
    else [c]
  }

  function CharsText(t: Text): Text {
    if t == [] then [] else CharText(t[0]) + CharsText(t[1..])
  }

  function StringText(t: Text): Text {
    [QUOTE] + CharsText(t) + [QUOTE]
  }

  /** The text of a value with its members in the order they are listed. */
  function ValueText(j: Json): Text
    requires Accepted(j)
  {
    match j
    case Null => NULL_TEXT
    case Bool(b) => if b then TRUE_TEXT else FALSE_TEXT
    case Int(i) => IntText(i)
    case Str(t) => StringText(t)
    case Arr(items) => [OPEN_BRACKET] + ItemsText(items) + [CLOSE_BRACKET]
    case Obj(members) => [OPEN_BRACE] + MembersText(members) + [CLOSE_BRACE]
  }

  function ItemsText(items: seq<Json>): Text
    requires forall i | 0 <= i < |items| :: Accepted(items[i])
  {
    if items == [] then []
    else if |items| == 1 then ValueText(items[0])
    else ValueText(items[0]) + [COMMA] + ItemsText(items[1..])
  }

  predicate AcceptedMember(m: Member) {
    m.key.Name? && NoSurrogates(m.key.text) && Accepted(m.value)
  }

  function MemberText(m: Member): Text
    requires AcceptedMember(m)
  {
    StringText(m.key.text) + [COLON] + ValueText(m.value)
  }

  function MembersText(members: seq<Member>): Text
    requires forall i | 0 <= i < |members| :: AcceptedMember(members[i])
  {
    if members == [] then []
    else if |members| == 1 then MemberText(members[0])
    else MemberText(members[0]) + [COMMA] + MembersText(members[1..])
  }

  // ---------- sorting keys ----------

  predicate KeyLess(a: Member, b: Member) {
    a.key.Name? && b.key.Name? && Less(a.key.text, b.key.text)
  }

  /** The value with every object's members sorted by key. */
  function Sorted(j: Json): Json {
    match j
    case Arr(items) => Arr(seq(|items|, i requires 0 <= i < |items| => Sorted(items[i])))
    case Obj(members) =>
      Obj(Sorting.Sort(
            seq(|members|, i requires 0 <= i < |members| => Member(members[i].key, Sorted(members[i].value))),
            KeyLess))
    case _ => j
  }

  function SortedValues(members: seq<Member>): seq<Member> {
    seq(|members|, i requires 0 <= i < |members| => Member(members[i].key, Sorted(members[i].value)))
  }

  /** `canonical_json`: `None` where validation raises. */
  function CanonicalJson(j: Json): Option<Bytes> {
    if Accepted(j) then
      SortedAccepted(j);
      Some(Utf8.Encode(ValueText(Sorted(j))))
    else None
  }

  lemma {:induction false} SortedAccepted(j: Json)
    requires Accepted(j)
    ensures Accepted(Sorted(j))
  {
    match j
    case Arr(items) =>
      forall i | 0 <= i < |items| ensures Accepted(Sorted(items[i])) {
        SortedAccepted(items[i]);
      }
    case Obj(members) =>
      var sorted := SortedValues(members);
      forall m | m in sorted ensures AcceptedMember(m) {
        var i :| 0 <= i < |members| && sorted[i] == m;
        SortedAccepted(members[i].value);
      }
      Sorting.SortElements(sorted, KeyLess);
      var r := Sorting.Sort(sorted, KeyLess);
      forall i | 0 <= i < |r| ensures AcceptedMember(r[i]) {
        assert r[i] in r;
      }
    case _ =>
  }
}
