/**
 A reader for canonical JSON, and the facts every digest rests on: reading inverts printing, so two values
 have the same bytes exactly when they are the same value up to the order of dictionary entries.
 */
module JsonParser {
  import opened Text
  import opened Json
  import Utf8

  predicate IsDigit(c: CodePoint) {
    48 <= c < 58
  }

  predicate StartsWithDigit(s: Text) {
    s != [] && IsDigit(s[0])
  }

  /** Digits read so far make `n`; the longest run of digits is consumed. */
  function ParseDigits(s: Text, n: nat): (r: (nat, Text))
    ensures |r.1| <= |s|
    decreases |s|
  {
    if StartsWithDigit(s) then ParseDigits(s[1..], 10 * n + (s[0] - 48)) else (n, s)
  }

  function HexValue(c: CodePoint): Option<nat> {
    if 48 <= c < 58 then Some(c - 48) else if 97 <= c < 103 then Some(c - 87) else None
  }

  /** One character of a string body and what follows it. */
  function ParseChar(s: Text): (r: Option<(CodePoint, Text)>)
    ensures r.Some? ==> |r.value.1| < |s|
  {
    if s == [] || s[0] == QUOTE then None
    else if s[0] != BACKSLASH then Some((s[0], s[1..]))
    else if |s| < 2 then None
    else if s[1] == QUOTE || s[1] == BACKSLASH then Some((s[1], s[2..]))
    else if s[1] == 98 then Some((8, s[2..]))
    else if s[1] == 116 then Some((9, s[2..]))
    else if s[1] == 110 then Some((10, s[2..]))
    else if s[1] == 102 then Some((12, s[2..]))
    else if s[1] == 114 then Some((13, s[2..]))
    else if s[1] == 117 && |s| >= 6 && s[2] == 48 && s[3] == 48 then
      match (HexValue(s[4]), HexValue(s[5]))
      case (Some(high), Some(low)) => Some((16 * high + low, s[6..]))
      case _ => None
    else None
  }

  /** The rest of a string up to its closing quote. */
  function ParseChars(s: Text): (r: Option<(Text, Text)>)
    ensures r.Some? ==> |r.value.1| < |s|
    decreases |s|
  {
    if s == [] then None
    else if s[0] == QUOTE then Some(([], s[1..]))
    else
      match ParseChar(s)
      case None => None
      case Some((c, rest)) =>
        match ParseChars(rest)
        case None => None
        case Some((t, rest')) => Some(([c] + t, rest'))
  }

  function ParseValue(s: Text): (r: Option<(Json, Text)>)
    ensures r.Some? ==> |r.value.1| < |s|
    decreases |s|, 0
  {
    if s == [] then None
    else if s[0] == NULL_TEXT[0] then if NULL_TEXT <= s then Some((Null, s[4..])) else None
    else if s[0] == TRUE_TEXT[0] then if TRUE_TEXT <= s then Some((Bool(true), s[4..])) else None
    else if s[0] == FALSE_TEXT[0] then if FALSE_TEXT <= s then Some((Bool(false), s[5..])) else None
    else if s[0] == QUOTE then
      match ParseChars(s[1..])
      case None => None
      case Some((t, rest)) => Some((Str(t), rest))
    else if s[0] == OPEN_BRACKET then
      if |s| >= 2 && s[1] == CLOSE_BRACKET then Some((Arr([]), s[2..]))
      else
        match ParseItems(s[1..])
        case None => None
        case Some((items, rest)) => Some((Arr(items), rest))
    else if s[0] == OPEN_BRACE then
      if |s| >= 2 && s[1] == CLOSE_BRACE then Some((Obj([]), s[2..]))
      else
        match ParseMembers(s[1..])
        case None => None
        case Some((members, rest)) => Some((Obj(members), rest))
    else if s[0] == MINUS && StartsWithDigit(s[1..]) then
      var (n, rest) := ParseDigits(s[1..], 0);
      Some((Int(0 - (n as int)), rest))
    else if StartsWithDigit(s) then
      var (n, rest) := ParseDigits(s[1..], s[0] - 48);
      Some((Int(n), rest))
    else None
  }

  function ParseItems(s: Text): (r: Option<(seq<Json>, Text)>)
    ensures r.Some? ==> |r.value.1| < |s|
    decreases |s|, 1
  {
    match ParseValue(s)
    case None => None
    case Some((j, rest)) =>
      if rest == [] then None
      else if rest[0] == CLOSE_BRACKET then Some(([j], rest[1..]))
      else if rest[0] == COMMA then
        match ParseItems(rest[1..])
        case None => None
        case Some((items, rest')) => Some(([j] + items, rest'))
      else None
  }

  function ParseMember(s: Text): (r: Option<(Member, Text)>)
    ensures r.Some? ==> |r.value.1| < |s|
    decreases |s|, 1
  {
    if s == [] || s[0] != QUOTE then None
    else
      match ParseChars(s[1..])
      case None => None
      case Some((key, rest)) =>
        if rest == [] || rest[0] != COLON then None
        else
          match ParseValue(rest[1..])
          case None => None
          case Some((j, rest')) => Some((Member(Name(key), j), rest'))
  }

  function ParseMembers(s: Text): (r: Option<(seq<Member>, Text)>)
    ensures r.Some? ==> |r.value.1| < |s|
    decreases |s|, 2
  {
    match ParseMember(s)
    case None => None
    case Some((m, rest)) =>
      if rest == [] then None
      else if rest[0] == CLOSE_BRACE then Some(([m], rest[1..]))
      else if rest[0] == COMMA then
        match ParseMembers(rest[1..])
        case None => None
        case Some((members, rest')) => Some(([m] + members, rest'))
      else None
  }

  /** A whole document: strict UTF-8 holding exactly one value. */
  function Parse(b: Bytes): Option<Json> {
    match Utf8.Decode(b)
    case None => None
    case Some(t) =>
      match ParseValue(t)
      case Some((j, rest)) => if rest == [] then Some(j) else None
      case None => None
  }

  // ---------- reading inverts printing ----------

  /** n digits later: the value of `s` read after the digits that make `n`. */
  function Shifted(n: nat, m: nat): nat {
    if m < 10 then 10 * n + m else 10 * Shifted(n, m / 10) + m % 10
  }

  lemma {:induction false} ShiftedZero(m: nat)
    ensures Shifted(0, m) == m
  {
    if m >= 10 {
      ShiftedZero(m / 10);
    }
  }

  lemma {:induction false} ParseDecimal(n: nat, m: nat, rest: Text)
    ensures ParseDigits(Decimal(m) + rest, n) == ParseDigits(rest, Shifted(n, m))
    decreases m
  {
    if m < 10 {
      assert (Decimal(m) + rest)[1..] == rest;
    } else {
      var last := [Digit(m % 10)];
      assert Decimal(m) + rest == Decimal(m / 10) + (last + rest);
      ParseDecimal(n, m / 10, last + rest);
      assert (last + rest)[1..] == rest;
    }
  }

  lemma DigitsRead(m: nat, rest: Text)
    requires !StartsWithDigit(rest)
    ensures ParseDigits(Decimal(m) + rest, 0) == (m, rest)
  {
    ParseDecimal(0, m, rest);
    ShiftedZero(m);
  }

  lemma ParseNegative(m: nat, rest: Text)
    requires !StartsWithDigit(rest)
    ensures ParseValue([MINUS] + Decimal(m) + rest) == Some((Int(-(m as int)), rest))
  {
    DigitsRead(m, rest);
    assert ([MINUS] + Decimal(m) + rest)[1..] == Decimal(m) + rest;
  }

  lemma ParseInt(i: int, rest: Text)
    requires !StartsWithDigit(rest)
    ensures ParseValue(IntText(i) + rest) == Some((Int(i), rest))
  {
    if i < 0 {
      ParseNegative(-i, rest);
    } else {
      DigitsRead(i, rest);
    }
  }

  lemma ParsePrintedChar(c: CodePoint, rest: Text)
    ensures ParseChar(CharText(c) + rest) == Some((c, rest)) && CharText(c)[0] != QUOTE
  {
    var s := CharText(c) + rest;
    assert s[|CharText(c)|..] == rest;
  }

  lemma {:induction false} ParsePrintedChars(t: Text, rest: Text)
    ensures ParseChars(CharsText(t) + [QUOTE] + rest) == Some((t, rest))
  {
    var s := CharsText(t) + [QUOTE] + rest;
    if t == [] {
      assert s[1..] == rest;
    } else {
      var tail := CharsText(t[1..]) + [QUOTE] + rest;
      assert s == CharText(t[0]) + tail;
      ParsePrintedChar(t[0], tail);
      ParsePrintedChars(t[1..], rest);
      assert t == [t[0]] + t[1..];
    }
  }

  lemma ParseString(t: Text, rest: Text)
    ensures (StringText(t) + rest)[0] == QUOTE
    ensures ParseChars((StringText(t) + rest)[1..]) == Some((t, rest))
  {
    assert (StringText(t) + rest)[1..] == CharsText(t) + [QUOTE] + rest;
    ParsePrintedChars(t, rest);
  }

  /** The first character of a printed value is never a closing bracket or brace. */
  lemma ValueStart(j: Json)
    requires Accepted(j)
    ensures ValueText(j) != [] && ValueText(j)[0] != CLOSE_BRACKET && ValueText(j)[0] != CLOSE_BRACE
  {
    if j.Int? {
      assert IntText(j.i)[0] == (if j.i < 0 then MINUS else Decimal(j.i)[0]);
    }
  }

  lemma ParseAtom(j: Json, rest: Text)
    requires Accepted(j) && !StartsWithDigit(rest)
    requires j.Null? || j.Bool? || j.Int? || j.Str? || j == Arr([]) || j == Obj([])
    ensures ParseValue(ValueText(j) + rest) == Some((j, rest))
  {
    var s := ValueText(j) + rest;
    assert s[|ValueText(j)|..] == rest;
    match j
    case Int(i) => ParseInt(i, rest);
    case Str(t) => ParseString(t, rest);
    case Arr(items) => assert ValueText(j) == [OPEN_BRACKET, CLOSE_BRACKET];
    case Obj(members) => assert ValueText(j) == [OPEN_BRACE, CLOSE_BRACE];
    case _ =>
  }

  /** Reading the text of an accepted value gives back that value and leaves the rest. */
  lemma {:induction false} ParsePrinted(j: Json, rest: Text)
    requires Accepted(j) && !StartsWithDigit(rest)
    ensures ParseValue(ValueText(j) + rest) == Some((j, rest))
    decreases j, 1, 0
  {
    if j.Arr? && j.items != [] {
      var t := ItemsText(j.items) + [CLOSE_BRACKET] + rest;
      assert ValueText(j) + rest == [OPEN_BRACKET] + t && j.items[0..] == j.items;
      ValueStart(j.items[0]);
      ParsePrintedItems(j, 0, rest);
      ParseBracketed(t, j.items, rest);
    } else if j.Obj? && j.members != [] {
      var t := MembersText(j.members) + [CLOSE_BRACE] + rest;
      assert ValueText(j) + rest == [OPEN_BRACE] + t && j.members[0..] == j.members;
      ParsePrintedMembers(j, 0, rest);
      ParseBraced(t, j.members, rest);
    } else {
      ParseAtom(j, rest);
    }
  }

  lemma ParseBracketed(t: Text, items: seq<Json>, rest: Text)
    requires t != [] && t[0] != CLOSE_BRACKET && ParseItems(t) == Some((items, rest))
    ensures ParseValue([OPEN_BRACKET] + t) == Some((Arr(items), rest))
  {
    assert ([OPEN_BRACKET] + t)[1..] == t;
  }

  lemma ParseBraced(t: Text, members: seq<Member>, rest: Text)
    requires t != [] && t[0] != CLOSE_BRACE && ParseMembers(t) == Some((members, rest))
    ensures ParseValue([OPEN_BRACE] + t) == Some((Obj(members), rest))
  {
    assert ([OPEN_BRACE] + t)[1..] == t;
  }

  lemma {:induction false} ParsePrintedItems(j: Json, k: nat, rest: Text)
    requires j.Arr? && k < |j.items| && Accepted(j)
    ensures ParseItems(ItemsText(j.items[k..]) + [CLOSE_BRACKET] + rest) == Some((j.items[k..], rest))
    decreases j, 0, |j.items| - k
  {
    var items := j.items[k..];
    var s := ItemsText(items) + [CLOSE_BRACKET] + rest;
    if |items| == 1 {
      assert s == ValueText(items[0]) + ([CLOSE_BRACKET] + rest);
      ParsePrinted(items[0], [CLOSE_BRACKET] + rest);
      assert items == [items[0]];
      assert ([CLOSE_BRACKET] + rest)[1..] == rest;
    } else {
      var tail := ItemsText(items[1..]) + [CLOSE_BRACKET] + rest;
      assert s == ValueText(items[0]) + ([COMMA] + tail);
      ParsePrinted(items[0], [COMMA] + tail);
      assert ([COMMA] + tail)[1..] == tail;
      assert items[1..] == j.items[k + 1..];
      ParsePrintedItems(j, k + 1, rest);
      assert items == [items[0]] + items[1..];
    }
  }

  lemma ParsePrintedMember(m: Member, s: Text, rest: Text)
    requires m.key.Name? && ParseValue(s) == Some((m.value, rest))
    ensures ParseMember(StringText(m.key.text) + ([COLON] + s)) == Some((m, rest))
  {
    ParseString(m.key.text, [COLON] + s);
    assert ([COLON] + s)[1..] == s;
  }

  lemma SplitMember(m: Member, after: Text)
    requires AcceptedMember(m)
    ensures MemberText(m) + after == StringText(m.key.text) + ([COLON] + (ValueText(m.value) + after))
  {
    assert MemberText(m) == StringText(m.key.text) + ([COLON] + ValueText(m.value));
  }

  lemma ParseLastMember(m: Member, rest: Text)
    requires AcceptedMember(m)
    requires ParseValue(ValueText(m.value) + ([CLOSE_BRACE] + rest)) == Some((m.value, [CLOSE_BRACE] + rest))
    ensures ParseMembers(MemberText(m) + ([CLOSE_BRACE] + rest)) == Some(([m], rest))
  {
    var after := [CLOSE_BRACE] + rest;
    SplitMember(m, after);
    ParsePrintedMember(m, ValueText(m.value) + after, after);
    assert after[1..] == rest;
  }

  lemma ParseNextMember(m: Member, tail: Text, more: seq<Member>, rest: Text)
    requires AcceptedMember(m) && ParseMembers(tail) == Some((more, rest))
    requires ParseValue(ValueText(m.value) + ([COMMA] + tail)) == Some((m.value, [COMMA] + tail))
    ensures ParseMembers(MemberText(m) + ([COMMA] + tail)) == Some(([m] + more, rest))
  {
    var after := [COMMA] + tail;
    SplitMember(m, after);
    ParsePrintedMember(m, ValueText(m.value) + after, after);
    assert after[1..] == tail;
  }

  lemma LastMemberText(m: Member, rest: Text)
    requires AcceptedMember(m)
    ensures MembersText([m]) + [CLOSE_BRACE] + rest == MemberText(m) + ([CLOSE_BRACE] + rest)
    ensures MembersText([m])[0] == QUOTE
  {
  }

  lemma MoreMembersText(m: Member, more: seq<Member>, rest: Text)
    requires more != [] && AcceptedMember(m) && forall i | 0 <= i < |more| :: AcceptedMember(more[i])
    ensures forall i | 0 <= i < |[m] + more| :: AcceptedMember(([m] + more)[i])
    ensures MembersText([m] + more) + [CLOSE_BRACE] + rest ==
            MemberText(m) + ([COMMA] + (MembersText(more) + [CLOSE_BRACE] + rest))
    ensures MembersText([m] + more)[0] == QUOTE
  {
    assert ([m] + more)[1..] == more;
    assert MembersText([m] + more) == MemberText(m) + [COMMA] + MembersText(more);
  }

  lemma {:induction false} ParsePrintedMembers(j: Json, k: nat, rest: Text)
    requires j.Obj? && k < |j.members| && Accepted(j)
    ensures ParseMembers(MembersText(j.members[k..]) + [CLOSE_BRACE] + rest) == Some((j.members[k..], rest))
    ensures MembersText(j.members[k..])[0] == QUOTE
    decreases j, 0, |j.members| - k
  {
    var members := j.members[k..];
    var m, close := members[0], [CLOSE_BRACE] + rest;
    if |members| == 1 {
      ParsePrinted(m.value, close);
      ParseLastMember(m, rest);
      LastMemberText(m, rest);
      assert members == [m];
    } else {
      var more := members[1..];
      assert more == j.members[k + 1..];
      var tail := MembersText(more) + [CLOSE_BRACE] + rest;
      ParsePrintedMembers(j, k + 1, rest);
      ParsePrinted(m.value, [COMMA] + tail);
      ParseNextMember(m, tail, more, rest);
      MoreMembersText(m, more, rest);
      assert members == [m] + more;
    }
  }
}
