/** What a JSON reader finds in a log entry. */
module LogRoundTrip {
  import opened CStrings
  import opened Escaping
  import opened MdcList
  import opened LogEntry
  import opened JsonReader
  import opened Wrappers

  // ----- strings and numbers -----

  lemma ReadUnit(c: char, tail: string)
    ensures ReadString(EscapeChar(c) + tail) == Prefixed(SanitizeChar(c), ReadString(tail))
  {
    var e := EscapeChar(c) + tail;
    if NeedsEscape(c) {
      assert e[2..] == tail;
    } else {
      assert e[1..] == tail;
    }
  }

  lemma EscapedHead(x: string, end: string)
    requires x != []
    ensures Escaped(x) + end == EscapeChar(x[0]) + (Escaped(x[1..]) + end)
  {
    var first, others := EscapeChar(x[0]), Escaped(x[1..]);
    assert Escaped(x) == first + others;
    ConcatAssociates(first, others, end);
  }

  lemma ConcatAssociates(a: string, b: string, c: string)
    ensures a + b + c == a + (b + c)
  {
  }

  lemma SanitizedHead(x: string)
    requires x != []
    ensures [SanitizeChar(x[0])] + Sanitized(x[1..]) == Sanitized(x)
  {
  }

  /** Reading undoes escaping, except that unprintable bytes stay replaced. */
  lemma {:induction false} ReadEscaped(x: string, rest: string)
    ensures ReadString(Escaped(x) + ("\"" + rest)) == Read(Sanitized(x), rest)
  {
    var end := "\"" + rest;
    if x == [] {
      assert end[1..] == rest;
      assert Escaped(x) + end == end && Sanitized(x) == "";
    } else {
      hide ReadString, Escaped, Sanitized;
      ReadEscaped(x[1..], rest);
      ReadUnit(x[0], Escaped(x[1..]) + end);
      EscapedHead(x, end);
      SanitizedHead(x);
    }
  }

  lemma {:induction false} DecimalDigits(n: nat)
    ensures var d := Decimal(n);
      && (forall i :: 0 <= i < |d| ==> IsDigit(d[i]))
      && NumberValue(d) == n && (d[0] == '0' <==> n == 0) && (n == 0 ==> |d| == 1)
  {
    var d := Decimal(n);
    DigitCode(n % 10);
    if n >= 10 {
      DecimalDigits(n / 10);
      assert d[..|d| - 1] == Decimal(n / 10);
    } else {
      assert d[..0] == "";
    }
  }

  lemma DigitCode(d: nat)
    requires d < 10
    ensures IsDigit(Digit(d)) && Digit(d) as int - '0' as int == d
  {
  }

  lemma {:induction false} CountDigits(digits: string, rest: string)
    requires forall i :: 0 <= i < |digits| ==> IsDigit(digits[i])
    requires rest == "" || !IsDigit(rest[0])
    ensures DigitCount(digits + rest) == |digits|
  {
    if digits == "" {
      assert digits + rest == rest;
    } else {
      assert (digits + rest)[1..] == digits[1..] + rest;
      CountDigits(digits[1..], rest);
    }
  }

  lemma ReadDecimal(n: nat, rest: string)
    requires EndsMember(rest)
    ensures ReadValue(Decimal(n) + rest) == Read(Number(n), rest)
  {
    hide Decimal, NumberValue, DigitCount, ReadNumber, ReadMembers, ReadElements, ReadString;
    var d, s := Decimal(n), Decimal(n) + rest;
    DecimalDigits(n);
    CountDigits(d, rest);
    assert s[..|d|] == d && s[|d|..] == rest && IsDigit(s[0]);
    PlainNumber(s, |d|);
  }

  lemma PlainNumber(s: string, d: nat)
    requires 0 < d == DigitCount(s) && (d > 1 ==> s[0] != '0') && EndsMember(s[d..])
    ensures ReadNumber(s) == Read(Number(NumberValue(s[..d])), s[d..])
  {
    assert IsDigit(s[0]) && s[0..] == s && s[d + 0..] == s[d..];
  }

  // ----- members -----

  type Member = (string, Json)

  ghost predicate EndsMember(rest: string) { rest != "" && (rest[0] == ',' || rest[0] == '}') }

  /** In front of a comma or brace, `field` reads as `m`. */
  ghost predicate FieldReads(field: string, m: Member) {
    forall rest: string :: EndsMember(rest) ==> ReadMember(field + rest) == Read(m, rest)
  }

  lemma FieldStep(field: string, m: Member, rest: string)
    requires FieldReads(field, m) && EndsMember(rest)
    ensures ReadMember(field + rest) == Read(m, rest)
  {
  }

  lemma LastMember(s: string, m: Member, rest: string)
    requires ReadMember(s) == Read(m, "}" + rest)
    ensures ReadMembers(s) == Read([m], rest)
  {
    assert ("}" + rest)[1..] == rest;
  }

  lemma MoreMembers(s: string, m: Member, tail: string, members: seq<Member>, rest: string)
    requires ReadMember(s) == Read(m, "," + tail) && ReadMembers(tail) == Read(members, rest)
    ensures ReadMembers(s) == Read([m] + members, rest)
  {
    assert ("," + tail)[1..] == tail;
    assert ReadMember(tail).Read? && Skip(tail) == tail;
  }

  lemma ValueIsNotSpace(s: string)
    requires ReadValue(s).Read?
    ensures s != "" && !IsSpace(s[0])
  {
    hide ReadMembers, ReadElements, ReadString, NumberValue;
    assert s[0..] == s;
  }

  lemma MemberIs(s: string, name: string, text: string, value: Json, rest: string)
    requires s != "" && s[0] == '"' && ReadString(s[1..]) == Read(name, ":" + text)
    requires ReadValue(text) == Read(value, rest)
    ensures ReadMember(s) == Read((name, value), Skip(rest))
  {
    ValueIsNotSpace(text);
    hide ReadString, ReadValue;
    assert (":" + text)[1..] == text && Skip(":" + text) == ":" + text && Skip(text) == text;
  }

  /** A member whose name is `name`: what its value reads as decides the member. */
  lemma ReadNamed(name: string, text: string, value: Json, rest: string)
    requires SpecialFree(name) && ReadValue(text) == Read(value, rest)
    ensures ReadMember("\"" + name + "\":" + text) == Read((name, value), Skip(rest))
  {
    hide ReadMember, ReadString, ReadValue, Escaped, Sanitized, Skip;
    var s := "\"" + name + "\":" + text;
    SpecialFreeSanitized(name);
    ReadEscaped(name, ":" + text);
    assert s[1..] == Escaped(name) + ("\"" + (":" + text));
    MemberIs(s, name, text, value, rest);
  }

  lemma ReadStringValue(x: string, rest: string)
    ensures ReadValue("\"" + Escaped(x) + "\"" + rest) == Read(String(Sanitized(x)), rest)
  {
    var s := "\"" + Escaped(x) + "\"" + rest;
    ReadEscaped(x, rest);
    assert s[1..] == Escaped(x) + ("\"" + rest);
  }

  lemma StringFieldReads(name: string, x: string)
    requires SpecialFree(name)
    ensures FieldReads("\"" + name + "\":\"" + Escaped(x) + "\"", (name, String(Sanitized(x))))
  {
    var field := "\"" + name + "\":\"" + Escaped(x) + "\"";
    forall rest: string | EndsMember(rest)
      ensures ReadMember(field + rest) == Read((name, String(Sanitized(x))), rest)
    {
      var text := "\"" + Escaped(x) + "\"" + rest;
      ReadStringValue(x, rest);
      ReadNamed(name, text, String(Sanitized(x)), rest);
      assert field + rest == "\"" + name + "\":" + text;
    }
  }

  lemma TimestampReads(tv: TimeVal)
    ensures FieldReads(TimestampText(tv), ("ts", Number(Timestamp(tv))))
  {
    hide ReadMember, ReadValue, Decimal, Timestamp;
    forall rest: string | EndsMember(rest)
      ensures ReadMember(TimestampText(tv) + rest) == Read(("ts", Number(Timestamp(tv))), rest)
    {
      ReadDecimal(Timestamp(tv), rest);
      ReadNamed("ts", Decimal(Timestamp(tv)) + rest, Number(Timestamp(tv)), rest);
      assert TimestampText(tv) + rest == "\"" + "ts" + "\":" + (Decimal(Timestamp(tv)) + rest);
    }
  }

  lemma SeverityReads(severity: int)
    requires 1 <= severity <= 4
    ensures FieldReads(SeverityText(severity), ("crit", String(SeverityName(severity).value)))
  {
    hide FieldReads, Escaped, Sanitized;
    var name := SeverityName(severity).value;
    SpecialFreeSanitized(name);
    StringFieldReads("crit", name);
    assert SeverityText(severity) == "\"" + "crit" + "\":\"" + name + "\"";
  }

  lemma IdentityReads(identity: Option<CString>)
    requires SpecialFree(ShownIdentity(identity))
    ensures FieldReads(IdentityText(identity), ("id", String(ShownIdentity(identity))))
  {
    hide FieldReads, Escaped, Sanitized;
    var id := ShownIdentity(identity);
    SpecialFreeSanitized(id);
    StringFieldReads("id", id);
    assert IdentityText(identity) == "\"" + "id" + "\":\"" + id + "\"";
  }

  // ----- the MDC object -----

  /** A pair as the MDC store keeps it: the key needs no escaping, the value is escaped text. */
  ghost predicate WellFormed(p: Pair) { SpecialFree(p.key) && exists v: string :: p.value == Escaped(v) }

  ghost predicate AllWellFormed(list: seq<Pair>) { forall i :: 0 <= i < |list| ==> WellFormed(list[i]) }

  /** The value with its escaping undone. */
  function Plain(value: string): string {
    match Deescaped(value, |value|)
    case None => ""
    case Some(text) => text
  }

  function PairMembers(list: seq<Pair>): seq<Member> {
    seq(|list|, i requires 0 <= i < |list| => (list[i].key, String(Plain(list[i].value))))
  }

  lemma PlainEscaped(v: string)
    ensures Plain(Escaped(v)) == Sanitized(v)
  {
    EscapedPrintable(v);
    DeescapedEscaped(v, |Escaped(v)|);
    assert Sanitized(v)[..|v|] == Sanitized(v);
  }

  lemma PairReads(p: Pair)
    requires WellFormed(p)
    ensures FieldReads(PairField(p), (p.key, String(Plain(p.value))))
  {
    var v: string :| p.value == Escaped(v);
    PlainEscaped(v);
    StringFieldReads(p.key, v);
  }

  lemma {:induction false} PairsRead(list: seq<Pair>, rest: string)
    requires list != [] && AllWellFormed(list)
    ensures ReadMembers(WithoutComma(PairsText(list)) + "}" + rest) == Read(PairMembers(list), rest)
  {
    hide FieldReads, ReadMember, ReadMembers, WellFormed, Plain, PairsText, WithoutComma, PairField;
    var p, text := list[0], WithoutComma(PairsText(list)) + "}" + rest;
    var m := (p.key, String(Plain(p.value)));
    PairReads(p);
    PairsTextSplit(list, rest);
    if |list| == 1 {
      FieldStep(PairField(p), m, "}" + rest);
      LastMember(text, m, rest);
      assert PairMembers(list) == [m];
    } else {
      var tail := WithoutComma(PairsText(list[1..])) + "}" + rest;
      PairsRead(list[1..], rest);
      FieldStep(PairField(p), m, "," + tail);
      MoreMembers(text, m, tail, PairMembers(list[1..]), rest);
      assert PairMembers(list) == [m] + PairMembers(list[1..]);
    }
  }

  lemma PairsTextSplit(list: seq<Pair>, rest: string)
    requires list != []
    ensures WithoutComma(PairsText(list)) + "}" + rest ==
      if |list| == 1 then PairField(list[0]) + ("}" + rest)
      else PairField(list[0]) + ("," + (WithoutComma(PairsText(list[1..])) + "}" + rest))
  {
    hide PairField, WithoutComma;
    var field, others := PairField(list[0]), PairsText(list[1..]);
    assert PairsText(list) == field + "," + others;
    if |list| > 1 { PairsTextNonempty(list[1..]); }
    hide PairsText;
    CommaSplit(field, others, rest);
    assert |list| == 1 ==> others == PairsText([]);
    NoPairsText();
  }

  lemma CommaSplit(field: string, others: string, rest: string)
    ensures WithoutComma(field + "," + others) + "}" + rest ==
      if others == "" then field + ("}" + rest) else field + ("," + (WithoutComma(others) + "}" + rest))
  {
    if others == "" {
      assert field + "," + others == field + ",";
      assert WithoutComma(field + ",") == field;
    } else {
      assert WithoutComma(field + "," + others) == field + "," + WithoutComma(others);
    }
  }

  lemma PairsTextNonempty(list: seq<Pair>)
    requires list != []
    ensures PairsText(list) != ""
  {
  }

  lemma ReadPairsObject(list: seq<Pair>, rest: string)
    requires AllWellFormed(list)
    ensures ReadValue("{" + WithoutComma(PairsText(list)) + "}" + rest) == Read(Object(PairMembers(list)), rest)
  {
    hide ReadMembers, PairsText, WithoutComma, WellFormed;
    var s := "{" + WithoutComma(PairsText(list)) + "}" + rest;
    if list == [] {
      NoPairsText();
      assert s[1..] == "}" + rest && s[1..][1..] == rest && Skip(s[1..]) == s[1..];
      assert PairMembers(list) == [];
    } else {
      PairsRead(list, rest);
      assert s[1..] == WithoutComma(PairsText(list)) + "}" + rest;
      FirstPairIsQuoted(list);
      assert Skip(s[1..]) == s[1..];
    }
  }

  lemma NoPairsText()
    ensures PairsText([]) == "" && WithoutComma("") == ""
  {
  }

  lemma FirstPairIsQuoted(list: seq<Pair>)
    requires list != []
    ensures |WithoutComma(PairsText(list))| > 0 && WithoutComma(PairsText(list))[0] == '"'
  {
  }

  lemma MdcReads(list: seq<Pair>, len: nat)
    requires len > 8 && AllWellFormed(list)
    ensures FieldReads(MdcText(list, len), ("mdc", Object(PairMembers(list[..FittingPairs(list, len - 7)]))))
  {
    hide ReadValue, ReadMember, PairsText, WithoutComma, FittingPairs, PairMembers, WellFormed;
    var shown := list[..FittingPairs(list, len - 7)];
    forall rest: string | EndsMember(rest)
      ensures ReadMember(MdcText(list, len) + rest) == Read(("mdc", Object(PairMembers(shown))), rest)
    {
      var text := "{" + WithoutComma(PairsText(shown)) + "}" + rest;
      ReadPairsObject(shown, rest);
      ReadNamed("mdc", text, Object(PairMembers(shown)), rest);
      assert MdcText(list, len) + rest == "\"" + "mdc" + "\":" + text;
    }
  }

  // ----- the message -----

  /** The message as a reader of the entry sees it. */
  ghost function ShownMessage(msg: string, len: nat): string
    requires len >= 20
  {
    if |Escaped(msg)| <= len - 9 then Sanitized(msg) else Sanitized(msg[..Fitting(msg, len - 20)]) + TRUNCATED
  }

  lemma SanitizedConcat(a: string, b: string)
    ensures Sanitized(a + b) == Sanitized(a) + Sanitized(b)
  {
  }

  lemma MessageReads(msg: string, len: nat)
    requires len >= 20
    ensures FieldReads(MessageText(msg, len), ("msg", String(ShownMessage(msg, len))))
  {
    hide FieldReads, Escaped, Sanitized, Fitting;
    if |Escaped(msg)| <= len - 9 {
      StringFieldReads("msg", msg);
      assert MessageText(msg, len) == "\"" + "msg" + "\":\"" + Escaped(msg) + "\"";
    } else {
      var cut := msg[..Fitting(msg, len - 20)];
      SpecialFreeSanitized(TRUNCATED);
      EscapedConcat(cut, TRUNCATED);
      StringFieldReads("msg", cut + TRUNCATED);
      SanitizedConcat(cut, TRUNCATED);
      assert MessageText(msg, len) == "\"" + "msg" + "\":\"" + Escaped(cut + TRUNCATED) + "\"";
    }
  }

  // ----- the entry -----

  ghost predicate FieldsRead(fields: seq<string>, members: seq<Member>) {
    |fields| == |members| && forall i :: 0 <= i < |fields| ==> FieldReads(fields[i], members[i])
  }

  lemma JoinedLast(fields: seq<string>, tail: string)
    requires fields != []
    ensures var n := |fields| - 1;
      Joined(fields) + tail == Joined(fields[..n]) + (fields[n] + ("," + tail))
  {
  }

  lemma {:induction false} JoinedReads(fields: seq<string>, members: seq<Member>, tail: string, last: seq<Member>,
                                       rest: string)
    requires FieldsRead(fields, members)
    requires ReadMembers(tail) == Read(last, rest)
    ensures ReadMembers(Joined(fields) + tail) == Read(members + last, rest)
    decreases |fields|
  {
    hide FieldReads, ReadMember, ReadMembers;
    if fields == [] {
      assert Joined(fields) + tail == tail && members + last == last;
    } else {
      hide Joined;
      var n := |fields| - 1;
      var more := fields[n] + ("," + tail);
      FieldStep(fields[n], members[n], "," + tail);
      MoreMembers(more, members[n], tail, last, rest);
      JoinedReads(fields[..n], members[..n], more, [members[n]] + last, rest);
      JoinedLast(fields, tail);
      assert members + last == members[..n] + ([members[n]] + last);
    }
  }

  lemma FieldIsQuoted(field: string, m: Member)
    requires FieldReads(field, m)
    ensures field != "" && field[0] == '"'
  {
    FieldStep(field, m, "}");
    assert field == "" ==> field + "}" == "}";
  }

  lemma {:induction false} JoinedIsQuoted(fields: seq<string>, members: seq<Member>)
    requires FieldsRead(fields, members) && fields != []
    ensures Joined(fields) != "" && Joined(fields)[0] == '"'
    decreases |fields|
  {
    var n := |fields| - 1;
    FieldIsQuoted(fields[n], members[n]);
    if n > 0 {
      JoinedIsQuoted(fields[..n], members[..n]);
    } else {
      assert Joined(fields[..0]) == "";
    }
  }

  /** Fields and a message, put together as an entry, read as an object of their members. */
  lemma DocumentReads(fields: seq<string>, members: seq<Member>, message: string, m: Member)
    requires FieldsRead(fields, members) && FieldReads(message, m)
    ensures ReadDocument("{" + Joined(fields) + message + "}") == Some(Object(members + [m]))
  {
    hide FieldReads, ReadMember, ReadMembers;
    var tail, s := message + "}", "{" + Joined(fields) + message + "}";
    FieldStep(message, m, "}");
    assert "}" == "}" + "";
    LastMember(tail, m, "");
    JoinedReads(fields, members, tail, [m], "");
    FieldIsQuoted(message, m);
    if fields != [] { JoinedIsQuoted(fields, members); }
    assert s[1..] == Joined(fields) + tail;
    assert s[1] == '"' && Skip(s[1..]) == s[1..] && Skip(s) == s;
  }
}
