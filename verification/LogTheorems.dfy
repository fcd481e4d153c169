/** What holds of every log entry: it reads back as JSON, when it is lost, what bytes it has. */
module LogTheorems {
  import opened CStrings
  import opened Escaping
  import opened MdcList
  import opened LogEntry
  import opened JsonReader
  import opened LogRoundTrip
  import opened Wrappers

  // ----- the fields that a buffer of the minimum size always has room for -----

  function SeverityFields(severity: int): seq<string> {
    if SeverityName(severity) == None then [] else [SeverityText(severity)]
  }

  lemma TimestampSize(tv: TimeVal)
    ensures 0 < |TimestampText(tv)| <= 25
  {
    assert Pow10(4) == 1_0000;
    assert Pow10(8) == 1_0000_0000;
    assert Pow10(12) == 1_0000_0000_0000;
    assert Pow10(16) == 1_0000_0000_0000_0000;
    assert Pow10(20) == 1_0000_0000_0000_0000_0000;
    DecimalLength(Timestamp(tv), 20);
  }

  lemma KeepFits(len: nat, fields: seq<string>, field: string)
    requires 0 < |field| < Room(len, fields)
    ensures Keep(len, fields, field) == fields + [field]
    ensures Room(len, fields + [field]) == Room(len, fields) - |field| - 1
  {
    JoinedKeep(len, fields, field);
  }

  lemma HeadAlwaysFits(len: nat, tv: TimeVal, identity: Option<CString>, severity: int)
    requires len >= MIN_BUFFER_LENGTH
    ensures HeadFields(len, tv, identity, severity) ==
      [TimestampText(tv)] + SeverityFields(severity) + [IdentityText(identity)]
    ensures Room(len, HeadFields(len, tv, identity, severity)) >= 800
  {
    hide TimestampText, IdentityText;
    TimestampSize(tv);
    IdentitySize(identity);
    KeepFits(len, [], TimestampText(tv));
    var one := [TimestampText(tv)];
    assert [] + one == one;
    if SeverityName(severity) != None {
      KeepFits(len, one, SeverityText(severity));
    }
    var two := one + SeverityFields(severity);
    assert Keep(len, one, SeverityText(severity)) == two;
    KeepFits(len, two, IdentityText(identity));
  }

  lemma IdentitySize(identity: Option<CString>)
    ensures 0 < |IdentityText(identity)| <= 107
  {
  }

  /** The MDC always gets a place: all of it, or the longest prefix that fits. */
  lemma MdcAlwaysFits(len: nat, tv: TimeVal, identity: Option<CString>, severity: int, list: seq<Pair>)
    requires len >= MIN_BUFFER_LENGTH
    ensures var head := HeadFields(len, tv, identity, severity);
      && Room(len, head) >= 800
      && EntryFields(len, tv, identity, severity, list) == head + [MdcText(list, Room(len, head))]
      && Room(len, EntryFields(len, tv, identity, severity, list)) ==
           Room(len, head) - |MdcText(list, Room(len, head))| - 1
  {
    HeadAlwaysFits(len, tv, identity, severity);
    var head := HeadFields(len, tv, identity, severity);
    MdcTextSize(list, Room(len, head));
    KeepFits(len, head, MdcText(list, Room(len, head)));
  }

  // ----- round trip -----

  /** The MDC pairs that an entry shows. */
  function ShownPairs(len: nat, tv: TimeVal, identity: Option<CString>, severity: int, list: seq<Pair>): seq<Pair>
    requires Room(len, HeadFields(len, tv, identity, severity)) > 8
  {
    list[..FittingPairs(list, Room(len, HeadFields(len, tv, identity, severity)) - 7)]
  }

  /** The severity as an entry gives it: ERROR for 1 up to DEBUG for 4, and nothing for anything else. */
  function SeverityMembers(severity: int): seq<Member> {
    if severity == 1 then [("crit", String("ERROR"))]
    else if severity == 2 then [("crit", String("WARNING"))]
    else if severity == 3 then [("crit", String("INFO"))]
    else if severity == 4 then [("crit", String("DEBUG"))]
    else []
  }

  function EntryMembers(tv: TimeVal, identity: string, severity: int, shown: seq<Pair>, message: string): seq<Member> {
    [("ts", Number(Timestamp(tv)))]
    + SeverityMembers(severity)
    + [("id", String(identity)), ("mdc", Object(PairMembers(shown))), ("msg", String(message))]
  }

  /** Either the whole message, or a prefix of it and the mark. */
  ghost predicate ShowsMessage(shown: string, msg: string) {
    shown == Sanitized(msg) || exists k :: 0 <= k < |msg| && shown == Sanitized(msg[..k]) + "[truncated]"
  }

  lemma ShownMessageShows(msg: string, len: nat)
    requires len >= 20
    ensures ShowsMessage(ShownMessage(msg, len), msg)
  {
    if |Escaped(msg)| > len - 9 {
      assert msg[..|msg|] == msg;
      var k := Fitting(msg, len - 20);
      assert ShownMessage(msg, len) == Sanitized(msg[..k]) + TRUNCATED;
    }
  }

  /** Bytes left for the message behind the fields that are kept. */
  function MessageRoom(len: nat, tv: TimeVal, identity: Option<CString>, severity: int, list: seq<Pair>): int {
    len - (1 + |Joined(EntryFields(len, tv, identity, severity, list))|) - 1
  }

  /** The message as an entry shows it. */
  ghost function MessageShown(len: nat, tv: TimeVal, identity: Option<CString>, severity: int, list: seq<Pair>,
                              msg: string)
    : string
    requires MessageRoom(len, tv, identity, severity, list) >= 20
  {
    ShownMessage(msg, MessageRoom(len, tv, identity, severity, list))
  }

  /** `text` is a JSON object with exactly these contents. */
  ghost predicate ReadsBack(text: string, tv: TimeVal, identity: string, severity: int, shown: seq<Pair>,
                            message: string) {
    ReadDocument(text) == Some(Object(EntryMembers(tv, identity, severity, shown, message)))
  }

  /** The same for any identity, once its field reads as some text. */
  lemma EntryReadsWith(len: nat, tv: TimeVal, identity: Option<CString>, severity: int, list: seq<Pair>, msg: string,
                       id: string)
    requires len >= MIN_BUFFER_LENGTH
    requires FieldReads(IdentityText(identity), ("id", String(id))) && AllWellFormed(list)
    requires EntryText(len, tv, identity, severity, list, msg).Some?
    ensures Room(len, HeadFields(len, tv, identity, severity)) > 8
    ensures MessageRoom(len, tv, identity, severity, list) >= 20
    ensures ReadsBack(EntryText(len, tv, identity, severity, list, msg).value, tv, id, severity,
                      ShownPairs(len, tv, identity, severity, list),
                      MessageShown(len, tv, identity, severity, list, msg))
  {
    hide FieldReads, ReadDocument, Joined, MessageText, TimestampText, IdentityText, SeverityText, MdcText,
      ShownMessage, AllWellFormed;
    HeadAlwaysFits(len, tv, identity, severity);
    MdcAlwaysFits(len, tv, identity, severity, list);
    var head := HeadFields(len, tv, identity, severity);
    var fields := EntryFields(len, tv, identity, severity, list);
    var crit := SeverityMembers(severity);
    var shown := ShownPairs(len, tv, identity, severity, list);
    var members := [("ts", Number(Timestamp(tv)))] + crit + [("id", String(id)), ("mdc", Object(PairMembers(shown)))];
    TimestampReads(tv);
    if 1 <= severity <= 4 { SeverityReads(severity); }
    MdcReads(list, Room(len, head));
    assert FieldsRead(fields, members);
    var size := len - (1 + |Joined(fields)|) - 1;
    EntryHasMessage(len, tv, identity, severity, list, msg);
    MessageReads(msg, size);
    DocumentReads(fields, members, MessageText(msg, size), ("msg", String(ShownMessage(msg, size))));
    assert members + [("msg", String(ShownMessage(msg, size)))] ==
      EntryMembers(tv, id, severity, shown, ShownMessage(msg, size));
  }

  /** For every time, severity, MDC list and message: an entry is JSON, and reading it gives
      back what was logged. */
  lemma EntryRoundTrip(len: nat, tv: TimeVal, identity: Option<CString>, severity: int, list: seq<Pair>, msg: string)
    requires len >= MIN_BUFFER_LENGTH
    requires SpecialFree(ShownIdentity(identity)) && AllWellFormed(list)
    requires EntryText(len, tv, identity, severity, list, msg).Some?
    ensures Room(len, HeadFields(len, tv, identity, severity)) > 8
    ensures MessageRoom(len, tv, identity, severity, list) >= 20
    ensures ShownPairs(len, tv, identity, severity, list) <= list
    ensures ShowsMessage(MessageShown(len, tv, identity, severity, list, msg), msg)
    ensures ReadsBack(EntryText(len, tv, identity, severity, list, msg).value, tv, ShownIdentity(identity), severity,
                      ShownPairs(len, tv, identity, severity, list),
                      MessageShown(len, tv, identity, severity, list, msg))
  {
    hide ShownMessage, MessageRoom, FieldReads, EntryText, ReadsBack, HeadFields, AllWellFormed;
    IdentityReads(identity);
    EntryReadsWith(len, tv, identity, severity, list, msg, ShownIdentity(identity));
    ShownMessageShows(msg, MessageRoom(len, tv, identity, severity, list));
  }

  // ----- reading the severity -----

  function FindMember(members: seq<Member>, name: string): Option<Json> {
    if members == [] then None
    else if members[0].0 == name then Some(members[0].1)
    else FindMember(members[1..], name)
  }

  /** The severity that a reader of an entry finds. */
  function SeverityRead(text: string): Option<int> {
    match ReadDocument(text)
    case Some(Object(members)) =>
      var crit := FindMember(members, "crit");
      if crit == Some(String("ERROR")) then Some(1)
      else if crit == Some(String("WARNING")) then Some(2)
      else if crit == Some(String("INFO")) then Some(3)
      else if crit == Some(String("DEBUG")) then Some(4)
      else None
    case _ => None
  }

  /** A reader recovers the severity of an entry, so entries of different severities differ. */
  lemma SeverityIsRead(len: nat, tv: TimeVal, identity: Option<CString>, severity: int, list: seq<Pair>, msg: string)
    requires len >= MIN_BUFFER_LENGTH
    requires SpecialFree(ShownIdentity(identity)) && AllWellFormed(list)
    ensures match EntryText(len, tv, identity, severity, list, msg)
      case None => true
      case Some(text) => SeverityRead(text) == if 1 <= severity <= 4 then Some(severity) else None
  {
    hide EntryText, ReadDocument, AllWellFormed, HeadFields;
    if EntryText(len, tv, identity, severity, list, msg).Some? {
      EntryRoundTrip(len, tv, identity, severity, list, msg);
      SeverityMember(tv, ShownIdentity(identity), severity, ShownPairs(len, tv, identity, severity, list),
                     MessageShown(len, tv, identity, severity, list, msg));
    }
  }

  lemma SeverityMember(tv: TimeVal, identity: string, severity: int, shown: seq<Pair>, message: string)
    ensures FindMember(EntryMembers(tv, identity, severity, shown, message), "crit") ==
      if SeverityMembers(severity) == [] then None else Some(SeverityMembers(severity)[0].1)
  {
    hide FindMember, PairMembers, Timestamp;
    var a, b, c := ("id", String(identity)), ("mdc", Object(PairMembers(shown))), ("msg", String(message));
    var ts, crit := ("ts", Number(Timestamp(tv))), SeverityMembers(severity);
    assert EntryMembers(tv, identity, severity, shown, message) == [ts] + (crit + [a, b, c]);
    FindBehind(ts, crit + [a, b, c], "crit");
    NotAmong(a, b, c, "crit");
    if crit == [] {
      assert crit + [a, b, c] == [a, b, c];
    } else {
      assert crit + [a, b, c] == [crit[0]] + [a, b, c];
      FindBehind(crit[0], [a, b, c], "crit");
    }
  }

  lemma NotAmong(a: Member, b: Member, c: Member, name: string)
    requires a.0 != name && b.0 != name && c.0 != name
    ensures FindMember([a, b, c], name) == None
  {
    FindBehind(c, [], name);
    FindBehind(b, [c], name);
    FindBehind(a, [b, c], name);
    assert [a, b, c] == [a] + [b, c] && [b, c] == [b] + [c] && [c] == [c] + [];
  }

  lemma FindBehind(first: Member, rest: seq<Member>, name: string)
    ensures FindMember([first] + rest, name) == if first.0 == name then Some(first.1) else FindMember(rest, name)
  {
    assert ([first] + rest)[1..] == rest;
  }

  /** A sane time is logged in milliseconds. */
  lemma TimestampIsMilliseconds(tv: TimeVal)
    requires 0 <= tv.sec && 0 <= tv.usec < 1_000_000
    requires tv.sec * 1000 + 999 < TWO_TO_THE_64
    ensures Timestamp(tv) == tv.sec * 1000 + tv.usec / 1000
  {
  }

  lemma EntryHasMessage(len: nat, tv: TimeVal, identity: Option<CString>, severity: int, list: seq<Pair>, msg: string)
    requires len >= 21
    ensures match EntryText(len, tv, identity, severity, list, msg)
      case None => true
      case Some(text) =>
        var fields := EntryFields(len, tv, identity, severity, list);
        var size := len - (1 + |Joined(fields)|) - 1;
        size >= 20 && text == "{" + Joined(fields) + MessageText(msg, size) + "}"
  {
    hide EntryFields, Joined, MessageText;
    RoomForMessage(len, tv, identity, severity, list);
    var size := len - (1 + |Joined(EntryFields(len, tv, identity, severity, list))|) - 1;
    NoMessageInTooLittle(msg, size);
  }

  lemma NoMessageInTooLittle(msg: string, len: nat)
    ensures MessageText(msg, len) == "" <==> len < 20
  {
  }

  // ----- truncation -----

  /** An entry whose message field is `body`, behind the other fields. */
  function WithMessage(len: nat, tv: TimeVal, identity: Option<CString>, severity: int, list: seq<Pair>, body: string)
    : string
  {
    "{" + Joined(EntryFields(len, tv, identity, severity, list)) + "\"msg\":\"" + body + "\"}"
  }

  /** The longest prefix of the message was kept, followed by the mark: the next longer entry would not fit. */
  ghost predicate CutAt(len: nat, tv: TimeVal, identity: Option<CString>, severity: int, list: seq<Pair>, msg: string,
                        text: string, k: nat)
  {
    && k < |msg| && text == WithMessage(len, tv, identity, severity, list, Escaped(msg[..k]) + "[truncated]")
    && forall j :: k < j <= |msg| ==>
         |WithMessage(len, tv, identity, severity, list, Escaped(msg[..j]) + "[truncated]")| >= len
  }

  /** A finished entry has the whole message exactly if that fits the buffer, with its terminator; otherwise as
      much of it as fits in front of the mark. */
  lemma MessageCutOnlyIfNeeded(len: nat, tv: TimeVal, identity: Option<CString>, severity: int, list: seq<Pair>,
                               msg: string)
    requires len >= 21
    ensures match EntryText(len, tv, identity, severity, list, msg)
      case None => true
      case Some(text) =>
        var whole := WithMessage(len, tv, identity, severity, list, Escaped(msg));
        if |whole| < len then text == whole else exists k: nat :: CutAt(len, tv, identity, severity, list, msg, text, k)
  {
    hide EntryText, EntryFields, Joined, Escaped, Fitting;
    EntryHasMessage(len, tv, identity, severity, list, msg);
    if EntryText(len, tv, identity, severity, list, msg).Some? {
      var text := EntryText(len, tv, identity, severity, list, msg).value;
      var front := "{" + Joined(EntryFields(len, tv, identity, severity, list));
      var size := len - |front| - 1;
      var body := MessageBody(msg, size);
      assert text == front + ("\"msg\":\"" + body + "\"") + "}";
      Enclosed(front, body);
      assert text == WithMessage(len, tv, identity, severity, list, body);
      if |Escaped(msg)| > size - 9 {
        var k := Fitting(msg, size - 20);
        assert msg[..|msg|] == msg;
        assert CutAt(len, tv, identity, severity, list, msg, text, k);
      }
    }
  }

  lemma Enclosed(front: string, body: string)
    ensures front + ("\"msg\":\"" + body + "\"") + "}" == front + "\"msg\":\"" + body + "\"}"
  {
  }

  // ----- dropped pairs -----

  /** All pairs of the MDC are shown exactly when their text, commas included, stays below the room for it. */
  lemma AllPairsShownIff(len: nat, tv: TimeVal, identity: Option<CString>, severity: int, list: seq<Pair>)
    requires len >= MIN_BUFFER_LENGTH
    ensures Room(len, HeadFields(len, tv, identity, severity)) > 8
    ensures ShownPairs(len, tv, identity, severity, list) == list <==>
      |PairsText(list)| < Room(len, HeadFields(len, tv, identity, severity)) - 7
  {
    hide HeadFields, Room, PairsText;
    HeadAlwaysFits(len, tv, identity, severity);
    FittingPairsLongest(list, Room(len, HeadFields(len, tv, identity, severity)) - 7);
    assert list[..|list|] == list;
  }

  /** Whatever else is logged, this pair is dropped from an entry that is otherwise complete. */
  lemma EntryDropsPair(len: nat, tv: TimeVal, identity: Option<CString>, severity: int, msg: string)
    requires len >= MIN_BUFFER_LENGTH
    ensures var list := [Pair("k", seq(len, _ => 'a'))];
      && AllWellFormed(list)
      && EntryText(len, tv, identity, severity, list, msg) != None
      && Room(len, HeadFields(len, tv, identity, severity)) > 8
      && ShownPairs(len, tv, identity, severity, list) == []
  {
    var value := seq(len, _ => 'a');
    var list := [Pair("k", value)];
    SpecialFreeSanitized(value);
    assert WellFormed(list[0]);
    hide EntryText, HeadFields, Escaped;
    HeadAlwaysFits(len, tv, identity, severity);
    EntryLostIffMdcFull(len, tv, identity, severity, list, msg);
    var room := Room(len, HeadFields(len, tv, identity, severity));
    assert list[..0] == [] && |PairText(list[0])| > len > room;
    MdcTextSize(list, room);
  }

  // ----- lost entries -----

  /** An entry is lost exactly when the MDC fills its part of the buffer to the last byte. */
  lemma EntryLostIffMdcFull(len: nat, tv: TimeVal, identity: Option<CString>, severity: int, list: seq<Pair>,
                            msg: string)
    requires len >= MIN_BUFFER_LENGTH
    ensures var room := Room(len, HeadFields(len, tv, identity, severity));
      && room >= 800
      && (EntryText(len, tv, identity, severity, list, msg) == None <==> |MdcText(list, room)| == room - 1)
  {
    hide MdcText, HeadFields;
    MdcAlwaysFits(len, tv, identity, severity, list);
    RoomForMessage(len, tv, identity, severity, list);
    var fields := EntryFields(len, tv, identity, severity, list);
    MessageTextSize(msg, len - (1 + |Joined(fields)|) - 1);
  }

  /** Whatever is logged, one MDC pair of the right size makes the entry disappear. */
  lemma EntryCanBeLost(len: nat, tv: TimeVal, identity: Option<CString>, severity: int, msg: string)
    requires len >= MIN_BUFFER_LENGTH
    ensures exists p: Pair :: WellFormed(p) && EntryText(len, tv, identity, severity, [p], msg) == None
  {
    hide EntryText, HeadFields, MdcText;
    EntryLostIffMdcFull(len, tv, identity, severity, [], msg);
    var room := Room(len, HeadFields(len, tv, identity, severity));
    var p := PairOfSize(room);
    EntryLostIffMdcFull(len, tv, identity, severity, [p], msg);
  }

  lemma PairOfSize(room: nat) returns (p: Pair)
    requires room >= 800
    ensures WellFormed(p) && |MdcText([p], room)| == room - 1
  {
    var value := seq(room - 15, _ => 'a');
    p := Pair("k", value);
    SpecialFreeSanitized(value);
    PairsTextStep([p], 0);
    assert [p][..0] == [] && [p][..1] == [p];
    assert |PairsText([p])| == |PairText(p)| == room - 8;
    FittingPairsIs([p], room - 7, 1);
  }

  // ----- bytes -----

  lemma {:induction false} PairsPrintable(list: seq<Pair>)
    requires AllWellFormed(list)
    ensures AllPrintable(PairsText(list))
  {
    if list != [] {
      var v: string :| list[0].value == Escaped(v);
      EscapedPrintable(v);
      assert AllPrintable(PairText(list[0]));
      PairsPrintable(list[1..]);
    }
  }

  lemma {:induction false} DecimalPrintable(n: nat)
    ensures AllPrintable(Decimal(n))
  {
    DecimalDigits(n);
  }

  ghost predicate FieldsPrintable(fields: seq<string>) {
    forall i :: 0 <= i < |fields| ==> AllPrintable(fields[i])
  }

  lemma {:induction false} JoinedPrintable(fields: seq<string>)
    requires FieldsPrintable(fields)
    ensures AllPrintable(Joined(fields))
    decreases |fields|
  {
    if fields != [] {
      var n := |fields| - 1;
      JoinedPrintable(fields[..n]);
      assert AllPrintable(fields[n]);
      hide AllPrintable, FieldsPrintable;
      PrintableConcat(Joined(fields[..n]), fields[n]);
      CommaPrintable();
      PrintableConcat(Joined(fields[..n]) + fields[n], ",");
    }
  }

  lemma CommaPrintable()
    ensures AllPrintable(",") && AllPrintable("{") && AllPrintable("}")
  {
  }

  lemma KeepPrintable(len: nat, fields: seq<string>, field: string)
    requires AllPrintable(field) && FieldsPrintable(fields)
    ensures FieldsPrintable(Keep(len, fields, field))
  {
    hide AllPrintable;
  }

  lemma MessagePrintable(msg: string, len: nat)
    ensures AllPrintable(MessageText(msg, len))
  {
    if len >= 20 {
      var start, body, cut := "\"msg\":\"", MessageBody(msg, len), msg[..Fitting(msg, len - 20)];
      assert AllPrintable(start) && AllPrintable(TRUNCATED) && AllPrintable("\"");
      EscapedPrintable(msg);
      EscapedPrintable(cut);
      hide AllPrintable, Escaped, Fitting;
      PrintableConcat(Escaped(cut), TRUNCATED);
      PrintableConcat(start, body);
      PrintableConcat(start + body, "\"");
    }
  }

  lemma MdcPrintable(list: seq<Pair>, len: nat)
    requires AllWellFormed(list)
    ensures AllPrintable(MdcText(list, len))
  {
    if len > 8 { PairsPrintable(list[..FittingPairs(list, len - 7)]); }
  }

  /** An entry consists of printable bytes only, so it is one line. */
  lemma EntryPrintable(len: nat, tv: TimeVal, identity: Option<CString>, severity: int, list: seq<Pair>, msg: string)
    requires AllPrintable(ShownIdentity(identity)) && AllWellFormed(list)
    ensures match EntryText(len, tv, identity, severity, list, msg)
      case Some(text) => AllPrintable(text)
      case None => true
  {
    hide AllPrintable, FieldsPrintable, EntryFields, Joined, MessageText, AllWellFormed;
    var fields := EntryFields(len, tv, identity, severity, list);
    EntryFieldsPrintable(len, tv, identity, severity, list);
    JoinedPrintable(fields);
    var used := 1 + |Joined(fields)|;
    var message := MessageText(msg, if used + 1 <= len then len - used - 1 else 0);
    MessagePrintable(msg, if used + 1 <= len then len - used - 1 else 0);
    CommaPrintable();
    PrintableConcat("{", Joined(fields));
    PrintableConcat("{" + Joined(fields), message);
    PrintableConcat("{" + Joined(fields) + message, "}");
  }

  lemma TextsPrintable(tv: TimeVal, identity: Option<CString>, severity: int)
    requires AllPrintable(ShownIdentity(identity))
    ensures AllPrintable(TimestampText(tv)) && AllPrintable(SeverityText(severity))
    ensures AllPrintable(IdentityText(identity))
  {
    hide Decimal, ShownIdentity;
    DecimalPrintable(Timestamp(tv));
  }

  lemma EntryFieldsPrintable(len: nat, tv: TimeVal, identity: Option<CString>, severity: int, list: seq<Pair>)
    requires AllPrintable(ShownIdentity(identity)) && AllWellFormed(list)
    ensures FieldsPrintable(EntryFields(len, tv, identity, severity, list))
  {
    TextsPrintable(tv, identity, severity);
    assert FieldsPrintable([]);
    hide AllPrintable, FieldsPrintable, Keep, Room, MdcText, TimestampText, SeverityText, IdentityText, AllWellFormed;
    var one := Keep(len, [], TimestampText(tv));
    KeepPrintable(len, [], TimestampText(tv));
    var two := Keep(len, one, SeverityText(severity));
    KeepPrintable(len, one, SeverityText(severity));
    KeepPrintable(len, two, IdentityText(identity));
    var head := HeadFields(len, tv, identity, severity);
    MdcPrintable(list, if Room(len, head) < 0 then 0 else Room(len, head));
    KeepPrintable(len, head, MdcField(len, head, list));
  }

  // ----- entries in a buffer of any size -----

  lemma KeepReads(len: nat, fields: seq<string>, members: seq<Member>, field: string, m: Member)
    returns (members': seq<Member>)
    requires FieldsRead(fields, members)
    requires field != "" ==> FieldReads(field, m)
    ensures FieldsRead(Keep(len, fields, field), members')
  {
    hide FieldReads;
    members' := if Keep(len, fields, field) == fields then members else members + [m];
  }

  /** The fields kept in front of the MDC read as members. */
  lemma HeadReads(len: nat, tv: TimeVal, identity: Option<CString>, severity: int) returns (members: seq<Member>)
    requires SpecialFree(ShownIdentity(identity))
    ensures FieldsRead(HeadFields(len, tv, identity, severity), members)
  {
    var crit := ("crit", String(match SeverityName(severity) case None => "" case Some(name) => name));
    TimestampReads(tv);
    if 1 <= severity <= 4 { SeverityReads(severity); }
    IdentityReads(identity);
    assert SeverityText(severity) != "" ==> FieldReads(SeverityText(severity), crit);
    assert FieldsRead([], []);
    hide FieldReads, FieldsRead, TimestampText, IdentityText, SeverityText, Keep;
    var one := KeepReads(len, [], [], TimestampText(tv), ("ts", Number(Timestamp(tv))));
    var fields1 := Keep(len, [], TimestampText(tv));
    var two := KeepReads(len, fields1, one, SeverityText(severity), crit);
    var fields2 := Keep(len, fields1, SeverityText(severity));
    members := KeepReads(len, fields2, two, IdentityText(identity), ("id", String(ShownIdentity(identity))));
  }

  /** Fields that do not fit are left out, and what remains is still JSON. */
  lemma AnySizeReads(len: nat, tv: TimeVal, identity: Option<CString>, severity: int, list: seq<Pair>, msg: string)
    requires len >= 21
    requires SpecialFree(ShownIdentity(identity)) && AllWellFormed(list)
    ensures match EntryText(len, tv, identity, severity, list, msg)
      case Some(text) => exists members: seq<Member> :: ReadDocument(text) == Some(Object(members))
      case None => true
  {
    hide FieldReads, FieldsRead, ReadDocument, Joined, MessageText, HeadFields, Keep, MdcField, AllWellFormed,
      EntryText;
    var three := HeadReads(len, tv, identity, severity);
    var head := HeadFields(len, tv, identity, severity);
    var m := MdcFieldReads(len, head, list);
    var members := KeepReads(len, head, three, MdcField(len, head, list), m);
    EntryHasMessage(len, tv, identity, severity, list, msg);
    if EntryText(len, tv, identity, severity, list, msg).Some? {
      var fields := EntryFields(len, tv, identity, severity, list);
      var size := len - (1 + |Joined(fields)|) - 1;
      MessageReads(msg, size);
      DocumentReads(fields, members, MessageText(msg, size), ("msg", String(ShownMessage(msg, size))));
    }
  }

  lemma MdcFieldReads(len: nat, head: seq<string>, list: seq<Pair>) returns (m: Member)
    requires AllWellFormed(list)
    ensures MdcField(len, head, list) != "" ==> FieldReads(MdcField(len, head, list), m)
  {
    if Room(len, head) > 8 {
      MdcReads(list, Room(len, head));
      m := ("mdc", Object(PairMembers(list[..FittingPairs(list, Room(len, head) - 7)])));
    } else {
      m := ("", Number(0));
    }
  }

  // ----- long program names -----

  /** The identity is cut to 100 bytes. This cuts an escaped name inside an escape pair: */
  ghost predicate CutsPair(name: string) {
    |Escaped(name)| > IDENTITY_MAX_LENGTH && |Escaped(name[..Fitting(name, IDENTITY_MAX_LENGTH)])| < IDENTITY_MAX_LENGTH
  }

  /** 99 plain bytes and a quote are such a name. */
  lemma SomeNameIsCut()
    ensures CutsPair(seq(99, _ => 'a') + "\"")
  {
    var plain, name := seq(99, _ => 'a'), seq(99, _ => 'a') + "\"";
    SpecialFreeSanitized(plain);
    assert name[..99] == plain && name[..100] == name;
    EscapedStep(name, 99);
    StepBoundsFit(name, IDENTITY_MAX_LENGTH, 99);
  }

  lemma CutPosition(name: string)
    ensures var k := Fitting(name, IDENTITY_MAX_LENGTH);
      Cut(Escaped(name), IDENTITY_MAX_LENGTH) == Escaped(name[..k]) + if CutsPair(name) then "\\" else ""
  {
    var k, e := Fitting(name, IDENTITY_MAX_LENGTH), Escaped(name);
    assert name[..|name|] == name;
    EscapedPrefix(name, k, |name|);
    if |e| > IDENTITY_MAX_LENGTH {
      EscapedStep(name, k);
      EscapedPrefix(name, k + 1, |name|);
      assert Escaped(name[..k + 1]) == e[..|Escaped(name[..k + 1])|];
      if CutsPair(name) {
        assert e[..100] == e[..99] + [e[99]];
      }
    }
  }

  lemma {:induction false} JoinedInvalid(fields: seq<string>, members: seq<Member>, tail: string)
    requires FieldsRead(fields, members)
    requires tail != "" && !IsSpace(tail[0]) && ReadMembers(tail) == Invalid
    ensures ReadMembers(Joined(fields) + tail) == Invalid
    decreases |fields|
  {
    if fields == [] {
      assert Joined(fields) + tail == tail;
    } else {
      var n := |fields| - 1;
      var more := fields[n] + ("," + tail);
      hide Joined, FieldReads, ReadMembers, ReadMember, Skip;
      FieldStep(fields[n], members[n], "," + tail);
      FieldIsQuoted(fields[n], members[n]);
      NoMoreMembers(more, members[n], tail);
      JoinedInvalid(fields[..n], members[..n], more);
      JoinedLast(fields, tail);
    }
  }

  lemma NoMoreMembers(s: string, m: Member, tail: string)
    requires ReadMember(s) == Read(m, "," + tail) && ReadMembers(tail) == Invalid
    requires tail != "" && !IsSpace(tail[0])
    ensures ReadMembers(s) == Invalid
  {
    assert ("," + tail)[1..] == tail && Skip(tail) == tail;
  }

  lemma NeitherCommaNorBrace(s: string, m: Member, next: string)
    requires ReadMember(s) == Read(m, next) && next != "" && next[0] != ',' && next[0] != '}'
    ensures ReadMembers(s) == Invalid
  {
  }

  lemma EscapedQuoteComma()
    ensures Escaped("\",") == "\\\","
  {
    assert "\","[1..] == "," && ","[1..] == "";
  }

  lemma Regroup(e: string, next: string)
    ensures "\"id\":\"" + (e + "\\") + "\"" + ("," + ("\"" + next)) ==
      "\"" + "id" + "\":" + ("\"" + (e + "\\\",") + "\"" + next)
  {
    assert e + "\\\"," == e + "\\" + "\"" + ",";
  }

  /** With half an escape pair before it, the closing quote of the identity is read as part of
      the text, and the next quote, of the next field, ends it. */
  lemma HalfPairRunsOn(cut: string, next: string)
    requires next != "" && next[0] != ',' && next[0] != '}' && !IsSpace(next[0])
    ensures ReadMembers("\"id\":\"" + (Escaped(cut) + "\\") + "\"" + ("," + ("\"" + next))) == Invalid
  {
    hide ReadMember, ReadMembers, ReadValue, Escaped, Sanitized;
    var s := "\"id\":\"" + (Escaped(cut) + "\\") + "\"" + ("," + ("\"" + next));
    var text := cut + "\",";
    EscapedConcat(cut, "\",");
    EscapedQuoteComma();
    ReadStringValue(text, next);
    ReadNamed("id", "\"" + Escaped(text) + "\"" + next, String(Sanitized(text)), next);
    Regroup(Escaped(cut), next);
    NeitherCommaNorBrace(s, ("id", String(Sanitized(text))), next);
  }

  /** With a program name as identity, an entry is JSON iff the cut to 100 bytes does
      not fall inside an escape pair. */
  lemma ProgramNameEntry(len: nat, tv: TimeVal, name: string, identity: CString, severity: int, list: seq<Pair>,
                         msg: string)
    requires len >= MIN_BUFFER_LENGTH && identity == Escaped(name) && AllWellFormed(list)
    ensures match EntryText(len, tv, Some(identity), severity, list, msg)
      case Some(text) => ReadDocument(text).Some? <==> !CutsPair(name)
      case None => true
    ensures !CutsPair(name) ==>
      FieldReads(IdentityText(Some(identity)), ("id", String(Sanitized(name[..Fitting(name, IDENTITY_MAX_LENGTH)]))))
  {
    hide FieldReads, ReadDocument, EntryText, CutsPair, AllWellFormed, Escaped, Fitting, HeadFields;
    CutPosition(name);
    var cut := name[..Fitting(name, IDENTITY_MAX_LENGTH)];
    if !CutsPair(name) {
      StringFieldReads("id", cut);
      assert Escaped(cut) + "" == Escaped(cut);
      assert IdentityText(Some(identity)) == "\"" + "id" + "\":\"" + Escaped(cut) + "\"";
    }
    if EntryText(len, tv, Some(identity), severity, list, msg) == None {
    } else if !CutsPair(name) {
      EntryReadsWith(len, tv, Some(identity), severity, list, msg, Sanitized(cut));
    } else {
      CutEntryInvalid(len, tv, identity, severity, list, msg, cut);
    }
  }

  /** The fields in front of the identity, and what they read as. */
  lemma FrontReads(tv: TimeVal, severity: int) returns (members: seq<Member>)
    ensures FieldsRead([TimestampText(tv)] + SeverityFields(severity), members)
  {
    TimestampReads(tv);
    if 1 <= severity <= 4 { SeverityReads(severity); }
    hide FieldReads, TimestampText;
    members := [("ts", Number(Timestamp(tv)))] +
      match SeverityName(severity) case None => [] case Some(name) => [("crit", String(name))];
  }

  lemma MdcStart(list: seq<Pair>, len: nat)
    requires len > 8
    ensures |MdcText(list, len)| > 1 && MdcText(list, len)[0] == '"' && MdcText(list, len)[1] == 'm'
  {
  }

  lemma CutEntryInvalid(len: nat, tv: TimeVal, identity: CString, severity: int, list: seq<Pair>, msg: string,
                        cut: string)
    requires len >= MIN_BUFFER_LENGTH && ShownIdentity(Some(identity)) == Escaped(cut) + "\\"
    requires EntryText(len, tv, Some(identity), severity, list, msg).Some?
    ensures ReadDocument(EntryText(len, tv, Some(identity), severity, list, msg).value) == None
  {
    hide FieldReads, ReadMembers, EntryText, Escaped, Joined, MessageText, MdcText, TimestampText, SeverityText, Room,
      ReadDocument;
    var front := [TimestampText(tv)] + SeverityFields(severity);
    var members := FrontReads(tv, severity);
    HeadAlwaysFits(len, tv, Some(identity), severity);
    MdcAlwaysFits(len, tv, Some(identity), severity, list);
    EntryHasMessage(len, tv, Some(identity), severity, list, msg);
    var room := Room(len, HeadFields(len, tv, Some(identity), severity));
    var fields := EntryFields(len, tv, Some(identity), severity, list);
    var mdc := MdcText(list, room);
    assert fields == front + ["\"id\":\"" + (Escaped(cut) + "\\") + "\"", mdc];
    MdcStart(list, room);
    BadDocument(front, members, cut, mdc, MessageText(msg, len - (1 + |Joined(fields)|) - 1));
  }

  lemma BadDocument(front: seq<string>, members: seq<Member>, cut: string, mdc: string, message: string)
    requires FieldsRead(front, members) && front != []
    requires |mdc| > 1 && mdc[0] == '"' && mdc[1] == 'm'
    ensures var id := "\"id\":\"" + (Escaped(cut) + "\\") + "\"";
      ReadDocument("{" + Joined(front + [id, mdc]) + message + "}") == None
  {
    hide FieldReads, ReadMembers, Escaped, Joined;
    var id, next := "\"id\":\"" + (Escaped(cut) + "\\") + "\"", mdc[1..] + "," + message + "}";
    var tail, text := id + ("," + ("\"" + next)), "{" + Joined(front + [id, mdc]) + message + "}";
    HalfPairRunsOn(cut, next);
    JoinedInvalid(front, members, tail);
    JoinedIsQuoted(front, members);
    JoinedTwo(front, id, mdc);
    RegroupTail(Joined(front), id, mdc, message);
    assert text[1..] == Joined(front) + tail;
  }

  lemma RegroupTail(front: string, id: string, mdc: string, message: string)
    requires mdc != "" && mdc[0] == '"'
    ensures front + id + "," + mdc + "," + message + "}" ==
      front + (id + ("," + ("\"" + (mdc[1..] + "," + message + "}"))))
  {
    assert mdc == "\"" + mdc[1..];
  }

  lemma JoinedTwo(front: seq<string>, a: string, b: string)
    ensures Joined(front + [a, b]) == Joined(front) + a + "," + b + ","
  {
    assert (front + [a, b])[..|front| + 1] == front + [a];
    assert (front + [a])[..|front|] == front;
  }
}
