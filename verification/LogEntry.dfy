/** The text of one log entry, as a function of what is logged and of the buffer size. */
module LogEntry {
  import opened CStrings
  import opened Escaping
  import opened MdcList
  import opened Wrappers

  const TRUNCATED := "[truncated]"
  const MINIMUM_MESSAGE := "\"msg\":\"[truncated]\""
  const IDENTITY_MAX_LENGTH := 100
  const MIN_BUFFER_LENGTH := 1000

  const TWO_TO_THE_64 := 0x1_0000_0000_0000_0000

  datatype TimeVal = TimeVal(sec: int, usec: int)

  /** Milliseconds, in arithmetic modulo 2^64. */
  function Timestamp(tv: TimeVal): nat {
    ((tv.sec % TWO_TO_THE_64) * 1000 + (tv.usec % TWO_TO_THE_64) / 1000) % TWO_TO_THE_64
  }

  // ----- the fields -----

  function TimestampText(tv: TimeVal): string { "\"ts\":" + Decimal(Timestamp(tv)) }

  function SeverityName(severity: int): Option<string> {
    match severity
    case 1 => Some("ERROR")
    case 2 => Some("WARNING")
    case 3 => Some("INFO")
    case 4 => Some("DEBUG")
    case _ => None
  }

  /** Empty for a severity that has no name. */
  function SeverityText(severity: int): string {
    match SeverityName(severity)
    case None => ""
    case Some(name) => "\"crit\":\"" + name + "\""
  }

  function Cut(s: string, n: nat): string { if |s| <= n then s else s[..n] }

  function ShownIdentity(identity: Option<CString>): string {
    match identity
    case None => "(null)"
    case Some(id) => Cut(id, IDENTITY_MAX_LENGTH)
  }

  function IdentityText(identity: Option<CString>): string {
    "\"id\":\"" + ShownIdentity(identity) + "\""
  }

  function PairField(p: Pair): string { "\"" + p.key + "\":\"" + p.value + "\"" }

  /** One MDC pair with its trailing comma. */
  function PairText(p: Pair): string { PairField(p) + "," }

  function PairsText(list: seq<Pair>): string {
    if list == [] then "" else PairText(list[0]) + PairsText(list[1..])
  }

  /** How many pairs of the list fit, each with its comma, in fewer than `room` bytes. */
  function FittingPairs(list: seq<Pair>, room: nat): (n: nat)
    ensures n <= |list|
  {
    if list == [] || |PairText(list[0])| >= room then 0
    else 1 + FittingPairs(list[1..], room - |PairText(list[0])|)
  }

  function WithoutComma(s: string): string { if s == "" then "" else s[..|s| - 1] }

  function MdcText(list: seq<Pair>, len: nat): string {
    if len <= 8 then "" else
      "\"mdc\":{" + WithoutComma(PairsText(list[..FittingPairs(list, len - 7)])) + "}"
  }

  ghost function MessageBody(msg: string, len: nat): string
    requires len >= 20
  {
    if |Escaped(msg)| <= len - 9 then Escaped(msg)
    else Escaped(msg[..Fitting(msg, len - 20)]) + TRUNCATED
  }

  ghost function MessageText(msg: string, len: nat): string {
    if len <= |MINIMUM_MESSAGE| then "" else "\"msg\":\"" + MessageBody(msg, len) + "\""
  }

  // ----- the entry -----

  /** Fields in order, each followed by a comma. */
  function Joined(fields: seq<string>): string {
    if fields == [] then "" else Joined(fields[..|fields| - 1]) + fields[|fields| - 1] + ","
  }

  /** Bytes left for the next field when room for the shortest message is set aside. */
  function Room(len: nat, fields: seq<string>): int {
    len - (1 + |Joined(fields)|) - |MINIMUM_MESSAGE| - 1
  }

  /** A field is kept if it is there at all and fits. */
  function Keep(len: nat, fields: seq<string>, field: string): seq<string> {
    if field != "" && |field| < Room(len, fields) then fields + [field] else fields
  }

  function HeadFields(len: nat, tv: TimeVal, identity: Option<CString>, severity: int): seq<string> {
    Keep(len, Keep(len, Keep(len, [], TimestampText(tv)), SeverityText(severity)), IdentityText(identity))
  }

  function MdcField(len: nat, fields: seq<string>, list: seq<Pair>): string {
    MdcText(list, if Room(len, fields) < 0 then 0 else Room(len, fields))
  }

  function EntryFields(len: nat, tv: TimeVal, identity: Option<CString>, severity: int, list: seq<Pair>): seq<string> {
    var fields := HeadFields(len, tv, identity, severity);
    Keep(len, fields, MdcField(len, fields, list))
  }

  /** The whole entry, or None when not even the shortest message fits. */
  ghost function EntryText(len: nat, tv: TimeVal, identity: Option<CString>, severity: int, list: seq<Pair>,
                           msg: string)
    : Option<string>
  {
    var fields := EntryFields(len, tv, identity, severity, list);
    var used := 1 + |Joined(fields)|;
    var message := MessageText(msg, if used + 1 <= len then len - used - 1 else 0);
    if message == "" then None else Some("{" + Joined(fields) + message + "}")
  }

  // ----- sizes -----

  lemma {:induction false} PairsTextStep(list: seq<Pair>, i: nat)
    requires i < |list|
    ensures PairsText(list[..i + 1]) == PairsText(list[..i]) + PairText(list[i])
  {
    if i == 0 {
      assert list[..1][1..] == [];
    } else {
      PairsTextStep(list[1..], i - 1);
      assert list[1..][..i] == list[..i + 1][1..];
      assert list[1..][..i - 1] == list[..i][1..];
    }
  }

  lemma {:induction false} PairsTextGrows(list: seq<Pair>, i: nat, j: nat)
    requires i <= j <= |list|
    ensures |PairsText(list[..j])| >= |PairsText(list[..i])| + (j - i)
    decreases j - i
  {
    if i < j {
      PairsTextGrows(list, i, j - 1);
      PairsTextStep(list, j - 1);
    }
  }

  /** The pairs that fit form the longest prefix of the list whose text stays below `room`. */
  lemma {:induction false} FittingPairsLongest(list: seq<Pair>, room: nat)
    requires room > 0
    ensures var n := FittingPairs(list, room);
      && |PairsText(list[..n])| < room
      && (forall j :: n < j <= |list| ==> |PairsText(list[..j])| >= room)
  {
    var n := FittingPairs(list, room);
    if list != [] && |PairText(list[0])| < room {
      var rest := list[1..];
      FittingPairsLongest(rest, room - |PairText(list[0])|);
      assert list[..n][1..] == rest[..n - 1];
      forall j | n < j <= |list| ensures |PairsText(list[..j])| >= room {
        assert list[..j][1..] == rest[..j - 1];
      }
    } else if list != [] {
      PairsTextStep(list, 0);
      forall j | 0 < j <= |list| ensures |PairsText(list[..j])| >= room {
        PairsTextGrows(list, 1, j);
      }
    }
  }

  lemma FittingPairsIs(list: seq<Pair>, room: nat, n: nat)
    requires n <= |list| && |PairsText(list[..n])| < room
    requires n < |list| ==> |PairsText(list[..n + 1])| >= room
    ensures n == FittingPairs(list, room)
  {
    FittingPairsLongest(list, room);
    var m := FittingPairs(list, room);
    if n < m {
      PairsTextGrows(list, n + 1, m);
    }
  }

  lemma MdcTextSize(list: seq<Pair>, len: nat)
    requires len > 8
    ensures var body := PairsText(list[..FittingPairs(list, len - 7)]);
      |MdcText(list, len)| == (if body == "" then 8 else 7 + |body|) < len
  {
    FittingPairsLongest(list, len - 7);
  }

  lemma MessageTextSize(msg: string, len: nat)
    ensures len >= 20 ==> 8 <= |MessageText(msg, len)| < len
  {
    if len >= 20 {
      assert msg[..|msg|] == msg;
    }
  }

  lemma JoinedKeep(len: nat, fields: seq<string>, field: string)
    requires Room(len, fields) >= 0
    ensures Room(len, Keep(len, fields, field)) >= 0
    ensures Joined(Keep(len, fields, field)) ==
      if field != "" && |field| < Room(len, fields) then Joined(fields) + field + "," else Joined(fields)
  {
    if field != "" && |field| < Room(len, fields) {
      assert (fields + [field])[..|fields|] == fields;
    }
  }

  /** What is kept always leaves the message at least the 19 bytes that are set aside. */
  lemma RoomForMessage(len: nat, tv: TimeVal, identity: Option<CString>, severity: int, list: seq<Pair>)
    requires len >= 21
    ensures Room(len, HeadFields(len, tv, identity, severity)) >= 0
    ensures Room(len, EntryFields(len, tv, identity, severity, list)) >= 0
  {
    JoinedKeep(len, [], TimestampText(tv));
    var one := Keep(len, [], TimestampText(tv));
    JoinedKeep(len, one, SeverityText(severity));
    var two := Keep(len, one, SeverityText(severity));
    JoinedKeep(len, two, IdentityText(identity));
    var fields := HeadFields(len, tv, identity, severity);
    JoinedKeep(len, fields, MdcField(len, fields, list));
  }

  /** A finished entry never needs more than the buffer, terminator included. */
  lemma EntrySize(len: nat, tv: TimeVal, identity: Option<CString>, severity: int, list: seq<Pair>, msg: string)
    requires len >= 21
    ensures match EntryText(len, tv, identity, severity, list, msg)
      case Some(text) => 0 < |text| < len
      case None => true
  {
    RoomForMessage(len, tv, identity, severity, list);
    var fields := EntryFields(len, tv, identity, severity, list);
    MessageTextSize(msg, len - (1 + |Joined(fields)|) - 1);
  }
}
