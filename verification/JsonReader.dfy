/** A reader for JSON texts, RFC 8259. It gives names and strings with their escapes undone; of a
    \u escape for half a surrogate pair it only keeps that something stood there. */
module JsonReader {
  import opened CStrings
  import opened Wrappers

  /** A number without sign, fraction or exponent has a value; any other keeps its text. */
  datatype Json =
    | Null
    | Bool(b: bool)
    | Number(n: nat)
    | OtherNumber(digits: string)
    | String(text: string)
    | Array(elements: seq<Json>)
    | Object(members: seq<(string, Json)>)

  /** A value read from the front of a text, with what follows it. */
  datatype Reading<+T> = Invalid | Read(value: T, rest: string)

  // ----- white space (section 2) -----

  predicate IsSpace(c: char) { c == ' ' || c == '\t' || c == '\n' || c == '\r' }

  function Skip(s: string): (t: string)
    ensures |t| <= |s|
    ensures s != "" && !IsSpace(s[0]) ==> t == s
    ensures s == "" ==> t == ""
  {
    if s != "" && IsSpace(s[0]) then Skip(s[1..]) else s
  }

  // ----- strings (section 7) -----

  function Unescape(c: char): Option<char> {
    match c
    case '"' => Some('"')
    case '\\' => Some('\\')
    case '/' => Some('/')
    case 'b' => Some(8 as char)
    case 'f' => Some(12 as char)
    case 'n' => Some('\n')
    case 'r' => Some('\r')
    case 't' => Some('\t')
    case _ => None
  }

  function HexDigit(c: char): Option<nat> {
    if '0' <= c <= '9' then Some(c as int - '0' as int)
    else if 'A' <= c <= 'F' then Some(c as int - 'A' as int + 10)
    else if 'a' <= c <= 'f' then Some(c as int - 'a' as int + 10)
    else None
  }

  const REPLACEMENT := 0xFFFD as char

  /** The four hexadecimal digits behind \u. */
  function UnicodeEscape(s: string): Option<char> {
    if |s| < 4 then None
    else
      match (HexDigit(s[0]), HexDigit(s[1]), HexDigit(s[2]), HexDigit(s[3]))
      case (Some(a), Some(b), Some(c), Some(d)) =>
        var n := ((a * 16 + b) * 16 + c) * 16 + d;
        if n < 0xD800 || 0xDFFF < n < 0x10000 then Some(n as char) else Some(REPLACEMENT)
      case _ => None
  }

  function Prefixed(c: char, r: Reading<string>): Reading<string> {
    match r
    case Invalid => Invalid
    case Read(text, rest) => Read([c] + text, rest)
  }

  /** A string, behind its opening quote. */
  function ReadString(s: string): (r: Reading<string>)
    ensures r.Read? ==> |r.rest| < |s|
  {
    if s == "" then Invalid
    else if s[0] == '"' then Read("", s[1..])
    else if s[0] == '\\' then
      if |s| < 2 then Invalid
      else if s[1] == 'u' then
        match UnicodeEscape(s[2..])
        case None => Invalid
        case Some(c) => Prefixed(c, ReadString(s[6..]))
      else
        match Unescape(s[1])
        case None => Invalid
        case Some(c) => Prefixed(c, ReadString(s[2..]))
    else if s[0] < ' ' then Invalid
    else Prefixed(s[0], ReadString(s[1..]))
  }

  // ----- numbers (section 6) -----

  predicate IsDigit(c: char) { '0' <= c <= '9' }

  function DigitCount(s: string): (n: nat)
    ensures n <= |s| && forall i :: 0 <= i < n ==> IsDigit(s[i])
  {
    if s == "" || !IsDigit(s[0]) then 0 else 1 + DigitCount(s[1..])
  }

  function NumberValue(digits: string): nat
    requires forall i :: 0 <= i < |digits| ==> IsDigit(digits[i])
  {
    if digits == "" then 0
    else
      var last := digits[|digits| - 1];
      assert IsDigit(last);
      NumberValue(digits[..|digits| - 1]) * 10 + (last as int - '0' as int)
  }

  /** Length of a fraction, 0 if there is none. */
  function FractionLength(s: string): (n: nat)
    ensures n <= |s|
  {
    if s != "" && s[0] == '.' && DigitCount(s[1..]) > 0 then 1 + DigitCount(s[1..]) else 0
  }

  function ExponentLength(s: string): (n: nat)
    ensures n <= |s|
  {
    if s == "" || (s[0] != 'e' && s[0] != 'E') then 0
    else
      var digits := if |s| > 1 && (s[1] == '+' || s[1] == '-') then s[2..] else s[1..];
      var d := DigitCount(digits);
      if d > 0 then |s| - |digits| + d else 0
  }

  function ReadNumber(s: string): (r: Reading<Json>)
    ensures r.Read? ==> |r.rest| < |s|
  {
    var minus := if s != "" && s[0] == '-' then 1 else 0;
    var d := DigitCount(s[minus..]);
    if d == 0 || (d > 1 && s[minus] == '0') then Invalid
    else
      var whole := minus + d;
      var fraction := FractionLength(s[whole..]);
      var n := whole + fraction + ExponentLength(s[whole + fraction..]);
      Read(if n == d then Number(NumberValue(s[..d])) else OtherNumber(s[..n]), s[n..])
  }

  // ----- values (sections 3, 4 and 5) -----

  function ReadWord(s: string, word: string, value: Json): (r: Reading<Json>)
    requires word != ""
    ensures r.Read? ==> |r.rest| < |s|
  {
    if word <= s then Read(value, s[|word|..]) else Invalid
  }

  function ReadValue(s: string): (r: Reading<Json>)
    ensures r.Read? ==> |r.rest| < |s|
    decreases |s|, 0
  {
    if s == "" then Invalid
    else if s[0] == '"' then
      match ReadString(s[1..])
      case Invalid => Invalid
      case Read(text, rest) => Read(String(text), rest)
    else if s[0] == '{' then
      var t := Skip(s[1..]);
      if t != "" && t[0] == '}' then Read(Object([]), t[1..])
      else
        match ReadMembers(t)
        case Invalid => Invalid
        case Read(members, rest) => Read(Object(members), rest)
    else if s[0] == '[' then
      var t := Skip(s[1..]);
      if t != "" && t[0] == ']' then Read(Array([]), t[1..])
      else
        match ReadElements(t)
        case Invalid => Invalid
        case Read(elements, rest) => Read(Array(elements), rest)
    else if s[0] == 't' then ReadWord(s, "true", Bool(true))
    else if s[0] == 'f' then ReadWord(s, "false", Bool(false))
    else if s[0] == 'n' then ReadWord(s, "null", Null)
    else ReadNumber(s)
  }

  /** One name and value, and the space behind them. */
  function ReadMember(s: string): (r: Reading<(string, Json)>)
    ensures r.Read? ==> |r.rest| < |s|
    decreases |s|, 1
  {
    if s == "" || s[0] != '"' then Invalid
    else
      match ReadString(s[1..])
      case Invalid => Invalid
      case Read(name, rest) =>
        var colon := Skip(rest);
        if colon == "" || colon[0] != ':' then Invalid
        else
          match ReadValue(Skip(colon[1..]))
          case Invalid => Invalid
          case Read(value, rest') => Read((name, value), Skip(rest'))
  }

  /** The members of an object that has some, with its closing brace. */
  function ReadMembers(s: string): (r: Reading<seq<(string, Json)>>)
    ensures r.Read? ==> |r.rest| < |s|
    decreases |s|, 2
  {
    match ReadMember(s)
    case Invalid => Invalid
    case Read(member, rest) =>
      if rest == "" then Invalid
      else if rest[0] == '}' then Read([member], rest[1..])
      else if rest[0] != ',' then Invalid
      else
        match ReadMembers(Skip(rest[1..]))
        case Invalid => Invalid
        case Read(members, rest') => Read([member] + members, rest')
  }

  /** The elements of an array that has some, with its closing bracket. */
  function ReadElements(s: string): (r: Reading<seq<Json>>)
    ensures r.Read? ==> |r.rest| < |s|
    decreases |s|, 1
  {
    match ReadValue(s)
    case Invalid => Invalid
    case Read(element, behind) =>
      var rest := Skip(behind);
      if rest == "" then Invalid
      else if rest[0] == ']' then Read([element], rest[1..])
      else if rest[0] != ',' then Invalid
      else
        match ReadElements(Skip(rest[1..]))
        case Invalid => Invalid
        case Read(elements, rest') => Read([element] + elements, rest')
  }

  /** The value of a whole text. */
  function ReadDocument(s: string): Option<Json> {
    match ReadValue(Skip(s))
    case Invalid => None
    case Read(value, rest) => if Skip(rest) == "" then Some(value) else None
  }
}
