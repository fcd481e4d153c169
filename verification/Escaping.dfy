/** Escaping of log text for JSON: backslash and quote get a backslash, and bytes that cannot
    be printed become a space. */
module Escaping {
  import opened CStrings
  import opened Wrappers

  const REPLACEMENT_CHAR := ' '

  predicate NeedsEscape(c: char) { c == '\\' || c == '"' }

  function EscapeChar(c: char): string {
    if NeedsEscape(c) then ['\\', c] else if IsPrint(c) then [c] else [REPLACEMENT_CHAR]
  }

  /** The escaped text, without any size limit. */
  function Escaped(s: string): string {
    if s == [] then [] else EscapeChar(s[0]) + Escaped(s[1..])
  }

  function SanitizeChar(c: char): char { if IsPrint(c) then c else REPLACEMENT_CHAR }

  /** The text with only the unprintable bytes replaced. */
  function Sanitized(s: string): string {
    seq(|s|, i requires 0 <= i < |s| => SanitizeChar(s[i]))
  }

  predicate SpecialFree(s: string) {
    forall i :: 0 <= i < |s| ==> IsPrint(s[i]) && !NeedsEscape(s[i])
  }

  /** `k` is the length of the longest prefix of `s` whose escaped form has at most `n` bytes. */
  ghost predicate LongestFit(s: string, n: nat, k: nat) {
    && k <= |s| && |Escaped(s[..k])| <= n
    && forall j :: k < j <= |s| ==> |Escaped(s[..j])| > n
  }

  ghost function Fitting(s: string, n: nat): (k: nat)
    ensures LongestFit(s, n, k)
    decreases |s|
  {
    if |Escaped(s)| <= n then
      assert s[..|s|] == s;
      |s|
    else
      var m := |s| - 1;
      var k := Fitting(s[..m], n);
      assert s[..m][..k] == s[..k];
      assert forall j :: k < j <= |s| ==> s[..j] == if j <= m then s[..m][..j] else s;
      k
  }

  // ----- laws of escaping -----

  lemma {:induction false} EscapedConcat(a: string, b: string)
    ensures Escaped(a + b) == Escaped(a) + Escaped(b)
  {
    if a == [] {
      assert a + b == b;
    } else {
      assert (a + b)[1..] == a[1..] + b;
      EscapedConcat(a[1..], b);
    }
  }

  lemma EscapedStep(s: string, k: nat)
    requires k < |s|
    ensures Escaped(s[..k + 1]) == Escaped(s[..k]) + EscapeChar(s[k])
  {
    assert s[..k + 1] == s[..k] + [s[k]];
    EscapedConcat(s[..k], [s[k]]);
  }

  lemma EscapedPrefix(s: string, k: nat, j: nat)
    requires k <= j <= |s|
    ensures Escaped(s[..k]) <= Escaped(s[..j])
    ensures |Escaped(s[..j])| >= |Escaped(s[..k])| + (j - k)
    decreases j - k
  {
    if k < j {
      EscapedPrefix(s, k, j - 1);
      EscapedStep(s, j - 1);
    }
  }

  /** One step too far settles every longer prefix. */
  lemma StepBoundsFit(s: string, n: nat, k: nat)
    requires k <= |s| && |Escaped(s[..k])| <= n
    requires k < |s| ==> |Escaped(s[..k + 1])| > n
    ensures LongestFit(s, n, k) && k == Fitting(s, n)
  {
    forall j | k < j <= |s| ensures |Escaped(s[..j])| > n {
      EscapedPrefix(s, k + 1, j);
    }
  }

  lemma {:induction false} EscapedPrintable(s: string)
    ensures AllPrintable(Escaped(s))
    ensures |Escaped(s)| >= |s|
  {
    if s != [] { EscapedPrintable(s[1..]); }
  }

  /** Escaping leaves a text alone exactly when it is free of special characters. */
  lemma {:induction false} EscapedFixedIffSpecialFree(s: string)
    ensures Escaped(s) == s <==> SpecialFree(s)
  {
    if s != [] {
      EscapedFixedIffSpecialFree(s[1..]);
      EscapedPrintable(s[1..]);
      if Escaped(s) == s {
        assert !NeedsEscape(s[0]) by {
          assert |Escaped(s)| == |EscapeChar(s[0])| + |Escaped(s[1..])|;
        }
        assert Escaped(s)[1..] == Escaped(s[1..]);
        assert SpecialFree(s) by {
          assert forall i :: 1 <= i < |s| ==> s[i] == s[1..][i - 1];
        }
      }
    }
  }

  lemma SpecialFreeSanitized(s: string)
    requires SpecialFree(s)
    ensures Escaped(s) == s && Sanitized(s) == s
  {
    EscapedFixedIffSpecialFree(s);
  }

  // ----- reading an escaped text back -----

  /** De-escapes up to `n` characters; None if a backslash precedes anything else. */
  function Deescaped(s: string, n: nat): Option<string> {
    if s == [] || n == 0 then Some([])
    else if s[0] != '\\' then Cons(s[0], Deescaped(s[1..], n - 1))
    else if |s| >= 2 && NeedsEscape(s[1]) then Cons(s[1], Deescaped(s[2..], n - 1))
    else None
  }

  function Cons(c: char, rest: Option<string>): Option<string> {
    match rest
    case None => None
    case Some(text) => Some([c] + text)
  }

  lemma DeescapedUnit(c: char, rest: string, n: nat)
    ensures Deescaped(EscapeChar(c) + rest, n + 1) == Cons(SanitizeChar(c), Deescaped(rest, n))
  {
    var e := EscapeChar(c) + rest;
    if NeedsEscape(c) {
      assert e[2..] == rest;
    } else {
      assert e[1..] == rest;
    }
  }

  /** What escaping writes can always be read back, whatever it started from. */
  lemma {:induction false} DeescapedEscaped(s: string, n: nat)
    ensures Deescaped(Escaped(s), n) == Some(Sanitized(s)[..Min(|s|, n)])
  {
    if s != [] && n != 0 {
      DeescapedEscaped(s[1..], n - 1);
      DeescapedUnit(s[0], Escaped(s[1..]), n - 1);
      assert [SanitizeChar(s[0])] + Sanitized(s[1..])[..Min(|s| - 1, n - 1)] == Sanitized(s)[..Min(|s|, n)];
    }
  }

  /** The bytes that de-escaping up to `n` characters reads. */
  function Consumed(s: string, n: nat): (k: nat)
    ensures k <= |s|
  {
    if s == [] || n == 0 then 0
    else if s[0] == '\\' && |s| >= 2 then 2 + Consumed(s[2..], n - 1)
    else 1 + Consumed(s[1..], n - 1)
  }

  /** De-escaping copies unprintable bytes: what it gives is printable exactly when what it read was. */
  lemma {:induction false} DeescapedPrintableIff(s: string, n: nat)
    requires Deescaped(s, n) != None
    ensures AllPrintable(Deescaped(s, n).value) <==> AllPrintable(s[..Consumed(s, n)])
  {
    if s != [] && n != 0 {
      var d := if s[0] == '\\' then 2 else 1;
      var rest := Deescaped(s[d..], n - 1).value;
      DeescapedPrintableIff(s[d..], n - 1);
      assert Deescaped(s, n).value == [s[d - 1]] + rest;
      PrintableAppend([s[d - 1]], rest);
      PrintableAppend(s[..d], s[d..][..Consumed(s[d..], n - 1)]);
      assert s[..d] + s[d..][..Consumed(s[d..], n - 1)] == s[..Consumed(s, n)];
      assert s[..d][d - 1] == s[d - 1] && [s[d - 1]][0] == s[d - 1];
      assert AllPrintable(s[..d]) <==> IsPrint(s[d - 1]);
    }
  }

  lemma PrintableAppend(a: string, b: string)
    ensures AllPrintable(a + b) <==> AllPrintable(a) && AllPrintable(b)
  {
    assert forall i :: 0 <= i < |a| ==> (a + b)[i] == a[i];
    assert forall i :: 0 <= i < |b| ==> (a + b)[|a| + i] == b[i];
  }

  /** A tab, for one, comes out as it went in. */
  lemma DeescapedKeepsTab()
    ensures Deescaped("\t", 1) == Some("\t") && !AllPrintable("\t")
  {
    assert "\t"[0] == '\t' && "\t"[1..] == "";
    assert ['\t'] + [] == "\t";
  }

  /** One character of an escaped text: any byte but a backslash, or a backslash with what it protects. */
  predicate IsUnit(u: string) { (|u| == 1 && u[0] != '\\') || u == "\\\\" || u == "\\\"" }

  function Flatten(units: seq<string>): string {
    if units == [] then "" else units[0] + Flatten(units[1..])
  }

  ghost predicate LastBytes(units: seq<string>, text: string) {
    |units| == |text| && forall i :: 0 <= i < |units| ==> IsUnit(units[i]) && text[i] == units[i][|units[i]| - 1]
  }

  /** `s` starts with characters that stand for `text`: `n` of them, or all there are. */
  ghost predicate Decodes(units: seq<string>, tail: string, s: string, n: nat, text: string) {
    LastBytes(units, text) && |units| <= n && s == Flatten(units) + tail && (|units| < n ==> tail == "")
  }

  ghost predicate IsDecoded(s: string, n: nat, text: string) {
    exists units, tail :: Decodes(units, tail, s, n, text)
  }

  function FirstUnit(s: string): string
    requires s != ""
  {
    if s[0] == '\\' && |s| >= 2 then s[..2] else s[..1]
  }

  lemma UnitInFront(u: string, rest: string)
    requires IsUnit(u)
    ensures FirstUnit(u + rest) == u && (u + rest)[|u|..] == rest
  {
    assert (u + rest)[..|u|] == u && (u + rest)[0] == u[0];
  }

  lemma FlattenBehindFirst(units: seq<string>, tail: string)
    requires units != []
    ensures Flatten(units) + tail == units[0] + (Flatten(units[1..]) + tail)
  {
    assert Flatten(units) == units[0] + Flatten(units[1..]);
  }

  lemma LessUnits(units: seq<string>, tail: string, s: string, n: nat, text: string)
    requires Decodes(units, tail, s, n, text) && units != []
    ensures s != "" && n > 0 && IsUnit(FirstUnit(s)) && text != "" && text[0] == FirstUnit(s)[|FirstUnit(s)| - 1]
    ensures IsDecoded(s[|FirstUnit(s)|..], n - 1, text[1..])
  {
    var u := units[0];
    assert IsUnit(u) && text[0] == u[|u| - 1];
    FlattenBehindFirst(units, tail);
    UnitInFront(u, Flatten(units[1..]) + tail);
    hide Flatten, FirstUnit, IsUnit;
    assert LastBytes(units[1..], text[1..]);
    assert Decodes(units[1..], tail, s[|u|..], n - 1, text[1..]);
  }

  lemma MoreUnits(u: string, rest: string, n: nat, text: string)
    requires IsUnit(u) && n > 0 && IsDecoded(rest, n - 1, text)
    ensures IsDecoded(u + rest, n, [u[|u| - 1]] + text)
  {
    var units, tail :| Decodes(units, tail, rest, n - 1, text);
    var all, whole := [u] + units, [u[|u| - 1]] + text;
    assert all[1..] == units;
    FlattenBehindFirst(all, tail);
    hide Flatten, IsUnit;
    assert LastBytes(all, whole) by {
      forall i | 0 <= i < |all| ensures IsUnit(all[i]) && whole[i] == all[i][|all[i]| - 1] {
        if i > 0 { assert all[i] == units[i - 1] && whole[i] == text[i - 1]; }
      }
    }
    assert Decodes(all, tail, u + rest, n, whole);
  }

  lemma NoUnits(s: string, n: nat)
    requires s == "" || n == 0
    ensures IsDecoded(s, n, "")
  {
    assert Flatten([]) + s == s;
    assert Decodes([], s, s, n, "");
  }

  lemma DeescapedFirst(s: string, n: nat)
    requires s != "" && n > 0
    ensures var u := FirstUnit(s);
      && s == u + s[|u|..]
      && Deescaped(s, n) == if IsUnit(u) then Cons(u[|u| - 1], Deescaped(s[|u|..], n - 1)) else None
  {
  }

  /** De-escaping gives a text exactly if the input starts with that many characters; else it is the error. */
  lemma {:induction false} DeescapedIff(s: string, n: nat, text: string)
    ensures Deescaped(s, n) == Some(text) <==> IsDecoded(s, n, text)
    decreases |s|
  {
    if s == "" || n == 0 {
      NoUnits(s, n);
      if IsDecoded(s, n, text) && text != "" {
        var units, tail :| Decodes(units, tail, s, n, text);
        LessUnits(units, tail, s, n, text);
      }
    } else {
      var u, rest := FirstUnit(s), s[|FirstUnit(s)|..];
      DeescapedFirst(s, n);
      hide Deescaped, FirstUnit;
      if IsUnit(u) && text != "" {
        DeescapedIff(rest, n - 1, text[1..]);
        assert text == [text[0]] + text[1..];
        if Deescaped(s, n) == Some(text) { MoreUnits(u, rest, n, text[1..]); }
      }
      if IsDecoded(s, n, text) {
        var units, tail :| Decodes(units, tail, s, n, text);
        assert units == [] ==> Flatten(units) == "";
        LessUnits(units, tail, s, n, text);
      }
    }
  }

  /** Sanitizing keeps the bytes from 0x20 to 0x7E and turns every other one into a space. */
  lemma SanitizedBytes(s: string, i: nat)
    requires i < |s|
    ensures |Sanitized(s)| == |s|
    ensures Sanitized(s)[i] == if 0x20 <= s[i] as int <= 0x7E then s[i] else ' '
  {
  }

  // ----- the operations on buffers -----

  /** The body of the escaping loop: one byte of the input, one or two of the output. */
  method EscapeByte(buffer: array<char>, at: nat, d: nat, c: char) returns (next: nat)
    requires at + d + |EscapeChar(c)| <= buffer.Length
    modifies buffer
    ensures next == d + |EscapeChar(c)|
    ensures buffer[at..at + next] == old(buffer[at..at + d]) + EscapeChar(c)
    ensures SameOutside(old(buffer[..]), buffer[..], at + d, at + next)
  {
    next := d;
    if c == '\\' || c == '"' {
      buffer[at + next] := '\\';
      next := next + 1;
    }
    if IsPrint(c) {
      buffer[at + next] := c;
    } else {
      buffer[at + next] := REPLACEMENT_CHAR;
    }
    next := next + 1;
    assert buffer[at..at + d] == old(buffer[at..at + d]) && buffer[at + d..at + next] == EscapeChar(c);
    assert buffer[at..at + next] == buffer[at..at + d] + buffer[at + d..at + next];
  }

  /** Where the escaping loop stops: at the end of the text, at a full buffer, or one byte
      beyond it in the middle of an escape pair. */
  lemma EscapeStops(str: CString, len: nat, s: nat)
    requires 1 <= len && s <= |str|
    requires |Escaped(str[..s])| <= len
    requires s < |str| ==> |Escaped(str[..s])| >= len - 1
    requires |Escaped(str[..s])| == len ==> s > 0 && |Escaped(str[..s - 1])| == len - 2
    ensures var k := if |Escaped(str[..s])| == len then s - 1 else s;
      && k == Fitting(str, len - 1)
      && Escaped(str[..k]) <= Escaped(str[..s])
      && (|Escaped(str)| > len - 1 <==> k < |str|)
  {
    var k := if |Escaped(str[..s])| == len then s - 1 else s;
    assert str[..|str|] == str;
    EscapedPrefix(str, k, s);
    if k < |str| { EscapedPrefix(str, k, k + 1); }
    StepBoundsFit(str, len - 1, k);
  }

  /** The escaping loop: how far it read, and how far it wrote. */
  method EscapeLoop(buffer: array<char>, at: nat, len: nat, str: CString) returns (s: nat, d: nat)
    requires 1 <= len && at + len <= buffer.Length
    modifies buffer
    ensures s <= |str| && d <= len && (s < |str| ==> d >= len - 1)
    ensures d == |Escaped(str[..s])| && buffer[at..at + d] == Escaped(str[..s])
    ensures d == len ==> s > 0 && |Escaped(str[..s - 1])| == len - 2
    ensures SameOutside(old(buffer[..]), buffer[..], at, at + len)
  {
    s, d := 0, 0;
    while d < len - 1 && At(str, s) != '\0'
      invariant s <= |str| && d <= len
      invariant d == |Escaped(str[..s])| && buffer[at..at + d] == Escaped(str[..s])
      invariant d == len ==> s > 0 && |Escaped(str[..s - 1])| == len - 2
      invariant SameOutside(old(buffer[..]), buffer[..], at, at + len)
      decreases |str| - s
    {
      EscapedStep(str, s);
      d := EscapeByte(buffer, at, d, At(str, s));
      s := s + 1;
    }
  }

  method Escape(buffer: array<char>, at: nat, len: nat, str: CString) returns (ret: nat, truncated: bool)
    requires 1 <= len && at + len <= buffer.Length
    modifies buffer
    ensures var k := Fitting(str, len - 1);
      ret == |Escaped(str[..k])| && Holds(buffer[..], at, Escaped(str[..k]))
    ensures truncated <==> |Escaped(str)| > len - 1
    ensures SameOutside(old(buffer[..]), buffer[..], at, at + len)
  {
    var s, d := EscapeLoop(buffer, at, len, str);
    EscapeStops(str, len, s);
    ghost var text := Escaped(str[..s]);
    assert buffer[at..at + d] == text;
    if d == len {
      // the last byte was escaped, and its pair does not fit
      buffer[at + len - 2] := '\0';
      assert buffer[at..at + len - 2] == text[..len - 2];
      truncated := true;
      ret := len - 2;
    } else {
      buffer[at + d] := '\0';
      assert buffer[at..at + d] == text;
      truncated := At(str, s) != '\0';
      ret := d;
    }
  }

  ghost function Prepend(done: string, rest: Option<string>): Option<string> {
    match rest
    case None => None
    case Some(text) => Some(done + text)
  }

  /** One round of de-escaping: the character at `s`, or at `s + 1` after a backslash, moves to
      the finished part; anything else after a backslash is the error. */
  lemma DeescapeStep(str: CString, s: nat, done: string, n: nat)
    requires s < |str|
    ensures var t := if str[s] == '\\' then s + 1 else s;
      Prepend(done, Deescaped(str[s..], n + 1)) ==
        if str[s] == '\\' && !NeedsEscape(At(str, t)) then None
        else Prepend(done + [str[t]], Deescaped(str[t + 1..], n))
  {
    var t := if str[s] == '\\' then s + 1 else s;
    if t < |str| {
      assert str[s..][t + 1 - s..] == str[t + 1..];
      match Deescaped(str[t + 1..], n)
      case None =>
      case Some(text) => assert done + ([str[t]] + text) == (done + [str[t]]) + text;
    }
  }

  method Deescape(buffer: array<char>, at: nat, len: nat, str: CString) returns (ret: nat)
    requires 1 <= len && at + len <= buffer.Length
    modifies buffer
    ensures match Deescaped(str, len - 1)
      case Some(text) => ret == |text| && Holds(buffer[..], at, text)
      case None => ret == 0 && Holds(buffer[..], at, "")
    ensures SameOutside(old(buffer[..]), buffer[..], at, at + len)
  {
    var s, d := 0, 0;
    PrependNothing(Deescaped(str, len - 1));
    assert str[0..] == str && buffer[at..at + d] == [];
    while d < len - 1 && At(str, s) != '\0'
      invariant s <= |str| && d <= len - 1
      invariant Deescaped(str, len - 1) == Prepend(buffer[at..at + d], Deescaped(str[s..], len - 1 - d))
      invariant SameOutside(old(buffer[..]), buffer[..], at, at + len)
      decreases |str| - s
    {
      ghost var done := buffer[at..at + d];
      DeescapeStep(str, s, done, len - 2 - d);
      if At(str, s) == '\\' {
        s := s + 1;
        if At(str, s) != '\\' && At(str, s) != '"' {
          buffer[at] := '\0';
          return 0;
        }
      }
      buffer[at + d] := At(str, s);
      assert buffer[at..at + d + 1] == done + [str[s]];
      s, d := s + 1, d + 1;
    }
    buffer[at + d] := '\0';
    ret := d;
  }

  lemma PrependNothing(rest: Option<string>)
    ensures Prepend([], rest) == rest
  {
    match rest
    case None =>
    case Some(text) => assert [] + text == text;
  }

  /** Size of the buffer for the escaped string: the least size with which Escape never truncates. */
  method EscapedSize(str: CString) returns (size: nat)
    ensures size == |Escaped(str)| + 1
    ensures Fitting(str, size - 1) == |str|
    ensures forall n: nat :: n < size - 1 ==> Fitting(str, n) < |str|
  {
    var i, len := 0, 0;
    while At(str, i) != '\0'
      invariant i <= |str| && len == |Escaped(str[..i])|
      decreases |str| - i
    {
      EscapedStep(str, i);
      if str[i] == '\\' || str[i] == '"' {
        len := len + 1;
      }
      i, len := i + 1, len + 1;
    }
    assert str[..|str|] == str;
    return len + 1;
  }

  method ContainsSpecialCharacters(str: CString) returns (special: bool)
    ensures special <==> Escaped(str) != str
    ensures special <==> !SpecialFree(str)
  {
    EscapedFixedIffSpecialFree(str);
    var i := 0;
    while At(str, i) != '\0'
      invariant i <= |str|
      invariant forall j :: 0 <= j < i ==> IsPrint(str[j]) && !NeedsEscape(str[j])
      decreases |str| - i
    {
      if !IsPrint(str[i]) || str[i] == '\\' || str[i] == '"' {
        return true;
      }
      i := i + 1;
    }
    return false;
  }

  /** Escape into any buffer and de-escape from it: a prefix of the original with only the
      unprintable bytes replaced, never the error exit. */
  method EscapeThenDeescape(str: CString, len: nat, len': nat) returns (text: string)
    requires 1 <= len
    requires len' > |Escaped(str[..Fitting(str, len - 1)])|
    ensures text == Sanitized(str)[..Fitting(str, len - 1)]
  {
    var escaped := new char[len];
    var n, _ := Escape(escaped, 0, len, str);
    ghost var k := Fitting(str, len - 1);
    EscapedPrintable(str[..k]);
    DeescapedEscaped(str[..k], len' - 1);
    var buffer := new char[len'];
    var stored := escaped[..n];
    var m := Deescape(buffer, 0, len', stored);
    assert Sanitized(str[..k])[..k] == Sanitized(str)[..k];
    return buffer[..m];
  }
}
