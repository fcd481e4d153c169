/** The simple regular expressions of the test framework: syntax check and matcher against the
    language of a pattern. A pointer into a string is passed as the rest of the string. */
module SimpleRegex {
  import opened CStrings
  import opened Wrappers

  const SIZE_MAX := 0xFFFF_FFFF_FFFF_FFFF

  // ----- character classes -----

  predicate IsInSet(ch: char, str: string) { ch != '\0' && ch in str }

  predicate IsAsciiDigit(ch: char) { '0' <= ch <= '9' }

  predicate IsAsciiPunct(ch: char) { IsInSet(ch, "^-!\"#$%&'()*+,./:;<=>?@[\\]_`{|}~") }

  predicate IsRepeat(ch: char) { IsInSet(ch, "?*+") }

  predicate IsAsciiWhiteSpace(ch: char) { IsInSet(ch, " \U{000C}\n\r\t\U{000B}") }

  predicate IsAsciiWordChar(ch: char) { 'a' <= ch <= 'z' || 'A' <= ch <= 'Z' || '0' <= ch <= '9' || ch == '_' }

  predicate IsValidEscape(c: char) { IsAsciiPunct(c) || IsInSet(c, "dDfnrsStvwW") }

  predicate AtomMatchesChar(escaped: bool, patternChar: char, ch: char) {
    if escaped then
      match patternChar
      case 'd' => IsAsciiDigit(ch)
      case 'D' => !IsAsciiDigit(ch)
      case 'f' => ch == '\U{000C}'
      case 'n' => ch == '\n'
      case 'r' => ch == '\r'
      case 's' => IsAsciiWhiteSpace(ch)
      case 'S' => !IsAsciiWhiteSpace(ch)
      case 't' => ch == '\t'
      case 'v' => ch == '\U{000B}'
      case 'w' => IsAsciiWordChar(ch)
      case 'W' => !IsAsciiWordChar(ch)
      case _ => IsAsciiPunct(patternChar) && patternChar == ch
    else
      (patternChar == '.' && ch != '\n') || patternChar == ch
  }

  /** The ASCII punctuation characters, by their codes. */
  predicate PunctuationCode(n: int) { 33 <= n <= 47 || 58 <= n <= 64 || 91 <= n <= 96 || 123 <= n <= 126 }

  lemma PunctuationIs(c: char)
    ensures IsAsciiPunct(c) <==> PunctuationCode(c as int)
  {
  }

  lemma DigitsAre(c: char)
    ensures IsAsciiDigit(c) <==> c in "0123456789"
  {
    var digits := "0123456789";
    if IsAsciiDigit(c) { assert digits[c as int - '0' as int] == c; }
  }

  lemma LowerAre(c: char)
    ensures 'a' <= c <= 'z' <==> c in "abcdefghijklmnopqrstuvwxyz"
  {
    var lower := "abcdefghijklmnopqrstuvwxyz";
    if 'a' <= c <= 'z' { assert lower[c as int - 'a' as int] == c; }
  }

  lemma UpperAre(c: char)
    ensures 'A' <= c <= 'Z' <==> c in "ABCDEFGHIJKLMNOPQRSTUVWXYZ"
  {
    var upper := "ABCDEFGHIJKLMNOPQRSTUVWXYZ";
    if 'A' <= c <= 'Z' { assert upper[c as int - 'A' as int] == c; }
  }

  predicate IsLetter(c: char) { c in "abcdefghijklmnopqrstuvwxyz" || c in "ABCDEFGHIJKLMNOPQRSTUVWXYZ" }

  /** What the escapes for classes stand for, by the characters themselves. */
  lemma EscapeClasses(c: char)
    ensures AtomMatchesChar(true, 'd', c) <==> c in "0123456789"
    ensures AtomMatchesChar(true, 'D', c) <==> c !in "0123456789"
    ensures AtomMatchesChar(true, 's', c) <==> c as int == 32 || 9 <= c as int <= 13
    ensures AtomMatchesChar(true, 'S', c) <==> !(c as int == 32 || 9 <= c as int <= 13)
    ensures AtomMatchesChar(true, 'w', c) <==> IsLetter(c) || c in "0123456789" || c == '_'
    ensures AtomMatchesChar(true, 'W', c) <==> !(IsLetter(c) || c in "0123456789" || c == '_')
  {
    DigitsAre(c);
    WordsAre(c);
    SpacesAre(c);
    hide IsAsciiDigit, IsAsciiWordChar, IsAsciiWhiteSpace, IsLetter, IsInSet;
  }

  lemma WordsAre(c: char)
    ensures IsAsciiWordChar(c) <==> IsLetter(c) || c in "0123456789" || c == '_'
  {
    DigitsAre(c);
    LowerAre(c);
    UpperAre(c);
  }

  lemma SpacesAre(c: char)
    ensures IsAsciiWhiteSpace(c) <==> c as int == 32 || 9 <= c as int <= 13
  {
  }

  /** The other letters stand for one control character each. */
  lemma EscapedControls(c: char)
    ensures AtomMatchesChar(true, 'f', c) <==> c as int == 12
    ensures AtomMatchesChar(true, 'n', c) <==> c as int == 10
    ensures AtomMatchesChar(true, 'r', c) <==> c as int == 13
    ensures AtomMatchesChar(true, 't', c) <==> c as int == 9
    ensures AtomMatchesChar(true, 'v', c) <==> c as int == 11
  {
  }

  /** Escaped punctuation stands for itself, as does any other character but the dot, which excludes newlines. */
  lemma LiteralCharacters(p: char, c: char)
    ensures PunctuationCode(p as int) ==> (AtomMatchesChar(true, p, c) <==> c == p)
    ensures AtomMatchesChar(false, p, c) <==> if p == '.' then c as int != 10 else c == p
  {
    PunctuationIs(p);
    hide IsAsciiPunct;
  }

  /** Only punctuation and the letters of the classes can be escaped. */
  lemma EscapesAre(c: char)
    ensures IsValidEscape(c) <==> PunctuationCode(c as int) || c in "dDfnrsStvwW"
  {
    PunctuationIs(c);
    hide IsAsciiPunct;
  }

  // ----- syntax -----

  datatype Repeat = Once | Optional | Star | Plus

  /** An atom, escaped or not, with its repetition. */
  datatype Item = Item(escaped: bool, c: char, repeat: Repeat)

  /** Optional `^`, items, optional `$`. */
  datatype Regex = Regex(start: bool, items: seq<Item>, end: bool)

  predicate IsPlain(c: char) { c != '\0' && c !in "^$?*+()[]{}|\\" }

  predicate WellFormedItem(item: Item) { if item.escaped then IsValidEscape(item.c) else IsPlain(item.c) }

  predicate WellFormed(items: seq<Item>) { forall i :: 0 <= i < |items| ==> WellFormedItem(items[i]) }

  function RepeatText(r: Repeat): string {
    match r
    case Once => ""
    case Optional => "?"
    case Star => "*"
    case Plus => "+"
  }

  function AtomText(escaped: bool, c: char): string { if escaped then ['\\', c] else [c] }

  function ItemText(item: Item): string { AtomText(item.escaped, item.c) + RepeatText(item.repeat) }

  function ItemsText(items: seq<Item>): string {
    if items == [] then "" else ItemText(items[0]) + ItemsText(items[1..])
  }

  function EndText(end: bool): string { if end then "$" else "" }

  /** How a pattern is written. */
  function RegexText(r: Regex): string {
    (if r.start then "^" else "") + (ItemsText(r.items) + EndText(r.end))
  }

  // ----- language -----

  predicate AllMatch(item: Item, w: string) {
    forall i :: 0 <= i < |w| ==> AtomMatchesChar(item.escaped, item.c, w[i])
  }

  predicate CountAllowed(r: Repeat, n: nat) {
    match r
    case Once => n == 1
    case Optional => n <= 1
    case Star => true
    case Plus => n >= 1
  }

  /** `w` is in the language of the items, one after the other. */
  ghost predicate Denotes(items: seq<Item>, w: string) {
    if items == [] then w == ""
    else exists n :: 0 <= n <= |w| && StartsWith(items[0], w, n) && Denotes(items[1..], w[n..])
  }

  predicate StartsWith(item: Item, w: string, n: nat)
    requires n <= |w|
  {
    CountAllowed(item.repeat, n) && AllMatch(item, w[..n])
  }

  /** Some prefix of `s`, or all of it if there is a `$`, is in the language. */
  ghost predicate MatchesHead(items: seq<Item>, end: bool, s: string) {
    exists n :: 0 <= n <= |s| && Denotes(items, s[..n]) && (end ==> n == |s|)
  }

  // ----- reading a pattern -----

  function RepeatOf(c: char): Repeat { if c == '?' then Optional else if c == '*' then Star else Plus }

  function WithItem(item: Item, rest: Option<(seq<Item>, bool)>): Option<(seq<Item>, bool)> {
    match rest
    case None => None
    case Some((items, end)) => Some(([item] + items, end))
  }

  /** Items up to the end of the pattern, and whether there is a `$`. */
  function ParseItems(s: string): Option<(seq<Item>, bool)>
    decreases |s|, 0
  {
    if s == "" then Some(([], false))
    else if s == "$" then Some(([], true))
    else if s[0] == '\\' then
      if |s| < 2 || !IsValidEscape(s[1]) then None else ParseRepeat(true, s[1], s[2..])
    else if IsPlain(s[0]) then ParseRepeat(false, s[0], s[1..])
    else None
  }

  function ParseRepeat(escaped: bool, c: char, s: string): Option<(seq<Item>, bool)>
    decreases |s|, 1
  {
    if s != "" && IsRepeat(s[0]) then WithItem(Item(escaped, c, RepeatOf(s[0])), ParseItems(s[1..]))
    else WithItem(Item(escaped, c, Once), ParseItems(s))
  }

  function Parse(s: string): Option<Regex> {
    var start := s != "" && s[0] == '^';
    match ParseItems(if start then s[1..] else s)
    case None => None
    case Some((items, end)) => Some(Regex(start, items, end))
  }

  lemma ItemsTextCons(item: Item, items: seq<Item>, tail: string)
    ensures ItemsText([item] + items) + tail ==
      AtomText(item.escaped, item.c) + (RepeatText(item.repeat) + (ItemsText(items) + tail))
  {
    assert ([item] + items)[1..] == items;
    var atom, repeat, rest := AtomText(item.escaped, item.c), RepeatText(item.repeat), ItemsText(items);
    assert ItemsText([item] + items) == atom + repeat + rest;
    hide AtomText, RepeatText, ItemsText;
    assert atom + repeat + rest + tail == atom + (repeat + (rest + tail));
  }

  /** What is read is well-formed, and written as it was read. */
  lemma {:induction false} ParseItemsSound(s: string)
    ensures match ParseItems(s)
      case None => true
      case Some((items, end)) => WellFormed(items) && ItemsText(items) + EndText(end) == s
    decreases |s|, 0
  {
    if s != "" && s != "$" {
      if s[0] == '\\' {
        if |s| >= 2 && IsValidEscape(s[1]) {
          ParseRepeatSound(true, s[1], s[2..]);
          assert s == ['\\', s[1]] + s[2..];
        }
      } else if IsPlain(s[0]) {
        ParseRepeatSound(false, s[0], s[1..]);
        assert s == [s[0]] + s[1..];
      }
    }
  }

  lemma {:induction false} ParseRepeatSound(escaped: bool, c: char, s: string)
    requires WellFormedItem(Item(escaped, c, Once))
    ensures match ParseRepeat(escaped, c, s)
      case None => true
      case Some((items, end)) => WellFormed(items) && ItemsText(items) + EndText(end) == AtomText(escaped, c) + s
    decreases |s|, 1
  {
    var repeated := s != "" && IsRepeat(s[0]);
    var rest := if repeated then s[1..] else s;
    var item := Item(escaped, c, if repeated then RepeatOf(s[0]) else Once);
    ParseItemsSound(rest);
    assert RepeatText(item.repeat) + rest == s;
    hide IsValidEscape, IsPlain, IsRepeat, RepeatOf, RepeatText, AtomText, ItemsText, ParseItems;
    match ParseItems(rest)
    case None =>
    case Some((items, end)) => ItemsTextCons(item, items, EndText(end));
  }

  /** A well-formed pattern, as written, is read back. */
  lemma {:induction false} ParseItemsComplete(items: seq<Item>, end: bool)
    requires WellFormed(items)
    ensures ParseItems(ItemsText(items) + EndText(end)) == Some((items, end))
  {
    if items == [] {
      assert ItemsText(items) + EndText(end) == EndText(end);
    } else {
      var item, rest := items[0], ItemsText(items[1..]) + EndText(end);
      ParseItemsComplete(items[1..], end);
      assert [item] + items[1..] == items;
      ItemsTextCons(item, items[1..], EndText(end));
      FirstOfItems(items[1..], end);
      ParseAtom(item, rest);
    }
  }

  lemma FirstOfItems(items: seq<Item>, end: bool)
    requires WellFormed(items)
    ensures var s := ItemsText(items) + EndText(end); s == "" || !IsRepeat(s[0])
  {
    if items != [] { assert WellFormedItem(items[0]); }
  }

  lemma ParseTail(item: Item, rest: string)
    requires rest == "" || !IsRepeat(rest[0])
    ensures ParseRepeat(item.escaped, item.c, RepeatText(item.repeat) + rest) == WithItem(item, ParseItems(rest))
  {
    var tail := RepeatText(item.repeat) + rest;
    RepeatChars(item.repeat);
    hide IsRepeat, RepeatOf, ParseItems;
    if item.repeat.Once? { assert tail == rest; } else { assert tail[1..] == rest; }
  }

  lemma RepeatChars(r: Repeat)
    ensures !r.Once? ==> |RepeatText(r)| == 1 && IsRepeat(RepeatText(r)[0]) && RepeatOf(RepeatText(r)[0]) == r
  {
  }

  lemma ParseUnfolded(s: string)
    requires s != "" && s != "$"
    ensures ParseItems(s) ==
      if s[0] == '\\' then if |s| < 2 || !IsValidEscape(s[1]) then None else ParseRepeat(true, s[1], s[2..])
      else if IsPlain(s[0]) then ParseRepeat(false, s[0], s[1..])
      else None
  {
  }

  lemma ParseHead(item: Item, tail: string)
    requires WellFormedItem(item)
    ensures ParseItems(AtomText(item.escaped, item.c) + tail) == ParseRepeat(item.escaped, item.c, tail)
  {
    var s := AtomText(item.escaped, item.c) + tail;
    assert !item.escaped ==> item.c != '\\' && item.c != '$';
    assert s[0] == if item.escaped then '\\' else item.c;
    ParseUnfolded(s);
    hide IsPlain, IsValidEscape, ParseRepeat, ParseItems;
    if item.escaped { assert s[2..] == tail; } else { assert s[1..] == tail; }
  }

  lemma ParseAtom(item: Item, rest: string)
    requires WellFormedItem(item) && (rest == "" || !IsRepeat(rest[0]))
    ensures ParseItems(AtomText(item.escaped, item.c) + (RepeatText(item.repeat) + rest)) ==
      WithItem(item, ParseItems(rest))
  {
    hide WellFormedItem, IsRepeat, ParseItems, ParseRepeat, AtomText, RepeatText;
    ParseTail(item, rest);
    ParseHead(item, RepeatText(item.repeat) + rest);
  }

  lemma ParseSound(s: string)
    ensures match Parse(s)
      case None => true
      case Some(r) => WellFormed(r.items) && RegexText(r) == s
  {
    var start := s != "" && s[0] == '^';
    var rest := if start then s[1..] else s;
    ParseItemsSound(rest);
    assert s == (if start then "^" else "") + rest;
  }

  lemma ParseComplete(r: Regex)
    requires WellFormed(r.items)
    ensures Parse(RegexText(r)) == Some(r)
  {
    var rest := ItemsText(r.items) + EndText(r.end);
    ParseItemsComplete(r.items, r.end);
    if r.start {
      assert RegexText(r)[1..] == rest;
    } else {
      assert RegexText(r) == rest;
      if r.items != [] { assert WellFormedItem(r.items[0]); }
    }
  }

  // ----- the syntax check -----

  /** Whether the rest of a pattern is valid, from position `i` on. */
  function ScanFrom(regex: string, i: nat, prevRepeatable: bool): bool
    requires i <= |regex|
    decreases |regex| - i
  {
    if i == |regex| then true
    else if regex[i] == '\\' then i + 1 < |regex| && IsValidEscape(regex[i + 1]) && ScanFrom(regex, i + 2, true)
    else
      var ch := regex[i];
      && !(ch == '^' && i > 0)
      && !(ch == '$' && i + 1 < |regex|)
      && !IsInSet(ch, "()[]{}|")
      && (IsRepeat(ch) ==> prevRepeatable)
      && ScanFrom(regex, i + 1, !IsInSet(ch, "^$?*+"))
  }

  lemma CharClasses(ch: char)
    ensures IsPlain(ch) <==> ch != '\0' && ch != '\\' && !IsInSet(ch, "()[]{}|") && !IsInSet(ch, "^$?*+")
    ensures IsInSet(ch, "^$?*+") <==> ch == '^' || ch == '$' || IsRepeat(ch)
    ensures IsInSet(ch, "()[]{}|") ==> ch != '^' && ch != '$' && ch != '\\' && !IsRepeat(ch)
    ensures IsRepeat(ch) ==> ch != '^' && ch != '$' && ch != '\\'
  {
  }

  lemma RepeatParses(escaped: bool, c: char, s: string)
    ensures ParseRepeat(escaped, c, s) != None <==>
      if s != "" && IsRepeat(s[0]) then ParseItems(s[1..]) != None else ParseItems(s) != None
  {
    hide ParseItems, IsRepeat;
  }

  lemma ScanUnfolded(regex: CString, i: nat, prev: bool)
    requires i < |regex| && (i == 0 ==> regex[0] != '^')
    ensures var ch := regex[i];
      ScanFrom(regex, i, prev) <==>
        if ch == '\\' then i + 1 < |regex| && IsValidEscape(regex[i + 1]) && ScanFrom(regex, i + 2, true)
        else if ch == '$' then i + 1 == |regex|
        else if IsRepeat(ch) then prev && ScanFrom(regex, i + 1, false)
        else IsPlain(ch) && ScanFrom(regex, i + 1, true)
  {
    CharClasses(regex[i]);
    hide IsPlain, IsInSet, IsRepeat, IsValidEscape;
  }

  lemma {:induction false} ScanIsParse(regex: CString, i: nat)
    requires i <= |regex| && (i == 0 ==> regex == "" || regex[0] != '^')
    ensures ScanFrom(regex, i, false) <==> ParseItems(regex[i..]) != None
    ensures ScanFrom(regex, i, true) <==>
      if i < |regex| && IsRepeat(regex[i]) then ParseItems(regex[i + 1..]) != None else ParseItems(regex[i..]) != None
    decreases |regex| - i
  {
    if i < |regex| {
      var s, ch := regex[i..], regex[i];
      CharClasses(ch);
      ScanUnfolded(regex, i, false);
      ScanUnfolded(regex, i, true);
      if s != "$" { ParseUnfolded(s); }
      assert ParseItems("$") != None;
      assert s == "$" <==> ch == '$' && i + 1 == |regex|;
      hide IsPlain, IsInSet, IsRepeat, IsValidEscape, ScanFrom, ParseItems, ParseRepeat;
      assert s[1..] == regex[i + 1..];
      RepeatParses(false, ch, s[1..]);
      ScanIsParse(regex, i + 1);
      if ch == '\\' && i + 1 < |regex| {
        RepeatParses(true, s[1], s[2..]);
        ScanIsParse(regex, i + 2);
        assert s[2..] == regex[i + 2..];
        assert i + 2 < |regex| ==> s[2..][1..] == regex[i + 3..];
      } else {
        assert i + 1 < |regex| ==> s[1..][1..] == regex[i + 2..];
      }
    }
  }

  /** The check accepts exactly the patterns that can be written from well-formed parts. */
  method ValidateRegex(regex: Option<CString>) returns (isValid: bool)
    ensures isValid <==> regex != None && Parse(regex.value) != None
    ensures isValid <==> regex != None && exists r: Regex :: WellFormed(r.items) && RegexText(r) == regex.value
  {
    if regex == None {
      return false;
    }
    var re := regex.value;
    isValid := CheckSyntax(re);
    ParseSound(re);
    forall r: Regex | WellFormed(r.items) && RegexText(r) == re ensures Parse(re) == Some(r) {
      ParseComplete(r);
    }
  }

  method CheckSyntax(regex: CString) returns (isValid: bool)
    ensures isValid <==> Parse(regex) != None
  {
    isValid := true;
    var prevRepeatable := false;
    var i := 0;
    while At(regex, i) != '\0'
      invariant i <= |regex|
      invariant ScanFrom(regex, 0, false) <==> isValid && ScanFrom(regex, i, prevRepeatable)
      decreases |regex| - i
    {
      if regex[i] == '\\' {
        i := i + 1;
        if At(regex, i) == '\0' {
          ScanStart(regex);
          return false;
        }
        if !IsValidEscape(regex[i]) {
          isValid := false;
        }
        prevRepeatable := true;
      } else {
        var ch := regex[i];
        if ch == '^' && i > 0 {
          isValid := false;
        } else if ch == '$' && At(regex, i + 1) != '\0' {
          isValid := false;
        } else if IsInSet(ch, "()[]{}|") {
          isValid := false;
        } else if IsRepeat(ch) && !prevRepeatable {
          isValid := false;
        }
        prevRepeatable := !IsInSet(ch, "^$?*+");
      }
      i := i + 1;
    }
    ScanStart(regex);
  }

  lemma ScanStart(regex: CString)
    ensures ScanFrom(regex, 0, false) <==> Parse(regex) != None
  {
    if regex != "" && regex[0] == '^' {
      ScanIsParse(regex, 1);
    } else {
      ScanIsParse(regex, 0);
      assert regex[0..] == regex;
    }
  }

  // ----- the matcher -----

  lemma DenotesSplit(items: seq<Item>, w: string, n: nat)
    requires items != [] && n <= |w| && StartsWith(items[0], w, n) && Denotes(items[1..], w[n..])
    ensures Denotes(items, w)
  {
  }

  /** The first item takes some number of characters, and the rest matches behind them. */
  lemma MatchesHeadSplit(item: Item, items: seq<Item>, end: bool, s: string)
    ensures MatchesHead([item] + items, end, s) <==>
      exists m :: 0 <= m <= |s| && StartsWith(item, s, m) && MatchesHead(items, end, s[m..])
  {
    var all := [item] + items;
    assert all[1..] == items;
    if MatchesHead(all, end, s) {
      var n :| 0 <= n <= |s| && Denotes(all, s[..n]) && (end ==> n == |s|);
      var m :| 0 <= m <= n && StartsWith(item, s[..n], m) && Denotes(items, s[..n][m..]);
      assert s[..n][..m] == s[..m];
      assert s[..n][m..] == s[m..][..n - m];
      assert StartsWith(item, s, m) && MatchesHead(items, end, s[m..]);
    }
    if m :| 0 <= m <= |s| && StartsWith(item, s, m) && MatchesHead(items, end, s[m..]) {
      var k :| 0 <= k <= |s| - m && Denotes(items, s[m..][..k]) && (end ==> k == |s| - m);
      assert s[..m + k][..m] == s[..m];
      assert s[..m + k][m..] == s[m..][..k];
      DenotesSplit(all, s[..m + k], m);
    }
  }

  lemma NoItemsMatch(end: bool, s: string)
    ensures MatchesHead([], end, s) <==> (end ==> s == "")
  {
    assert s[..0] == "";
  }

  /** Matches the atom some number of times, as few as possible, and then the rest. */
  method MatchRepetitionAndRegexAtHead(escaped: bool, c: char, repeat: char, regex: CString, str: CString,
                                       ghost items: seq<Item>, ghost end: bool) returns (matched: bool)
    requires IsRepeat(repeat) && ParseItems(regex) == Some((items, end)) && |str| < SIZE_MAX
    ensures matched <==> MatchesHead([Item(escaped, c, RepeatOf(repeat))] + items, end, str)
    decreases |regex|, 1
  {
    ghost var item := Item(escaped, c, RepeatOf(repeat));
    MatchesHeadSplit(item, items, end, str);
    RepeatIs(repeat);
    hide AtomMatchesChar, IsRepeat, ParseItems, MatchesHead;
    var minCount := if repeat == '+' then 1 else 0;
    var maxCount := if repeat == '?' then 1 else SIZE_MAX - 1;
    var i := 0;
    while i <= maxCount
      invariant i <= maxCount + 1 && i <= |str|
      invariant AllMatch(item, str[..i])
      invariant forall m :: 0 <= m < i && StartsWith(item, str, m) ==> !MatchesHead(items, end, str[m..])
      decreases maxCount + 1 - i
    {
      if i >= minCount {
        var rest := MatchRegexAtHead(regex, str[i..], items, end);
        if rest {
          assert StartsWith(item, str, i);
          return true;
        }
      }
      assert StartsWith(item, str, i) ==> !MatchesHead(items, end, str[i..]);
      if At(str, i) == '\0' {
        return false;
      }
      if !AtomMatchesChar(escaped, c, str[i]) {
        NoneBeyond(item, str, i);
        return false;
      }
      assert str[..i + 1] == str[..i] + [str[i]];
      i := i + 1;
    }
    return false;
  }

  lemma RepeatIs(repeat: char)
    requires IsRepeat(repeat)
    ensures forall n: nat :: CountAllowed(RepeatOf(repeat), n) <==>
      (if repeat == '+' then 1 else 0) <= n && (repeat == '?' ==> n <= 1)
  {
  }

  lemma NoneBeyond(item: Item, str: string, i: nat)
    requires i < |str| && !AtomMatchesChar(item.escaped, item.c, str[i])
    ensures forall m :: i < m <= |str| ==> !StartsWith(item, str, m)
  {
    hide AtomMatchesChar;
    forall m | i < m <= |str| ensures !StartsWith(item, str, m) {
      assert str[..m][i] == str[i];
    }
  }

  /** Whether some prefix of `str` is in the language of the pattern. */
  method MatchRegexAtHead(regex: CString, str: CString, ghost items: seq<Item>, ghost end: bool) returns (matched: bool)
    requires ParseItems(regex) == Some((items, end)) && |str| < SIZE_MAX
    ensures matched <==> MatchesHead(items, end, str)
    decreases |regex|, 0
  {
    NoItemsMatch(end, str);
    if At(regex, 0) == '\0' {
      return true;
    }
    if At(regex, 0) == '$' {
      return At(str, 0) == '\0';
    }
    var re := regex;
    var escaped := At(re, 0) == '\\';
    if escaped {
      re := re[1..];
    }
    ghost var item := items[0];
    ghost var rest := items[1..];
    assert items == [item] + rest;
    if IsRepeat(At(re, 1)) {
      matched := MatchRepetitionAndRegexAtHead(escaped, re[0], re[1], re[2..], str, rest, end);
    } else {
      OneAtom(item, rest, end, str);
      matched := At(str, 0) != '\0' && AtomMatchesChar(escaped, re[0], At(str, 0));
      if matched {
        matched := MatchRegexAtHead(re[1..], str[1..], rest, end);
      }
    }
  }

  lemma OneAtom(item: Item, items: seq<Item>, end: bool, s: string)
    requires item.repeat == Once
    ensures MatchesHead([item] + items, end, s) <==>
      s != "" && AtomMatchesChar(item.escaped, item.c, s[0]) && MatchesHead(items, end, s[1..])
  {
    MatchesHeadSplit(item, items, end, s);
    hide AtomMatchesChar, MatchesHead;
    if s != "" { assert s[..1] == [s[0]]; }
  }

  /** The language of a whole pattern, searched for anywhere in `s` unless it starts with `^`. */
  ghost predicate Finds(r: Regex, s: string) {
    if r.start then MatchesHead(r.items, r.end, s)
    else exists k :: 0 <= k <= |s| && MatchesHead(r.items, r.end, s[k..])
  }

  method MatchRegexAnywhere(regex: Option<CString>, str: Option<CString>) returns (matched: bool)
    requires regex != None ==> Parse(regex.value) != None
    requires str != None ==> |str.value| < SIZE_MAX
    ensures matched <==> regex != None && str != None && Finds(Parse(regex.value).value, str.value)
  {
    hide MatchesHead, ParseItems;
    if regex == None || str == None {
      return false;
    }
    var re, s := regex.value, str.value;
    ghost var r := Parse(re).value;
    if At(re, 0) == '^' {
      matched := MatchRegexAtHead(re[1..], s, r.items, r.end);
      return;
    }
    var k := 0;
    while true
      invariant k <= |s|
      invariant forall j :: 0 <= j < k ==> !MatchesHead(r.items, r.end, s[j..])
      decreases |s| - k
    {
      var found := MatchRegexAtHead(re, s[k..], r.items, r.end);
      if found {
        return true;
      }
      if At(s, k) == '\0' {
        return false;
      }
      k := k + 1;
    }
  }

  // ----- regular expression objects -----

  function FullPattern(regex: string): string {
    (if regex == "" || regex[0] != '^' then "^" else "") + regex
    + (if regex == "" || regex[|regex| - 1] != '$' then "$" else "")
  }

  class RE {
    var pattern: Option<CString>
    var fullPattern: Option<CString>
    var isValid: bool

    ghost predicate Ready()
      reads this
    {
      && (isValid <==> pattern != None && Parse(pattern.value) != None)
      && (isValid ==> fullPattern == Some(FullPattern(pattern.value)))
    }

    constructor (regex: Option<CString>)
      ensures Ready() && pattern == regex
    {
      pattern, fullPattern := regex, None;
      var valid := ValidateRegex(regex);
      isValid := valid;
      new;
      hide Parse, RegexText, WellFormed;
      if !isValid {
        return;
      }
      var re := regex.value;
      var buffer := "";
      if At(re, 0) != '^' {
        buffer := buffer + "^";
      }
      buffer := buffer + re;
      if |re| == 0 || re[|re| - 1] != '$' {
        buffer := buffer + "$";
      }
      assert buffer == FullPattern(re);
      fullPattern := Some(buffer);
    }

    /** Whether the whole of `str` is in the language; but a pattern that ends in an escaped
        dollar is only matched against the front of `str`. */
    method FullMatch(str: CString) returns (matched: bool)
      requires Ready() && |str| < SIZE_MAX
      ensures !isValid ==> !matched
      ensures isValid ==> (matched <==> FullyMatches(Parse(pattern.value).value, str))
    {
      if !isValid {
        return false;
      }
      FullPatternReads(pattern.value);
      matched := MatchRegexAnywhere(fullPattern, Some(str));
      ghost var r := Parse(pattern.value).value;
      WholeMatch(r.items, str);
    }

    /** Whether some part of `str` is in the language. */
    method PartialMatch(str: CString) returns (matched: bool)
      requires Ready() && |str| < SIZE_MAX
      ensures matched <==> isValid && Finds(Parse(pattern.value).value, str)
    {
      if !isValid {
        return false;
      }
      matched := MatchRegexAnywhere(pattern, Some(str));
    }
  }

  ghost predicate FullyMatches(r: Regex, s: string) {
    if EndsInLiteralDollar(r) then MatchesHead(r.items, false, s) else Denotes(r.items, s)
  }

  predicate EndsInLiteralDollar(r: Regex) {
    !r.end && r.items != [] && r.items[|r.items| - 1] == Item(true, '$', Once)
  }

  /** Such a pattern accepts more than its language: an escaped dollar accepts a dollar with
      anything behind it. */
  lemma LiteralDollarAcceptsMore(tail: string)
    requires tail != ""
    ensures var r := Regex(false, [Item(true, '$', Once)], false);
      RegexText(r) == "\\$" && FullyMatches(r, "$" + tail) && !Denotes(r.items, "$" + tail)
  {
    var item, s := Item(true, '$', Once), "$" + tail;
    var r := Regex(false, [item], false);
    assert [item][1..] == [] && [item] + [] == [item];
    assert RegexText(r) == "\\$" by { assert ItemsText([item]) == ItemText(item) + ItemsText([]); }
    OneAtom(item, [], false, s);
    NoItemsMatch(false, s[1..]);
    OneAtom(item, [], true, s);
    NoItemsMatch(true, s[1..]);
    WholeMatch([item], s);
  }

  /** A full match decides the language of a pattern exactly when no escaped dollar comes last. */
  lemma FullMatchExactIff(r: Regex)
    requires WellFormed(r.items)
    ensures (forall s: CString :: FullyMatches(r, s) <==> Denotes(r.items, s)) <==> !EndsInLiteralDollar(r)
  {
    hide Denotes, WellFormed;
    if EndsInLiteralDollar(r) {
      var w := SomeMember(r.items);
      var s: CString := w + "x";
      assert s[..|w|] == w;
      assert MatchesHead(r.items, false, s);
      if Denotes(r.items, s) { LastCharacter(r.items, s); }
      assert FullyMatches(r, s) && !Denotes(r.items, s);
    }
  }

  /** Every pattern has a text in its language. */
  lemma {:induction false} SomeMember(items: seq<Item>) returns (w: CString)
    requires WellFormed(items)
    ensures Denotes(items, w)
  {
    w := "";
    if items != [] {
      var c := SomeCharacter(items[0]);
      var rest := SomeMember(items[1..]);
      w := [c] + rest;
      assert w[..1] == [c] && w[1..] == rest;
      DenotesSplit(items, w, 1);
    }
  }

  lemma SomeCharacter(item: Item) returns (c: char)
    requires WellFormedItem(item)
    ensures c != '\0' && AtomMatchesChar(item.escaped, item.c, c)
  {
    c := if !item.escaped then item.c else
      match item.c
      case 'd' => '0'
      case 'D' => 'a'
      case 'f' => '\U{000C}'
      case 'n' => '\n'
      case 'r' => '\r'
      case 's' => ' '
      case 'S' => 'a'
      case 't' => '\t'
      case 'v' => '\U{000B}'
      case 'w' => 'a'
      case 'W' => ' '
      case x => x;
  }

  lemma {:induction false} LastCharacter(items: seq<Item>, w: string)
    requires items != [] && items[|items| - 1] == Item(true, '$', Once) && Denotes(items, w)
    ensures w != "" && w[|w| - 1] == '$'
    decreases |items|
  {
    var n :| 0 <= n <= |w| && StartsWith(items[0], w, n) && Denotes(items[1..], w[n..]);
    if |items| == 1 {
      assert w[..n][0] == w[0];
    } else {
      LastCharacter(items[1..], w[n..]);
    }
  }

  lemma WholeMatch(items: seq<Item>, s: string)
    ensures MatchesHead(items, true, s) <==> Denotes(items, s)
  {
    assert s[..|s|] == s;
  }

  lemma {:induction false} ItemsTextLast(items: seq<Item>)
    requires items != []
    ensures var n := |items| - 1; ItemsText(items) == ItemsText(items[..n]) + ItemText(items[n])
  {
    var n := |items| - 1;
    if n > 0 {
      ItemsTextLast(items[1..]);
      assert items[1..][..n - 1] == items[..n][1..];
    } else {
      assert items[1..] == [] && items[..0] == [];
    }
  }

  /** A pattern without `$` at its end is written with a dollar last only if that is a literal. */
  lemma LastIsDollar(items: seq<Item>)
    requires WellFormed(items)
    ensures var s := ItemsText(items);
      s != "" && s[|s| - 1] == '$' <==> items != [] && items[|items| - 1] == Item(true, '$', Once)
  {
    if items != [] {
      ItemsTextLast(items);
      var last := items[|items| - 1];
      assert WellFormedItem(last);
    }
  }

  lemma FullPatternReads(regex: CString)
    requires Parse(regex) != None
    ensures '\0' !in FullPattern(regex)
    ensures var r := Parse(regex).value;
      Parse(FullPattern(regex)) == Some(Regex(true, r.items, !EndsInLiteralDollar(r)))
  {
    var r := Parse(regex).value;
    ParseSound(regex);
    LastChar(r);
    var full := Regex(true, r.items, !EndsInLiteralDollar(r));
    ParseComplete(full);
    hide Parse, ParseItems, WellFormedItem, EndsInLiteralDollar;
    FullPatternText(r, full.end);
  }

  lemma LastChar(r: Regex)
    requires WellFormed(r.items)
    ensures var s := RegexText(r); s != "" && s[|s| - 1] == '$' <==> r.end || EndsInLiteralDollar(r)
  {
    LastIsDollar(r.items);
    hide ItemsText, WellFormed;
    if r.items == [] { NoItemsText(); }
  }

  lemma NoItemsText()
    ensures ItemsText([]) == ""
  {
  }

  lemma FullPatternText(r: Regex, end: bool)
    requires var s := RegexText(r); s == "" || s[0] != '^' <==> !r.start
    requires var s := RegexText(r); s == "" || s[|s| - 1] != '$' <==> end && !r.end
    requires r.end ==> end
    ensures FullPattern(RegexText(r)) == RegexText(Regex(true, r.items, end))
  {
    hide ItemsText;
    var body := ItemsText(r.items);
    if r.end {
      assert "^" + (body + "$") + "" == "^" + (body + "$");
    } else if end {
      assert "^" + ("" + (body + "")) + "$" == "^" + (body + "$");
    }
  }
}
