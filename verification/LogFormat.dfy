/** Formatting of one log entry into a caller's buffer. A sub-buffer `&buffer[at]` of `len`
    bytes is passed as the array with the offset and the length. */
module LogFormat {
  import opened CStrings
  import opened Escaping
  import opened MdcList
  import opened LogEntry
  import opened Wrappers

  /** A field formatter wrote all of `text`, or nothing if it had to be cut. */
  ghost predicate FieldWritten(buffer: seq<char>, at: nat, len: nat, text: string, ret: nat)
    requires at < |buffer|
  {
    if text != "" && |text| < len then ret == |text| && Holds(buffer, at, text)
    else ret == 0 && Holds(buffer, at, "")
  }

  method FormatTimestamp(buffer: array<char>, at: nat, len: nat, tv: TimeVal) returns (ret: nat)
    requires at + (if len == 0 then 1 else len) <= buffer.Length
    modifies buffer
    ensures FieldWritten(buffer[..], at, len, TimestampText(tv), ret)
    ensures SameOutside(old(buffer[..]), buffer[..], at, at + (if len == 0 then 1 else len))
  {
    var timestamp := ((tv.sec % TWO_TO_THE_64) * 1000 + (tv.usec % TWO_TO_THE_64) / 1000) % TWO_TO_THE_64;
    ret := Snprintf(buffer, at, len, "\"ts\":" + Decimal(timestamp));
    if ret >= len {
      buffer[at] := '\0';
      ret := 0;
    }
  }

  method FormatSeverity(buffer: array<char>, at: nat, len: nat, severity: int) returns (ret: nat)
    requires at + (if len == 0 then 1 else len) <= buffer.Length
    modifies buffer
    ensures FieldWritten(buffer[..], at, len, SeverityText(severity), ret)
    ensures SameOutside(old(buffer[..]), buffer[..], at, at + (if len == 0 then 1 else len))
  {
    var severityVal: string;
    match severity {
      case 1 => severityVal := "ERROR";
      case 2 => severityVal := "WARNING";
      case 3 => severityVal := "INFO";
      case 4 => severityVal := "DEBUG";
      case _ =>
        buffer[at] := '\0';
        return 0;
    }
    ret := Snprintf(buffer, at, len, "\"crit\":\"" + severityVal + "\"");
    if ret >= len {
      buffer[at] := '\0';
      return 0;
    }
  }

  method FormatIdentity(buffer: array<char>, at: nat, len: nat, identity: Option<CString>) returns (ret: nat)
    requires at + (if len == 0 then 1 else len) <= buffer.Length
    modifies buffer
    ensures FieldWritten(buffer[..], at, len, IdentityText(identity), ret)
    ensures SameOutside(old(buffer[..]), buffer[..], at, at + (if len == 0 then 1 else len))
  {
    var shown := match identity case None => "(null)" case Some(id) => Cut(id, IDENTITY_MAX_LENGTH);
    ret := Snprintf(buffer, at, len, "\"id\":\"" + shown + "\"");
    if ret >= len {
      buffer[at] := '\0';
      return 0;
    }
  }

  // ----- the message -----

  /** The byte before a position between two escaped characters tells how far to step back. */
  lemma StepBack(msg: string, j: nat, n: nat)
    requires 0 < j <= n <= |msg|
    ensures |Escaped(msg[..j])| == |Escaped(msg[..j - 1])| + |EscapeChar(msg[j - 1])| <= |Escaped(msg[..n])|
    ensures NeedsEscape(Escaped(msg[..n])[|Escaped(msg[..j])| - 1]) <==> NeedsEscape(msg[j - 1])
  {
    EscapedStep(msg, j - 1);
    EscapedPrefix(msg, j, n);
  }

  lemma NothingEscaped(msg: string)
    ensures |Escaped(msg[..0])| == 0
  {
  }

  /** Finds the place for the truncation mark: backwards from the end of an escaped text, by
      whole escaped characters, to the last place where the mark fits. */
  method FindTruncation(buffer: array<char>, at: nat, len: nat, ghost msg: string, totalLen: nat, ghost n: nat)
    returns (i: nat)
    requires len >= 20 && at + len <= buffer.Length
    requires n <= |msg| && totalLen == 7 + |Escaped(msg[..n])| < len
    requires Wrote(buffer[..], at + 7, Escaped(msg[..n]))
    requires n < |msg| ==> |Escaped(msg[..n + 1])| > len - 20
    ensures i == 7 + |Escaped(msg[..Fitting(msg, len - 20)])| <= totalLen
    ensures Wrote(buffer[..], at + 7, Escaped(msg[..Fitting(msg, len - 20)]))
  {
    hide Wrote, Escaped;
    ghost var written := Escaped(msg[..n]);
    i := totalLen;
    ghost var j: nat := n;
    while i + |TRUNCATED| >= len - 1
      invariant j <= n && i == 7 + |Escaped(msg[..j])|
      invariant j < |msg| ==> |Escaped(msg[..j + 1])| > len - 20
      decreases i
    {
      assert j > 0 by { NothingEscaped(msg); }
      StepBack(msg, j, n);
      WroteAt(buffer[..], at + 7, written, i - 8);
      if buffer[at + i - 1] == '\\' || buffer[at + i - 1] == '"' {
        i := i - 1;
      }
      i, j := i - 1, j - 1;
    }
    StepBoundsFit(msg, len - 20, j);
    EscapedPrefix(msg, j, n);
    assert written[..i - 7] == Escaped(msg[..j]);
    WroteCut(buffer[..], at + 7, written, i - 7);
  }

  /** The expanded message is first cut to the temporary buffer, then escaped: together this
      is no different from escaping all of it into the final buffer. */
  lemma CutThenEscape(msg: CString, len: nat, tmp: CString)
    requires len >= 20 && tmp == msg[..Min(|msg|, len - 8)]
    ensures var n := Fitting(tmp, len - 9);
      && n <= |msg| && tmp[..n] == msg[..n] && |Escaped(msg[..n])| <= len - 9
      && (|msg| + 1 >= len - 7 || |Escaped(tmp)| > len - 9 <==> |Escaped(msg)| > len - 9)
      && (|Escaped(msg)| <= len - 9 ==> n == |msg|)
      && (n < |msg| ==> |Escaped(msg[..n + 1])| > len - 9)
  {
    var n := Fitting(tmp, len - 9);
    assert tmp[..|tmp|] == tmp && msg[..|msg|] == msg && msg[..|tmp|] == tmp;
    EscapedPrefix(msg, |tmp|, |msg|);
    EscapedPrintable(tmp);
    assert tmp[..n] == msg[..n];
    if n < |tmp| {
      assert tmp[..n + 1] == msg[..n + 1];
    }
  }

  /** `msg` is the message after printf expansion. */
  method FormatMessage(buffer: array<char>, at: nat, len: nat, msg: CString) returns (ret: nat)
    requires at + (if len == 0 then 1 else len) <= buffer.Length
    modifies buffer
    ensures ret == |MessageText(msg, len)| && Holds(buffer[..], at, MessageText(msg, len))
    ensures SameOutside(old(buffer[..]), buffer[..], at, at + (if len == 0 then 1 else len))
  {
    if len <= |MINIMUM_MESSAGE| {
      buffer[at] := '\0';
      return 0;
    }
    ret := WriteMessage(buffer, at, len, msg);
  }

  const MSG_START := "\"msg\":\""

  method WriteMessage(buffer: array<char>, at: nat, len: nat, msg: CString) returns (ret: nat)
    requires len >= 20 && at + len <= buffer.Length
    modifies buffer
    ensures ret == |MessageText(msg, len)| && Holds(buffer[..], at, MessageText(msg, len))
    ensures SameOutside(old(buffer[..]), buffer[..], at, at + len)
  {
    hide Wrote, SameOutside, Fitting, Escaped, MessageText;
    var msgStart := Snprintf(buffer, at, len, MSG_START);
    ghost var b1 := buffer[..];
    var tmp, truncated := ExpandMessage(len - msgStart, msg);
    CutThenEscape(msg, len, tmp);
    var escapedMsgLen, escapeTruncated := Escape(buffer, at + msgStart, len - msgStart - 1, tmp);
    if escapeTruncated {
      truncated := true;
    }
    WroteFrame(b1, buffer[..], at, MSG_START, at + msgStart, at + len - 1);
    Widen(old(buffer[..]), b1, buffer[..], at, at + len, at + msgStart, at + len - 1);
    ghost var b2 := buffer[..];
    ret := CloseMessage(buffer, at, len, msg, msgStart + escapedMsgLen, truncated, Fitting(tmp, len - 9));
    Widen(old(buffer[..]), b2, buffer[..], at, at + len, at, at + len);
  }

  /** Expands the message into a temporary buffer of `size` bytes. */
  method ExpandMessage(size: nat, msg: CString) returns (tmp: CString, truncated: bool)
    requires size > 0
    ensures tmp == msg[..Min(|msg|, size - 1)]
    ensures truncated <==> |msg| + 1 >= size
  {
    var tmpBuf := new char[size];
    var msgLen := Snprintf(tmpBuf, 0, size, msg);
    truncated := msgLen + 1 >= size;
    var n := Min(msgLen, size - 1);
    assert tmpBuf[..n] == msg[..n];
    tmp := tmpBuf[..n];
  }

  /** The end of the message: the quote, after the truncation mark if something was cut. */
  method CloseMessage(buffer: array<char>, at: nat, len: nat, ghost msg: CString, totalLen: nat, truncated: bool,
                      ghost n: nat)
    returns (ret: nat)
    requires len >= 20 && at + len <= buffer.Length
    requires Wrote(buffer[..], at, MSG_START)
    requires n <= |msg| && totalLen == 7 + |Escaped(msg[..n])| <= len - 2
    requires Wrote(buffer[..], at + 7, Escaped(msg[..n]))
    requires truncated <==> |Escaped(msg)| > len - 9
    requires !truncated ==> n == |msg|
    requires n < |msg| ==> |Escaped(msg[..n + 1])| > len - 9
    modifies buffer
    ensures ret == |MessageText(msg, len)| && Holds(buffer[..], at, MessageText(msg, len))
    ensures SameOutside(old(buffer[..]), buffer[..], at, at + len)
  {
    hide Wrote, SameOutside, Fitting, Escaped, MessageText;
    var end, rest := totalLen, "\"";
    ghost var body := Escaped(msg[..n]);
    if truncated {
      end := FindTruncation(buffer, at, len, msg, totalLen, n);
      body := Escaped(msg[..Fitting(msg, len - 20)]);
      rest := TRUNCATED + "\"";
    }
    MessageTextParts(msg, len, n, body, rest);
    ghost var start, b1 := MSG_START + body, buffer[..];
    WroteAppend(b1, at, MSG_START, body);
    var printed := AppendPrintf(buffer, at, len, end, rest, start);
    Widen(b1, b1, buffer[..], at, at + len, at + end, at + len);
    ret := end + printed;
  }

  lemma MessageTextParts(msg: CString, len: nat, n: nat, body: string, rest: string)
    requires len >= 20 && n <= |msg|
    requires if |Escaped(msg)| > len - 9
      then body == Escaped(msg[..Fitting(msg, len - 20)]) && rest == TRUNCATED + "\""
      else n == |msg| && body == Escaped(msg[..n]) && rest == "\""
    ensures MSG_START + body + rest == MessageText(msg, len)
    ensures |MSG_START + body + rest| < len
  {
    assert msg[..|msg|] == msg;
    if |Escaped(msg)| > len - 9 {
      assert MSG_START + body + (TRUNCATED + "\"") == MSG_START + (body + TRUNCATED) + "\"";
    }
  }

  // ----- the MDC -----

  const MDC_START := "\"mdc\":{"

  /** Prints the pair at position `k` behind those before it. */
  method PrintPair(buffer: array<char>, at: nat, len: nat, offset: nat, p: Pair, ghost list: seq<Pair>, ghost k: nat)
    returns (ret: nat)
    requires at + len <= buffer.Length && k < |list| && list[k] == p
    requires offset == 7 + |PairsText(list[..k])| < len
    requires Wrote(buffer[..], at, MDC_START + PairsText(list[..k]))
    modifies buffer
    ensures ret == |PairText(p)| && Wrote(buffer[..], at, MDC_START + PairsText(list[..k]))
    ensures ret < len - offset ==> Wrote(buffer[..], at, MDC_START + PairsText(list[..k + 1]))
    ensures SameOutside(old(buffer[..]), buffer[..], at, at + len)
  {
    hide Wrote, SameOutside;
    PairsTextStep(list, k);
    ghost var b0, done := buffer[..], MDC_START + PairsText(list[..k]);
    assert PairText(p) == "\"" + p.key + "\":\"" + p.value + "\",";
    ret := AppendPrintf(buffer, at, len, offset, "\"" + p.key + "\":\"" + p.value + "\",", done);
    SameAsItself(b0, at, at + len);
    Widen(b0, b0, buffer[..], at, at + len, at + offset, at + len);
    assert done + PairText(p) == MDC_START + PairsText(list[..k + 1]);
  }

  /** The loop over the list: prints pairs, each with its comma, until one does not fit. */
  method FormatPairs(buffer: array<char>, at: nat, len: nat, mdc: Node?, ghost nodes: seq<Node>, ghost list: seq<Pair>)
    returns (offset: nat, mdcCount: nat)
    requires len > 8 && at + len <= buffer.Length
    requires mdc == First(nodes) && Chain(nodes) && Hold(nodes, list)
    requires Wrote(buffer[..], at, MDC_START)
    modifies buffer
    ensures mdcCount == FittingPairs(list, len - 7)
    ensures offset == 7 + |PairsText(list[..mdcCount])| < len
    ensures Wrote(buffer[..], at, MDC_START + PairsText(list[..mdcCount]))
    ensures SameOutside(old(buffer[..]), buffer[..], at, at + len)
  {
    hide Wrote, SameOutside, FittingPairs;
    offset := 7;
    mdcCount := 0;
    var node := mdc;
    assert list[..0] == [] && MDC_START + "" == MDC_START;
    Widen(buffer[..], buffer[..], buffer[..], at, at + len, at, at + len);
    while node != null
      invariant mdcCount <= |nodes| && node == if mdcCount < |nodes| then nodes[mdcCount] else null
      invariant offset == 7 + |PairsText(list[..mdcCount])| < len
      invariant Wrote(buffer[..], at, MDC_START + PairsText(list[..mdcCount]))
      invariant SameOutside(old(buffer[..]), buffer[..], at, at + len)
      decreases |nodes| - mdcCount
    {
      PairsTextStep(list, mdcCount);
      ghost var b0 := buffer[..];
      var ret := PrintPair(buffer, at, len, offset, Pair(node.key, node.value), list, mdcCount);
      Widen(old(buffer[..]), b0, buffer[..], at, at + len, at, at + len);
      if ret >= len - offset {
        break;
      }
      offset := offset + ret;
      node := node.next;
      mdcCount := mdcCount + 1;
    }
    assert list[..|list|] == list;
    FittingPairsIs(list, len - 7, mdcCount);
  }

  /** `mdc` points to the first of `nodes`, which hold the pairs of `list`. */
  method FormatMdc(buffer: array<char>, at: nat, len: nat, mdc: Node?, ghost nodes: seq<Node>, ghost list: seq<Pair>)
    returns (ret: nat)
    requires at + (if len == 0 then 1 else len) <= buffer.Length
    requires mdc == First(nodes) && Chain(nodes) && Hold(nodes, list)
    modifies buffer
    ensures ret == |MdcText(list, len)| && Holds(buffer[..], at, MdcText(list, len))
    ensures SameOutside(old(buffer[..]), buffer[..], at, at + (if len == 0 then 1 else len))
  {
    ret := Snprintf(buffer, at, len, MDC_START);
    if ret + 1 >= len {
      buffer[at] := '\0';
      return 0;
    }
    var offset, mdcCount := FormatPairs(buffer, at, len, mdc, nodes, list);
    ret := CloseMdc(buffer, at, len, offset, mdcCount, list);
  }

  /** Replaces the last comma, if there is one, by the closing brace. */
  method CloseMdc(buffer: array<char>, at: nat, len: nat, end: nat, mdcCount: nat, ghost list: seq<Pair>)
    returns (offset: nat)
    requires len > 8 && at + len <= buffer.Length && mdcCount == FittingPairs(list, len - 7)
    requires end == 7 + |PairsText(list[..mdcCount])| < len
    requires Wrote(buffer[..], at, MDC_START + PairsText(list[..mdcCount]))
    modifies buffer
    ensures offset == |MdcText(list, len)| && Holds(buffer[..], at, MdcText(list, len))
    ensures SameOutside(old(buffer[..]), buffer[..], at, at + len)
  {
    offset := end;
    ghost var body := PairsText(list[..mdcCount]);
    assert list[..0] == [];
    PairsTextGrows(list, 0, mdcCount);
    if mdcCount > 0 {
      offset := offset - 1;
    }
    WroteCut(buffer[..], at, MDC_START + body, offset);
    assert (MDC_START + body)[..offset] == MDC_START + WithoutComma(body);
    offset := WriteBrace(buffer, at, offset, MDC_START + WithoutComma(body));
  }

  method WriteBrace(buffer: array<char>, at: nat, offset: nat, ghost text: string) returns (next: nat)
    requires at + offset + 2 <= buffer.Length && offset == |text| && Wrote(buffer[..], at, text)
    modifies buffer
    ensures next == offset + 1 && Holds(buffer[..], at, text + "}")
    ensures SameOutside(old(buffer[..]), buffer[..], at + offset, at + offset + 2)
  {
    ghost var b0 := buffer[..];
    buffer[at + offset] := '}';
    next := offset + 1;
    buffer[at + next] := '\0';
    WroteFrame(b0, buffer[..], at, text, at + offset, at + offset + 2);
    WroteAppend(buffer[..], at, text, "}");
  }

  // ----- the entry -----

  lemma SameAsItself(b: seq<char>, lo: nat, hi: nat)
    ensures SameOutside(b, b, lo, hi)
  {
  }

  /** buffer[at] = c, behind a text that starts the buffer. */
  method PutChar(buffer: array<char>, at: nat, c: char, ghost done: string)
    requires at < buffer.Length && at == |done| && Wrote(buffer[..], 0, done)
    modifies buffer
    ensures Wrote(buffer[..], 0, done + [c]) && buffer[at] == c
    ensures SameOutside(old(buffer[..]), buffer[..], at, at + 1)
  {
    ghost var b0 := buffer[..];
    buffer[at] := c;
    WroteFrame(b0, buffer[..], 0, done, at, at + 1);
    WroteAppend(buffer[..], 0, done, [c]);
  }

  /** Keeps the field that was just printed behind `fields`, and adds its comma. */
  method EndField(buffer: array<char>, len: nat, offset: nat, ret: nat, ghost fields: seq<string>, ghost field: string)
    returns (next: nat)
    requires len <= buffer.Length && offset == 1 + |Joined(fields)| && Room(len, fields) >= 0
    requires Wrote(buffer[..], 0, "{" + Joined(fields))
    requires FieldWritten(buffer[..], offset, Room(len, fields), field, ret)
    modifies buffer
    ensures next == 1 + |Joined(Keep(len, fields, field))| && Room(len, Keep(len, fields, field)) >= 0
    ensures Wrote(buffer[..], 0, "{" + Joined(Keep(len, fields, field)))
    ensures SameOutside(old(buffer[..]), buffer[..], 0, len)
  {
    hide Wrote, SameOutside, Joined, Keep;
    JoinedKeep(len, fields, field);
    next := offset;
    ghost var done, b0 := "{" + Joined(fields), buffer[..];
    SameAsItself(b0, 0, len);
    if ret > 0 {
      WroteAppend(b0, 0, done, field);
      next := next + ret;
      PutChar(buffer, next, ',', done + field);
      Widen(b0, b0, buffer[..], 0, len, next, next + 1);
      next := next + 1;
      assert done + field + "," == "{" + Joined(Keep(len, fields, field));
    }
  }

  /** The three fields before the MDC. */
  method FormatHead(buffer: array<char>, len: nat, timestamp: TimeVal, identity: Option<CString>, severity: int)
    returns (offset: nat)
    requires 21 <= len <= buffer.Length
    modifies buffer
    ensures var fields := HeadFields(len, timestamp, identity, severity);
      offset == 1 + |Joined(fields)| && Room(len, fields) >= 0 && Wrote(buffer[..], 0, "{" + Joined(fields))
    ensures SameOutside(old(buffer[..]), buffer[..], 0, len)
  {
    hide Wrote, SameOutside, TimestampText, SeverityText, IdentityText;
    ghost var b0, fields: seq<string> := buffer[..], [];
    NothingWritten(b0);
    PutChar(buffer, 0, '{', "");
    assert "" + "{" == "{" + Joined(fields);
    offset := 1;
    SameAsItself(b0, 0, len);
    Widen(b0, b0, buffer[..], 0, len, 0, 1);

    ghost var b := buffer[..];
    var ret := FormatTimestamp(buffer, offset, len - offset - |MINIMUM_MESSAGE| - 1, timestamp);
    FieldFrame(b0, b, buffer[..], len, offset, fields);
    b := buffer[..];
    offset := EndField(buffer, len, offset, ret, fields, TimestampText(timestamp));
    Widen(b0, b, buffer[..], 0, len, 0, len);
    fields := Keep(len, fields, TimestampText(timestamp));

    b := buffer[..];
    ret := FormatSeverity(buffer, offset, len - offset - |MINIMUM_MESSAGE| - 1, severity);
    FieldFrame(b0, b, buffer[..], len, offset, fields);
    b := buffer[..];
    offset := EndField(buffer, len, offset, ret, fields, SeverityText(severity));
    Widen(b0, b, buffer[..], 0, len, 0, len);
    fields := Keep(len, fields, SeverityText(severity));

    b := buffer[..];
    ret := FormatIdentity(buffer, offset, len - offset - |MINIMUM_MESSAGE| - 1, identity);
    FieldFrame(b0, b, buffer[..], len, offset, fields);
    b := buffer[..];
    offset := EndField(buffer, len, offset, ret, fields, IdentityText(identity));
    Widen(b0, b, buffer[..], 0, len, 0, len);
  }

  lemma NothingWritten(b: seq<char>)
    ensures Wrote(b, 0, "")
  {
  }

  /** Printing a field behind the others leaves them alone and stays inside the buffer. */
  lemma FieldFrame(b0: seq<char>, b1: seq<char>, b2: seq<char>, len: nat, offset: nat, fields: seq<string>)
    requires offset == 1 + |Joined(fields)| && Room(len, fields) >= 0
    requires SameOutside(b0, b1, 0, len) && Wrote(b1, 0, "{" + Joined(fields))
    requires SameOutside(b1, b2, offset, offset + (if Room(len, fields) == 0 then 1 else Room(len, fields)))
    ensures SameOutside(b0, b2, 0, len) && Wrote(b2, 0, "{" + Joined(fields))
  {
    var hi := offset + if Room(len, fields) == 0 then 1 else Room(len, fields);
    WroteFrame(b1, b2, 0, "{" + Joined(fields), offset, hi);
    Widen(b0, b1, b2, 0, len, offset, hi);
  }

  method FormatLogEntry(buffer: array<char>, len: nat, timestamp: TimeVal, identity: Option<CString>, severity: int,
                        mdc: Node?, msg: CString, ghost nodes: seq<Node>, ghost list: seq<Pair>) returns (result: int)
    requires 21 <= len <= buffer.Length
    requires mdc == First(nodes) && Chain(nodes) && Hold(nodes, list)
    modifies buffer
    ensures match EntryText(len, timestamp, identity, severity, list, msg)
      case Some(text) => result == |text| && Holds(buffer[..], 0, text)
      case None => result == -1 && Holds(buffer[..], 0, "")
    ensures SameOutside(old(buffer[..]), buffer[..], 0, len)
  {
    hide Wrote, SameOutside, MdcText, HeadFields, MdcField, MessageText, Joined, Keep, FieldWritten, Chain, Hold;
    ghost var b0 := buffer[..];
    var offset := FormatHead(buffer, len, timestamp, identity, severity);
    ghost var fields := HeadFields(len, timestamp, identity, severity);

    ghost var b := buffer[..];
    var ret := FormatMdc(buffer, offset, len - offset - |MINIMUM_MESSAGE| - 1, mdc, nodes, list);
    FieldFrame(b0, b, buffer[..], len, offset, fields);
    MdcIsField(buffer[..], offset, len, fields, list, ret);
    b := buffer[..];
    offset := EndField(buffer, len, offset, ret, fields, MdcField(len, fields, list));
    Widen(b0, b, buffer[..], 0, len, 0, len);
    fields := EntryFields(len, timestamp, identity, severity, list);

    b := buffer[..];
    result := EndEntry(buffer, len, offset, fields, msg);
    Widen(b0, b, buffer[..], 0, len, 0, len);
  }

  lemma MdcIsField(b: seq<char>, at: nat, len: nat, fields: seq<string>, list: seq<Pair>, ret: nat)
    requires Room(len, fields) >= 0 && at < |b|
    requires ret == |MdcText(list, Room(len, fields))| && Holds(b, at, MdcText(list, Room(len, fields)))
    ensures FieldWritten(b, at, Room(len, fields), MdcField(len, fields, list), ret)
  {
    if Room(len, fields) > 8 { MdcTextSize(list, Room(len, fields)); }
  }

  /** The message and the closing brace, or the error. */
  method EndEntry(buffer: array<char>, len: nat, offset: nat, ghost fields: seq<string>, msg: CString)
    returns (result: int)
    requires 21 <= len <= buffer.Length && offset == 1 + |Joined(fields)| && Room(len, fields) >= 0
    requires Wrote(buffer[..], 0, "{" + Joined(fields))
    modifies buffer
    ensures var message := MessageText(msg, len - offset - 1);
      if message == "" then result == -1 && Holds(buffer[..], 0, "")
      else result == offset + |message| + 1 && Holds(buffer[..], 0, "{" + Joined(fields) + message + "}")
    ensures SameOutside(old(buffer[..]), buffer[..], 0, len)
  {
    hide Wrote, SameOutside, MessageText, Joined;
    ghost var b0, done, message := buffer[..], "{" + Joined(fields), MessageText(msg, len - offset - 1);
    var ret := FormatMessage(buffer, offset, len - offset - 1, msg);
    MessageTextSize(msg, len - offset - 1);
    SameAsItself(b0, 0, len);
    Widen(b0, b0, buffer[..], 0, len, offset, len - 1);
    WroteFrame(b0, buffer[..], 0, done, offset, len - 1);
    if ret == 0 {
      ghost var b1 := buffer[..];
      NothingWritten(b1);
      PutChar(buffer, 0, '\0', "");
      NothingWritten(buffer[..]);
      Widen(b0, b1, buffer[..], 0, len, 0, 1);
      return -1;
    }
    assert ret < len - offset - 1 by { SmallMessage(msg, len - offset - 1); }
    WroteAppend(buffer[..], 0, done, message);
    ghost var b1 := buffer[..];
    var end := offset + ret;
    PutChar(buffer, end, '}', done + message);
    Widen(b0, b1, buffer[..], 0, len, end, end + 1);
    ghost var b2 := buffer[..];
    PutChar(buffer, end + 1, '\0', done + message + "}");
    Widen(b0, b2, buffer[..], 0, len, end + 1, end + 2);
    WroteCut(buffer[..], 0, done + message + "}" + ['\0'], end + 1);
    assert (done + message + "}" + ['\0'])[..end + 1] == done + message + "}";
    return end + 1;
  }

  lemma SmallMessage(msg: CString, len: nat)
    requires MessageText(msg, len) != ""
    ensures |MessageText(msg, len)| < len
  {
    MessageTextSize(msg, len);
  }

  /** Formats a log entry: the length of the text, or -1. */
  method FormatToJsonStr(buffer: array<char>, len: nat, timestamp: TimeVal, identity: Option<CString>, severity: int,
                         mdc: Node?, msg: CString, ghost nodes: seq<Node>, ghost list: seq<Pair>) returns (result: int)
    requires len <= buffer.Length
    requires mdc == First(nodes) && Chain(nodes) && Hold(nodes, list)
    modifies buffer
    ensures len < MIN_BUFFER_LENGTH ==> result == -1 && buffer[..] == old(buffer[..])
    ensures len >= MIN_BUFFER_LENGTH ==>
      match EntryText(len, timestamp, identity, severity, list, msg)
      case Some(text) => result == |text| && Holds(buffer[..], 0, text)
      case None => result == -1 && Holds(buffer[..], 0, "")
    ensures result < len
    ensures SameOutside(old(buffer[..]), buffer[..], 0, len)
  {
    if len < MIN_BUFFER_LENGTH {
      return -1;
    }
    EntrySize(len, timestamp, identity, severity, list, msg);
    result := FormatLogEntry(buffer, len, timestamp, identity, severity, mdc, msg, nodes, list);
  }
}
