/** C strings, buffers and the few C library calls that the log formatter uses. */
module CStrings {

  /** The bytes of a C string before its terminator. */
  type CString = s: string | '\0' !in s

  /** Reading a C string at any index up to and including its terminator. */
  function At(s: CString, i: nat): char
    requires i <= |s|
  {
    if i < |s| then s[i] else '\0'
  }

  /** isprint in the C locale. */
  predicate IsPrint(c: char) { ' ' <= c <= '~' }

  predicate AllPrintable(s: string) { forall i :: 0 <= i < |s| ==> IsPrint(s[i]) }

  lemma PrintableConcat(a: string, b: string)
    requires AllPrintable(a) && AllPrintable(b)
    ensures AllPrintable(a + b)
  {
  }

  // ----- what a buffer contains -----

  ghost predicate Wrote(buffer: seq<char>, at: nat, text: string) {
    at + |text| <= |buffer| && buffer[at..at + |text|] == text
  }

  /** `buffer` holds `text` as a C string that starts at `at`. */
  ghost predicate Holds(buffer: seq<char>, at: nat, text: string) {
    Wrote(buffer, at, text) && at + |text| < |buffer| && buffer[at + |text|] == '\0'
  }

  ghost predicate SameOutside(before: seq<char>, after: seq<char>, lo: nat, hi: nat) {
    && |before| == |after|
    && forall i :: 0 <= i < |before| && !(lo <= i < hi) ==> after[i] == before[i]
  }

  lemma WroteAppend(b: seq<char>, at: nat, s: string, t: string)
    requires Wrote(b, at, s) && Wrote(b, at + |s|, t)
    ensures Wrote(b, at, s + t)
  {
    assert b[at..at + |s + t|] == b[at..at + |s|] + b[at + |s|..at + |s + t|];
  }

  lemma HoldsAppend(b: seq<char>, at: nat, s: string, t: string)
    requires Wrote(b, at, s) && Holds(b, at + |s|, t)
    ensures Holds(b, at, s + t)
  {
    WroteAppend(b, at, s, t);
  }

  lemma WroteCut(b: seq<char>, at: nat, s: string, k: nat)
    requires Wrote(b, at, s) && k <= |s|
    ensures Wrote(b, at, s[..k])
  {
    assert b[at..at + k] == b[at..at + |s|][..k];
  }

  lemma WroteAt(b: seq<char>, at: nat, s: string, i: nat)
    requires Wrote(b, at, s) && i < |s|
    ensures at + i < |b| && b[at + i] == s[i]
  {
    assert b[at..at + |s|][i] == s[i];
  }

  lemma WroteFrame(b: seq<char>, b': seq<char>, at: nat, s: string, lo: nat, hi: nat)
    requires Wrote(b, at, s) && SameOutside(b, b', lo, hi) && at + |s| <= lo
    ensures Wrote(b', at, s)
  {
    assert b'[at..at + |s|] == b[at..at + |s|];
  }

  lemma Widen(a: seq<char>, b: seq<char>, c: seq<char>, lo: nat, hi: nat, lo': nat, hi': nat)
    requires SameOutside(a, b, lo, hi) && SameOutside(b, c, lo', hi') && lo <= lo' && hi' <= hi
    ensures SameOutside(a, c, lo, hi)
  {
  }

  function Min(a: int, b: int): int { if a <= b then a else b }

  /** snprintf(&buffer[at], len, ...) where the arguments expand to `text`. */
  method Snprintf(buffer: array<char>, at: nat, len: nat, text: string) returns (ret: nat)
    requires at + len <= buffer.Length
    modifies buffer
    ensures ret == |text|
    ensures |text| < len ==> Holds(buffer[..], at, text)
    ensures 0 < len <= |text| ==> Holds(buffer[..], at, text[..len - 1])
    ensures SameOutside(old(buffer[..]), buffer[..], at, at + Min(|text| + 1, len))
  {
    assert text[..|text|] == text;
    if len > 0 {
      var n := Min(|text|, len - 1);
      for i := 0 to n
        invariant buffer[at..at + i] == text[..i]
        invariant SameOutside(old(buffer[..]), buffer[..], at, at + i)
      {
        buffer[at + i] := text[i];
        assert buffer[at..at + i + 1] == buffer[at..at + i] + [text[i]];
      }
      buffer[at + n] := '\0';
    }
    return |text|;
  }

  /** snprintf(&buffer[at + offset], len - offset, ...) behind `done`, which was printed before. */
  method AppendPrintf(buffer: array<char>, at: nat, len: nat, offset: nat, text: string, ghost done: string)
    returns (ret: nat)
    requires at + len <= buffer.Length && |done| == offset < len
    requires Wrote(buffer[..], at, done)
    modifies buffer
    ensures ret == |text| && Wrote(buffer[..], at, done)
    ensures ret < len - offset ==> Holds(buffer[..], at, done + text)
    ensures SameOutside(old(buffer[..]), buffer[..], at + offset, at + len)
  {
    hide Wrote;
    ghost var before := buffer[..];
    ret := Snprintf(buffer, at + offset, len - offset, text);
    WroteFrame(before, buffer[..], at, done, at + offset, at + len);
    if ret < len - offset {
      HoldsAppend(buffer[..], at, done, text);
    }
  }

  // ----- decimal numbers, as printed by %llu -----

  function Digit(d: nat): char
    requires d < 10
  {
    "0123456789"[d]
  }

  function Decimal(n: nat): (s: string)
    ensures |s| >= 1
  {
    if n < 10 then [Digit(n)] else Decimal(n / 10) + [Digit(n % 10)]
  }

  function Pow10(k: nat): nat { if k == 0 then 1 else 10 * Pow10(k - 1) }

  lemma {:induction false} DecimalLength(n: nat, k: nat)
    requires k >= 1 && n < Pow10(k)
    ensures |Decimal(n)| <= k
  {
    if n >= 10 {
      DecimalLength(n / 10, k - 1);
    }
  }
}
