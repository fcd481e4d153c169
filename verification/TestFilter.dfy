/** Test name filters: colon-separated glob patterns, with a negative part behind a dash. */
module TestFilter {
  import opened CStrings
  import opened Wrappers

  // ----- the language of a pattern -----

  ghost predicate TokenMatches(c: char, w: string) {
    if c == '*' then true else if c == '?' then |w| == 1 else w == [c]
  }

  /** `s` can be cut into parts, one for each character of the pattern. */
  ghost predicate Denotes(pattern: string, s: string) {
    if pattern == "" then s == ""
    else exists n :: 0 <= n <= |s| && TokenMatches(pattern[0], s[..n]) && Denotes(pattern[1..], s[n..])
  }

  /** Index of the first `c`, or the length. */
  function Find(s: string, c: char): (i: nat)
    ensures i <= |s| && (i < |s| ==> s[i] == c) && forall j :: 0 <= j < i ==> s[j] != c
    ensures i < |s| <==> c in s
  {
    if s == "" || s[0] == c then 0 else 1 + Find(s[1..], c)
  }

  /** A pattern ends at a colon or at the end of the filter. */
  function Piece(filter: string): string { filter[..Find(filter, ':')] }

  function Pieces(filter: string): seq<string>
    decreases |filter|
  {
    var i := Find(filter, ':');
    if i == |filter| then [filter] else [filter[..i]] + Pieces(filter[i + 1..])
  }

  ghost predicate MatchesSome(pieces: seq<string>, name: string) {
    exists i :: 0 <= i < |pieces| && Denotes(pieces[i], name)
  }

  // ----- the matcher -----

  predicate PatternMatchesString(pattern: CString, str: CString)
    decreases |pattern| + |str|
  {
    if pattern == "" || pattern[0] == ':' then str == ""
    else match pattern[0]
      case '?' => str != "" && PatternMatchesString(pattern[1..], str[1..])
      case '*' =>
        (str != "" && PatternMatchesString(pattern, str[1..])) || PatternMatchesString(pattern[1..], str)
      case c => c == At(str, 0) && PatternMatchesString(pattern[1..], str[1..])
  }

  lemma PieceTail(pattern: string)
    requires pattern != "" && pattern[0] != ':'
    ensures Piece(pattern) != "" && Piece(pattern)[0] == pattern[0] && Piece(pattern)[1..] == Piece(pattern[1..])
  {
  }

  lemma OneCharacter(pattern: string, s: string)
    requires pattern != "" && pattern[0] != '*'
    ensures Denotes(pattern, s) <==> s != "" && TokenMatches(pattern[0], s[..1]) && Denotes(pattern[1..], s[1..])
  {
  }

  lemma Skip(pattern: string, s: string, n: nat)
    requires pattern != "" && n <= |s| && TokenMatches(pattern[0], s[..n]) && Denotes(pattern[1..], s[n..])
    ensures Denotes(pattern, s)
  {
  }

  /** A star takes nothing, or one more character. */
  lemma StarStep(pattern: string, s: string)
    requires pattern != "" && pattern[0] == '*'
    ensures Denotes(pattern, s) <==> (s != "" && Denotes(pattern, s[1..])) || Denotes(pattern[1..], s)
  {
    if Denotes(pattern, s) {
      var n :| 0 <= n <= |s| && Denotes(pattern[1..], s[n..]);
      if n == 0 {
        assert s[0..] == s;
      } else {
        assert s[n..] == s[1..][n - 1..];
        Skip(pattern, s[1..], n - 1);
      }
    }
    if s != "" && Denotes(pattern, s[1..]) {
      var n :| 0 <= n <= |s| - 1 && Denotes(pattern[1..], s[1..][n..]);
      assert s[1..][n..] == s[n + 1..];
      Skip(pattern, s, n + 1);
    }
    if Denotes(pattern[1..], s) {
      assert s[0..] == s;
      Skip(pattern, s, 0);
    }
  }

  /** The matcher decides the language of the pattern in front of the first colon. */
  lemma {:induction false} MatcherDecides(pattern: CString, str: CString)
    ensures PatternMatchesString(pattern, str) <==> Denotes(Piece(pattern), str)
    decreases |pattern| + |str|
  {
    if pattern != "" && pattern[0] != ':' {
      var piece := Piece(pattern);
      PieceTail(pattern);
      hide Denotes, Piece;
      if pattern[0] == '*' {
        StarStep(piece, str);
        if str != "" { MatcherDecides(pattern, str[1..]); }
        MatcherDecides(pattern[1..], str);
      } else {
        OneCharacter(piece, str);
        if str != "" { MatcherDecides(pattern[1..], str[1..]); }
      }
    }
  }

  // ----- filters -----

  method Strchr(s: CString, c: char) returns (rest: Option<CString>)
    requires c != '\0'
    ensures rest == if Find(s, c) == |s| then None else Some(s[Find(s, c)..])
  {
    var i := 0;
    while At(s, i) != '\0' && s[i] != c
      invariant i <= |s| && forall j :: 0 <= j < i ==> s[j] != c
      decreases |s| - i
    {
      i := i + 1;
    }
    return if i < |s| then Some(s[i..]) else None;
  }

  method MatchesFilter(name: CString, filter: CString) returns (matched: bool)
    ensures matched <==> MatchesSome(Pieces(filter), name)
  {
    hide PatternMatchesString, Denotes;
    var curPattern: CString := filter;
    while true
      invariant MatchesSome(Pieces(filter), name) <==> MatchesSome(Pieces(curPattern), name)
      decreases |curPattern|
    {
      MatcherDecides(curPattern, name);
      PiecesStep(curPattern, name);
      if PatternMatchesString(curPattern, name) {
        return true;
      }
      var next := Strchr(curPattern, ':');
      if next == None {
        return false;
      }
      curPattern := next.value[1..];
    }
  }

  lemma PiecesStep(filter: string, name: string)
    ensures var i := Find(filter, ':');
      MatchesSome(Pieces(filter), name) <==>
        Denotes(Piece(filter), name) || (i < |filter| && MatchesSome(Pieces(filter[i..][1..]), name))
  {
    hide Denotes;
    var i := Find(filter, ':');
    if i == |filter| {
      assert filter[..i] == filter;
      assert Pieces(filter)[0] == filter;
    } else {
      assert filter[i..][1..] == filter[i + 1..];
      var rest := Pieces(filter[i + 1..]);
      assert Pieces(filter) == [filter[..i]] + rest;
      assert Pieces(filter)[0] == filter[..i];
      assert forall j :: 0 <= j < |rest| ==> Pieces(filter)[j + 1] == rest[j];
      assert forall j :: 1 <= j < |Pieces(filter)| ==> Pieces(filter)[j] == rest[j - 1];
    }
  }

  const UNIVERSAL_FILTER := "*"

  function PositivePart(filter: string): string {
    var dash := Find(filter, '-');
    if dash == |filter| then filter else if dash == 0 then UNIVERSAL_FILTER else filter[..dash]
  }

  function NegativePart(filter: string): string {
    var dash := Find(filter, '-');
    if dash == |filter| then "" else filter[dash + 1..]
  }

  /** `filter` is the value of the filter flag. */
  method FilterMatchesTest(filter: CString, testSuiteName: CString, testName: CString) returns (matched: bool)
    ensures matched <==>
      MatchesSome(Pieces(PositivePart(filter)), testSuiteName + "." + testName)
      && !MatchesSome(Pieces(NegativePart(filter)), testSuiteName + "." + testName)
    ensures '-' !in filter ==> (matched <==> MatchesSome(Pieces(filter), testSuiteName + "." + testName))
    ensures forall p: string, n: string :: '-' !in p && filter == p + "-" + n ==>
      (matched <==>
        MatchesSome(Pieces(if p == "" then "*" else p), testSuiteName + "." + testName)
        && !MatchesSome(Pieces(n), testSuiteName + "." + testName))
  {
    hide MatchesSome, Pieces;
    forall p: string, n: string | '-' !in p && filter == p + "-" + n
      ensures PositivePart(filter) == (if p == "" then "*" else p) && NegativePart(filter) == n
    {
      SplitAtDash(p, n);
    }
    if '-' !in filter {
      NoDash(filter);
      EmptyMatchesNoTest(testSuiteName, testName);
    }
    var fullName := testSuiteName + "." + testName;
    var dash := Strchr(filter, '-');
    var positive, negative: CString := "", "";
    if dash == None {
      positive, negative := filter, "";
    } else {
      positive := filter[..|filter| - |dash.value|];
      negative := dash.value[1..];
      if positive == "" {
        positive := UNIVERSAL_FILTER;
      }
    }
    assert positive == PositivePart(filter) && negative == NegativePart(filter);
    matched := MatchesFilter(fullName, positive);
    if matched {
      var excluded := MatchesFilter(fullName, negative);
      matched := !excluded;
    }
  }

  /** The first dash ends the positive part. */
  lemma SplitAtDash(p: string, n: string)
    requires '-' !in p
    ensures PositivePart(p + "-" + n) == (if p == "" then "*" else p) && NegativePart(p + "-" + n) == n
  {
    var filter := p + "-" + n;
    FindFirst(p, '-', n);
    assert filter == p + ['-'] + n;
    assert filter[..|p|] == p && filter[|p| + 1..] == n;
  }

  lemma FindFirst(p: string, c: char, n: string)
    requires c !in p
    ensures Find(p + [c] + n, c) == |p|
  {
    var s := p + [c] + n;
    assert s[|p|] == c;
    forall j | 0 <= j < |p|
      ensures s[j] != c
    {
      assert s[j] == p[j] && p[j] in p;
    }
  }

  lemma NoDash(filter: string)
    requires '-' !in filter
    ensures PositivePart(filter) == filter && NegativePart(filter) == ""
  {
  }

  function Join(pieces: seq<string>): string {
    if pieces == [] then "" else if |pieces| == 1 then pieces[0] else pieces[0] + ":" + Join(pieces[1..])
  }

  lemma JoinBehindFirst(first: string, rest: seq<string>)
    requires rest != []
    ensures Join([first] + rest) == first + ":" + Join(rest)
  {
    assert ([first] + rest)[1..] == rest;
  }

  /** The pieces are what lies between the colons: there is one list of texts without colons that joins to it. */
  lemma {:induction false} PiecesJoin(filter: string)
    ensures Pieces(filter) != [] && Join(Pieces(filter)) == filter
    ensures forall k :: 0 <= k < |Pieces(filter)| ==> ':' !in Pieces(filter)[k]
    decreases |filter|
  {
    hide Find, Join, Pieces;
    var i := Find(filter, ':');
    FirstPiece(filter);
    if i == |filter| {
      JoinOne(filter);
    } else {
      var first, behind := filter[..i], filter[i + 1..];
      PiecesJoin(behind);
      JoinBehindFirst(first, Pieces(behind));
      assert filter == first + ":" + behind;
      var pieces := [first] + Pieces(behind);
      forall k | 0 <= k < |pieces|
        ensures ':' !in pieces[k]
      {
        if k > 0 { assert pieces[k] == Pieces(behind)[k - 1]; }
      }
    }
  }

  lemma FirstPiece(filter: string)
    ensures var i := Find(filter, ':');
      if i == |filter| then Pieces(filter) == [filter] && ':' !in filter
      else Pieces(filter) == [filter[..i]] + Pieces(filter[i + 1..]) && ':' !in filter[..i]
  {
    hide Find;
    NotBefore(filter, ':', Find(filter, ':'));
  }

  lemma NotBefore(s: string, c: char, i: nat)
    requires i <= |s| && forall j :: 0 <= j < i ==> s[j] != c
    ensures c !in s[..i]
  {
  }

  lemma JoinOne(piece: string)
    ensures Join([piece]) == piece
  {
  }

  lemma {:induction false} PiecesUnique(pieces: seq<string>)
    requires pieces != [] && forall k :: 0 <= k < |pieces| ==> ':' !in pieces[k]
    ensures Pieces(Join(pieces)) == pieces
  {
    if |pieces| == 1 {
      assert Find(pieces[0], ':') == |pieces[0]|;
    } else {
      var rest := Join(pieces[1..]);
      PiecesUnique(pieces[1..]);
      FindFirst(pieces[0], ':', rest);
      var filter := pieces[0] + [':'] + rest;
      assert filter == Join(pieces) && filter[..|pieces[0]|] == pieces[0] && filter[|pieces[0]| + 1..] == rest;
    }
  }

  lemma UniversalMatchesAll(s: string)
    ensures MatchesSome(Pieces(UNIVERSAL_FILTER), s)
  {
    assert "*"[1..] == "" && Find("*", ':') == 1;
    assert Pieces("*") == ["*"];
    Skip("*", s, |s|);
    assert Denotes(Pieces("*")[0], s);
  }

  lemma EmptyMatchesNoTest(suite: string, name: string)
    ensures !MatchesSome(Pieces(""), suite + "." + name)
  {
    assert Pieces("") == [""];
  }

  /** Without a dash only the positive part counts; with a leading dash only the negative one. */
  lemma OneSidedFilters(filter: string, suite: string, name: string)
    ensures Find(filter, '-') == |filter| ==>
      PositivePart(filter) == filter && !MatchesSome(Pieces(NegativePart(filter)), suite + "." + name)
    ensures filter != "" && filter[0] == '-' ==>
      NegativePart(filter) == filter[1..] && MatchesSome(Pieces(PositivePart(filter)), suite + "." + name)
  {
    EmptyMatchesNoTest(suite, name);
    UniversalMatchesAll(suite + "." + name);
  }
}
