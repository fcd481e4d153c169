/** What holds after any sequence of API calls by any threads. */
module LogRuns {
  import opened CStrings
  import opened Escaping
  import opened MdcList
  import opened LogEntry
  import opened JsonReader
  import opened LogRoundTrip
  import opened LogTheorems
  import opened Mdclog
  import opened Wrappers

  datatype Call =
    | SetIdent(attr: nat, id: Option<CString>)
    | Init(with: Option<nat>)
    | Add(thread: ThreadId, key: Option<CString>, value: Option<CString>)
    | Remove(thread: ThreadId, key: Option<CString>)
    | Clean(thread: ThreadId)
    | Get(thread: ThreadId, key: Option<CString>)
    | Log(thread: ThreadId, severity: int, tv: TimeVal, msg: CString)
    | SetLevel(to: int)

  /** The library and the attributes that callers hold. */
  datatype World = World(lib: State, attrs: map<nat, Option<CString>>)

  function IdentityOf(w: World, attr: Option<nat>): Option<CString> {
    match attr
    case None => None
    case Some(a) => if a in w.attrs then w.attrs[a] else None
  }

  ghost function Step(progname: CString, w: World, call: Call): World {
    match call
    case SetIdent(a, id) => w.(attrs := w.attrs[a := SetIdentity(IdentityOf(w, Some(a)), id)])
    case Init(attr) =>
      World(Reinitialized(w.lib, progname, IdentityOf(w, attr)),
            match attr case None => w.attrs case Some(a) => w.attrs[a := None])
    case Add(t, key, value) => w.(lib := Added(w.lib, progname, t, key, value))
    case Remove(t, key) => w.(lib := Removed(w.lib, progname, t, key))
    case Clean(t) => w.(lib := Cleaned(w.lib, progname, t))
    case Get(t, key) => w.(lib := LookedUp(w.lib, progname, t, key))
    case Log(t, severity, tv, msg) => w.(lib := Written(w.lib, progname, t, severity, tv, msg))
    case SetLevel(level) => w.(lib := w.lib.(level := level))
  }

  ghost function Run(progname: CString, calls: seq<Call>): World {
    if calls == [] then World(START, map[])
    else Step(progname, Run(progname, calls[..|calls| - 1]), calls[|calls| - 1])
  }

  // ----- the invariant -----

  /** An identity set through an attribute, or the escaped program name. */
  ghost predicate GoodIdentity(progname: CString, id: CString) {
    Acceptable(id) || id == Escaped(progname)
  }

  ghost predicate GoodList(list: seq<Pair>) { UniqueKeys(list) && AllWellFormed(list) }

  /** Nothing of this identity is cut inside an escape pair. */
  ghost predicate Readable(progname: CString, id: CString) { Acceptable(id) || !CutsPair(progname) }

  /** One line of printable bytes that a single write can take, and JSON exactly if its identity is readable. */
  ghost predicate GoodLine(progname: CString, id: CString, line: string) {
    && line != "" && line[|line| - 1] == '\n' && |line| <= PIPE_BUF
    && AllPrintable(line[..|line| - 1])
    && (ReadDocument(line[..|line| - 1]) != None <==> Readable(progname, id))
  }

  ghost predicate Good(progname: CString, w: World) {
    && (w.lib.initDone ==> w.lib.identity != None)
    && (w.lib.identity != None ==> GoodIdentity(progname, w.lib.identity.value))
    && (forall a :: a in w.attrs && w.attrs[a] != None ==> Acceptable(w.attrs[a].value))
    && (forall t :: t in w.lib.contents ==> GoodList(w.lib.contents[t]))
  }

  lemma PutKeepsGood(list: seq<Pair>, key: CString, value: CString)
    requires GoodList(list) && SpecialFree(key)
    ensures GoodList(PutPair(list, key, Escaped(value)))
  {
    PutRefinesUpdate(list, key, Escaped(value));
    hide SpecialFree, Escaped;
    assert WellFormed(Pair(key, Escaped(value)));
  }

  lemma RemoveKeepsGood(list: seq<Pair>, key: CString)
    requires GoodList(list)
    ensures GoodList(RemoveKey(list, key))
  {
    RemoveKeepsUnique(list, key);
    RemoveLeaves(list, key);
    hide WellFormed, RemoveKey, UniqueKeys;
    var after := RemoveKey(list, key);
    forall n | 0 <= n < |after|
      ensures WellFormed(after[n])
    {
      assert after[n] in list;
    }
  }

  lemma RemoveLeaves(list: seq<Pair>, key: string)
    ensures forall p :: p in RemoveKey(list, key) ==> p in list
  {
    hide IndexOf;
  }

  lemma InitializedGood(progname: CString, w: World)
    requires Good(progname, w)
    ensures var s := Initialized(w.lib, progname, None);
      Good(progname, w.(lib := s)) && s.identity != None && s.contents == w.lib.contents && s.output == w.lib.output
  {
  }

  lemma ShownGoodIdentity(progname: CString, id: CString)
    requires GoodIdentity(progname, id)
    ensures AllPrintable(ShownIdentity(Some(id)))
  {
    if !Acceptable(id) { EscapedPrintable(progname); }
  }

  /** An entry of a good state is one good line. */
  lemma EntryOfGoodState(progname: CString, id: CString, severity: int, tv: TimeVal, list: seq<Pair>, msg: CString)
    requires GoodIdentity(progname, id) && GoodList(list)
    ensures match EntryText(PIPE_BUF - 1, tv, Some(id), severity, list, msg)
      case None => true
      case Some(text) => GoodLine(progname, id, text + "\n")
  {
    hide EntryText, GoodIdentity, ReadDocument, AllPrintable, AllWellFormed, Readable;
    ShownGoodIdentity(progname, id);
    EntryPrintable(PIPE_BUF - 1, tv, Some(id), severity, list, msg);
    EntrySize(PIPE_BUF - 1, tv, Some(id), severity, list, msg);
    EntryReadable(progname, id, severity, tv, list, msg);
    if EntryText(PIPE_BUF - 1, tv, Some(id), severity, list, msg).Some? {
      var text := EntryText(PIPE_BUF - 1, tv, Some(id), severity, list, msg).value;
      assert (text + "\n")[..|text|] == text;
    }
  }

  lemma EntryReadable(progname: CString, id: CString, severity: int, tv: TimeVal, list: seq<Pair>, msg: CString)
    requires GoodIdentity(progname, id) && GoodList(list)
    ensures match EntryText(PIPE_BUF - 1, tv, Some(id), severity, list, msg)
      case None => true
      case Some(text) => ReadDocument(text) != None <==> Readable(progname, id)
  {
    hide EntryText, CutsPair, ReadDocument, AllWellFormed, Escaped;
    if !Acceptable(id) {
      ProgramNameEntry(PIPE_BUF - 1, tv, progname, id, severity, list, msg);
    } else if EntryText(PIPE_BUF - 1, tv, Some(id), severity, list, msg).Some? {
      EntryRoundTrip(PIPE_BUF - 1, tv, Some(id), severity, list, msg);
    }
  }

  lemma StepKeepsGood(progname: CString, w: World, call: Call)
    requires Good(progname, w)
    ensures Good(progname, Step(progname, w, call))
  {
    hide GoodList, Acceptable, EntryText, PutPair, RemoveKey;
    InitializedGood(progname, w);
    match call {
      case SetIdent(a, id) =>
      case Init(attr) =>
      case Add(t, key, value) =>
        EmptyListGood();
        if key != None && value != None && SpecialFree(key.value) {
          PutKeepsGood(PairsFor(w.lib, t), key.value, value.value);
        }
      case Remove(t, key) =>
        EmptyListGood();
        if key != None { RemoveKeepsGood(PairsFor(w.lib, t), key.value); }
      case Clean(t) => EmptyListGood();
      case Get(t, key) => EmptyListGood();
      case Log(t, severity, tv, msg) => EmptyListGood();
      case SetLevel(level) =>
    }
  }

  lemma EmptyListGood()
    ensures GoodList([])
  {
  }

  lemma {:induction false} StateGood(progname: CString, calls: seq<Call>)
    ensures Good(progname, Run(progname, calls))
    decreases |calls|
  {
    if calls != [] {
      hide Good, Step;
      StateGood(progname, calls[..|calls| - 1]);
      StepKeepsGood(progname, Run(progname, calls[..|calls| - 1]), calls[|calls| - 1]);
    } else {
      assert Run(progname, calls) == World(START, map[]);
    }
  }

  // ----- the identity and the level of a run, read off its calls -----

  /** The identity that attribute `a` holds: the one it accepted last, until an initialization takes it. */
  function Offered(calls: seq<Call>, a: nat): Option<CString> {
    if calls == [] then None
    else
      var before := Offered(calls[..|calls| - 1], a);
      match calls[|calls| - 1]
      case SetIdent(b, Some(id)) => if b == a && SpecialFree(id) && |id| <= 100 then Some(id) else before
      case Init(Some(b)) => if b == a then None else before
      case _ => before
  }

  /** The identity of an entry: from the attribute of the last initialization, else the escaped program name. */
  function IdentityAfter(progname: CString, calls: seq<Call>): CString {
    EscapedIsCString(progname);
    if calls == [] then Escaped(progname)
    else
      var before := calls[..|calls| - 1];
      match calls[|calls| - 1]
      case Init(None) => Escaped(progname)
      case Init(Some(a)) => (match Offered(before, a) case Some(id) => id case None => Escaped(progname))
      case _ => IdentityAfter(progname, before)
  }

  /** The level set last; at first only errors are logged. */
  function LevelAfter(calls: seq<Call>): int {
    if calls == [] then 1
    else
      match calls[|calls| - 1]
      case SetLevel(to) => to
      case _ => LevelAfter(calls[..|calls| - 1])
  }

  /** The identity that an entry written now has. */
  function InForce(progname: CString, w: World): Option<CString> { Initialized(w.lib, progname, None).identity }

  lemma StepOnIdentity(progname: CString, w: World, calls: seq<Call>, call: Call)
    requires InForce(progname, w) == Some(IdentityAfter(progname, calls)) && w.lib.level == LevelAfter(calls)
    requires forall a: nat :: IdentityOf(w, Some(a)) == Offered(calls, a)
    ensures var after := Step(progname, w, call);
      && InForce(progname, after) == Some(IdentityAfter(progname, calls + [call]))
      && after.lib.level == LevelAfter(calls + [call])
      && forall a: nat :: IdentityOf(after, Some(a)) == Offered(calls + [call], a)
  {
    hide SpecialFree, Escaped, EntryText, PutPair, RemoveKey;
    assert (calls + [call])[..|calls|] == calls;
  }

  /** What the library uses as identity and level is what the calls so far ask for. */
  lemma {:induction false} RunIdentity(progname: CString, calls: seq<Call>)
    ensures InForce(progname, Run(progname, calls)) == Some(IdentityAfter(progname, calls))
    ensures Run(progname, calls).lib.level == LevelAfter(calls)
    ensures forall a: nat :: IdentityOf(Run(progname, calls), Some(a)) == Offered(calls, a)
    decreases |calls|
  {
    if calls == [] {
      assert Run(progname, calls) == World(START, map[]);
    } else {
      var before, last := calls[..|calls| - 1], calls[|calls| - 1];
      RunIdentity(progname, before);
      hide Step, InForce;
      StepOnIdentity(progname, Run(progname, before), before, last);
      assert before + [last] == calls;
    }
  }

  lemma {:induction false} IdentityStays(progname: CString, calls: seq<Call>, rest: seq<Call>)
    requires forall c :: c in rest ==> !c.Init?
    ensures IdentityAfter(progname, calls + rest) == IdentityAfter(progname, calls)
    decreases |rest|
  {
    if rest == [] {
      assert calls + rest == calls;
    } else {
      var n := |rest| - 1;
      assert (calls + rest)[..|calls + rest| - 1] == calls + rest[..n];
      IdentityStays(progname, calls, rest[..n]);
    }
  }

  /** An accepted identity, once the library is initialized with it, stays until the next initialization. */
  lemma UserIdentityStays(progname: CString, calls: seq<Call>, a: nat, id: CString, rest: seq<Call>)
    requires SpecialFree(id) && |id| <= 100 && forall c :: c in rest ==> !c.Init?
    ensures InForce(progname, Run(progname, calls + [SetIdent(a, Some(id)), Init(Some(a))] + rest)) == Some(id)
  {
    hide SpecialFree, Escaped, InForce, Run;
    var offer, init := calls + [SetIdent(a, Some(id))], calls + [SetIdent(a, Some(id)), Init(Some(a))];
    assert offer[..|calls|] == calls && init[..|offer|] == offer;
    IdentityStays(progname, init, rest);
    RunIdentity(progname, init + rest);
  }

  /** Without an initialization, or after one with no identity to take, it is the escaped program name. */
  lemma DefaultIdentityStays(progname: CString, calls: seq<Call>, attr: Option<nat>, rest: seq<Call>)
    requires attr == None || Offered(calls, attr.value) == None
    requires forall c :: c in rest ==> !c.Init?
    ensures InForce(progname, Run(progname, rest)) == Some(Escaped(progname))
    ensures InForce(progname, Run(progname, calls + [Init(attr)] + rest)) == Some(Escaped(progname))
  {
    hide Escaped, InForce, Run;
    assert (calls + [Init(attr)])[..|calls|] == calls;
    IdentityStays(progname, calls + [Init(attr)], rest);
    RunIdentity(progname, calls + [Init(attr)] + rest);
    assert [] + rest == rest;
    IdentityStays(progname, [], rest);
    RunIdentity(progname, rest);
  }

  // ----- the lines of a run -----

  /** Only log calls write, one line each, and it is a good one. */
  lemma StepWrites(progname: CString, w: World, call: Call)
    requires Good(progname, w)
    ensures InForce(progname, w) != None
    ensures var before, after := w.lib.output, Step(progname, w, call).lib.output;
      after == before
      || (call.Log? && |after| == |before| + 1 && after[..|before|] == before
          && GoodLine(progname, InForce(progname, w).value, after[|before|]))
  {
    hide Acceptable, EntryText, PutPair, RemoveKey, GoodLine, GoodList, GoodIdentity, SpecialFree, Escaped;
    InitializedGood(progname, w);
    if call.Log? {
      var id, t := InForce(progname, w).value, call.thread;
      EmptyListGood();
      EntryOfGoodState(progname, id, call.severity, call.tv, PairsFor(w.lib, t), call.msg);
    }
  }

  /** Line `i` was written by call `j`, and is good for the identity that was in force then. */
  ghost predicate LineOfCall(progname: CString, calls: seq<Call>, i: nat, j: nat) {
    && j < |calls| && calls[j].Log? && i < |Run(progname, calls).lib.output|
    && |Run(progname, calls[..j]).lib.output| == i
    && GoodLine(progname, IdentityAfter(progname, calls[..j]), Run(progname, calls).lib.output[i])
  }

  ghost predicate LineIsGood(progname: CString, calls: seq<Call>, i: nat) {
    exists j: nat :: LineOfCall(progname, calls, i, j)
  }

  /** In every reachable state: keys unique and free of special characters, values escaped, identities
      acceptable, and every line written so far is one good line of some log call. */
  lemma {:induction false} RunGood(progname: CString, calls: seq<Call>)
    ensures Good(progname, Run(progname, calls))
    ensures forall i: nat :: i < |Run(progname, calls).lib.output| ==> LineIsGood(progname, calls, i)
    decreases |calls|
  {
    StateGood(progname, calls);
    if calls == [] {
      assert Run(progname, calls) == World(START, map[]);
    } else {
      var n := |calls| - 1;
      var before, call := calls[..n], calls[n];
      RunGood(progname, before);
      hide Good, Step, GoodLine, InForce, IdentityAfter;
      RunIdentity(progname, before);
      StepWrites(progname, Run(progname, before), call);
      forall i: nat | i < |Run(progname, calls).lib.output|
        ensures LineIsGood(progname, calls, i)
      {
        LineStays(progname, calls, i);
      }
    }
  }

  lemma LineStays(progname: CString, calls: seq<Call>, i: nat)
    requires calls != [] && i < |Run(progname, calls).lib.output|
    requires var before := Run(progname, calls[..|calls| - 1]);
      && (i < |before.lib.output| ==> LineIsGood(progname, calls[..|calls| - 1], i))
      && (Run(progname, calls).lib.output == before.lib.output
          || (calls[|calls| - 1].Log?
              && |Run(progname, calls).lib.output| == |before.lib.output| + 1
              && Run(progname, calls).lib.output[..|before.lib.output|] == before.lib.output
              && GoodLine(progname, IdentityAfter(progname, calls[..|calls| - 1]),
                          Run(progname, calls).lib.output[|before.lib.output|])))
    ensures LineIsGood(progname, calls, i)
  {
    hide Run, GoodLine, IdentityAfter;
    var n := |calls| - 1;
    var before, after := Run(progname, calls[..n]).lib.output, Run(progname, calls).lib.output;
    if i < |before| {
      var j: nat :| LineOfCall(progname, calls[..n], i, j);
      assert calls[..n][..j] == calls[..j];
      assert after[i] == before[i];
      assert LineOfCall(progname, calls, i, j);
    } else {
      assert LineOfCall(progname, calls, i, n);
    }
  }

  // ----- what a log call writes -----

  /** The identity as it reads in an entry: whole if an attribute accepted it, else what is shown of
      the program name. */
  ghost function NameShown(progname: CString, id: CString): string {
    if Acceptable(id) then id else Sanitized(progname[..Fitting(progname, IDENTITY_MAX_LENGTH)])
  }

  /** The line reads back as exactly this call: time, identity, severity, the pairs that fit, and the message. */
  ghost predicate LineTells(progname: CString, line: string, tv: TimeVal, id: CString, severity: int, list: seq<Pair>,
                            msg: CString)
  {
    var len := PIPE_BUF - 1;
    && line != "" && line[|line| - 1] == '\n'
    && Room(len, HeadFields(len, tv, Some(id), severity)) > 8
    && MessageRoom(len, tv, Some(id), severity, list) >= 20
    && ReadsBack(line[..|line| - 1], tv, NameShown(progname, id), severity,
                 ShownPairs(len, tv, Some(id), severity, list), MessageShown(len, tv, Some(id), severity, list, msg))
  }

  /** The MDC takes up its room in the entry to the last byte. */
  predicate MdcFills(id: CString, severity: int, tv: TimeVal, list: seq<Pair>) {
    var room := Room(PIPE_BUF - 1, HeadFields(PIPE_BUF - 1, tv, Some(id), severity));
    room >= 0 && |MdcText(list, room)| == room - 1
  }

  /** Whatever happened before, a log call writes one line that tells what was logged, or is not JSON
      for a program name cut inside an escape pair; or it writes nothing, and that exactly for a severity
      above the level or a full MDC. */
  lemma LogCallTells(progname: CString, calls: seq<Call>, t: ThreadId, severity: int, tv: TimeVal, msg: CString)
    ensures var before, after := Run(progname, calls).lib, Run(progname, calls + [Log(t, severity, tv, msg)]).lib;
      var id := IdentityAfter(progname, calls);
      after.output == before.output
      || (|after.output| == |before.output| + 1 && after.output[..|before.output|] == before.output
          && GoodLine(progname, id, after.output[|before.output|])
          && (Readable(progname, id) ==>
                LineTells(progname, after.output[|before.output|], tv, id, severity, PairsFor(before, t), msg)))
    ensures var before, after := Run(progname, calls).lib, Run(progname, calls + [Log(t, severity, tv, msg)]).lib;
      after.output == before.output <==>
        severity > LevelAfter(calls) || MdcFills(IdentityAfter(progname, calls), severity, tv, PairsFor(before, t))
  {
    hide MdcText, HeadFields, Room, Good, EntryText, Readable, LineTells, PairsFor, GoodLine, Initialized,
      IdentityAfter;
    RunIdentity(progname, calls);
    var call := Log(t, severity, tv, msg);
    assert (calls + [call])[..|calls|] == calls;
    StateGood(progname, calls);
    var w := Run(progname, calls);
    InitializedGood(progname, w);
    GoodState(progname, w.(lib := Initialized(w.lib, progname, None)), t);
    var id, list := Initialized(w.lib, progname, None).identity.value, PairsFor(w.lib, t);
    PairsKept(w.lib, progname, t);
    EntryLostIffMdcFull(PIPE_BUF - 1, tv, Some(id), severity, list, msg);
    EntryOfGoodState(progname, id, severity, tv, list, msg);
    if EntryText(PIPE_BUF - 1, tv, Some(id), severity, list, msg).Some? && Readable(progname, id) {
      EntryTells(progname, id, severity, tv, list, msg);
    }
  }

  lemma GoodState(progname: CString, w: World, t: ThreadId)
    requires Good(progname, w) && w.lib.identity != None
    ensures GoodIdentity(progname, w.lib.identity.value) && GoodList(PairsFor(w.lib, t))
  {
  }

  lemma PairsKept(s: State, progname: CString, t: ThreadId)
    ensures PairsFor(Initialized(s, progname, None), t) == PairsFor(s, t)
  {
  }

  lemma EntryTells(progname: CString, id: CString, severity: int, tv: TimeVal, list: seq<Pair>, msg: CString)
    requires GoodIdentity(progname, id) && GoodList(list) && Readable(progname, id)
    requires EntryText(PIPE_BUF - 1, tv, Some(id), severity, list, msg).Some?
    ensures LineTells(progname, EntryText(PIPE_BUF - 1, tv, Some(id), severity, list, msg).value + "\n",
                      tv, id, severity, list, msg)
  {
    hide EntryText, CutsPair, ReadsBack, AllWellFormed, FieldReads, HeadFields, ReadDocument, ShownPairs, MessageShown,
      MessageRoom, Fitting, Sanitized, Acceptable;
    var len := PIPE_BUF - 1;
    var line := EntryText(len, tv, Some(id), severity, list, msg).value + "\n";
    assert line[..|line| - 1] == EntryText(len, tv, Some(id), severity, list, msg).value;
    if Acceptable(id) {
      ShownWhole(id);
      EntryRoundTrip(len, tv, Some(id), severity, list, msg);
    } else {
      ProgramNameEntry(len, tv, progname, id, severity, list, msg);
      EntryReadsWith(len, tv, Some(id), severity, list, msg, NameShown(progname, id));
    }
  }

  lemma ShownWhole(id: CString)
    requires Acceptable(id)
    ensures ShownIdentity(Some(id)) == id && SpecialFree(id)
  {
  }

  // ----- threads -----

  /** The calls by which a thread can change or look at its own list. */
  predicate IsOwn(call: Call, t: ThreadId) {
    (call.Add? || call.Remove? || call.Clean? || call.Get? || call.Log?) && call.thread == t
  }

  function Own(calls: seq<Call>, t: ThreadId): seq<Call> {
    if calls == [] then []
    else
      var rest := Own(calls[..|calls| - 1], t);
      if IsOwn(calls[|calls| - 1], t) then rest + [calls[|calls| - 1]] else rest
  }

  /** What a call does to the list of a thread. */
  function ListStep(list: seq<Pair>, call: Call, t: ThreadId): seq<Pair> {
    match call
    case Add(u, key, value) =>
      if u == t && key != None && value != None && SpecialFree(key.value)
      then PutPair(list, key.value, Escaped(value.value))
      else list
    case Remove(u, key) => if u == t && key != None then RemoveKey(list, key.value) else list
    case Clean(u) => if u == t then [] else list
    case _ => list
  }

  lemma StepOnList(progname: CString, w: World, call: Call, t: ThreadId)
    ensures PairsFor(Step(progname, w, call).lib, t) == ListStep(PairsFor(w.lib, t), call, t)
    ensures !IsOwn(call, t) ==> PairsFor(Step(progname, w, call).lib, t) == PairsFor(w.lib, t)
  {
    hide PutPair, RemoveKey, EntryText, Escaped, SpecialFree, Initialized;
    InitKeepsLists(w.lib, progname, None);
    if call.Init? {
      InitKeepsLists(w.lib.(initDone := false), progname, IdentityOf(w, call.with));
    }
  }

  lemma InitKeepsLists(s: State, progname: CString, attr: Option<CString>)
    ensures Initialized(s, progname, attr).contents == s.contents
  {
  }

  /** A thread's list depends on its own calls alone, whatever others do in between. */
  lemma {:induction false} ThreadsAreIsolated(progname: CString, calls: seq<Call>, t: ThreadId)
    ensures PairsFor(Run(progname, calls).lib, t) == PairsFor(Run(progname, Own(calls, t)).lib, t)
    decreases |calls|
  {
    if calls != [] {
      var before, last := calls[..|calls| - 1], calls[|calls| - 1];
      ThreadsAreIsolated(progname, before, t);
      hide Step, PairsFor, ListStep;
      StepOnList(progname, Run(progname, before), last, t);
      StepOnList(progname, Run(progname, Own(before, t)), last, t);
      if IsOwn(last, t) {
        assert Own(calls, t)[..|Own(calls, t)| - 1] == Own(before, t);
      }
    }
  }

  // ----- the MDC as a map -----

  /** What a call should do to the MDC of a thread: a map from keys to escaped values. */
  function MapStep(m: map<string, string>, call: Call, t: ThreadId): map<string, string> {
    match call
    case Add(u, key, value) =>
      if u == t && key != None && value != None && SpecialFree(key.value)
      then m[key.value := Escaped(value.value)]
      else m
    case Remove(u, key) => if u == t && key != None then m - {key.value} else m
    case Clean(u) => if u == t then map[] else m
    case _ => m
  }

  function MapAfter(calls: seq<Call>, t: ThreadId): map<string, string> {
    if calls == [] then map[] else MapStep(MapAfter(calls[..|calls| - 1], t), calls[|calls| - 1], t)
  }

  /** What a get finds is what the calls so far left there, escaped. */
  lemma RunLookup(progname: CString, calls: seq<Call>, t: ThreadId, key: string)
    ensures var m := MapAfter(calls, t);
      Lookup(PairsFor(Run(progname, calls).lib, t), key) == if key in m then Some(m[key]) else None
  {
    RunRefinesMap(progname, calls, t);
    AsMapLookup(PairsFor(Run(progname, calls).lib, t), key);
    hide Run, MapAfter, PairsFor, Lookup, AsMap;
  }

  /** The keys of a thread's MDC in order: a new key in front, the others where they were. */
  function KeysAfter(calls: seq<Call>, t: ThreadId): seq<string> {
    if calls == [] then []
    else
      var before := KeysAfter(calls[..|calls| - 1], t);
      match calls[|calls| - 1]
      case Add(u, Some(key), Some(_)) => if u == t && SpecialFree(key) && key !in before then [key] + before else before
      case Remove(u, Some(key)) => if u == t then Without(before, key) else before
      case Clean(u) => if u == t then [] else before
      case _ => before
  }

  function Without(keys: seq<string>, key: string): seq<string> {
    if keys == [] then [] else (if keys[0] == key then [] else [keys[0]]) + Without(keys[1..], key)
  }

  function Keys(list: seq<Pair>): (keys: seq<string>)
    ensures |keys| == |list| && forall i :: 0 <= i < |list| ==> keys[i] == list[i].key
  {
    seq(|list|, i requires 0 <= i < |list| => list[i].key)
  }

  lemma {:induction false} WithoutAbsent(keys: seq<string>, key: string)
    requires key !in keys
    ensures Without(keys, key) == keys
  {
    if keys != [] { WithoutAbsent(keys[1..], key); }
  }

  lemma IndexBehindFirst(list: seq<Pair>, key: string)
    requires list != []
    ensures IndexOf(list, key) == if list[0].key == key then 0 else 1 + IndexOf(list[1..], key)
  {
  }

  lemma RemoveBehindFirst(list: seq<Pair>, key: string)
    requires list != []
    ensures RemoveKey(list, key) == if list[0].key == key then list[1..] else [list[0]] + RemoveKey(list[1..], key)
  {
    hide IndexOf;
    var j, first, rest := IndexOf(list[1..], key), list[0], list[1..];
    IndexBehindFirst(list, key);
    assert list == [first] + rest;
    if first.key == key {
      assert list[..0] + list[1..] == rest;
    } else if j < |rest| {
      RemoveAt(first, rest, j);
    }
  }

  lemma RemoveAt(first: Pair, rest: seq<Pair>, j: nat)
    requires j < |rest|
    ensures ([first] + rest)[..j + 1] + ([first] + rest)[j + 2..] == [first] + (rest[..j] + rest[j + 1..])
  {
    assert ([first] + rest)[..j + 1] == [first] + rest[..j];
    assert ([first] + rest)[j + 2..] == rest[j + 1..];
  }

  lemma KeysBehindFirst(first: Pair, rest: seq<Pair>)
    ensures Keys([first] + rest) == [first.key] + Keys(rest)
  {
  }

  lemma {:induction false} RemoveFromKeys(list: seq<Pair>, key: string)
    requires UniqueKeys(list)
    ensures Keys(RemoveKey(list, key)) == Without(Keys(list), key)
  {
    if list != [] {
      var first, rest := list[0], list[1..];
      RemoveBehindFirst(list, key);
      hide RemoveKey;
      KeysBehindFirst(first, rest);
      assert [first] + rest == list && Keys(list)[1..] == Keys(rest);
      if first.key == key {
        WithoutAbsent(Keys(rest), key);
      } else {
        RemoveFromKeys(rest, key);
        KeysBehindFirst(first, RemoveKey(rest, key));
      }
    }
  }

  lemma PutInKeys(list: seq<Pair>, key: string, value: string)
    ensures Keys(PutPair(list, key, value)) == if key in Keys(list) then Keys(list) else [key] + Keys(list)
  {
    var i := IndexOf(list, key);
    if i < |list| {
      assert Keys(list)[i] == key;
    }
  }

  /** Together with the map, this fixes the whole list. */
  lemma {:induction false} RunOrdersKeys(progname: CString, calls: seq<Call>, t: ThreadId)
    ensures Keys(PairsFor(Run(progname, calls).lib, t)) == KeysAfter(calls, t)
    decreases |calls|
  {
    if calls != [] {
      hide Step, PairsFor, PutPair, RemoveKey, SpecialFree, Escaped, Keys, Without;
      var before, last := calls[..|calls| - 1], calls[|calls| - 1];
      var list := PairsFor(Run(progname, before).lib, t);
      RunOrdersKeys(progname, before, t);
      RunRefinesMap(progname, before, t);
      StepOnList(progname, Run(progname, before), last, t);
      NoKeys();
      match last
      case Add(u, Some(key), Some(value)) => PutInKeys(list, key, Escaped(value));
      case Remove(u, Some(key)) => RemoveFromKeys(list, key);
      case _ =>
    } else {
      assert Run(progname, calls) == World(START, map[]);
    }
  }

  lemma NoKeys()
    ensures Keys([]) == []
  {
  }

  lemma NoPairs()
    ensures UniqueKeys([]) && AsMap([]) == map[]
  {
  }

  lemma StepRefinesMap(progname: CString, w: World, call: Call, t: ThreadId)
    requires UniqueKeys(PairsFor(w.lib, t))
    ensures var after := PairsFor(Step(progname, w, call).lib, t);
      UniqueKeys(after) && AsMap(after) == MapStep(AsMap(PairsFor(w.lib, t)), call, t)
  {
    hide PutPair, RemoveKey, EntryText, Escaped, UniqueKeys, AsMap, SpecialFree, Step, PairsFor;
    var list := PairsFor(w.lib, t);
    StepOnList(progname, w, call, t);
    NoPairs();
    match call
    case Add(u, key, value) =>
      if u == t && key != None && value != None { PutRefinesUpdate(list, key.value, Escaped(value.value)); }
    case Remove(u, key) =>
      if u == t && key != None { RemoveRefinesDeletion(list, key.value); }
    case _ =>
  }

  /** The linked lists refine maps, over every run. */
  lemma {:induction false} RunRefinesMap(progname: CString, calls: seq<Call>, t: ThreadId)
    ensures UniqueKeys(PairsFor(Run(progname, calls).lib, t))
    ensures AsMap(PairsFor(Run(progname, calls).lib, t)) == MapAfter(calls, t)
    decreases |calls|
  {
    if calls == [] {
      NoPairs();
    } else {
      hide Step, MapStep, PairsFor;
      RunRefinesMap(progname, calls[..|calls| - 1], t);
      StepRefinesMap(progname, Run(progname, calls[..|calls| - 1]), calls[|calls| - 1], t);
    }
  }
}
