/** The logging API over per-thread MDC lists. */
module Mdclog {
  import opened CStrings
  import opened Escaping
  import opened MdcList
  import opened LogEntry
  import opened Wrappers
  import LogFormat

  const PIPE_BUF := 4096

  type ThreadId = nat

  // ----- the calls, on values -----

  /** What the library keeps, and the lines it has written. */
  datatype State = State(initDone: bool, identity: Option<CString>, level: int,
                         contents: map<ThreadId, seq<Pair>>, output: seq<string>)

  const START := State(false, None, 1, map[], [])

  function PairsFor(s: State, t: ThreadId): seq<Pair> {
    if t in s.contents then s.contents[t] else []
  }

  function WithPairs(s: State, t: ThreadId, list: seq<Pair>): State { s.(contents := s.contents[t := list]) }

  /** Asking for the list of a thread creates it. */
  function WithList(s: State, t: ThreadId): State { WithPairs(s, t, PairsFor(s, t)) }

  /** An identity that an attribute accepts. */
  predicate Acceptable(id: string) { SpecialFree(id) && |id| <= IDENTITY_MAX_LENGTH }

  /** The attribute's identity after a call to set it. */
  function SetIdentity(current: Option<CString>, identity: Option<CString>): Option<CString> {
    match identity
    case None => current
    case Some(id) => if Acceptable(id) then identity else current
  }

  lemma EscapedIsCString(s: CString)
    ensures '\0' !in Escaped(s)
  {
    EscapedPrintable(s);
  }

  function DefaultIdentity(progname: CString): (id: CString) {
    EscapedIsCString(progname);
    Escaped(progname)
  }

  /** Lazy initialization takes the attribute's identity, or else the escaped program name. */
  function Initialized(s: State, progname: CString, attr: Option<CString>): State {
    if s.initDone then s
    else s.(initDone := true, identity := if attr == None then Some(DefaultIdentity(progname)) else attr)
  }

  function Reinitialized(s: State, progname: CString, attr: Option<CString>): State {
    Initialized(s.(initDone := false), progname, attr)
  }

  function Added(s: State, progname: CString, t: ThreadId, key: Option<CString>, value: Option<CString>): State {
    if key == None || value == None || !SpecialFree(key.value) then s
    else WithPairs(Initialized(s, progname, None), t, PutPair(PairsFor(s, t), key.value, Escaped(value.value)))
  }

  function Removed(s: State, progname: CString, t: ThreadId, key: Option<CString>): State {
    if key == None then s
    else WithPairs(Initialized(s, progname, None), t, RemoveKey(PairsFor(s, t), key.value))
  }

  function Cleaned(s: State, progname: CString, t: ThreadId): State {
    WithPairs(Initialized(s, progname, None), t, [])
  }

  function LookedUp(s: State, progname: CString, t: ThreadId, key: Option<CString>): State {
    if key == None then s else WithList(Initialized(s, progname, None), t)
  }

  ghost function Written(s: State, progname: CString, t: ThreadId, severity: int, tv: TimeVal, msg: CString): State {
    if severity > s.level then s
    else
      var s1 := WithList(Initialized(s, progname, None), t);
      match EntryText(PIPE_BUF - 1, tv, s1.identity, severity, PairsFor(s, t), msg)
      case None => s1
      case Some(text) => s1.(output := s1.output + [text + "\n"])
  }

  /** What a get returns after an add is what was added exactly if that needs no escaping. */
  lemma GetAfterAdd(s: State, progname: CString, t: ThreadId, key: CString, value: CString)
    requires SpecialFree(key)
    ensures var got := Lookup(PairsFor(Added(s, progname, t, Some(key), Some(value)), t), key);
      got == Some(Escaped(value)) && (got == Some(value) <==> SpecialFree(value))
  {
    PutLookup(PairsFor(s, t), key, Escaped(value), key);
    EscapedFixedIffSpecialFree(value);
    hide PutPair, Escaped, SpecialFree;
  }

  // ----- the library -----

  class Attr {
    var identity: Option<CString>

    constructor ()
      ensures identity == None
    {
      identity := None;
    }

    method SetIdent(identity: Option<CString>) returns (result: int)
      modifies this
      ensures this.identity == SetIdentity(old(this.identity), identity)
      ensures result == 0 <==> identity != None && Acceptable(identity.value)
      ensures result == 0 || result == -1
    {
      if identity == None {
        return -1;
      }
      var special := ContainsSpecialCharacters(identity.value);
      if special || |identity.value| > IDENTITY_MAX_LENGTH {
        return -1;
      }
      this.identity := identity;
      return 0;
    }
  }

  class Library {
    const progname: CString
    var initDone: bool
    var identity: Option<CString>
    var level: int
    var lists: map<ThreadId, List>  // thread-specific data
    var output: seq<string>         // what was written to standard output

    constructor (progname: CString)
      ensures Valid() && Abstract() == START && this.progname == progname && lists == map[]
    {
      this.progname := progname;
      initDone, identity, level := false, None, 1;
      lists, output := map[], [];
    }

    ghost function Lists(): set<List>
      reads this
    {
      set t | t in lists :: lists[t]
    }

    ghost function Nodes(): set<Node>
      reads this, Lists()
    {
      set t, n | t in lists && n in lists[t].NodeSet() :: n
    }

    /** Each thread has a proper list of its own. */
    ghost predicate Valid()
      reads this, Lists(), Nodes()
    {
      && (forall t :: t in lists ==>
           assert lists[t] in Lists() && forall n :: n in lists[t].NodeSet() ==> n in Nodes();
           lists[t].Valid())
      && (forall t, u :: t in lists && u in lists && t != u ==> lists[t] != lists[u])
    }

    ghost function Abstract(): State
      reads this, Lists()
    {
      State(initDone, identity, level, map t | t in lists :: lists[t].contents, output)
    }

    /** The objects that hold the data of thread `t`. */
    ghost function ListOf(t: ThreadId): set<object>
      reads this, Lists()
    {
      if t in lists then {lists[t]} + lists[t].NodeSet() else {}
    }

    method InitLibrary(attr: Attr?)
      modifies this`initDone, this`identity, if attr == null then {} else {attr}
      ensures Abstract() == Initialized(old(Abstract()), progname, if attr == null then None else old(attr.identity))
      ensures attr != null ==> attr.identity == if old(initDone) then old(attr.identity) else None
    {
      if initDone {
        return;
      }
      identity := None;
      if attr != null && attr.identity != None {
        identity := attr.identity;
        attr.identity := None;
      } else {
        var special := ContainsSpecialCharacters(progname);
        if special {
          var escaped := EscapeAndCopy(progname);
          identity := Some(escaped);
        } else {
          identity := Some(progname);
        }
      }
      initDone := true;
    }

    method Init(attr: Attr?)
      modifies this`initDone, this`identity, if attr == null then {} else {attr}
      ensures Abstract() == Reinitialized(old(Abstract()), progname, if attr == null then None else old(attr.identity))
      ensures attr != null ==> attr.identity == None
    {
      initDone := false;
      InitLibrary(attr);
    }

    /** Initialization touches no list. */
    method LazyInit()
      requires Valid()
      modifies this`initDone, this`identity
      ensures Valid() && lists == old(lists) && Abstract() == Initialized(old(Abstract()), progname, None)
    {
      hide List.Valid, Initialized;
      InitLibrary(null);
      forall u | u in lists ensures lists[u].Valid() {
        ListKept(lists[u]);
      }
    }

    /** mdclog_level_set */
    method SetLevel(to: int)
      requires Valid()
      modifies this`level
      ensures Valid() && Abstract() == old(Abstract()).(level := to)
    {
      hide List.Valid;
      level := to;
      forall u | u in lists ensures lists[u].Valid() {
        ListKept(lists[u]);
      }
    }

    /** The list of thread `t`, created when it is first asked for. */
    method GetList(t: ThreadId) returns (list: List)
      requires Valid()
      modifies this`lists
      ensures Valid() && t in lists && list == lists[t]
      ensures Abstract() == WithList(old(Abstract()), t)
      ensures t in old(lists) ==> lists == old(lists)
      ensures t !in old(lists) ==> fresh(list) && list.nodes == []
    {
      hide List.Valid;
      if t in lists {
        list := lists[t];
        assert Abstract().contents[t := PairsFor(Abstract(), t)] == Abstract().contents;
      } else {
        list := new List();
        label created:
        lists := lists[t := list];
        forall u | u in old(lists) ensures lists[u].Valid() && lists[u].contents == old(lists[u].contents) {
          ListKept(old(lists)[u]);
        }
        ListKept@created(list);
      }
    }

    static twostate lemma ListKept(list: List)
      requires old(list.Valid()) && unchanged(list) && unchanged(list.NodeSet())
      ensures list.Valid() && list.contents == old(list.contents)
    {
    }

    twostate lemma AllKept()
      requires old(Valid()) && lists == old(lists) && unchanged(Lists()) && unchanged(Nodes())
      ensures Valid() && Abstract().contents == old(Abstract().contents)
    {
      hide List.Valid;
      forall u | u in lists ensures lists[u].Valid() && lists[u].contents == old(lists[u].contents) {
        assert lists[u] in Lists() && forall n :: n in lists[u].NodeSet() ==> n in Nodes();
        ListKept(lists[u]);
      }
    }

    /** The lists of different threads share no node. */
    lemma OwnNodes(t: ThreadId)
      requires Valid() && t in lists
      ensures forall u :: u in lists && u != t ==> forall n :: n in lists[u].NodeSet() ==> n !in lists[t].NodeSet()
    {
      hide Chain, Hold, First;
      assert lists[t].Valid();
      forall u | u in lists && u != t ensures forall n :: n in lists[u].NodeSet() ==> n !in lists[t].NodeSet() {
        assert lists[u].Valid();
      }
    }

    method PutMdc(t: ThreadId, key: CString, value: CString)
      requires Valid() && t in lists
      modifies lists[t], lists[t].NodeSet()
      ensures Valid()
      ensures Abstract() == WithPairs(old(Abstract()), t, PutPair(old(lists[t].contents), key, Escaped(value)))
    {
      hide PutPair, Escaped, List.Valid;
      OwnNodes(t);
      lists[t].Put(key, value);
      forall u | u in lists && u != t ensures lists[u].Valid() && lists[u].contents == old(lists[u].contents) {
        ListKept(lists[u]);
      }
    }

    method RmMdc(t: ThreadId, key: CString)
      requires Valid() && t in lists
      modifies lists[t], lists[t].NodeSet()
      ensures Valid() && Abstract() == WithPairs(old(Abstract()), t, RemoveKey(old(lists[t].contents), key))
    {
      hide RemoveKey, List.Valid;
      OwnNodes(t);
      lists[t].Remove(key);
      forall u | u in lists && u != t ensures lists[u].Valid() && lists[u].contents == old(lists[u].contents) {
        ListKept(lists[u]);
      }
    }

    method CleanMdcList(t: ThreadId)
      requires Valid() && t in lists
      modifies lists[t], lists[t].NodeSet()
      ensures Valid() && Abstract() == WithPairs(old(Abstract()), t, [])
      ensures forall n :: n in old(lists[t].nodes) ==> n.freed
    {
      hide List.Valid;
      OwnNodes(t);
      lists[t].Empty();
      forall u | u in lists && u != t ensures lists[u].Valid() && lists[u].contents == old(lists[u].contents) {
        ListKept(lists[u]);
      }
    }

    /** Every call on the MDC starts like this. */
    method Prepare(t: ThreadId)
      requires Valid()
      modifies this`initDone, this`identity, this`lists
      ensures Valid() && t in lists && Abstract() == WithList(Initialized(old(Abstract()), progname, None), t)
      ensures if t in old(lists) then lists[t] == old(lists[t]) && lists[t].nodes == old(lists[t].nodes)
        else fresh(lists[t]) && lists[t].nodes == []
    {
      hide List.Valid, Initialized;
      LazyInit();
      var list := GetList(t);
    }

    /** mdclog_mdc_add: -1 without a key or value, or if the key has special characters. */
    method MdcAdd(t: ThreadId, key: Option<CString>, value: Option<CString>) returns (result: int)
      requires Valid()
      modifies this`initDone, this`identity, this`lists, ListOf(t)
      ensures Valid() && Abstract() == Added(old(Abstract()), progname, t, key, value)
      ensures result == if key != None && value != None && SpecialFree(key.value) then 0 else -1
    {
      hide List.Valid, PutPair, Escaped, SpecialFree, Valid;
      if key == None || value == None {
        return -1;
      }
      var special := ContainsSpecialCharacters(key.value);
      AllKept();
      if special {
        return -1;
      }
      Prepare(t);
      PutMdc(t, key.value, value.value);
      return 0;
    }

    method MdcRemove(t: ThreadId, key: Option<CString>)
      requires Valid()
      modifies this`initDone, this`identity, this`lists, ListOf(t)
      ensures Valid() && Abstract() == Removed(old(Abstract()), progname, t, key)
    {
      hide List.Valid, RemoveKey, Valid;
      if key == None {
        return;
      }
      Prepare(t);
      RmMdc(t, key.value);
    }

    method MdcClean(t: ThreadId)
      requires Valid()
      modifies this`initDone, this`identity, this`lists, ListOf(t)
      ensures Valid() && Abstract() == Cleaned(old(Abstract()), progname, t)
      ensures t in old(lists) ==> forall n :: n in old(lists[t].nodes) ==> n.freed
    {
      hide List.Valid, Valid;
      Prepare(t);
      CleanMdcList(t);
    }

    /** The stored value, which is the escaped form of the one that was added. */
    method MdcGet(t: ThreadId, key: Option<CString>) returns (value: Option<CString>)
      requires Valid()
      modifies this`initDone, this`identity, this`lists
      ensures Valid() && Abstract() == LookedUp(old(Abstract()), progname, t, key)
      ensures value == if key == None then None else Lookup(PairsFor(old(Abstract()), t), key.value)
    {
      if key == None {
        return None;
      }
      hide List.Valid, Valid;
      Prepare(t);
      label prepared:
      value := ValueOf(t, key.value);
      AllKept@prepared();
    }

    method ValueOf(t: ThreadId, key: CString) returns (value: Option<CString>)
      requires Valid() && t in lists
      ensures value == Lookup(lists[t].contents, key)
    {
      assert lists[t].Valid();
      var mdc := lists[t].Search(key);
      if mdc != null {
        return Some(mdc.value);
      }
      return None;
    }

    /** mdclog_write at time `tv`, with the message already expanded. */
    method Write(t: ThreadId, severity: int, tv: TimeVal, msg: CString)
      requires Valid()
      modifies this`initDone, this`identity, this`lists, this`output
      ensures Valid() && Abstract() == Written(old(Abstract()), progname, t, severity, tv, msg)
    {
      hide List.Valid, Valid, EntryText;
      if severity > level {
        return;
      }
      Prepare(t);
      label prepared:
      var line := FormatLine(t, severity, tv, msg);
      AllKept@prepared();
      assert Abstract().contents[t] == lists[t].contents == PairsFor(old(Abstract()), t);
      if line != None {
        output := output + [line.value];
        AllKept@prepared();
      }
    }

    method FormatLine(t: ThreadId, severity: int, tv: TimeVal, msg: CString) returns (line: Option<string>)
      requires Valid() && t in lists
      ensures line == match EntryText(PIPE_BUF - 1, tv, identity, severity, lists[t].contents, msg)
        case None => None
        case Some(text) => Some(text + "\n")
    {
      hide EntryText;
      var list := lists[t];
      assert list.Valid();
      Linked(list);
      hide List.Valid, Valid, Chain, Hold;
      var buffer := new char[PIPE_BUF];
      // the last byte is reserved for the newline
      var len := LogFormat.FormatToJsonStr(buffer, PIPE_BUF - 1, tv, identity, severity, list.head, msg,
                                          list.nodes, list.contents);
      ghost var entry := EntryText(PIPE_BUF - 1, tv, identity, severity, list.contents, msg);
      EntrySize(PIPE_BUF - 1, tv, identity, severity, list.contents, msg);
      if len > 0 {
        assert buffer[..len] == entry.value;
        buffer[len] := '\n';
        assert buffer[..len + 1] == entry.value + "\n";
        line := Some(buffer[..len + 1]);
      } else {
        line := None;
      }
    }

    static lemma Linked(list: List)
      requires list.Valid()
      ensures list.head == First(list.nodes) && Chain(list.nodes) && Hold(list.nodes, list.contents)
    {
    }
  }
}
