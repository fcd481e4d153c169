/** Threads that initialize the library and write log entries at the same time. The identity
    string of the configuration is on the heap: initialization replaces it under the write
    lock, and a formatter reads it under the read lock. Every statement that touches shared
    memory is one step, and threads interleave freely between steps. */
module IdentityLock {
  import opened CStrings
  import opened Escaping
  import opened Mdclog
  import opened LogRuns
  import opened Wrappers

  type Addr = nat
  type AttrId = nat

  /** What an allocated block holds. */
  datatype Cell = Uninitialized | Text(text: CString)

  /** Where a thread is. `attr` is the argument of an initialization, `logging` says that an
      entry is written after it; `p` is a local pointer. */
  datatype Pc =
    | Idle
    | CheckDone(attr: Option<AttrId>, logging: bool)
    | WantWrite(attr: Option<AttrId>, logging: bool)
    // under the write lock
    | FreeOld(attr: Option<AttrId>, logging: bool)
    | ClearOld(attr: Option<AttrId>, logging: bool)
    | Choose(attr: Option<AttrId>, logging: bool)
    | ClearAttr(a: AttrId, logging: bool)
    | DupName(logging: bool)
    | CheckName(p: Addr, logging: bool)
    | AllocEscaped(p: Addr, logging: bool)
    | FillEscaped(p: Addr, logging: bool)
    | FreeName(p: Addr, logging: bool)
    | Adopt(p: Addr, logging: bool)
    | SetDone(logging: bool)
    | UnlockWrite(logging: bool)
    | WantRead
    // under the read lock
    | LoadPointer
    | Reading(q: Option<Addr>, seen: CString)
    | UnlockRead

  /** A thread with the attributes it has set up; an attribute owns its identity string. */
  datatype Thread = Thread(pc: Pc, attrs: map<AttrId, Option<Addr>>)

  /** Shared memory; `fault` records that a block was misused. */
  datatype Memory = Memory(heap: map<Addr, Cell>, next: Addr, initDone: bool, identity: Option<Addr>,
                           writer: Option<ThreadId>, readers: set<ThreadId>, fault: bool)

  datatype Process = Process(m: Memory, threads: map<ThreadId, Thread>)

  /** What the scheduler lets a thread do; Continue is the next statement of the running call.
      CallMdc is any call on the MDC, which also initializes the library if that was not done. */
  datatype Act =
    | Continue
    | CallInit(attr: Option<AttrId>)
    | CallLog
    | CallMdc
    | CallSetIdent(a: AttrId, id: CString)
    | CallAttrInit(a: AttrId)
    | CallAttrDestroy(a: AttrId)
    | FinishReading

  const INITIALLY := Process(Memory(map[], 0, false, None, None, {}, false), map[])

  function ThreadOf(w: Process, t: ThreadId): Thread {
    if t in w.threads then w.threads[t] else Thread(Idle, map[])
  }

  // ----- steps -----

  /** free(p): releasing a block that is not allocated is a fault. */
  function Free(m: Memory, p: Addr): Memory {
    if p in m.heap then m.(heap := m.heap - {p}) else m.(fault := true)
  }

  /** A new block, at an address that was never used. */
  function Alloc(m: Memory, c: Cell): Memory {
    m.(heap := m.heap[m.next := c], next := m.next + 1)
  }

  /** Reading text from a block that is freed or not filled in is a fault. */
  function Touch(m: Memory, p: Addr): Memory {
    if p in m.heap && m.heap[p].Text? then m else m.(fault := true)
  }

  function AfterInit(logging: bool): Pc { if logging then WantRead else Idle }

  function AttrPointer(th: Thread, a: AttrId): Option<Addr> {
    if a in th.attrs then th.attrs[a] else None
  }

  function SetAttr(th: Thread, a: AttrId, p: Option<Addr>): Thread { th.(attrs := th.attrs[a := p]) }

  function StartCall(m: Memory, th: Thread, act: Act): (Memory, Thread) {
    match act
    case CallInit(attr) => (m.(initDone := false), th.(pc := CheckDone(attr, false)))
    case CallLog => (m, th.(pc := CheckDone(None, true)))
    case CallMdc => (m, th.(pc := CheckDone(None, false)))
    case CallAttrInit(a) => (m, SetAttr(th, a, None))
    case CallSetIdent(a, id) =>
      if Acceptable(id) then (Alloc(m, Text(id)), SetAttr(th, a, Some(m.next))) else (m, th)
    case CallAttrDestroy(a) =>
      var p := AttrPointer(th, a);
      (if p == None then m else Free(m, p.value), SetAttr(th, a, None))
    case _ => (m, th)
  }

  /** The statements under the write lock. */
  function WriterStatement(progname: CString, m: Memory, th: Thread): (Memory, Thread) {
    match th.pc
    case FreeOld(attr, logging) =>
      if m.identity == None then (m, th.(pc := Choose(attr, logging)))
      else (Free(m, m.identity.value), th.(pc := ClearOld(attr, logging)))
    case ClearOld(attr, logging) => (m.(identity := None), th.(pc := Choose(attr, logging)))
    case Choose(attr, logging) =>
      if attr != None && AttrPointer(th, attr.value) != None
      then (m.(identity := AttrPointer(th, attr.value)), th.(pc := ClearAttr(attr.value, logging)))
      else (m, th.(pc := DupName(logging)))
    case ClearAttr(a, logging) => (m, SetAttr(th, a, None).(pc := SetDone(logging)))
    case DupName(logging) => (Alloc(m, Text(progname)), th.(pc := CheckName(m.next, logging)))
    case CheckName(p, logging) =>
      (Touch(m, p), th.(pc := if SpecialFree(progname) then Adopt(p, logging) else AllocEscaped(p, logging)))
    case AllocEscaped(p, logging) =>
      (Alloc(m, Uninitialized).(identity := Some(m.next)), th.(pc := FillEscaped(p, logging)))
    case FillEscaped(p, logging) =>
      (if m.identity == None || m.identity.value !in m.heap then m.(fault := true)
       else Touch(m, p).(heap := m.heap[m.identity.value := Text(DefaultIdentity(progname))]),
       th.(pc := FreeName(p, logging)))
    case FreeName(p, logging) => (Free(m, p), th.(pc := SetDone(logging)))
    case Adopt(p, logging) => (m.(identity := Some(p)), th.(pc := SetDone(logging)))
    case SetDone(logging) => (m.(initDone := true), th.(pc := UnlockWrite(logging)))
    case UnlockWrite(logging) => (m.(writer := None), th.(pc := AfterInit(logging)))
    case _ => (m, th)
  }

  /** The statements under the read lock. */
  function ReaderStatement(m: Memory, th: Thread, t: ThreadId, act: Act): (Memory, Thread) {
    match th.pc
    case LoadPointer =>
      if m.identity == None then (m, th.(pc := Reading(None, "")))
      else if m.identity.value in m.heap && m.heap[m.identity.value].Text?
      then (m, th.(pc := Reading(m.identity, m.heap[m.identity.value].text)))
      else (m.(fault := true), th)
    case Reading(q, seen) =>
      if act == FinishReading then (m, th.(pc := UnlockRead))
      else if q == None then (m, th)
      else if q.value in m.heap && m.heap[q.value] == Text(seen) then (m, th)
      else (m.(fault := true), th)  // the string was freed or changed under the reader
    case UnlockRead => (m.(readers := m.readers - {t}), th.(pc := Idle))
    case _ => (m, th)
  }

  predicate Writing(pc: Pc) {
    pc.FreeOld? || pc.ClearOld? || pc.Choose? || pc.ClearAttr? || pc.DupName? || pc.CheckName? || pc.AllocEscaped?
    || pc.FillEscaped? || pc.FreeName? || pc.Adopt? || pc.SetDone? || pc.UnlockWrite?
  }

  predicate HoldsRead(pc: Pc) { pc.LoadPointer? || pc.Reading? || pc.UnlockRead? }

  /** The next statement of thread `t`; a thread that waits for the lock stays where it is. */
  function Statement(progname: CString, m: Memory, th: Thread, t: ThreadId, act: Act): (Memory, Thread) {
    if Writing(th.pc) then WriterStatement(progname, m, th)
    else if HoldsRead(th.pc) then ReaderStatement(m, th, t, act)
    else match th.pc
      case Idle => StartCall(m, th, act)
      case CheckDone(attr, logging) =>
        (m, th.(pc := if m.initDone then AfterInit(logging) else WantWrite(attr, logging)))
      case WantWrite(attr, logging) =>
        if m.writer == None && m.readers == {} then (m.(writer := Some(t)), th.(pc := FreeOld(attr, logging)))
        else (m, th)
      case WantRead =>
        if m.writer == None then (m.(readers := m.readers + {t}), th.(pc := LoadPointer)) else (m, th)
      case _ => (m, th)
  }

  function Next(progname: CString, w: Process, t: ThreadId, act: Act): Process {
    var (m, th) := Statement(progname, w.m, ThreadOf(w, t), t, act);
    Process(m, w.threads[t := th])
  }

  /** The state after a schedule: which thread moved, and what it was let do. */
  function After(progname: CString, schedule: seq<(ThreadId, Act)>): Process {
    if schedule == [] then INITIALLY
    else
      var n := |schedule| - 1;
      Next(progname, After(progname, schedule[..n]), schedule[n].0, schedule[n].1)
  }

  // ----- the invariant -----

  /** Every live string has one owner, which `tags` records for its block. */
  datatype Owner = Configuration | Attribute(t: ThreadId, a: AttrId) | Local(u: ThreadId)

  type Tags = map<Addr, Owner>

  ghost predicate Has(m: Memory, tags: Tags, o: Owner, p: Addr) {
    p in m.heap && p in tags && tags[p] == o
  }

  ghost predicate HasIdentity(progname: CString, m: Memory, tags: Tags) {
    && m.identity != None && Has(m, tags, Configuration, m.identity.value)
    && m.heap[m.identity.value].Text? && GoodIdentity(progname, m.heap[m.identity.value].text)
  }

  /** There is an identity, or someone is about to set one. */
  predicate Settled(m: Memory) { m.identity != None || m.writer != None }

  function LocalPointer(pc: Pc): Option<Addr> {
    match pc
    case CheckName(p, _) => Some(p)
    case AllocEscaped(p, _) => Some(p)
    case FillEscaped(p, _) => Some(p)
    case FreeName(p, _) => Some(p)
    case Adopt(p, _) => Some(p)
    case _ => None
  }

  /** What the writer knows of the identity at each point. */
  ghost predicate WriterKnows(progname: CString, m: Memory, tags: Tags, th: Thread) {
    match th.pc
    case FreeOld(_, _) => m.identity == None || HasIdentity(progname, m, tags)
    case ClearOld(_, _) => m.identity != None
    case ClearAttr(a, _) => m.identity != None && m.identity == AttrPointer(th, a)
    case FillEscaped(_, _) => m.identity != None && Has(m, tags, Configuration, m.identity.value)
    case FreeName(_, _) => HasIdentity(progname, m, tags)
    case SetDone(_) => HasIdentity(progname, m, tags)
    case UnlockWrite(_) => HasIdentity(progname, m, tags)
    case Adopt(_, _) => m.identity == None && SpecialFree(progname)
    case _ => m.identity == None
  }

  ghost predicate ReaderSafe(m: Memory, pc: Pc) {
    match pc
    case Reading(q, seen) => q != None && q == m.identity && q.value in m.heap && m.heap[q.value] == Text(seen)
    case _ => true
  }

  ghost predicate AttrsOwned(m: Memory, tags: Tags, t: ThreadId, th: Thread) {
    forall a :: AttrPointer(th, a) != None ==>
      && Has(m, tags, Attribute(t, a), AttrPointer(th, a).value)
      && m.heap[AttrPointer(th, a).value].Text? && Acceptable(m.heap[AttrPointer(th, a).value].text)
  }

  ghost predicate LocalOwned(progname: CString, m: Memory, tags: Tags, t: ThreadId, pc: Pc) {
    LocalPointer(pc) != None ==>
      Has(m, tags, Local(t), LocalPointer(pc).value) && m.heap[LocalPointer(pc).value] == Text(progname)
  }

  ghost predicate ThreadSafe(progname: CString, m: Memory, tags: Tags, t: ThreadId, th: Thread) {
    && (m.writer == Some(t) <==> Writing(th.pc))
    && (t in m.readers <==> HoldsRead(th.pc))
    && (Writing(th.pc) ==> WriterKnows(progname, m, tags, th))
    && (th.pc.WantRead? || HoldsRead(th.pc) ==> Settled(m))
    && ReaderSafe(m, th.pc)
    && AttrsOwned(m, tags, t, th)
    && LocalOwned(progname, m, tags, t, th.pc)
  }

  ghost predicate MemorySafe(progname: CString, m: Memory, tags: Tags) {
    && !m.fault
    && (forall p :: p in m.heap || p in tags ==> p < m.next)
    && (m.writer != None ==> m.readers == {})
    && (m.writer == None ==> m.identity == None || HasIdentity(progname, m, tags))
    && (m.initDone ==> Settled(m))
  }

  ghost predicate Safe(progname: CString, w: Process, tags: Tags) {
    MemorySafe(progname, w.m, tags) && forall t: ThreadId :: ThreadSafe(progname, w.m, tags, t, ThreadOf(w, t))
  }

  // ----- one thread's step -----

  predicate BelongsTo(o: Owner, t: ThreadId) {
    match o
    case Configuration => false
    case Attribute(u, _) => u == t
    case Local(u) => u == t
  }

  /** What a step of thread `t` guarantees to the others. */
  ghost predicate Guarantee(m: Memory, tags: Tags, m': Memory, tags': Tags, t: ThreadId) {
    && (forall p ::
         p in tags && p in m.heap && !BelongsTo(tags[p], t) && (tags[p] == Configuration ==> m.writer != Some(t))
         ==> p in tags' && tags'[p] == tags[p] && p in m'.heap && m'.heap[p] == m.heap[p])
    && (m.writer != Some(t) ==> m'.identity == m.identity)
    && (m'.writer == m.writer
        || (m.writer == None && m'.writer == Some(t)) || (m.writer == Some(t) && m'.writer == None))
    && (forall u :: u != t ==> (u in m'.readers <==> u in m.readers))
    && (Settled(m) ==> Settled(m'))
  }

  /** Who owns which block after the step. */
  function Retagged(progname: CString, m: Memory, tags: Tags, t: ThreadId, th: Thread, act: Act): Tags {
    match th.pc
    case Idle =>
      (match act
       case CallSetIdent(a, id) => if Acceptable(id) then tags[m.next := Attribute(t, a)] else tags
       case _ => tags)
    case ClearAttr(a, _) => if m.identity == None then tags else tags[m.identity.value := Configuration]
    case DupName(_) => tags[m.next := Local(t)]
    case AllocEscaped(_, _) => tags[m.next := Configuration]
    case Adopt(p, _) => tags[p := Configuration]
    case _ => tags
  }

  ghost predicate StepKeeps(progname: CString, m: Memory, tags: Tags, t: ThreadId, th: Thread, act: Act) {
    var (m', th') := Statement(progname, m, th, t, act);
    var tags' := Retagged(progname, m, tags, t, th, act);
    MemorySafe(progname, m', tags') && ThreadSafe(progname, m', tags', t, th') && Guarantee(m, tags, m', tags', t)
  }

  lemma SpecialFreeOrEscaped(progname: CString)
    ensures GoodIdentity(progname, DefaultIdentity(progname))
    ensures SpecialFree(progname) ==> GoodIdentity(progname, progname)
    ensures forall id: CString :: Acceptable(id) ==> GoodIdentity(progname, id)
  {
    if SpecialFree(progname) { SpecialFreeSanitized(progname); }
  }

  lemma FreeOldStep(progname: CString, m: Memory, tags: Tags, t: ThreadId, th: Thread, act: Act)
    requires MemorySafe(progname, m, tags) && ThreadSafe(progname, m, tags, t, th)
    requires th.pc.FreeOld? || th.pc.ClearOld?
    ensures StepKeeps(progname, m, tags, t, th, act)
  {
    hide Acceptable, SpecialFree, GoodIdentity, Escaped, DefaultIdentity,
      ReaderStatement, StartCall;
  }

  lemma ChooseStep(progname: CString, m: Memory, tags: Tags, t: ThreadId, th: Thread, act: Act)
    requires MemorySafe(progname, m, tags) && ThreadSafe(progname, m, tags, t, th)
    requires th.pc.Choose? || th.pc.ClearAttr?
    ensures StepKeeps(progname, m, tags, t, th, act)
  {
    SpecialFreeOrEscaped(progname);
    hide Acceptable, SpecialFree, GoodIdentity, Escaped, DefaultIdentity;
  }

  lemma NameStep(progname: CString, m: Memory, tags: Tags, t: ThreadId, th: Thread, act: Act)
    requires MemorySafe(progname, m, tags) && ThreadSafe(progname, m, tags, t, th)
    requires th.pc.DupName? || th.pc.CheckName?
    ensures StepKeeps(progname, m, tags, t, th, act)
  {
    hide Acceptable, SpecialFree, GoodIdentity, Escaped, DefaultIdentity;
  }

  lemma EscapeStep(progname: CString, m: Memory, tags: Tags, t: ThreadId, th: Thread, act: Act)
    requires MemorySafe(progname, m, tags) && ThreadSafe(progname, m, tags, t, th)
    requires th.pc.AllocEscaped? || th.pc.FillEscaped?
    ensures StepKeeps(progname, m, tags, t, th, act)
  {
    SpecialFreeOrEscaped(progname);
    hide Acceptable, SpecialFree, GoodIdentity, Escaped, DefaultIdentity,
      ReaderStatement, StartCall;
  }

  lemma FreeNameStep(progname: CString, m: Memory, tags: Tags, t: ThreadId, th: Thread, act: Act)
    requires MemorySafe(progname, m, tags) && ThreadSafe(progname, m, tags, t, th)
    requires th.pc.FreeName? || th.pc.Adopt?
    ensures StepKeeps(progname, m, tags, t, th, act)
  {
    SpecialFreeOrEscaped(progname);
    hide Acceptable, SpecialFree, GoodIdentity, Escaped, DefaultIdentity,
      ReaderStatement, StartCall;
  }

  lemma DoneStep(progname: CString, m: Memory, tags: Tags, t: ThreadId, th: Thread, act: Act)
    requires MemorySafe(progname, m, tags) && ThreadSafe(progname, m, tags, t, th)
    requires th.pc.SetDone? || th.pc.UnlockWrite?
    ensures StepKeeps(progname, m, tags, t, th, act)
  {
    hide Acceptable, SpecialFree, GoodIdentity, Escaped, DefaultIdentity;
  }

  lemma ReaderStep(progname: CString, m: Memory, tags: Tags, t: ThreadId, th: Thread, act: Act)
    requires MemorySafe(progname, m, tags) && ThreadSafe(progname, m, tags, t, th)
    requires HoldsRead(th.pc)
    ensures StepKeeps(progname, m, tags, t, th, act)
  {
    hide Acceptable, SpecialFree, GoodIdentity, Escaped, DefaultIdentity,
      WriterStatement, StartCall, WriterKnows;
  }

  lemma WaitStep(progname: CString, m: Memory, tags: Tags, t: ThreadId, th: Thread, act: Act)
    requires MemorySafe(progname, m, tags) && ThreadSafe(progname, m, tags, t, th)
    requires th.pc.CheckDone? || th.pc.WantWrite? || th.pc.WantRead?
    ensures StepKeeps(progname, m, tags, t, th, act)
  {
    hide Acceptable, SpecialFree, GoodIdentity, Escaped, DefaultIdentity,
      WriterStatement, ReaderStatement, StartCall;
  }

  lemma StartStep(progname: CString, m: Memory, tags: Tags, t: ThreadId, th: Thread, act: Act)
    requires MemorySafe(progname, m, tags) && ThreadSafe(progname, m, tags, t, th)
    requires th.pc.Idle? && (act.CallInit? || act.CallLog? || act.CallMdc? || act.Continue? || act.FinishReading?)
    ensures StepKeeps(progname, m, tags, t, th, act)
  {
    hide Acceptable, SpecialFree, GoodIdentity, Escaped, DefaultIdentity,
      WriterStatement, ReaderStatement, WriterKnows;
  }

  lemma SetIdentStep(progname: CString, m: Memory, tags: Tags, t: ThreadId, th: Thread, act: Act)
    requires MemorySafe(progname, m, tags) && ThreadSafe(progname, m, tags, t, th)
    requires th.pc.Idle? && act.CallSetIdent?
    ensures StepKeeps(progname, m, tags, t, th, act)
  {
    hide Acceptable, SpecialFree, GoodIdentity, Escaped, DefaultIdentity,
      WriterStatement, ReaderStatement, WriterKnows;
  }

  lemma AttrStep(progname: CString, m: Memory, tags: Tags, t: ThreadId, th: Thread, act: Act)
    requires MemorySafe(progname, m, tags) && ThreadSafe(progname, m, tags, t, th)
    requires th.pc.Idle? && (act.CallAttrInit? || act.CallAttrDestroy?)
    ensures StepKeeps(progname, m, tags, t, th, act)
  {
    hide Acceptable, SpecialFree, GoodIdentity, Escaped, DefaultIdentity,
      WriterStatement, ReaderStatement, WriterKnows;
  }

  lemma OneStep(progname: CString, m: Memory, tags: Tags, t: ThreadId, th: Thread, act: Act)
    requires MemorySafe(progname, m, tags) && ThreadSafe(progname, m, tags, t, th)
    ensures StepKeeps(progname, m, tags, t, th, act)
  {
    hide MemorySafe, ThreadSafe, StepKeeps;
    match th.pc
    case FreeOld(_, _) => FreeOldStep(progname, m, tags, t, th, act);
    case ClearOld(_, _) => FreeOldStep(progname, m, tags, t, th, act);
    case Choose(_, _) => ChooseStep(progname, m, tags, t, th, act);
    case ClearAttr(_, _) => ChooseStep(progname, m, tags, t, th, act);
    case DupName(_) => NameStep(progname, m, tags, t, th, act);
    case CheckName(_, _) => NameStep(progname, m, tags, t, th, act);
    case AllocEscaped(_, _) => EscapeStep(progname, m, tags, t, th, act);
    case FillEscaped(_, _) => EscapeStep(progname, m, tags, t, th, act);
    case FreeName(_, _) => FreeNameStep(progname, m, tags, t, th, act);
    case Adopt(_, _) => FreeNameStep(progname, m, tags, t, th, act);
    case SetDone(_) => DoneStep(progname, m, tags, t, th, act);
    case UnlockWrite(_) => DoneStep(progname, m, tags, t, th, act);
    case Idle =>
      if act.CallSetIdent? { SetIdentStep(progname, m, tags, t, th, act); }
      else if act.CallAttrInit? || act.CallAttrDestroy? { AttrStep(progname, m, tags, t, th, act); }
      else { StartStep(progname, m, tags, t, th, act); }
    case CheckDone(_, _) => WaitStep(progname, m, tags, t, th, act);
    case WantWrite(_, _) => WaitStep(progname, m, tags, t, th, act);
    case WantRead => WaitStep(progname, m, tags, t, th, act);
    case _ => ReaderStep(progname, m, tags, t, th, act);
  }

  /** No step of one thread disturbs another. */
  lemma OthersUndisturbed(progname: CString, m: Memory, tags: Tags, m': Memory, tags': Tags, t: ThreadId, u: ThreadId,
                          th: Thread)
    requires MemorySafe(progname, m, tags) && ThreadSafe(progname, m, tags, u, th) && u != t
    requires Guarantee(m, tags, m', tags', t)
    ensures ThreadSafe(progname, m', tags', u, th)
  {
    hide Acceptable, SpecialFree, GoodIdentity, Escaped;
  }

  lemma NextSafe(progname: CString, w: Process, tags: Tags, t: ThreadId, act: Act)
    requires Safe(progname, w, tags)
    ensures Safe(progname, Next(progname, w, t, act), Retagged(progname, w.m, tags, t, ThreadOf(w, t), act))
  {
    hide MemorySafe, ThreadSafe, Guarantee, Statement, Retagged;
    var th, w' := ThreadOf(w, t), Next(progname, w, t, act);
    var tags' := Retagged(progname, w.m, tags, t, th, act);
    OneStep(progname, w.m, tags, t, th, act);
    forall u: ThreadId ensures ThreadSafe(progname, w'.m, tags', u, ThreadOf(w', u)) {
      if u != t { OthersUndisturbed(progname, w.m, tags, w'.m, tags', t, u, ThreadOf(w, u)); }
    }
  }

  lemma {:induction false} AlwaysSafe(progname: CString, schedule: seq<(ThreadId, Act)>) returns (tags: Tags)
    ensures Safe(progname, After(progname, schedule), tags)
    decreases |schedule|
  {
    if schedule == [] {
      tags := map[];
    } else {
      hide Safe, Next, Retagged;
      var n := |schedule| - 1;
      var before := AlwaysSafe(progname, schedule[..n]);
      NextSafe(progname, After(progname, schedule[..n]), before, schedule[n].0, schedule[n].1);
      tags := Retagged(progname, After(progname, schedule[..n]).m, before, schedule[n].0,
                       ThreadOf(After(progname, schedule[..n]), schedule[n].0), schedule[n].1);
    }
  }

  /** In every interleaving: no block is freed twice, read after it was freed or before it was
      filled in, or changed under a reader; every formatter reads a well-formed identity, never
      a null pointer; and the lock excludes readers while there is a writer. */
  lemma IdentityIsProtected(progname: CString, schedule: seq<(ThreadId, Act)>, t: ThreadId)
    ensures var w := After(progname, schedule);
      && !w.m.fault
      && (w.m.writer != None ==> w.m.readers == {})
      && match ThreadOf(w, t).pc
         case Reading(q, seen) =>
           q != None && q == w.m.identity && q.value in w.m.heap && w.m.heap[q.value] == Text(seen)
           && GoodIdentity(progname, seen)
         case _ => true
  {
    var tags := AlwaysSafe(progname, schedule);
    assert ThreadSafe(progname, After(progname, schedule).m, tags, t, ThreadOf(After(progname, schedule), t));
  }
}
