/** Which identity a formatter reads when threads initialize and log at the same time: the one that the
    initialization that chose last was given. It is read off the schedule and the points the threads are at,
    not off memory. */
module IdentityInForce {
  import opened CStrings
  import opened Escaping
  import opened IdentityLock
  import opened LogRuns
  import opened Mdclog
  import opened Wrappers

  /** The identities that attributes hold, and the one chosen last. */
  datatype Offers = Offers(held: map<(ThreadId, AttrId), CString>, chosen: Option<CString>)

  function Name(progname: CString): CString {
    EscapedIsCString(progname);
    Escaped(progname)
  }

  /** What the next statement of thread `t`, which is at `pc`, does to them. */
  function NextOffers(progname: CString, o: Offers, t: ThreadId, pc: Pc, act: Act): Offers {
    match pc
    case Idle =>
      (match act
       case CallSetIdent(a, id) => if SpecialFree(id) && |id| <= 100 then o.(held := o.held[(t, a) := id]) else o
       case CallAttrInit(a) => o.(held := o.held - {(t, a)})
       case CallAttrDestroy(a) => o.(held := o.held - {(t, a)})
       case _ => o)
    case Choose(Some(a), _) => o.(chosen := if (t, a) in o.held then Some(o.held[(t, a)]) else Some(Name(progname)))
    case Choose(None, _) => o.(chosen := Some(Name(progname)))
    case ClearAttr(a, _) => o.(held := o.held - {(t, a)})
    case _ => o
  }

  function OffersAfter(progname: CString, schedule: seq<(ThreadId, Act)>): Offers {
    if schedule == [] then Offers(map[], None)
    else
      var n := |schedule| - 1;
      var (t, act) := schedule[n];
      var pc := ThreadOf(After(progname, schedule[..n]), t).pc;
      NextOffers(progname, OffersAfter(progname, schedule[..n]), t, pc, act)
  }

  // ----- memory holds what was offered -----

  ghost predicate Holds(m: Memory, p: Option<Addr>, text: Option<CString>) {
    && (p == None <==> text == None)
    && (p != None ==> p.value in m.heap && m.heap[p.value] == Text(text.value))
  }

  function Held(o: Offers, t: ThreadId, a: AttrId): Option<CString> {
    if (t, a) in o.held then Some(o.held[(t, a)]) else None
  }

  ghost predicate AttrsHold(m: Memory, t: ThreadId, th: Thread, o: Offers) {
    forall a: AttrId :: Holds(m, AttrPointer(th, a), Held(o, t, a))
  }

  /** How far the writer has come with what it chose. */
  ghost predicate WriterHolds(progname: CString, m: Memory, t: ThreadId, pc: Pc, o: Offers) {
    match pc
    case ClearAttr(a, _) => o.chosen != None && Held(o, t, a) == o.chosen
    case DupName(_) => o.chosen == Some(Name(progname))
    case CheckName(_, _) => o.chosen == Some(Name(progname))
    case AllocEscaped(_, _) => o.chosen == Some(Name(progname))
    case FillEscaped(_, _) => o.chosen == Some(Name(progname))
    case Adopt(_, _) => o.chosen == Some(Name(progname))
    case FreeName(_, _) => m.identity != None && Holds(m, m.identity, o.chosen)
    case SetDone(_) => m.identity != None && Holds(m, m.identity, o.chosen)
    case UnlockWrite(_) => m.identity != None && Holds(m, m.identity, o.chosen)
    case _ => true
  }

  ghost predicate UnlockedHolds(m: Memory, o: Offers) {
    m.writer == None && m.identity != None ==> Holds(m, m.identity, o.chosen)
  }

  ghost predicate Before(progname: CString, m: Memory, tags: Tags, t: ThreadId, th: Thread, o: Offers) {
    && MemorySafe(progname, m, tags) && ThreadSafe(progname, m, tags, t, th)
    && AttrsHold(m, t, th, o) && WriterHolds(progname, m, t, th.pc, o) && UnlockedHolds(m, o)
  }

  ghost predicate AllThree(progname: CString, m: Memory, t: ThreadId, th: Thread, o: Offers) {
    AttrsHold(m, t, th, o) && WriterHolds(progname, m, t, th.pc, o) && UnlockedHolds(m, o)
  }

  ghost predicate Behind(progname: CString, m: Memory, t: ThreadId, th: Thread, act: Act, o: Offers) {
    var (m', th') := Statement(progname, m, th, t, act);
    AllThree(progname, m', t, th', NextOffers(progname, o, t, th.pc, act))
  }

  lemma HeldAfter(o: Offers, t: ThreadId, a: AttrId, id: CString)
    ensures forall b: AttrId ::
      Held(o.(held := o.held[(t, a) := id]), t, b) == if b == a then Some(id) else Held(o, t, b)
    ensures forall b: AttrId :: Held(o.(held := o.held - {(t, a)}), t, b) == if b == a then None else Held(o, t, b)
  {
    var put, drop := o.(held := o.held[(t, a) := id]), o.(held := o.held - {(t, a)});
    forall b: AttrId
      ensures Held(put, t, b) == if b == a then Some(id) else Held(o, t, b)
      ensures Held(drop, t, b) == if b == a then None else Held(o, t, b)
    {
      var k := (t, b);
      assert k == (t, a) <==> b == a;
      assert k in put.held <==> k in o.held || b == a;
      assert k in drop.held <==> k in o.held && b != a;
    }
  }

  lemma PointersAfter(th: Thread, a: AttrId, p: Option<Addr>)
    ensures forall b: AttrId :: AttrPointer(SetAttr(th, a, p), b) == if b == a then p else AttrPointer(th, b)
    ensures SetAttr(th, a, p).pc == th.pc
  {
  }

  lemma IdleHolds(progname: CString, m: Memory, tags: Tags, t: ThreadId, th: Thread, act: Act, o: Offers)
    requires Before(progname, m, tags, t, th, o) && th.pc.Idle?
    ensures Behind(progname, m, t, th, act, o)
  {
    hide SpecialFree, GoodIdentity, Escaped, DefaultIdentity, WriterStatement, ReaderStatement, WriterKnows;
    hide Held;
    match act
    case CallSetIdent(a, id) =>
      HeldAfter(o, t, a, id);
      PointersAfter(th, a, Some(m.next));
      assert Acceptable(id) <==> SpecialFree(id) && |id| <= 100;
      var (m', th') := Statement(progname, m, th, t, act);
      var o' := NextOffers(progname, o, t, th.pc, act);
      forall b: AttrId
        ensures Holds(m', AttrPointer(th', b), Held(o', t, b))
      {
        assert Holds(m, AttrPointer(th, b), Held(o, t, b));
      }
      assert UnlockedHolds(m', o') && WriterHolds(progname, m', t, th'.pc, o');
    case CallAttrInit(a) =>
      HeldAfter(o, t, a, "");
      PointersAfter(th, a, None);
    case CallAttrDestroy(a) =>
      HeldAfter(o, t, a, "");
      PointersAfter(th, a, None);
    case _ =>
  }

  lemma FreeHolds(progname: CString, m: Memory, tags: Tags, t: ThreadId, th: Thread, act: Act, o: Offers)
    requires Before(progname, m, tags, t, th, o) && (th.pc.FreeOld? || th.pc.ClearOld?)
    ensures Behind(progname, m, t, th, act, o)
  {
    hide Acceptable, SpecialFree, GoodIdentity, Escaped, DefaultIdentity, ReaderStatement, StartCall;
  }

  lemma ChooseStatement(progname: CString, m: Memory, t: ThreadId, th: Thread, act: Act)
    requires th.pc.Choose?
    ensures var p := if th.pc.attr == None then None else AttrPointer(th, th.pc.attr.value);
      Statement(progname, m, th, t, act) ==
        if p == None then (m, th.(pc := DupName(th.pc.logging)))
        else (m.(identity := p), th.(pc := ClearAttr(th.pc.attr.value, th.pc.logging)))
  {
    hide StartCall, ReaderStatement;
  }

  lemma ChooseHolds(progname: CString, m: Memory, tags: Tags, t: ThreadId, th: Thread, act: Act, o: Offers)
    requires Before(progname, m, tags, t, th, o) && th.pc.Choose?
    ensures Behind(progname, m, t, th, act, o)
  {
    hide MemorySafe, ThreadSafe, SpecialFree, Escaped, DefaultIdentity, Statement;
    WriterIsLocked(progname, m, tags, t, th);
    ChooseStatement(progname, m, t, th, act);
    if th.pc.attr != None {
      assert Holds(m, AttrPointer(th, th.pc.attr.value), Held(o, t, th.pc.attr.value));
    }
    var (m', th') := Statement(progname, m, th, t, act);
    var o' := NextOffers(progname, o, t, th.pc, act);
    forall a: AttrId
      ensures Holds(m', AttrPointer(th', a), Held(o', t, a))
    {
      assert Holds(m, AttrPointer(th, a), Held(o, t, a));
    }
    assert WriterHolds(progname, m', t, th'.pc, o') && UnlockedHolds(m', o');
    hide AttrsHold, WriterHolds, UnlockedHolds, NextOffers;
    assert AllThree(progname, m', t, th', o');
  }

  lemma ClearHolds(progname: CString, m: Memory, tags: Tags, t: ThreadId, th: Thread, act: Act, o: Offers)
    requires Before(progname, m, tags, t, th, o) && th.pc.ClearAttr?
    ensures Behind(progname, m, t, th, act, o)
  {
    hide Acceptable, SpecialFree, GoodIdentity, Escaped, DefaultIdentity, ReaderStatement, StartCall;
    var a := th.pc.a;
    assert Holds(m, AttrPointer(th, a), Held(o, t, a));
    HeldAfter(o, t, a, "");
    PointersAfter(th, a, None);
    hide Held;
  }

  lemma NameHolds(progname: CString, m: Memory, tags: Tags, t: ThreadId, th: Thread, act: Act, o: Offers)
    requires Before(progname, m, tags, t, th, o) && (th.pc.DupName? || th.pc.CheckName? || th.pc.AllocEscaped?)
    ensures Behind(progname, m, t, th, act, o)
  {
    hide Acceptable, SpecialFree, GoodIdentity, Escaped, DefaultIdentity, ReaderStatement, StartCall;
  }

  lemma FillHolds(progname: CString, m: Memory, tags: Tags, t: ThreadId, th: Thread, act: Act, o: Offers)
    requires Before(progname, m, tags, t, th, o) && (th.pc.FillEscaped? || th.pc.Adopt?)
    ensures Behind(progname, m, t, th, act, o)
  {
    if SpecialFree(progname) { SpecialFreeSanitized(progname); }
    hide Acceptable, SpecialFree, GoodIdentity, Escaped, ReaderStatement, StartCall;
  }

  lemma DoneHolds(progname: CString, m: Memory, tags: Tags, t: ThreadId, th: Thread, act: Act, o: Offers)
    requires Before(progname, m, tags, t, th, o) && (th.pc.FreeName? || th.pc.SetDone? || th.pc.UnlockWrite?)
    ensures Behind(progname, m, t, th, act, o)
  {
    hide Acceptable, SpecialFree, GoodIdentity, Escaped, DefaultIdentity, ReaderStatement, StartCall;
  }

  lemma ReadHolds(progname: CString, m: Memory, tags: Tags, t: ThreadId, th: Thread, act: Act, o: Offers)
    requires Before(progname, m, tags, t, th, o) && !Writing(th.pc) && !th.pc.Idle?
    ensures Behind(progname, m, t, th, act, o)
  {
    hide Acceptable, SpecialFree, GoodIdentity, Escaped, DefaultIdentity, WriterStatement, StartCall;
  }

  lemma StepHolds(progname: CString, m: Memory, tags: Tags, t: ThreadId, th: Thread, act: Act, o: Offers)
    requires Before(progname, m, tags, t, th, o)
    ensures Behind(progname, m, t, th, act, o)
  {
    hide Before, Behind;
    match th.pc
    case Idle => IdleHolds(progname, m, tags, t, th, act, o);
    case FreeOld(_, _) => FreeHolds(progname, m, tags, t, th, act, o);
    case ClearOld(_, _) => FreeHolds(progname, m, tags, t, th, act, o);
    case Choose(_, _) => ChooseHolds(progname, m, tags, t, th, act, o);
    case ClearAttr(_, _) => ClearHolds(progname, m, tags, t, th, act, o);
    case DupName(_) => NameHolds(progname, m, tags, t, th, act, o);
    case CheckName(_, _) => NameHolds(progname, m, tags, t, th, act, o);
    case AllocEscaped(_, _) => NameHolds(progname, m, tags, t, th, act, o);
    case FillEscaped(_, _) => FillHolds(progname, m, tags, t, th, act, o);
    case Adopt(_, _) => FillHolds(progname, m, tags, t, th, act, o);
    case FreeName(_, _) => DoneHolds(progname, m, tags, t, th, act, o);
    case SetDone(_) => DoneHolds(progname, m, tags, t, th, act, o);
    case UnlockWrite(_) => DoneHolds(progname, m, tags, t, th, act, o);
    case _ => ReadHolds(progname, m, tags, t, th, act, o);
  }

  /** A step of thread `t` leaves what thread `u` holds. */
  lemma OthersHold(progname: CString, m: Memory, tags: Tags, m': Memory, tags': Tags, t: ThreadId, u: ThreadId,
                   th: Thread, o: Offers, pc: Pc, act: Act)
    requires MemorySafe(progname, m, tags) && ThreadSafe(progname, m, tags, u, th) && u != t
    requires AttrsHold(m, u, th, o) && WriterHolds(progname, m, u, th.pc, o)
    requires Guarantee(m, tags, m', tags', t) && (Writing(pc) ==> m.writer == Some(t))
    ensures var o' := NextOffers(progname, o, t, pc, act);
      AttrsHold(m', u, th, o') && WriterHolds(progname, m', u, th.pc, o')
  {
    hide Acceptable, SpecialFree, GoodIdentity, Escaped;
  }

  // ----- all schedules -----

  ghost predicate AllHold(progname: CString, w: Process, o: Offers) {
    && UnlockedHolds(w.m, o)
    && forall t: ThreadId ::
         AttrsHold(w.m, t, ThreadOf(w, t), o) && WriterHolds(progname, w.m, t, ThreadOf(w, t).pc, o)
  }

  lemma NextHolds(progname: CString, w: Process, tags: Tags, o: Offers, t: ThreadId, act: Act)
    requires Safe(progname, w, tags) && AllHold(progname, w, o)
    ensures AllHold(progname, Next(progname, w, t, act), NextOffers(progname, o, t, ThreadOf(w, t).pc, act))
  {
    hide MemorySafe, ThreadSafe, Guarantee, Statement, Retagged, AttrsHold, WriterHolds, UnlockedHolds, NextOffers;
    var th, w' := ThreadOf(w, t), Next(progname, w, t, act);
    var tags', o' := Retagged(progname, w.m, tags, t, th, act), NextOffers(progname, o, t, th.pc, act);
    OneStep(progname, w.m, tags, t, th, act);
    StepHolds(progname, w.m, tags, t, th, act, o);
    assert Writing(th.pc) ==> w.m.writer == Some(t) by { WriterIsLocked(progname, w.m, tags, t, th); }
    forall u: ThreadId
      ensures AttrsHold(w'.m, u, ThreadOf(w', u), o') && WriterHolds(progname, w'.m, u, ThreadOf(w', u).pc, o')
    {
      if u != t { OthersHold(progname, w.m, tags, w'.m, tags', t, u, ThreadOf(w, u), o, th.pc, act); }
    }
  }

  lemma WriterIsLocked(progname: CString, m: Memory, tags: Tags, t: ThreadId, th: Thread)
    requires ThreadSafe(progname, m, tags, t, th)
    ensures Writing(th.pc) ==> m.writer == Some(t)
  {
  }

  lemma {:induction false} AlwaysHold(progname: CString, schedule: seq<(ThreadId, Act)>)
    ensures AllHold(progname, After(progname, schedule), OffersAfter(progname, schedule))
    decreases |schedule|
  {
    if schedule != [] {
      hide Safe, AllHold, Next, NextOffers;
      var n := |schedule| - 1;
      AlwaysHold(progname, schedule[..n]);
      var tags := AlwaysSafe(progname, schedule[..n]);
      NextHolds(progname, After(progname, schedule[..n]), tags, OffersAfter(progname, schedule[..n]),
                schedule[n].0, schedule[n].1);
    }
  }

  /** In every interleaving, a formatter reads the identity that was chosen last. */
  lemma ReadsTheChosen(progname: CString, schedule: seq<(ThreadId, Act)>, t: ThreadId)
    ensures match ThreadOf(After(progname, schedule), t).pc
      case Reading(_, seen) => OffersAfter(progname, schedule).chosen == Some(seen)
      case _ => true
  {
    AlwaysHold(progname, schedule);
    IdentityIsProtected(progname, schedule, t);
    var tags := AlwaysSafe(progname, schedule);
    assert ThreadSafe(progname, After(progname, schedule).m, tags, t, ThreadOf(After(progname, schedule), t));
  }
}
