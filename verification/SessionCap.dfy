/** The cap on concurrent upload sessions: creates that run side by side, each looking at
    the count, scanning the map for a finished session to evict if it must, and inserting
    its own. A scan visits one session at a time while the map changes under it. */
module SessionCap {
  import opened Bytes

  const MAX_SESSIONS: nat := 1024

  type Key = nat

  datatype Entry = Entry(finished: bool, lastActivity: nat)

  /** A create that has not been granted a slot: about to look at the count or to scan, in
      the middle of a scan, or about to remove the victim it chose. A scan still has to visit
      the `due` sessions, those that have been in the map since it began, and remembers the
      finished session that was idle for longest when it was visited. */
  datatype Phase = Look | Choose | Scan(due: set<Key>, best: Option<(Key, nat)>) | Evict(victim: Key)

  datatype Grant = BelowCap | ByEviction

  /** What has happened so far: slots granted for either reason and given up again, sessions
      inserted, evicted by creates and removed otherwise. */
  datatype Ledger = Ledger(below: nat, byEviction: nat, abandoned: nat, inserted: nat, evicted: nat, removed: nat)

  datatype State = State(sessions: map<Key, Entry>, waiting: map<nat, Phase>, granted: map<nat, Grant>, ledger: Ledger)

  datatype Event =
    | Arrive(id: nat)
    | LookAt(id: nat)
    | StartScan(id: nat)
    | Visit(id: nat, key: Key)
    | EndScan(id: nat)
    | EvictVictim(id: nat)
    | Insert(id: nat, key: Key, now: nat)
    | Leave(id: nat)
    | Replace(key: Key, now: nat)
    | Finish(key: Key, now: nat)
    | Touch(key: Key, now: nat)
    | Remove(key: Key)

  /** A scan no longer waits for a session that has left the map. */
  function Forgets(phase: Phase, key: Key): Phase {
    if phase.Scan? then phase.(due := phase.due - {key}) else phase
  }

  function Forget(waiting: map<nat, Phase>, key: Key): map<nat, Phase> {
    map id | id in waiting :: Forgets(waiting[id], key)
  }

  predicate Looks(s: State, id: nat, s': State) {
    && id in s.waiting && s.waiting[id].Look?
    && s' == if |s.sessions| < MAX_SESSIONS
             then s.(waiting := s.waiting - {id}, granted := s.granted[id := BelowCap], ledger := s.ledger.(below := s.ledger.below + 1))
             else s.(waiting := s.waiting[id := Choose])
  }

  predicate StartsScan(s: State, id: nat, s': State) {
    id in s.waiting && s.waiting[id].Choose? && s' == s.(waiting := s.waiting[id := Scan(s.sessions.Keys, None)])
  }

  /** The finished session that was idle for longest, of the best so far and this one. */
  function Better(best: Option<(Key, nat)>, key: Key, entry: Entry): Option<(Key, nat)> {
    if !entry.finished || (best.Some? && best.value.1 <= entry.lastActivity) then best else Some((key, entry.lastActivity))
  }

  predicate Visits(s: State, id: nat, key: Key, s': State) {
    && id in s.waiting && s.waiting[id].Scan? && key in s.sessions
    && s' == s.(waiting := s.waiting[id := Scan(s.waiting[id].due - {key}, Better(s.waiting[id].best, key, s.sessions[key]))])
  }

  /** With nothing to evict, the create is turned away. */
  predicate EndsScan(s: State, id: nat, s': State) {
    && id in s.waiting && s.waiting[id].Scan? && s.waiting[id].due == {}
    && s' == if s.waiting[id].best.None? then s.(waiting := s.waiting - {id})
             else s.(waiting := s.waiting[id := Evict(s.waiting[id].best.value.0)])
  }

  /** The removal checks again that the session is finished; a create that loses the race
      scans again. */
  predicate Evicts(s: State, id: nat, s': State) {
    && id in s.waiting && s.waiting[id].Evict?
    && var victim := s.waiting[id].victim;
    s' == if victim in s.sessions && s.sessions[victim].finished
          then State(s.sessions - {victim}, Forget(s.waiting - {id}, victim), s.granted[id := ByEviction],
                     s.ledger.(byEviction := s.ledger.byEviction + 1, evicted := s.ledger.evicted + 1))
          else s.(waiting := s.waiting[id := Choose])
  }

  predicate Inserts(s: State, id: nat, key: Key, now: nat, s': State) {
    id in s.granted && key !in s.sessions
    && s' == s.(sessions := s.sessions[key := Entry(false, now)], granted := s.granted - {id},
                ledger := s.ledger.(inserted := s.ledger.inserted + 1))
  }

  /** A create may give up at any point, with or without a slot. */
  predicate Leaves(s: State, id: nat, s': State) {
    s' == s.(waiting := s.waiting - {id}, granted := s.granted - {id},
             ledger := if id in s.granted then s.ledger.(abandoned := s.ledger.abandoned + 1) else s.ledger)
  }

  predicate Removes(s: State, key: Key, s': State) {
    key in s.sessions
    && s' == s.(sessions := s.sessions - {key}, waiting := Forget(s.waiting, key), ledger := s.ledger.(removed := s.ledger.removed + 1))
  }

  /** One step, with never more than `most` creates under way. */
  ghost predicate Step(most: nat, s: State, e: Event, s': State) {
    match e
    case Arrive(id) =>
      id !in s.waiting && id !in s.granted && |s.waiting| + |s.granted| < most && s' == s.(waiting := s.waiting[id := Look])
    case LookAt(id) => Looks(s, id, s')
    case StartScan(id) => StartsScan(s, id, s')
    case Visit(id, key) => Visits(s, id, key, s')
    case EndScan(id) => EndsScan(s, id, s')
    case EvictVictim(id) => Evicts(s, id, s')
    case Insert(id, key, now) => Inserts(s, id, key, now, s')
    case Leave(id) => Leaves(s, id, s')
    case Replace(key, now) => key in s.sessions && s' == s.(sessions := s.sessions[key := Entry(false, now)])
    case Finish(key, now) => key in s.sessions && s' == s.(sessions := s.sessions[key := Entry(true, now)])
    case Touch(key, now) => key in s.sessions && s' == s.(sessions := s.sessions[key := s.sessions[key].(lastActivity := now)])
    case Remove(key) => Removes(s, key, s')
  }

  const START: State := State(map[], map[], map[], Ledger(0, 0, 0, 0, 0, 0))

  ghost predicate Run(most: nat, states: seq<State>, events: seq<Event>) {
    && |states| == |events| + 1 && states[0] == START
    && forall i :: 0 <= i < |events| ==> Step(most, states[i], events[i], states[i + 1])
  }

  // ---------------------------------------------------------------- counting

  lemma CountInsert<K, V>(m: map<K, V>, k: K, v: V)
    ensures |m[k := v]| == if k in m then |m| else |m| + 1
  {
    assert m[k := v].Keys == m.Keys + {k};
    assert |m[k := v].Keys| == |m[k := v]|;
  }

  lemma CountRemove<K, V>(m: map<K, V>, k: K)
    ensures |m - {k}| == if k in m then |m| - 1 else |m|
  {
    assert (m - {k}).Keys == m.Keys - {k};
    assert |(m - {k}).Keys| == |m - {k}|;
  }

  lemma CountForget(waiting: map<nat, Phase>, key: Key)
    ensures Forget(waiting, key).Keys == waiting.Keys && |Forget(waiting, key)| == |waiting|
  {
    assert Forget(waiting, key).Keys == waiting.Keys;
    assert |Forget(waiting, key).Keys| == |Forget(waiting, key)|;
  }

  // ---------------------------------------------------------------- the bound

  ghost predicate Counted(most: nat, s: State) {
    && (forall id :: id in s.waiting ==> id !in s.granted)
    && |s.waiting| + |s.granted| <= most
    && |s.sessions| + |s.granted| <= MAX_SESSIONS - 1 + most
  }

  /** Over the whole past, every slot granted at the cap was paid for by one eviction, every
      slot was used, given up or is still open, and every session inserted is still there or
      was evicted or removed. */
  ghost predicate Balanced(s: State) {
    && s.ledger.byEviction == s.ledger.evicted
    && s.ledger.below + s.ledger.byEviction == s.ledger.inserted + s.ledger.abandoned + |s.granted|
    && s.ledger.inserted == |s.sessions| + s.ledger.evicted + s.ledger.removed
  }

  ghost predicate Good(most: nat, s: State) {
    Counted(most, s) && Balanced(s)
  }

  /** A create that only moves on changes no count. */
  lemma MovesOn(most: nat, s: State, id: nat, phase: Phase)
    requires Good(most, s) && id in s.waiting
    ensures Good(most, s.(waiting := s.waiting[id := phase])) && Good(most, s.(waiting := s.waiting - {id}))
  {
    CountInsert(s.waiting, id, phase);
    CountRemove(s.waiting, id);
  }

  lemma LookStep(most: nat, s: State, id: nat, s': State)
    requires most > 0 && Good(most, s) && Looks(s, id, s')
    ensures Good(most, s')
  {
    MovesOn(most, s, id, Choose);
    CountRemove(s.waiting, id);
    CountInsert(s.granted, id, BelowCap);
  }

  lemma WaitStep(most: nat, s: State, e: Event, s': State)
    requires most > 0 && Good(most, s) && Step(most, s, e, s')
    requires e.StartScan? || e.Visit? || e.EndScan?
    ensures Good(most, s')
  {
    hide Good;
    MovesOn(most, s, e.id, if e.id in s'.waiting then s'.waiting[e.id] else Choose);
  }

  lemma EvictStep(most: nat, s: State, id: nat, s': State)
    requires most > 0 && Good(most, s) && Evicts(s, id, s')
    ensures Good(most, s')
  {
    var victim := s.waiting[id].victim;
    CountRemove(s.waiting, id);
    CountForget(s.waiting - {id}, victim);
    CountRemove(s.sessions, victim);
    CountInsert(s.granted, id, ByEviction);
    CountInsert(s.waiting, id, Choose);
    forall i | i in Forget(s.waiting - {id}, victim) ensures i in s.waiting && i != id {
      assert i in (s.waiting - {id}).Keys;
    }
  }

  lemma CreateStep(most: nat, s: State, e: Event, s': State)
    requires most > 0 && Good(most, s) && Step(most, s, e, s') && (e.Arrive? || e.Insert? || e.Leave?)
    ensures Good(most, s')
  {
    match e {
      case Arrive(id) => CountInsert(s.waiting, id, Look);
      case Insert(id, key, now) =>
        CountInsert(s.sessions, key, Entry(false, now));
        CountRemove(s.granted, id);
      case Leave(id) =>
        CountRemove(s.waiting, id);
        CountRemove(s.granted, id);
    }
  }

  lemma SessionStep(most: nat, s: State, e: Event, s': State)
    requires most > 0 && Good(most, s) && Step(most, s, e, s') && (e.Replace? || e.Finish? || e.Touch? || e.Remove?)
    ensures Good(most, s')
  {
    if e.Remove? {
      CountRemove(s.sessions, e.key);
      CountForget(s.waiting, e.key);
      forall i | i in s'.waiting ensures i in s.waiting {
        assert i in Forget(s.waiting, e.key).Keys;
      }
    } else {
      CountInsert(s.sessions, e.key, s'.sessions[e.key]);
    }
  }

  lemma GoodStep(most: nat, s: State, e: Event, s': State)
    requires most > 0 && Good(most, s) && Step(most, s, e, s')
    ensures Good(most, s')
  {
    hide Good;
    if e.LookAt? {
      LookStep(most, s, e.id, s');
    } else if e.StartScan? || e.Visit? || e.EndScan? {
      WaitStep(most, s, e, s');
    } else if e.EvictVictim? {
      EvictStep(most, s, e.id, s');
    } else if e.Arrive? || e.Insert? || e.Leave? {
      CreateStep(most, s, e, s');
    } else {
      SessionStep(most, s, e, s');
    }
  }

  /** In every interleaving of at most `most` creates at a time, sessions and granted slots
      together stay below the cap plus `most`, and the books balance: sessions, open slots,
      slots given up and sessions removed make up exactly the slots granted below the cap. */
  lemma {:induction false} CapHolds(most: nat, states: seq<State>, events: seq<Event>, i: nat)
    requires most > 0 && Run(most, states, events) && i < |states|
    ensures |states[i].sessions| + |states[i].granted| <= MAX_SESSIONS - 1 + most
    ensures var l := states[i].ledger;
            && l.byEviction == l.evicted
            && |states[i].sessions| + |states[i].granted| + l.abandoned + l.removed == l.below
    ensures Good(most, states[i])
  {
    hide Step;
    if i > 0 {
      CapHolds(most, states, events, i - 1);
      GoodStep(most, states[i - 1], events[i - 1], states[i]);
    }
  }

  /** A create leaves every open session alone; what it evicts is finished. */
  lemma CreatesSpareOpen(most: nat, s: State, e: Event, s': State, k: Key)
    requires Step(most, s, e, s') && !(e.Replace? || e.Finish? || e.Touch? || e.Remove?)
    requires k in s.sessions && !s.sessions[k].finished
    ensures k in s'.sessions && s'.sessions[k] == s.sessions[k]
  {
    match e {
      case Arrive(_) =>
      case LookAt(_) =>
      case StartScan(_) =>
      case Visit(_, _) =>
      case EndScan(_) =>
      case EvictVictim(_) =>
      case Insert(_, _, _) =>
      case Leave(_) =>
    }
  }

  /** A slot is granted below the cap, or against one session that this step evicts. */
  lemma GrantIsPaid(most: nat, s: State, e: Event, s': State, id: nat)
    requires Step(most, s, e, s') && id !in s.granted && id in s'.granted
    ensures
      || (s'.granted[id].BelowCap? && |s.sessions| < MAX_SESSIONS)
      || (s'.granted[id].ByEviction? && s'.ledger.evicted == s.ledger.evicted + 1 && |s'.sessions| == |s.sessions| - 1)
  {
    if e.EvictVictim? {
      CountRemove(s.sessions, s.waiting[e.id].victim);
    }
  }

  /** The step hands create `id` a slot. */
  predicate Grants(s: State, e: Event, id: nat) {
    || (e == LookAt(id) && |s.sessions| < MAX_SESSIONS)
    || (e == EvictVictim(id) && id in s.waiting && s.waiting[id].Evict? && s.waiting[id].victim in s.sessions
        && s.sessions[s.waiting[id].victim].finished)
  }

  lemma LookGrants(most: nat, s: State, e: Event, s': State, id: nat)
    requires Step(most, s, e, s') && e.LookAt? && id !in s.granted
    ensures id in s'.granted <==> Grants(s, e, id)
  {
  }

  lemma EvictGrants(most: nat, s: State, e: Event, s': State, id: nat)
    requires Step(most, s, e, s') && e.EvictVictim? && id !in s.granted
    ensures id in s'.granted <==> Grants(s, e, id)
    ensures e.id == id && id !in s'.granted ==> id in s'.waiting && s'.waiting[id].Choose?
  {
    hide Forget;
  }

  /** No other step of a create, and nothing that happens to sessions, grants a slot. */
  lemma ScanGrantsNothing(most: nat, s: State, e: Event, s': State)
    requires Step(most, s, e, s') && (e.Arrive? || e.StartScan? || e.Visit? || e.EndScan?)
    ensures s'.granted == s.granted
  {
    hide Better;
  }

  lemma UseGrantsNothing(most: nat, s: State, e: Event, s': State)
    requires Step(most, s, e, s') && (e.Insert? || e.Leave?)
    ensures s'.granted == s.granted - {e.id}
  {
  }

  lemma SessionGrantsNothing(most: nat, s: State, e: Event, s': State)
    requires Step(most, s, e, s') && (e.Replace? || e.Finish? || e.Touch? || e.Remove?)
    ensures s'.granted == s.granted
  {
    hide Forget;
  }

  /** A create that looks gets a slot at once exactly when the map is below the cap; one that
      removes its victim gets the slot exactly when the victim is still there and finished. */
  lemma GrantExact(most: nat, s: State, e: Event, s': State, id: nat)
    requires Step(most, s, e, s') && id !in s.granted
    ensures id in s'.granted <==> Grants(s, e, id)
    ensures e == EvictVictim(id) && id !in s'.granted ==> id in s'.waiting && s'.waiting[id].Choose?
  {
    hide Step;
    if e.LookAt? {
      LookGrants(most, s, e, s', id);
    } else if e.EvictVictim? {
      EvictGrants(most, s, e, s', id);
    } else if e.Insert? || e.Leave? {
      UseGrantsNothing(most, s, e, s');
    } else if e.Arrive? || e.StartScan? || e.Visit? || e.EndScan? {
      ScanGrantsNothing(most, s, e, s');
    } else {
      SessionGrantsNothing(most, s, e, s');
    }
  }

  /** A create is past its look since a step at which the map was at the cap. */
  ghost predicate LookedAtCap(states: seq<State>, events: seq<Event>, id: nat, j: nat, i: nat)
    requires j < i < |states| && i <= |events|
  {
    && events[j] == LookAt(id) && |states[j].sessions| >= MAX_SESSIONS
    && forall m :: j < m <= i ==> id in states[m].waiting && !states[m].waiting[id].Look?
  }

  /** Only looking takes a create past its look. */
  ghost predicate PastLook(s: State, e: Event, s': State, id: nat) {
    id in s'.waiting && !s'.waiting[id].Look? ==>
      id in s.waiting && (s.waiting[id].Look? ==> e == LookAt(id) && |s.sessions| >= MAX_SESSIONS)
  }

  lemma LookPasses(s: State, i: nat, s': State, id: nat)
    requires Looks(s, i, s')
    ensures PastLook(s, LookAt(i), s', id)
  {
  }

  lemma EvictPasses(s: State, i: nat, s': State, id: nat)
    requires Evicts(s, i, s')
    ensures PastLook(s, EvictVictim(i), s', id)
  {
  }

  lemma ForgetPasses(s: State, key: Key, s': State, id: nat)
    requires Removes(s, key, s')
    ensures PastLook(s, Remove(key), s', id)
  {
  }

  lemma LookStays(most: nat, s: State, e: Event, s': State, id: nat)
    requires Step(most, s, e, s')
    ensures PastLook(s, e, s', id)
  {
    hide Better, Looks, Evicts, Removes;
    match e {
      case Arrive(_) =>
      case LookAt(i) => LookPasses(s, i, s', id);
      case StartScan(_) =>
      case Visit(_, _) =>
      case EndScan(_) =>
      case EvictVictim(i) => EvictPasses(s, i, s', id);
      case Insert(_, _, _) =>
      case Leave(_) =>
      case Replace(_, _) =>
      case Finish(_, _) =>
      case Touch(_, _) =>
      case Remove(key) => ForgetPasses(s, key, s', id);
    }
  }

  /** In every run, a create that has to scan found the map at the cap when it looked. So only
      such a create is ever turned away. */
  lemma {:induction false} OnlyAtCap(most: nat, states: seq<State>, events: seq<Event>, id: nat, i: nat) returns (j: nat)
    requires Run(most, states, events) && i < |states| && id in states[i].waiting && !states[i].waiting[id].Look?
    ensures j < i && LookedAtCap(states, events, id, j, i)
  {
    hide Step;
    if i == 0 {
      assert false;
    } else {
      assert Step(most, states[i - 1], events[i - 1], states[i]);
      LookStays(most, states[i - 1], events[i - 1], states[i], id);
      if states[i - 1].waiting[id].Look? {
        j := i - 1;
      } else {
        j := OnlyAtCap(most, states, events, id, i - 1);
      }
    }
  }

  // ---------------------------------------------------------------- what the map holds

  /** The event makes the session what it is: open or finished. */
  predicate Sets(e: Event, key: Key) {
    (e.Insert? || e.Replace? || e.Finish?) && e.key == key
  }

  predicate Uses(e: Event, key: Key) {
    Sets(e, key) || (e.Touch? && e.key == key)
  }

  function LastSet(events: seq<Event>, i: nat, key: Key): (j: Option<nat>)
    requires i <= |events|
    ensures j.Some? ==> j.value < i && Sets(events[j.value], key)
    ensures forall k :: (if j.Some? then j.value + 1 else 0) <= k < i ==> !Sets(events[k], key)
  {
    if i == 0 then None else if Sets(events[i - 1], key) then Some(i - 1) else LastSet(events, i - 1, key)
  }

  function LastUse(events: seq<Event>, i: nat, key: Key): (j: Option<nat>)
    requires i <= |events|
    ensures j.Some? ==> j.value < i && Uses(events[j.value], key)
    ensures forall k :: (if j.Some? then j.value + 1 else 0) <= k < i ==> !Uses(events[k], key)
  {
    if i == 0 then None else if Uses(events[i - 1], key) then Some(i - 1) else LastUse(events, i - 1, key)
  }

  predicate Enters(e: Event, k: Key) {
    e.Insert? && e.key == k
  }

  /** The step takes a session out of the map: it is removed, or finished and some create's
      victim. */
  ghost predicate TakesOut(s: State, e: Event, k: Key) {
    e == Remove(k) || (e.EvictVictim? && e.id in s.waiting && s.waiting[e.id] == Evict(k) && k in s.sessions && s.sessions[k].finished)
  }

  /** The sessions that a step leaves. */
  function Entries(s: State, e: Event): map<Key, Entry> {
    match e
    case Insert(_, key, now) => s.sessions[key := Entry(false, now)]
    case Replace(key, now) => s.sessions[key := Entry(false, now)]
    case Finish(key, now) => s.sessions[key := Entry(true, now)]
    case Touch(key, now) => if key in s.sessions then s.sessions[key := s.sessions[key].(lastActivity := now)] else s.sessions
    case Remove(key) => s.sessions - {key}
    case EvictVictim(id) =>
      if id in s.waiting && s.waiting[id].Evict? && s.waiting[id].victim in s.sessions && s.sessions[s.waiting[id].victim].finished
      then s.sessions - {s.waiting[id].victim} else s.sessions
    case _ => s.sessions
  }

  lemma EvictEntries(s: State, i: nat, s': State)
    requires Evicts(s, i, s')
    ensures s'.sessions == Entries(s, EvictVictim(i))
  {
    hide Forget;
  }

  lemma StepEntries(most: nat, s: State, e: Event, s': State)
    requires Step(most, s, e, s')
    ensures s'.sessions == Entries(s, e) && (e.Replace? || e.Finish? || e.Touch? ==> e.key in s.sessions)
  {
    hide Forget, Better, Evicts;
    if e.EvictVictim? {
      EvictEntries(s, e.id, s');
    }
  }

  /** A session enters the map by an insert, and leaves it by a removal or, finished, as the
      victim of a create. */
  lemma EntryStays(most: nat, s: State, e: Event, s': State, k: Key)
    requires Step(most, s, e, s')
    ensures k in s'.sessions <==> Enters(e, k) || (k in s.sessions && !TakesOut(s, e, k))
  {
    hide Step;
    StepEntries(most, s, e, s');
  }

  lemma EntryStep(most: nat, s: State, e: Event, s': State, k: Key)
    requires Step(most, s, e, s') && k in s'.sessions && (Sets(e, k) || k in s.sessions)
    ensures s'.sessions[k] == if Sets(e, k) then Entry(e.Finish?, e.now)
                              else if Uses(e, k) then s.sessions[k].(lastActivity := e.now) else s.sessions[k]
  {
    hide Step;
    StepEntries(most, s, e, s');
  }

  /** In every run, a session is finished exactly when the last event that made it what it is
      was its finish, and its last activity is the time of the last event that used it. */
  lemma {:induction false} EntryExact(most: nat, states: seq<State>, events: seq<Event>, i: nat, k: Key)
    requires Run(most, states, events) && i < |states| && k in states[i].sessions
    ensures var made, used := LastSet(events, i, k), LastUse(events, i, k);
            && made.Some? && (states[i].sessions[k].finished <==> events[made.value].Finish?)
            && used.Some? && states[i].sessions[k].lastActivity == events[used.value].now
  {
    hide Step;
    if i == 0 {
      assert false;
    } else {
      assert Step(most, states[i - 1], events[i - 1], states[i]);
      EntryStays(most, states[i - 1], events[i - 1], states[i], k);
      EntryStep(most, states[i - 1], events[i - 1], states[i], k);
      if !Sets(events[i - 1], k) {
        EntryExact(most, states, events, i - 1, k);
      }
    }
  }

  // ---------------------------------------------------------------- scans

  /** A scan of create `id` begins with event `i` and ends with event `j`. */
  ghost predicate Scans(states: seq<State>, events: seq<Event>, id: nat, i: nat, j: nat) {
    && |states| == |events| + 1 && i < j < |events| && events[i] == StartScan(id) && events[j] == EndScan(id)
    && forall m :: i < m <= j ==> id in states[m].waiting && states[m].waiting[id].Scan?
  }

  ghost predicate FinishedThroughout(states: seq<State>, i: nat, j: nat, k: Key)
    requires i <= j < |states|
  {
    forall n :: i <= n <= j ==> k in states[n].sessions && states[n].sessions[k].finished
  }

  predicate AllOpen(sessions: map<Key, Entry>) {
    forall k :: k in sessions ==> !sessions[k].finished
  }

  ghost predicate OpenThroughout(states: seq<State>, i: nat, j: nat)
    requires i <= j < |states|
  {
    forall n :: i <= n <= j ==> AllOpen(states[n].sessions)
  }

  /** The scan of create `id` in one state. */
  predicate Scanning(s: State, id: nat) {
    id in s.waiting && s.waiting[id].Scan?
  }

  lemma ScanBegins(most: nat, states: seq<State>, events: seq<Event>, id: nat, i: nat, j: nat)
    requires Run(most, states, events) && Scans(states, events, id, i, j)
    ensures states[i + 1].waiting[id] == Scan(states[i].sessions.Keys, None) && states[i + 1].sessions == states[i].sessions
  {
    assert Step(most, states[i], events[i], states[i + 1]);
  }

  lemma ScanGoesOn(most: nat, states: seq<State>, events: seq<Event>, id: nat, i: nat, j: nat, m: nat)
    requires Run(most, states, events) && Scans(states, events, id, i, j) && i + 1 < m <= j
    ensures Step(most, states[m - 1], events[m - 1], states[m]) && Scanning(states[m - 1], id) && Scanning(states[m], id)
  {
    hide Step;
    assert states[m - 1 + 1] == states[m];
  }

  /** A finished session that stays in the map is still due until the scan has a victim. */
  lemma {:induction false} StaysDue(most: nat, states: seq<State>, events: seq<Event>, id: nat, i: nat, j: nat, k: Key, m: nat)
    requires Run(most, states, events) && Scans(states, events, id, i, j) && i < m <= j
    requires FinishedThroughout(states, i, j, k)
    ensures k in states[m].waiting[id].due || states[m].waiting[id].best.Some?
    decreases m
  {
    hide Step;
    if m == i + 1 {
      ScanBegins(most, states, events, id, i, j);
    } else {
      StaysDue(most, states, events, id, i, j, k, m - 1);
      ScanGoesOn(most, states, events, id, i, j, m);
      KeepsDue(most, states[m - 1], events[m - 1], states[m], id, k);
    }
  }

  /** One step of a scan: it stays as it is, visits a session or forgets one that left. */
  ghost predicate ScanStep(s: State, phase: Phase, s': State, phase': Phase)
    requires phase.Scan?
  {
    || phase' == phase
    || (exists key :: key in s.sessions && phase' == Scan(phase.due - {key}, Better(phase.best, key, s.sessions[key])))
    || (exists key :: key !in s'.sessions && phase' == phase.(due := phase.due - {key}))
  }

  lemma LookLeaves(s: State, i: nat, s': State, id: nat)
    requires Looks(s, i, s') && Scanning(s, id)
    ensures id in s'.waiting && s'.waiting[id] == s.waiting[id]
  {
  }

  lemma EndLeaves(s: State, i: nat, s': State, id: nat)
    requires EndsScan(s, i, s') && Scanning(s, id) && Scanning(s', id)
    ensures s'.waiting[id] == s.waiting[id]
  {
  }

  lemma VisitScans(s: State, i: nat, key: Key, s': State, id: nat)
    requires Visits(s, i, key, s') && Scanning(s, id)
    ensures ScanStep(s, s.waiting[id], s', s'.waiting[id])
  {
    hide Better;
  }

  lemma EvictScans(s: State, i: nat, s': State, id: nat)
    requires Evicts(s, i, s') && Scanning(s, id) && Scanning(s', id)
    ensures ScanStep(s, s.waiting[id], s', s'.waiting[id])
  {
    hide Better;
    var victim := s.waiting[i].victim;
    if victim in s.sessions && s.sessions[victim].finished {
      assert victim !in s'.sessions && s'.waiting[id] == Forgets(s.waiting[id], victim);
    }
  }

  lemma RemoveScans(s: State, key: Key, s': State, id: nat)
    requires Removes(s, key, s') && Scanning(s, id)
    ensures ScanStep(s, s.waiting[id], s', s'.waiting[id])
  {
    hide Better;
    assert key !in s'.sessions && s'.waiting[id] == Forgets(s.waiting[id], key);
  }

  lemma ScanSteps(most: nat, s: State, e: Event, s': State, id: nat)
    requires Step(most, s, e, s') && Scanning(s, id) && Scanning(s', id)
    ensures ScanStep(s, s.waiting[id], s', s'.waiting[id])
  {
    hide Better, Looks, Visits, EndsScan, Evicts, Removes;
    match e {
      case Arrive(_) =>
      case LookAt(i) => LookLeaves(s, i, s', id);
      case StartScan(_) =>
      case Visit(i, key) => VisitScans(s, i, key, s', id);
      case EndScan(i) => EndLeaves(s, i, s', id);
      case EvictVictim(i) => EvictScans(s, i, s', id);
      case Insert(_, _, _) =>
      case Leave(_) =>
      case Replace(_, _) =>
      case Finish(_, _) =>
      case Touch(_, _) =>
      case Remove(key) => RemoveScans(s, key, s', id);
    }
  }

  lemma KeepsDue(most: nat, s: State, e: Event, s': State, id: nat, k: Key)
    requires Step(most, s, e, s') && Scanning(s, id) && Scanning(s', id)
    requires k in s.sessions && s.sessions[k].finished && k in s'.sessions
    requires k in s.waiting[id].due || s.waiting[id].best.Some?
    ensures k in s'.waiting[id].due || s'.waiting[id].best.Some?
  {
    ScanSteps(most, s, e, s', id);
    hide Step;
  }

  // ---------------------------------------------------------------- a create can always go on

  /** A scan is due only at sessions that are still in the map. */
  ghost predicate DueIsThere(s: State, id: nat) {
    Scanning(s, id) ==> s.waiting[id].due <= s.sessions.Keys
  }

  lemma EvictKeepsDue(s: State, i: nat, s': State, id: nat)
    requires Evicts(s, i, s') && DueIsThere(s, id)
    ensures DueIsThere(s', id)
  {
  }

  lemma RemoveKeepsDue(s: State, key: Key, s': State, id: nat)
    requires Removes(s, key, s') && DueIsThere(s, id)
    ensures DueIsThere(s', id)
  {
  }

  lemma DueStep(most: nat, s: State, e: Event, s': State, id: nat)
    requires Step(most, s, e, s') && DueIsThere(s, id)
    ensures DueIsThere(s', id)
  {
    hide Better, Evicts, Removes;
    if e.EvictVictim? {
      EvictKeepsDue(s, e.id, s', id);
    } else if e.Remove? {
      RemoveKeepsDue(s, e.key, s', id);
    }
  }

  lemma {:induction false} DueHolds(most: nat, states: seq<State>, events: seq<Event>, i: nat, id: nat)
    requires Run(most, states, events) && i < |states|
    ensures DueIsThere(states[i], id)
  {
    hide Step, DueIsThere;
    if i == 0 {
      NoScan(id);
    } else {
      DueHolds(most, states, events, i - 1, id);
      assert Step(most, states[i - 1], events[i - 1], states[i]);
      DueStep(most, states[i - 1], events[i - 1], states[i], id);
    }
  }

  lemma NoScan(id: nat)
    ensures DueIsThere(START, id)
  {
  }

  /** The next event of a waiting create: a look, a new scan, a visit to a session that is
      due, the end of the scan or a removal. */
  function NextOf(phase: Phase, id: nat, due: Key): Event {
    match phase
    case Look => LookAt(id)
    case Choose => StartScan(id)
    case Scan(keys, _) => if keys == {} then EndScan(id) else Visit(id, due)
    case Evict(_) => EvictVictim(id)
  }

  /** In every run no create waits for another: each can take its next step at once, whatever
      session it has yet to visit, and with a slot it can insert any new session. */
  lemma CreatesGoOn(most: nat, states: seq<State>, events: seq<Event>, i: nat, id: nat, key: Key, now: nat)
    requires Run(most, states, events) && i < |states|
    ensures var s := states[i];
            id in s.waiting && (s.waiting[id].Scan? && s.waiting[id].due != {} ==> key in s.waiting[id].due) ==>
              exists s' :: Step(most, s, NextOf(s.waiting[id], id, key), s')
    ensures var s := states[i];
            (exists s' :: Step(most, s, Insert(id, key, now), s')) <==> id in s.granted && key !in s.sessions
  {
    hide Run, Better, Forget;
    DueHolds(most, states, events, i, id);
    var s := states[i];
    if id in s.waiting && (s.waiting[id].Scan? && s.waiting[id].due != {} ==> key in s.waiting[id].due) {
      NextStep(most, s, id, key);
    }
    var s' := s.(sessions := s.sessions[key := Entry(false, now)], granted := s.granted - {id},
                 ledger := s.ledger.(inserted := s.ledger.inserted + 1));
    assert Step(most, s, Insert(id, key, now), s') <==> Inserts(s, id, key, now, s');
  }

  lemma CanLook(most: nat, s: State, id: nat) returns (s': State)
    requires id in s.waiting && s.waiting[id].Look?
    ensures Step(most, s, LookAt(id), s')
  {
    s' := if |s.sessions| < MAX_SESSIONS
          then s.(waiting := s.waiting - {id}, granted := s.granted[id := BelowCap], ledger := s.ledger.(below := s.ledger.below + 1))
          else s.(waiting := s.waiting[id := Choose]);
  }

  lemma CanScan(most: nat, s: State, id: nat, key: Key) returns (s': State)
    requires id in s.waiting && s.waiting[id].Scan?
    requires s.waiting[id].due != {} ==> key in s.sessions
    ensures Step(most, s, if s.waiting[id].due == {} then EndScan(id) else Visit(id, key), s')
  {
    hide Better;
    var due, best := s.waiting[id].due, s.waiting[id].best;
    if due == {} {
      s' := if best.None? then s.(waiting := s.waiting - {id}) else s.(waiting := s.waiting[id := Evict(best.value.0)]);
    } else {
      s' := s.(waiting := s.waiting[id := Scan(due - {key}, Better(best, key, s.sessions[key]))]);
    }
  }

  lemma CanEvict(most: nat, s: State, id: nat) returns (s': State)
    requires id in s.waiting && s.waiting[id].Evict?
    ensures Step(most, s, EvictVictim(id), s')
  {
    hide Forget;
    var victim := s.waiting[id].victim;
    s' := if victim in s.sessions && s.sessions[victim].finished
          then State(s.sessions - {victim}, Forget(s.waiting - {id}, victim), s.granted[id := ByEviction],
                     s.ledger.(byEviction := s.ledger.byEviction + 1, evicted := s.ledger.evicted + 1))
          else s.(waiting := s.waiting[id := Choose]);
  }

  lemma CanStart(most: nat, s: State, id: nat) returns (s': State)
    requires id in s.waiting && s.waiting[id].Choose?
    ensures Step(most, s, StartScan(id), s')
  {
    s' := s.(waiting := s.waiting[id := Scan(s.sessions.Keys, None)]);
  }

  lemma NextStep(most: nat, s: State, id: nat, key: Key)
    requires id in s.waiting && DueIsThere(s, id)
    requires s.waiting[id].Scan? && s.waiting[id].due != {} ==> key in s.waiting[id].due
    ensures exists s' :: Step(most, s, NextOf(s.waiting[id], id, key), s')
  {
    hide Step;
    var s';
    match s.waiting[id] {
      case Look => s' := CanLook(most, s, id);
      case Choose => s' := CanStart(most, s, id);
      case Scan(_, _) => s' := CanScan(most, s, id, key);
      case Evict(_) => s' := CanEvict(most, s, id);
    }
    assert Step(most, s, NextOf(s.waiting[id], id, key), s');
  }

  // ---------------------------------------------------------------- what a scan finds

  lemma {:induction false} StaysWithout(most: nat, states: seq<State>, events: seq<Event>, id: nat, i: nat, j: nat, m: nat)
    requires Run(most, states, events) && Scans(states, events, id, i, j) && i < m <= j && OpenThroughout(states, i, j)
    ensures states[m].waiting[id].best.None?
    decreases m
  {
    hide Step, AllOpen;
    if m == i + 1 {
      ScanBegins(most, states, events, id, i, j);
    } else {
      StaysWithout(most, states, events, id, i, j, m - 1);
      ScanGoesOn(most, states, events, id, i, j, m);
      KeepsWithout(most, states[m - 1], events[m - 1], states[m], id);
    }
  }

  lemma KeepsWithout(most: nat, s: State, e: Event, s': State, id: nat)
    requires Step(most, s, e, s') && Scanning(s, id) && Scanning(s', id)
    requires s.waiting[id].best.None? && AllOpen(s.sessions)
    ensures s'.waiting[id].best.None?
  {
    ScanSteps(most, s, e, s', id);
    hide Step;
  }

  /** However the map changes during a scan: a finished session that is there all the time
      keeps the create from being turned away, and where all sessions are open all the time
      it is turned away. */
  lemma TurnedAway(most: nat, states: seq<State>, events: seq<Event>, id: nat, i: nat, j: nat)
    requires Run(most, states, events) && Scans(states, events, id, i, j)
    ensures (exists k :: FinishedThroughout(states, i, j, k)) ==> id in states[j + 1].waiting && states[j + 1].waiting[id].Evict?
    ensures OpenThroughout(states, i, j) ==> id !in states[j + 1].waiting
  {
    hide FinishedThroughout, OpenThroughout;
    ScanEnds(most, states, events, id, i, j);
    if exists k :: FinishedThroughout(states, i, j, k) {
      var k :| FinishedThroughout(states, i, j, k);
      StaysDue(most, states, events, id, i, j, k, j);
    }
    if OpenThroughout(states, i, j) {
      StaysWithout(most, states, events, id, i, j, j);
    }
  }

  lemma ScanEnds(most: nat, states: seq<State>, events: seq<Event>, id: nat, i: nat, j: nat)
    requires Run(most, states, events) && Scans(states, events, id, i, j)
    ensures Scanning(states[j], id) && EndsScan(states[j], id, states[j + 1])
  {
    assert Step(most, states[j], events[j], states[j + 1]);
  }

  /** The best so far is one of the finished sessions, and every finished session that was
      idle for longer is still due. */
  ghost predicate Scanned(sessions: map<Key, Entry>, phase: Phase)
    requires phase.Scan?
  {
    && (phase.best.Some? ==> phase.best.value.0 in sessions && sessions[phase.best.value.0] == Entry(true, phase.best.value.1))
    && forall k :: k in sessions && sessions[k].finished && k !in phase.due ==>
         phase.best.Some? && phase.best.value.1 <= sessions[k].lastActivity
  }

  lemma {:induction false} QuietScan(most: nat, states: seq<State>, events: seq<Event>, id: nat, i: nat, j: nat, m: nat)
    requires Run(most, states, events) && Scans(states, events, id, i, j) && i < m <= j
    requires forall n :: i <= n <= j ==> states[n].sessions == states[i].sessions
    ensures Scanned(states[i].sessions, states[m].waiting[id])
    decreases m
  {
    hide Step, Scanned;
    if m == i + 1 {
      ScanBegins(most, states, events, id, i, j);
      NothingScanned(states[i].sessions);
    } else {
      QuietScan(most, states, events, id, i, j, m - 1);
      ScanGoesOn(most, states, events, id, i, j, m);
      KeepsScanned(most, states[m - 1], events[m - 1], states[m], id);
    }
  }

  lemma NothingScanned(sessions: map<Key, Entry>)
    ensures Scanned(sessions, Scan(sessions.Keys, None))
  {
  }

  lemma KeepsScanned(most: nat, s: State, e: Event, s': State, id: nat)
    requires Step(most, s, e, s') && Scanning(s, id) && Scanning(s', id) && s'.sessions == s.sessions
    requires Scanned(s.sessions, s.waiting[id])
    ensures Scanned(s.sessions, s'.waiting[id])
  {
    ScanSteps(most, s, e, s', id);
    hide Step;
  }

  /** In a map that does not change meanwhile, the victim is a finished session that has
      been idle for longest. */
  lemma OldestIsChosen(most: nat, states: seq<State>, events: seq<Event>, id: nat, i: nat, j: nat)
    requires Run(most, states, events) && Scans(states, events, id, i, j)
    requires forall n :: i <= n <= j ==> states[n].sessions == states[i].sessions
    requires id in states[j + 1].waiting && states[j + 1].waiting[id].Evict?
    ensures var sessions, victim := states[i].sessions, states[j + 1].waiting[id].victim;
            && victim in sessions && sessions[victim].finished
            && forall k :: k in sessions && sessions[k].finished ==> sessions[victim].lastActivity <= sessions[k].lastActivity
  {
    ScanEnds(most, states, events, id, i, j);
    QuietScan(most, states, events, id, i, j, j);
  }
}
