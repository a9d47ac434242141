/**
  The caches of source/common/listformatter.cpp, source/common/loadednormalizer2impl.cpp and source/common/locutil.cpp:
  look up under a lock, load outside it, look again under the lock, then publish or discard. Any number of threads
  take the steps in any order.
 */
module CacheProtocol {
  import opened Basics

  type Key = int
  type Object = nat
  type Thread = nat

  /** Where the loser of a race deletes its object: before or after it releases the lock. */
  datatype Variant = DeleteLocked | DeleteUnlocked

  /** Where a thread is in a call. */
  datatype Pc =
    | Idle
    | Wants(key: Key)                                            // before the first critical section
    | Looking(key: Key)                                          // lock held
    | Looked(key: Key, found: Option<Object>)                    // lock held
    | Loading(key: Key)
    | Loaded(key: Key, mine: Object)                             // before the second critical section
    | Rechecking(key: Key, mine: Object)                         // lock held
    | Rechecked(key: Key, mine: Object, temp: Option<Object>)    // lock held
    | Done(key: Key, result: Object)                             // lock held
    | Losing(key: Key, mine: Object, result: Object)
    | Returning(key: Key, result: Object)

  /** returned is the history of results; objects are numbered in the order in which they are loaded. */
  datatype State = State(
    cache: map<Key, Object>,
    holder: Option<Thread>,
    pcs: map<Thread, Pc>,
    loaded: nat,
    deleted: multiset<Object>,
    returned: set<(Key, Object)>)

  datatype Action = Call(key: Key) | Acquire | Get | Release | Load(ok: bool) | Put | Discard | Return

  function PcOf(s: State, t: Thread): Pc { if t in s.pcs then s.pcs[t] else Idle }

  function At(s: State, t: Thread, pc: Pc): State { s.(pcs := s.pcs[t := pc]) }

  function Lookup(s: State, k: Key): Option<Object> { if k in s.cache then Some(s.cache[k]) else None }

  /** What an action of thread t does, if it is possible. */
  function Apply(v: Variant, s: State, t: Thread, a: Action): Option<State> {
    match (PcOf(s, t), a)
    case (Idle, Call(k)) => Some(At(s, t, Wants(k)))
    case (Wants(k), Acquire) => if s.holder.None? then Some(At(s, t, Looking(k)).(holder := Some(t))) else None
    case (Looking(k), Get) => Some(At(s, t, Looked(k, Lookup(s, k))))
    case (Looked(k, found), Release) =>
      Some(At(s, t, if found.Some? then Returning(k, found.value) else Loading(k)).(holder := None))
    case (Loading(k), Load(ok)) =>
      if ok then Some(At(s, t, Loaded(k, s.loaded)).(loaded := s.loaded + 1)) else Some(At(s, t, Idle))
    case (Loaded(k, o), Acquire) => if s.holder.None? then Some(At(s, t, Rechecking(k, o)).(holder := Some(t)))
      else None
    case (Rechecking(k, o), Get) => Some(At(s, t, Rechecked(k, o, Lookup(s, k))))
    case (Rechecked(k, o, temp), Put) =>
      if temp.None? then Some(At(s, t, Done(k, o)).(cache := s.cache[k := o])) else None
    case (Rechecked(k, o, temp), Discard) =>
      if temp.Some? && v == DeleteLocked then Some(At(s, t, Done(k, temp.value)).(deleted := s.deleted + multiset{o}))
        else None
    case (Rechecked(k, o, temp), Release) =>
      if temp.Some? && v == DeleteUnlocked then Some(At(s, t, Losing(k, o, temp.value)).(holder := None)) else None
    case (Done(k, r), Release) => Some(At(s, t, Returning(k, r)).(holder := None))
    case (Losing(k, o, r), Discard) => Some(At(s, t, Returning(k, r)).(deleted := s.deleted + multiset{o}))
    case (Returning(k, r), Return) => Some(At(s, t, Idle).(returned := s.returned + {(k, r)}))
    case _ => None
  }

  ghost predicate Initial(s: State) {
    s == State(map[], None, map[], 0, multiset{}, {})
  }

  ghost predicate Next(v: Variant, s: State, s': State) {
    exists t: Thread, a: Action :: Apply(v, s, t, a) == Some(s')
  }

  ghost predicate IsRun(v: Variant, run: seq<State>) {
    |run| > 0 && Initial(run[0]) && forall i :: 0 <= i < |run| - 1 ==> Next(v, run[i], run[i + 1])
  }

  // ---------- what every step keeps ----------

  predicate HoldsLock(pc: Pc) { pc.Looking? || pc.Looked? || pc.Rechecking? || pc.Rechecked? || pc.Done? }

  /** The object that only this thread knows. */
  function Own(pc: Pc): Option<Object> {
    if pc.Loaded? || pc.Rechecking? || pc.Rechecked? || pc.Losing? then Some(pc.mine) else None
  }

  ghost predicate IsCached(s: State, o: Object) { exists k :: k in s.cache && s.cache[k] == o }

  predicate IsEntry(s: State, k: Key, o: Object) { k in s.cache && s.cache[k] == o }

  /** What a thread has seen still holds: entries stay, and under the lock an absent entry stays absent. */
  predicate SeesRight(s: State, pc: Pc) {
    match pc
    case Looked(k, found) => found.Some? ==> IsEntry(s, k, found.value)
    case Rechecked(k, _, temp) => temp == Lookup(s, k)
    case Done(k, r) => IsEntry(s, k, r)
    case Losing(k, _, r) => IsEntry(s, k, r)
    case Returning(k, r) => IsEntry(s, k, r)
    case _ => true
  }

  ghost predicate LockRight(s: State) {
    forall t: Thread :: HoldsLock(PcOf(s, t)) <==> s.holder == Some(t)
  }

  ghost predicate SightRight(s: State) {
    forall t: Thread :: SeesRight(s, PcOf(s, t))
  }

  /** An object is owned by one thread at most, and then it is neither published nor deleted. */
  ghost predicate OwnersRight(s: State) {
    && (forall t: Thread, o :: Own(PcOf(s, t)) == Some(o) ==> o < s.loaded && o !in s.deleted && !IsCached(s, o))
    && (forall t: Thread, u: Thread :: t != u && Own(PcOf(s, t)).Some? ==> Own(PcOf(s, t)) != Own(PcOf(s, u)))
  }

  ghost predicate EntriesRight(s: State) {
    && (forall k :: k in s.cache ==> s.cache[k] < s.loaded && s.cache[k] !in s.deleted)
    && (forall k, m :: k in s.cache && m in s.cache && k != m ==> s.cache[k] != s.cache[m])
    && (forall k: Key, o: Object :: (k, o) in s.returned ==> IsEntry(s, k, o))
  }

  ghost predicate IsOwned(s: State, o: Object) { exists t: Thread :: Own(PcOf(s, t)) == Some(o) }

  /** Every loaded object is published, owned by a thread, or deleted once. */
  ghost predicate Conserved(s: State) {
    forall o: Object ::
      && s.deleted[o] <= (if o < s.loaded then 1 else 0)
      && (o < s.loaded ==> IsCached(s, o) || s.deleted[o] == 1 || IsOwned(s, o))
  }

  ghost predicate Inv(s: State) {
    LockRight(s) && SightRight(s) && OwnersRight(s) && EntriesRight(s) && Conserved(s)
  }

  lemma InitialInv(s: State)
    requires Initial(s)
    ensures Inv(s)
  {
  }

  /** The effect of a step on each thread. */
  ghost predicate Moves(s: State, s': State, t: Thread, pc: Pc) {
    forall u: Thread :: PcOf(s', u) == if u == t then pc else PcOf(s, u)
  }

  lemma StepMoves(v: Variant, s: State, t: Thread, a: Action, s': State)
    requires Apply(v, s, t, a) == Some(s')
    ensures Moves(s, s', t, PcOf(s', t))
  {
  }

  lemma StepLock(v: Variant, s: State, t: Thread, a: Action, s': State)
    requires Inv(s) && Apply(v, s, t, a) == Some(s')
    ensures LockRight(s')
  {
    hide SightRight, OwnersRight, EntriesRight, Conserved;
    StepMoves(v, s, t, a, s');
    assert HoldsLock(PcOf(s, t)) <==> s.holder == Some(t);
  }

  /** Only the thread with the lock changes the cache, and only where there was no entry. */
  lemma StepCache(v: Variant, s: State, t: Thread, a: Action, s': State)
    requires Inv(s) && Apply(v, s, t, a) == Some(s')
    ensures s'.cache != s.cache ==>
              a == Put && PcOf(s, t).Rechecked? && PcOf(s, t).key !in s.cache
                && s'.cache == s.cache[PcOf(s, t).key := PcOf(s, t).mine]
    ensures forall k :: k in s.cache ==> k in s'.cache && s'.cache[k] == s.cache[k]
  {
    hide LockRight, OwnersRight, EntriesRight, Conserved;
    assert SeesRight(s, PcOf(s, t));
  }

  lemma StepSight(v: Variant, s: State, t: Thread, a: Action, s': State)
    requires Inv(s) && Apply(v, s, t, a) == Some(s')
    ensures SightRight(s')
  {
    hide OwnersRight, EntriesRight, Conserved;
    StepMoves(v, s, t, a, s');
    StepCache(v, s, t, a, s');
    forall u: Thread
      ensures SeesRight(s', PcOf(s', u))
    {
      assert SeesRight(s, PcOf(s, u));
      assert HoldsLock(PcOf(s, u)) <==> s.holder == Some(u);
      assert HoldsLock(PcOf(s, t)) <==> s.holder == Some(t);
    }
  }

  lemma StepOwners(v: Variant, s: State, t: Thread, a: Action, s': State)
    requires Inv(s) && Apply(v, s, t, a) == Some(s')
    ensures OwnersRight(s')
  {
    hide LockRight, SightRight, Apply, PcOf, Own, IsCached;
    StepMoves(v, s, t, a, s');
    StepOwn(v, s, t, a, s');
    StepShared(v, s, t, a, s');
    forall u: Thread, o | Own(PcOf(s', u)) == Some(o)
      ensures o < s'.loaded && o !in s'.deleted && !IsCached(s', o)
    {
      OwnedIsPrivate(v, s, t, a, s', u, o);
    }
    forall u: Thread, w: Thread | u != w && Own(PcOf(s', u)).Some?
      ensures Own(PcOf(s', u)) != Own(PcOf(s', w))
    {
      OwnedOnce(v, s, t, a, s', u, w);
    }
  }

  lemma OwnedIsPrivate(v: Variant, s: State, t: Thread, a: Action, s': State, u: Thread, o: Object)
    requires Inv(s) && Apply(v, s, t, a) == Some(s') && Own(PcOf(s', u)) == Some(o)
    ensures o < s'.loaded && o !in s'.deleted && !IsCached(s', o)
  {
    hide LockRight, SightRight, Apply, PcOf, Own;
    StepMoves(v, s, t, a, s');
    StepOwn(v, s, t, a, s');
    StepShared(v, s, t, a, s');
    if u == t && Own(PcOf(s, t)) != Some(o) {
      assert s.deleted[o] == 0;
      assert !IsCached(s, o);
    } else {
      assert Own(PcOf(s, u)) == Some(o);
      assert u != t && Own(PcOf(s, t)).Some? ==> Own(PcOf(s, t)) != Own(PcOf(s, u));
    }
  }

  lemma OwnedOnce(v: Variant, s: State, t: Thread, a: Action, s': State, u: Thread, w: Thread)
    requires Inv(s) && Apply(v, s, t, a) == Some(s') && u != w && Own(PcOf(s', u)).Some?
    ensures Own(PcOf(s', u)) != Own(PcOf(s', w))
  {
    hide LockRight, SightRight, Apply, PcOf, Own, IsCached;
    StepMoves(v, s, t, a, s');
    StepOwn(v, s, t, a, s');
  }

  /** How the step changes what the thread owns. */
  lemma StepOwn(v: Variant, s: State, t: Thread, a: Action, s': State)
    requires Inv(s) && Apply(v, s, t, a) == Some(s')
    ensures var was, now := Own(PcOf(s, t)), Own(PcOf(s', t));
            || now == was
            || (now == None && was.Some?)
            || (was == None && now == Some(s.loaded) && s'.loaded == s.loaded + 1)
  {
  }

  /** What becomes published or deleted was the thread's own, and is not any more. */
  lemma StepShared(v: Variant, s: State, t: Thread, a: Action, s': State)
    requires Inv(s) && Apply(v, s, t, a) == Some(s')
    ensures s.loaded <= s'.loaded
    ensures forall o: Object :: IsCached(s', o) ==>
              IsCached(s, o) || (Own(PcOf(s, t)) == Some(o) && Own(PcOf(s', t)) == None && s'.deleted == s.deleted)
    ensures s'.deleted == s.deleted
            || (Own(PcOf(s, t)).Some? && Own(PcOf(s', t)) == None && s'.cache == s.cache
                && s'.deleted == s.deleted + multiset{Own(PcOf(s, t)).value})
    ensures Own(PcOf(s, t)).Some? && Own(PcOf(s', t)) == None ==>
              s'.deleted != s.deleted || IsCached(s', Own(PcOf(s, t)).value)
  {
    hide LockRight, OwnersRight, EntriesRight, Conserved;
    assert SeesRight(s, PcOf(s, t));
    if a == Put {
      var pc := PcOf(s, t);
      assert s'.cache[pc.key] == pc.mine;
      forall o: Object | IsCached(s', o)
        ensures IsCached(s, o) || o == pc.mine
      {
        var k :| k in s'.cache && s'.cache[k] == o;
        if k != pc.key { assert s.cache[k] == o; }
      }
    }
  }

  lemma StepReturned(v: Variant, s: State, t: Thread, a: Action, s': State)
    requires Apply(v, s, t, a) == Some(s')
    ensures s.returned <= s'.returned
    ensures forall k: Key, o: Object :: (k, o) in s'.returned ==> (k, o) in s.returned || PcOf(s, t) == Returning(k, o)
  {
  }

  lemma EntryLives(v: Variant, s: State, t: Thread, a: Action, s': State, k: Key)
    requires Inv(s) && Apply(v, s, t, a) == Some(s') && k in s'.cache
    ensures s'.cache[k] < s'.loaded && s'.cache[k] !in s'.deleted
  {
    hide LockRight, SightRight, Conserved, Apply, PcOf;
    StepCache(v, s, t, a, s');
    StepShared(v, s, t, a, s');
    var o := s'.cache[k];
    if k in s.cache {
      assert IsCached(s, o);
    } else {
      assert Own(PcOf(s, t)) == Some(o);
    }
  }

  lemma EntriesDiffer(v: Variant, s: State, t: Thread, a: Action, s': State, k: Key, m: Key)
    requires Inv(s) && Apply(v, s, t, a) == Some(s') && k in s'.cache && m in s.cache && k != m
    ensures m in s'.cache && s'.cache[k] != s'.cache[m]
  {
    hide LockRight, SightRight, Conserved, Apply, PcOf;
    StepCache(v, s, t, a, s');
    if k !in s.cache {
      assert Own(PcOf(s, t)) == Some(s'.cache[k]);
      assert IsCached(s, s.cache[m]);
    }
  }

  lemma StepEntries(v: Variant, s: State, t: Thread, a: Action, s': State)
    requires Inv(s) && Apply(v, s, t, a) == Some(s')
    ensures EntriesRight(s')
  {
    hide LockRight, OwnersRight, Conserved, Apply, PcOf;
    StepCache(v, s, t, a, s');
    StepReturned(v, s, t, a, s');
    assert SeesRight(s, PcOf(s, t));
    forall k | k in s'.cache
      ensures s'.cache[k] < s'.loaded && s'.cache[k] !in s'.deleted
    {
      EntryLives(v, s, t, a, s', k);
    }
    forall k, m | k in s'.cache && m in s'.cache && k != m
      ensures s'.cache[k] != s'.cache[m]
    {
      if m in s.cache { EntriesDiffer(v, s, t, a, s', k, m); } else { EntriesDiffer(v, s, t, a, s', m, k); }
    }
  }

  lemma StepConserved(v: Variant, s: State, t: Thread, a: Action, s': State)
    requires Inv(s) && Apply(v, s, t, a) == Some(s')
    ensures Conserved(s')
  {
    hide LockRight, SightRight;
    StepMoves(v, s, t, a, s');
    StepOwn(v, s, t, a, s');
    StepShared(v, s, t, a, s');
    StepCache(v, s, t, a, s');
    forall o: Object
      ensures s'.deleted[o] <= (if o < s'.loaded then 1 else 0)
      ensures o < s'.loaded ==> IsCached(s', o) || s'.deleted[o] == 1 || IsOwned(s', o)
    {
      ObjectConserved(v, s, t, a, s', o);
    }
  }

  lemma ObjectConserved(v: Variant, s: State, t: Thread, a: Action, s': State, o: Object)
    requires Inv(s) && Apply(v, s, t, a) == Some(s')
    ensures s'.deleted[o] <= (if o < s'.loaded then 1 else 0)
    ensures o < s'.loaded ==> IsCached(s', o) || s'.deleted[o] == 1 || IsOwned(s', o)
  {
    hide LockRight, SightRight, EntriesRight;
    StepMoves(v, s, t, a, s');
    StepOwn(v, s, t, a, s');
    StepShared(v, s, t, a, s');
    StepCacheGrows(v, s, t, a, s', o);
    LoadedGrows(v, s, t, a, s');
    if o < s.loaded {
      if IsOwned(s, o) {
        var u: Thread :| Own(PcOf(s, u)) == Some(o);
        if u != t { assert Own(PcOf(s', u)) == Some(o); }
        else if Own(PcOf(s', t)) == Some(o) { assert IsOwned(s', o); }
      }
    } else if o < s'.loaded {
      assert Own(PcOf(s', t)) == Some(o);
    }
  }

  lemma LoadedGrows(v: Variant, s: State, t: Thread, a: Action, s': State)
    requires Apply(v, s, t, a) == Some(s')
    ensures s'.loaded == s.loaded || (s'.loaded == s.loaded + 1 && Own(PcOf(s', t)) == Some(s.loaded)
            && s'.deleted == s.deleted)
  {
  }

  lemma StepCacheGrows(v: Variant, s: State, t: Thread, a: Action, s': State, o: Object)
    requires Inv(s) && Apply(v, s, t, a) == Some(s')
    ensures IsCached(s, o) ==> IsCached(s', o)
  {
    hide LockRight, OwnersRight, EntriesRight, Conserved, SightRight, Apply;
    StepCache(v, s, t, a, s');
    if IsCached(s, o) {
      var k :| k in s.cache && s.cache[k] == o;
      assert s'.cache[k] == o;
    }
  }

  /** Every step keeps the invariant. */
  lemma StepInv(v: Variant, s: State, s': State)
    requires Inv(s) && Next(v, s, s')
    ensures Inv(s')
  {
    hide LockRight, SightRight, OwnersRight, EntriesRight, Conserved, Apply;
    var t: Thread, a: Action :| Apply(v, s, t, a) == Some(s');
    StepLock(v, s, t, a, s');
    StepSight(v, s, t, a, s');
    StepOwners(v, s, t, a, s');
    StepEntries(v, s, t, a, s');
    StepConserved(v, s, t, a, s');
  }

  // ---------- whole runs ----------

  lemma {:induction false} RunInv(v: Variant, run: seq<State>, i: nat)
    requires IsRun(v, run) && i < |run|
    ensures Inv(run[i])
  {
    hide Inv, Next, Initial;
    if i == 0 {
      InitialInv(run[0]);
    } else {
      RunInv(v, run, i - 1);
      assert Next(v, run[i - 1], run[(i - 1) + 1]);
      StepInv(v, run[i - 1], run[i]);
    }
  }

  /** What later states keep: entries, results and deletions. */
  ghost predicate Extends(s: State, s': State) {
    && (forall k :: k in s.cache ==> k in s'.cache && s'.cache[k] == s.cache[k])
    && s.returned <= s'.returned && s.deleted <= s'.deleted && s.loaded <= s'.loaded
  }

  lemma StepExtends(v: Variant, s: State, s': State)
    requires Inv(s) && Next(v, s, s')
    ensures Extends(s, s')
  {
    hide Inv, Apply;
    var t: Thread, a: Action :| Apply(v, s, t, a) == Some(s');
    StepCache(v, s, t, a, s');
    StepReturned(v, s, t, a, s');
    StepShared(v, s, t, a, s');
  }

  lemma {:induction false} RunExtends(v: Variant, run: seq<State>, i: nat, j: nat)
    requires IsRun(v, run) && i <= j < |run|
    ensures Extends(run[i], run[j])
    decreases j
  {
    hide Inv, Next, Initial;
    if i < j {
      RunExtends(v, run, i, j - 1);
      RunInv(v, run, j - 1);
      assert Next(v, run[j - 1], run[(j - 1) + 1]);
      StepExtends(v, run[j - 1], run[j]);
    }
  }

  /** A published entry never changes. */
  lemma PublishedForever(v: Variant, run: seq<State>, i: nat, j: nat, k: Key)
    requires IsRun(v, run) && i <= j < |run| && k in run[i].cache
    ensures k in run[j].cache && run[j].cache[k] == run[i].cache[k]
  {
    hide IsRun;
    RunExtends(v, run, i, j);
  }

  /** All callers for one key get the same object, whenever they return. */
  lemma SameForAllCallers(v: Variant, run: seq<State>, i: nat, j: nat, k: Key, o: Object, p: Object)
    requires IsRun(v, run) && i < |run| && j < |run| && (k, o) in run[i].returned && (k, p) in run[j].returned
    ensures o == p
  {
    hide IsRun, LockRight, SightRight, OwnersRight, Conserved;
    RunInv(v, run, i);
    RunInv(v, run, j);
    assert IsEntry(run[i], k, o) && IsEntry(run[j], k, p);
    if i <= j { RunExtends(v, run, i, j); } else { RunExtends(v, run, j, i); }
  }

  /** An object that was returned is never deleted, before or after. */
  lemma ReturnedIsNeverDeleted(v: Variant, run: seq<State>, i: nat, j: nat, k: Key, o: Object)
    requires IsRun(v, run) && i < |run| && j < |run| && (k, o) in run[i].returned
    ensures o !in run[j].deleted
  {
    hide IsRun, LockRight, SightRight, OwnersRight, Conserved;
    var m := if i <= j then j else i;
    RunInv(v, run, m);
    RunExtends(v, run, i, m);
    RunExtends(v, run, j, m);
    assert IsEntry(run[m], k, o);
  }

  predicate AllIdle(s: State) { forall t :: t in s.pcs ==> s.pcs[t] == Idle }

  /**
    No object is deleted twice; and when no call is in progress every object is published or was deleted exactly once.
   */
  lemma LosersDeletedOnce(v: Variant, run: seq<State>, i: nat, o: Object)
    requires IsRun(v, run) && i < |run|
    ensures run[i].deleted[o] <= 1
    ensures AllIdle(run[i]) && o < run[i].loaded ==> run[i].deleted[o] == if IsCached(run[i], o) then 0 else 1
  {
    hide IsRun, LockRight, SightRight, OwnersRight;
    RunInv(v, run, i);
    var s := run[i];
    assert s.deleted[o] <= (if o < s.loaded then 1 else 0);
    if AllIdle(s) && IsOwned(s, o) {
      var t: Thread :| Own(PcOf(s, t)) == Some(o);
    }
  }

  /** Some step is always possible: a waiting thread waits for a thread that can go on. */
  lemma NoDeadlock(v: Variant, run: seq<State>, i: nat, t: Thread)
    requires IsRun(v, run) && i < |run|
    ensures exists u: Thread, a: Action :: (u == t || run[i].holder == Some(u)) && Apply(v, run[i], u, a).Some?
  {
    hide IsRun, SightRight, OwnersRight, EntriesRight, Conserved;
    RunInv(v, run, i);
    var s := run[i];
    if s.holder.Some? {
      var u := s.holder.value;
      assert HoldsLock(PcOf(s, u));
      var a := ActionOf(v, PcOf(s, u));
      assert Apply(v, s, u, a).Some?;
    } else {
      assert !HoldsLock(PcOf(s, t));
      var a := ActionOf(v, PcOf(s, t));
      assert Apply(v, s, t, a).Some?;
    }
  }

  /** An action that is possible at pc, if the lock is free or held by the thread as pc says. */
  function ActionOf(v: Variant, pc: Pc): Action {
    match pc
    case Idle => Call(0)
    case Wants(_) => Acquire
    case Looking(_) => Get
    case Looked(_, _) => Release
    case Loading(_) => Load(true)
    case Loaded(_, _) => Acquire
    case Rechecking(_, _) => Get
    case Rechecked(_, _, temp) => if temp.None? then Put else if v == DeleteLocked then Discard else Release
    case Done(_, _) => Release
    case Losing(_, _, _) => Discard
    case Returning(_, _) => Return
  }
}
