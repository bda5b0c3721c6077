/** The wallet-key provider used by any number of tasks.  The mutex guards one memory access at a time,
    except that a save keeps it from the merge until the store has taken the batch. */
module WalletKeyInterleavings {
  import opened Wrappers
  import opened WalletKeys

  type Task = nat

  datatype Goal = Lookup(id: string) | Reset

  datatype Reply = Found(key: ApiWalletKey) | Failed(error: ProviderError) | Finished

  /** Where a task stands in `get_locked_wallet_key`, `reset` or `clear`. */
  datatype Pc =
    | Idle
    | Looking(id: string, tries: nat)     // about to search memory for the first, second or third time
    | ReadingStore(id: string)
    | Installing(id: string, keys: Keys)  // has the store's answer
    | Clearing(resetting: bool)           // `clear`, or the first half of `reset`
    | AskingServer(goal: Goal)
    | Merging(goal: Goal, keys: Keys)     // has the server's answer
    | Persisting(goal: Goal, keys: Keys)  // memory merged, mutex held, store not yet called
    | Done(goal: Goal, reply: Reply)

  /** One change of memory. */
  datatype MemoryOp = Install(keys: Keys) | Drop | Merge(keys: Keys)

  /** `ops`, `calls` and `seen` record what happened; no step reads them. */
  datatype System = System(
    memory: Option<Keys>,
    lock: Option<Task>,
    pcs: map<Task, Pc>,
    ops: seq<MemoryOp>,        // changes of memory, in order
    calls: seq<Keys>,          // batches handed to the store's save, in order, whether it took them or not
    seen: set<ApiWalletKey>)   // keys answered by the store or the server so far
  {
    function At(t: Task): Pc { if t in pcs then pcs[t] else Idle }

    function Goto(t: Task, pc: Pc): System { this.(pcs := pcs[t := pc]) }
  }

  datatype Event =
    | Start(t: Task, goal: Goal)
    | StartClear(t: Task)
    | Look(t: Task)
    | StoreAnswers(t: Task, answer: Result<Keys, ProviderError>)
    | DoInstall(t: Task)
    | DoClear(t: Task)
    | ServerAnswers(t: Task, answer: Result<Keys, ProviderError>)
    | DoMerge(t: Task, order: Keys)       // the order the hash map yields its values in
    | Persist(t: Task, ok: bool)

  function AsSet(keys: Keys): set<ApiWalletKey> { set k | k in keys }

  ghost predicate Enabled(s: System, e: Event) {
    match e
    case Start(t, _) => s.At(t) == Idle || s.At(t).Done?
    case StartClear(t) => s.At(t) == Idle || s.At(t).Done?
    case Look(t) => s.At(t).Looking? && s.lock == None
    case StoreAnswers(t, _) => s.At(t).ReadingStore?
    case DoInstall(t) => s.At(t).Installing? && s.lock == None
    case DoClear(t) => s.At(t).Clearing? && s.lock == None
    case ServerAnswers(t, _) => s.At(t).AskingServer?
    case DoMerge(t, order) =>
      s.At(t).Merging? && s.lock == None
      && (s.At(t).keys != [] ==> IsValues(order, Merged(Contents(s.memory), s.At(t).keys)))
    case Persist(t, _) => s.At(t).Persisting?
  }

  function AfterSave(goal: Goal): Pc {
    match goal
    case Lookup(id) => Looking(id, 2)
    case Reset => Done(Reset, Finished)
  }

  /** A step moves only the task that takes it. */
  ghost function Step(s: System, e: Event): (s': System)
    requires Enabled(s, e)
    ensures forall u: Task :: u != e.t ==> s'.At(u) == s.At(u)
  {
    match e
    case Start(t, goal) =>
      s.Goto(t, match goal case Lookup(id) => Looking(id, 0) case Reset => Clearing(true))
    case StartClear(t) => s.Goto(t, Clearing(false))
    case Look(t) =>
      var id, tries := s.At(t).id, s.At(t).tries;
      (match InMemory(s.memory, id)
       case Some(key) => s.Goto(t, Done(Lookup(id), Found(key)))
       case None =>
         s.Goto(t, if tries == 0 then ReadingStore(id)
                   else if tries == 1 then AskingServer(Lookup(id))
                   else Done(Lookup(id), Failed(WalletKeyNotFound))))
    case StoreAnswers(t, answer) =>
      var id := s.At(t).id;
      (match answer
       case Ok(keys) => s.Goto(t, Installing(id, keys)).(seen := s.seen + AsSet(keys))
       case Err(error) => s.Goto(t, Done(Lookup(id), Failed(error))))
    case DoInstall(t) =>
      s.Goto(t, Looking(s.At(t).id, 1)).(memory := Some(s.At(t).keys), ops := s.ops + [Install(s.At(t).keys)])
    case DoClear(t) =>
      s.Goto(t, if s.At(t).resetting then AskingServer(Reset) else Idle).(memory := None, ops := s.ops + [Drop])
    case ServerAnswers(t, answer) =>
      var goal := s.At(t).goal;
      (match answer
       case Ok(keys) => s.Goto(t, Merging(goal, keys)).(seen := s.seen + AsSet(keys))
       case Err(error) => s.Goto(t, Done(goal, Failed(error))))
    case DoMerge(t, order) =>
      var goal, keys := s.At(t).goal, s.At(t).keys;
      if keys == [] then s.Goto(t, Done(goal, Failed(WalletKeyEmpty)))
      else s.Goto(t, Persisting(goal, keys)).(memory := Some(order), lock := Some(t), ops := s.ops + [Merge(keys)])
    case Persist(t, ok) =>
      var goal, keys := s.At(t).goal, s.At(t).keys;
      s.Goto(t, if ok then AfterSave(goal) else Done(goal, Failed(CallbackNotSet))).(lock := None, calls := s.calls + [keys])
  }

  /** A run as a list of events from a provider nobody has used yet. */
  datatype Run = Fresh | Then(prefix: Run, e: Event)

  ghost function Start0(): System { System(None, None, map[], [], [], {}) }

  ghost predicate Possible(r: Run)
    decreases r, 0
  {
    match r
    case Fresh => true
    case Then(prefix, e) => Possible(prefix) && Enabled(End(prefix), e)
  }

  ghost function End(r: Run): System
    requires Possible(r)
    decreases r, 1
  {
    match r
    case Fresh => Start0()
    case Then(prefix, e) => Step(End(prefix), e)
  }

  // ----- where keys come from

  /** The keys a task carries. */
  function Carried(pc: Pc): Keys {
    match pc
    case Installing(_, keys) => keys
    case Merging(_, keys) => keys
    case Persisting(_, keys) => keys
    case Done(_, Found(key)) => [key]
    case _ => []
  }

  /** Every key in memory or in a task's hands was once answered by the store or the server, and a
      lookup that succeeds returns a key of the wallet it was asked for. */
  ghost predicate Sourced(s: System) {
    && (forall k :: k in Contents(s.memory) ==> k in s.seen)
    && (forall t: Task :: forall k :: k in Carried(s.At(t)) ==> k in s.seen)
    && (forall t: Task :: s.At(t).Done? && s.At(t).reply.Found? ==> s.At(t).goal == Lookup(s.At(t).reply.key.walletId))
  }

  lemma MergedKeysAreSourced(old_: Keys, new_: Keys, order: Keys, k: ApiWalletKey)
    requires IsValues(order, Merged(old_, new_)) && k in order
    ensures k in old_ || k in new_
  {
    var id := k.walletId;
    InsertedLookup(map[], old_, id);
    InsertedLookup(Inserted(map[], old_), new_, id);
    LastIsFound(old_, id);
    LastIsFound(new_, id);
    var i :| 0 <= i < |order| && order[i] == k;
    assert Merged(old_, new_)[id] == k;
  }

  lemma StepSourced(s: System, e: Event)
    requires Sourced(s) && Enabled(s, e)
    ensures Sourced(Step(s, e))
  {
    var s', t := Step(s, e), e.t;
    assert forall k :: k in Carried(s.At(t)) ==> k in s.seen;
    match e
    case Look(_) => FirstIsFound(Contents(s.memory), s.At(t).id);
    case DoMerge(_, order) =>
      if s.At(t).keys != [] {
        forall k | k in order ensures k in s.seen {
          MergedKeysAreSourced(Contents(s.memory), s.At(t).keys, order, k);
        }
      }
    case _ =>
    forall u: Task, k | k in Carried(s'.At(u)) ensures k in s'.seen {
      if u != t {
        assert k in Carried(s.At(u));
      }
    }
  }

  // ----- memory as a sequence of operations

  /** What a map built from the first `n` operations would hold for a wallet. */
  function Base(ops: seq<MemoryOp>, n: nat, id: string): Option<ApiWalletKey>
    requires n <= |ops|
  {
    if n == 0 then None
    else
      match ops[n - 1]
      case Install(keys) => Last(keys, id)
      case Drop => None
      case Merge(keys) => if Last(keys, id).Some? then Last(keys, id) else Base(ops, n - 1, id)
  }

  /** What a lookup finds: as `Base`, except that a list just installed is searched from the front. */
  function Visible(ops: seq<MemoryOp>, id: string): Option<ApiWalletKey> {
    if ops != [] && ops[|ops| - 1].Install? then First(ops[|ops| - 1].keys, id)
    else Base(ops, |ops|, id)
  }

  ghost predicate Explained(s: System) {
    forall id :: InMemory(s.memory, id) == Visible(s.ops, id) && Last(Contents(s.memory), id) == Base(s.ops, |s.ops|, id)
  }

  lemma {:induction false} BaseOfPrefix(ops: seq<MemoryOp>, op: MemoryOp, n: nat, id: string)
    requires n <= |ops|
    ensures Base(ops + [op], n, id) == Base(ops, n, id)
  {
    if n > 0 {
      BaseOfPrefix(ops, op, n - 1, id);
    }
  }

  lemma StepExplained(s: System, e: Event)
    requires Explained(s) && Enabled(s, e)
    ensures Explained(Step(s, e))
  {
    var s' := Step(s, e);
    forall id
      ensures InMemory(s'.memory, id) == Visible(s'.ops, id) && Last(Contents(s'.memory), id) == Base(s'.ops, |s'.ops|, id)
    {
      assert InMemory(s.memory, id) == Visible(s.ops, id) && Last(Contents(s.memory), id) == Base(s.ops, |s.ops|, id);
      if e.DoMerge? && s.At(e.t).keys != [] {
        MergeLookup(Contents(s.memory), s.At(e.t).keys, e.order, id);
        BaseOfPrefix(s.ops, Merge(s.At(e.t).keys), |s.ops|, id);
      }
    }
  }

  // ----- merges and store calls

  /** The batches merged into memory, in order. */
  function Batches(ops: seq<MemoryOp>): seq<Keys> {
    if ops == [] then []
    else
      var last := ops[|ops| - 1];
      Batches(ops[..|ops| - 1]) + (if last.Merge? then [last.keys] else [])
  }

  lemma BatchesSnoc(ops: seq<MemoryOp>, op: MemoryOp)
    ensures Batches(ops + [op]) == Batches(ops) + (if op.Merge? then [op.keys] else [])
  {
    assert (ops + [op])[..|ops|] == ops;
  }

  /** One task at most is between merge and save, and the store has been handed exactly the merged
      batches in the order of their merges, except for the one that task holds. */
  ghost predicate InStep(s: System) {
    && (forall t: Task :: s.At(t).Persisting? <==> s.lock == Some(t))
    && Batches(s.ops) == s.calls + (if s.lock == None then [] else Pending(s.At(s.lock.value)))
  }

  function Pending(pc: Pc): seq<Keys> {
    if pc.Persisting? then [pc.keys] else []
  }

  lemma StepInStep(s: System, e: Event)
    requires InStep(s) && Enabled(s, e)
    ensures InStep(Step(s, e))
  {
    var s' := Step(s, e);
    match e
    case DoInstall(t) => BatchesSnoc(s.ops, Install(s.At(t).keys));
    case DoClear(t) => BatchesSnoc(s.ops, Drop);
    case DoMerge(t, _) =>
      if s.At(t).keys != [] {
        BatchesSnoc(s.ops, Merge(s.At(t).keys));
      }
    case Persist(t, _) => assert s.lock == Some(t);
    case _ =>
  }

  // ----- all interleavings

  /** In every interleaving: keys come from the store or the server; a successful lookup has the wallet
      it was asked for; what a lookup sees is decided by the memory changes so far, in their order; and
      the store is handed the server's batches in the order in which memory took them. */
  lemma {:induction false} EveryInterleaving(r: Run)
    requires Possible(r)
    ensures Sourced(End(r)) && Explained(End(r)) && InStep(End(r))
  {
    match r
    case Fresh =>
    case Then(prefix, e) =>
      EveryInterleaving(prefix);
      StepSourced(End(prefix), e);
      StepExplained(End(prefix), e);
      StepInStep(End(prefix), e);
  }

  // ----- exactly when a lookup finds nothing

  /** The change puts a key of the wallet into memory. */
  predicate Brings(op: MemoryOp, id: string) {
    !op.Drop? && Last(op.keys, id).Some?
  }

  /** The change leaves memory without a key of the wallet, whatever was there. */
  predicate Removes(op: MemoryOp, id: string) {
    op.Drop? || (op.Install? && Last(op.keys, id) == None)
  }

  /** A change from `from` on removes the wallet, and none after it brings it back. */
  ghost predicate GoneSince(ops: seq<MemoryOp>, from: nat, id: string) {
    exists j :: from <= j < |ops| && Removes(ops[j], id) && forall k :: j < k < |ops| ==> !Brings(ops[k], id)
  }

  lemma {:induction false} BaseIsNoneIff(ops: seq<MemoryOp>, n: nat, id: string)
    requires n <= |ops|
    ensures Base(ops, n, id) == None <==>
            forall k :: 0 <= k < n && Brings(ops[k], id) ==> exists j :: k < j < n && Removes(ops[j], id)
  {
    if n > 0 {
      BaseIsNoneIff(ops, n - 1, id);
      if Removes(ops[n - 1], id) {
        assert forall k :: 0 <= k < n && Brings(ops[k], id) ==> k < n - 1 < n;
      }
    }
  }

  lemma VisibleIsNoneIff(ops: seq<MemoryOp>, id: string)
    ensures Visible(ops, id) == None <==>
            forall k :: 0 <= k < |ops| && Brings(ops[k], id) ==> exists j :: k < j < |ops| && Removes(ops[j], id)
  {
    BaseIsNoneIff(ops, |ops|, id);
    if ops != [] && ops[|ops| - 1].Install? {
      FirstIsFound(ops[|ops| - 1].keys, id);
      LastIsFound(ops[|ops| - 1].keys, id);
    }
  }

  /** Over every interleaving: the last search of a lookup ends in "not found" if and only if every change
      that brought the wallet into memory is followed by one that removed it. */
  lemma NotFoundIffRemoved(r: Run, t: Task, id: string)
    requires Possible(r) && End(r).At(t) == Looking(id, 2) && Enabled(End(r), Look(t))
    ensures var ops := End(r).ops;
            Step(End(r), Look(t)).At(t) == Done(Lookup(id), Failed(WalletKeyNotFound)) <==>
            forall k :: 0 <= k < |ops| && Brings(ops[k], id) ==> exists j :: k < j < |ops| && Removes(ops[j], id)
  {
    EveryInterleaving(r);
    VisibleIsNoneIff(End(r).ops, id);
    assert InMemory(End(r).memory, id) == Visible(End(r).ops, id);
  }

  /** `r` goes on where `p` ends. */
  predicate GoesOn(p: Run, r: Run)
    decreases r
  {
    p == r || (r.Then? && GoesOn(p, r.prefix))
  }

  lemma {:induction false} OpsGrow(p: Run, r: Run)
    requires Possible(r) && GoesOn(p, r)
    ensures Possible(p) && End(p).ops <= End(r).ops
    decreases r
  {
    if p != r {
      OpsGrow(p, r.prefix);
    }
  }

  /** For a task whose own batch had the wallet: its last search fails if and only if, after its merge, some
      task cleared memory or installed a store list without the wallet, and nobody brought it back. */
  lemma OwnKeyIsLostIff(p: Run, order: Keys, r: Run, t: Task, id: string)
    requires Possible(r) && GoesOn(Then(p, DoMerge(t, order)), r)
    requires Possible(Then(p, DoMerge(t, order))) && Last(End(p).At(t).keys, id).Some?
    requires End(r).At(t) == Looking(id, 2) && Enabled(End(r), Look(t))
    ensures Step(End(r), Look(t)).At(t) == Done(Lookup(id), Failed(WalletKeyNotFound))
            <==> GoneSince(End(r).ops, |End(p).ops| + 1, id)
  {
    MergeIsRecorded(p, order, r, t);
    SearchAfter(r, t, id, |End(p).ops|);
  }

  lemma SearchAfter(r: Run, t: Task, id: string, m: nat)
    requires Possible(r) && End(r).At(t) == Looking(id, 2) && Enabled(End(r), Look(t))
    requires m < |End(r).ops| && Brings(End(r).ops[m], id)
    ensures Step(End(r), Look(t)).At(t) == Done(Lookup(id), Failed(WalletKeyNotFound)) <==> GoneSince(End(r).ops, m + 1, id)
  {
    NotFoundIffRemoved(r, t, id);
    RemovedIffGone(End(r).ops, m, id);
  }

  lemma MergeIsRecorded(p: Run, order: Keys, r: Run, t: Task)
    requires Possible(r) && GoesOn(Then(p, DoMerge(t, order)), r)
    requires Possible(Then(p, DoMerge(t, order))) && End(p).At(t).keys != []
    ensures |End(p).ops| < |End(r).ops| && End(r).ops[|End(p).ops|] == Merge(End(p).At(t).keys)
  {
    var merged := Then(p, DoMerge(t, order));
    OpsGrow(merged, r);
    assert End(merged).ops == End(p).ops + [Merge(End(p).At(t).keys)];
  }

  lemma RemovedIffGone(ops: seq<MemoryOp>, m: nat, id: string)
    requires m < |ops| && Brings(ops[m], id)
    ensures (forall k :: 0 <= k < |ops| && Brings(ops[k], id) ==> exists j :: k < j < |ops| && Removes(ops[j], id))
            <==> GoneSince(ops, m + 1, id)
  {
    if forall k :: 0 <= k < |ops| && Brings(ops[k], id) ==> exists j :: k < j < |ops| && Removes(ops[j], id) {
      var last := LastBringing(ops, m, id);
      var j :| last < j < |ops| && Removes(ops[j], id);
    }
  }

  /** The last change that brings the wallet. */
  lemma {:induction false} LastBringing(ops: seq<MemoryOp>, m: nat, id: string) returns (last: nat)
    requires m < |ops| && Brings(ops[m], id)
    ensures m <= last < |ops| && Brings(ops[last], id) && forall k :: last < k < |ops| ==> !Brings(ops[k], id)
    decreases |ops| - m
  {
    if k :| m < k < |ops| && Brings(ops[k], id) {
      last := LastBringing(ops, k, id);
    } else {
      last := m;
    }
  }

  // ----- one task alone

  function ReplyOf(r: Result<ApiWalletKey, ProviderError>): Reply {
    match r
    case Ok(key) => Found(key)
    case Err(e) => Failed(e)
  }

  /** A lookup that no other task interrupts answers what the sequential provider answers, so the sequential results
      are about the same steps. */
  lemma LookupAloneIsOutcome(r: Run, t: Task, id: string, w: World, order: Keys) returns (r': Run)
    requires Possible(r) && End(r).lock == None && (End(r).At(t) == Idle || End(r).At(t).Done?)
    requires w.store.Ok? && w.server.Ok? ==> IsValues(order, Merged(w.store.value, w.server.value))
    ensures Possible(r') && End(r').At(t) == Done(Lookup(id), ReplyOf(Outcome(End(r).memory, w, id)))
  {
    var s := End(r);
    r' := Extend(Extend(r, Start(t, Lookup(id))), Look(t));
    if InMemory(s.memory, id) == None {
      assert End(r').At(t) == ReadingStore(id) && End(r').lock == None;
      r' := Extend(r', StoreAnswers(t, w.store));
      if w.store.Ok? {
        assert End(r').At(t) == Installing(id, w.store.value) && End(r').lock == None;
        r' := Extend(r', DoInstall(t));
        assert End(r').At(t) == Looking(id, 1) && End(r').memory == Some(w.store.value) && End(r').lock == None;
        r' := Extend(r', Look(t));
        if First(w.store.value, id) == None {
          assert End(r').At(t) == AskingServer(Lookup(id)) && End(r').memory == Some(w.store.value) && End(r').lock == None;
          r' := ServerAlone(r', t, id, w, order);
        }
      }
    }
  }

  lemma ServerAlone(r: Run, t: Task, id: string, w: World, order: Keys) returns (r': Run)
    requires Possible(r) && End(r).lock == None && End(r).At(t) == AskingServer(Lookup(id))
    requires w.store.Ok? && End(r).memory == Some(w.store.value) && First(w.store.value, id) == None
    requires w.server.Ok? ==> IsValues(order, Merged(w.store.value, w.server.value))
    ensures Possible(r') && End(r').At(t) == Done(Lookup(id), ReplyOf(Outcome(None, w, id)))
  {
    r' := Extend(r, ServerAnswers(t, w.server));
    if w.server.Ok? {
      assert End(r').At(t) == Merging(Lookup(id), w.server.value) && End(r').memory == End(r).memory && End(r').lock == None;
      r' := MergeAlone(r', t, id, w, order);
    }
  }

  lemma MergeAlone(r: Run, t: Task, id: string, w: World, order: Keys) returns (r': Run)
    requires w.store.Ok? && w.server.Ok? && First(w.store.value, id) == None
    requires Possible(r) && End(r).lock == None && End(r).At(t) == Merging(Lookup(id), w.server.value)
    requires End(r).memory == Some(w.store.value) && IsValues(order, Merged(w.store.value, w.server.value))
    ensures Possible(r') && End(r').At(t) == Done(Lookup(id), ReplyOf(Outcome(None, w, id)))
  {
    var keys := w.server.value;
    r' := Extend(r, DoMerge(t, order));
    if keys != [] {
      assert End(r').At(t) == Persisting(Lookup(id), keys) && End(r').memory == Some(order);
      r' := Extend(r', Persist(t, w.canSave));
      if w.canSave {
        assert End(r').At(t) == Looking(id, 2) && End(r').memory == Some(order) && End(r').lock == None;
        r' := Extend(r', Look(t));
        FoundAfterMerge(w, order, id);
      }
    }
  }

  /** A reset that no other task interrupts leaves memory and reply as the sequential provider does: empty after a
      failing or empty answer, and otherwise the values of the map built from the server's answer alone. */
  lemma ResetAlone(r: Run, t: Task, server: Result<Keys, ProviderError>, canSave: bool, order: Keys) returns (r': Run)
    requires Possible(r) && End(r).lock == None && (End(r).At(t) == Idle || End(r).At(t).Done?)
    requires server.Ok? ==> IsValues(order, Merged([], server.value))
    ensures Possible(r') && End(r').lock == None
    ensures var s := End(r');
            match server
            case Err(e) => s.memory == None && s.At(t) == Done(Reset, Failed(e)) && s.calls == End(r).calls
            case Ok(keys) =>
              if keys == [] then s.memory == None && s.At(t) == Done(Reset, Failed(WalletKeyEmpty)) && s.calls == End(r).calls
              else
                && (forall id :: InMemory(s.memory, id) == Last(keys, id)) && s.calls == End(r).calls + [keys]
                && s.At(t) == Done(Reset, if canSave then Finished else Failed(CallbackNotSet))
  {
    r' := Extend(Extend(r, Start(t, Reset)), DoClear(t));
    assert End(r').At(t) == AskingServer(Reset) && End(r').memory == None && End(r').lock == None && End(r').calls == End(r).calls;
    r' := Extend(r', ServerAnswers(t, server));
    if server.Ok? {
      var keys := server.value;
      assert End(r').At(t) == Merging(Reset, keys) && End(r').memory == None && End(r').lock == None;
      r' := Extend(r', DoMerge(t, order));
      if keys != [] {
        assert End(r').At(t) == Persisting(Reset, keys) && End(r').memory == Some(order) && End(r').calls == End(r).calls;
        r' := Extend(r', Persist(t, canSave));
        FoundAfterReset(keys, order);
      }
    }
  }

  lemma FoundAfterReset(keys: Keys, order: Keys)
    requires IsValues(order, Merged([], keys))
    ensures forall id :: InMemory(Some(order), id) == Last(keys, id)
  {
    forall id ensures InMemory(Some(order), id) == Last(keys, id) {
      MergeLookup([], keys, order, id);
    }
  }

  lemma FoundAfterMerge(w: World, order: Keys, id: string)
    requires w.store.Ok? && w.server.Ok? && First(w.store.value, id) == None
    requires IsValues(order, Merged(w.store.value, w.server.value))
    ensures First(order, id) == Last(w.server.value, id)
  {
    FirstIsFound(w.store.value, id);
    LastIsFound(w.store.value, id);
    MergeLookup(w.store.value, w.server.value, order, id);
  }

  // ----- a run in which a delivered key is hidden

  ghost function Extend(r: Run, e: Event): (r': Run)
    requires Possible(r) && Enabled(End(r), e)
    ensures Possible(r') && End(r') == Step(End(r), e)
  {
    Then(r, e)
  }

  /** Task 0 searches memory in vain, finds the store empty, searches again and asks the server. */
  lemma AskedServer(id: string) returns (r: Run)
    ensures Possible(r) && End(r) == System(Some([]), None, map[0 := AskingServer(Lookup(id))], [Install([])], [], {})
  {
    r := Extend(Fresh, Start(0, Lookup(id)));
    assert End(r).pcs == map[0 := Looking(id, 0)];
    r := Extend(r, Look(0));
    assert End(r).pcs == map[0 := ReadingStore(id)];
    r := Extend(r, StoreAnswers(0, Ok([])));
    assert End(r) == System(None, None, map[0 := Installing(id, [])], [], [], {});
    r := Extend(r, DoInstall(0));
    assert End(r) == System(Some([]), None, map[0 := Looking(id, 1)], [Install([])], [], {});
    r := Extend(r, Look(0));
    assert End(r).pcs == map[0 := AskingServer(Lookup(id))];
  }

  /** With several tasks, "not found" no longer means that the server lacks the key: a clear between the
      save and the last search hides a key the server has just delivered. */
  lemma ClearHidesADeliveredKey(key: ApiWalletKey) returns (r: Run)
    ensures Possible(r)
    ensures key in End(r).seen && End(r).calls == [[key]]
    ensures End(r).At(0) == Done(Lookup(key.walletId), Failed(WalletKeyNotFound))
  {
    r := DeliveredKey(key);
    r := Extend(r, StartClear(1));
    r := Extend(r, DoClear(1));
    assert End(r).At(0) == Looking(key.walletId, 2) && key in End(r).seen && End(r).calls == [[key]];
    r := Extend(r, Look(0));
  }

  /** The server answers task 0 with the key, which is merged and saved. */
  lemma DeliveredKey(key: ApiWalletKey) returns (r: Run)
    ensures Possible(r)
    ensures key in End(r).seen && End(r).calls == [[key]] && End(r).lock == None
    ensures End(r).At(0) == Looking(key.walletId, 2) && End(r).At(1) == Idle
  {
    var id := key.walletId;
    assert [key][..0] == [];
    assert Merged([], [key]) == map[id := key];
    assert IsValues([key], Merged([], [key])) by {
      assert key in [key];
    }
    r := AskedServer(id);
    r := Extend(r, ServerAnswers(0, Ok([key])));
    assert End(r).At(0) == Merging(Lookup(id), [key]) && End(r).memory == Some([]);
    r := Extend(r, DoMerge(0, [key]));
    assert End(r).At(0) == Persisting(Lookup(id), [key]) && key in End(r).seen && End(r).calls == [];
    r := Extend(r, Persist(0, true));
  }
}
