/** Several notifying stores on one slot, each `set_auth` taken apart into its read, its write and its
    notification, and the spawned callback tasks, which may finish in any order.  A callback is registered and
    no client initialises; the steps where that fails are the subject of SessionMirror. */
module SessionInterleavings {
  import opened Wrappers
  import opened SessionMirror

  type Caller = nat

  /** A `set_auth` that has read `previous`, and later has stored `updated`. */
  datatype Update = Update(previous: Auth, updated: Auth)

  /** `reading`: calls between read and write.  `untold`: calls between write and notification, in the order of
      their writes.  `pending`: spawned tasks that have not reached Dart, in the order of spawning.
      `stored` and `scheduled` are the histories of the slot and of the spawned tasks. */
  datatype World = World(
    auth: Auth, reading: map<Caller, Update>, untold: seq<Update>,
    pending: seq<ChildSession>, received: seq<ChildSession>, stored: seq<Auth>, scheduled: seq<ChildSession>)

  datatype Event =
    | Read(caller: Caller, updated: Auth)
    | Store(caller: Caller)
    | Tell(i: nat)
    | Deliver(i: nat)

  datatype Trace = End | Then(event: Event, rest: Trace)

  function Without<T>(s: seq<T>, i: nat): seq<T>
    requires i < |s|
  {
    s[..i] + s[i + 1..]
  }

  predicate Enabled(w: World, e: Event) {
    match e
    case Read(c, _) => c !in w.reading
    case Store(c) => c in w.reading
    case Tell(i) => i < |w.untold|
    case Deliver(i) => i < |w.pending|
  }

  function After(w: World, e: Event): World
    requires Enabled(w, e)
  {
    match e
    case Read(c, a) => w.(reading := w.reading[c := Update(w.auth, a)])
    case Store(c) =>
      var u := w.reading[c];
      w.(auth := u.updated, reading := w.reading - {c}, untold := w.untold + [u], stored := w.stored + [u.updated])
    case Tell(i) =>
      var u := w.untold[i];
      var w' := w.(untold := Without(w.untold, i));
      if Changed(u.previous, u.updated)
      then w'.(pending := w.pending + [Project(u.updated)], scheduled := w.scheduled + [Project(u.updated)])
      else w'
    case Deliver(i) => w.(pending := Without(w.pending, i), received := w.received + [w.pending[i]])
  }

  predicate IsRun(w: World, es: Trace)
    decreases es
  {
    es.End? || (Enabled(w, es.event) && IsRun(After(w, es.event), es.rest))
  }

  function Last(w: World, es: Trace): World
    requires IsRun(w, es)
    decreases es
  {
    if es.End? then w else Last(After(w, es.event), es.rest)
  }

  /** A slot just built, with Dart knowing what it holds. */
  predicate Initial(w: World) {
    && w.reading == map[] && w.untold == [] && w.pending == [] && w.received == w.scheduled
    && Mirrored(Slot(w)) && w.stored == [w.auth]
    && forall s :: s in w.scheduled ==> s == Project(w.auth)
  }

  function Slot(w: World): State {
    State(w.auth, false, true, w.scheduled)
  }

  // ----- every interleaving

  /** Nothing spawned is lost or doubled, and only sessions the slot has held are spawned. */
  ghost predicate Accounted(w: World) {
    && multiset(w.received) + multiset(w.pending) == multiset(w.scheduled)
    && (forall s :: s in w.scheduled ==> WasStored(w.stored, s))
    && (forall i :: 0 <= i < |w.untold| ==> w.untold[i].updated in w.stored)
  }

  ghost predicate WasStored(stored: seq<Auth>, s: ChildSession) {
    exists a :: a in stored && Project(a) == s
  }

  lemma WithoutKeepsTheRest<T>(s: seq<T>, i: nat)
    requires i < |s|
    ensures multiset(Without(s, i)) + multiset{s[i]} == multiset(s)
    ensures forall k :: 0 <= k < |Without(s, i)| ==> Without(s, i)[k] == s[if k < i then k else k + 1]
  {
    assert s == s[..i] + [s[i]] + s[i + 1..];
  }

  lemma AccountedStep(w: World, e: Event)
    requires Accounted(w) && Enabled(w, e)
    ensures Accounted(After(w, e))
  {
    var w' := After(w, e);
    match e
    case Read(_, _) =>
    case Store(_) =>
      forall s | s in w.scheduled ensures WasStored(w'.stored, s) {
        var a :| a in w.stored && Project(a) == s;
        assert a in w'.stored;
      }
    case Tell(i) =>
      WithoutKeepsTheRest(w.untold, i);
      assert w.untold[i].updated in w.stored;
    case Deliver(i) =>
      WithoutKeepsTheRest(w.pending, i);
  }

  /** Over every interleaving, when no task is pending Dart has received exactly the scheduled sessions, each
      as often as it was scheduled, and each was stored at some time. */
  lemma {:induction false} EveryInterleavingAccounts(w: World, es: Trace)
    requires Accounted(w) && IsRun(w, es)
    ensures Accounted(Last(w, es))
    ensures Last(w, es).pending == [] ==> multiset(Last(w, es).received) == multiset(Last(w, es).scheduled)
    decreases es
  {
    if es.Then? {
      AccountedStep(w, es.event);
      EveryInterleavingAccounts(After(w, es.event), es.rest);
    }
  }

  lemma InitialIsAccounted(w: World)
    requires Initial(w)
    ensures Accounted(w)
  {
    assert w.auth in w.stored;
  }

  /** From a slot just built: once no task is pending, Dart has received exactly the scheduled sessions. */
  lemma FromTheStartAllAccounted(w: World, es: Trace)
    requires Initial(w) && IsRun(w, es)
    ensures var l := Last(w, es);
            && (forall s :: s in l.scheduled ==> WasStored(l.stored, s))
            && (l.pending == [] ==> multiset(l.received) == multiset(l.scheduled))
  {
    InitialIsAccounted(w);
    EveryInterleavingAccounts(w, es);
  }

  // ----- when the last word is the right one

  /** Every write finds the session its call has read, notifications follow the order of the writes, and tasks
      finish in the order of spawning.  Calls may still overlap. */
  predicate InOrder(w: World, e: Event) {
    match e
    case Read(_, _) => true
    case Store(c) => c in w.reading && PartsOf(w.reading[c].previous) == PartsOf(w.auth)
    case Tell(i) => i == 0
    case Deliver(i) => i == 0
  }

  predicate OrderlyRun(w: World, es: Trace)
    decreases es
  {
    es.End? || (Enabled(w, es.event) && InOrder(w, es.event) && OrderlyRun(After(w, es.event), es.rest))
  }

  lemma {:induction false} OrderlyIsRun(w: World, es: Trace)
    requires OrderlyRun(w, es)
    ensures IsRun(w, es)
    decreases es
  {
    if es.Then? {
      OrderlyIsRun(After(w, es.event), es.rest);
    }
  }

  /** The session Dart should have been told by now: the slot's, or what the oldest untold write replaced. */
  function Due(w: World): Auth {
    if w.untold == [] then w.auth else w.untold[0].previous
  }

  /** Each untold write continues where the one before it stopped, up to the slot. */
  predicate Linked(untold: seq<Update>, auth: Auth) {
    forall i :: 0 <= i < |untold| ==> PartsOf(untold[i].updated) == PartsOf(Successor(untold, auth, i))
  }

  function Successor(untold: seq<Update>, auth: Auth, i: nat): Auth
    requires i < |untold|
  {
    if i + 1 < |untold| then untold[i + 1].previous else auth
  }

  predicate Orderly(w: World) {
    && Linked(w.untold, w.auth)
    && Mirrored(Slot(w).(auth := Due(w)))
    && w.received + w.pending == w.scheduled
  }

  lemma SamePartsSameMirror(st: State, a: Auth, b: Auth)
    requires PartsOf(a) == PartsOf(b)
    ensures Mirrored(st.(auth := a)) <==> Mirrored(st.(auth := b))
  {
    assert a.Session? <==> PartsOf(a).uid.Some?;
    assert b.Session? <==> PartsOf(b).uid.Some?;
  }

  lemma StoreStaysLinked(w: World, c: Caller)
    requires Orderly(w) && Enabled(w, Store(c)) && InOrder(w, Store(c))
    ensures Linked(After(w, Store(c)).untold, w.reading[c].updated)
  {
    var u := w.reading[c];
    var untold' := w.untold + [u];
    forall i | 0 <= i < |untold'| ensures PartsOf(untold'[i].updated) == PartsOf(Successor(untold', u.updated, i)) {
      if i < |w.untold| {
        assert PartsOf(w.untold[i].updated) == PartsOf(Successor(w.untold, w.auth, i));
      }
    }
  }

  lemma TellStaysLinked(untold: seq<Update>, auth: Auth)
    requires untold != [] && Linked(untold, auth)
    ensures Linked(untold[1..], auth)
    ensures PartsOf(untold[0].updated) == PartsOf(if |untold| == 1 then auth else untold[1..][0].previous)
  {
    assert PartsOf(untold[0].updated) == PartsOf(Successor(untold, auth, 0));
    forall i | 0 <= i < |untold[1..]| ensures PartsOf(untold[1..][i].updated) == PartsOf(Successor(untold[1..], auth, i)) {
      assert PartsOf(untold[i + 1].updated) == PartsOf(Successor(untold, auth, i + 1));
    }
  }

  /** A notification is what one uninterrupted setter would have done to the oldest untold session. */
  lemma TellMirrors(w: World)
    requires Orderly(w) && w.untold != []
    ensures Mirrored(Slot(After(w, Tell(0))).(auth := w.untold[0].updated))
  {
    var u := w.untold[0];
    var st := Slot(w).(auth := u.previous);
    StepLosesMirrorIffAll(st, SetAuth(u.updated, true, true));
    assert Slot(After(w, Tell(0))).(auth := u.updated) == Step(st, SetAuth(u.updated, true, true));
  }

  /** A call that nobody interrupts is the notifying setter of SessionMirror. */
  lemma CallAloneIsSetAuth(w: World, c: Caller, a: Auth)
    requires c !in w.reading && w.untold == []
    ensures var w' := After(After(After(w, Read(c, a)), Store(c)), Tell(0));
            && Slot(w') == Step(Slot(w), SetAuth(a, true, true))
            && w'.reading == w.reading && w'.untold == [] && w'.received == w.received && w'.stored == w.stored + [a]
  {
    assert w.reading[c := Update(w.auth, a)] - {c} == w.reading;
  }

  lemma OrderlyTell(w: World)
    requires Orderly(w) && w.untold != []
    ensures Orderly(After(w, Tell(0)))
  {
    var w' := After(w, Tell(0));
    assert w'.untold == w.untold[1..];
    TellStaysLinked(w.untold, w.auth);
    TellMirrors(w);
    SamePartsSameMirror(Slot(w'), w.untold[0].updated, Due(w'));
    TellKeepsTaskOrder(w);
  }

  lemma OrderlyStore(w: World, c: Caller)
    requires Orderly(w) && Enabled(w, Store(c)) && InOrder(w, Store(c))
    ensures Orderly(After(w, Store(c)))
  {
    StoreStaysLinked(w, c);
    SamePartsSameMirror(Slot(w), w.auth, w.reading[c].previous);
  }

  lemma OrderlyDeliver(w: World)
    requires Orderly(w) && w.pending != []
    ensures Orderly(After(w, Deliver(0)))
  {
    var w' := After(w, Deliver(0));
    assert w'.pending == w.pending[1..];
    assert w'.received + w'.pending == w.received + ([w.pending[0]] + w.pending[1..]);
  }

  lemma OrderlyStep(w: World, e: Event)
    requires Orderly(w) && Enabled(w, e) && InOrder(w, e)
    ensures Orderly(After(w, e))
  {
    match e
    case Read(_, _) =>
    case Store(c) => OrderlyStore(w, c);
    case Tell(_) => OrderlyTell(w);
    case Deliver(_) => OrderlyDeliver(w);
  }

  lemma InitialIsOrderly(w: World)
    requires Initial(w)
    ensures Orderly(w)
  {
  }

  /** In an orderly run the mirror holds whenever no write is untold, and once no task is pending either, the
      last session Dart received is the stored one. */
  lemma {:induction false} OrderlyRunsEndMirrored(w: World, es: Trace)
    requires Orderly(w) && OrderlyRun(w, es)
    ensures IsRun(w, es)
    ensures var l := Last(w, es);
            && Orderly(l)
            && (l.untold == [] ==> Mirrored(Slot(l)))
            && (l.untold == [] && l.pending == [] && l.auth.Session? ==> LastIs(l.received, Project(l.auth)))
    decreases es
  {
    OrderlyIsRun(w, es);
    if es.Then? {
      OrderlyStep(w, es.event);
      OrderlyRunsEndMirrored(After(w, es.event), es.rest);
    } else if w.untold == [] && w.pending == [] {
      assert w.received == w.scheduled;
    }
  }

  /** From a slot just built, an orderly run ends with Dart knowing the stored session. */
  lemma FromTheStartOrderlyRunsEndMirrored(w: World, es: Trace)
    requires Initial(w) && OrderlyRun(w, es)
    ensures IsRun(w, es)
    ensures var l := Last(w, es);
            l.untold == [] && l.pending == [] && l.auth.Session? ==> LastIs(l.received, Project(l.auth))
  {
    InitialIsOrderly(w);
    OrderlyRunsEndMirrored(w, es);
  }

  // ----- writes out of order, exactly

  /** The session of the last write whose notification has run. */
  function Told(w: World): Auth
    requires |w.untold| < |w.stored|
  {
    w.stored[|w.stored| - 1 - |w.untold|]
  }

  /** The untold writes are the last ones stored, and tasks reach Dart in the order of spawning. */
  ghost predicate Tracked(w: World) {
    && |w.untold| < |w.stored| && w.stored[|w.stored| - 1] == w.auth
    && LastStored(w.untold, w.stored)
    && w.received + w.pending == w.scheduled
  }

  predicate LastStored(untold: seq<Update>, stored: seq<Auth>)
    requires |untold| < |stored|
  {
    forall i :: 0 <= i < |untold| ==> untold[i].updated == stored[|stored| - |untold| + i]
  }

  lemma LastStoredButFirst(untold: seq<Update>, stored: seq<Auth>)
    requires 0 < |untold| < |stored| && LastStored(untold, stored)
    ensures LastStored(untold[1..], stored)
  {
    var rest := untold[1..];
    forall i | 0 <= i < |rest| ensures rest[i].updated == stored[|stored| - |rest| + i] {
      assert untold[i + 1].updated == stored[|stored| - |untold| + (i + 1)];
    }
  }

  /** The notification stays silent, because the write looks unchanged against what its call had read, although
      the session last announced looks different. */
  predicate SilentlyWrong(w: World, e: Event) {
    && e.Tell? && e.i < |w.untold|
    && var u := w.untold[e.i];
       u.updated.Session? && !Changed(u.previous, u.updated) && !LastIs(w.scheduled, Project(u.updated))
  }

  /** Whether the last notification of the run, if any, was not silently wrong; `before` is the verdict so far. */
  predicate LastWordRight(w: World, es: Trace, before: bool)
    requires IsRun(w, es)
    decreases es
  {
    if es.End? then before
    else LastWordRight(After(w, es.event), es.rest, if es.event.Tell? then !SilentlyWrong(w, es.event) else before)
  }

  lemma TrackedStore(w: World, c: Caller)
    requires Tracked(w) && Enabled(w, Store(c))
    ensures Tracked(After(w, Store(c)))
  {
    var w', n := After(w, Store(c)), |w.untold|;
    assert |w'.stored| - |w'.untold| == |w.stored| - n;
    forall i | 0 <= i < n + 1 ensures w'.untold[i].updated == w'.stored[|w'.stored| - |w'.untold| + i] {
      if i < n {
        assert w'.untold[i] == w.untold[i];
      }
    }
  }

  lemma TrackedTell(w: World)
    requires Tracked(w) && w.untold != []
    ensures Tracked(After(w, Tell(0)))
  {
    assert Without(w.untold, 0) == w.untold[1..];
    LastStoredButFirst(w.untold, w.stored);
    TellKeepsTaskOrder(w);
  }

  lemma TellKeepsTaskOrder(w: World)
    requires w.untold != [] && w.received + w.pending == w.scheduled
    ensures var w' := After(w, Tell(0)); w'.received + w'.pending == w'.scheduled
  {
    var s := [Project(w.untold[0].updated)];
    assert w.received + (w.pending + s) == (w.received + w.pending) + s;
  }

  lemma TrackedStep(w: World, e: Event)
    requires Tracked(w) && Enabled(w, e) && (e.Store? || InOrder(w, e))
    ensures Tracked(After(w, e))
  {
    var w' := After(w, e);
    match e
    case Read(_, _) =>
    case Store(c) => TrackedStore(w, c);
    case Tell(_) => TrackedTell(w);
    case Deliver(_) =>
      assert w'.pending == w.pending[1..];
      assert w'.received + w'.pending == w.received + ([w.pending[0]] + w.pending[1..]);
  }

  /** Each notification alone decides whether Dart is up to date with the writes told so far. */
  lemma TellDecides(w: World)
    requires Tracked(w) && w.untold != []
    ensures var w' := After(w, Tell(0));
            Tracked(w') && (Mirrored(Slot(w').(auth := Told(w'))) <==> !SilentlyWrong(w, Tell(0)))
  {
    TrackedStep(w, Tell(0));
    var w', u := After(w, Tell(0)), w.untold[0];
    assert Told(w') == u.updated;
  }

  lemma OthersKeepTold(w: World, e: Event)
    requires Tracked(w) && Enabled(w, e) && !e.Tell? && (e.Store? || InOrder(w, e))
    ensures var w' := After(w, e);
            Tracked(w') && Told(w') == Told(w) && w'.scheduled == w.scheduled
  {
    TrackedStep(w, e);
  }

  lemma {:induction false} DisorderIsRun(w: World, es: Trace, d: Disorder)
    requires OrderlyExcept(w, es, d)
    ensures IsRun(w, es)
    decreases es
  {
    if es.Then? {
      DisorderIsRun(After(w, es.event), es.rest, d);
    }
  }

  /** With writes in any order against the reads, but notifications and tasks in order: when all is done Dart's
      last session is the stored one if and only if the last notification was not silently wrong. */
  lemma {:induction false} StaleWritesEndMirroredIff(w: World, es: Trace)
    requires Tracked(w) && OrderlyExcept(w, es, AtStore)
    ensures IsRun(w, es) && Tracked(Last(w, es))
    ensures var l := Last(w, es);
            var right := LastWordRight(w, es, Mirrored(Slot(w).(auth := Told(w))));
            && (l.untold == [] ==> (Mirrored(Slot(l)) <==> right))
            && (l.untold == [] && l.pending == [] && l.auth.Session? ==> (LastIs(l.received, Project(l.auth)) <==> right))
    decreases es
  {
    DisorderIsRun(w, es, AtStore);
    if es.Then? {
      if es.event.Tell? {
        TellDecides(w);
      } else {
        OthersKeepTold(w, es.event);
      }
      StaleWritesEndMirroredIff(After(w, es.event), es.rest);
    } else if w.untold == [] && w.pending == [] {
      assert w.received + [] == w.received;
    }
  }

  lemma InitialIsTracked(w: World)
    requires Initial(w)
    ensures Tracked(w) && Told(w) == w.auth
  {
  }

  /** From a slot just built: stale reads end with Dart up to date exactly if the last notification of the run
      was not silently wrong. */
  lemma FromTheStartStaleWritesEndMirroredIff(w: World, es: Trace)
    requires Initial(w) && OrderlyExcept(w, es, AtStore)
    ensures IsRun(w, es)
    ensures var l := Last(w, es);
            l.untold == [] && l.pending == [] && l.auth.Session? ==>
              (LastIs(l.received, Project(l.auth)) <==> LastWordRight(w, es, true))
  {
    InitialIsTracked(w);
    StaleWritesEndMirroredIff(w, es);
  }

  // ----- each of the three conditions is needed

  predicate Settled(w: World) {
    w.reading == map[] && w.untold == [] && w.pending == []
  }

  /** All calls and tasks are done, and Dart's last word differs from the stored session. */
  predicate EndsStale(w: World, es: Trace) {
    IsRun(w, es) && Settled(Last(w, es)) && Last(w, es).auth.Session? && !LastIs(Last(w, es).received, Project(Last(w, es).auth))
  }

  /** A slot just built that holds `a`, which Dart knows. */
  function Known(a: Auth): World {
    World(a, map[], [], [], [Project(a)], [a], [Project(a)])
  }

  /** Sessions Dart can tell apart. */
  predicate Differ(a: Auth, b: Auth) {
    a.Session? && b.Session? && Project(a) != Project(b)
  }

  function StaleRead(a: Auth, b: Auth): Trace {
    Then(Read(1, b), Then(Read(2, a), Then(Store(1), Then(Store(2), Then(Tell(0), Then(Tell(0), Then(Deliver(0), End)))))))
  }

  function SwappedNotifications(b: Auth, c: Auth): Trace {
    Then(Read(1, b), Then(Store(1), Then(Read(2, c), Then(Store(2),
    Then(Tell(1), Then(Tell(0), Then(Deliver(0), Then(Deliver(0), End))))))))
  }

  function SwappedDeliveries(b: Auth, c: Auth): Trace {
    Then(Read(1, b), Then(Store(1), Then(Tell(0), Then(Read(1, c), Then(Store(1),
    Then(Tell(0), Then(Deliver(1), Then(Deliver(0), End))))))))
  }

  datatype Disorder = AtStore | AtTell | AtDeliver

  predicate Excused(e: Event, d: Disorder) {
    match d
    case AtStore => e.Store?
    case AtTell => e.Tell?
    case AtDeliver => e.Deliver?
  }

  /** Only events of one kind may be out of order. */
  predicate OrderlyExcept(w: World, es: Trace, d: Disorder)
    decreases es
  {
    es.End? ||
    (Enabled(w, es.event) && (InOrder(w, es.event) || Excused(es.event, d)) && OrderlyExcept(After(w, es.event), es.rest, d))
  }

  predicate Reaches(w: World, es: Trace, d: Disorder, l: World) {
    OrderlyExcept(w, es, d) && IsRun(w, es) && Last(w, es) == l
  }

  lemma OneEvent(w: World, e: Event, w': World, es: Trace, d: Disorder, l: World)
    requires Enabled(w, e) && (InOrder(w, e) || Excused(e, d)) && After(w, e) == w' && Reaches(w', es, d, l)
    ensures Reaches(w, Then(e, es), d, l)
  {
  }

  /** The second call read the session that the first has meanwhile replaced, finds it unchanged, and stays
      silent; everything else is in order. */
  lemma StaleReadEndsStale(a: Auth, b: Auth)
    requires Differ(a, b)
    ensures Initial(Known(a)) && EndsStale(Known(a), StaleRead(a, b)) && OrderlyExcept(Known(a), StaleRead(a, b), AtStore)
  {
    var w0, es := Known(a), StaleRead(a, b);
    var w1 := w0.(reading := map[1 := Update(a, b)]);
    var w2 := w0.(reading := map[1 := Update(a, b), 2 := Update(a, a)]);
    var l := StaleStores(a, b, w2);
    OneEvent(w1, Read(2, a), w2, es.rest.rest, AtStore, l);
    OneEvent(w0, Read(1, b), w1, es.rest, AtStore, l);
  }

  lemma StaleStores(a: Auth, b: Auth, w: World) returns (l: World)
    requires Differ(a, b)
    requires w == Known(a).(reading := map[1 := Update(a, b), 2 := Update(a, a)])
    ensures Reaches(w, StaleRead(a, b).rest.rest, AtStore, l)
    ensures Settled(l) && l.auth == a && l.received == [Project(a), Project(b)]
  {
    var pa, es := Project(a), StaleRead(a, b).rest.rest;
    var w3 := World(b, map[2 := Update(a, a)], [Update(a, b)], [], [pa], [a, b], [pa]);
    var w4 := World(a, map[], [Update(a, b), Update(a, a)], [], [pa], [a, b, a], [pa]);
    l := StaleTells(a, b, w4);
    OneEvent(w3, Store(2), w4, es.rest.rest, AtStore, l);
    OneEvent(w, Store(1), w3, es.rest, AtStore, l);
  }

  lemma StaleTells(a: Auth, b: Auth, w: World) returns (l: World)
    requires Differ(a, b)
    requires w == World(a, map[], [Update(a, b), Update(a, a)], [], [Project(a)], [a, b, a], [Project(a)])
    ensures Reaches(w, StaleRead(a, b).rest.rest.rest.rest, AtStore, l)
    ensures Settled(l) && l.auth == a && l.received == [Project(a), Project(b)]
  {
    var pa, pb, es := Project(a), Project(b), StaleRead(a, b).rest.rest.rest.rest;
    var w5 := World(a, map[], [Update(a, a)], [pb], [pa], [a, b, a], [pa, pb]);
    var w6 := w5.(untold := []);
    l := w6.(pending := [], received := [pa, pb]);
    OneEvent(w6, Deliver(0), l, End, AtStore, l);
    OneEvent(w5, Tell(0), w6, es.rest.rest, AtStore, l);
    OneEvent(w, Tell(0), w5, es.rest, AtStore, l);
  }

  /** Two fresh reads and writes in order, notified in the opposite order; everything else is in order. */
  lemma SwappedNotificationsEndStale(a: Auth, b: Auth, c: Auth)
    requires Differ(a, b) && Differ(b, c)
    ensures Initial(Known(a)) && EndsStale(Known(a), SwappedNotifications(b, c))
    ensures OrderlyExcept(Known(a), SwappedNotifications(b, c), AtTell)
  {
    var w0, es := Known(a), SwappedNotifications(b, c);
    var w1 := w0.(reading := map[1 := Update(a, b)]);
    var w2 := World(b, map[], [Update(a, b)], [], [Project(a)], [a, b], [Project(a)]);
    var l := SecondStore(a, b, c, w2);
    OneEvent(w1, Store(1), w2, es.rest.rest, AtTell, l);
    OneEvent(w0, Read(1, b), w1, es.rest, AtTell, l);
  }

  lemma SecondStore(a: Auth, b: Auth, c: Auth, w: World) returns (l: World)
    requires Differ(a, b) && Differ(b, c)
    requires w == World(b, map[], [Update(a, b)], [], [Project(a)], [a, b], [Project(a)])
    ensures Reaches(w, SwappedNotifications(b, c).rest.rest, AtTell, l)
    ensures Settled(l) && l.auth == c && l.received == [Project(a), Project(c), Project(b)]
  {
    var es := SwappedNotifications(b, c).rest.rest;
    var w3 := w.(reading := map[2 := Update(b, c)]);
    var w4 := World(c, map[], [Update(a, b), Update(b, c)], [], [Project(a)], [a, b, c], [Project(a)]);
    l := SwappedTells(a, b, c, w4);
    OneEvent(w3, Store(2), w4, es.rest.rest, AtTell, l);
    OneEvent(w, Read(2, c), w3, es.rest, AtTell, l);
  }

  lemma SwappedTells(a: Auth, b: Auth, c: Auth, w: World) returns (l: World)
    requires Differ(a, b) && Differ(b, c)
    requires w == World(c, map[], [Update(a, b), Update(b, c)], [], [Project(a)], [a, b, c], [Project(a)])
    ensures Reaches(w, SwappedNotifications(b, c).rest.rest.rest.rest, AtTell, l)
    ensures Settled(l) && l.auth == c && l.received == [Project(a), Project(c), Project(b)]
  {
    var pa, pb, pc, es := Project(a), Project(b), Project(c), SwappedNotifications(b, c).rest.rest.rest.rest;
    var w5 := World(c, map[], [Update(a, b)], [pc], [pa], [a, b, c], [pa, pc]);
    var w6 := World(c, map[], [], [pc, pb], [pa], [a, b, c], [pa, pc, pb]);
    var w7 := w6.(pending := [pb], received := [pa, pc]);
    l := w6.(pending := [], received := [pa, pc, pb]);
    OneEvent(w7, Deliver(0), l, End, AtTell, l);
    OneEvent(w6, Deliver(0), w7, es.rest.rest.rest, AtTell, l);
    OneEvent(w5, Tell(0), w6, es.rest.rest, AtTell, l);
    OneEvent(w, Tell(1), w5, es.rest, AtTell, l);
  }

  /** Even one caller after another: the two spawned tasks finish in the opposite order. */
  lemma SwappedDeliveriesEndStale(a: Auth, b: Auth, c: Auth)
    requires Differ(a, b) && Differ(b, c)
    ensures Initial(Known(a)) && EndsStale(Known(a), SwappedDeliveries(b, c))
    ensures OrderlyExcept(Known(a), SwappedDeliveries(b, c), AtDeliver)
  {
    var w0, pa, pb, es := Known(a), Project(a), Project(b), SwappedDeliveries(b, c);
    var w1 := w0.(reading := map[1 := Update(a, b)]);
    var w2 := World(b, map[], [Update(a, b)], [], [pa], [a, b], [pa]);
    var w3 := World(b, map[], [], [pb], [pa], [a, b], [pa, pb]);
    var l := SecondCall(a, b, c, w3);
    OneEvent(w2, Tell(0), w3, es.rest.rest.rest, AtDeliver, l);
    OneEvent(w1, Store(1), w2, es.rest.rest, AtDeliver, l);
    OneEvent(w0, Read(1, b), w1, es.rest, AtDeliver, l);
  }

  lemma SecondCall(a: Auth, b: Auth, c: Auth, w: World) returns (l: World)
    requires Differ(a, b) && Differ(b, c)
    requires w == World(b, map[], [], [Project(b)], [Project(a)], [a, b], [Project(a), Project(b)])
    ensures Reaches(w, SwappedDeliveries(b, c).rest.rest.rest, AtDeliver, l)
    ensures Settled(l) && l.auth == c && l.received == [Project(a), Project(c), Project(b)]
  {
    var pa, pb, pc, es := Project(a), Project(b), Project(c), SwappedDeliveries(b, c).rest.rest.rest;
    var w4 := w.(reading := map[1 := Update(b, c)]);
    var w5 := World(c, map[], [Update(b, c)], [pb], [pa], [a, b, c], [pa, pb]);
    var w6 := World(c, map[], [], [pb, pc], [pa], [a, b, c], [pa, pb, pc]);
    var w7 := w6.(pending := [pb], received := [pa, pc]);
    l := w6.(pending := [], received := [pa, pc, pb]);
    OneEvent(w7, Deliver(0), l, End, AtDeliver, l);
    OneEvent(w6, Deliver(1), w7, es.rest.rest.rest.rest, AtDeliver, l);
    OneEvent(w5, Tell(0), w6, es.rest.rest.rest, AtDeliver, l);
    OneEvent(w4, Store(1), w5, es.rest.rest, AtDeliver, l);
    OneEvent(w, Read(1, c), w4, es.rest, AtDeliver, l);
  }
}
