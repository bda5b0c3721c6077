/** The stored session and what Dart has been told about it: the notifying store, the setters that do not
    notify, and the exact steps that let the two drift apart. */
module SessionMirror {
  import opened Wrappers

  /** A session's tokens may lack an access token or scopes, so each part is optional. */
  datatype Auth =
    | NoAuth
    | Session(userId: string, uid: string, access: Option<string>, refresh: Option<string>, scopes: Option<seq<string>>)

  datatype Parts = Parts(uid: Option<string>, access: Option<string>, refresh: Option<string>, scopes: Option<seq<string>>)

  datatype ChildSession = ChildSession(sessionId: string, accessToken: string, refreshToken: string, scopes: seq<string>)

  /** What the comparison looks at: everything but the user. */
  function PartsOf(a: Auth): Parts {
    match a
    case NoAuth => Parts(None, None, None, None)
    case Session(_, uid, access, refresh, scopes) => Parts(Some(uid), access, refresh, scopes)
  }

  function OrDefault<T>(o: Option<T>, d: T): T {
    if o.Some? then o.value else d
  }

  /** What Dart is sent: missing parts become empty. */
  function Project(a: Auth): ChildSession {
    var p := PartsOf(a);
    ChildSession(OrDefault(p.uid, ""), OrDefault(p.access, ""), OrDefault(p.refresh, ""), OrDefault(p.scopes, []))
  }

  predicate Changed(previous: Auth, updated: Auth) {
    updated.Session? && PartsOf(previous) != PartsOf(updated)
  }

  datatype State = State(auth: Auth, initializing: bool, registered: bool, scheduled: seq<ChildSession>)

  predicate LastIs(sent: seq<ChildSession>, s: ChildSession) {
    sent != [] && sent[|sent| - 1] == s
  }

  /** While a session is stored, the last one scheduled for Dart is that session. */
  predicate Mirrored(st: State) {
    st.auth.Session? ==> LastIs(st.scheduled, Project(st.auth))
  }

  /** `readOk` and `storeOk` say whether the inner store's reads and writes succeed.  `Replace` is every
      setter that writes the slot without notifying. */
  datatype Op =
    | SetAuth(auth: Auth, readOk: bool, storeOk: bool)
    | SetAllAuth(auth: Auth, readOk: bool, storeOk: bool)
    | RemoveAuth
    | Replace(auth: Auth)
    | Register
    | Unregister
    | Logout
    | SetInitializing(on: bool)

  function Notify(st: State, previous: Auth, updated: Auth): State {
    if Changed(previous, updated) && !st.initializing && st.registered
    then st.(scheduled := st.scheduled + [Project(updated)])
    else st
  }

  function StoreAndNotify(st: State, auth: Auth, readOk: bool, storeOk: bool): State {
    if !storeOk then st
    else Notify(st.(auth := auth), if readOk then st.auth else NoAuth, auth)
  }

  function Step(st: State, op: Op): State {
    match op
    case SetAuth(a, readOk, storeOk) => StoreAndNotify(st, a, readOk, storeOk)
    case SetAllAuth(a, readOk, storeOk) => StoreAndNotify(st, a, readOk, storeOk)
    case RemoveAuth => st.(auth := NoAuth)
    case Replace(a) => st.(auth := a)
    case Register => st.(registered := true)
    case Unregister => st.(registered := false)
    case Logout => st.(registered := false, auth := NoAuth)
    case SetInitializing(on) => st.(initializing := on)
  }

  function Run(st: State, ops: seq<Op>): State
    decreases |ops|
  {
    if ops == [] then st else Run(Step(st, ops[0]), ops[1..])
  }

  // ----- one step

  predicate Setter(op: Op) {
    op.SetAuth? || op.SetAllAuth?
  }

  /** A step that stores a session Dart was not last sent, and cannot tell it: a setter that never notifies,
      or a notifying one while a client initialises or no callback is registered. */
  predicate Blind(st: State, op: Op) {
    && (op.Replace? || (Setter(op) && op.storeOk && (st.initializing || !st.registered)))
    && op.auth.Session?
    && !LastIs(st.scheduled, Project(op.auth))
  }

  /** What Dart is sent, part by part. */
  lemma SentPartByPart(userId: string, uid: string, access: string, refresh: string, scopes: seq<string>)
    ensures Project(NoAuth) == ChildSession("", "", "", [])
    ensures Project(Session(userId, uid, Some(access), Some(refresh), Some(scopes))) == ChildSession(uid, access, refresh, scopes)
    ensures Project(Session(userId, uid, None, Some(refresh), Some(scopes))) == ChildSession(uid, "", refresh, scopes)
    ensures Project(Session(userId, uid, Some(access), None, Some(scopes))) == ChildSession(uid, access, "", scopes)
    ensures Project(Session(userId, uid, Some(access), Some(refresh), None)) == ChildSession(uid, access, refresh, [])
  {
  }

  /** A session is changed exactly if there was none or one of the four compared fields differs; the user is not
      compared. */
  lemma ChangedExactly(previous: Auth, updated: Auth)
    ensures Changed(previous, updated) <==>
            && updated.Session?
            && (previous.Session? ==>
                  || previous.uid != updated.uid || previous.access != updated.access
                  || previous.refresh != updated.refresh || previous.scopes != updated.scopes)
  {
  }

  /** The comparison never misses a difference Dart could see. */
  lemma UnchangedLooksTheSame(previous: Auth, updated: Auth)
    requires updated.Session? && !Changed(previous, updated)
    ensures previous.Session? && Project(previous) == Project(updated)
  {
  }

  /** A missing part is sent like an empty one. */
  predicate SameWhenSent<T(==)>(a: Option<T>, b: Option<T>, default_: T) {
    a == b || (a == None && b == Some(default_)) || (a == Some(default_) && b == None)
  }

  /** A notification shows Dart nothing new exactly when some part differs, and every part that differs is
      missing on one side and empty on the other. */
  lemma NotifiedInVainIff(previous: Auth, updated: Auth)
    ensures Changed(previous, updated) && Project(previous) == Project(updated) <==>
            var p, u := PartsOf(previous), PartsOf(updated);
            && updated.Session? && p != u
            && SameWhenSent(p.uid, u.uid, "") && SameWhenSent(p.access, u.access, "")
            && SameWhenSent(p.refresh, u.refresh, "") && SameWhenSent(p.scopes, u.scopes, [])
  {
    var p, u := PartsOf(previous), PartsOf(updated);
    SentAlikeIff(p.uid, u.uid, "");
    SentAlikeIff(p.access, u.access, "");
    SentAlikeIff(p.refresh, u.refresh, "");
    SentAlikeIff(p.scopes, u.scopes, []);
  }

  lemma SentAlikeIff<T>(a: Option<T>, b: Option<T>, default_: T)
    ensures OrDefault(a, default_) == OrDefault(b, default_) <==> SameWhenSent(a, b, default_)
  {
  }

  /** It may notify although Dart sees no difference: a missing token is sent like an empty one. */
  lemma ChangeMayBeInvisible()
    ensures exists a: Auth, b: Auth :: Changed(a, b) && Project(a) == Project(b)
  {
    var a := Session("u", "s", None, Some("r"), Some([]));
    var b := a.(access := Some(""));
    assert PartsOf(a).access != PartsOf(b).access;
    assert Changed(a, b) && Project(a) == Project(b);
  }

  /** A mirrored state stops being mirrored in exactly the blind steps. */
  lemma StepLosesMirrorIff(st: State, op: Op)
    requires Mirrored(st)
    ensures !Mirrored(Step(st, op)) <==> Blind(st, op)
  {
    if Setter(op) && op.storeOk && op.auth.Session? {
      var previous := if op.readOk then st.auth else NoAuth;
      if !Changed(previous, op.auth) {
        UnchangedLooksTheSame(previous, op.auth);
      }
    }
  }

  /** Exactly what a notifying setter does: nothing if the write fails; else it stores the session, and schedules it if it
      is one that differs from the session read, or any if the read fails, while a callback is registered and no client
      initialises. */
  lemma SetterExactly(st: State, op: Op)
    requires Setter(op)
    ensures var differs := !op.readOk || PartsOf(op.auth) != PartsOf(st.auth);
            var sends := op.storeOk && op.auth.Session? && differs && st.registered && !st.initializing;
            Step(st, op) == State(if op.storeOk then op.auth else st.auth, st.initializing, st.registered,
                                  if sends then st.scheduled + [Project(op.auth)] else st.scheduled)
  {
    assert op.auth.Session? ==> PartsOf(op.auth).uid.Some?;
  }

  /** A setter that stores what is already stored, up to the user, schedules nothing. */
  lemma UnchangedSchedulesNothing(st: State, op: Op)
    requires Setter(op) && op.readOk && PartsOf(op.auth) == PartsOf(st.auth)
    ensures Step(st, op).scheduled == st.scheduled && (Mirrored(Step(st, op)) <==> Mirrored(st))
  {
    assert op.auth.Session? <==> PartsOf(op.auth).uid.Some?;
  }

  // ----- whole runs

  predicate AlwaysMirrored(st: State, ops: seq<Op>)
    decreases |ops|
  {
    Mirrored(st) && (ops == [] || AlwaysMirrored(Step(st, ops[0]), ops[1..]))
  }

  predicate NoBlindStep(st: State, ops: seq<Op>)
    decreases |ops|
  {
    ops == [] || (!Blind(st, ops[0]) && NoBlindStep(Step(st, ops[0]), ops[1..]))
  }

  /** Over every run of every operation: Dart is kept up to date after each step exactly when it was at the
      start and no step is blind. */
  lemma {:induction false} MirroredThroughoutIff(st: State, ops: seq<Op>)
    ensures AlwaysMirrored(st, ops) <==> Mirrored(st) && NoBlindStep(st, ops)
    decreases |ops|
  {
    if ops != [] && Mirrored(st) {
      StepLosesMirrorIff(st, ops[0]);
      MirroredThroughoutIff(Step(st, ops[0]), ops[1..]);
    }
  }

  predicate OnlyNotifyingSetters(ops: seq<Op>) {
    forall i :: 0 <= i < |ops| ==> Setter(ops[i]) || ops[i].RemoveAuth? || ops[i].Register?
  }

  /** The promise: with a callback registered, no client initialising and only notifying setters, the mirror
      holds after every step, whichever reads and writes of the inner store fail. */
  lemma {:induction false} NotifyingSettersKeepTheMirror(st: State, ops: seq<Op>)
    requires Mirrored(st) && st.registered && !st.initializing && OnlyNotifyingSetters(ops)
    ensures AlwaysMirrored(st, ops) && Mirrored(Run(st, ops))
    decreases |ops|
  {
    if ops != [] {
      assert Setter(ops[0]) || ops[0].RemoveAuth? || ops[0].Register?;
      assert forall i :: 0 <= i < |ops[1..]| ==> ops[1..][i] == ops[i + 1];
      StepLosesMirrorIff(st, ops[0]);
      NotifyingSettersKeepTheMirror(Step(st, ops[0]), ops[1..]);
    }
  }

  predicate Repeats(st: State, ops: seq<Op>) {
    forall i :: 0 <= i < |ops| ==> ops[i].Register? || ops[i].SetInitializing?
                                   || (Setter(ops[i]) && ops[i].readOk && PartsOf(ops[i].auth) == PartsOf(st.auth))
  }

  /** Once Dart is behind, storing the same session again never catches it up, not even after a callback is
      registered or the client has finished initialising. */
  lemma {:induction false} RepeatsNeverRepair(st: State, ops: seq<Op>)
    requires !Mirrored(st) && Repeats(st, ops)
    ensures !Mirrored(Run(st, ops)) && Run(st, ops).scheduled == st.scheduled
    decreases |ops|
  {
    if ops != [] {
      var next := Step(st, ops[0]);
      assert ops[0].Register? || ops[0].SetInitializing? || (Setter(ops[0]) && ops[0].readOk && PartsOf(ops[0].auth) == PartsOf(st.auth));
      if Setter(ops[0]) {
        UnchangedSchedulesNothing(st, ops[0]);
      }
      assert PartsOf(next.auth) == PartsOf(st.auth);
      assert forall i :: 0 <= i < |ops[1..]| ==> ops[1..][i] == ops[i + 1];
      RepeatsNeverRepair(next, ops[1..]);
    }
  }

  function AfterThree(st: State, first: Op, second: Op, third: Op): State {
    Step(Step(Step(st, first), second), third)
  }

  /** Signing in after a removal or a logout always tells Dart, even if the session is the one Dart was sent
      last; without a callback registered in between it never does. */
  lemma SignInAfterRemoval(st: State, a: Auth, readOk: bool)
    requires a.Session? && !st.initializing
    ensures AfterThree(st, RemoveAuth, Register, SetAuth(a, readOk, true)) == State(a, false, true, st.scheduled + [Project(a)])
    ensures AfterThree(st, Logout, Register, SetAuth(a, readOk, true)) == State(a, false, true, st.scheduled + [Project(a)])
    ensures AfterThree(st, Register, Logout, SetAuth(a, readOk, true)) == State(a, false, false, st.scheduled)
    ensures AfterThree(st, Logout, Unregister, SetAuth(a, readOk, false)) == State(NoAuth, false, false, st.scheduled)
  {
    assert PartsOf(a).uid != PartsOf(NoAuth).uid;
  }

  /** A session that arrives while the client initialises is such a case. */
  lemma SessionsOfInitialisationAreNotSent(a: Auth, ops: seq<Op>)
    requires a.Session?
    requires Repeats(State(a, true, true, []), ops)
    ensures var start := State(NoAuth, true, true, []);
            && Mirrored(start) && Blind(start, SetAuth(a, true, true))
            && !Mirrored(Run(Step(start, SetAuth(a, true, true)), ops))
  {
    var start := State(NoAuth, true, true, []);
    assert Step(start, SetAuth(a, true, true)) == State(a, true, true, []);
    RepeatsNeverRepair(State(a, true, true, []), ops);
  }

  /** Any step only appends to what was scheduled, at most one session, and that session is the one stored. */
  lemma ScheduledIsStored(st: State, op: Op)
    ensures var next := Step(st, op);
            || next.scheduled == st.scheduled
            || (next.scheduled == st.scheduled + [Project(next.auth)] && next.auth.Session? && Mirrored(next))
  {
  }

  // ----- the classes

  /** The slot behind `Arc<Mutex<Auth>>`, shared by every store built from one handle. */
  class AuthSlot {
    var auth: Auth

    constructor (auth: Auth)
      ensures this.auth == auth
    {
      this.auth := auth;
    }
  }

  /** The two process-wide variables, and the sessions handed to spawned callback tasks so far. */
  class SessionGlobals {
    var initializing: bool
    var registered: bool
    var scheduled: seq<ChildSession>

    constructor ()
      ensures !initializing && !registered && scheduled == []
    {
      initializing, registered, scheduled := false, false, [];
    }

    method SetApiClientInitializing(on: bool)
      modifies this
      ensures initializing == on && registered == old(registered) && scheduled == old(scheduled)
    {
      initializing := on;
    }

    method RefreshAuthCredential(auth: Auth)
      modifies this
      ensures initializing == old(initializing) && registered == old(registered)
      ensures scheduled == if registered then old(scheduled) + [Project(auth)] else old(scheduled)
    {
      if registered {
        scheduled := scheduled + [Project(auth)];
      }
    }

    method NotifyAuthSessionChanged(previous: Auth, updated: Auth)
      modifies this
      ensures State(updated, initializing, registered, scheduled)
           == Notify(State(updated, old(initializing), old(registered), old(scheduled)), previous, updated)
    {
      if updated.NoAuth? {
        return;
      }
      if !Changed(previous, updated) {
        return;
      }
      if initializing {
        return;
      }
      RefreshAuthCredential(updated);
    }
  }

  function StateOf(slot: AuthSlot, globals: SessionGlobals): State
    reads slot, globals
  {
    State(slot.auth, globals.initializing, globals.registered, globals.scheduled)
  }

  class CallbackWalletAuthStore {
    const slot: AuthSlot
    const globals: SessionGlobals

    constructor (slot: AuthSlot, globals: SessionGlobals)
      ensures this.slot == slot && this.globals == globals
    {
      this.slot, this.globals := slot, globals;
    }

    method GetAuth(readOk: bool) returns (r: Option<Auth>)
      ensures r == if readOk then Some(slot.auth) else None
    {
      r := if readOk then Some(slot.auth) else None;
    }

    method SetAuth(auth: Auth, readOk: bool, storeOk: bool) returns (done: bool)
      modifies slot, globals
      ensures done == storeOk
      ensures StateOf(slot, globals) == Step(old(StateOf(slot, globals)), Op.SetAuth(auth, readOk, storeOk))
      ensures old(Mirrored(StateOf(slot, globals)) && globals.registered && !globals.initializing) ==> Mirrored(StateOf(slot, globals))
    {
      StepLosesMirrorIffAll(StateOf(slot, globals), Op.SetAuth(auth, readOk, storeOk));
      var found := GetAuth(readOk);
      var previous := if found.Some? then found.value else NoAuth;
      if !storeOk {
        return false;
      }
      slot.auth := auth;
      globals.NotifyAuthSessionChanged(previous, auth);
      done := true;
    }

    /** The map has at most one entry.  What the inner store keeps when it is empty is `whenEmpty`. */
    method SetAllAuth(entry: Option<Auth>, whenEmpty: Auth, readOk: bool, storeOk: bool) returns (done: bool)
      modifies slot, globals
      ensures done == storeOk
      ensures StateOf(slot, globals) == Step(old(StateOf(slot, globals)),
                if entry.Some? then Op.SetAllAuth(entry.value, readOk, storeOk)
                else Op.Replace(if storeOk then whenEmpty else old(slot.auth)))
    {
      var found := GetAuth(readOk);
      var previous := if found.Some? then found.value else NoAuth;
      if !storeOk {
        return false;
      }
      slot.auth := if entry.Some? then entry.value else whenEmpty;
      if entry.Some? {
        globals.NotifyAuthSessionChanged(previous, entry.value);
      }
      done := true;
    }

    method RemoveAuth() returns (removed: Auth)
      modifies slot
      ensures removed == old(slot.auth)
      ensures StateOf(slot, globals) == Step(old(StateOf(slot, globals)), Op.RemoveAuth)
      ensures Mirrored(StateOf(slot, globals)) && slot.auth == NoAuth
      ensures globals.scheduled == old(globals.scheduled) && globals.registered == old(globals.registered)
    {
      removed := slot.auth;
      slot.auth := NoAuth;
    }
  }

  lemma StepLosesMirrorIffAll(st: State, op: Op)
    ensures Mirrored(st) ==> (!Mirrored(Step(st, op)) <==> Blind(st, op))
  {
    if Mirrored(st) {
      StepLosesMirrorIff(st, op);
    }
  }

  class ProtonWalletAuthStore {
    const slot: AuthSlot
    const globals: SessionGlobals

    constructor (slot: AuthSlot, globals: SessionGlobals)
      ensures this.slot == slot && this.globals == globals
    {
      this.slot, this.globals := slot, globals;
    }

    method CallbackStore() returns (store: CallbackWalletAuthStore)
      ensures fresh(store) && store.slot == slot && store.globals == globals
    {
      store := new CallbackWalletAuthStore(slot, globals);
    }

    method SetAuthSync(userId: string, uid: string, access: string, refresh: string, scopes: seq<string>)
      modifies slot
      ensures StateOf(slot, globals) == Step(old(StateOf(slot, globals)), Op.Replace(Session(userId, uid, Some(access), Some(refresh), Some(scopes))))
      ensures old(Mirrored(StateOf(slot, globals))) ==>
                (Mirrored(StateOf(slot, globals)) <==> LastIs(globals.scheduled, ChildSession(uid, access, refresh, scopes)))
    {
      slot.auth := Session(userId, uid, Some(access), Some(refresh), Some(scopes));
    }

    method SetAuthDartCallback()
      modifies globals
      ensures StateOf(slot, globals) == Step(old(StateOf(slot, globals)), Op.Register)
      ensures globals.registered && globals.scheduled == old(globals.scheduled)
      ensures Mirrored(StateOf(slot, globals)) <==> old(Mirrored(StateOf(slot, globals)))
    {
      globals.registered := true;
    }

    method ClearAuthDartCallback()
      modifies globals
      ensures StateOf(slot, globals) == Step(old(StateOf(slot, globals)), Op.Unregister)
      ensures !globals.registered && globals.scheduled == old(globals.scheduled)
      ensures Mirrored(StateOf(slot, globals)) <==> old(Mirrored(StateOf(slot, globals)))
    {
      globals.registered := false;
    }

    method Logout()
      modifies slot, globals
      ensures StateOf(slot, globals) == Step(old(StateOf(slot, globals)), Op.Logout)
      ensures Mirrored(StateOf(slot, globals))
    {
      globals.registered := false;
      slot.auth := NoAuth;
    }
  }
}
