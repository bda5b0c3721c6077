/** When the files of an interleaved run still read as the history, and how they stop doing so. */
module LogOrdering {
  import opened Wrappers
  import opened Disks
  import opened LogInterleavings
  import LogNames
  import LogWriter

  predicate Rotating(pc: Pc) {
    pc == Renaming || pc == Opening || pc.Swapping?
  }

  /** At most one thread at a time is between its size check and its handle swap. */
  ghost predicate Exclusive(s: System) {
    forall t: Thread, u: Thread :: Rotating(s.At(t)) && Rotating(s.At(u)) ==> t == u
  }

  ghost function Flatten(log: seq<Entry>): Bytes {
    if log == [] then [] else Flatten(log[..|log| - 1]) + log[|log| - 1].bytes
  }

  /** Writes never go back to an older file, and a file about to be installed is newer than the open one. */
  ghost predicate Ordered(s: System) {
    && (forall j, k :: 0 <= j < k < |s.log| ==> s.log[j].inode <= s.log[k].inode)
    && (forall k :: 0 <= k < |s.log| ==> s.log[k].inode <= s.handle)
    && s.handle < s.disk.next
    && (forall t: Thread :: s.At(t) == Opening ==> s.path !in s.disk.dir)
    && (forall t: Thread :: s.At(t).Swapping? ==> s.handle < s.At(t).inode < s.disk.next)
  }

  lemma StepOrdered(s: System, e: Event)
    requires Ordered(s) && Exclusive(s) && Enabled(s, e) && Exclusive(Step(s, e))
    ensures Ordered(Step(s, e))
  {
    var s' := Step(s, e);
    forall t: Thread | s'.At(t) == Opening ensures s'.path !in s'.disk.dir {
      if t != e.t {
        assert s.At(t) == Opening;
        assert e.Open? ==> Rotating(s.At(e.t));
      }
    }
    forall t: Thread | s'.At(t).Swapping? ensures s'.handle < s'.At(t).inode < s'.disk.next {
      if t != e.t {
        assert s.At(t).Swapping?;
        assert e.Swap? ==> Rotating(s.At(e.t));
      }
    }
  }

  lemma {:induction false} ExclusiveRunsAreOrdered(ss: seq<System>, es: seq<Event>, k: nat)
    requires IsRun(ss, es) && Initial(ss[0]) && k < |ss|
    requires forall j :: 0 <= j < |ss| ==> Exclusive(ss[j])
    ensures Ordered(ss[k])
  {
    if k > 0 {
      ExclusiveRunsAreOrdered(ss, es, k - 1);
      assert Exclusive(ss[k - 1]) && Exclusive(ss[k]) && ss[k] == Step(ss[k - 1], es[k - 1]);
      StepOrdered(ss[k - 1], es[k - 1]);
    }
  }

  // ----- exactly when the order is kept

  /** The entries that went to inode `i`, in order. */
  ghost function Only(log: seq<Entry>, i: Inode): seq<Entry> {
    if log == [] then []
    else
      var last := log[|log| - 1];
      Only(log[..|log| - 1], i) + (if last.inode == i then [last] else [])
  }

  /** The writes as a reader meets them who takes the files in order of creation. */
  ghost function ByFile(log: seq<Entry>, n: nat): seq<Entry> {
    if n == 0 then [] else ByFile(log, n - 1) + Only(log, n - 1)
  }

  ghost predicate Sorted(log: seq<Entry>) {
    forall j, k :: 0 <= j < k < |log| ==> log[j].inode <= log[k].inode
  }

  /** An accepted write goes to an older file than the write before it. */
  predicate Backward(s: System, e: Event) {
    e.Write? && e.accepted.Some? && s.log != [] && s.handle < s.log[|s.log| - 1].inode
  }

  lemma {:induction false} OnlyHasInode(log: seq<Entry>, i: Inode)
    ensures forall k :: 0 <= k < |Only(log, i)| ==> Only(log, i)[k].inode == i
  {
    if log != [] {
      OnlyHasInode(log[..|log| - 1], i);
    }
  }

  lemma {:induction false} ByFileIsSorted(log: seq<Entry>, n: nat)
    ensures Sorted(ByFile(log, n)) && forall k :: 0 <= k < |ByFile(log, n)| ==> ByFile(log, n)[k].inode < n
  {
    if n > 0 {
      ByFileIsSorted(log, n - 1);
      OnlyHasInode(log, n - 1);
    }
  }

  lemma {:induction false} OnlyOutside(log: seq<Entry>, i: Inode)
    requires forall k :: 0 <= k < |log| ==> log[k].inode != i
    ensures Only(log, i) == []
  {
    if log != [] {
      OnlyOutside(log[..|log| - 1], i);
    }
  }

  lemma OnlySnoc(log: seq<Entry>, e: Entry, i: Inode)
    ensures Only(log + [e], i) == Only(log, i) + (if e.inode == i then [e] else [])
  {
    assert (log + [e])[..|log|] == log;
  }

  /** The first `n` blocks, one after the other. */
  ghost function Join(blocks: seq<seq<Entry>>, n: nat): seq<Entry>
    requires n <= |blocks|
  {
    if n == 0 then [] else Join(blocks, n - 1) + blocks[n - 1]
  }

  /** Appending to a block that only empty ones follow appends to the whole. */
  lemma {:induction false} JoinSnoc(blocks: seq<seq<Entry>>, m: nat, e: Entry, n: nat)
    requires m < |blocks| && n <= |blocks| && forall k :: m < k < |blocks| ==> blocks[k] == []
    ensures Join(blocks[m := blocks[m] + [e]], n) == Join(blocks, n) + (if m < n then [e] else [])
  {
    if n > 0 {
      JoinSnoc(blocks, m, e, n - 1);
    }
  }

  lemma {:induction false} ByFileIsJoin(log: seq<Entry>, blocks: seq<seq<Entry>>, n: nat)
    requires n <= |blocks| && forall i :: 0 <= i < |blocks| ==> blocks[i] == Only(log, i)
    ensures ByFile(log, n) == Join(blocks, n)
  {
    if n > 0 {
      ByFileIsJoin(log, blocks, n - 1);
    }
  }

  lemma ByFileSnoc(log: seq<Entry>, e: Entry, n: nat)
    requires e.inode < n && forall k :: 0 <= k < |log| ==> log[k].inode <= e.inode
    ensures ByFile(log + [e], n) == ByFile(log, n) + [e]
  {
    var blocks := Blocks(log, n);
    forall i | e.inode < i < n ensures blocks[i] == [] {
      OnlyOutside(log, i);
    }
    BlocksSnoc(log, e, n);
    JoinSnoc(blocks, e.inode, e, n);
    ByFileIsJoin(log, blocks, n);
    ByFileIsJoin(log + [e], Blocks(log + [e], n), n);
  }

  ghost function Blocks(log: seq<Entry>, n: nat): (blocks: seq<seq<Entry>>)
    ensures |blocks| == n && forall i :: 0 <= i < n ==> blocks[i] == Only(log, i)
  {
    seq(n, i requires 0 <= i < n => Only(log, i))
  }

  lemma BlocksSnoc(log: seq<Entry>, e: Entry, n: nat)
    requires e.inode < n
    ensures Blocks(log + [e], n) == Blocks(log, n)[e.inode := Blocks(log, n)[e.inode] + [e]]
  {
    var after, expected := Blocks(log + [e], n), Blocks(log, n)[e.inode := Blocks(log, n)[e.inode] + [e]];
    forall i | 0 <= i < n ensures after[i] == expected[i] {
      OnlySnoc(log, e, i);
    }
    assert after == expected;
  }

  lemma {:induction false} ByFileOfNothing(n: nat)
    ensures ByFile([], n) == []
  {
    if n > 0 {
      ByFileOfNothing(n - 1);
    }
  }

  lemma {:induction false} SortedLogIsByFile(log: seq<Entry>, n: nat)
    requires Sorted(log) && forall k :: 0 <= k < |log| ==> log[k].inode < n
    ensures ByFile(log, n) == log
  {
    if log == [] {
      ByFileOfNothing(n);
    } else {
      var init, last := log[..|log| - 1], log[|log| - 1];
      assert log == init + [last];
      SortedLogIsByFile(init, n);
      ByFileSnoc(init, last, n);
    }
  }

  lemma SortedSnoc(log: seq<Entry>, e: Entry)
    ensures Sorted(log + [e]) <==> Sorted(log) && (log == [] || log[|log| - 1].inode <= e.inode)
  {
    var log' := log + [e];
    if Sorted(log') {
      assert forall j :: 0 <= j < |log| ==> log[j] == log'[j];
      assert log != [] ==> log'[|log| - 1].inode <= log'[|log|].inode;
    }
  }

  lemma {:induction false} SortedIffNeverBackward(ss: seq<System>, es: seq<Event>, n: nat)
    requires IsRun(ss, es) && ss[0].log == [] && n <= |es|
    ensures Sorted(ss[n].log) <==> forall k :: 0 <= k < n ==> !Backward(ss[k], es[k])
  {
    if n > 0 {
      SortedIffNeverBackward(ss, es, n - 1);
      var s, e := ss[n - 1], es[n - 1];
      assert ss[n] == Step(s, e);
      if e.Write? && e.accepted.Some? {
        SortedSnoc(s.log, Entry(s.handle, e.buffer[..e.accepted.value]));
      }
    }
  }

  // ----- what a reader of the disk finds

  /** What the files found by name hold beyond their original bytes, in order of creation. */
  ghost function ReadBack(first: Disk, disk: Disk, n: nat): Bytes {
    if n == 0 then [] else ReadBack(first, disk, n - 1) + Added(first, disk, n - 1)
  }

  /** Files only grow; one that cannot be found by name yields nothing. */
  ghost function Added(first: Disk, disk: Disk, i: Inode): Bytes {
    if i in disk.data && disk.Linked(i) && |Origin(first, i)| <= |disk.data[i]| then disk.data[i][|Origin(first, i)|..] else []
  }

  /** The writes whose file can be found by name. */
  ghost function Found(disk: Disk, log: seq<Entry>): seq<Entry> {
    if log == [] then []
    else
      var last := log[|log| - 1];
      Found(disk, log[..|log| - 1]) + (if disk.Linked(last.inode) then [last] else [])
  }

  lemma {:induction false} OnlyFound(disk: Disk, log: seq<Entry>, i: Inode)
    ensures Only(Found(disk, log), i) == if disk.Linked(i) then Only(log, i) else []
  {
    if log != [] {
      var init, last := log[..|log| - 1], log[|log| - 1];
      OnlyFound(disk, init, i);
      assert Only(log, i) == Only(init, i) + (if last.inode == i then [last] else []);
      if disk.Linked(last.inode) {
        OnlySnoc(Found(disk, init), last, i);
        assert Found(disk, log) == Found(disk, init) + [last];
      } else {
        assert Found(disk, log) == Found(disk, init);
      }
    }
  }

  lemma {:induction false} FoundAll(disk: Disk, log: seq<Entry>)
    ensures (forall k :: 0 <= k < |log| ==> disk.Linked(log[k].inode)) ==> Found(disk, log) == log
    ensures forall k :: 0 <= k < |Found(disk, log)| ==> disk.Linked(Found(disk, log)[k].inode)
  {
    if log != [] {
      FoundAll(disk, log[..|log| - 1]);
      assert log == log[..|log| - 1] + [log[|log| - 1]];
    }
  }

  lemma {:induction false} ByFileMembers(log: seq<Entry>, n: nat, e: Entry)
    ensures e in ByFile(log, n) ==> e in log
  {
    if n > 0 {
      ByFileMembers(log, n - 1, e);
      OnlyMembers(log, n - 1, e);
    }
  }

  lemma {:induction false} OnlyMembers(log: seq<Entry>, i: Inode, e: Entry)
    ensures e in Only(log, i) ==> e in log
  {
    if log != [] {
      OnlyMembers(log[..|log| - 1], i, e);
      assert log == log[..|log| - 1] + [log[|log| - 1]];
    }
  }

  /** Reading the disk yields the writes that can be found, file by file. */
  lemma ReadBackIsByFile(first: Disk, s: System, n: nat)
    requires Conserves(first, s)
    ensures ReadBack(first, s.disk, n) == Flatten(ByFile(Found(s.disk, s.log), n))
  {
    forall i: nat | i < n ensures Added(first, s.disk, i) == Flatten(Only(Found(s.disk, s.log), i)) {
      ReadFile(first, s, i);
    }
    ReadFiles(first, s.disk, Found(s.disk, s.log), n);
  }

  lemma {:induction false} ReadFiles(first: Disk, disk: Disk, log: seq<Entry>, n: nat)
    requires forall i: nat :: i < n ==> Added(first, disk, i) == Flatten(Only(log, i))
    ensures ReadBack(first, disk, n) == Flatten(ByFile(log, n))
  {
    if n == 0 {
      assert Flatten([]) == [];
    } else {
      ReadFiles(first, disk, log, n - 1);
      FlattenConcat(ByFile(log, n - 1), Only(log, n - 1));
    }
  }

  lemma ReadFile(first: Disk, s: System, i: Inode)
    requires Conserves(first, s)
    ensures Added(first, s.disk, i) == Flatten(Only(Found(s.disk, s.log), i))
  {
    OnlyFound(s.disk, s.log, i);
    ProjectIsOnly(s.log, i);
    if i in s.disk.data {
      assert s.disk.data[i] == Origin(first, i) + Project(s.log, i);
    } else {
      assert !s.disk.Linked(i);
    }
    assert Flatten([]) == [];
  }

  /** The writes as a reader of the disk meets them. */
  ghost function Met(s: System): seq<Entry> {
    ByFile(Found(s.disk, s.log), s.disk.next)
  }

  /** Over every interleaving: reading the files of the folder in order of creation spells the writes in
      `Met`; and these are all writes of all threads in the order the lock admitted them if and only if no
      rename replaced a file that took one of them, and none went to an older file than the one before it. */
  lemma ReaderMeetsHistoryIff(ss: seq<System>, es: seq<Event>)
    requires IsRun(ss, es) && Initial(ss[0])
    ensures var first, s := ss[0].disk, ss[|es|];
            && ReadBack(first, s.disk, s.disk.next) == Flatten(Met(s))
            && (Met(s) == s.log <==>
                && (forall k :: 0 <= k < |s.log| ==> !Overwritten(ss, es, s.log[k].inode))
                && (forall k :: 0 <= k < |es| ==> !Backward(ss[k], es[k])))
  {
    var s := ss[|es|];
    RunConserves(ss, es, |es|);
    ReadBackIsByFile(ss[0].disk, s, s.disk.next);
    SortedIffNeverBackward(ss, es, |es|);
    forall k | 0 <= k < |s.log| ensures s.disk.Linked(s.log[k].inode) <==> !Overwritten(ss, es, s.log[k].inode) {
      DeadIsOverwritten(ss, es, |es|, s.log[k].inode);
    }
    MetIsLogIff(s);
  }

  lemma MetIsLogIff(s: System)
    requires forall k :: 0 <= k < |s.log| ==> s.log[k].inode < s.disk.next
    ensures Met(s) == s.log <==> (forall k :: 0 <= k < |s.log| ==> s.disk.Linked(s.log[k].inode)) && Sorted(s.log)
  {
    var found := Found(s.disk, s.log);
    FoundAll(s.disk, s.log);
    ByFileIsSorted(found, s.disk.next);
    if Met(s) == s.log {
      forall k | 0 <= k < |s.log| ensures s.disk.Linked(s.log[k].inode) {
        ByFileMembers(found, s.disk.next, s.log[k]);
      }
    } else if (forall k :: 0 <= k < |s.log| ==> s.disk.Linked(s.log[k].inode)) && Sorted(s.log) {
      SortedLogIsByFile(s.log, s.disk.next);
    }
  }

  /** With fresh names the order of the writes is all that can go wrong. */
  lemma FreshNamesKeepOrderIff(ss: seq<System>, es: seq<Event>)
    requires IsRun(ss, es) && Initial(ss[0]) && FreshNames(ss, es)
    ensures var first, s := ss[0].disk, ss[|es|];
            && (Met(s) == s.log <==> forall k :: 0 <= k < |es| ==> !Backward(ss[k], es[k]))
            && ((forall k :: 0 <= k < |es| ==> !Backward(ss[k], es[k])) ==>
                  ReadBack(first, s.disk, s.disk.next) == Flatten(s.log))
  {
    ReaderMeetsHistoryIff(ss, es);
    var s := ss[|es|];
    assert forall k :: 0 <= k < |s.log| ==> !Overwritten(ss, es, s.log[k].inode);
  }

  lemma {:induction false} ProjectIsOnly(log: seq<Entry>, i: Inode)
    ensures Project(log, i) == Flatten(Only(log, i))
  {
    if log != [] {
      var init, last := log[..|log| - 1], log[|log| - 1];
      ProjectIsOnly(init, i);
      FlattenConcat(Only(init, i), if last.inode == i then [last] else []);
      assert [last][..0] == [] && Flatten([last]) == last.bytes;
    }
  }

  lemma {:induction false} FlattenConcat(a: seq<Entry>, b: seq<Entry>)
    ensures Flatten(a + b) == Flatten(a) + Flatten(b)
  {
    if b == [] {
      assert a + b == a;
    } else {
      assert (a + b)[..|a + b| - 1] == a + b[..|b| - 1];
      FlattenConcat(a, b[..|b| - 1]);
    }
  }

  /** If rotations never overlap, what a reader of the files meets is all writes in lock order if and only
      if no rename replaced a file that took one of them; with fresh names the bytes then spell the history. */
  lemma ExclusiveRotationKeepsOrder(ss: seq<System>, es: seq<Event>)
    requires IsRun(ss, es) && Initial(ss[0])
    requires forall j :: 0 <= j < |ss| ==> Exclusive(ss[j])
    ensures var first, s := ss[0].disk, ss[|es|];
            && (Met(s) == s.log <==> forall k :: 0 <= k < |s.log| ==> !Overwritten(ss, es, s.log[k].inode))
            && (FreshNames(ss, es) ==> ReadBack(first, s.disk, s.disk.next) == Flatten(s.log))
  {
    ReaderMeetsHistoryIff(ss, es);
    ExclusiveRunsAreOrdered(ss, es, |es|);
    SortedIffNeverBackward(ss, es, |es|);
    if FreshNames(ss, es) {
      FreshNamesKeepOrderIff(ss, es);
    }
  }

  // ----- the size of the active file

  predicate Succeeds(e: Event) {
    match e
    case Write(_, _, _) => true
    case Check(_, metadataOk) => metadataOk
    case Rename(_, _, ok) => ok
    case Open(_, ok) => ok
    case Swap(_) => true
  }

  /** The path names the open file, which is below the limit unless a thread is about to check it. */
  predicate Settled(s: System) {
    && s.path in s.disk.dir && s.disk.dir[s.path] == s.handle && s.handle in s.disk.data
    && (s.lock == None ==> |s.disk.data[s.handle]| < LogWriter.MAX_LOG_SIZE)
  }

  /** Where a rotation stands: before the rename the path names the open file, then nothing, then a new empty file. */
  predicate Midway(s: System, pc: Pc) {
    match pc
    case Renaming => s.path in s.disk.dir && s.disk.dir[s.path] == s.handle
    case Opening => s.path !in s.disk.dir
    case Swapping(i) =>
      s.path in s.disk.dir && s.disk.dir[s.path] == i && i in s.disk.data && s.disk.data[i] == [] && i != s.handle
    case _ => true
  }

  ghost predicate Sized(s: System) {
    && s.handle < s.disk.next
    && (forall t: Thread :: Midway(s, s.At(t)))
    && (Quiet(s) ==> Settled(s))
  }

  ghost predicate Quiet(s: System) {
    forall t: Thread :: !Rotating(s.At(t))
  }

  /** A thread that does not rotate leaves a quiet log settled. */
  lemma QuietStep(first: Disk, s: System, e: Event)
    requires Conserves(first, s) && Settled(s) && Enabled(s, e) && Succeeds(e)
    requires !Rotating(s.At(e.t)) && !Rotating(Step(s, e).At(e.t))
    ensures Settled(Step(s, e))
  {
  }

  /** A rotation ends with the swap, which installs the file under the path. */
  lemma LastStep(first: Disk, s: System, e: Event)
    requires Conserves(first, s) && Midway(s, s.At(e.t)) && Enabled(s, e) && Succeeds(e)
    requires Rotating(s.At(e.t)) && !Rotating(Step(s, e).At(e.t))
    ensures Settled(Step(s, e))
  {
  }

  /** The thread that takes the step gets to the next stage; another one that is rotating is not disturbed. */
  lemma StepMidway(first: Disk, s: System, e: Event, t: Thread)
    requires Conserves(first, s) && s.handle < s.disk.next && Enabled(s, e) && Succeeds(e)
    requires Midway(s, s.At(t)) && Midway(s, s.At(e.t))
    requires t != e.t ==> !(Rotating(s.At(t)) && Rotating(s.At(e.t)))
    requires t == e.t && e.Check? && Rotating(Step(s, e).At(t)) ==> Settled(s)
    ensures Midway(Step(s, e), Step(s, e).At(t))
  {
  }

  lemma StepSized(first: Disk, s: System, e: Event)
    requires Conserves(first, s) && Sized(s) && Enabled(s, e) && Succeeds(e) && Exclusive(s) && Exclusive(Step(s, e))
    ensures Sized(Step(s, e))
  {
    var s' := Step(s, e);
    assert Midway(s, s.At(e.t));
    if !Rotating(s.At(e.t)) && !Quiet(s) {
      var u: Thread :| Rotating(s.At(u));
      assert s'.At(u) == s.At(u) && Rotating(s'.At(u));
    } else if !Rotating(s.At(e.t)) && !Rotating(s'.At(e.t)) {
      QuietStep(first, s, e);
    } else if !Rotating(s'.At(e.t)) {
      LastStep(first, s, e);
    }
    forall t: Thread ensures Midway(s', s'.At(t)) {
      assert Midway(s, s.At(t));
      StepMidway(first, s, e, t);
    }
  }

  lemma {:induction false} RunSized(ss: seq<System>, es: seq<Event>, k: nat)
    requires IsRun(ss, es) && Initial(ss[0]) && Sized(ss[0]) && k < |ss|
    requires forall j :: 0 <= j < |ss| ==> Exclusive(ss[j])
    requires forall e :: e in es ==> Succeeds(e)
    ensures Sized(ss[k])
  {
    if k > 0 {
      RunSized(ss, es, k - 1);
      RunConserves(ss, es, k - 1);
      assert Exclusive(ss[k - 1]) && Exclusive(ss[k]) && ss[k] == Step(ss[k - 1], es[k - 1]) && es[k - 1] in es;
      StepSized(ss[0].disk, ss[k - 1], es[k - 1]);
    }
  }

  /** With any number of threads: as long as rotations do not overlap and no check, rename or reopen fails,
      a log that starts below the limit is, whenever no thread is inside a write, the file under the path and
      below the limit. */
  lemma ExclusiveRotationBoundsTheFile(ss: seq<System>, es: seq<Event>)
    requires IsRun(ss, es) && Initial(ss[0]) && |ss[0].disk.data[ss[0].handle]| < LogWriter.MAX_LOG_SIZE
    requires forall j :: 0 <= j < |ss| ==> Exclusive(ss[j])
    requires forall e :: e in es ==> Succeeds(e)
    ensures var s := ss[|es|];
            s.lock == None && Quiet(s) ==>
              && s.path in s.disk.dir && s.disk.dir[s.path] == s.handle && s.handle in s.disk.data
              && |s.disk.data[s.handle]| < LogWriter.MAX_LOG_SIZE
  {
    RunSized(ss, es, |es|);
  }

  // ----- overlapping rotations

  /** A run written as a list: where it starts, and then each event with the state it leads to. */
  datatype Path = Start(s: System) | Then(prefix: Path, e: Event, s: System) {
    function First(): System {
      match this
      case Start(s) => s
      case Then(prefix, _, _) => prefix.First()
    }

    /** Every event is enabled where it happens, and with `newNames` no rename meets a taken name. */
    predicate Possible(newNames: bool) {
      match this
      case Start(_) => true
      case Then(prefix, e, s) =>
        prefix.Possible(newNames) && Advances(prefix.s, e, newNames) && s == Step(prefix.s, e)
    }
  }

  predicate Advances(s: System, e: Event, newNames: bool) {
    Enabled(s, e) && (newNames && e.Rename? ==> e.target !in s.disk.dir)
  }

  /** The run continued by one event. */
  function Extend(path: Path, e: Event, newNames: bool): (path': Path)
    requires path.Possible(newNames) && Advances(path.s, e, newNames)
    ensures path'.Possible(newNames) && path'.First() == path.First() && path'.s == Step(path.s, e)
  {
    Then(path, e, Step(path.s, e))
  }

  lemma {:induction false} PathIsRun(path: Path, newNames: bool) returns (ss: seq<System>, es: seq<Event>)
    requires path.Possible(newNames)
    ensures IsRun(ss, es) && ss[0] == path.First() && ss[|es|] == path.s && (newNames ==> FreshNames(ss, es))
  {
    match path
    case Start(s) => ss, es := [s], [];
    case Then(prefix, e, s) =>
      ss, es := PathIsRun(prefix, newNames);
      RunSnoc(ss, es, e);
      ss, es := ss + [s], es + [e];
  }

  lemma RunSnoc(ss: seq<System>, es: seq<Event>, e: Event)
    requires IsRun(ss, es) && Enabled(ss[|es|], e)
    ensures var ss', es' := ss + [Step(ss[|es|], e)], es + [e];
            && IsRun(ss', es')
            && (FreshNames(ss, es) && Advances(ss[|es|], e, true) ==> FreshNames(ss', es'))
  {
    var ss', es' := ss + [Step(ss[|es|], e)], es + [e];
    forall k | 0 <= k < |es'| ensures Enabled(ss'[k], es'[k]) && ss'[k + 1] == Step(ss'[k], es'[k]) {
      if k < |es| {
        assert ss'[k] == ss[k] && ss'[k + 1] == ss[k + 1] && es'[k] == es[k];
      }
    }
  }

  /** Thread `t` has written one byte and finished its size check. */
  function Wrote(s: System, t: Thread, b: Byte, verdict: Pc): System
    requires s.handle in s.disk.data
  {
    s.Goto(t, verdict).(disk := s.disk.Append(s.handle, [b]), log := s.log + [Entry(s.handle, [b])])
  }

  lemma WriteAndCheck(path: Path, t: Thread, b: Byte, newNames: bool) returns (path': Path)
    requires path.Possible(newNames)
    requires var s := path.s;
             && s.At(t) == Idle && s.lock == None && s.handle in s.disk.data
             && s.path in s.disk.dir && s.disk.dir[s.path] in s.disk.data
    ensures path'.Possible(newNames) && path'.First() == path.First()
    ensures var s := path.s;
            var large := LogWriter.NeedsRotation(s.disk.Append(s.handle, [b]), s.path, true);
            path'.s == Wrote(s, t, b, if large then Renaming else Idle)
  {
    assert [b][..1] == [b];
    var s := path.s;
    var s1 := Step(s, Write(t, [b], Some(1)));
    var s2 := Step(s1, Check(t, true));
    assert s1.disk == s.disk.Append(s.handle, [b]);
    assert s.pcs[t := Checking][t := s2.At(t)] == s.pcs[t := s2.At(t)];
    path' := Extend(Extend(path, Write(t, [b], Some(1)), newNames), Check(t, true), newNames);
  }

  /** Thread `t` has renamed the log away and opened a new one. */
  function Rotated(s: System, t: Thread, target: string): System
    requires s.path in s.disk.dir
  {
    var d := s.disk;
    s.Goto(t, Swapping(d.next)).(
      disk := Disk((d.dir - {s.path})[target := d.dir[s.path]][s.path := d.next], d.data[d.next := []], d.next + 1),
      dead := if target in d.dir then s.dead + {d.dir[target]} else s.dead)
  }

  lemma RenameAndOpen(path: Path, t: Thread, target: string, newNames: bool) returns (path': Path)
    requires path.Possible(newNames)
    requires path.s.At(t) == Renaming && path.s.path in path.s.disk.dir && target != path.s.path
    requires newNames ==> target !in path.s.disk.dir
    ensures path'.Possible(newNames) && path'.First() == path.First()
    ensures path'.s == Rotated(path.s, t, target)
  {
    var s := path.s;
    var s1 := Step(s, Rename(t, target, true));
    var s2 := Step(s1, Open(t, true));
    assert s.pcs[t := Opening][t := Swapping(s.disk.next)] == s.pcs[t := Swapping(s.disk.next)];
    path' := Extend(Extend(path, Rename(t, target, true), newNames), Open(t, true), newNames);
  }

  /** A log that has reached the limit, opened by a program that has not written yet. */
  function FullLog(big: Bytes): System {
    System("p", Disk(map["p" := 0], map[0 := big], 1), 0, None, map[], [], {})
  }

  /** Threads 0 and 1 each write a byte and find the file too large. */
  lemma BothPassTheCheck(big: Bytes, newNames: bool) returns (path: Path)
    requires |big| == LogWriter.MAX_LOG_SIZE
    ensures path.Possible(newNames) && path.First() == FullLog(big) && Initial(FullLog(big))
    ensures path.s == Wrote(Wrote(FullLog(big), 0, 1, Renaming), 1, 2, Renaming)
  {
    var s0 := FullLog(big);
    assert s0.disk.dir["p"] == 0;
    path := WriteAndCheck(Start(s0), 0, 1, newNames);
    path := WriteAndCheck(path, 1, 2, newNames);
  }

  lemma FirstRotates(big: Bytes) returns (path: Path)
    requires |big| == LogWriter.MAX_LOG_SIZE
    ensures path.Possible(true) && path.First() == FullLog(big) && Initial(FullLog(big))
    ensures path.s == System("p", Disk(map["a" := 0, "p" := 1], map[0 := big + [1] + [2], 1 := []], 2), 0, None,
                             map[0 := Swapping(1), 1 := Renaming], [Entry(0, [1]), Entry(0, [2])], {})
  {
    path := BothPassTheCheck(big, true);
    var s := path.s;
    path := RenameAndOpen(path, 0, "a", true);
    assert path.s.disk.dir == map["a" := 0, "p" := 1];
    assert path.s.disk.data == map[0 := big + [1] + [2], 1 := []];
    assert path.s.pcs == map[0 := Swapping(1), 1 := Renaming];
  }

  /** Both rename and reopen, and thread 1 installs its file. */
  lemma BothRotate(big: Bytes) returns (path: Path)
    requires |big| == LogWriter.MAX_LOG_SIZE
    ensures path.Possible(true) && path.First() == FullLog(big) && Initial(FullLog(big))
    ensures path.s.path == "p" && path.s.handle == 2 && path.s.lock == None
    ensures path.s.At(0) == Swapping(1) && path.s.At(2) == Idle
    ensures path.s.disk == Disk(map["a" := 0, "b" := 1, "p" := 2], map[0 := big + [1] + [2], 1 := [], 2 := []], 3)
    ensures path.s.log == [Entry(0, [1]), Entry(0, [2])]
  {
    path := FirstRotates(big);
    path := RenameAndOpen(path, 1, "b", true);
    path := Extend(path, Swap(1), true);
    assert path.s.disk.dir == map["a" := 0, "b" := 1, "p" := 2];
  }

  /** Two threads pass the size check on the same file; both rotate, the second one renames the file
      the first one has just created, and the first one then installs the older handle.  Every name
      is new, so nothing is lost, but a later write lands in a rotated file behind a newer one,
      and the size check no longer looks at the file that grows. */
  lemma OverlappingRotationsBreakOrder(big: Bytes) returns (path: Path)
    requires |big| == LogWriter.MAX_LOG_SIZE
    ensures path.Possible(true) && path.First() == FullLog(big) && Initial(FullLog(big))
    ensures ReadBack(FullLog(big).disk, path.s.disk, path.s.disk.next) == [1, 2, 4, 3]
    ensures Flatten(path.s.log) == [1, 2, 3, 4]
    ensures path.s.path in path.s.disk.dir && path.s.handle != path.s.disk.dir[path.s.path]
  {
    path := BothRotate(big);
    path := WriteAndCheck(path, 2, 3, true);
    path := Extend(path, Swap(0), true);
    path := WriteAndCheck(path, 2, 4, true);
    assert path.s.log == [Entry(0, [1]), Entry(0, [2]), Entry(2, [3]), Entry(1, [4])];
    SwappedLog();
    AllFound(path, FullLog(big));
    ReadBackIsByFile(FullLog(big).disk, path.s, 3);
  }

  lemma AllFound(path: Path, first: System)
    requires path.Possible(true) && path.First() == first && Initial(first)
    ensures Conserves(first.disk, path.s) && Found(path.s.disk, path.s.log) == path.s.log
  {
    var ss, es := PathIsRun(path, true);
    RunConserves(ss, es, |es|);
    FreshNamesLoseNothing(ss, es);
    FoundAll(path.s.disk, path.s.log);
  }

  lemma SwappedLog()
    ensures var log := [Entry(0, [1]), Entry(0, [2]), Entry(2, [3]), Entry(1, [4])];
            Flatten(ByFile(log, 3)) == [1, 2, 4, 3] && Flatten(log) == [1, 2, 3, 4]
  {
    var e1, e2, e3, e4 := Entry(0, [1]), Entry(0, [2]), Entry(2, [3]), Entry(1, [4]);
    FlattenFour(e1, e2, e3, e4);
    FlattenFour(e1, e2, e4, e3);
    OnlyFour(e1, e2, e3, e4, 0);
    OnlyFour(e1, e2, e3, e4, 1);
    OnlyFour(e1, e2, e3, e4, 2);
    assert ByFile([e1, e2, e3, e4], 1) == [e1, e2];
    assert ByFile([e1, e2, e3, e4], 2) == [e1, e2, e4];
    assert ByFile([e1, e2, e3, e4], 3) == [e1, e2, e4, e3];
  }

  lemma FlattenFour(a: Entry, b: Entry, c: Entry, d: Entry)
    ensures Flatten([a, b, c, d]) == a.bytes + b.bytes + c.bytes + d.bytes
  {
    var log := [a, b, c, d];
    assert log[..3] == [a, b, c] && [a, b, c][..2] == [a, b] && [a, b][..1] == [a] && [a][..0] == [];
    assert Flatten([a]) == a.bytes;
    assert Flatten([a, b]) == a.bytes + b.bytes;
    assert Flatten([a, b, c]) == a.bytes + b.bytes + c.bytes;
  }

  lemma OnlyFour(a: Entry, b: Entry, c: Entry, d: Entry, i: Inode)
    ensures Only([a, b, c, d], i) ==
            (if a.inode == i then [a] else []) + (if b.inode == i then [b] else [])
            + (if c.inode == i then [c] else []) + (if d.inode == i then [d] else [])
  {
    assert [a, b, c, d] == [] + [a] + [b] + [c] + [d];
    OnlySnoc([] + [a] + [b] + [c], d, i);
    OnlySnoc([] + [a] + [b], c, i);
    OnlySnoc([] + [a], b, i);
    OnlySnoc([], a, i);
    assert Only([], i) == [];
  }

  /** With a name used twice within a second, the second rename overwrites the file that is still
      behind the shared handle: not only its old bytes but also later writes are unreachable. */
  lemma ReusedNameLosesLaterWrites(big: Bytes) returns (path: Path)
    requires |big| == LogWriter.MAX_LOG_SIZE
    ensures path.Possible(false) && path.First() == FullLog(big) && Initial(FullLog(big))
    ensures path.Then? && path.e.Write? && |path.s.log| == |path.prefix.s.log| + 1
    ensures path.s.disk.Valid() && !CanBeReadBack(FullLog(big).disk, path.s, |path.prefix.s.log|)
  {
    path := BothPassTheCheck(big, false);
    path := RenameAndOpen(path, 0, "a", false);
    path := RenameAndOpen(path, 1, "a", false);
    var s := path.s;
    path := Extend(path, Write(2, [3], Some(1)), false);
    assert s.handle in s.dead;
    PathConserves(path, false);
    EntryAtOffset(FullLog(big).disk, path.s, |s.log|);
  }

  lemma PathConserves(path: Path, newNames: bool)
    requires path.Possible(newNames) && Initial(path.First())
    ensures Conserves(path.First().disk, path.s)
  {
    var ss, es := PathIsRun(path, newNames);
    RunConserves(ss, es, |es|);
  }

  // ----- one thread

  /** The machine and the sequential writer agree on disk and handle. */
  predicate Matches(s: System, w: LogWriter.Writer) {
    s.path == w.Path() && s.disk == w.disk && s.handle == w.handle
  }

  /** One sequential call of `write` is a run of the machine by one thread, so the sequential
      writer does nothing the interleaving results do not cover. */
  lemma WriteIsARun(w: LogWriter.Writer, c: LogWriter.Call, s: System, t: Thread) returns (path: Path)
    requires w.Valid() && LogNames.ValidFileName(w.name) && LogWriter.ValidCall(c)
    requires Matches(s, w) && s.lock == None && s.At(t) == Idle
    ensures path.Possible(false) && path.First() == s
    ensures Matches(path.s, LogWriter.Write(w, c)) && path.s.lock == None && path.s.At(t) == Idle
  {
    path := Extend(Start(s), Write(t, c.buffer, c.os.accepted), false);
    if c.os.accepted.Some? {
      var w' := w.(disk := w.disk.Append(w.handle, LogWriter.Accepted(c)));
      assert Matches(path.s, w');
      path := Extend(path, Check(t, c.os.metadataOk), false);
      if path.s.At(t) == Renaming {
        path := RotateIsARun(w', c.os, path, t);
      }
    }
  }

  lemma RotateIsARun(w: LogWriter.Writer, os: LogWriter.Outcome, path: Path, t: Thread) returns (path': Path)
    requires LogNames.ValidFileName(w.name) && path.Possible(false)
    requires Matches(path.s, w) && path.s.lock == None && path.s.At(t) == Renaming
    ensures path'.Possible(false) && path'.First() == path.First()
    ensures Matches(path'.s, LogWriter.Rotate(w, os)) && path'.s.lock == None && path'.s.At(t) == Idle
  {
    LogNames.RotatedNameIsNotThePath(w.folder, w.name, os.stamp);
    var rename := Rename(t, LogNames.RotatedName(w.folder, w.name, os.stamp), os.renameOk);
    path' := Extend(path, rename, false);
    if path'.s.At(t) == Opening {
      path' := Extend(path', Open(t, os.openOk), false);
      if os.openOk {
        path' := Extend(path', Swap(t), false);
      }
    }
  }
}
