/** Any number of threads writing through clones of one log writer.  A step is one system call or
    one lock operation: appending and the size check happen under the lock, renaming and
    reopening do not, and installing the new handle takes the lock again. */
module LogInterleavings {
  import opened Wrappers
  import opened Disks
  import LogWriter

  type Thread = nat

  /** Where a thread stands inside `write`. */
  datatype Pc = Idle | Checking | Renaming | Opening | Swapping(inode: Inode)

  /** One accepted write: the inode behind the handle at that moment, and the bytes it took. */
  datatype Entry = Entry(inode: Inode, bytes: Bytes)

  /** `log` and `dead` record what happened; no step reads them. */
  datatype System = System(
    path: string,
    disk: Disk,
    handle: Inode,
    lock: Option<Thread>,
    pcs: map<Thread, Pc>,
    log: seq<Entry>,     // accepted writes, in the order the lock admitted them
    dead: set<Inode>)    // inodes whose only name a rename overwrote
  {
    function At(t: Thread): Pc { if t in pcs then pcs[t] else Idle }

    function Goto(t: Thread, pc: Pc): System { this.(pcs := pcs[t := pc]) }
  }

  datatype Event =
    | Write(t: Thread, buffer: Bytes, accepted: Option<nat>)
    | Check(t: Thread, metadataOk: bool)
    | Rename(t: Thread, target: string, ok: bool)
    | Open(t: Thread, ok: bool)
    | Swap(t: Thread)

  predicate Enabled(s: System, e: Event) {
    match e
    case Write(t, buffer, accepted) =>
      && s.At(t) == Idle && s.lock == None && s.handle in s.disk.data
      && (accepted.Some? ==> accepted.value <= |buffer|)
    case Check(t, _) =>
      s.At(t) == Checking && (s.path in s.disk.dir ==> s.disk.dir[s.path] in s.disk.data)
    case Rename(t, target, _) => s.At(t) == Renaming && target != s.path
    case Open(t, _) => s.At(t) == Opening
    case Swap(t) => s.At(t).Swapping? && s.lock == None
  }

  /** A step moves only the thread that takes it. */
  function Step(s: System, e: Event): (s': System)
    requires Enabled(s, e)
    ensures forall u: Thread :: u != e.t ==> s'.At(u) == s.At(u)
  {
    match e
    case Write(t, buffer, accepted) =>
      (match accepted
       case None => s
       case Some(n) =>
         s.Goto(t, Checking).(
           disk := s.disk.Append(s.handle, buffer[..n]),
           lock := Some(t),
           log := s.log + [Entry(s.handle, buffer[..n])]))
    case Check(t, metadataOk) =>
      s.Goto(t, if LogWriter.NeedsRotation(s.disk, s.path, metadataOk) then Renaming else Idle).(lock := None)
    case Rename(t, target, ok) =>
      (match if ok then s.disk.Rename(s.path, target) else None
       case None => s.Goto(t, Idle)
       case Some(disk) =>
         s.Goto(t, Opening).(
           disk := disk,
           dead := if target in s.disk.dir then s.dead + {s.disk.dir[target]} else s.dead))
    case Open(t, ok) =>
      if ok then
        var (disk, inode) := s.disk.Open(s.path);
        s.Goto(t, Swapping(inode)).(disk := disk)
      else s.Goto(t, Idle)
    case Swap(t) => s.Goto(t, Idle).(handle := s.At(t).inode)
  }

  /** The states before and after each event of a run. */
  ghost predicate IsRun(ss: seq<System>, es: seq<Event>) {
    && |ss| == |es| + 1
    && forall k :: 0 <= k < |es| ==> Enabled(ss[k], es[k]) && ss[k + 1] == Step(ss[k], es[k])
  }

  /** No thread is inside `write` and the path names the open file. */
  ghost predicate Initial(s: System) {
    && s.disk.Valid() && s.path in s.disk.dir && s.handle == s.disk.dir[s.path]
    && s.lock == None && s.pcs == map[] && s.log == [] && s.dead == {}
    && (forall i :: i in s.disk.data ==> s.disk.Linked(i))
  }

  // ----- what every interleaving keeps

  /** The bytes of the accepted writes that went to inode `i`, in order. */
  ghost function Project(log: seq<Entry>, i: Inode): Bytes {
    if log == [] then []
    else
      var last := log[|log| - 1];
      Project(log[..|log| - 1], i) + (if last.inode == i then last.bytes else [])
  }

  ghost function Origin(first: Disk, i: Inode): Bytes {
    if i in first.data then first.data[i] else []
  }

  /** Each inode holds what it started with and then exactly the writes directed at it; it can be
      found by name unless its name was overwritten; and one thread at most is past the append. */
  ghost predicate Conserves(first: Disk, s: System) {
    && s.disk.Valid() && s.handle in s.disk.data
    && (forall t: Thread :: s.At(t).Swapping? ==> s.At(t).inode in s.disk.data)
    && (forall i :: i in s.disk.data ==> s.disk.data[i] == Origin(first, i) + Project(s.log, i))
    && (forall i :: i in first.data ==> i in s.disk.data)
    && (forall k :: 0 <= k < |s.log| ==> s.log[k].inode in s.disk.data)
    && s.dead <= s.disk.data.Keys
    && (forall i :: i in s.disk.data ==> (s.disk.Linked(i) <==> i !in s.dead))
    && (forall t: Thread :: s.At(t) == Checking <==> s.lock == Some(t))
  }

  lemma {:induction false} ProjectOutside(log: seq<Entry>, i: Inode)
    requires forall k :: 0 <= k < |log| ==> log[k].inode != i
    ensures Project(log, i) == []
  {
    if log != [] {
      ProjectOutside(log[..|log| - 1], i);
    }
  }

  lemma ProjectSnoc(log: seq<Entry>, e: Entry, i: Inode)
    ensures Project(log + [e], i) == Project(log, i) + (if e.inode == i then e.bytes else [])
  {
    assert (log + [e])[..|log|] == log;
  }

  lemma StepWriteConserves(first: Disk, s: System, e: Event)
    requires Conserves(first, s) && Enabled(s, e) && e.Write?
    ensures Conserves(first, Step(s, e))
  {
    if e.accepted.Some? {
      var s' := Step(s, e);
      AppendValid(s.disk, s.handle, e.buffer[..e.accepted.value]);
      var entry := Entry(s.handle, e.buffer[..e.accepted.value]);
      assert s'.disk.dir == s.disk.dir;
      forall i | i in s'.disk.data
        ensures s'.disk.data[i] == Origin(first, i) + Project(s'.log, i)
      {
        ProjectSnoc(s.log, entry, i);
        assert Origin(first, i) + Project(s.log, i) + entry.bytes == Origin(first, i) + (Project(s.log, i) + entry.bytes);
      }
      forall i | i in s'.disk.data
        ensures s'.disk.Linked(i) <==> i !in s'.dead
      {
        assert s'.disk.Linked(i) <==> s.disk.Linked(i);
      }
    }
  }

  lemma RenameLinks(d: Disk, source: string, target: string, d': Disk, i: Inode)
    requires d.Valid() && source != target && d.Rename(source, target) == Some(d')
    ensures d'.Valid() && d'.data == d.data
    ensures d'.Linked(i) <==> d.Linked(i) && !(target in d.dir && d.dir[target] == i)
  {
    RenameValid(d, source, target);
    if target in d.dir {
      assert d.SoleName(target);
    }
    if d.Linked(i) {
      var name :| name in d.dir && d.dir[name] == i;
      var moved := if name == source then target else name;
      assert moved == target || moved in d'.dir;
      if !(target in d.dir && d.dir[target] == i) {
        assert moved in d'.dir && d'.dir[moved] == i;
      }
    }
  }

  lemma StepRenameConserves(first: Disk, s: System, e: Event)
    requires Conserves(first, s) && Enabled(s, e) && e.Rename?
    ensures Conserves(first, Step(s, e))
  {
    var s' := Step(s, e);
    if e.ok && s.path in s.disk.dir {
      forall i | i in s'.disk.data
        ensures s'.disk.Linked(i) <==> i !in s'.dead
      {
        RenameLinks(s.disk, s.path, e.target, s'.disk, i);
      }
      RenameLinks(s.disk, s.path, e.target, s'.disk, s.handle);
    }
  }

  lemma OpenLinks(d: Disk, name: string, i: Inode)
    requires d.Valid() && name !in d.dir
    ensures var (d', inode) := d.Open(name);
            d'.Valid() && inode == d.next && (d'.Linked(i) <==> d.Linked(i) || i == inode)
  {
    var (d', inode) := d.Open(name);
    OpenValid(d, name);
    assert d'.dir[name] == inode;
    if d.Linked(i) {
      var n :| n in d.dir && d.dir[n] == i;
      assert d'.dir[n] == i;
    }
    if d'.Linked(i) && i != inode {
      var n :| n in d'.dir && d'.dir[n] == i;
      assert d.dir[n] == i;
    }
  }

  lemma StepOpenConserves(first: Disk, s: System, e: Event)
    requires Conserves(first, s) && Enabled(s, e) && e.Open?
    ensures first.Valid() && first.next <= s.disk.next ==> Conserves(first, Step(s, e))
  {
    if first.Valid() && first.next <= s.disk.next && e.ok && s.path !in s.disk.dir {
      var s' := Step(s, e);
      ProjectOutside(s.log, s.disk.next);
      forall i | i in s'.disk.data
        ensures s'.disk.Linked(i) <==> i !in s'.dead
      {
        OpenLinks(s.disk, s.path, i);
      }
      OpenLinks(s.disk, s.path, s.disk.next);
    }
  }

  lemma StepConserves(first: Disk, s: System, e: Event)
    requires first.Valid() && first.next <= s.disk.next
    requires Conserves(first, s) && Enabled(s, e)
    ensures Conserves(first, Step(s, e)) && s.disk.next <= Step(s, e).disk.next
  {
    match e
    case Write(_, _, _) => StepWriteConserves(first, s, e);
    case Rename(_, _, _) => StepRenameConserves(first, s, e);
    case Open(_, _) => StepOpenConserves(first, s, e);
    case Check(_, _) =>
    case Swap(_) =>
  }

  // ----- all runs

  lemma {:induction false} RunConserves(ss: seq<System>, es: seq<Event>, k: nat)
    requires IsRun(ss, es) && Initial(ss[0]) && k < |ss|
    ensures Conserves(ss[0].disk, ss[k]) && ss[0].disk.next <= ss[k].disk.next
  {
    if k == 0 {
      assert forall i :: Project([], i) == [];
    } else {
      RunConserves(ss, es, k - 1);
      StepConserves(ss[0].disk, ss[k - 1], es[k - 1]);
    }
  }

  /** A successful rename at step `k` of the run replaced the file behind inode `i`. */
  ghost predicate OverwrittenAt(ss: seq<System>, es: seq<Event>, k: nat, i: Inode)
    requires IsRun(ss, es) && k < |es|
  {
    && es[k].Rename? && es[k].ok && ss[k].path in ss[k].disk.dir
    && es[k].target in ss[k].disk.dir && ss[k].disk.dir[es[k].target] == i
  }

  ghost predicate Overwritten(ss: seq<System>, es: seq<Event>, i: Inode)
    requires IsRun(ss, es)
  {
    exists k: nat :: k < |es| && OverwrittenAt(ss, es, k, i)
  }

  lemma {:induction false} DeadIsOverwritten(ss: seq<System>, es: seq<Event>, n: nat, i: Inode)
    requires IsRun(ss, es) && Initial(ss[0]) && n <= |es|
    ensures i in ss[n].dead <==> exists k: nat :: k < n && OverwrittenAt(ss, es, k, i)
  {
    if n > 0 {
      DeadIsOverwritten(ss, es, n - 1, i);
      assert i in ss[n].dead <==> i in ss[n - 1].dead || OverwrittenAt(ss, es, n - 1, i);
    }
  }

  /** Where the bytes of log entry `k` lie inside their inode. */
  ghost function Offset(first: Disk, log: seq<Entry>, k: nat): nat
    requires k < |log|
  {
    |Origin(first, log[k].inode)| + |Project(log[..k], log[k].inode)|
  }

  /** Entry `k` can be read back, at its offset, from the file `name`. */
  ghost predicate Readable(first: Disk, s: System, k: nat, name: string)
    requires s.disk.Valid() && k < |s.log|
  {
    var e := s.log[k];
    var from := Offset(first, s.log, k);
    && name in s.disk.dir && s.disk.dir[name] == e.inode
    && from + |e.bytes| <= |s.disk.data[e.inode]|
    && s.disk.data[e.inode][from..from + |e.bytes|] == e.bytes
  }

  ghost predicate CanBeReadBack(first: Disk, s: System, k: nat)
    requires s.disk.Valid() && k < |s.log|
  {
    exists name :: Readable(first, s, k, name)
  }

  lemma {:induction false} ProjectHolds(log: seq<Entry>, k: nat)
    requires k < |log|
    ensures var e := log[k];
            var p := Project(log, e.inode);
            var from := |Project(log[..k], e.inode)|;
            from + |e.bytes| <= |p| && p[from..from + |e.bytes|] == e.bytes
  {
    var n := |log| - 1;
    if k == n {
    } else {
      ProjectHolds(log[..n], k);
      assert log[..n][..k] == log[..k];
    }
  }

  lemma EntryAtOffset(first: Disk, s: System, k: nat)
    requires Conserves(first, s) && k < |s.log|
    ensures CanBeReadBack(first, s, k) <==> s.log[k].inode !in s.dead
  {
    var e, from := s.log[k], Offset(first, s.log, k);
    var origin, p := Origin(first, e.inode), Project(s.log, e.inode);
    ProjectHolds(s.log, k);
    assert s.disk.data[e.inode] == origin + p;
    assert (origin + p)[from..from + |e.bytes|] == p[from - |origin|..from - |origin| + |e.bytes|];
    if s.disk.Linked(e.inode) {
      var name :| name in s.disk.dir && s.disk.dir[name] == e.inode;
      assert Readable(first, s, k, name);
    }
  }

  /** Over every interleaving, an accepted write can still be read back from some file of the
      directory if and only if no rename has overwritten the name of the file that took it. */
  lemma LostExactlyWhenOverwritten(ss: seq<System>, es: seq<Event>, k: nat)
    requires IsRun(ss, es) && Initial(ss[0])
    ensures ss[|es|].disk.Valid()
    ensures k < |ss[|es|].log| ==>
              (CanBeReadBack(ss[0].disk, ss[|es|], k) <==> !Overwritten(ss, es, ss[|es|].log[k].inode))
  {
    RunConserves(ss, es, |es|);
    if k < |ss[|es|].log| {
      EntryAtOffset(ss[0].disk, ss[|es|], k);
      DeadIsOverwritten(ss, es, |es|, ss[|es|].log[k].inode);
    }
  }

  /** No rename of the run meets a name that is taken. */
  ghost predicate FreshNames(ss: seq<System>, es: seq<Event>)
    requires IsRun(ss, es)
  {
    forall k :: 0 <= k < |es| && es[k].Rename? && es[k].ok ==> es[k].target !in ss[k].disk.dir
  }

  /** With fresh names nothing is ever lost: each inode is a file of the directory and holds its
      original bytes followed by exactly the writes it took, in the order the lock admitted them. */
  lemma FreshNamesLoseNothing(ss: seq<System>, es: seq<Event>)
    requires IsRun(ss, es) && Initial(ss[0]) && FreshNames(ss, es)
    ensures var first, s := ss[0].disk, ss[|es|];
            && s.disk.Valid()
            && (forall i :: i in s.disk.data ==>
                  s.disk.Linked(i) && s.disk.data[i] == Origin(first, i) + Project(s.log, i))
            && (forall k :: 0 <= k < |s.log| ==> CanBeReadBack(first, s, k))
  {
    RunConserves(ss, es, |es|);
    var first, s := ss[0].disk, ss[|es|];
    forall i | i in s.disk.data ensures i !in s.dead {
      DeadIsOverwritten(ss, es, |es|, i);
    }
    forall k | 0 <= k < |s.log| ensures CanBeReadBack(first, s, k) {
      LostExactlyWhenOverwritten(ss, es, k);
    }
  }
}
