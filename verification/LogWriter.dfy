/** `RotatingFileWriter` driven by one thread: every write appends, looks at the size of the
    file under `file_path`, and may rename that file away and reopen a new one. */
module LogWriter {
  import opened Wrappers
  import opened Disks
  import LogNames

  // 10 MiB; the comment beside the constant in the source says 50 MB.
  const MAX_LOG_SIZE: nat := 10 * 1024 * 1024

  /** What the operating system decides during one call of `write`. */
  datatype Outcome = Outcome(
    accepted: Option<nat>,  // bytes taken by the file, or an I/O error
    metadataOk: bool,
    stamp: string,          // the clock, formatted
    renameOk: bool,
    openOk: bool)

  datatype Call = Call(buffer: Bytes, os: Outcome)

  /** A file takes at most the bytes it is offered. */
  predicate ValidCall(c: Call) {
    c.os.accepted.Some? ==> c.os.accepted.value <= |c.buffer|
  }

  function Accepted(c: Call): Bytes
    requires ValidCall(c)
  {
    match c.os.accepted
    case None => []
    case Some(n) => c.buffer[..n]
  }

  /** The writer, its disk, and the names of the files its rotations have left, in rotation order. */
  datatype Writer = Writer(folder: string, name: string, disk: Disk, handle: Inode, rotated: seq<string>) {
    function Path(): string { LogNames.FilePath(folder, name) }

    /** The path names the open file. */
    ghost predicate Live() {
      Path() in disk.dir && disk.dir[Path()] == handle
    }

    /** The last rotation renamed the file away but could not reopen the path. */
    ghost predicate Stuck() {
      Path() !in disk.dir && rotated != [] && rotated[|rotated| - 1] in disk.dir
      && disk.dir[rotated[|rotated| - 1]] == handle
    }

    ghost predicate Valid() {
      && disk.Valid() && handle in disk.data
      && (forall r :: r in rotated ==> r in disk.dir && r != Path())
      && Distinct(rotated)
      && (Live() || Stuck())
    }

    /** A file is rotated away only once it has reached the limit. */
    ghost predicate Filled()
      requires Valid()
    {
      forall r :: r in rotated ==> |disk.data[disk.dir[r]]| >= MAX_LOG_SIZE
    }

    /** Everything written: the rotated files in rotation order, then the active file. */
    ghost function Collected(): Bytes
      requires Valid()
    {
      Contents(disk, rotated) + (if Path() in disk.dir then disk.data[disk.dir[Path()]] else [])
    }
  }

  ghost function Contents(disk: Disk, names: seq<string>): Bytes
    requires disk.Valid() && forall r :: r in names ==> r in disk.dir
  {
    if names == [] then []
    else Contents(disk, names[..|names| - 1]) + disk.data[disk.dir[names[|names| - 1]]]
  }

  predicate NeedsRotation(disk: Disk, path: string, metadataOk: bool)
    requires path in disk.dir ==> disk.dir[path] in disk.data
  {
    metadataOk && path in disk.dir && |disk.data[disk.dir[path]]| >= MAX_LOG_SIZE
  }

  function Target(w: Writer, os: Outcome): string {
    LogNames.RotatedName(w.folder, w.name, os.stamp)
  }

  /** Where `name` stands, or `|names|`. */
  function Place(names: seq<string>, name: string): (k: nat)
    ensures k <= |names| && (k < |names| ==> names[k] == name)
  {
    if names == [] || names[0] == name then 0 else 1 + Place(names[1..], name)
  }

  /** A file that is replaced leaves its place in the order. */
  function Dropped(names: seq<string>, name: string): seq<string> {
    var k := Place(names, name);
    if k == |names| then names else names[..k] + names[k + 1..]
  }

  /** `rotate_log_file`. */
  function Rotate(w: Writer, os: Outcome): Writer {
    var target := Target(w, os);
    match (if os.renameOk then w.disk.Rename(w.Path(), target) else None)
    case None => w
    case Some(renamed) =>
      var w' := w.(disk := renamed, rotated := Dropped(w.rotated, target) + [target]);
      if os.openOk then
        var (reopened, inode) := renamed.Open(w.Path());
        w'.(disk := reopened, handle := inode)
      else w'
  }

  /** `write`. */
  function Write(w: Writer, c: Call): Writer
    requires w.disk.Valid() && w.handle in w.disk.data && ValidCall(c)
  {
    match c.os.accepted
    case None => w
    case Some(_) =>
      var w' := w.(disk := w.disk.Append(w.handle, Accepted(c)));
      if NeedsRotation(w'.disk, w.Path(), c.os.metadataOk) then Rotate(w', c.os) else w'
  }

  /** The call gets as far as a successful rename. */
  predicate Renames(w: Writer, c: Call)
    requires w.disk.Valid() && w.handle in w.disk.data && ValidCall(c)
  {
    && c.os.accepted.Some? && c.os.renameOk
    && NeedsRotation(w.disk.Append(w.handle, Accepted(c)), w.Path(), c.os.metadataOk)
  }

  /** The call renames the log onto a file that an earlier rotation has left. */
  predicate Collides(w: Writer, c: Call)
    requires w.disk.Valid() && w.handle in w.disk.data && ValidCall(c)
  {
    Renames(w, c) && Target(w, c.os) in w.rotated
  }

  /** What the call makes unreachable. */
  ghost function LostBy(w: Writer, c: Call): Bytes
    requires w.Valid() && ValidCall(c)
  {
    if Collides(w, c) then w.disk.data[w.disk.dir[Target(w, c.os)]] else []
  }

  // ----- one call

  lemma {:induction false} ContentsFrame(d1: Disk, d2: Disk, names: seq<string>)
    requires d1.Valid() && d2.Valid()
    requires forall r :: r in names ==> r in d1.dir && r in d2.dir && d1.data[d1.dir[r]] == d2.data[d2.dir[r]]
    ensures Contents(d1, names) == Contents(d2, names)
  {
    if names != [] {
      ContentsFrame(d1, d2, names[..|names| - 1]);
    }
  }

  /** Appending through the handle extends the collected bytes, whether the handle is the
      active file or, after a failed reopen, the newest rotated one. */
  lemma AppendCollects(w: Writer, w': Writer, bytes: Bytes)
    requires w.Valid() && w' == w.(disk := w.disk.Append(w.handle, bytes))
    ensures w'.Valid() && w'.Collected() == w.Collected() + bytes
  {
    AppendValid(w.disk, w.handle, bytes);
    if w.Live() {
      AppendLive(w, w', bytes);
    } else {
      AppendStuck(w, w', bytes);
    }
  }

  lemma AppendLive(w: Writer, w': Writer, bytes: Bytes)
    requires w.Valid() && w.Live() && w'.disk.Valid() && w' == w.(disk := w.disk.Append(w.handle, bytes))
    ensures w'.Valid() && w'.Collected() == w.Collected() + bytes
  {
    assert w'.Live();
    assert w.disk.SoleName(w.Path());
    ContentsFrame(w.disk, w'.disk, w.rotated);
    var was := w.disk.data[w.handle];
    assert Contents(w.disk, w.rotated) + (was + bytes) == Contents(w.disk, w.rotated) + was + bytes;
  }

  lemma AppendStuck(w: Writer, w': Writer, bytes: Bytes)
    requires w.Valid() && w.Stuck() && w'.disk.Valid() && w' == w.(disk := w.disk.Append(w.handle, bytes))
    ensures w'.Valid() && w'.Collected() == w.Collected() + bytes
  {
    assert w'.Stuck();
    var init, last := w.rotated[..|w.rotated| - 1], w.rotated[|w.rotated| - 1];
    assert w.disk.SoleName(last);
    forall r | r in init ensures r != last {
      var k :| 0 <= k < |init| && init[k] == r;
      assert DifferAt(w.rotated, k, |w.rotated| - 1);
    }
    ContentsFrame(w.disk, w'.disk, init);
    var was := w.disk.data[w.handle];
    assert Contents(w.disk, init) + (was + bytes) == Contents(w.disk, init) + was + bytes;
    assert w.Collected() == Contents(w.disk, w.rotated) == Contents(w.disk, init) + was;
  }

  /** A rotation to a name no earlier rotation has left keeps the collected bytes. */
  lemma RotateCollects(w: Writer, os: Outcome)
    requires w.Valid() && w.Live() && LogNames.ValidFileName(w.name)
    ensures Rotate(w, os).Valid()
    ensures Target(w, os) !in w.rotated ==> Rotate(w, os).Collected() == w.Collected()
  {
    var target := Target(w, os);
    LogNames.RotatedNameIsNotThePath(w.folder, w.name, os.stamp);
    if os.renameOk {
      var moved := Renamed(w, target);
      RenameCollects(w, target);
      DroppedAt(w.rotated, target);
      if os.openOk {
        ReopenCollects(moved);
      }
    }
  }

  /** A rotation onto the `k`-th file left so far takes exactly the bytes of that file away. */
  lemma RotateLosesThatFile(w: Writer, os: Outcome, k: nat)
    requires w.Valid() && w.Live() && LogNames.ValidFileName(w.name) && os.renameOk
    requires k < |w.rotated| && w.rotated[k] == Target(w, os)
    ensures Rotate(w, os).Valid()
    ensures Rotate(w, os).Collected() ==
            Contents(w.disk, w.rotated[..k]) + Contents(w.disk, w.rotated[k + 1..]) + w.disk.data[w.handle]
    ensures w.Collected() ==
            Contents(w.disk, w.rotated[..k]) + w.disk.data[w.disk.dir[Target(w, os)]]
            + Contents(w.disk, w.rotated[k + 1..]) + w.disk.data[w.handle]
  {
    var target := Target(w, os);
    LogNames.RotatedNameIsNotThePath(w.folder, w.name, os.stamp);
    RenameCollects(w, target);
    if os.openOk {
      ReopenCollects(Renamed(w, target));
    }
    DroppedPlace(w.rotated, k);
    ContentsAround(w.disk, w.rotated, k);
  }

  lemma ContentsAround(disk: Disk, names: seq<string>, k: nat)
    requires disk.Valid() && (forall r :: r in names ==> r in disk.dir) && k < |names|
    ensures Contents(disk, names[..k] + names[k + 1..]) == Contents(disk, names[..k]) + Contents(disk, names[k + 1..])
    ensures Contents(disk, names) ==
            Contents(disk, names[..k]) + disk.data[disk.dir[names[k]]] + Contents(disk, names[k + 1..])
  {
    ContentsConcat(disk, names[..k], names[k + 1..]);
    assert names == names[..k + 1] + names[k + 1..];
    ContentsConcat(disk, names[..k + 1], names[k + 1..]);
    ContentsOneMore(disk, names, k);
  }

  lemma ContentsOneMore(disk: Disk, names: seq<string>, k: nat)
    requires disk.Valid() && (forall r :: r in names ==> r in disk.dir) && k < |names|
    ensures Contents(disk, names[..k + 1]) == Contents(disk, names[..k]) + disk.data[disk.dir[names[k]]]
  {
    assert names[..k + 1][..k] == names[..k];
  }

  ghost predicate Distinct(names: seq<string>) {
    forall i, j {:trigger DifferAt(names, i, j)} :: 0 <= i < j < |names| ==> DifferAt(names, i, j)
  }

  predicate DifferAt(names: seq<string>, i: nat, j: nat)
    requires i < |names| && j < |names|
  {
    names[i] != names[j]
  }

  lemma {:induction false} PlaceOf(names: seq<string>, name: string)
    ensures Place(names, name) == |names| <==> name !in names
  {
    if names != [] && names[0] != name {
      PlaceOf(names[1..], name);
      assert names == [names[0]] + names[1..];
    }
  }

  lemma DroppedAt(names: seq<string>, name: string)
    requires Distinct(names)
    ensures name !in names ==> Dropped(names, name) == names
    ensures name !in Dropped(names, name) && Distinct(Dropped(names, name))
    ensures forall n :: n in Dropped(names, name) <==> n in names && n != name
  {
    var k := Place(names, name);
    PlaceOf(names, name);
    if k < |names| {
      DroppedMembers(names, k);
    }
  }

  lemma DroppedMembers(names: seq<string>, k: nat)
    requires Distinct(names) && k < |names|
    ensures var r := names[..k] + names[k + 1..];
            Distinct(r) && forall n :: n in r <==> n in names && n != names[k]
  {
    var r := names[..k] + names[k + 1..];
    forall i, j | 0 <= i < j < |r| ensures DifferAt(r, i, j) {
      assert DifferAt(names, if i < k then i else i + 1, if j < k then j else j + 1);
    }
    forall n ensures n in r <==> n in names && n != names[k] {
      if n in r {
        var i :| 0 <= i < |r| && r[i] == n;
        assert if i < k then DifferAt(names, i, k) else DifferAt(names, k, i + 1);
      }
      if n in names && n != names[k] {
        var i :| 0 <= i < |names| && names[i] == n;
        assert r[if i < k then i else i - 1] == n;
      }
    }
  }

  lemma DroppedPlace(names: seq<string>, k: nat)
    requires Distinct(names) && k < |names|
    ensures Dropped(names, names[k]) == names[..k] + names[k + 1..]
  {
    forall j: nat | j < k ensures names[j] != names[k] {
      assert DifferAt(names, j, k);
    }
    FirstPlace(names, k);
  }

  lemma {:induction false} FirstPlace(names: seq<string>, k: nat)
    requires k < |names| && forall j: nat :: j < k ==> names[j] != names[k]
    ensures Place(names, names[k]) == k
  {
    if k > 0 {
      FirstPlace(names[1..], k - 1);
    }
  }

  lemma {:induction false} ContentsConcat(disk: Disk, a: seq<string>, b: seq<string>)
    requires disk.Valid() && (forall r :: r in a ==> r in disk.dir) && (forall r :: r in b ==> r in disk.dir)
    ensures Contents(disk, a + b) == Contents(disk, a) + Contents(disk, b)
  {
    if b == [] {
      assert a + b == a;
    } else {
      var init := b[..|b| - 1];
      assert (a + b)[..|a + b| - 1] == a + init;
      ContentsConcat(disk, a, init);
    }
  }

  /** After the rename, before the path is reopened. */
  ghost function Renamed(w: Writer, target: string): Writer
    requires w.Path() in w.disk.dir
  {
    w.(disk := w.disk.Rename(w.Path(), target).value, rotated := Dropped(w.rotated, target) + [target])
  }

  lemma RenameCollects(w: Writer, target: string)
    requires w.Valid() && w.Live() && target != w.Path()
    ensures Renamed(w, target).Valid() && Renamed(w, target).Stuck()
    ensures (forall n :: n in Dropped(w.rotated, target) ==> n in w.rotated)
    ensures Renamed(w, target).Collected() == Contents(w.disk, Dropped(w.rotated, target)) + w.disk.data[w.handle]
  {
    var w' := Renamed(w, target);
    var kept := Dropped(w.rotated, target);
    DroppedAt(w.rotated, target);
    RenameValid(w.disk, w.Path(), target);
    ContentsFrame(w.disk, w'.disk, kept);
    forall i, j | 0 <= i < j < |w'.rotated| ensures DifferAt(w'.rotated, i, j) {
      assert j < |kept| ==> DifferAt(kept, i, j);
      assert kept[i] in kept;
    }
    assert w'.rotated[..|kept|] == kept && w'.rotated[|kept|] == target;
  }

  lemma ReopenCollects(w: Writer)
    requires w.Valid() && w.Stuck()
    ensures var (disk, inode) := w.disk.Open(w.Path());
            var w' := w.(disk := disk, handle := inode);
            w'.Valid() && w'.Collected() == w.Collected()
  {
    var (disk, _) := w.disk.Open(w.Path());
    OpenValid(w.disk, w.Path());
    ContentsFrame(w.disk, disk, w.rotated);
  }

  /** One call keeps the writer valid, and unless it collides it collects exactly the accepted bytes. */
  lemma WriteCollects(w: Writer, c: Call)
    requires w.Valid() && LogNames.ValidFileName(w.name) && ValidCall(c)
    ensures Write(w, c).Valid() && Write(w, c).folder == w.folder && Write(w, c).name == w.name
    ensures !Collides(w, c) ==> Write(w, c).Collected() == w.Collected() + Accepted(c)
  {
    if c.os.accepted.Some? {
      var w' := w.(disk := w.disk.Append(w.handle, Accepted(c)));
      AppendCollects(w, w', Accepted(c));
      if NeedsRotation(w'.disk, w.Path(), c.os.metadataOk) {
        RotateCollects(w', c.os);
      }
    }
  }

  lemma AppendStaysFilled(w: Writer, w': Writer, bytes: Bytes)
    requires w.Valid() && w.Filled() && w' == w.(disk := w.disk.Append(w.handle, bytes))
    ensures w'.Valid() && w'.Filled()
  {
    AppendCollects(w, w', bytes);
  }

  lemma RotateStaysFilled(w: Writer, os: Outcome)
    requires w.Valid() && w.Live() && w.Filled() && LogNames.ValidFileName(w.name)
    requires |w.disk.data[w.handle]| >= MAX_LOG_SIZE
    ensures Rotate(w, os).Valid() && Rotate(w, os).Filled()
  {
    RotateCollects(w, os);
    LogNames.RotatedNameIsNotThePath(w.folder, w.name, os.stamp);
    DroppedAt(w.rotated, Target(w, os));
    var w' := Rotate(w, os);
    forall r | r in w'.rotated ensures |w'.disk.data[w'.disk.dir[r]]| >= MAX_LOG_SIZE {
      if os.renameOk && r != Target(w, os) {
        assert r in w.rotated && w'.disk.dir[r] == w.disk.dir[r];
      }
    }
  }

  lemma WriteStaysFilled(w: Writer, c: Call)
    requires w.Valid() && LogNames.ValidFileName(w.name) && ValidCall(c) && w.Filled()
    ensures Write(w, c).Valid() && Write(w, c).Filled()
  {
    if c.os.accepted.Some? {
      var w' := w.(disk := w.disk.Append(w.handle, Accepted(c)));
      AppendStaysFilled(w, w', Accepted(c));
      if NeedsRotation(w'.disk, w.Path(), c.os.metadataOk) {
        RotateStaysFilled(w', c.os);
      }
    }
  }

  /** A call that collides takes exactly one rotated file away; nothing else is lost or gained. */
  lemma WriteLoses(w: Writer, c: Call)
    requires w.Valid() && LogNames.ValidFileName(w.name) && ValidCall(c)
    ensures Write(w, c).Valid()
    ensures |Write(w, c).Collected()| + |LostBy(w, c)| == |w.Collected()| + |Accepted(c)|
  {
    WriteCollects(w, c);
    if Collides(w, c) {
      var w' := w.(disk := w.disk.Append(w.handle, Accepted(c)));
      AppendCollects(w, w', Accepted(c));
      var k :| 0 <= k < |w.rotated| && w.rotated[k] == Target(w, c.os);
      RotateLosesThatFile(w', c.os, k);
      assert w.disk.SoleName(w.Path());
    }
  }

  // ----- all runs of one thread

  predicate ValidCalls(cs: seq<Call>) {
    forall c :: c in cs ==> ValidCall(c)
  }

  /** The states before and after each call of a run. */
  ghost predicate IsRun(ws: seq<Writer>, cs: seq<Call>) {
    && ValidCalls(cs) && |ws| == |cs| + 1
    && (forall k :: 0 <= k < |ws| ==> ValidState(ws[k]) && ws[k].folder == ws[0].folder && ws[k].name == ws[0].name)
    && (forall k {:trigger Follows(ws[k], cs[k], ws[k + 1])} :: 0 <= k < |cs| ==> Follows(ws[k], cs[k], ws[k + 1]))
  }

  ghost predicate Follows(w: Writer, c: Call, w': Writer) {
    w.Valid() && ValidCall(c) && w' == Write(w, c)
  }

  lemma Next(ws: seq<Writer>, cs: seq<Call>, k: nat)
    requires IsRun(ws, cs) && k < |cs|
    ensures ValidState(ws[k]) && ValidState(ws[k + 1]) && ws[k + 1] == Write(ws[k], cs[k])
  {
    assert Follows(ws[k], cs[k], ws[k + 1]);
  }

  ghost predicate ValidState(w: Writer) {
    w.Valid() && LogNames.ValidFileName(w.name)
  }

  /** From every valid state every list of calls runs, whatever fails and however stamps repeat. */
  lemma {:induction false} EveryListRuns(w: Writer, cs: seq<Call>) returns (ws: seq<Writer>)
    requires ValidState(w) && ValidCalls(cs)
    ensures IsRun(ws, cs) && ws[0] == w
    decreases |cs|
  {
    if cs == [] {
      ws := [w];
    } else {
      var init, last := cs[..|cs| - 1], cs[|cs| - 1];
      ws := EveryListRuns(w, init);
      OneMoreCall(ws, init, last);
      assert cs == init + [last];
      ws := ws + [Write(ws[|init|], last)];
    }
  }

  lemma OneMoreCall(ws: seq<Writer>, cs: seq<Call>, c: Call)
    requires IsRun(ws, cs) && ValidCall(c)
    ensures IsRun(ws + [Write(ws[|cs|], c)], cs + [c])
  {
    var w := ws[|cs|];
    WriteCollects(w, c);
    var ws', cs' := ws + [Write(w, c)], cs + [c];
    forall k | 0 <= k < |ws'| ensures ValidState(ws'[k]) && ws'[k].folder == ws'[0].folder && ws'[k].name == ws'[0].name {
      assert k < |ws| ==> ws'[k] == ws[k];
    }
    forall k | 0 <= k < |cs'| ensures Follows(ws'[k], cs'[k], ws'[k + 1]) {
      if k < |cs| {
        Next(ws, cs, k);
        assert cs'[k] == cs[k] && ws'[k] == ws[k] && ws'[k + 1] == ws[k + 1];
      }
    }
  }

  /** The bytes `write` has reported as written, over the first `n` calls. */
  ghost function History(cs: seq<Call>, n: nat): Bytes
    requires ValidCalls(cs) && n <= |cs|
  {
    if n == 0 then [] else History(cs, n - 1) + Accepted(cs[n - 1])
  }

  /** No call renames the log onto a file that an earlier rotation has left. */
  ghost predicate NoCollision(ws: seq<Writer>, cs: seq<Call>)
    requires IsRun(ws, cs)
  {
    forall k :: 0 <= k < |cs| ==> !Collides(ws[k], cs[k])
  }

  /** The collected bytes before and after each call. */
  ghost function Collections(ws: seq<Writer>, cs: seq<Call>): (all: seq<Bytes>)
    requires IsRun(ws, cs)
    ensures |all| == |ws| && forall k :: 0 <= k < |ws| ==> all[k] == ws[k].Collected()
  {
    seq(|ws|, k requires 0 <= k < |ws| => ws[k].Collected())
  }

  /** Rotation is invisible to a reader as long as no call collides: the rotated files in order, followed
      by the active file, spell the accepted writes, whatever renames and reopens fail. */
  lemma RotationRefinesHistory(ws: seq<Writer>, cs: seq<Call>, n: nat)
    requires IsRun(ws, cs) && NoCollision(ws, cs) && n <= |cs|
    ensures ws[n].Collected() == ws[0].Collected() + History(cs, n)
  {
    var all := Collections(ws, cs);
    forall k | 0 <= k < |cs| ensures all[k + 1] == all[k] + Accepted(cs[k]) {
      CollectsInRun(ws, cs, k);
    }
    Accumulates(all, cs, n);
  }

  lemma CollectsInRun(ws: seq<Writer>, cs: seq<Call>, k: nat)
    requires IsRun(ws, cs) && k < |cs| && !Collides(ws[k], cs[k])
    ensures ws[k + 1].Collected() == ws[k].Collected() + Accepted(cs[k])
  {
    Next(ws, cs, k);
    WriteCollects(ws[k], cs[k]);
  }

  lemma {:induction false} Accumulates(all: seq<Bytes>, cs: seq<Call>, n: nat)
    requires ValidCalls(cs) && |all| == |cs| + 1 && n <= |cs|
    requires forall k {:trigger cs[k]} :: 0 <= k < |cs| ==> all[k + 1] == all[k] + Accepted(cs[k])
    ensures all[n] == all[0] + History(cs, n)
  {
    if n == 0 {
      assert all[0] + [] == all[0];
    } else {
      Accumulates(all, cs, n - 1);
      Associative(all[0], History(cs, n - 1), Accepted(cs[n - 1]));
      assert all[n - 1 + 1] == all[n - 1] + Accepted(cs[n - 1]);
    }
  }

  lemma Associative(a: Bytes, b: Bytes, c: Bytes)
    ensures a + b + c == a + (b + c)
  {
  }

  lemma {:induction false} RunStaysFilled(ws: seq<Writer>, cs: seq<Call>, n: nat)
    requires IsRun(ws, cs) && n <= |cs| && ws[0].Filled()
    ensures ws[n].Filled()
  {
    if n > 0 {
      RunStaysFilled(ws, cs, n - 1);
      Next(ws, cs, n - 1);
      WriteStaysFilled(ws[n - 1], cs[n - 1]);
    }
  }

  lemma CollisionTakesBytes(w: Writer, c: Call)
    requires ValidState(w) && ValidCall(c) && w.Filled()
    ensures Write(w, c).Valid() && |Write(w, c).Collected()| <= |w.Collected()| + |Accepted(c)|
    ensures |Write(w, c).Collected()| == |w.Collected()| + |Accepted(c)| <==> !Collides(w, c)
  {
    WriteLoses(w, c);
  }

  /** Sizes before and after each call, what each call adds, and which calls lose nothing. */
  ghost predicate Ledger(sizes: seq<nat>, gains: seq<nat>, kept: seq<bool>) {
    && |sizes| == |gains| + 1 == |kept| + 1
    && forall k {:trigger gains[k]} {:trigger kept[k]} :: 0 <= k < |gains| ==>
         && sizes[k + 1] <= sizes[k] + gains[k]
         && (sizes[k + 1] == sizes[k] + gains[k] <==> kept[k])
  }

  ghost function Total(gains: seq<nat>, n: nat): nat
    requires n <= |gains|
  {
    if n == 0 then 0 else Total(gains, n - 1) + gains[n - 1]
  }

  /** A call that loses bytes leaves the files short for good. */
  lemma {:induction false} LedgerCloses(sizes: seq<nat>, gains: seq<nat>, kept: seq<bool>, n: nat)
    requires Ledger(sizes, gains, kept) && n <= |gains|
    ensures sizes[n] <= sizes[0] + Total(gains, n)
    ensures sizes[n] == sizes[0] + Total(gains, n) <==> forall k :: 0 <= k < n ==> kept[k]
  {
    if n > 0 {
      LedgerCloses(sizes, gains, kept, n - 1);
      assert sizes[n - 1 + 1] <= sizes[n - 1] + gains[n - 1];
    }
  }

  lemma {:induction false} HistoryLength(cs: seq<Call>, gains: seq<nat>, n: nat)
    requires ValidCalls(cs) && n <= |cs| == |gains| && forall k :: 0 <= k < |cs| ==> gains[k] == |Accepted(cs[k])|
    ensures |History(cs, n)| == Total(gains, n)
  {
    if n > 0 {
      HistoryLength(cs, gains, n - 1);
    }
  }

  ghost function Sizes(ws: seq<Writer>, cs: seq<Call>): (sizes: seq<nat>)
    requires IsRun(ws, cs)
    ensures |sizes| == |ws| && forall k :: 0 <= k < |ws| ==> sizes[k] == |ws[k].Collected()|
  {
    seq(|ws|, k requires 0 <= k < |ws| => |ws[k].Collected()|)
  }

  ghost function Gains(cs: seq<Call>): (gains: seq<nat>)
    requires ValidCalls(cs)
    ensures |gains| == |cs| && forall k :: 0 <= k < |cs| ==> gains[k] == |Accepted(cs[k])|
  {
    seq(|cs|, k requires 0 <= k < |cs| => |Accepted(cs[k])|)
  }

  ghost function Kept(ws: seq<Writer>, cs: seq<Call>): (kept: seq<bool>)
    requires IsRun(ws, cs)
    ensures |kept| == |cs| && forall k :: 0 <= k < |cs| ==> kept[k] == !Collides(ws[k], cs[k])
  {
    seq(|cs|, k requires 0 <= k < |cs| => !Collides(ws[k], cs[k]))
  }

  lemma RunLedger(ws: seq<Writer>, cs: seq<Call>)
    requires IsRun(ws, cs) && ws[0].Filled()
    ensures Ledger(Sizes(ws, cs), Gains(cs), Kept(ws, cs))
  {
    var sizes, gains, kept := Sizes(ws, cs), Gains(cs), Kept(ws, cs);
    forall k | 0 <= k < |cs|
      ensures sizes[k + 1] <= sizes[k] + gains[k] && (sizes[k + 1] == sizes[k] + gains[k] <==> kept[k])
    {
      CallInRun(ws, cs, k);
    }
  }

  lemma CallInRun(ws: seq<Writer>, cs: seq<Call>, n: nat)
    requires IsRun(ws, cs) && n < |cs| && ws[0].Filled()
    ensures |ws[n + 1].Collected()| <= |ws[n].Collected()| + |Accepted(cs[n])|
    ensures |ws[n + 1].Collected()| == |ws[n].Collected()| + |Accepted(cs[n])| <==> !Collides(ws[n], cs[n])
  {
    RunStaysFilled(ws, cs, n);
    Next(ws, cs, n);
    CollisionTakesBytes(ws[n], cs[n]);
  }

  /** Over every run: the files spell the history if and only if no call renames the log onto a file that
      an earlier rotation has left. */
  lemma HistoryKeptIffNoCollision(ws: seq<Writer>, cs: seq<Call>)
    requires IsRun(ws, cs) && ws[0].Filled()
    ensures ws[|cs|].Collected() == ws[0].Collected() + History(cs, |cs|) <==> NoCollision(ws, cs)
  {
    var gains, kept := Gains(cs), Kept(ws, cs);
    RunLedger(ws, cs);
    LedgerCloses(Sizes(ws, cs), gains, kept, |cs|);
    HistoryLength(cs, gains, |cs|);
    assert NoCollision(ws, cs) <==> forall k :: 0 <= k < |cs| ==> kept[k];
    if NoCollision(ws, cs) {
      RotationRefinesHistory(ws, cs, |cs|);
    }
  }

  /** The time stamps of those among the first `n` calls that rename the log. */
  ghost function RotationStamps(ws: seq<Writer>, cs: seq<Call>, n: nat): set<string>
    requires IsRun(ws, cs) && n <= |cs|
  {
    set k: nat | k < n && Renames(ws[k], cs[k]) :: cs[k].os.stamp
  }

  lemma RotatedNames(ws: seq<Writer>, cs: seq<Call>, n: nat, stamp: string)
    requires IsRun(ws, cs) && n <= |cs|
    ensures var name := LogNames.RotatedName(ws[0].folder, ws[0].name, stamp);
            name in ws[n].rotated <==> name in ws[0].rotated || stamp in RotationStamps(ws, cs, n)
  {
    var name := LogNames.RotatedName(ws[0].folder, ws[0].name, stamp);
    var left := LeftUnder(ws, name);
    var hits := seq(|cs|, k requires 0 <= k < |cs| => Renames(ws[k], cs[k]) && cs[k].os.stamp == stamp);
    forall k | 0 <= k < |cs| ensures left[k + 1] <==> left[k] || hits[k] {
      NamesInRun(ws, cs, k, stamp);
    }
    OnceLeftStaysLeft(left, hits, n);
    StampsOfHits(ws, cs, n, stamp, hits);
  }

  lemma StampsOfHits(ws: seq<Writer>, cs: seq<Call>, n: nat, stamp: string, hits: seq<bool>)
    requires IsRun(ws, cs) && n <= |cs| == |hits|
    requires forall k :: 0 <= k < |cs| ==> (hits[k] <==> Renames(ws[k], cs[k]) && cs[k].os.stamp == stamp)
    ensures stamp in RotationStamps(ws, cs, n) <==> exists k :: 0 <= k < n && hits[k]
  {
    if stamp in RotationStamps(ws, cs, n) {
      var k: nat :| k < n && Renames(ws[k], cs[k]) && cs[k].os.stamp == stamp;
      assert hits[k];
    }
    if k :| 0 <= k < n && hits[k] {
      assert Renames(ws[k], cs[k]) && cs[k].os.stamp in RotationStamps(ws, cs, n);
    }
  }

  /** In which states a rotated file of this name is left. */
  ghost function LeftUnder(ws: seq<Writer>, name: string): (left: seq<bool>)
    ensures |left| == |ws| && forall k :: 0 <= k < |ws| ==> (left[k] <==> name in ws[k].rotated)
  {
    seq(|ws|, k requires 0 <= k < |ws| => name in ws[k].rotated)
  }

  lemma {:induction false} OnceLeftStaysLeft(left: seq<bool>, hits: seq<bool>, n: nat)
    requires n <= |hits| == |left| - 1
    requires forall k {:trigger hits[k]} :: 0 <= k < |hits| ==> (left[k + 1] <==> left[k] || hits[k])
    ensures left[n] <==> left[0] || exists k :: 0 <= k < n && hits[k]
  {
    if n > 0 {
      OnceLeftStaysLeft(left, hits, n - 1);
      assert left[n - 1 + 1] <==> left[n - 1] || hits[n - 1];
    }
  }

  lemma NamesInRun(ws: seq<Writer>, cs: seq<Call>, n: nat, stamp: string)
    requires IsRun(ws, cs) && n < |cs|
    ensures var name := LogNames.RotatedName(ws[0].folder, ws[0].name, stamp);
            name in ws[n + 1].rotated <==> name in ws[n].rotated || (Renames(ws[n], cs[n]) && cs[n].os.stamp == stamp)
  {
    Next(ws, cs, n);
    NamesAfter(ws[n], cs[n], stamp);
  }

  lemma NamesAfter(w: Writer, c: Call, stamp: string)
    requires w.Valid() && ValidCall(c)
    ensures var name := LogNames.RotatedName(w.folder, w.name, stamp);
            name in Write(w, c).rotated <==> name in w.rotated || (Renames(w, c) && c.os.stamp == stamp)
  {
    DroppedAt(w.rotated, Target(w, c.os));
    LogNames.RotatedNameIsInjective(w.folder, w.name, c.os.stamp, stamp);
  }

  /** A call collides exactly when it renames the log, and a call of the run that did so before it had the
      same time stamp, or the name was left before the run.  Calls that do not rotate may share their
      stamps with anything. */
  lemma CollidesIffStampRepeats(ws: seq<Writer>, cs: seq<Call>, k: nat)
    requires IsRun(ws, cs) && k < |cs|
    ensures Collides(ws[k], cs[k]) <==>
            && Renames(ws[k], cs[k])
            && (Target(ws[0], cs[k].os) in ws[0].rotated || cs[k].os.stamp in RotationStamps(ws, cs, k))
  {
    RotatedNames(ws, cs, k, cs[k].os.stamp);
  }

  /** A rename that succeeds while the reopen fails is where rotation ends: no later call
      rotates, and all further bytes go to the file rotated last. */
  lemma {:induction false} StuckStaysStuck(ws: seq<Writer>, cs: seq<Call>, n: nat)
    requires IsRun(ws, cs) && n <= |cs| && ws[0].Stuck()
    ensures var w' := ws[n];
            w'.Stuck() && w'.rotated == ws[0].rotated && w'.handle == ws[0].handle && w'.disk.dir == ws[0].disk.dir
    ensures n < |cs| ==> !Renames(ws[n], cs[n])
  {
    if n > 0 {
      StuckStaysStuck(ws, cs, n - 1);
      Next(ws, cs, n - 1);
      StuckStep(ws[n - 1], cs[n - 1]);
    }
    if n < |cs| {
      StuckStep(ws[n], cs[n]);
    }
  }

  lemma StuckStep(w: Writer, c: Call)
    requires w.Valid() && ValidCall(c) && w.Stuck()
    ensures var w' := Write(w, c);
            w'.Stuck() && w'.rotated == w.rotated && w'.handle == w.handle && w'.disk.dir == w.disk.dir
    ensures !Renames(w, c)
  {
  }

  // ----- sizes

  predicate Cooperative(c: Call) {
    c.os.metadataOk && c.os.renameOk && c.os.openOk
  }

  ghost function ActiveSize(w: Writer): nat
    requires w.Valid()
  {
    if w.Live() then |w.disk.data[w.handle]| else 0
  }

  /** After any accepted write whose check, rename and reopen succeed, the active file is below
      the limit, however large earlier failures let it grow; the file this write rotates away, if any,
      had reached the limit only by the bytes of this write, if it was below it before; and every other
      rotated file keeps its bytes. */
  lemma WriteRestoresTheBound(w: Writer, c: Call)
    requires w.Valid() && w.Live() && LogNames.ValidFileName(w.name) && ValidCall(c)
    requires Cooperative(c) && c.os.accepted.Some?
    ensures var w' := Write(w, c);
            && w'.Valid() && w'.Live() && ActiveSize(w') < MAX_LOG_SIZE
            && (if Renames(w, c) then Retired(w, c, w') else w'.rotated == w.rotated)
            && (forall r :: r in w.rotated && !(Renames(w, c) && r == Target(w, c.os)) ==>
                  r in w'.rotated && w'.disk.data[w'.disk.dir[r]] == w.disk.data[w.disk.dir[r]])
  {
    WriteCollects(w, c);
    assert w.disk.SoleName(w.Path());
    if Renames(w, c) {
      RetireActive(w, c);
    }
  }

  lemma RetireActive(w: Writer, c: Call)
    requires w.Valid() && w.Live() && LogNames.ValidFileName(w.name) && ValidCall(c)
    requires Cooperative(c) && Renames(w, c)
    ensures var w' := Write(w, c);
            && w'.Valid() && w'.Live() && ActiveSize(w') == 0 && Retired(w, c, w')
            && (forall r :: r in w.rotated && r != Target(w, c.os) ==>
                  r in w'.rotated && w'.disk.data[w'.disk.dir[r]] == w.disk.data[w.disk.dir[r]])
  {
    WriteCollects(w, c);
    assert w.disk.SoleName(w.Path());
    LogNames.RotatedNameIsNotThePath(w.folder, w.name, c.os.stamp);
    DroppedAt(w.rotated, Target(w, c.os));
  }

  /** The call moved the active file to a rotated name holding its old bytes and the new ones. */
  ghost predicate Retired(w: Writer, c: Call, w': Writer)
    requires w.Valid() && w'.Valid() && ValidCall(c)
  {
    && w'.rotated == Dropped(w.rotated, Target(w, c.os)) + [Target(w, c.os)]
    && MAX_LOG_SIZE <= RotatedSize(w', Target(w, c.os)) == ActiveSize(w) + |Accepted(c)|
  }

  ghost function RotatedSize(w: Writer, r: string): nat
    requires w.Valid() && r in w.rotated
  {
    |w.disk.data[w.disk.dir[r]]|
  }

  ghost predicate RotatedBounded(w: Writer, excused: set<string>, slack: nat)
    requires w.Valid()
  {
    forall r :: r in w.rotated && r !in excused ==> MAX_LOG_SIZE <= RotatedSize(w, r) < MAX_LOG_SIZE + slack
  }

  /** Over a run in which nothing fails, starting below the limit, every write ends with the
      active file below the limit, and each file rotated in the run reaches the limit and stays
      below the limit plus the longest accepted buffer.  Files left before the run may be excused. */
  lemma {:induction false} CooperativeRunIsBounded(ws: seq<Writer>, cs: seq<Call>, n: nat, slack: nat, excused: set<string>)
    requires IsRun(ws, cs) && n <= |cs| && ws[0].Live()
    requires RotatedBounded(ws[0], excused, slack) && ActiveSize(ws[0]) < MAX_LOG_SIZE
    requires forall c :: c in cs ==> Cooperative(c) && |Accepted(c)| <= slack
    ensures ws[n].Live() && ActiveSize(ws[n]) < MAX_LOG_SIZE && RotatedBounded(ws[n], excused, slack)
  {
    if n > 0 {
      CooperativeRunIsBounded(ws, cs, n - 1, slack, excused);
      Next(ws, cs, n - 1);
      CooperativeStep(ws[n - 1], cs[n - 1], slack, excused);
    }
  }

  lemma CooperativeStep(w: Writer, c: Call, slack: nat, excused: set<string>)
    requires w.Valid() && LogNames.ValidFileName(w.name) && w.Live() && ValidCall(c)
    requires RotatedBounded(w, excused, slack) && ActiveSize(w) < MAX_LOG_SIZE
    requires Cooperative(c) && |Accepted(c)| <= slack
    ensures var w' := Write(w, c);
            w'.Valid() && w'.Live() && ActiveSize(w') < MAX_LOG_SIZE && RotatedBounded(w', excused, slack)
  {
    if c.os.accepted.Some? {
      WriteRestoresTheBound(w, c);
      var w' := Write(w, c);
      forall r | r in w'.rotated && r !in excused
        ensures MAX_LOG_SIZE <= RotatedSize(w', r) < MAX_LOG_SIZE + slack
      {
        if !Renames(w, c) || r != Target(w, c.os) {
          DroppedAt(w.rotated, Target(w, c.os));
          assert r in w.rotated && RotatedSize(w', r) == RotatedSize(w, r);
        }
      }
    }
  }
}
