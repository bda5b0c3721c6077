/** The writer as the objects the program shares: one file system, one handle behind a lock, and
    any number of writers that clone the handle. */
module RotatingWriters {
  import opened Wrappers
  import opened Disks
  import LogNames
  import LogWriter

  class FileSystem {
    var disk: Disk

    constructor (disk: Disk)
      ensures this.disk == disk
    {
      this.disk := disk;
    }
  }

  /** `Arc<Mutex<File>>`; the names used by rotations are kept beside it for the specification. */
  class SharedFile {
    var inode: Inode
    ghost var rotated: seq<string>

    constructor (inode: Inode)
      ensures this.inode == inode && rotated == []
    {
      this.inode := inode;
      rotated := [];
    }
  }

  datatype IoError = IoError

  class RotatingFileWriter {
    const fs: FileSystem
    const file: SharedFile
    const folder: string
    const name: string

    ghost function State(): LogWriter.Writer
      reads fs, file
    {
      LogWriter.Writer(folder, name, fs.disk, file.inode, file.rotated)
    }

    ghost predicate Valid()
      reads fs, file
    {
      LogNames.ValidFileName(name) && State().Valid() && State().Filled()
    }

    /** The path both the size check and the rename go through. */
    function Path(): string { LogNames.FilePath(folder, name) }

    /** Opening an existing log keeps its bytes: they count as collected from the start. */
    constructor (fs: FileSystem, folder: string, name: string)
      requires fs.disk.Valid() && LogNames.ValidFileName(name)
      modifies fs
      ensures this.fs == fs && this.folder == folder && this.name == name && fresh(file)
      ensures Valid() && State().Live() && file.rotated == []
      ensures State().Collected() == old(var path := LogNames.FilePath(folder, name);
                if path in fs.disk.dir then fs.disk.data[fs.disk.dir[path]] else [])
    {
      OpenValid(fs.disk, LogNames.FilePath(folder, name));
      var (disk, inode) := fs.disk.Open(LogNames.FilePath(folder, name));
      var shared := new SharedFile(inode);
      this.fs, this.file, this.folder, this.name := fs, shared, folder, name;
      new;
      fs.disk := disk;
      assert State().Collected() == disk.data[inode];
    }

    /** A handle kept from another writer, for `make_writer`. */
    constructor Sharing(fs: FileSystem, file: SharedFile, folder: string, name: string)
      ensures this.fs == fs && this.file == file && this.folder == folder && this.name == name
    {
      this.fs, this.file, this.folder, this.name := fs, file, folder, name;
    }

    method OpenLogFile(openOk: bool) returns (r: Result<Inode, IoError>)
      modifies fs
      ensures r.Ok? <==> openOk
      ensures r.Ok? ==> (fs.disk, r.value) == old(fs.disk).Open(Path())
      ensures r.Err? ==> fs.disk == old(fs.disk)
    {
      if !openOk {
        return Err(IoError);
      }
      var (disk, inode) := fs.disk.Open(Path());
      fs.disk := disk;
      return Ok(inode);
    }

    /** Answers about the file under the path, which is not always the file behind the handle. */
    method CheckFileSize(metadataOk: bool) returns (tooLarge: bool)
      requires fs.disk.Valid()
      ensures tooLarge == LogWriter.NeedsRotation(fs.disk, Path(), metadataOk)
      ensures tooLarge <==> metadataOk && Path() in fs.disk.dir && |fs.disk.data[fs.disk.dir[Path()]]| >= 10 * 1024 * 1024
    {
      var size := if metadataOk then fs.disk.Size(Path()) else None;
      match size
      case Some(length) => tooLarge := length >= LogWriter.MAX_LOG_SIZE;
      case None => tooLarge := false;
    }

    method RotateLogFile(outcome: LogWriter.Outcome)
      requires Valid()
      modifies fs, file
      ensures State() == LogWriter.Rotate(old(State()), outcome)
    {
      var target := LogNames.RotatedName(folder, name, outcome.stamp);
      if !outcome.renameOk {
        return;
      }
      match fs.disk.Rename(Path(), target)
      case None => return;
      case Some(renamed) =>
        fs.disk := renamed;
        file.rotated := LogWriter.Dropped(file.rotated, target) + [target];
        var reopened := OpenLogFile(outcome.openOk);
        if reopened.Ok? {
          file.inode := reopened.value;
        }
    }

    /** One call of `write`: the state moves as specified, and the collected bytes grow by exactly the
        bytes reported as written if and only if the call does not rename the log onto a rotated file. */
    method Write(buffer: Bytes, outcome: LogWriter.Outcome) returns (r: Result<nat, IoError>)
      requires Valid() && LogWriter.ValidCall(LogWriter.Call(buffer, outcome))
      modifies fs, file
      ensures r.Ok? <==> outcome.accepted.Some?
      ensures r.Ok? ==> r.value == outcome.accepted.value <= |buffer|
      ensures State() == LogWriter.Write(old(State()), LogWriter.Call(buffer, outcome))
      ensures Valid()
      ensures State().Collected() == old(State().Collected()) + (if r.Ok? then buffer[..r.value] else [])
              <==> !old(LogWriter.Collides(State(), LogWriter.Call(buffer, outcome)))
    {
      ghost var before := State();
      match outcome.accepted {
        case None =>
          r := Err(IoError);
        case Some(n) =>
          fs.disk := fs.disk.Append(file.inode, buffer[..n]);
          LogWriter.AppendCollects(before, State(), buffer[..n]);
          var check := CheckFileSize(outcome.metadataOk);
          if check {
            RotateLogFile(outcome);
          }
          r := Ok(n);
      }
      LogWriter.WriteCollects(before, LogWriter.Call(buffer, outcome));
      LogWriter.WriteStaysFilled(before, LogWriter.Call(buffer, outcome));
      LogWriter.WriteLoses(before, LogWriter.Call(buffer, outcome));
    }

    /** Clones write through the same handle: whatever one of them does, the other one sees. */
    method MakeWriter() returns (w: RotatingFileWriter)
      ensures fresh(w) && w.fs == fs && w.file == file && w.State() == State()
    {
      w := new RotatingFileWriter.Sharing(fs, file, folder, name);
    }
  }
}
