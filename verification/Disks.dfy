/** The part of a POSIX file system the log writer touches: a directory that maps names to
    inodes, and inodes that hold bytes.  An open handle names an inode, not a path, so it
    survives a rename; an inode whose last name is overwritten stays writable but no reader
    can find it. */
module Disks {
  import opened Wrappers

  newtype Byte = b: int | 0 <= b < 256
  type Bytes = seq<Byte>
  type Inode = nat

  datatype Disk = Disk(dir: map<string, Inode>, data: map<Inode, Bytes>, next: Inode) {

    /** Names lead to inodes that exist, no inode has two names, and inode numbers are handed out upwards. */
    ghost predicate Valid() {
      && (forall name :: name in dir ==> dir[name] in data)
      && (forall name {:trigger SoleName(name)} :: name in dir ==> SoleName(name))
      && (forall i :: i in data ==> i < next)
    }

    /** No other name leads to the same inode. */
    ghost predicate SoleName(name: string)
      requires name in dir
    {
      forall other :: other in dir && dir[other] == dir[name] ==> other == name
    }

    /** Some name still leads to the inode. */
    ghost predicate Linked(i: Inode) {
      exists name :: name in dir && dir[name] == i
    }

    /** `write` on a handle opened for appending. */
    function Append(i: Inode, bytes: Bytes): Disk
      requires i in data
    {
      this.(data := data[i := data[i] + bytes])
    }

    /** `OpenOptions` with create and append and without truncate: an existing file is kept as it is. */
    function Open(name: string): (Disk, Inode) {
      if name in dir then (this, dir[name])
      else (Disk(dir[name := next], data[next := []], next + 1), next)
    }

    /** `rename`: fails when the source is missing and silently replaces an existing target. */
    function Rename(source: string, target: string): Option<Disk> {
      if source !in dir then None
      else if source == target then Some(this)
      else Some(this.(dir := (dir - {source})[target := dir[source]]))
    }

    /** The length `metadata` reports, if the name exists. */
    function Size(name: string): Option<nat>
      requires name in dir ==> dir[name] in data
    {
      if name in dir then Some(|data[dir[name]]|) else None
    }
  }

  lemma AppendValid(d: Disk, i: Inode, bytes: Bytes)
    requires d.Valid() && i in d.data
    ensures d.Append(i, bytes).Valid()
  {
    var d' := d.Append(i, bytes);
    forall name | name in d'.dir ensures d'.SoleName(name) {
      assert d.SoleName(name);
    }
  }

  lemma OpenValid(d: Disk, name: string)
    requires d.Valid()
    ensures d.Open(name).0.Valid() && d.Open(name).1 in d.Open(name).0.data
  {
    var d' := d.Open(name).0;
    forall n | n in d'.dir ensures d'.SoleName(n) {
      assert n in d.dir ==> d.SoleName(n);
    }
  }

  lemma RenameValid(d: Disk, source: string, target: string)
    requires d.Valid()
    ensures d.Rename(source, target).Some? ==> d.Rename(source, target).value.Valid()
  {
    if source in d.dir {
      var d' := d.Rename(source, target).value;
      forall n | n in d'.dir ensures d'.SoleName(n) {
        assert d.SoleName(source) && (n in d.dir ==> d.SoleName(n));
      }
    }
  }
}
