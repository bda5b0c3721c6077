/** File names of the log writer: `file_path` and `generate_rotated_file_name`. */
module LogNames {

  /** A name POSIX lets one create inside a folder. */
  predicate ValidFileName(name: string) {
    name != "" && '/' !in name && name != "." && name != ".."
  }

  function FilePath(folder: string, name: string): string {
    folder + "/" + name
  }

  /** Position of the last dot of `name`, or `|name|` when there is none. */
  function LastDot(name: string): (k: nat)
    ensures k <= |name|
    ensures k < |name| ==> name[k] == '.'
    ensures forall j :: k < j < |name| ==> name[j] != '.'
    ensures k == |name| ==> '.' !in name
  {
    LastDotBelow(name, |name|)
  }

  function LastDotBelow(name: string, n: nat): (k: nat)
    requires n <= |name|
    requires forall j :: n <= j < |name| ==> name[j] != '.'
    ensures k <= |name|
    ensures k < |name| ==> name[k] == '.'
    ensures forall j :: k < j < |name| ==> name[j] != '.'
    ensures k == |name| ==> '.' !in name
  {
    if n == 0 then |name|
    else if name[n - 1] == '.' then n - 1
    else LastDotBelow(name, n - 1)
  }

  /** `Path::file_stem`: a leading dot does not start an extension. */
  function Stem(name: string): string {
    var k := LastDot(name);
    if k == 0 then name else name[..k]
  }

  /** `Path::extension`, with a missing extension read as the empty one. */
  function Extension(name: string): string {
    var k := LastDot(name);
    if k == 0 || k == |name| then "" else name[k + 1..]
  }

  function RotatedName(folder: string, name: string, stamp: string): string {
    var extension := Extension(name);
    folder + "/" + Stem(name) + "_" + stamp + "." + (if extension == "" then "log" else extension)
  }

  /** Splitting a name at its last dot loses at most that dot. */
  lemma StemAndExtension(name: string)
    ensures |name| <= |Stem(name)| + 1 + |Extension(name)|
    ensures Extension(name) != "" ==> name == Stem(name) + "." + Extension(name)
  {
    var k := LastDot(name);
    if k == 0 || k == |name| {
    } else {
      assert name == name[..k] + [name[k]] + name[k + 1..];
    }
  }

  /** How a rotated file is called: the time stamp goes between the stem and the extension; without an extension, with
      an empty one, or for a name whose only dot comes first, the extension is `log`. */
  lemma RotatedNameShape(folder: string, stem: string, extension: string, stamp: string)
    requires stem != "" && '.' !in extension
    ensures FilePath(folder, stem) == folder + "/" + stem
    ensures extension != "" ==>
              RotatedName(folder, stem + "." + extension, stamp) == folder + "/" + stem + "_" + stamp + "." + extension
    ensures RotatedName(folder, stem + ".", stamp) == folder + "/" + stem + "_" + stamp + ".log"
    ensures '.' !in stem ==> RotatedName(folder, stem, stamp) == folder + "/" + stem + "_" + stamp + ".log"
    ensures '.' !in stem ==> RotatedName(folder, "." + stem, stamp) == folder + "/" + ("." + stem) + "_" + stamp + ".log"
  {
    SplitAtDot(stem, extension);
    SplitAtDot(stem, "");
    assert stem + "." + "" == stem + ".";
    if '.' !in stem {
      LastDotIs("." + stem, 0);
      NoDotInName(stem);
    }
    assert "." + "log" == ".log";
  }

  lemma SplitAtDot(stem: string, extension: string)
    requires stem != "" && '.' !in extension
    ensures Stem(stem + "." + extension) == stem && Extension(stem + "." + extension) == extension
  {
    var name := stem + "." + extension;
    assert forall j :: |stem| < j < |name| ==> name[j] == extension[j - |stem| - 1];
    LastDotIs(name, |stem|);
    assert name[..|stem|] == stem && name[|stem| + 1..] == extension;
  }

  lemma NoDotInName(name: string)
    requires '.' !in name && name != ""
    ensures Stem(name) == name && Extension(name) == ""
  {
    assert forall j :: 0 <= j < |name| ==> name[j] in name;
    assert name[..|name|] == name;
  }

  lemma LastDotIs(name: string, k: nat)
    requires k < |name| && name[k] == '.' && forall j :: k < j < |name| ==> name[j] != '.'
    ensures LastDot(name) == k
  {
    assert name[k] in name;
  }

  /** A rotation never renames the active file onto itself. */
  lemma RotatedNameIsNotThePath(folder: string, name: string, stamp: string)
    requires ValidFileName(name)
    ensures |RotatedName(folder, name, stamp)| > |FilePath(folder, name)|
    ensures RotatedName(folder, name, stamp) != FilePath(folder, name)
  {
    StemAndExtension(name);
  }

  /** Rotations with different time stamps use different names. */
  lemma RotatedNameIsInjective(folder: string, name: string, stamp1: string, stamp2: string)
    ensures RotatedName(folder, name, stamp1) == RotatedName(folder, name, stamp2) <==> stamp1 == stamp2
  {
    var prefix := folder + "/" + Stem(name) + "_";
    var extension := Extension(name);
    Between(prefix, stamp1, stamp2, "." + (if extension == "" then "log" else extension));
    assert RotatedName(folder, name, stamp1) == prefix + stamp1 + ("." + (if extension == "" then "log" else extension));
    assert RotatedName(folder, name, stamp2) == prefix + stamp2 + ("." + (if extension == "" then "log" else extension));
  }

  lemma Between(prefix: string, a: string, b: string, suffix: string)
    ensures prefix + a + suffix == prefix + b + suffix <==> a == b
  {
    var ra, rb := prefix + a + suffix, prefix + b + suffix;
    if ra == rb {
      assert |a| == |b|;
      assert a == ra[|prefix|..|prefix| + |a|];
      assert b == rb[|prefix|..|prefix| + |b|];
    }
  }
}
