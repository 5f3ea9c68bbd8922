/** The project manifest the file system keeps: the list of file names with
    their version numbers, in the order the files were created, and the pure
    operations on it out of which the file system's write, remove and replace
    are built. Versions are a per-file clock that editors use to notice that a
    file changed under them. */
module Manifest {
  import opened Wrappers

  /** The entry-point file that every initialised project holds. */
  const MainFile: string := "main.py"

  newtype byte = x: int | 0 <= x < 256

  type Bytes = seq<byte>

  /** Whether a write moves the file's version clock on. */
  datatype VersionAction = Increment | Maintain

  datatype FileEntry = FileEntry(name: string, version: nat)

  datatype VersionedData = VersionedData(version: nat, data: Bytes)

  function Names(files: seq<FileEntry>): set<string> {
    set i | 0 <= i < |files| :: files[i].name
  }

  predicate UniqueNames(files: seq<FileEntry>) {
    forall i, j :: 0 <= i < j < |files| ==> files[i].name != files[j].name
  }

  predicate PositiveVersions(files: seq<FileEntry>) {
    forall i :: 0 <= i < |files| ==> files[i].version >= 1
  }

  lemma NamesCons(files: seq<FileEntry>)
    requires files != []
    ensures Names(files) == {files[0].name} + Names(files[1..])
  {
    forall n | n in Names(files) ensures n in {files[0].name} + Names(files[1..]) {
      var i :| 0 <= i < |files| && files[i].name == n;
      if i > 0 {
        assert files[1..][i - 1].name == n;
      }
    }
    forall n | n in Names(files[1..]) ensures n in Names(files) {
      var i :| 0 <= i < |files[1..]| && files[1..][i].name == n;
      assert files[i + 1].name == n;
    }
  }

  lemma NamesAppend(files: seq<FileEntry>, e: FileEntry)
    ensures Names(files + [e]) == Names(files) + {e.name}
  {
    var r := files + [e];
    forall n | n in Names(r) ensures n in Names(files) + {e.name} {
      var i :| 0 <= i < |r| && r[i].name == n;
      if i < |files| {
        assert files[i].name == n;
      }
    }
    forall n | n in Names(files) ensures n in Names(r) {
      var i :| 0 <= i < |files| && files[i].name == n;
      assert r[i].name == n;
    }
    assert r[|files|].name == e.name;
  }

  /** `files.find(f => f.name === name)`, as the index of the first match. */
  function Find(files: seq<FileEntry>, name: string): (r: Option<nat>)
    ensures r.Some? ==> r.value < |files| && files[r.value].name == name
    ensures r.Some? ==> forall j :: 0 <= j < r.value ==> files[j].name != name
    ensures r.None? <==> name !in Names(files)
  {
    if files == [] then None
    else
      NamesCons(files);
      if files[0].name == name then Some(0)
      else match Find(files[1..], name)
        case None => None
        case Some(k) => Some(k + 1)
  }

  /** In a list of distinct names, the entry at `i` is the one `Find` gives. */
  lemma FindUnique(files: seq<FileEntry>, i: nat)
    requires UniqueNames(files) && i < |files|
    ensures Find(files, files[i].name) == Some(i)
  {
  }

  /** Lists with the same names in the same places answer `Find` alike. */
  lemma {:induction false} FindSameNames(a: seq<FileEntry>, b: seq<FileEntry>, name: string)
    requires |a| == |b| && forall i :: 0 <= i < |a| ==> a[i].name == b[i].name
    ensures Find(a, name) == Find(b, name)
    decreases |a|
  {
    if a != [] {
      FindSameNames(a[1..], b[1..], name);
    }
  }

  lemma {:induction false} FindAppend(files: seq<FileEntry>, e: FileEntry, name: string)
    requires name != e.name
    ensures Find(files + [e], name) == Find(files, name)
    decreases |files|
  {
    if files != [] {
      assert (files + [e])[1..] == files[1..] + [e];
      FindAppend(files[1..], e, name);
    } else {
      assert files + [e] == [e];
    }
  }

  /** A name the manifest does not list is found at the end of the
      manifest with its entry appended. */
  lemma {:induction false} FindNewLast(files: seq<FileEntry>, e: FileEntry)
    requires e.name !in Names(files)
    ensures Find(files + [e], e.name) == Some(|files|)
    decreases |files|
  {
    if files != [] {
      NamesCons(files);
      assert (files + [e])[1..] == files[1..] + [e];
      FindNewLast(files[1..], e);
    } else {
      assert files + [e] == [e];
    }
  }

  /** The version of the named file, if the manifest lists it. */
  function VersionOf(files: seq<FileEntry>, name: string): (r: Option<nat>)
    ensures r.Some? <==> name in Names(files)
    ensures r.Some? ==> FileEntry(name, r.value) in files
  {
    match Find(files, name)
    case None => None
    case Some(i) => Some(files[i].version)
  }

  /** With distinct names, the version of a listed file is its entry's. */
  lemma VersionOfUnique(files: seq<FileEntry>, i: nat)
    requires UniqueNames(files) && i < |files|
    ensures VersionOf(files, files[i].name) == Some(files[i].version)
  {
    FindUnique(files, i);
  }

  /** The only file of a one-file manifest is at its entry's version. */
  lemma VersionOfSingle(e: FileEntry)
    ensures VersionOf([e], e.name) == Some(e.version)
  {
    assert Find([e], e.name) == Some(0);
  }

  /** The version clock: a new file starts at 1 whatever the action; an
      existing one moves on by exactly 1 on `Increment` and keeps its version
      on `Maintain`. */
  function NextVersion(current: Option<nat>, action: VersionAction): (v: nat)
    ensures v >= 1 || (current.Some? && current.value == 0)
    ensures current.None? ==> v == 1
    ensures current.Some? ==> v == if action == Increment then current.value + 1 else current.value
  {
    match current
    case None => 1
    case Some(version) => if action == Increment then version + 1 else version
  }
  /** Writing the one file of a one-file manifest moves its version clock
      and nothing else. */
  lemma WrittenSingle(e: FileEntry, action: VersionAction)
    ensures Written([e], e.name, action) == [FileEntry(e.name, NextVersion(Some(e.version), action))]
  {
    assert Find([e], e.name) == Some(0);
  }


  /** The manifest after writing `name`: an existing entry keeps its place and
      takes its next version, a new one is appended at version 1, and every
      other file keeps its version. */
  function Written(files: seq<FileEntry>, name: string, action: VersionAction): (r: seq<FileEntry>)
    ensures Names(r) == Names(files) + {name}
    ensures VersionOf(r, name) == Some(NextVersion(VersionOf(files, name), action))
    ensures forall other :: other != name ==> VersionOf(r, other) == VersionOf(files, other)
    ensures name !in Names(files) ==> r == files + [FileEntry(name, 1)]
    ensures name in Names(files) ==>
      |r| == |files| && forall i :: 0 <= i < |files| ==> r[i].name == files[i].name
    ensures UniqueNames(files) ==> UniqueNames(r)
    ensures PositiveVersions(files) ==> PositiveVersions(r)
  {
    match Find(files, name)
    case None =>
      var r := files + [FileEntry(name, 1)];
      NamesAppend(files, FileEntry(name, 1));
      FindNewLast(files, FileEntry(name, 1));
      forall other | other != name ensures VersionOf(r, other) == VersionOf(files, other) {
        FindAppend(files, FileEntry(name, 1), other);
      }
      assert r[|files|].name == name;
      r
    case Some(i) =>
      var e := FileEntry(name, NextVersion(Some(files[i].version), action));
      var r := files[i := e];
      FindSameNames(r, files, name);
      forall other | other != name ensures VersionOf(r, other) == VersionOf(files, other) {
        FindSameNames(r, files, other);
      }
      assert Names(r) == Names(files) by {
        forall n | n in Names(files) ensures n in Names(r) {
          var j :| 0 <= j < |files| && files[j].name == n;
          assert r[j].name == n;
        }
      }
      r
  }

  /** The manifest after removing `name`: the other entries in their order. */
  function Removed(files: seq<FileEntry>, name: string): (r: seq<FileEntry>)
    ensures Names(r) == Names(files) - {name}
    ensures |r| <= |files|
    ensures forall j :: 0 <= j < |r| ==> r[j] in files && r[j].name != name
    decreases |files|
  {
    if files == [] then []
    else
      var rest := Removed(files[1..], name);
      NamesCons(files);
      if files[0].name == name then rest
      else
        var r := [files[0]] + rest;
        NamesCons(r);
        assert r[1..] == rest;
        r
  }

  /** Removal keeps order: removing from two runs of entries is removing
      from each, one after the other. */
  lemma {:induction false} RemovedAppend(a: seq<FileEntry>, b: seq<FileEntry>, name: string)
    ensures Removed(a + b, name) == Removed(a, name) + Removed(b, name)
    decreases |a|
  {
    if a == [] {
      assert a + b == b;
    } else {
      assert (a + b)[0] == a[0];
      assert (a + b)[1..] == a[1..] + b;
      RemovedAppend(a[1..], b, name);
    }
  }

  /** A single entry is dropped when it has the name and kept otherwise. */
  lemma RemovedSingle(e: FileEntry, name: string)
    ensures Removed([e], name) == if e.name == name then [] else [e]
  {
  }

  /** Removing a file that is not listed changes nothing. */
  lemma {:induction false} RemovedAbsent(files: seq<FileEntry>, name: string)
    requires name !in Names(files)
    ensures Removed(files, name) == files
    decreases |files|
  {
    if files != [] {
      NamesCons(files);
      RemovedAbsent(files[1..], name);
    }
  }

  /** Removing one file leaves every other file at its version. */
  lemma {:induction false} RemovedKeepsVersions(files: seq<FileEntry>, name: string, other: string)
    requires other != name
    ensures VersionOf(Removed(files, name), other) == VersionOf(files, other)
    decreases |files|
  {
    if files != [] {
      RemovedKeepsVersions(files[1..], name, other);
      assert files == [files[0]] + files[1..];
      VersionOfCons(files[0], files[1..], other);
      if files[0].name != name {
        VersionOfCons(files[0], Removed(files[1..], name), other);
      }
    }
  }

  /** Removing keeps the names distinct and the versions positive. */
  lemma {:induction false} RemovedKeepsInvariant(files: seq<FileEntry>, name: string)
    requires UniqueNames(files) && PositiveVersions(files)
    ensures UniqueNames(Removed(files, name)) && PositiveVersions(Removed(files, name))
    decreases |files|
  {
    if files != [] {
      var rest := Removed(files[1..], name);
      RemovedKeepsInvariant(files[1..], name);
      NamesCons(files);
      if files[0].name != name {
        var r := [files[0]] + rest;
        assert r[1..] == rest;
        assert files[0].name !in Names(rest);
        forall i, j | 0 <= i < j < |r| ensures r[i].name != r[j].name {
          if i == 0 {
            assert r[j].name == rest[j - 1].name;
            assert rest[j - 1].name in Names(rest);
          } else {
            assert r[i] == rest[i - 1] && r[j] == rest[j - 1];
          }
        }
        forall i | 0 <= i < |r| ensures r[i].version >= 1 {
          if i > 0 {
            assert r[i] == rest[i - 1];
          }
        }
      }
    }
  }

  lemma VersionOfCons(head: FileEntry, rest: seq<FileEntry>, name: string)
    ensures VersionOf([head] + rest, name) == if head.name == name then Some(head.version) else VersionOf(rest, name)
  {
    assert ([head] + rest)[1..] == rest;
  }

  /** The version the entry point takes when the project is replaced by a new
      main file: one past its current version (the entry point is taken to be
      at version 1 when absent), so it never goes backwards. */
  function ReplacedMainVersion(files: seq<FileEntry>): (v: nat)
    ensures PositiveVersions(files) ==> v >= 2
    ensures VersionOf(files, MainFile).Some? ==> v == VersionOf(files, MainFile).value + 1
    ensures VersionOf(files, MainFile).None? ==> v == 2
  {
    match VersionOf(files, MainFile)
    case None => 2
    case Some(version) => version + 1
  }

  /** The number of bytes the listed files take. */
  function TotalSize(files: seq<FileEntry>, contents: map<string, Bytes>): nat {
    if files == [] then 0
    else (if files[0].name in contents then |contents[files[0].name]| else 0) + TotalSize(files[1..], contents)
  }

  /** The total covers every single listed file. */
  lemma {:induction false} TotalSizeCoversFile(files: seq<FileEntry>, contents: map<string, Bytes>, name: string)
    requires name in Names(files) && name in contents
    ensures TotalSize(files, contents) >= |contents[name]|
    decreases |files|
  {
    NamesCons(files);
    if files[0].name != name {
      TotalSizeCoversFile(files[1..], contents, name);
    }
  }
}
