/** The versioned project file system: a project id, a project name, the
    manifest of files with their versions, the bytes of each file and the log
    of "project updated" events that listeners receive. Only its observable
    behaviour is modelled; the MicroPython hex it eventually produces is
    reduced to the storage-capacity check and the download file name. */
module ProjectFs {
  import opened Wrappers
  import opened JsStrings
  import opened Manifest

  /** What a "project updated" event carries. */
  datatype Project = Project(id: nat, name: string, files: seq<FileEntry>)

  datatype FsError = FileNotFound(fileName: string) | StorageExceeded

  /** The text of the error a failed operation is rejected with. */
  function ErrorMessage(e: FsError): (m: string)
    ensures e.FileNotFound? ==> Contains(m, "No such file " + e.fileName)
    ensures e.StorageExceeded? ==> Contains(m, "There is no storage space left.")
  {
    match e
    case FileNotFound(fileName) =>
      var m := "No such file " + fileName;
      ContainsInside([], m, []);
      assert [] + m + [] == m;
      m
    case StorageExceeded =>
      var m := "There is no storage space left.";
      ContainsInside([], m, []);
      assert [] + m + [] == m;
      m
  }

  class FileSystem {
    var id: nat
    /** Stands in for the random generator of fresh project ids. */
    var nextId: nat
    var name: string
    var files: seq<FileEntry>
    var contents: map<string, Bytes>
    var events: seq<Project>
    var initialized: bool
    /** The bytes of file storage the device offers. */
    const capacity: nat
    /** The starter program an empty project is initialised with. */
    const defaultMainContent: Bytes

    /** Names are distinct, versions start at 1, exactly the listed files have
        contents, and no id handed out so far will be handed out again. */
    ghost predicate Valid()
      reads this
    {
      UniqueNames(files) && PositiveVersions(files) && Names(files) == contents.Keys && id < nextId
    }

    function Snapshot(): Project
      reads this
    {
      Project(id, name, files)
    }

    /** A fresh, blank project under the configured default name. */
    constructor (defaultProjectName: string, defaultMainContent: Bytes, capacity: nat)
      ensures Valid()
      ensures files == [] && contents == map[] && events == [] && !initialized
      ensures name == defaultProjectName
      ensures this.capacity == capacity && this.defaultMainContent == defaultMainContent
    {
      id := 0;
      nextId := 1;
      name := defaultProjectName;
      files := [];
      contents := map[];
      events := [];
      initialized := false;
      this.capacity := capacity;
      this.defaultMainContent := defaultMainContent;
    }

    /** Tells every listener about the current project. */
    method Notify()
      modifies this`events
      ensures events == old(events) + [Snapshot()]
    {
      events := events + [Snapshot()];
    }

    /** The first call gives an empty project its starter main file and then
        announces the project; later calls change nothing. */
    method Initialize()
      requires Valid()
      modifies this`files, this`contents, this`events, this`initialized
      ensures Valid() && initialized
      ensures old(initialized) ==>
        files == old(files) && contents == old(contents) && events == old(events)
      ensures !old(initialized) && MainFile !in old(contents) ==>
        files == old(files) + [FileEntry(MainFile, 1)] &&
        contents == old(contents)[MainFile := defaultMainContent] &&
        events == old(events) + [Snapshot(), Snapshot()]
      ensures !old(initialized) && MainFile in old(contents) ==>
        files == old(files) && contents == old(contents) && events == old(events) + [Snapshot()]
      ensures !old(initialized) ==> MainFile in contents
    {
      if initialized {
        return;
      }
      if MainFile !in contents {
        Write(MainFile, defaultMainContent, Increment);
      }
      initialized := true;
      Notify();
    }

    method Exists(fileName: string) returns (b: bool)
      ensures b <==> fileName in contents
    {
      b := fileName in contents;
    }

    /** The current bytes and version of a file; an absent file is an error
        naming it. */
    method Read(fileName: string) returns (r: Result<VersionedData, FsError>)
      requires Valid()
      ensures fileName in contents ==>
        VersionOf(files, fileName).Some? &&
        r == Success(VersionedData(VersionOf(files, fileName).value, contents[fileName]))
      ensures fileName !in contents ==> r == Failure(FileNotFound(fileName))
    {
      if fileName !in contents {
        return Failure(FileNotFound(fileName));
      }
      var version := VersionOf(files, fileName);
      r := Success(VersionedData(version.value, contents[fileName]));
    }

    /** Stores `data` under `fileName`, moves the version clock as `action`
        says and announces the project. */
    method Write(fileName: string, data: Bytes, action: VersionAction)
      requires Valid()
      modifies this`files, this`contents, this`events
      ensures Valid()
      ensures files == Written(old(files), fileName, action)
      ensures contents == old(contents)[fileName := data]
      ensures events == old(events) + [Snapshot()]
    {
      files := Written(files, fileName, action);
      contents := contents[fileName := data];
      Notify();
    }

    /** Deletes a file and announces the project; removing an absent file
        changes nothing. */
    method Remove(fileName: string)
      requires Valid()
      modifies this`files, this`contents, this`events
      ensures Valid()
      ensures old(fileName in contents) ==>
        files == Removed(old(files), fileName) &&
        contents == old(contents) - {fileName} &&
        events == old(events) + [Snapshot()]
      ensures old(fileName !in contents) ==>
        files == old(files) && contents == old(contents) && events == old(events)
    {
      if fileName in contents {
        RemovedKeepsInvariant(files, fileName);
        files := Removed(files, fileName);
        contents := contents - {fileName};
        Notify();
      }
    }

    method SetProjectName(projectName: string)
      requires Valid()
      modifies this`name, this`events
      ensures Valid()
      ensures name == projectName
      ensures events == old(events) + [Snapshot()]
    {
      name := projectName;
      Notify();
    }

    /** Starts a new project, under a new id and the given name, whose only
        file is the entry point holding `mainContent`. */
    method ReplaceWithMainContents(projectName: string, mainContent: Bytes)
      requires Valid()
      modifies this`id, this`nextId, this`name, this`files, this`contents, this`events
      ensures Valid()
      ensures id != old(id)
      ensures name == projectName
      ensures files == [FileEntry(MainFile, ReplacedMainVersion(old(files)))]
      ensures contents == map[MainFile := mainContent]
      ensures events == old(events) + [Snapshot()]
    {
      var version := ReplacedMainVersion(files);
      id := nextId;
      nextId := nextId + 1;
      name := projectName;
      files := [FileEntry(MainFile, version)];
      contents := map[MainFile := mainContent];
      assert Names(files) == {MainFile} by {
        NamesCons(files);
      }
      Notify();
    }

    /** The name of the download, once the files are known to fit. */
    method ToHexForDownload() returns (r: Result<string, FsError>)
      ensures TotalSize(files, contents) > capacity ==> r == Failure(StorageExceeded)
      ensures TotalSize(files, contents) <= capacity ==> r == Success(name + ".hex")
    {
      if TotalSize(files, contents) > capacity {
        return Failure(StorageExceeded);
      }
      r := Success(name + ".hex");
    }
  }

  /** A blank project has no files; initialising it adds the entry point at
      version 1, announced twice, after which the entry point exists and no
      other file does. */
  method InitializeScenario(projectName: string, mainContent: Bytes, capacity: nat)
    returns (filesBefore: seq<FileEntry>, filesAfter: seq<FileEntry>, events: seq<Project>,
             mainExists: bool, otherExists: bool)
    ensures filesBefore == [] && filesAfter == [FileEntry(MainFile, 1)]
    ensures |events| == 2 && events[0].files == filesAfter && events[1].files == filesAfter
    ensures mainExists && !otherExists
  {
    var fs := new FileSystem(projectName, mainContent, capacity);
    filesBefore := fs.files;
    fs.Initialize();
    filesAfter := fs.files;
    events := fs.events;
    mainExists := fs.Exists(MainFile);
    otherExists := fs.Exists("some other file");
  }

  /** The name starts at the default, follows every rename and survives
      initialisation. */
  method ProjectNameScenario(defaultProjectName: string, mainContent: Bytes, capacity: nat)
    returns (initial: string, renamed: string, afterInitialize: string, renamedAgain: string)
    ensures initial == defaultProjectName
    ensures renamed == "test 1" && afterInitialize == "test 1" && renamedAgain == "test 2"
  {
    var fs := new FileSystem(defaultProjectName, mainContent, capacity);
    initial := fs.name;
    fs.SetProjectName("test 1");
    renamed := fs.name;
    fs.Initialize();
    afterInitialize := fs.name;
    fs.SetProjectName("test 2");
    renamedAgain := fs.name;
  }

  /** Reads return the latest bytes; the version is 1 after the first write,
      stays 1 across a maintaining write and becomes 2 on the next
      incrementing one. */
  method ReadWriteScenario(projectName: string, mainContent: Bytes, capacity: nat,
                           content1: Bytes, content2: Bytes, content3: Bytes)
    returns (read1: Result<VersionedData, FsError>, files1: seq<FileEntry>,
             read2: Result<VersionedData, FsError>, files2: seq<FileEntry>,
             read3: Result<VersionedData, FsError>, files3: seq<FileEntry>)
    ensures read1 == Success(VersionedData(1, content1)) && files1 == [FileEntry(MainFile, 1)]
    ensures read2 == Success(VersionedData(1, content2)) && files2 == [FileEntry(MainFile, 1)]
    ensures read3 == Success(VersionedData(2, content3)) && files3 == [FileEntry(MainFile, 2)]
  {
    var fs := new FileSystem(projectName, mainContent, capacity);
    fs.Write(MainFile, content1, Increment);
    assert fs.files == [FileEntry(MainFile, 1)];
    VersionOfSingle(FileEntry(MainFile, 1));
    read1 := fs.Read(MainFile);
    files1 := fs.files;
    fs.Write(MainFile, content2, Maintain);
    assert fs.files == [FileEntry(MainFile, 1)] by {
      WrittenSingle(FileEntry(MainFile, 1), Maintain);
    }
    VersionOfSingle(FileEntry(MainFile, 1));
    read2 := fs.Read(MainFile);
    files2 := fs.files;
    fs.Write(MainFile, content3, Increment);
    assert fs.files == [FileEntry(MainFile, 2)] by {
      WrittenSingle(FileEntry(MainFile, 1), Increment);
    }
    VersionOfSingle(FileEntry(MainFile, 2));
    read3 := fs.Read(MainFile);
    files3 := fs.files;
  }

  /** Reading a file that was never written fails, naming the file. */
  method MissingFileScenario(projectName: string, mainContent: Bytes, capacity: nat)
    returns (r: Result<VersionedData, FsError>)
    ensures r.Failure? && Contains(ErrorMessage(r.error), "No such file non-existent file")
  {
    var fs := new FileSystem(projectName, mainContent, capacity);
    r := fs.Read("non-existent file");
    assert "No such file " + "non-existent file" == "No such file non-existent file";
  }

  /** After writing and then removing the entry point, the second event shows
      no files and the entry point no longer exists. */
  method RemoveScenario(projectName: string, mainContent: Bytes, capacity: nat, data: Bytes)
    returns (events: seq<Project>, mainExists: bool)
    ensures |events| == 2
    ensures events[0].files == [FileEntry(MainFile, 1)] && events[1].files == []
    ensures !mainExists
  {
    var fs := new FileSystem(projectName, mainContent, capacity);
    fs.Write(MainFile, data, Increment);
    fs.Remove(MainFile);
    events := fs.events;
    mainExists := fs.Exists(MainFile);
  }

  /** Replacing an initialised project with a Python file discards the other
      files, bumps the entry point to version 2 with the new content, renames
      the project and gives it a new id. */
  method ReplaceScenario(projectName: string, mainContent: Bytes, capacity: nat,
                         otherContent: Bytes, newContent: Bytes)
    returns (read: Result<VersionedData, FsError>, files: seq<FileEntry>, name: string, idChanged: bool)
    ensures read == Success(VersionedData(2, newContent))
    ensures files == [FileEntry(MainFile, 2)]
    ensures name == "new project name"
    ensures idChanged
  {
    var fs := new FileSystem(projectName, mainContent, capacity);
    fs.Initialize();
    fs.Write("other.txt", otherContent, Increment);
    assert fs.files == [FileEntry(MainFile, 1), FileEntry("other.txt", 1)];
    assert VersionOf(fs.files, MainFile) == Some(1);
    var originalId := fs.id;
    fs.ReplaceWithMainContents("new project name", newContent);
    read := fs.Read(MainFile);
    files := fs.files;
    name := fs.name;
    idChanged := fs.id != originalId;
  }

  /** 100,000 bytes of 128, the large file of the storage tests. */
  function LargeData(): (data: Bytes)
    ensures |data| == 100000
  {
    seq(100000, _ => 128)
  }

  /** Writing a file too large for the device is accepted, but the download
      is then refused for lack of space. */
  method LargeNewFileScenario(projectName: string, mainContent: Bytes, capacity: nat)
    returns (r: Result<string, FsError>)
    requires capacity < 100000
    ensures r == Failure(StorageExceeded)
    ensures Contains(ErrorMessage(r.error), "There is no storage space left.")
  {
    var fs := new FileSystem(projectName, mainContent, capacity);
    fs.Initialize();
    fs.Write("big.dat", LargeData(), Increment);
    assert "big.dat" in Names(fs.files);
    TotalSizeCoversFile(fs.files, fs.contents, "big.dat");
    r := fs.ToHexForDownload();
  }

  /** Growing the entry point beyond the device's storage is accepted, but the
      download is then refused for lack of space. */
  method GrowMainFileScenario(projectName: string, mainContent: Bytes, capacity: nat)
    returns (r: Result<string, FsError>)
    requires capacity < 100000
    ensures r == Failure(StorageExceeded)
  {
    var fs := new FileSystem(projectName, mainContent, capacity);
    fs.Initialize();
    fs.Write(MainFile, LargeData(), Maintain);
    TotalSizeCoversFile(fs.files, fs.contents, MainFile);
    r := fs.ToHexForDownload();
  }

  /** The download is named after the project. */
  method DownloadNameScenario(defaultProjectName: string, mainContent: Bytes, capacity: nat)
    returns (r: Result<string, FsError>)
    ensures r == Success("test project name.hex")
  {
    var fs := new FileSystem(defaultProjectName, mainContent, capacity);
    fs.SetProjectName("test project name");
    assert TotalSize(fs.files, fs.contents) == 0;
    r := fs.ToHexForDownload();
    assert fs.name + ".hex" == "test project name.hex";
  }
}
