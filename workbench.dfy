/** The workbench layout's decisions: which file the editor shows when the
    current selection is missing or stale, the key that makes the editor
    reload when the file's version moves, the sidebar's initial width and the
    serial pane's mode. */
module Workbench {
  import opened Wrappers
  import opened JsNumbers
  import opened Manifest

  datatype Location = Location(line: Option<int>)

  datatype Selection = Selection(file: string, location: Location)

  /** How a resizable pane is shown. */
  datatype SizedMode = Collapsed | Compact | Open

  /** The sidebar's minimum width and the editor's minimum width beside it. */
  const SidebarMinimums: (int, int) := (380, 580)

  /** The widest the sidebar starts out. */
  const SidebarInitialMaximum: int := 700

  /** Picking a file from the sidebar or the editor forgets the line. */
  function SelectFile(file: string): (s: Selection)
    ensures s.file == file && s.location.line.None?
  {
    Selection(file, Location(None))
  }

  /** The file a project opens on: the entry point when the project has one,
      otherwise its first file. */
  function DefaultFile(files: seq<FileEntry>): (f: string)
    requires files != []
    ensures f in Names(files)
    ensures MainFile in Names(files) ==> f == MainFile
    ensures MainFile !in Names(files) ==> f == files[0].name
  {
    match Find(files, MainFile)
    case Some(i) => files[i].name
    case None => files[0].name
  }

  /** The selection after the defaulting effect has run: a missing or stale
      selection in a project with files moves to its default file; otherwise
      the selection stays as it is. */
  function DefaultedSelection(selection: Option<Selection>, files: seq<FileEntry>): (r: Option<Selection>)
    ensures (selection.None? || selection.value.file !in Names(files)) && files != [] ==>
      r == Some(SelectFile(DefaultFile(files)))
    ensures (selection.Some? && selection.value.file in Names(files)) || files == [] ==> r == selection
  {
    if (selection.None? || Find(files, selection.value.file).None?) && |files| > 0 then
      Some(SelectFile(DefaultFile(files)))
    else
      selection
  }

  /** In a project with files, the defaulted selection names one of them. */
  lemma DefaultedSelectionIsMember(selection: Option<Selection>, files: seq<FileEntry>)
    requires files != []
    ensures DefaultedSelection(selection, files).Some?
    ensures DefaultedSelection(selection, files).value.file in Names(files)
  {
  }

  /** Defaulting twice is defaulting once: the effect settles after one run. */
  lemma DefaultedSelectionIdempotent(selection: Option<Selection>, files: seq<FileEntry>)
    ensures DefaultedSelection(DefaultedSelection(selection, files), files) == DefaultedSelection(selection, files)
  {
  }

  /** The version of the selected file, or `None` when it is not in the
      project. */
  function FileVersion(selection: Selection, files: seq<FileEntry>): (v: Option<nat>)
    ensures v.Some? <==> selection.file in Names(files)
    ensures v.Some? ==> exists i :: 0 <= i < |files| && files[i] == FileEntry(selection.file, v.value)
  {
    var v := VersionOf(files, selection.file);
    if v.Some? then
      assert files[Find(files, selection.file).value] == FileEntry(selection.file, v.value);
      v
    else v
  }

  /** The key the editor is mounted under, `file/version`; no editor is shown
      while the selected file has no version. */
  function EditorKey(selection: Option<Selection>, files: seq<FileEntry>): (key: Option<string>)
    ensures key.Some? <==> selection.Some? && selection.value.file in Names(files)
  {
    if selection.None? then None
    else match FileVersion(selection.value, files)
      case None => None
      case Some(version) => Some(selection.value.file + "/" + NatToString(version))
  }

  /** A different version of the selected file gives a different key, so the
      editor is remounted on the new content. */
  lemma EditorKeyTracksVersion(selection: Selection, files1: seq<FileEntry>, files2: seq<FileEntry>)
    requires FileVersion(selection, files1).Some? && FileVersion(selection, files2).Some?
    requires FileVersion(selection, files1) != FileVersion(selection, files2)
    ensures EditorKey(Some(selection), files1) != EditorKey(Some(selection), files2)
  {
    var prefix := selection.file + "/";
    var v1 := FileVersion(selection, files1).value;
    var v2 := FileVersion(selection, files2).value;
    var d1 := NatToString(v1);
    var d2 := NatToString(v2);
    DigitsValueOfNatToString(v1);
    DigitsValueOfNatToString(v2);
    assert d1 != d2;
    assert (prefix + d1)[|prefix|..] == d1;
    assert (prefix + d2)[|prefix|..] == d2;
  }

  /** An incrementing write of the open file remounts the editor; a
      maintaining write leaves the key, and so the editor, in place. */
  lemma WriteOfSelectedFile(selection: Selection, files: seq<FileEntry>, action: VersionAction)
    requires selection.file in Names(files)
    ensures action == Increment ==>
      EditorKey(Some(selection), Written(files, selection.file, action)) != EditorKey(Some(selection), files)
    ensures action == Maintain ==>
      EditorKey(Some(selection), Written(files, selection.file, action)) == EditorKey(Some(selection), files)
  {
    if action == Increment {
      EditorKeyTracksVersion(selection, Written(files, selection.file, action), files);
    }
  }

  /** The sidebar's first width: the proposed width (a fraction of the
      window's) clamped between the sidebar minimum and 700. */
  function InitialSidebarSize(proposed: int): (size: int)
    ensures SidebarMinimums.0 <= size <= SidebarInitialMaximum
    ensures SidebarMinimums.0 <= proposed <= SidebarInitialMaximum ==> size == proposed
    ensures proposed < SidebarMinimums.0 ==> size == SidebarMinimums.0
    ensures proposed > SidebarInitialMaximum ==> size == SidebarInitialMaximum
  {
    var atLeast := if proposed > SidebarMinimums.0 then proposed else SidebarMinimums.0;
    if atLeast < SidebarInitialMaximum then atLeast else SidebarInitialMaximum
  }

  /** The serial pane is collapsed while no device is connected, and
      otherwise keeps the mode the user last left it in. */
  function SerialSizedMode(connected: bool, stateWhenOpen: SizedMode): (mode: SizedMode)
    ensures !connected ==> mode == Collapsed
    ensures connected ==> mode == stateWhenOpen
  {
    if connected then stateWhenOpen else Collapsed
  }
}
