# python-editor-v3 core, modelled in Dafny

This project models the logic at the heart of the micro:bit Python editor
(python-editor-v3). It covers six parts.

- **The project file system** (`fs.dfy`, `fs_manifest.dfy`). This is a state
  machine for one project. It holds:
  - an id and a name;
  - the manifest, an ordered list of `{name, version}`;
  - the bytes of each file;
  - the log of "project updated" events that listeners receive.

  `initialize`, `exists`, `read`, `write` (with `INCREMENT` or `MAINTAIN` of
  the per-file version clock), `remove`, `setProjectName`,
  `replaceWithMainContents` and the capacity check and file name of
  `toHexForDownload` are methods of a class. Each scenario of the file
  system's test suite is a method whose `ensures` clauses are that test's
  expectations.
- **The interaction panel's argument editing** (`interaction_area.dfy`,
  `image_argument.dfy`, `sound_argument.dfy`). It covers:
  - the qualified name of the call on the cursor's line;
  - the order in which its signature is looked up;
  - the change handler that writes one edited argument back;
  - the `Image("…")` serialiser and its parser `image2array`, which form a
    round trip;
  - the pixel menu and reset of the image editor;
  - `parseSound` and the `audio.SoundEffect(…)` serialiser, which form a
    round trip;
  - the sound editor's field update.
- **The typeshed stub parser** (`typeshed_table.dfy`). `typeshedJsonToMap`
  cuts every `.pyi` file at `def `. It derives the module name from the path
  and reads each definition's name, return type and `label:type[=default]`
  parameters. The result is a table keyed `module.function`, in which a later
  definition replaces an earlier one.
- **Line-to-call extraction in the editor** (`react_widget.dfy`). It covers:
  - `line2LineInfo` over syntax nodes `(type, from, to, text, children)`;
  - the argument-list replacement edit;
  - the statement's indent;
  - the `currentLine` scan over the cursor's node stack;
  - the decorations of an empty selection;
  - the program text that the preview simulator runs, and the filter on
    which modules get a preview.
- **The workbench** (`workbench.dfy`). It covers:
  - the rule that defaults the selected file to `main.py` or to the first
    file;
  - the file version that keys the editor;
  - the clamp on the sidebar's initial width;
  - the serial pane's mode.
- **Toolkit snippets** (`topic_item.dfy`). It covers:
  - the multi-line regular expression that blanks import lines;
  - the trim;
  - the line count;
  - which buttons and texts a topic item shows.

Two support modules model the JavaScript built-ins the code relies on:
- `js_strings.dfy`: `trim`, `indexOf`, `split`, `join`, `replace`,
  `replaceAll`, `slice` and ASCII lower-casing;
- `js_numbers.dfy`: `Number(…)` on integer text and the decimal `toString`.

`wrappers.dfy` holds `Option` and `Result`.

The file system's implementation (`src/fs/fs.ts`, `storage.ts`) is not part
of this model. The class is pinned down by `src/fs/fs.test.ts`, and its
rows below cite the tests that fix each behaviour.

## Model

| member | source | states |
|---|---|---|
| ProjectFs.ErrorMessage | src/fs/fs.test.ts:102-106 | a missing-file error's text contains "No such file <name>"; a storage error's contains "There is no storage space left." |
| ProjectFs.FileSystem.constructor | src/fs/fs.test.ts:47-49 | a new file system has no files, no contents and no events, and is named after the configured default |
| ProjectFs.FileSystem.Notify | src/fs/fs.test.ts:44 | a listener receives exactly one snapshot of the current project, appended to the event log |
| ProjectFs.FileSystem.Initialize | src/fs/fs.test.ts:47-71 | the first call on a blank project adds `main.py` at version 1 and announces the project twice; if `main.py` exists it announces once; later calls change nothing; the invariant (unique names, positive versions, manifest = content keys) is kept |
| ProjectFs.FileSystem.Exists | src/fs/fs.test.ts:66-71 | true exactly for names that have contents |
| ProjectFs.FileSystem.Read | src/fs/fs.test.ts:85-106 | an existing file reads as its manifest version and latest bytes; an absent one fails with a not-found error naming it |
| ProjectFs.FileSystem.Write | src/fs/fs.test.ts:85-100 | the bytes are replaced; the manifest moves the version clock as the action says and leaves every other file's version; one event; the invariant is kept |
| ProjectFs.FileSystem.Remove | src/fs/fs.test.ts:108-116 | a present file leaves both manifest and contents, with one event; an absent name changes nothing |
| ProjectFs.FileSystem.SetProjectName | src/fs/fs.test.ts:73-83 | the name becomes the given one, with one event |
| ProjectFs.FileSystem.ReplaceWithMainContents | src/fs/fs.test.ts:118-135 | the project gets a fresh id and the given name; its only file is `main.py` with the given bytes, at one past its old version |
| ProjectFs.FileSystem.ToHexForDownload | src/fs/fs.test.ts:156-186 | fails with the storage error exactly when the files exceed capacity, else names the download `<project name>.hex` |
| ProjectFs.InitializeScenario | src/fs/fs.test.ts:47-71 | a blank project has no files; after `initialize` the files are `[main.py@1]`, both events show that, `main.py` exists and another name does not |
| ProjectFs.ProjectNameScenario | src/fs/fs.test.ts:73-83 | the name starts at the default, follows each rename and survives `initialize` |
| ProjectFs.ReadWriteScenario | src/fs/fs.test.ts:85-100 | after INCREMENT, MAINTAIN, INCREMENT writes, reads give the latest bytes at versions 1, 1, 2 |
| ProjectFs.MissingFileScenario | src/fs/fs.test.ts:102-106 | reading "non-existent file" fails with "No such file non-existent file" |
| ProjectFs.RemoveScenario | src/fs/fs.test.ts:108-116 | the write's event shows `[main.py@1]`, the removal's shows no files, and `main.py` no longer exists |
| ProjectFs.ReplaceScenario | src/fs/fs.test.ts:118-135 | after replacing an initialised project, `main.py` reads the new content at version 2, it is the only file, the name is the new one and the id changed |
| ProjectFs.LargeData | src/fs/fs.test.ts:158-159 | the large test file is 100,000 bytes long |
| ProjectFs.LargeNewFileScenario | src/fs/fs.test.ts:156-166 | writing a new 100,000-byte file succeeds, but the download then fails for lack of storage |
| ProjectFs.GrowMainFileScenario | src/fs/fs.test.ts:168-178 | growing `main.py` to 100,000 bytes with MAINTAIN succeeds, but the download then fails for lack of storage |
| ProjectFs.DownloadNameScenario | src/fs/fs.test.ts:180-186 | after renaming to "test project name" the download is "test project name.hex" |
| Manifest.Find | src/fs/fs.test.ts:85-100 | the index found holds the name and no earlier entry does; none exactly when the name is absent |
| Manifest.VersionOf | src/fs/fs.test.ts:85-100 | a version exists exactly for the listed names, and the listed file holds an entry with that name at that version |
| Manifest.VersionOfUnique | src/fs/fs.test.ts:85-100 | when names are distinct, the version read for a listed file is the version of its entry |
| Manifest.VersionOfSingle | src/fs/fs.test.ts:85-100 | a manifest with one entry reads back that entry's version under its name |
| Manifest.NextVersion | src/fs/fs.test.ts:85-100 | a new file starts at 1; INCREMENT adds exactly 1; MAINTAIN keeps the version |
| Manifest.Written | src/fs/fs.test.ts:85-100 | the names gain the written one; its version follows the clock; every other version is unchanged; a new file is appended at version 1 and an existing one keeps its place |
| Manifest.WrittenSingle | src/fs/fs.test.ts:91-99 | rewriting the only file keeps it the only entry, at the clock's next version |
| Manifest.Removed | src/fs/fs.test.ts:108-116 | the names lose exactly the removed one; every entry left is an entry of the old manifest under another name |
| Manifest.RemovedAppend | src/fs/fs.test.ts:108-116 | removal keeps order: removing from two runs of entries is removing from each in turn |
| Manifest.RemovedSingle | src/fs/fs.test.ts:108-116 | a single entry is dropped when it has the removed name and kept otherwise |
| Manifest.RemovedAbsent | src/fs/fs.test.ts:108-116 | removing an absent name leaves the manifest as it was |
| Manifest.RemovedKeepsVersions | src/fs/fs.test.ts:108-116 | removal leaves every other file's version unchanged |
| Manifest.RemovedKeepsInvariant | src/fs/fs.test.ts:108-116 | removal keeps names unique and versions positive |
| Manifest.ReplacedMainVersion | src/fs/fs.test.ts:132 | the replaced `main.py` is one past its old version (2 when it was absent); with positive versions it is at least 2, the tested value |
| Manifest.TotalSizeCoversFile | src/fs/fs.test.ts:156-178 | the total size counts at least the size of every listed file, so one over-large file exceeds any smaller capacity |
| Manifest.FindUnique | src/fs/fs.test.ts:85-100 | with unique names, looking up entry `i`'s name finds `i` |
| Workbench.SelectFile | src/workbench/Workbench.tsx:36-41 | selecting a file names it and forgets the line |
| Workbench.DefaultFile | src/workbench/Workbench.tsx:48 | the default is `main.py` when listed, otherwise the first file, and always a listed file |
| Workbench.DefaultedSelection | src/workbench/Workbench.tsx:42-51 | a missing or stale selection becomes the default file when there are files; a valid selection, or an empty file list, leaves it unchanged |
| Workbench.DefaultedSelectionIsMember | src/workbench/Workbench.tsx:42-51 | with at least one file, the defaulted selection names a listed file |
| Workbench.DefaultedSelectionIdempotent | src/workbench/Workbench.tsx:42-51 | defaulting twice is defaulting once, so the effect settles |
| Workbench.FileVersion | src/workbench/Workbench.tsx:53 | a version exists exactly when the selected file is listed, and it is that file's manifest entry |
| Workbench.EditorKey | src/workbench/Workbench.tsx:111-113 | the editor is keyed exactly when the selection names a listed file |
| Workbench.EditorKeyTracksVersion | src/workbench/Workbench.tsx:111-113 | two different versions of the selected file give different editor keys |
| Workbench.WriteOfSelectedFile | src/workbench/Workbench.tsx:111-113 | an INCREMENT write of the selected file changes the editor key; a MAINTAIN write keeps it |
| Workbench.InitialSidebarSize | src/workbench/Workbench.tsx:60-65 | the initial width lies in [380, 700], is the proposed width when that is in range, and the nearer bound otherwise |
| Workbench.SerialSizedMode | src/workbench/Workbench.tsx:58 | the serial pane is collapsed whenever disconnected, and in its remembered mode when connected |
| TopicItem.LineLength | src/documentation/ToolkitDocumentation/TopicItem.tsx:41 | `.*$` runs to the first line terminator or the end |
| TopicItem.ImportMatchEnd | src/documentation/ToolkitDocumentation/TopicItem.tsx:41 | a match of the import pattern is non-empty and ends at a line end |
| TopicItem.StripFromShrinks | src/documentation/ToolkitDocumentation/TopicItem.tsx:41 | the replacement only deletes characters |
| TopicItem.StripFrom | src/documentation/ToolkitDocumentation/TopicItem.tsx:41 | the multiline `replace` from a position, deleting each import-line match that starts a line; StripFromShrinks and StripJoinedLines carry its properties |
| TopicItem.StripImports | src/documentation/ToolkitDocumentation/TopicItem.tsx:41 | the `replace` over the whole code, which starts at a line start; StripOneLine, StripJoinedLines and LeadingImportLineDropped give its result |
| TopicItem.Blanked | src/documentation/ToolkitDocumentation/TopicItem.tsx:41 | every import line is emptied and every other line kept, position by position |
| TopicItem.StripOneLine | src/documentation/ToolkitDocumentation/TopicItem.tsx:41 | a non-blank line at a line start is removed if it is an import line and kept otherwise |
| TopicItem.StripJoinedLines | src/documentation/ToolkitDocumentation/TopicItem.tsx:41 | on lines joined by `\n`, the replacement empties exactly the import lines and keeps the others in order |
| TopicItem.LeadingImportLineDropped | src/documentation/ToolkitDocumentation/TopicItem.tsx:41 | a leading import line disappears, leaving the rest of the text |
| TopicItem.DisplayedCode | src/documentation/ToolkitDocumentation/TopicItem.tsx:41 | the displayed code has no whitespace at either end, is its own trim, and only drops characters of the original |
| TopicItem.DisplayedJoinedLines | src/documentation/ToolkitDocumentation/TopicItem.tsx:41 | for code made of plain lines, the displayed code is those lines with the import lines emptied, trimmed |
| TopicItem.LineCount | src/documentation/ToolkitDocumentation/TopicItem.tsx:43 | the line count is one more than the displayed code's line breaks, so at least 1 |
| TopicItem.Render | src/documentation/ToolkitDocumentation/TopicItem.tsx:41-86 | the item shows the stripped code and its line count; "Insert code" inserts the original code; "More" appears exactly outside the detail view with further text; the further text is shown exactly in the detail view |
| TopicItem.MoreButtonLeadsToFurtherText | src/documentation/ToolkitDocumentation/TopicItem.tsx:83-86 | "More" and the further text never show together, and "More" leads to a detail view that shows non-empty further text |
| TypeshedTable.ModuleName | src/editor/TypeshedTable.tsx:24 | the module name has no `/` |
| TypeshedTable.ModuleNameOfStubPath | src/editor/TypeshedTable.tsx:24 | the stub at `/typeshed/a/b/c.pyi` gives module `a.b.c` |
| TypeshedTable.FunctionName | src/editor/TypeshedTable.tsx:31 | the function name is the trimmed text before the first `(` (all of the chunk without one), and so contains no `(` |
| TypeshedTable.ParameterText | src/editor/TypeshedTable.tsx:40 | fails exactly when the head has no `(`; otherwise it is the text after the first `(`, cut at the next `(` and then at the next `)`, with every line break and space taken out |
| TypeshedTable.ParameterOf | src/editor/TypeshedTable.tsx:49-62 | a piece is a parameter exactly when it contains `:`; the label is the text before the first `:`; the type holds no `=`; there is a default exactly when the type part contains `=` |
| TypeshedTable.ParameterRoundTrip | src/editor/TypeshedTable.tsx:49-62 | `label:type` and `label:type=default` read back as that parameter, with a null or the given default |
| TypeshedTable.Parameters | src/editor/TypeshedTable.tsx:46-65 | there are at most as many parameters as comma pieces |
| TypeshedTable.ParametersSingle | src/editor/TypeshedTable.tsx:49-62 | one piece gives its parameter when it has a `:`, and nothing otherwise |
| TypeshedTable.ParametersOfParameterPieces | src/editor/TypeshedTable.tsx:46-65 | when every piece has a `:`, piece `k` gives parameter `k` |
| TypeshedTable.ParametersAppend | src/editor/TypeshedTable.tsx:47-65 | the parameters of concatenated pieces are concatenated, so source order is kept |
| TypeshedTable.ParametersOfLabelsOnly | src/editor/TypeshedTable.tsx:49 | pieces without `:` (such as `self`) give no parameters |
| TypeshedTable.ParseParameters | src/editor/TypeshedTable.tsx:46-65 | the pushed list is Parameters of the comma pieces: one parameter per piece with a `:`, in order |
| TypeshedTable.ParsePair | src/editor/TypeshedTable.tsx:49-62 | one loop step pushes the piece's parameter, if it has one |
| TypeshedTable.DefEntry | src/editor/TypeshedTable.tsx:30-71 | without `->` no entry; with `->` it fails exactly when the head lacks `(`, and otherwise gives an entry exactly when the parameter text mentions neither `Tuple` nor `Union`; an entry holds FunctionName's name, the trimmed return type up to `:`, and the parameters of the parameter text |
| TypeshedTable.DefEntryRoundTrip | src/editor/TypeshedTable.tsx:30-71 | a definition written as `name(l:t[=d],…)->ret:body`, with no separators inside its parts and no `Tuple` or `Union`, reads back as that name, those parameters in order and that return type |
| TypeshedTable.ComplexTypesSkipped | src/editor/TypeshedTable.tsx:45 | a definition whose parameters mention `Tuple` or `Union` gives no entry |
| TypeshedTable.AddChunksFailureStays | src/editor/TypeshedTable.tsx:28-72 | once a definition fails, the module's table fails with that error |
| TypeshedTable.TypeshedInfoFailureStays | src/editor/TypeshedTable.tsx:22-74 | once a file fails, the whole table fails with that error |
| TypeshedTable.TextWithoutDefsAddsNothing | src/editor/TypeshedTable.tsx:26-28 | a stub without `def ` adds nothing to the table |
| TypeshedTable.PreambleIgnored | src/editor/TypeshedTable.tsx:26-28 | the text before the first `def ` is never parsed as a definition |
| TypeshedTable.LastDefinitionWins | src/editor/TypeshedTable.tsx:71 | a definition's signature sits under `module.name` unless a later definition takes that key |
| TypeshedTable.Key | src/editor/TypeshedTable.tsx:71 | the table key `module.name`; LastDefinitionWins and ParsedBuiltinIsFound read entries back under it |
| TypeshedTable.Definitions | src/editor/TypeshedTable.tsx:26-28 | the pieces of a stub after each `def `, without the preamble; PreambleIgnored and TextWithoutDefsAddsNothing state what is dropped |
| TypeshedTable.AddChunks | src/editor/TypeshedTable.tsx:28-71 | the inner loop as a fold over one module's definitions; AddChunksStep, AddChunksNext, AddChunksFailureStays and LastDefinitionWins carry its properties |
| TypeshedTable.TypeshedInfoOf | src/editor/TypeshedTable.tsx:20-73 | the outer loop as a fold over the stub files in order; TypeshedInfoFailureStays and TypeshedJsonToMap carry its properties |
| TypeshedTable.AddChunksStep | src/editor/TypeshedTable.tsx:66-71 | a successful table is the table of all but the last definition, with the last one's entry stored under its key |
| TypeshedTable.AddChunksNext | src/editor/TypeshedTable.tsx:30-71 | one more definition fails the table, leaves it, or stores its signature under `module.name` |
| TypeshedTable.TypeshedJsonToMap | src/editor/TypeshedTable.tsx:20-77 | the outer loop builds the table of all files, or the first error |
| TypeshedTable.AddDefinitions | src/editor/TypeshedTable.tsx:26-73 | the inner loop adds every definition after the preamble, in order, or stops at the first error |
| TypeshedTable.ParseDefinition | src/editor/TypeshedTable.tsx:30-71 | the loop body computes DefEntry: the error, no entry, or the entry under the conditions DefEntry states |
| InteractionArea.QualifiedName | src/documentation/InteractionArea.tsx:51-53 | with a module the name starts `module.`; it always ends with the call's name; without a module it is that name |
| InteractionArea.QualifiedNameSplits | src/documentation/InteractionArea.tsx:51-53 | splitting the qualified name at `.` gives back module and name |
| InteractionArea.LookupSignature | src/documentation/InteractionArea.tsx:54-70 | the `stdlib.builtins` entry wins, then the `stdlib.microbit` entry; otherwise the signature is inferred with return type `any` |
| InteractionArea.InferredOnlyWhenMissing | src/documentation/InteractionArea.tsx:63-70 | the inferred signature is used exactly when neither entry exists; otherwise the inferred parameters play no part |
| InteractionArea.ParsedBuiltinIsFound | src/documentation/InteractionArea.tsx:54-61 | a builtins definition that no later one overrides is the signature its calls are edited against |
| InteractionArea.ChangedArguments | src/documentation/InteractionArea.tsx:73-74 | the copy has the same length, the new text at `i`, and every other argument unchanged |
| InteractionArea.ChangedArgumentsUnique | src/documentation/InteractionArea.tsx:73-74 | any list differing from the arguments only at `i`, where it holds the new text, is the changed copy |
| InteractionArea.ChangeUndone | src/documentation/InteractionArea.tsx:72-77 | writing the old text back restores the arguments; a second change of `i` replaces the first |
| InteractionArea.OnChange | src/documentation/InteractionArea.tsx:72-77 | the edit replaces the argument-list range with the changed arguments, joined by `, ` in parentheses |
| InteractionArea.OnChangeRewritesOneArgument | src/documentation/InteractionArea.tsx:72-77 | after the edit, text outside the argument list is unchanged, the list holds the changed arguments, and a slider's number reads back as itself |
| ImageArgument.Zeros | src/documentation/InteractionArea.tsx:321 | the reset picture is 25 pixels, all 0 |
| ImageArgument.Rows | src/documentation/InteractionArea.tsx:118-119 | there are five rows, row `r` being pixels `5r..5r+5` joined |
| ImageArgument.ImageString | src/documentation/InteractionArea.tsx:118-119 | the literal `Image("r0:r1:r2:r3:r4")` from the five rows; ImageRoundTrip proves `image2array` reads it back as the pixels |
| ImageArgument.LiteralBody | src/documentation/InteractionArea.tsx:389-398 | a literal `Image("…")` does not start with `Image.`, and `slice(7,-2)` gives exactly its body |
| ImageArgument.RowsOfDigits | src/documentation/InteractionArea.tsx:118-119 | for a 25-digit picture, each row is five digit characters without `:` |
| ImageArgument.CharNumbers | src/documentation/InteractionArea.tsx:398 | each character becomes `Number` of itself, position by position |
| ImageArgument.Image2Array | src/documentation/InteractionArea.tsx:388-400 | `Image.X` gives a copy of built-in picture `x` or 25 zeros; a literal gives one pixel per non-`:` character between `Image("` and `")` |
| ImageArgument.FlatCharNumbersLength | src/documentation/InteractionArea.tsx:398 | split, flatMap and map give one pixel per non-`:` character |
| ImageArgument.ImageRoundTrip | src/documentation/InteractionArea.tsx:395-399 | `image2array` of the `Image("…")` literal of any 25 digits 0..9 gives those digits back |
| ImageArgument.SetPixel | src/documentation/InteractionArea.tsx:314 | only `values[index]` changes; an index past the end grows the array with holes |
| ImageArgument.EditedImageRoundTrip | src/documentation/InteractionArea.tsx:311-317 | after a menu choice on a well-formed picture, the written literal reads back as the edited picture |
| ImageArgument.ZeroRows | src/documentation/InteractionArea.tsx:319-322 | the reset picture's rows are five `00000` |
| ImageArgument.ImageEditor.constructor | src/documentation/InteractionArea.tsx:307 | the editor holds the array it was given |
| ImageArgument.ImageEditor.HandleMenuClick | src/documentation/InteractionArea.tsx:311-317 | the array changes in place at `index` only, and its literal is handed on |
| ImageArgument.ImageEditor.HandleReset | src/documentation/InteractionArea.tsx:319-322 | the literal handed on reads back as 25 zeros |
| SoundArgument.EnumFieldsAreQualified | src/documentation/InteractionArea.tsx:128 | the fields parsed as enumeration names are exactly the fields the serialiser qualifies |
| SoundArgument.FindField | src/documentation/InteractionArea.tsx:447 | the position found holds the key and no earlier one does; none when the key is absent |
| SoundArgument.Lookup | src/documentation/InteractionArea.tsx:447 | a value exists exactly for the record's keys, and the record holds a field with that key and that value |
| SoundArgument.LookupOfDistinct | src/documentation/InteractionArea.tsx:447 | when keys are distinct, the value read for a field's key is that field's value |
| SoundArgument.SetField | src/documentation/InteractionArea.tsx:447 | the key reads as the new value; other keys are unchanged; a new key is appended and an existing one keeps its place |
| SoundArgument.Extract | src/documentation/InteractionArea.tsx:435 | the result is a suffix of the text that starts it or follows a `.`, and holds no `.`: the text after the last `.` |
| SoundArgument.ArgEntry | src/documentation/InteractionArea.tsx:444-447 | an argument counts exactly when it contains `=`; the key is the text before the first `=`; with `val` the text from there to the next `=`, `fx`, `waveform` and `shape` hold `Extract(val)` and every other key `Number(val)` |
| SoundArgument.TrimAll | src/documentation/InteractionArea.tsx:442 | every argument is trimmed, in place |
| SoundArgument.AssignedWellTyped | src/documentation/InteractionArea.tsx:443-449 | assigning arguments keeps keys distinct and value kinds right |
| SoundArgument.SoundOf | src/documentation/InteractionArea.tsx:434-451 | text without `SoundEffect(` gives the empty record; every result is well typed |
| SoundArgument.ParseSound | src/documentation/InteractionArea.tsx:434-451 | the method computes that record |
| SoundArgument.AssignArguments | src/documentation/InteractionArea.tsx:443-449 | the loop assigns the arguments in order to the empty record |
| SoundArgument.AssignedKeys | src/documentation/InteractionArea.tsx:443-449 | the record's keys are exactly the keys of the `key=value` arguments |
| SoundArgument.LastArgumentWins | src/documentation/InteractionArea.tsx:447 | the last assignment of a key decides its value |
| SoundArgument.EntryTexts | src/documentation/InteractionArea.tsx:126-133 | one `key=value` text per field, in field order |
| SoundArgument.EntryText | src/documentation/InteractionArea.tsx:126-133 | one field as `key=value`, with the value qualified by `audio.SoundEffect.` for `fx`, `shape` and `waveform`; EntryRoundTrip proves ArgEntry reads it back |
| SoundArgument.SoundText | src/documentation/InteractionArea.tsx:126-135 | the call `audio.SoundEffect(…)` with the field texts joined by `, `; SoundRoundTrip proves parseSound reads it back as the record |
| SoundArgument.EntryRoundTrip | src/documentation/InteractionArea.tsx:126-133 | a written field, qualified or not, reads back as itself |
| SoundArgument.AssignedEntries | src/documentation/InteractionArea.tsx:443-449 | assigning the written fields, in order, to the empty record rebuilds the record |
| SoundArgument.SoundEffectFound | src/documentation/InteractionArea.tsx:440-442 | the parser finds `SoundEffect(` in the written call and slices out exactly its argument text |
| SoundArgument.SoundRoundTrip | src/documentation/InteractionArea.tsx:126-135 | `parseSound` of the written `audio.SoundEffect(…)` gives the record back |
| SoundArgument.SoundEditor.constructor | src/documentation/InteractionArea.tsx:215 | the editor holds the record it was given |
| SoundArgument.SoundEditor.OnChange | src/documentation/InteractionArea.tsx:217-221 | the field is set in place and the record's call text is handed on |
| SoundArgument.EditedSoundRoundTrip | src/documentation/InteractionArea.tsx:217-221 | after a field edit, the written call parses back as the edited record |
| ReactWidget.ShowsPreview | src/editor/codemirror/reactWidgetExtension.tsx:118 | a preview renders exactly for a module among display, music, speech and audio |
| ReactWidget.PreviewProgram | src/editor/codemirror/reactWidgetExtension.tsx:40-53 | the accumulated program is the microbit import, then the module's guarded import when there is a module, then the call |
| ReactWidget.PreviewProgramShape | src/editor/codemirror/reactWidgetExtension.tsx:40-53 | the program starts with `from microbit import *`, ends with the call, imports a present module, and is just import plus call otherwise |
| ReactWidget.ArgumentTexts | src/editor/codemirror/reactWidgetExtension.tsx:156-166 | no more arguments than siblings |
| ReactWidget.ArgumentTextsAppend | src/editor/codemirror/reactWidgetExtension.tsx:159-166 | arguments of concatenated siblings are concatenated, so order is kept |
| ReactWidget.ArgumentTextsAreArguments | src/editor/codemirror/reactWidgetExtension.tsx:156-166 | every argument is the text of a non-punctuation sibling, and there is one per such sibling |
| ReactWidget.CollectArguments | src/editor/codemirror/reactWidgetExtension.tsx:153-166 | the loop collects the texts of the argument list's children after the first, punctuation excluded |
| ReactWidget.LineStart | src/editor/codemirror/reactWidgetExtension.tsx:196 | the start of the document line: after a line break or at 0, with none before the position |
| ReactWidget.LineEnd | src/editor/codemirror/reactWidgetExtension.tsx:262 | the end of the document line: at a line break or the end, with none after the position |
| ReactWidget.LineInfoOf | src/editor/codemirror/reactWidgetExtension.tsx:139-199 | info exists exactly for an expression statement whose first child is a call; it carries the argument-list range, the argument texts, the indent `from - LineStart(from)` (no line break in it), the module and name from a member-expression callee's first and last children, and otherwise no module and the callee's text as name |
| ReactWidget.LineToLineInfo | src/editor/codemirror/reactWidgetExtension.tsx:134-200 | the method computes LineInfoOf: the same module, name, arguments, indent and argument-list range |
| ReactWidget.ArgumentUpdate | src/editor/codemirror/reactWidgetExtension.tsx:170-187 | the edit covers exactly the argument list and inserts the arguments joined by `, ` in parentheses |
| ReactWidget.ApplyChange | src/editor/codemirror/reactWidgetExtension.tsx:177-182 | the document's length changes by the inserted length minus the replaced length |
| ReactWidget.ArgumentUpdateOnlyTouchesArgList | src/editor/codemirror/reactWidgetExtension.tsx:177-182 | text before and after the argument list is unchanged, and the list becomes the new arguments |
| ReactWidget.ScanDown | src/editor/codemirror/reactWidgetExtension.tsx:261-270 | the scan yields a node of the stack |
| ReactWidget.CurrentLineIndex | src/editor/codemirror/reactWidgetExtension.tsx:259-270 | the chosen node is below every node that encloses the line; index 0 only for a one-node stack; a non-enclosing choice above 1 sits just above an enclosing node |
| ReactWidget.ScanDownCharacterised | src/editor/codemirror/reactWidgetExtension.tsx:261-270 | from any index below which no node encloses the line, the scan stops at the first enclosing node and never goes below index 1 |
| ReactWidget.CurrentLine | src/editor/codemirror/reactWidgetExtension.tsx:259-270 | the loop picks that node |
| ReactWidget.Decorations | src/editor/codemirror/reactWidgetExtension.tsx:280-338 | a non-empty selection gives none; otherwise the innermost node is highlighted, and a preview widget follows the current line exactly when that line is a call statement |
| JsStrings.Trim | src/documentation/ToolkitDocumentation/TopicItem.tsx:41 | the trim is the slice between the leading and trailing whitespace runs, with no whitespace at either end |
| JsStrings.TrimIdempotent | src/documentation/ToolkitDocumentation/TopicItem.tsx:43 | trimming twice is trimming once |
| JsStrings.IndexOf | src/documentation/InteractionArea.tsx:440 | the index found is the first occurrence; none exactly when there is no occurrence |
| JsStrings.Split | src/editor/TypeshedTable.tsx:26 | at least one piece, and two or more exactly when the separator occurs |
| JsStrings.SplitPiecesFree | src/editor/TypeshedTable.tsx:46 | no piece contains the separator |
| JsStrings.JoinSplit | src/editor/TypeshedTable.tsx:26 | joining the pieces with the separator gives the text back |
| JsStrings.SplitJoinChar | src/documentation/InteractionArea.tsx:442 | splitting pieces joined by a character they lack gives the pieces back |
| JsStrings.SplitCountChar | src/documentation/ToolkitDocumentation/TopicItem.tsx:43 | splitting on a character gives one piece more than its occurrences |
| JsStrings.ConcatSplit | src/documentation/InteractionArea.tsx:398 | concatenating the pieces of a split on a character removes exactly that character |
| JsStrings.ReplaceAllIsSplitJoin | src/editor/TypeshedTable.tsx:24 | `replaceAll` is split and join |
| JsStrings.ReplaceAllCharRemoves | src/editor/TypeshedTable.tsx:24 | replacing every `a` by another character leaves no `a` |
| JsStrings.ReplaceFirst | src/editor/TypeshedTable.tsx:24 | only the first occurrence is replaced, and nothing happens without one |
| JsStrings.ReplaceAll | src/editor/TypeshedTable.tsx:24 | `replaceAll`, left to right without overlaps; ReplaceAllIsSplitJoin and ReplaceAllCharRemoves carry its properties |
| JsStrings.RelativeIndex | src/documentation/InteractionArea.tsx:398 | a negative slice bound counts from the end; a bound past the end gives the length and one before the start gives 0 |
| JsStrings.Slice | src/documentation/InteractionArea.tsx:398 | `slice` with relative bounds, never longer than its input; LiteralBody and SoundEffectFound give its value on the written texts |
| JsStrings.Join | src/editor/codemirror/reactWidgetExtension.tsx:181 | `join`: the pieces with the separator between them; JoinSplit and SplitJoinChar tie it to Split |
| JsStrings.StartsWith | src/documentation/InteractionArea.tsx:389 | `startsWith`: the text begins with the prefix; LiteralBody shows a written literal does not start with `Image.` |
| JsStrings.IsTruthy | src/documentation/InteractionArea.tsx:50-52 | a JavaScript truthy optional string: present and non-empty; QualifiedNameSplits and ShowsPreview use it |
| JsStrings.LowerAscii | src/documentation/InteractionArea.tsx:391 | the same length; each capital `A`-`Z` becomes the letter 32 code points on, every other character stays |
| JsNumbers.NatToString | src/workbench/Workbench.tsx:113 | decimal digits without a leading zero |
| JsNumbers.DigitsValueOfNatToString | src/workbench/Workbench.tsx:113 | the decimal text of `n` reads back as `n` |
| JsNumbers.NatToStringInjective | src/workbench/Workbench.tsx:113 | different numbers have different decimal texts |
| JsNumbers.NumberRoundTrip | src/documentation/InteractionArea.tsx:447 | `Number` of an integer's (or NaN's) `toString` is that number |
| JsNumbers.ParseNumber | src/documentation/InteractionArea.tsx:447 | `Number(…)`: the trimmed text as an optionally signed decimal integer, the empty text as 0, anything else NaN; NumberRoundTrip proves it reads back `toString` |

## Left out

- Intel-HEX generation and parsing is not part of this model. That covers `replaceWithHexContents`, `toHexForFlash`, the universal hex of `toHexForDownload`, BoardId parsing and the MicroPython source. That code is defined in `src/fs/fs.ts`, `src/fs/micropython.ts` and the `.hex` firmware files, none of which is modelled. The tests check only result types and a pattern on the output (src/fs/fs.test.ts:137-154, 188-194).
- `src/fs/fs.ts` and `storage.ts` are not part of this model. The file system is the state machine the tests pin down. Where the tests are silent it makes choices:
  - removing an absent name changes nothing and emits no event;
  - `setProjectName` emits one event;
  - `replaceWithMainContents` emits one event;
  - `initialize` is idempotent.
  - `replaceWithMainContents` gives `main.py` one past its old version, and 2 when it was absent (Manifest.ReplacedMainVersion); the test at src/fs/fs.test.ts:132 shows only the version 2 reached from version 1.
- Manifest.MainFile is taken to be `main.py`. `MAIN_FILE` is defined in `src/fs/fs.ts`, which is not part of this model.
- ProjectFs.FileSystem: asynchronous calls, persistence and the listener mechanism are reduced to sequential methods and an event log.
- ProjectFs.FileSystem: the random project id is a counter, which is enough to give each new project a new id.
- ProjectFs.FileSystem: file contents are bytes. The string overload of `write`, which goes through `TextEncoder`, is left out.
- ProjectFs.LargeNewFileScenario and ProjectFs.GrowMainFileScenario take a capacity below 100,000 bytes as a parameter. The device's real capacity depends on the MicroPython firmware (`src/fs/microbit-micropython-v1.hex` and `-v2.hex`), which is not part of this model.
- Simulators, the preview widget's timing (`Date.now`, `setTimeout`, src/editor/codemirror/reactWidgetExtension.tsx:88-115), and the DOM, portal and React rendering are plumbing with no logic to specify.
- The sliders (`VarSlider`) and the switch that picks an editor per parameter type are rendering.
- The render map (src/documentation/InteractionArea.tsx:94-95) reads `typeInfo?.parameters[i].type` for every argument position `i`. It throws when the signature has fewer parameters than the call has arguments. A parsed stub signature can be that short: `sleep(1, 2)` against `def sleep(n: float) -> None`, or a signature whose pieces without `:` were dropped (ParametersOfLabelsOnly). That crash is in rendering and is not modelled.
- `console.log` calls are left out.
- InteractionArea.LookupSignature: the inferred parameters are an input. `inferTypeinfoFromArgs` is imported from `src/editor/TypeshedTable` (src/documentation/InteractionArea.tsx:33), and its definition is not modelled.
- InteractionArea.ChangedArguments requires `i` to be an argument position. The handler is only created for the positions of the argument list, so the array never grows there.
- ImageArgument.Image2Array: the built-in pictures are an input map. The `ImageMap` table is defined in the `src/editor/codemirror/code-sharing/imageMaps` module (src/documentation/InteractionArea.tsx:34), which is not modelled.
- ImageArgument.Image2Array: the literal branch states the pixel count. The exact pixels are proved for the texts the serialiser writes (ImageRoundTrip).
- ImageArgument.Image2Array: `toLowerCase` is modelled on ASCII letters only (LowerAscii).
- JsNumbers.NumberRoundTrip: `Number(…)` (ParseNumber) reads only optionally signed decimal integers, the empty text as 0, and everything else as NaN. Fractions, exponents and hexadecimal forms are left out, and so are floating-point values (the slider values, `window.innerWidth * 0.35`).
- Workbench.InitialSidebarSize takes `Math.floor(window.innerWidth * 0.35)` as an integer input.
- SoundArgument: a record's fields are kept in first-assignment order. `Object.entries` would put integer-like keys first, and `__proto__` keys are not modelled.
- TypeshedTable.ModuleName: its own contract states only that no `/` is left. The full mapping is proved for paths of the form `/typeshed/<segments>.pyi` (ModuleNameOfStubPath).
- TypeshedTable: the typeshed JSON is an input sequence of `(path, text)` pairs, in the order the loop visits them.
- TypeshedTable.DefEntry: a definition whose head has no `(` makes `split("(")[1]` undefined. The source then throws, and the model fails the whole table (`MissingParenthesis`).
- TopicItem.StripJoinedLines is proved for non-blank lines without line terminators. The pattern's `\s*` may also swallow blank lines before an import line; that behaviour is modelled by StripFrom but not summarised by a lemma.
- TopicItem: the `1.5em` height arithmetic and the hover pop-up are rendering.
- ReactWidget.LineInfoOf requires the shape the Python grammar guarantees, where the source writes `!`:
  - a call has a callee;
  - a member expression has children;
  - the statement lies in the document.
- ReactWidget: CodeMirror's line boundaries are taken to be `\n` only.
- Strings are sequences of Unicode characters rather than UTF-16 code units.
