# lsp-base diagnoser, modelled in Dafny

This project models the core of the lsp-base language server, `server/src/diagnoser.ts`.
The server relays diagnostics that an external tool has written to *record files*. A record
file is a tab-separated text, one `line<TAB>column<TAB>message` per line. Record files live
in *input directories* below a workspace folder. A document in the workspace gets the
diagnostics of the record file that mirrors its path: the same directories below the input
directory, and the same name up to the extension.

The model follows the four classes of the file:

- `DiagnosNode` (module `Nodes`) parses one record line. `ParseNode` splits on tabs and reads
  two fields with `parseInt`. The `_readInput` filter keeps a node only when its line number
  is truthy: not missing, not NaN and not 0.
- `FileInfo` (module `Files`, a class) holds the nodes of one record file. It reads them at
  construction, clears them on reload and turns them into warning diagnostics.
- `WorkspaceInfo` (module `Workspace`, a class) finds the input directories and loads their
  record files. It walks breadth-first from the root (`_checkInputFileDir`). Every directory
  whose path contains `join(root, inputPath)` is an input directory. It then walks
  breadth-first below each one (`_loadInputFiles`) and registers every file with the record
  extension under its key. It also decides whether it answers for a document
  (`hasDiagnostic`) and looks up the document's key (`getDiagnostic`).
- `Diagnoser` (module `Engine`, a class) keeps the workspaces in a `Map` keyed by `URI`
  objects. It adds and removes workspaces on folder events, reloads them all, and routes a
  document to the first workspace that accepts it (`validate`).

Supporting modules:

- `Text`: `split`, the line split on `/\r\n|\n/`, `indexOf(...) === 0` and `parseInt`.
- `Paths`: `path.join`, `extname`, `basename`, `dirname` and `relative` on POSIX paths.
- `Tree`: the filesystem as an immutable tree of entries.
- `Traversal`: the two walks as functions, each with an independent depth-first reference
  definition.

The workspaces are imperative classes. The `FileInfo` objects live in each workspace's
`inputFiles` map, and the workspaces live in `Diagnoser.wsInfo`. Every method is proved
against a specification function of the abstract state: `FileInfo.Record()`,
`WorkspaceInfo.State()` and `Diagnoser.States()`. Lemmas about those functions carry what
the code promises.

How the code behaves, where the model follows it:

- A line with line number 0, or with a first field `parseInt` cannot read, is dropped. A line
  with fewer than three fields is dropped as well.
- The input-directory test is a regular expression built from `path.join(root, inputPath)`.
  It is modelled as substring containment of that text. A matching directory is reported
  and loaded, and never entered. Any other directory is queued.
- Two record files with the same key: the later `Map.set` replaces the earlier entry.
- The tests in `hasDiagnostic` are raw character prefixes. A workspace at `/ws` therefore
  accepts `/ws2/main.c` (`Engine.PrefixShadowing`).
- `reload` clears every loaded file and scans again over the same map. It never removes a
  key and appends the input directories to `inputPaths` again. A record file that has gone
  keeps its key with no nodes, so its document gets an empty list and not `null`
  (`Workspace.StaleFileEmpty`).
- `URI.parse` returns a new object and `Map` compares keys by identity. So
  `_deleteWorkspaces` removes nothing, and every added folder is appended, even one already
  present (`Engine.Diagnoser.DeleteWorkspaces`, `Engine.Diagnoser.ChangeWorkspaces`).
  Removing a folder therefore does not stop its workspace from answering. The model follows
  the code here.
- `validate` answers from the first accepting workspace, in insertion order. With no
  accepting workspace it answers `null` (`None`), and a workspace that accepts a document
  without a record file for it answers `null` as well.

## Model

| member | source | states |
|---|---|---|
| Text.SplitCount | server/src/diagnoser.ts:26-27 | splitting on a tab gives one more field than there are tabs, so "three fields" means at least two tabs |
| Text.SplitJoin | server/src/diagnoser.ts:26 | splitting tab-joined, tab-free fields gives back exactly those fields |
| Text.JoinSplit | server/src/diagnoser.ts:26 | joining the fields of a split with the separator gives back the line |
| Text.SplitJoinLines | server/src/diagnoser.ts:59 | lines written with `\n` or `\r\n` come back unchanged from the split on CRLF or LF |
| Text.ParseFormatInt | server/src/diagnoser.ts:28-29 | `parseInt(s, 10)` reads back the decimal form of every integer, whatever non-digit text follows |
| Text.ParseIntNoDigit | server/src/diagnoser.ts:28 | a field with no decimal digit parses as NaN |
| Paths.StripExtOfName | server/src/diagnoser.ts:160-161 | an entry name is its base name without the extension followed by `path.extname` of it |
| Paths.RelativeBelowRoot | server/src/diagnoser.ts:196 | `path.relative(root, root/d1/…/dn)` is `d1/…/dn` |
| Paths.DocKeyOfFile | server/src/diagnoser.ts:196-198 | the key of document `root/d1/…/dn/name` is the key `_loadInputFiles` gives `name` found in `d1/…/dn` |
| Paths.SourceMeetsRecord | server/src/diagnoser.ts:158-161 | a document and a record file in mirrored directories whose names agree up to the extension get the same key |
| Paths.DocKeyOfRoot | server/src/diagnoser.ts:196-198 | the workspace root itself looks up the key `.`, which only a top-level record file named `.` plus the extension also has |
| Nodes.ParseNode | server/src/diagnoser.ts:25-33 | a parsed node has every field unset, or a message with `end` equal to `start` |
| Nodes.FewFieldsUnset | server/src/diagnoser.ts:26-27 | a line with fewer than two tabs leaves every field unset and is not kept |
| Nodes.NonNumericLineDropped | server/src/diagnoser.ts:28 | a line whose first field has no digit is dropped by the `if (diag.line)` filter |
| Nodes.ZeroLineDropped | server/src/diagnoser.ts:63 | a record with line number 0 is dropped |
| Nodes.ParseFormatRecord | server/src/diagnoser.ts:25-33 | a written record line parses back field for field; fields after a third tab are ignored |
| Nodes.KeptNodesAppend | server/src/diagnoser.ts:61-66 | the nodes kept from consecutive lines are those of each part, in order |
| Nodes.KeptNodesOne | server/src/diagnoser.ts:62-65 | one line contributes its node exactly when its line number is truthy |
| Nodes.ReadWrittenRecords | server/src/diagnoser.ts:57-66 | a record file written with either line break, with no line number 0, reads back as exactly its records, in order |
| Nodes.ToDiagnostics | server/src/diagnoser.ts:78-86 | one diagnostic per node, in order: a zero-width warning at (line, start) with the node's message, code `""` and source `lsp-base` |
| Files.FileInfo.constructor | server/src/diagnoser.ts:45-52 | a new `FileInfo` keeps both paths and exactly the nodes its file yields |
| Files.FileInfo.ReadInput | server/src/diagnoser.ts:54-67 | `_readInput` appends the kept nodes of every line, in order |
| Files.FileInfo.ClearDiagnostic | server/src/diagnoser.ts:69-71 | `clearDiagnostic` empties the node list and keeps the paths |
| Files.FileInfo.GetDiagnostic | server/src/diagnoser.ts:73-87 | `getDiagnostic` returns the diagnostics of the stored nodes (`Nodes.ToDiagnostics`) |
| Traversal.DiscoverCovers | server/src/diagnoser.ts:117-141 | the breadth-first walk reports exactly the directories the depth-first definition finds below every queued directory |
| Traversal.DiscoverFromRoot | server/src/diagnoser.ts:111-141 | from the root, the reported input directories are exactly the matching directories below it, with matches not entered |
| Traversal.MatchesContainPattern | server/src/diagnoser.ts:127 | every reported input directory's path contains the pattern |
| Traversal.MatchReportedNotEntered | server/src/diagnoser.ts:125-138 | a matching child directory is reported, and never entered: whatever it contains, the reported directories are the same |
| Traversal.RegistrationsCover | server/src/diagnoser.ts:151-173 | the walk below an input directory registers exactly the keys of the record files the depth-first definition finds |
| Traversal.InputKeysAreRecordKeys | server/src/diagnoser.ts:144-174 | `_loadInputFiles` sets exactly the keys of the record files below the input directory |
| Traversal.RecordFileHasKey | server/src/diagnoser.ts:156-170 | every record file anywhere below the input directory gets a key: its directories joined with its name minus the extension |
| Traversal.SetAllKeys | server/src/diagnoser.ts:169 | after the registrations, the keys are the old keys and the registered ones |
| Traversal.SetAllLastWins | server/src/diagnoser.ts:169 | a key registered twice holds the value of its last registration |
| Traversal.SetAllUntouched | server/src/diagnoser.ts:169 | a key no registration uses keeps its old entry, or stays absent |
| Traversal.SetAllAgree | server/src/diagnoser.ts:169 | what a registered key ends up holding does not depend on the map the registrations started from |
| Traversal.LoadAllKeys | server/src/diagnoser.ts:131-132 | loading every reported input directory adds exactly their record keys |
| Traversal.LoadAllUntouched | server/src/diagnoser.ts:131-132 | a key no reported input directory produces keeps its old entry, or stays absent |
| Traversal.LoadAllAgree | server/src/diagnoser.ts:131-132 | a key some reported input directory produces holds the same value whatever the map held before |
| Traversal.RegistrationsHold | server/src/diagnoser.ts:151-171 | when every record file under a key, found depth first, has one text, every registration the breadth-first walk makes under that key holds the nodes of that text |
| Traversal.SetAllHolds | server/src/diagnoser.ts:169 | a key whose every registration holds the same nodes holds those nodes after the `set` calls |
| Traversal.LoadAllHolds | server/src/diagnoser.ts:131-132 | after loading every input directory, a key whose record files all have one text holds the nodes of that text |
| Workspace.ClearedLookup | server/src/diagnoser.ts:177-179 | after every file is cleared, a document whose file is loaded gets an empty list, and any other document still gets `null` |
| Workspace.InitialEnable | server/src/diagnoser.ts:105-133 | after construction, input is enabled exactly when some directory below the root matches, and the keys are exactly those of the reported directories' record files |
| Workspace.FoundPaths | server/src/diagnoser.ts:127-131 | every recorded input path is a match below the root and contains the pattern |
| Workspace.RecordReachesDocument | server/src/diagnoser.ts:194-205 | a document whose path mirrors a record file below a reported input directory finds a loaded file |
| Workspace.RecordDiagnosesDocument | server/src/diagnoser.ts:194-205 | such a document gets exactly the warnings its record file's text yields, when no record file with the same key has other text |
| Workspace.ReloadGrows | server/src/diagnoser.ts:176-181 | reload keeps every key, appends the reported directories to `inputPaths` again, never turns input off and keeps the root |
| Workspace.StaleFileEmpty | server/src/diagnoser.ts:176-181 | a file loaded before that reload does not find again answers an empty list, not `null` |
| Workspace.ReloadRereads | server/src/diagnoser.ts:176-181 | a file reload finds again answers what a fresh workspace would answer |
| Workspace.ReloadIdempotent | server/src/diagnoser.ts:176-181 | over an unchanged filesystem, reloading twice answers every document as reloading once |
| Workspace.ReloadEligibleIdempotent | server/src/diagnoser.ts:183-192 | over an unchanged filesystem, reloading twice leaves `hasDiagnostic` as reloading once left it |
| Workspace.WorkspaceInfo.constructor | server/src/diagnoser.ts:98-107 | a new workspace's state is one scan of an empty workspace (`Initial`) |
| Workspace.WorkspaceInfo.CheckInputFileDir | server/src/diagnoser.ts:109-142 | `_checkInputFileDir` reports and loads the directories of `Discover`, in order |
| Workspace.WorkspaceInfo.CheckDirectory | server/src/diagnoser.ts:122-140 | one directory's entries: the matching children are reported and loaded, and the others are returned to queue |
| Workspace.WorkspaceInfo.AddInputDir | server/src/diagnoser.ts:129-134 | reporting one input directory pushes its path, loads its files and enables input |
| Workspace.WorkspaceInfo.LoadInputFiles | server/src/diagnoser.ts:144-174 | `_loadInputFiles` applies the registrations of `Registrations` to the map, in order |
| Workspace.WorkspaceInfo.LoadDirectory | server/src/diagnoser.ts:156-172 | one directory's entries: its record files are registered and its subdirectories are returned to queue |
| Workspace.WorkspaceInfo.AddFile | server/src/diagnoser.ts:158-170 | a fresh `FileInfo` for the file replaces whatever its key held |
| Workspace.WorkspaceInfo.SetFile | server/src/diagnoser.ts:169 | `inputFiles.set(key, info)` |
| Workspace.WorkspaceInfo.Reload | server/src/diagnoser.ts:176-181 | `reload` leaves the state `Reloaded` describes |
| Workspace.WorkspaceInfo.ClearAll | server/src/diagnoser.ts:177-179 | every loaded file is cleared and no key is removed |
| Workspace.WorkspaceInfo.HasDiagnostic | server/src/diagnoser.ts:183-192 | `hasDiagnostic` holds exactly when input is enabled, no input path prefixes the path and the root does |
| Workspace.WorkspaceInfo.GetDiagnostic | server/src/diagnoser.ts:194-205 | `getDiagnostic` answers the diagnostics of the file under the document's key, or `null` when there is none |
| Engine.FsPathOfFile | server/src/diagnoser.ts:251 | `fsPath` of `file://` + path is that path |
| Engine.Uri.Parse | server/src/diagnoser.ts:228 | `URI.parse` makes a new key object carrying the URI's path |
| Engine.IndexOf | server/src/diagnoser.ts:211 | a key's place in the map is its first occurrence, or none |
| Engine.SetThenGet | server/src/diagnoser.ts:238 | after `Map.set`, `get` of that key gives the new value |
| Engine.SetKeepsOthers | server/src/diagnoser.ts:238 | `Map.set` leaves every other key's value as it was |
| Engine.DeleteThenGet | server/src/diagnoser.ts:229 | after `Map.delete`, `get` of that key finds nothing |
| Engine.DeleteKeepsOthers | server/src/diagnoser.ts:229 | `Map.delete` leaves every other key's value as it was |
| Engine.First | server/src/diagnoser.ts:250-254 | the loop stops at the first accepting workspace, or finds none |
| Engine.RouteAt | server/src/diagnoser.ts:250-254 | when workspace n accepts and none before it does, `validate` answers what workspace n answers |
| Engine.RouteNone | server/src/diagnoser.ts:256 | when no workspace accepts, `validate` answers `null` |
| Engine.EarlierWins | server/src/diagnoser.ts:250-254 | workspaces added later never change the answer for a document an earlier workspace accepts |
| Engine.LaterDecides | server/src/diagnoser.ts:250-254 | for a document no earlier workspace accepts, the later workspaces alone decide |
| Engine.PrefixShadowing | server/src/diagnoser.ts:188-191 | with input directories `/ws/diag` and `/ws2/diag`, workspace `/ws` answers for `/ws2/main.c` ahead of workspace `/ws2` |
| Engine.ReloadAllIdempotent | server/src/diagnoser.ts:242-247 | over an unchanged filesystem, reloading all workspaces twice answers every document as reloading once |
| Engine.Diagnoser.constructor | server/src/diagnoser.ts:213-215 | a new diagnoser holds no workspace |
| Engine.Diagnoser.InitWorkspaces | server/src/diagnoser.ts:217-219 | one workspace per folder is appended, in order, each in its `Initial` state |
| Engine.Diagnoser.ChangeWorkspaces | server/src/diagnoser.ts:221-224 | the removals leave the workspaces as they were; the additions are appended |
| Engine.Diagnoser.DeleteWorkspaces | server/src/diagnoser.ts:226-231 | a freshly parsed key matches no stored key, so nothing is removed |
| Engine.Diagnoser.AddWorkspaces | server/src/diagnoser.ts:233-240 | the folders' workspaces are appended after the existing ones, in order |
| Engine.Diagnoser.AddWorkspace | server/src/diagnoser.ts:234-239 | one folder's workspace is appended |
| Engine.Diagnoser.OpenWorkspace | server/src/diagnoser.ts:236-237 | a new key and a new workspace scanned from the folder's path |
| Engine.Diagnoser.Register | server/src/diagnoser.ts:238 | `set` of a key not stored yet appends the workspace |
| Engine.Diagnoser.Reload | server/src/diagnoser.ts:242-247 | every workspace is reloaded against its root, and the order and keys are kept |
| Engine.Diagnoser.ReloadWorkspace | server/src/diagnoser.ts:245 | one workspace is reloaded and the others are unchanged |
| Engine.Diagnoser.Validate | server/src/diagnoser.ts:249-257 | `validate` answers `Route`: the answer of the first workspace accepting the document, or `null` |

## Left out

- Reading files: `fs.promises.readFile` and the Shift_JIS decoding through `iconv` are left out. A record file's content arrives already decoded, as text. A read that fails, for instance on a file deleted between the listing and the read, and the rejected `_isLoading` and exception in `getDiagnostic` that would follow, are not modelled: every `File` has readable text.
- Asynchrony: `_isLoading` and the awaits are left out, so a file is read at construction. The model therefore does not capture a reload racing a read that is still pending.
- Listing directories: `fs.readdirSync` is the listing carried in each `Entry` tree. A directory that cannot be listed, and the exception that would follow, are not modelled.
- `fs.existsSync` is taken as true for a directory that was just listed.
- Configuration: `config.inputPath` and `config.inputExt` are a `Config` parameter. `server/src/config.ts` exports no object with these fields, so their values are not part of this model.
- The filesystem seen by a workspace is a function from root path to listing, passed in by the caller (`disk`).
- `URI.parse(...).fsPath`: `Engine.FsPath` removes only the `file://` scheme. It does no percent-decoding, no authority handling and no platform path conversion.
- Paths are POSIX paths with `/` as the only separator. `path.join` and `path.relative` are modelled for normalised parts and do not resolve `.` or `..` inside a path.
- Engine.Validate: it parses the document URI once, before the loop, where the source parses it on every iteration. The parsed path is the same each time, so the answer is the same.
- Nodes.ParseNode: `parseInt` skips ASCII white space and the few Unicode spaces `Text.IsSpace` lists, not every Unicode space separator. Numbers beyond double precision are not rounded.
- The regular expression built from `path.join(root, inputPath)` is taken as a literal substring. Metacharacters in a root path or in the configured input path are not interpreted.
- `FileInfo.data` is never read and is not modelled. The `doc` parameter of both `getDiagnostic` methods is unused and is left out.
- `server.ts` (the language-server connection and document events) and `client/src/extension.ts` are not part of this model.
