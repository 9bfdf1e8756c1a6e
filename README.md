# Faroquin mod manager, modelled in Dafny

Faroquin is a desktop mod manager for Balatro. This project models its core
and proves properties of the model:

- the **mod indexer** of the main process (`src/modsLoader.js`). It walks the
  mods folder depth-first. A folder carrying a `.faro` sidecar stands for all
  of its mods. Otherwise the indexer reads `.lua` headers and `.json`
  manifests, writes a sidecar for what it finds, and merges the bundled
  catalog of mods that are not installed;
- the **install and settings logic** of the main process (`src/main.js`):
  - recognising a GitHub repository URL;
  - the `main` → `master` fallback;
  - the README candidates;
  - classifying a commit-fingerprint reply;
  - unpacking an archive into a single folder;
  - stripping the branch or release suffix, and relocating the folder;
  - the special handling of `lovely` and `steamodded`;
  - stamping the sidecar with the source and fingerprint;
  - deleting files and folders;
  - loading and saving the config file;
- the **registry of the renderer** (`src/index.js`):
  - sorting the mods into the browse, installed and loader lists;
  - the once-per-session update check;
  - the enable toggle and its marker file;
  - the deletion order;
  - the first-in-first-out install queue with one install at a time.

The filesystem is a tree of named nodes (`FsTree.Fs`). It is changed in place
through a `Disk` object whose methods mirror Node's `fs` calls. Each
operation that walks the disk step by step is a method proved equal to a
function on trees, and the properties are proved about those functions. The
indexer is a `Loader` class. It holds the `mods` array, the sidecars and
`createdFaros`, and its methods are proved equal to the functions
`ScanFolder`, `LoadFileModsResult` and `LoadModsResult`. The renderer's
globals are fields of a `Registry` class. Its requests to the main process
are recorded, in order, in a `calls` log.

Behaviour of the code worth knowing:

- The header parser's defaults (priority 0, badge colours, version `0.0.0`)
  run only on a match whose capture is non-empty, so they never change
  anything. A header without a `--- VERSION:` line has no `version` field,
  and the descriptor then reads `Unknown` (`LuaHeader.NoVersionWithoutToken`).
- Reinstalling over a folder that already exists does not replace it, and
  the install then fails. The relocation is skipped, and `rmdirSync` on the
  parent of the extracted folder fails because that folder is still in it
  (`Install.RelocateKeepsExisting`).
- Catalog items without an id all receive the id `modslist`. The duplicate
  check looks at the declared id, which is missing, so none of them is
  recognised as a duplicate (`ModsLoader.IdlessEntriesCollide`).
- `create-faro` replaces the whole sidecar with the one descriptor it is
  given (`FileOps.WrittenSidecar`).
- `loadConfig` never updates the in-memory settings. Only `saveConfig` does
  (`Config.Settings.LoadConfig`, `Config.Settings.SaveConfig`).

## Model

| member | source | states |
|---|---|---|
| LuaHeader.CaptureAt | src/modsLoader.js:295-324 | a capture is non-empty and single-line; the rest-of-line kind is the whole line from the match on and fails exactly on an empty line; a bracketed capture is followed by a `]` |
| LuaHeader.BracketedCapture | src/modsLoader.js:297 | `([^\n]+)\]` fails exactly when no `]` follows the first character on the line; otherwise it captures up to the line's last `]`, with no `]` after it on the line |
| LuaHeader.IntegerCapture | src/modsLoader.js:299 | `(-?\d+)` is an optional minus sign and then the whole digit run after it, and fails exactly when that run is empty |
| LuaHeader.WordCapture | src/modsLoader.js:300-301 | `(\w+)` is the whole word-character run at the start, and fails exactly when that run is empty |
| LuaHeader.FirstMatchIsLeftmost | src/modsLoader.js:329-331 | `match` finds nothing exactly when no position matches, and otherwise yields the capture at the leftmost matching position |
| LuaHeader.ParseTable | src/modsLoader.js:327-346 | the loop over the header table returns null exactly when some required component has no match; otherwise it returns the map of every matched field |
| LuaHeader.ParseLuaHeader | src/modsLoader.js:291-347 | `parseLuaHeader` is null exactly when name, id, author or description is missing from the text with every `\r` removed |
| LuaHeader.HeaderFields | src/modsLoader.js:328-338 | a parsed header holds a key exactly when that component matched, with the first match converted as its value; an unmatched optional field is absent |
| LuaHeader.RequiredFields | src/modsLoader.js:295-298 | a valid header always has a non-empty name, id and description and a list-valued author |
| LuaHeader.NoVersionWithoutToken | src/modsLoader.js:324 | without a `--- VERSION: ` token the header has no `version` field, because the `0.0.0` default is never applied |
| LuaHeader.ListFieldItems | src/modsLoader.js:332-334 | a list field is the trimmed pieces between the commas of its capture, and joining those pieces gives the capture back |
| Text.RemoveChar | src/modsLoader.js:292 | removing `\r` leaves no `\r` and keeps every other character's count |
| Text.RemoveCharAppend | src/modsLoader.js:292 | removal distributes over concatenation, so with `RemoveCharSingle` the result is the input's characters other than `\r`, in their order |
| Text.RemoveCharSingle | src/modsLoader.js:292 | a single character is dropped when it is the removed one and kept otherwise |
| Text.JoinSplit | src/modsLoader.js:333 | splitting on `,` loses nothing: re-joining the pieces gives the string back |
| Text.SplitJoin | src/modsLoader.js:333 | splitting a join of comma-free pieces gives the pieces back |
| Text.TrimIsInfix | src/modsLoader.js:333 | `trim()` keeps an infix and removes only whitespace on either side |
| Manifest.StripBeforeUnchanged | src/modsLoader.js:277-278 | the trailing-comma repair changes a text exactly when it holds a comma, then optional whitespace, then the closing bracket; otherwise the parser sees the text unchanged |
| Manifest.StripBeforeKeeps | src/modsLoader.js:277 | the repair removes only commas and whitespace: every other character keeps its number of occurrences |
| Manifest.RepairExample | src/modsLoader.js:277 | `[1, ]` reaches the parser as `[1]` |
| Paths.Extname | src/modsLoader.js:252 | `extname` is empty or a dotted suffix of the name, shorter than the name |
| Paths.BasenameWithout | src/modsLoader.js:253-254 | the extension is cut off only when the name ends with it and is longer than it |
| Paths.PathStringRoundTrip | src/modsLoader.js:265-266 | a path stored as a string in a descriptor reads back as the same path |
| Descriptors.MainFolder | src/modsLoader.js:246-249 | `modPath` is the mods folder joined with the first segment of the file's path below it |
| Descriptors.GetModInfo | src/modsLoader.js:245-271 | `installed` is true, `canUpdate` false, `enabled` the marker flag, a truthy declared id is kept, `modFullPath` is the file's folder and `modPath` the top folder below the mods folder |
| Descriptors.GetModInfoDefaults | src/modsLoader.js:258-269 | name, description, version, prefix, special paths and core are each the declared value when truthy, else `Unknown Mod`, `No description available.`, `Unknown`, `None`, `[]` or `false` |
| Descriptors.FallbackIdIsStem | src/modsLoader.js:252-255 | without a declared id, a `.json` or `.lua` file contributes its name without the extension as the id |
| Descriptors.ValidManifestFields | src/modsLoader.js:286-288 | a valid manifest's id, name and description are kept in its descriptor |
| ModsLoader.Register | src/modsLoader.js:179-194 | a valid parse pushes exactly its descriptor and leaves an array sidecar in its top folder; it fails exactly when the write throws or the existing sidecar is not an array |
| ModsLoader.RegisterRecords | src/modsLoader.js:179-194 | recording succeeds exactly when the sidecar accepts it, and then pushes the descriptor, writes `[info]` as a new sidecar listed in `createdFaros` or appends `info` to the existing array, and touches no other sidecar |
| ModsLoader.LuaStep | src/modsLoader.js:204-240 | `processLuaFile` reports success only for a valid header, and then adds exactly one descriptor; on failure nothing changes |
| ModsLoader.LuaStepRecords | src/modsLoader.js:204-240 | a `.lua` file gives a mod exactly when it has a header and its sidecar accepts the descriptor, and it then records the `getModInfo` descriptor of that header, enabled unless the folder holds `.lovelyignore` |
| ModsLoader.JsonStep | src/modsLoader.js:167-201 | `processJsonFile` adds at most one descriptor, and changes nothing when it adds none |
| ModsLoader.JsonStepRecords | src/modsLoader.js:167-201 | a `.json` file records the `getModInfo` descriptor of its manifest exactly when the text parses, the manifest is a valid mod and the sidecar accepts it; otherwise nothing changes |
| ModsLoader.FileStepOrder | src/modsLoader.js:111-117 | a `.lua` file's outcome becomes the folder's flag; a `.json` file is skipped with the flag up and processed with it down, leaving it down; any other file changes nothing |
| ModsLoader.HasSameId | src/modsLoader.js:133 | `some` answers true only when some mod has the same id, and false only when none has |
| ModsLoader.HasSameIdThrows | src/modsLoader.js:133 | `some` throws exactly when it meets a `null` or `undefined` mod before any mod with the same id |
| ModsLoader.Merge | src/modsLoader.js:131-149 | the merge only appends to the scanned mods |
| ModsLoader.MergeStep | src/modsLoader.js:132-148 | each catalog item, met with the mods the earlier items left, is appended as its catalog entry exactly when no mod has its id, is skipped otherwise, and a `null` item or a throwing `some` stops the merge |
| ModsLoader.MergeStopsAt | src/modsLoader.js:132-157 | once an item throws, the merge ends with the mods reached so far and the null result |
| ModsLoader.MergeConcat | src/modsLoader.js:132-148 | merging two runs of items is merging the first, then the second into its result, unless the first threw |
| ModsLoader.CatalogEntryShape | src/modsLoader.js:136-145 | an entry has exactly the eight catalog fields, copies `github`, and always has a truthy id, name and description |
| ModsLoader.CatalogEntryDefaults | src/modsLoader.js:137-144 | a falsy field takes its default: id `modslist`, `Unknown Mod`, the stock description, `enabled`, `installed` and `core` false, `specialDownload` empty |
| ModsLoader.CatalogEntryKeeps | src/modsLoader.js:137-144 | a truthy field of the item is kept in its entry |
| ModsLoader.MergeKeepsIdsDistinct | src/modsLoader.js:132-145 | when every catalog item declares an id, each appended entry's id differs from every earlier mod, including entries appended earlier in the same merge |
| ModsLoader.IdlessEntriesCollide | src/modsLoader.js:133-137 | two catalog items without an id are both appended, with the same id `modslist` |
| ModsLoader.ScanKeepsSidecars | src/modsLoader.js:65-121 | a pass keeps every sidecar that existed before it, only appends to `mods`, and every sidecar it creates is an array in a folder directly inside the mods folder |
| ModsLoader.SidecarShortCircuits | src/modsLoader.js:74-89 | a folder whose sidecar was not created in this pass adds exactly that sidecar's entries, whatever its children and even when it does not parse |
| ModsLoader.Loader.constructor | src/modsLoader.js:33-45 | a loader starts with an empty `mods` array and an empty `createdFaros` |
| ModsLoader.Loader.RecordMod | src/modsLoader.js:179-194 | creating or extending the sidecar and pushing the descriptor is `Register` on the loader's state |
| ModsLoader.Loader.ProcessLuaFile | src/modsLoader.js:204-240 | the method's new state and result are `LuaStep` |
| ModsLoader.Loader.ProcessJsonFile | src/modsLoader.js:167-201 | the method's new state is `JsonStep` |
| ModsLoader.Loader.ProcessFolder | src/modsLoader.js:65-121 | the recursive scan with the running `.lua` flag leaves the state `ScanFolder` gives |
| ModsLoader.Loader.LoadFileMods | src/modsLoader.js:126-160 | the result is `LoadFileModsResult`: null when the catalog cannot be read, is not an array, or an item throws; otherwise `mods` becomes the merge, and the sidecars are untouched |
| ModsLoader.Loader.LoadMods | src/modsLoader.js:37-62 | `loadMods` returns the scan followed by the merge, and ends with `createdFaros` empty |
| JsValues.Jsonify | src/modsLoader.js:184 | a JSON round trip keeps an array's length and drops exactly the `undefined` fields of an object |
| JsValues.JsonifyIdentity | src/main.js:616 | a value without `undefined` inside comes back from the round trip unchanged |
| JsValues.JsonifySerializable | src/main.js:120 | the round trip leaves nothing `undefined` inside an array or object |
| JsValues.SetPropReads | src/index.js:337 | after assigning a property of an object, reading it gives the new value and every other property reads as before; any other value is left as it is |
| GitHub.MatchGithubUrl | src/main.js:279 | the two groups are non-empty, the second holds no `/` except possibly at its end, and prefix, first group, `/` and second group rebuild the URL |
| GitHub.GithubUrlMatches | src/main.js:279-281 | a URL matches exactly when it is the GitHub prefix followed by a single-line rest holding a `/` with text on both sides, and the repository is that rest |
| GitHub.RepoRoundTrip | src/main.js:279-281 | a repository-shaped path comes back from its URL unchanged |
| GitHub.InstallRepo | src/main.js:553-559 | a missing `github` fails with `No GitHub URL provided.`; a success is a string URL whose rest is the repository |
| GitHub.HashRepo | src/main.js:279-281 | `fetch-hash` succeeds only on a string URL whose rest is the repository |
| GitHub.ClassifyCommit | src/main.js:315-345 | a reply yields a fingerprint exactly on 304 (the stored sha and ETag) or on 200 with a truthy `sha` (that sha and the reply's ETag); 403, 404, any other status, a missing sha and an unparsable body fail |
| GitHub.BranchFallback | src/main.js:290-296 | the fingerprint is `main`'s whenever `main` answers and `master`'s otherwise, and fails only when both fail |
| GitHub.FetchHashHandler | src/main.js:278-299 | an invalid URL fails the handler before any request; a valid one answers what `fetchCommitHash` with the branch fallback gives for its repository |
| GitHub.HandlerFallback | src/main.js:278-299 | for an accepted URL the answer is `main`'s fingerprint when `main` answers and `master`'s otherwise; the handler fails exactly when the URL is refused or the branches fail |
| GitHub.FirstServed | src/main.js:253-274 | the README is the first candidate served, and the call fails with the not-found error exactly when none is served |
| GitHub.FirstServedAt | src/main.js:253-274 | when candidate `i` is the first one served, the README is its text |
| GitHub.FetchReadme | src/main.js:248-275 | the nested loops return what `ReadmeResult` gives |
| Archives.DownloadFs | src/main.js:517-546 | a download succeeds exactly when the file can be created and the archive is served, and the file then holds the archive; an unreachable server leaves no file behind |
| Archives.Download | src/main.js:517-546 | the step-by-step download leaves the disk `DownloadFs` gives |
| Archives.ExtractLaysOver | src/main.js:483-490 | every top-level entry of the archive is found in the unpack folder afterwards |
| Archives.LayoutRule | src/main.js:492-510 | the result is the single extracted folder when there is exactly one entry and it is a folder; otherwise it is a new `flattened` folder holding every entry; either way it is alone in the unpack folder |
| Archives.Layout | src/main.js:492-510 | renaming the entries one at a time gives the layout of `LayoutFs` |
| Archives.Unzip | src/main.js:481-515 | `unzipFile` on the disk is `UnzipFs` |
| FileOps.TempPath | src/main.js:416 | the temporary name is a sibling of the file and differs from it |
| FileOps.DeleteFileIsRemove | src/main.js:408-428 | with a fresh temporary name, deleting succeeds exactly on a file and then removes it; a folder is left under the temporary name |
| FileOps.DeleteFileApart | src/main.js:416-421 | deleting leaves every unrelated path as it was, whether or not it succeeds |
| FileOps.DeleteDirectoryFs | src/main.js:431-440 | after `rm` with `force`, the path is gone, and an existing path is simply removed |
| FileOps.ModFolder | src/main.js:357-361 | a handler fails on a falsy path or one that is not a string |
| FileOps.WrittenSidecar | src/main.js:356-371 | `create-faro` leaves a sidecar holding exactly `[modData]` |
| FileOps.CreateMarkerWrites | src/main.js:375-390 | `create-file` succeeds exactly when the mod path is a non-empty string naming a folder; the `.lovelyignore` marker is then an empty file, nothing apart from it changes, and a failure changes nothing |
| FileOps.DeleteFileHandlerRemoves | src/main.js:394-405 | `delete-file` targets `modPath/fileName`, or `modPath` when no file name is given; with a fresh temporary name it succeeds exactly on a file, which is then removed; refused arguments change nothing |
| FileOps.DeleteSpecialOneRemoves | src/main.js:451-470 | an existing special path, folder or file, is removed |
| FileOps.DeleteFile | src/main.js:408-428 | rename then unlink on the disk is `DeleteFileFs` |
| FileOps.DeleteSpecial | src/main.js:449-477 | `delete-special` fails exactly when `specialPaths` cannot be iterated, and otherwise handles each path in turn, logging failures |
| Install.TokenFound | src/main.js:684 | a URL ending in `/archive/`, an alphanumeric token and `.zip` yields that token |
| Install.TokenShape | src/main.js:684 | a found token is non-empty and alphanumeric, and the URL ends with `/archive/`, the token and `.zip` |
| Install.ArchiveTokenMatches | src/main.js:684 | the token is found exactly when the URL has that shape |
| Install.BranchSuffixRemoved | src/main.js:685 | one trailing `-main` or `-master`, in any letter case, is removed |
| Install.BranchSuffixKept | src/main.js:685 | a name without such a suffix is kept |
| Install.BranchSuffixOnce | src/main.js:685 | only the last suffix goes: `mod-main-MAIN` becomes `mod-main` |
| Install.StripSuffix | src/main.js:684 | the `-token` suffix is removed when present and the name is kept otherwise |
| Install.SanitizedName | src/main.js:683-687 | the name fails exactly when a special download has no archive token |
| Install.RelocateKeepsExisting | src/main.js:687-694 | an existing target folder is never replaced, and the install then fails with the disk unchanged |
| Install.RelocateMoves | src/main.js:687-703 | when the target is absent, the extracted folder ends up at the target |
| Install.ArchiveFallback | src/main.js:653-659 | once `main` was served, the `master` archive plays no part |
| Install.OwnFolderSidecar | src/main.js:706-718 | the `smods` or `lovely` folder afterwards holds a sidecar describing the mod as installed and enabled, with its special paths |
| Install.VersionDllRule | src/main.js:733-751 | an existing `version.dll` is left alone and not recorded; a missing one is recorded in `specialPaths`, and the extracted one is moved there |
| Install.LovelySidecar | src/main.js:763-777 | a lovely install ends with `mods/lovely` holding a sidecar for the mod as the `version.dll` step left it |
| Install.StampRule | src/main.js:608-614 | the stamp fails exactly on a `null` or `undefined` entry; every object entry gets this install's `github`, `specialDownload`, `sha` and `etag`, and no other field changes |
| Install.Stamp | src/main.js:609-614 | the loop over the entries is `StampAll` |
| Install.InstallStamps | src/main.js:596-616 | after a successful install, the folder's sidecar holds the stamped entries of what the rescan left there |
| Install.InstallMod | src/main.js:631-704 | `installMod` on the disk is `InstallModFs` |
| Install.FetchArchive | src/main.js:635-659 | the download, from the special URL or from `main` and then `master`, on the disk is `FetchArchiveFs` |
| Install.Relocate | src/main.js:689-703 | the rename into the mods folder when the target is free, the removal of the unpack folder and the deletion of the archive on the disk are `RelocateFs` |
| Install.EnsureFolder | src/main.js:711 | the folder is created with its ancestors only when nothing is there |
| Install.OwnFolder | src/main.js:707-718 | creating the folder when nothing is there and writing the given sidecar into it, on the disk, is `OwnFolderFs` |
| Install.OwnFolderWrites | src/main.js:711-717 | after a successful step the folder's `.faro` holds exactly the given sidecar |
| Install.InstallSmods | src/main.js:707-718 | `installSmods` on the disk is `InstallSmodsFs` |
| Install.PlaceVersionDll | src/main.js:733-751 | the `version.dll` step on the disk is `PlaceVersionDllFs` |
| Install.LovelyCleanup | src/main.js:753-761 | the clean-up on the disk is `LovelyCleanupFs` |
| Install.LovelyPlace | src/main.js:733-777 | the rest of `installLovely` on the disk is `LovelyPlaceFs` |
| Install.InstallLovely | src/main.js:722-778 | `installLovely` on the disk is `InstallLovelyFs` |
| Install.PlaceMod | src/main.js:576-586 | lovely or an ordinary mod, plus the `smods` sidecar, on the disk is `PlaceModFs` |
| Install.OrdinaryMod | src/main.js:580-585 | `installMod`, then for `steamodded` the `smods` sidecar, on the disk is `OrdinaryModFs`; a failed sidecar fails the install |
| Install.StampSidecar | src/main.js:599-616 | read, stamp and write back on the disk is `StampSidecarFs` |
| Install.InstallHandler | src/main.js:550-626 | the `install-mod` handler on the disk is `InstallHandlerFs` |
| Config.DirnameText | src/main.js:18 | `path.dirname` is never empty, and is `.` for the empty string |
| Config.DirnameOfPathString | src/main.js:135-137 | on the string form of a path, `dirname` is the string form of the parent folder (the root for a one-segment path) |
| Config.LoadConfigFs | src/main.js:106-122 | the start is a `startup` one exactly when the stored settings read, parse and are valid, and then they are returned as stored with the file untouched; otherwise the defaults are written and read back; a failed write changes nothing |
| Config.JsonifyKeepsValidity | src/main.js:111-112 | the JSON round trip keeps what makes settings usable |
| Config.SaveThenLoad | src/main.js:106-140 | saved settings load at the next start exactly when they are valid; otherwise the defaults replace them |
| Config.LoadConfigRepairs | src/main.js:106-122 | a start that wrote the defaults is followed by one that accepts them, when the in-memory paths are set |
| Config.Settings.constructor | src/main.js:17-19 | the start-up game path, the folder containing it, and the default mods folder |
| Config.Settings.LoadConfig | src/main.js:106-122 | `loadConfig` on the disk is `LoadConfigFs`, and the in-memory settings stay as they are |
| Config.Settings.SaveConfig | src/main.js:125-140 | falsy arguments keep the current values; the file holds the new settings; then `gameExe`, `gameDir` (its folder) and `modsDir` take them over; a failed write changes nothing |
| Renderer.NameLeTotal | src/index.js:159-160 | the name order relates any two names |
| Renderer.NameLeTrans | src/index.js:159-160 | the name order is transitive |
| Renderer.SortPermutes | src/index.js:158-168 | sorting a list keeps exactly its elements |
| Renderer.SortSorted | src/index.js:158-168 | a sorted list is ordered by name |
| Renderer.PartitionAt | src/index.js:158-168 | the filters throw exactly when some entry is `null` or `undefined`; otherwise each mod is in exactly one list, once: browse when neither installed nor core, installed when installed and not core, loader when core |
| Renderer.PartitionExact | src/index.js:158-168 | the lists are built exactly when no entry is `null` or `undefined`, and then the same holds for every mod at once, with each list sorted by name |
| Renderer.ShelfDistinct | src/index.js:158-168 | no list holds a mod twice |
| Renderer.CheckOne | src/index.js:197-215 | a mod without `github`, already flagged, or with a special download is skipped with no request; otherwise the hash request comes first, and the mod is written back exactly when the check newly flags it; no field but `canUpdate` and `sha` changes |
| Renderer.CheckOneOutcomes | src/index.js:197-215 | for a checked mod: a failed request leaves it alone; a missing stored sha takes the fetched one without a write; an equal sha changes nothing; a different one sets `canUpdate` to true, keeps the sha and writes the mod to its sidecar |
| Renderer.CompareSha | src/index.js:202-212 | a truthy stored sha that differs from the latest one sets `canUpdate` to true and asks for a write; a falsy one is replaced by the latest; an equal one, or a value that is not an object, is returned unchanged; no field but `canUpdate` and `sha` changes |
| Renderer.CheckAllPointwise | src/index.js:194-216 | the loop's outcome for each mod is its own check, so one mod's failure leaves the others' checks as they would be; mods outside the list are untouched |
| Renderer.FlaggedNotAskedAgain | src/index.js:195-197 | a mod found outdated is persisted with its flag set, and a later check leaves it alone without a request |
| Renderer.NotModifiedKeepsMod | src/index.js:202 | a `304 Not Modified` answer never marks a mod with a stored sha as outdated |
| Renderer.Reload | src/index.js:150-177 | a `null` answer stops before anything is shown; a list the filters throw on becomes `allMods` and nothing else changes; otherwise the lists are rebuilt, and the check runs only on the first reload that builds them |
| Renderer.CheckRunsOnce | src/index.js:171-176 | after a reload that built the lists, no later reload makes a request; a reload whose filters threw keeps the check to come |
| Renderer.ReloadChecksInstalled | src/index.js:150-176 | the first reload checks exactly the installed mods and leaves browse and loader mods as they were; when the filters throw it sends nothing and keeps the shelves and the check flag |
| Renderer.FindMod | src/index.js:334 | `find` yields the first mod with that id, nothing when none has it, or a throw exactly when a `null` or `undefined` entry comes before any match |
| Renderer.ToggleFn | src/index.js:333-355 | the toggle succeeds exactly when the mod is found; only that mod changes, and only its `enabled`, which is negated; the requests are the marker action matching the new state on `modFullPath`, then `createFaro` of `modPath` with the toggled mod |
| Renderer.ToggleTwice | src/index.js:337-349 | toggling twice restores the mod when `enabled` is a boolean; the two toggles act on the same marker in opposite directions; the marker is deleted exactly when the mod is now enabled |
| Renderer.DeleteSteps | src/index.js:378-385 | the folder is deleted first, and the special paths only when the folder went and the list is non-empty |
| Renderer.Registry.constructor | src/index.js:2-5 | an empty registry, the check pending, nothing queued or installing |
| Renderer.Registry.CheckForUpdates | src/index.js:192-217 | the loop leaves the mods and the request log that `CheckAll` gives, and changes nothing else |
| Renderer.Registry.LoadAndRender | src/index.js:150-177 | `loadAndRenderMods` leaves the registry that `Reload` gives and does not touch the install queue |
| Renderer.Registry.Toggle | src/index.js:333-355 | `toggleMod` is `ToggleFn` on the registry; a `null` registry or a throwing `find` fails with nothing changed |
| Renderer.Registry.StartNext | src/index.js:412-418 | the oldest queued request starts, in queue order, with one install request |
| Renderer.Registry.RequestInstall | src/index.js:397-409 | a found mod with its icon is queued behind earlier requests while an install runs, and otherwise sent at once as the one new `install-mod` request; nothing else is sent; a throwing `find` fails with nothing queued; the queue order invariant holds |
| Renderer.Registry.FinishInstall | src/index.js:419-428 | the registry reloads whenever the `install-mod` request resolves, which includes the `{ success: false }` reply `src/main.js:622-625` gives for a caught failure; only a rejected request leaves the view as it was; either way the flag is cleared and the oldest queued mod leaves the queue; the requests sent are the reload's, then one `install-mod` request for that mod |
| Renderer.Registry.DeleteMod | src/index.js:362-393 | the requests go out in order, folder then special paths; the registry reloads only when every step succeeded; it fails exactly when the registry is `null` or `find` throws |
| Renderer.Registry.UpdateMod | src/index.js:357-360 | the deletion's requests come before the install request; the update fails exactly when the registry it ends with is `null` or makes `find` throw, and a failing deletion changes nothing |

## Left out

- The Electron window, IPC and preload plumbing, the DOM (`renderModList`, the
  details modal, the sidebar, the search bar, spinners), the file dialog and
  the game launch are not modelled.
- Logging is not modelled. Error messages are kept only as the text the code
  throws or returns, and a few of them are shortened.
- The network is an input. Commit replies, archive downloads and README
  fetches are functions from the URL to an outcome. HTTP redirects,
  streaming and `update-modlist` are not modelled.
- What the renderer gets back from the main process is also an input: the
  mods a reload receives, whether a deletion succeeded, whether a DOM element
  exists.
- `JSON.parse` is a parameter. `JSON.stringify` followed by parsing is
  `Jsonify`. Numbers are integers only.
- AdmZip is not modelled: an archive is the map of top-level entries it
  extracts to. `Math.random` is not modelled: the temporary name suffix is a
  parameter.
- Paths use `/` as the only separator. A path is a sequence of segments, and
  `..` and Windows drive letters are not modelled.
- The start-up writes of `modslist.json` and of the zip folder
  (`src/modsLoader.js:13-30`, `src/main.js:31-45`) are not modelled. Neither
  is the always-empty `excludedFolders` list.
- Renderer.NameLeTotal: `localeCompare` is approximated by code-unit
  lexicographic order. The source throws when a mod's `name` is not a string
  (`src/index.js:162-167`); the model compares its `String` form instead.
- Renderer.Registry.FinishInstall: the un-awaited marker promise of
  `toggleMod` and interleavings between awaits are not modelled. An install
  is split into `RequestInstall`/`StartNext`, then `FinishInstall`.
- Renderer.Registry.UpdateMod: the contract states the order of the deletion
  requests, the number of queued requests and the error case, not the full
  request log.
- Renderer.ToggleTwice: restoring the mod is stated only when `enabled` holds
  a boolean. For any other value the first toggle turns it into one.
- Renderer.ToggleFn: a missing mod shows an alert and ends the call. The
  model reports this as an error result, as it does a throwing `find`.
- Install.InstallHandler: the rescan `loadMods` runs in the middle of an
  install, and it is an input (a function on the disk) rather than a call to
  `ModsLoader.Loader.LoadMods`.
- FileOps.DeleteSpecialFs: a `specialPaths` string, which the source would
  walk character by character, deletes nothing in the model.
- Archives.ExtractFs: an archive entry replaces an existing entry of the same
  name, where AdmZip merges a folder into the existing one.
- FsTree.RenameFs: a rename onto an existing path is refused; the operating
  system may replace an empty folder or a file there. The installer checks
  for the target first, so its results do not depend on this.
- Install.ZipPath: the archive path is the mod's name plus `.zip` as one
  segment. `path.join` in the source splits a name holding `/` into nested
  folders, so such a name downloads under a sub-folder (or fails when it is
  missing) and unpacks by its last part only; the model does not capture that.
- FileOps.DeleteFileHandlerRemoves: a `fileName` holding `/` is one segment
  in the model, where `path.join` would descend into sub-folders.
- GitHub.FetchHash: a `null` mod makes the source throw when it reads
  `etag`; the model goes on without a stored ETag.
- ModsLoader.Loader.ProcessFolder: a `.faro` sidecar is read from a map kept
  beside the folder listing, not from the tree in `FsTree`. The scanner and
  the installer use separate disk models.
