# mcc session tooling, modelled in Dafny

`mcc` lists the coding assistant's recorded sessions and moves them between
machines. The sessions are line-delimited JSON transcripts under
`~/.claude/projects/<encoded project path>/<id>.jsonl`.

This project models four parts of the tool and proves properties about them:

- **Scanner** (`session.rs`, module `Sessions`). It loads one transcript and reads the summary and the git branch from its messages. It walks the projects directory, decodes project paths from directory names, and sorts the catalog newest first. It also formats the "time ago" label.
- **Exporter** (`export.rs`, module `Exporter`). It builds the versioned snapshot of a session, the identity string and the file-name slug, and writes the compressed snapshot into the output directory.
- **Importer** (`import.rs`, module `Importer`). It opens and parses a container. It rewrites the messages' `cwd` from the recorded project path to the target, writes the transcript at the encoded destination, and sets `lastSessionId` in `~/.claude.json`.
- **Browser** (`main.rs`, module `Browser`). It covers the `App` state (list, highlighted row, status line), the exact-path "current session" choice and the displayed project name.

Shared modules:

- `Common` holds Option/Result, character replacement, `PathBuf::join`, Rust's `str::lines`, and decimal printing with zero padding.
- `Json` holds JSON values and the message type. A message is a `type` string and a flattened attribute map.
- `Os` holds the ambient state. `Env` carries `HOME`, `USER`, the host name and the current directory. `Disk` holds directories, files and the set of read-only paths. Creating or writing a read-only path fails.

Things outside the program are parameters:

- **Serialisation and compression.** The serde_json line decoder is `decode`. The line encoder, the container parser and renderer, and the registry document parser and printer are also passed in. A compressed file is a `Gzip(payload)` blob.
- **Time.** The clock is a number of seconds, or an RFC 3339 string plus a broken-down stamp.
- **Directory listings.** The projects directory is given as an ordered listing. Each project is a sub-listing of session files with their contents and modification times. A `None` entry is an iteration error.

State-changing code is modelled as imperative Dafny, where the source works that way:

- `Sessions.ScanMetadata` is the early-exit metadata loop.
- `Sessions.FindAllSessions` is the nested collection loops followed by an in-place sort of an array (`Sessions.SortNewestFirst`).
- `Importer.RenderSession` is the rewrite-and-append loop.
- `Browser.App` is a class whose methods update `selected` and `message`.

Each of these is proved against a function that states the result.

A function and the method proved to compute it are one concept said twice: once as a definition and once in the code's own step-by-step form. The pairs are `Sessions.Loaded` and `Sessions.Load`, `Sessions.SummaryFor`/`Sessions.BranchFor` and `Sessions.ScanMetadata`, `Sessions.ProjectSessions` and `Sessions.ScanProject`, `Sessions.Collected` and `Sessions.CollectSessions`, `Importer.JsonlText` and `Importer.RenderSession`, and `Importer.ImportOutcome` and `Importer.ImportSession`.

Behaviour of the code worth knowing, which the model keeps as written:

- **The "..." suffix on a summary.** It is added when the content's UTF-8 *byte* length exceeds 60, not its character count (`src/session.rs:66`). So 31 two-byte characters get "..." although nothing was cut; see `Sessions.SummarizeMultibyteShortContent`.
- **Summary length.** A longer summary is the first 60 characters *plus* "...", i.e. 63 characters, not 60.
- **Slug order.** The slug filters first and then takes 30 characters of what was kept (`src/export.rs:90-91`). It does not truncate the raw summary first; see `Exporter.SlugFiltersBeforeTruncating`.
- **Branch after the summary.** The metadata loop stops at the first user message, so a `gitBranch` seen only after it is not recorded (`Sessions.BranchAfterSummaryIsLost`).

## Model

| member | source | states |
|---|---|---|
| Common.Lines | src/session.rs:32-33 | transcript text split as `str::lines` splits it (a '\r' directly before each '\n' dropped); no line contains '\n' |
| Common.LinesOfUnlines | src/session.rs:32-33 | splitting the text written as one line per entry gives back exactly those entries, when no entry holds '\n' or ends in '\r' |
| Common.LinesOfFirstLine | src/session.rs:33 | a first line without '\n' or a trailing '\r', ended by '\n', is split off unchanged |
| Common.NatToString | src/session.rs:100-108 | decimal rendering of a count: only digits, no leading zero except for 0 itself |
| Common.DecimalOfNatToString | src/session.rs:100-108 | the printed amount reads back as the number |
| Common.ZeroPadReadBack | src/export.rs:86 | a zero-padded field of width w for n < 10^w is exactly w digits that read back as n |
| Sessions.DecodeLines | src/session.rs:32-35 | decoding keeps at most one message per line |
| Sessions.DecodeLinesAppend | src/session.rs:32-35 | decoding is line by line: decoding a concatenation is concatenating the decodings |
| Sessions.DecodeLinesSkipsBadLine | src/session.rs:34 | a line that does not parse is dropped without affecting its neighbours |
| Sessions.DecodeLinesAllGood | src/session.rs:32-35 | when every line parses, message i is line i's decoding, and none is lost |
| Sessions.FirstUser | src/session.rs:61-64 | the first message of type "user" with a string `message.content`, or none when no message qualifies |
| Sessions.FirstUserAt | src/session.rs:61-69 | a message with user content and none before it is the one that supplies the summary |
| Sessions.LastBranchIndex | src/session.rs:56-58 | the last message carrying a string `gitBranch`, or none when none does |
| Sessions.SummaryFor | src/session.rs:52-71 | definition of the summary the metadata pass yields: "No messages" when no message is a user message with string content, otherwise the first such content summarised; `Sessions.ScanMetadata` is proved to compute it |
| Sessions.BranchFor | src/session.rs:52-71 | definition of the branch the pass yields: the last string `gitBranch` among the messages up to and including the first user message, or in the whole transcript when there is none; `Sessions.ScanMetadata` is proved to compute it |
| Sessions.ScanMetadata | src/session.rs:52-71 | the loop's summary and branch are the first user message's truncated content (else "No messages") and the last branch seen up to and including that message |
| Sessions.Summarize | src/session.rs:65-68 | the summary is at most 63 characters, begins with the content's first min(60, length) characters, and is the content itself when the content is at most 60 bytes long |
| Sessions.SummarizeShape | src/session.rs:65-68 | the summary is the first 60 characters, followed by "..." exactly when the content's UTF-8 length exceeds 60 |
| Sessions.SummarizeAscii | src/session.rs:65-68 | for ASCII content: up to 60 characters are kept whole; longer content gives its first 60 characters plus "..." (63 characters) |
| Sessions.AsciiUtf8Length | src/session.rs:66 | for ASCII text the byte length equals the character count |
| Sessions.SummarizeMultibyteShortContent | src/session.rs:65-68 | 31 two-byte characters are kept whole and still gain "...", because the test counts bytes |
| Sessions.TwoByteUtf8Length | src/session.rs:66 | the byte length of any text made only of two-byte characters (U+0080 to U+07FF) is twice its character count |
| Sessions.MetadataIgnoresLaterMessages | src/session.rs:69 | once a user message has supplied the summary, later messages change neither the summary nor the branch |
| Sessions.MetadataWithoutUserMessage | src/session.rs:53-58 | with no user message the summary is "No messages" and the branch is the last one in the whole transcript |
| Sessions.BranchAfterSummaryIsLost | src/session.rs:55-70 | a branch that appears only after the first user message is not recorded |
| Sessions.ToStrOfUnits | src/session.rs:40 | a name made of characters converts back to that text |
| Sessions.UnitsOfToStr | src/session.rs:40 | conversely, text read from a name turns back into exactly that name's units |
| Sessions.LastDot | src/session.rs:39 | the position of the last '.' in a file name, or none when there is none |
| Sessions.FileStem | src/session.rs:41 | `Path::file_stem`: when present, the stem is a leading part of the file name |
| Sessions.SessionId | src/session.rs:38-42 | the id is "unknown" or the text of a leading part of the file name; `Sessions.TranscriptNames` says which part |
| Sessions.TranscriptNames | src/session.rs:38-42 | a file is a transcript (the scanner's test at session.rs:143) iff its name ends in ".jsonl" after a non-empty stem; its id is that stem, or "unknown" when the stem is not text |
| Sessions.TranscriptNameOfId | src/session.rs:38-42 | the file `<id>.jsonl` for a non-empty id is a transcript whose id is `id` |
| Sessions.UndecodableStemIsUnknown | src/session.rs:41 | a stem that is not valid text gives the id "unknown" |
| Sessions.Load | src/session.rs:28-82 | an unreadable file gives a read error, then missing metadata gives a metadata error; otherwise the session has the decoded messages, the stem as id, the given project path, the mtime, and the scanned summary and branch |
| Sessions.Loaded | src/session.rs:28-82 | definition of loading one file: a read error, else a metadata error, else the session built from its decoded lines, the stem, the project path and the mtime; `Sessions.Load` is proved to compute it |
| Sessions.ProjectSessionsAreLoaded | src/session.rs:139-147 | every session gathered from a project directory carries that project's path and is the load of one of its transcript entries |
| Sessions.LoadedTranscriptIsGathered | src/session.rs:143-147 | conversely, every transcript entry of a project directory that loads is in that directory's gathered sessions |
| Sessions.CollectedSessionsAreLoaded | src/session.rs:123-149 | every session of the whole scan is the load of a transcript entry of some project directory and carries that directory's decoded path |
| Sessions.CollectedIsComplete | src/session.rs:123-149 | every transcript that loads, in any project directory of the root, is in the whole scan's result |
| Sessions.FailedLoadIsSkipped | src/session.rs:143-147 | a non-transcript entry or a file that fails to load adds nothing to the catalog |
| Sessions.PrefixFailureIsFinal | src/session.rs:123-124 | an error while listing the projects ends the scan with that error, whatever follows |
| Sessions.ProjectPrefixFailureIsFinal | src/session.rs:139-140 | an error while listing one project ends the scan with that error, whatever follows |
| Sessions.ProjectPathOf | src/session.rs:132-136 | the project path decoded from a directory name holds no '-' and, for a name that is text, has one character per unit; "" for a name that is not text |
| Sessions.ProjectSessions | src/session.rs:139-148 | definition of one project directory's sessions in listing order: an entry error ends the scan, non-transcripts and failed loads are skipped; `Sessions.ScanProject` is proved to compute it |
| Sessions.Collected | src/session.rs:123-149 | definition of all project directories' sessions in directory order: non-directories are skipped and the first listing or entry error ends the scan; `Sessions.CollectSessions` is proved to compute it |
| Sessions.CatalogOf | src/session.rs:123-149 | an unreadable projects directory is a listing error, otherwise the collected sessions |
| Sessions.ScanProject | src/session.rs:139-148 | the inner loop gathers exactly the sessions that one project directory's listing yields, or stops at the first entry error |
| Sessions.CollectSessions | src/session.rs:123-149 | the outer loop gathers every project directory's sessions in directory order, or stops at the first listing or entry error |
| Sessions.InsertNewest | src/session.rs:152 | one insertion step: the first i+1 elements become ordered newest first, later elements stay put, and the contents are unchanged as a multiset |
| Sessions.SortNewestFirst | src/session.rs:152 | the array ends ordered by modification time, most recent first, and is a permutation of its input |
| Sessions.FindAllSessions | src/session.rs:113-155 | no HOME is an error; a missing projects directory is an empty catalog; a listing error is that error; otherwise the catalog holds exactly the loaded transcripts of every project directory (as a multiset), newest first |
| Sessions.TimeAgo | src/session.rs:92-109 | the label is decimal digits, then one of the unit letters s, m, h, d, then " ago" |
| Sessions.TimeAgoBuckets | src/session.rs:98-108 | the label's unit is the coarsest among s/m/h/d that fits the elapsed time, and its amount is the whole number of those units that have passed |
| Sessions.TimeAgoFuture | src/session.rs:98 | a modification time at or after "now" reads "0s ago" (saturating subtraction) |
| Sessions.TimeAgoReadBack | src/session.rs:100-108 | the label is decimal digits that read back as the amount, then the unit letter, then " ago" |
| Exporter.SnapshotIsLossless | src/export.rs:29-48 | the snapshot is version "1.0.0", carries the given export time and the `user@host` identity, and its session data restores the session field for field |
| Exporter.FromSession | src/export.rs:29-48 | definition of the snapshot: version "1.0.0", the given export time, the identity, and the session's id, path, messages, summary and branch |
| Exporter.IdentityReadBack | src/export.rs:30-40 | the identity splits back at its first '@' into user and host (each "unknown" when unavailable), when the user name holds no '@' |
| Exporter.Identity | src/export.rs:30-40 | definition of the identity: `user@host`, each part "unknown" on its own when unavailable |
| Exporter.KeptChars | src/export.rs:89-90 | the filtered summary is no longer than the summary and holds only alphanumerics, spaces and '-' taken from it |
| Exporter.Slug | src/export.rs:87-94 | definition of the slug: keep alphanumerics, spaces and '-', take 30 of them, turn spaces into '-', lower-case |
| Exporter.KeptCharsAppend | src/export.rs:89-90 | filtering is character by character |
| Exporter.KeptCharsNone | src/export.rs:90 | a summary with nothing to keep filters to the empty text |
| Exporter.KeptCharsAll | src/export.rs:90 | a summary of kept characters filters to itself |
| Exporter.SlugOfAscii | src/export.rs:87-94 | for an ASCII summary the slug is min(kept, 30) characters long and holds only lower-case letters, digits and '-' |
| Exporter.LowercaseAscii | src/export.rs:94 | lower-casing ASCII text maps each letter to its lower case and keeps its length |
| Exporter.LowercaseAvoids | src/export.rs:94 | lower-casing introduces no space or '/' that the tables do not produce |
| Exporter.SlugHasNoSeparators | src/export.rs:87-94 | the slug holds no space and no '/' |
| Exporter.SlugFiltersBeforeTruncating | src/export.rs:90-91 | leading characters that are filtered out do not use up the 30-character budget |
| Exporter.SlugIdempotent | src/export.rs:87-94 | for ASCII text, slugging a slug gives the same slug |
| Exporter.StampReadBack | src/export.rs:86 | a valid time prints as "YYYYMMDD-HHMMSS", 15 characters whose fields read back as year, month, day, hour, minute and second |
| Exporter.DateReadBack | src/export.rs:86 | `%Y%m%d` of a valid time is 8 digits that read back as year, month and day |
| Exporter.TimeReadBack | src/export.rs:86 | `%H%M%S` of a valid time is 6 digits that read back as hour, minute and second |
| Exporter.StampText | src/export.rs:86 | definition of `%Y%m%d-%H%M%S`; `Exporter.StampReadBack` gives its shape |
| Exporter.ExportFileName | src/export.rs:96 | definition of `<stamp>-<slug>.json.gz` |
| Exporter.FileNameHasNoSlash | src/export.rs:86-96 | a valid time and a slug without '/' give a file name without '/' |
| Exporter.ExportDirectory | src/export.rs:75-80 | definition of the output directory: the given one, else `HOME/.mcc/exports`, else the error `HomePanic` |
| Exporter.ExportToFile | src/export.rs:52-67 | definition of writing the rendered container, compressed, at the path: a write error, else the new store |
| Exporter.ExportSession | src/export.rs:71-102 | definition of a whole export: directory, `create_dir_all`, file name, write, each failure ending it with the store as it then is; `Exporter.ExportWritesOneFile` states its effect |
| Exporter.ExportWritesOneFile | src/export.rs:71-102 | export fails exactly when the directory is unknown or cannot be created or the file cannot be written, and then changes no file; on success it creates the directory and writes the compressed snapshot at `<dir>/<stamp>-<slug>.json.gz`, and nothing else |
| Exporter.DefaultExportStaysInExportsDir | src/export.rs:75-97 | with no directory given, and no lower-case mapping yielding '/' or a space, the file is written directly inside `HOME/.mcc/exports` |
| Importer.PreviewSession | src/import.rs:92-101 | definition of opening a container: a missing file is an open error, an uncompressed file a decompress error, unparsable content a parse error; otherwise the parsed container |
| Importer.PreviewOfExport | src/import.rs:92-101 | opening what the exporter wrote (export.rs:52-67) gives back the container, when parsing inverts rendering |
| Importer.ResolveTarget | src/import.rs:23-31 | definition of the target: the explicit path, else the current directory, else the error `NoCurrentDir` |
| Importer.EncodePath | src/import.rs:35 | the directory name for a project path has the path's length and holds no '/' |
| Importer.PathCodecRoundTrip | src/import.rs:35 | decoding (session.rs:132-136) the directory name that import creates gives back the project path iff the path holds no '-' |
| Importer.PathCodecCollision | src/import.rs:35 | "/a-b" and "/a/b" are stored in the same project directory |
| Importer.SessionDir | src/import.rs:36-38 | definition of `HOME/.claude/projects/<encoded target>` |
| Importer.SessionFilePath | src/import.rs:43 | definition of `<session dir>/<id>.jsonl`; `Importer.DestinationLayout` gives its shape |
| Importer.JoinEndsWithSegment | src/import.rs:43 | a joined path ends with the segment joined on |
| Importer.DestinationLayout | src/import.rs:33-43 | for a non-empty target and an id without '/', the transcript goes to `<HOME>/.claude/projects/<target with '/'→'-'>/<id>.jsonl` |
| Importer.AbsoluteIdEscapesProjects | src/import.rs:43 | an absolute session id from the container replaces the whole destination path |
| Importer.SessionFileIsNotRegistry | src/import.rs:43-75 | the transcript and `~/.claude.json` are never the same file |
| Importer.RewriteCwd | src/import.rs:53-57 | only a string `cwd` equal to the recorded path becomes the target; the type and all other fields are kept, and other messages pass through unchanged |
| Importer.RewriteIdempotent | src/import.rs:49-58 | rewriting already rewritten messages changes nothing |
| Importer.RewriteToOriginalIsIdentity | src/import.rs:49-58 | importing onto the recorded project path leaves every message as it was |
| Importer.JsonlText | src/import.rs:60-61 | definition of the transcript text: each message's compact encoding followed by '\n'; `Importer.RenderSession` is proved to build it |
| Importer.RenderSession | src/import.rs:45-62 | the output text is the rewritten messages, encoded one per line, each line ended by '\n' |
| Importer.WrittenTranscriptLoadsBack | src/import.rs:60-61 | loading the written transcript with the scanner's line decoding (session.rs:32-35) yields exactly the messages written, when line encoding is decodable and writes no '\n' or trailing '\r' |
| Importer.SetLastSessionId | src/import.rs:80-85 | an object entry for the target gains `lastSessionId = id` with its other keys kept; a null entry becomes `{lastSessionId: id}`; any other entry is an error; other projects and top-level keys are untouched; without an entry the document is unchanged |
| Importer.SetLastSessionIdIdempotent | src/import.rs:80-85 | setting the same id twice gives the same document as setting it once |
| Importer.UpdateClaudeConfig | src/import.rs:73-89 | definition of the registry update: read, parse, edit, write back, each failure ending it with the store unchanged; `Importer.UpdateTouchesOnlyRegistry` states its effect |
| Importer.UpdateTouchesOnlyRegistry | src/import.rs:73-89 | the registry update writes only `~/.claude.json`; when it fails, the error is a registry error and nothing changes |
| Importer.ImportOutcome | src/import.rs:10-70 | definition of a whole import: preview, target, HOME, directory, transcript, registry, in that order; `Importer.ImportSession` is proved to compute it |
| Importer.ImportSession | src/import.rs:10-70 | the import's result and resulting store are those of the staged outcome: open, target, HOME, directory, transcript, registry |
| Importer.ImportAbortsBeforeWriting | src/import.rs:12-40 | an open, decompress or parse failure, a missing current directory or HOME, or a failed directory creation leaves the store untouched |
| Importer.ImportWritesTranscriptFirst | src/import.rs:23-69 | on success, and on every registry failure, the transcript with the rewritten lines is at the destination for the explicit target (else the current directory); on success that path is returned |
| Importer.ImportIdempotent | src/import.rs:10-70 | importing the same container to the same target a second time returns the same path and leaves the store as the first import left it |
| Importer.ExportImportRoundTrip | src/import.rs:45-64 | exporting (export.rs:29-48) and importing onto the recorded path writes the session's messages unchanged, and loading that file yields them again |
| Browser.NextIndex | src/main.rs:49-53 | moving down goes one row further, and from the last row to the first |
| Browser.PrevIndex | src/main.rs:55-63 | moving up goes one row back, and from the first row to the last |
| Browser.NavigationInverse | src/main.rs:49-63 | on an existing row, up after down and down after up return to it |
| Browser.NextStepsClimb | src/main.rs:49-53 | below the last row each press moves exactly one row down |
| Browser.NextStepsCompose | src/main.rs:49-53 | a + b presses are a presses followed by b presses |
| Browser.FullCycleReturns | src/main.rs:49-53 | pressing down once per row comes back to the starting row |
| Browser.Clamped | src/main.rs:41-47 | after a reload the highlight is on a row of a non-empty list, kept if it still exists, moved to the last row otherwise, and left as it was for an empty list |
| Browser.BestMatch | src/main.rs:89-91 | none iff no session has exactly the current path; otherwise a session with that path and a maximal modification time, and no later one in catalog order ties it |
| Browser.CurrentSession | src/main.rs:89-91 | the chosen session is none iff no session has exactly the current path; otherwise it is a catalog session at that path with a maximal modification time |
| Browser.BestMatchInNewestFirst | src/main.rs:89-91 | in the newest-first catalog (session.rs:152), the chosen session has the first match's timestamp and is at or after it |
| Browser.ProjectName | src/main.rs:372-376 | the name is the suffix after the last '/', holds no '/', and is the whole path when there is no '/' |
| Browser.ProjectNameWithoutSlash | src/main.rs:372-376 | a path without '/' is its own project name |
| Browser.ProjectNameOfChild | src/main.rs:372-376 | the name of `dir/leaf` is `leaf` |
| Browser.App.constructor | src/main.rs:32-39 | a new browser shows the given catalog with the first row highlighted and no status |
| Browser.App.SelectNext | src/main.rs:49-53 | keeps the highlight on a row; on a non-empty list the highlight moves down with wrap-around and is then on a row; an empty list and the sessions and status are untouched |
| Browser.App.SelectPrev | src/main.rs:55-63 | on a non-empty list the highlight moves up with wrap-around, staying on a row; an empty list and the sessions and status are untouched |
| Browser.App.ReloadSessions | src/main.rs:41-47 | a failed scan changes nothing and returns its error; a successful one replaces the list and clamps the highlight |
| Browser.App.ExportSelected | src/main.rs:65-73 | with the highlight on a row: an empty list does nothing; otherwise the highlighted session is exported to the default directory, and only success sets the status to "Exported to: <path>" |

## Left out

- The terminal interface: drawing, the key-event loop, and the status messages it sets itself: "Export failed: …" after a failed export, "Reload failed: …" after a failed reload and "Sessions reloaded" after a successful one (src/main.rs:331-341). These are rendering and event dispatch around `App`.
- Sessions.TimeAgo: `Session::time_ago` reads the clock and `unwrap`s its distance from the epoch, which panics when the clock is set before 1970 (src/session.rs:93-96); the model takes the reading as a natural number, so that panic is not modelled.
- The command-line dispatch: printing, exit codes, and the fixed `./mcc-export.json.gz` name of `mcc export` and `mcc import`. The core calls they make are modelled.
- Cloud upload and bucket configuration (`cloud.rs`). They shell out to an external tool, and cloud.rs is not part of this model.
- gzip and serde_json are not modelled. They are the codec parameters and the `Gzip` blob; whether a particular JSON text parses is up to the parser given.
- `Session::message_count` is the length of `messages` and needs no model. The unused `file_path` field is dropped.
- The OS is modelled only as far as failure goes. Only an operation on a read-only path fails. Partial writes, permission details, `exists()` races and concurrent writers are out. A directory listing is data given in its iteration order.
- Fixed-width integers are not modelled. Seconds and indices are unbounded naturals, so `usize`/`u64` overflow is not modelled; it cannot occur at realistic sizes.
- Exporter.LowerChar: non-ASCII lower-casing and `is_alphanumeric` come from given Unicode tables. Context-sensitive forms such as the final sigma are not modelled.
- Sessions.SortNewestFirst: proved sorted and a permutation, but not stable. The order of sessions with equal timestamps is not stated.
- Exporter.ExportWritesOneFile: with no output directory and HOME unset, `std::env::var("HOME").unwrap()` (src/export.rs:78) panics; the model returns the error `HomePanic` instead. `Browser.App.ExportSelected` inherits this, so where the program aborts the model reports a failed export and keeps running.
- Importer.SetLastSessionId: a panic of serde_json's index assignment on an entry that is neither an object nor null is modelled as an error result.
- Importer.UpdateClaudeConfig: reads HOME a second time in the source; the model passes the value the import already read, since the environment does not change in between.
- Importer.ImportSession: a serialisation error of a message line cannot happen for JSON values, so line encoding is a total function.
- Browser.App.constructor: `App::new` propagates a scan error; the model takes the catalog as already gathered.
