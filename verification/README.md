# Verified models of dlc

Dafny models of the parts of dlc that promise something across functions, tiers or runs, and proofs of what they
promise. Two command-line runners, native Go and browser TypeScript, are shown to read what was typed and to build the
same request bytes of it. The bundle format is shown to lose nothing but invalid UTF-8 in names, and its parser to read
exactly the documents of a grammar. Several browser tabs over one store are shown not
to overwrite each other unawares, in every interleaving of harmless steps: every step is, except that clearing the
store, a flush that throws, and a reload before a tab's own flush is announced are harmless only when they leave nobody
behind. The derived index of the notes app is shown to be the rebuilt one, the registered commands to be a function of
what was declared, and the lock files to be permanent.

Each part has the same shape. Functions say what an operation means, methods (with the loops, cursors, arrays and
fields of the original) are proved to compute it, and lemmas prove what the repository promises about the functions.
Where the code does not keep a promise everywhere, the lemma says exactly where it does, and a second one gives an
input for which it does not.

| files | about |
|---|---|
| `CommandSpec` `CommandLine` `Parsing` `TypedLine` `Encoding` `TypedValues` `SameBytes` | a command line from argv to request bytes, on both tiers |
| `Terminal` `TerminalWords` | splitting a typed line; the line the inspector prints |
| `Varint` `Surface` | the Protocol Buffers wire format; the web host's manifest and surface messages |
| `Bundle` `BundleParser` `BundlePrinter` `BundleRoundTrip` `BundleStrings` `BundleGrammar` `Base64` `Utf8` | the BFT bundle format (section 7 of RFC 8259, section 4 of RFC 4648, section 3 of RFC 3629) |
| `Paths` `FileTree` `Merge` | path containment; export and import of directory trees |
| `Opfs` `Fingerprint` `Bits` | mirroring the engine's tree into the browser store, and the digest that decides whether to |
| `Tabs` `TabRuns` `LostWrites` `TabWorker` | several tabs over one store |
| `Keys` `Notes` `NotesIndex` | the notes app and its derived index |
| `Registry` | which commands are registered |
| `Locks` | the id and topic lock files |
| `Basics` `Sorting` `Decimal` | shared: options and results, sorted names, numerals |

Findings, each with a lemma:

- The two runners differ on a `--` terminator (`Parsing.TerminatorDiffers`), on a trailing value flag
  (`Parsing.DanglingDiffers`), on command names in another case (`SameBytes.CaseDiffers`), on commands the engine says
  it lacks (`SameBytes.SameCommandLineSameBytes`), on spellings of numbers and booleans that only one encoder reads
  (`Encoding.FieldsAgree`) and on field numbers from 2^28 (`Encoding.TagsAgree`). The comments in
  `dlc-platform/web/terminal.ts:8-13` and `dlc-platform/web/encode.ts:4-10` promise more than that.
- A shown value that holds white space and control characters, or quotes and no white space, does not retype
  (`Terminal.ShownValueExact`), and neither does a form with a switch filled in (`Terminal.PrintedSwitchIsRefused`).
- A bundle does not keep names that are not valid UTF-8 (`BundleRoundTrip.BundleRoundTrips`).
- An export of a prefix strictly inside the index directory does hold index files (`FileTree.IndexCanTravel`), where
  `dlc-platform/fs.go:113-124` says that they never travel.
- A flush throws when a name changed between file and directory since the store was last written
  (`Opfs.CompatibleWhenNoClash`), and then nobody is told what it had already removed (`LostWrites.FailedFlushIsUndone`).
- The fingerprint does not see where a directory ends (`Fingerprint.DirectoryEndIsSilent`).
- A reload in the middle of a flush can lose the write (`LostWrites.ReloadMidFlushLosesAWrite`), clearing the store
  tells no other tab (`LostWrites.ClearIsUndone`), a tab whose command was admitted before it heard of another's write
  overwrites that write (`LostWrites.AdmittedTabOverwrites`), and after a trap a command that only reads writes
  (`LostWrites.TrapMakesAReaderWrite`).
- `RegisterAll` on top of `RegisterDiscovered` registers filesystem verbs on a host without a filesystem
  (`Registry.RegisterAllAfterDiscovered`). An app's own handler for a platform id survives exactly until a call empties
  the id's block (`Registry.OverridesSurviveExactly`), for one when the filesystem goes (`Registry.OverrideRunIsLost`).
- A title whose slug is a device name leaves a record that no index can list (`NotesIndex.CreateExact`), and deleting
  by an id with a slash in it can remove another record's file or its entry (`NotesIndex.SlashedDeleteExact`).

## Model

| member | source | states |
|---|---|---|
| CommandSpec.SortIsStable | dlc-platform/cli/encode.go:172-180 | sorting by field number or position orders the flags, keeps every one of them, and keeps declaration order among equal keys |
| CommandSpec.StableSortUnique | dlc-platform/web/encode.ts:37-50 | any list ordered by key with equal keys in declaration order is the sorted list, so JavaScript's stable sort and Go's hand-written one agree |
| CommandSpec.SortInPlace | dlc-platform/clispec/spec.go:112-124 | the in-place insertion sort leaves the stable sort of the array's old contents |
| CommandSpec.FieldsInOrder | dlc-platform/cli/encode.go:172-180 | the encoder visits a copy of the flags in ascending field order |
| CommandSpec.CollectPositionals | dlc-platform/clispec/spec.go:112-124 | the positional flags in position order, stable |
| CommandSpec.CheckPositionals | dlc-platform/cmd/protoc-gen-dlc-registry/cli.go:43-70 | accepts exactly positions numbered 1, 2, … without a gap in which only the last may be repeated |
| CommandLine.AssignPositionals | dlc-platform/cli/run.go:331-363 | the loop over positions and bare arguments gives the assignment, or the error, that the specification gives |
| CommandLine.AssignConserves | dlc-platform/cli/run.go:331-363 | on success the newly assigned values, read in position order, are exactly the bare arguments: none dropped, doubled or reordered |
| CommandLine.AssignFrame | dlc-platform/cli/run.go:331-363 | a field supplied as a flag, and every field without a position, keeps its values; a field that is not repeated gets one at most |
| CommandLine.AssignFailsExactly | dlc-platform/cli/run.go:331-363 | assignment fails exactly when there are more bare arguments than open positions and none of those is repeated |
| CommandLine.Complete | dlc-platform/cli/run.go:273-305 | defaults, then the host's fill, then the required check, in that order and over the shared map |
| CommandLine.DefaultsFillGaps | dlc-platform/cli/run.go:274-279 | a default never replaces a given value, and a field left without values has no default |
| CommandLine.FinishExactly | dlc-platform/cli/run.go:273-305 | what is encoded is the filled values, exactly if no required field is without one; otherwise the first such field is named |
| Parsing.Permute | dlc-platform/cli/run.go:443-525 | the two loops find the command, and move flags with their values in front of bare arguments up to the terminator |
| Parsing.ParseFlags | dlc-platform/web/terminal.ts:285-341 | the web's index loops give the scanned values, with the bare arguments handed to the positions |
| Parsing.SameSplit | dlc-platform/cli/run.go:476-525 | on a command line the web scan accepts, permuting and then parsing with Go's flag package collects the same values per flag, in the same order, and leaves the same bare arguments |
| Parsing.NotPlainFails | dlc-platform/web/terminal.ts:298-322 | a command line with a terminator, an unknown flag or a value flag at the end is refused by the web scan |
| Parsing.ParsersAgree | dlc-platform/web/terminal.ts:285-341 | the web parser accepts exactly the plain command lines that the native one accepts, with equal values |
| Parsing.TerminatorDiffers | dlc-platform/cli/run.go:476-490 | what follows `--` is a bare argument natively and an error in the web terminal |
| Parsing.DanglingDiffers | dlc-platform/cli/run.go:503-512 | a trailing value flag takes the bare argument in front of it natively and is an error in the web terminal |
| TypedLine.AcceptedIsTyped | dlc-platform/web/terminal.ts:285-323 | the web's pass accepts exactly the command lines spelled from items: a flag under either name with one dash or two, its value behind `=` or next, a switch, or a bare argument |
| TypedLine.ValuesAsTyped | dlc-platform/cli/run.go:227-259 | of such a line both runners give each flag all its values in the order typed and the vacant positions the bare arguments, and refuse it exactly when there are too many of these |
| TypedLine.RegistrableExactly | dlc-platform/cli/run.go:232-259 | a command's flags can be registered exactly when their spellings are flag names and none is taken twice |
| Encoding.EncodeNative | dlc-platform/cli/encode.go:45-67 | the appending loop writes every value of every field in field order, or stops with the first error |
| Encoding.EncodeWeb | dlc-platform/web/encode.ts:37-50 | the pushing loop does the same for the web encoder |
| Encoding.AppendField | dlc-platform/web/encode.ts:52-109 | one value's tag and payload are pushed behind what is there, or an error leaves nothing to send |
| Encoding.AppendVarint | dlc-platform/web/encode.ts:139-146 | the loop pushes the groups of seven bits, least significant first |
| Encoding.PushesAreVarint | dlc-platform/web/encode.ts:139-146 | for every number that is not negative the loop writes the wire format's varint |
| Encoding.TagsAgree | dlc-platform/web/encode.ts:135-137 | the web's 32-bit shift gives the wire format's tag exactly below field number 2^28 |
| Encoding.FieldsAgree | dlc-platform/web/encode.ts:52-146 | a value is accepted by both encoders exactly when it is spelled in a way both read, and then the bytes are equal, two's complement included |
| SameBytes.RequestsAgree | dlc-platform/web/encode.ts:4-10 | for equal values the two requests are equal wherever both encoders accept them |
| SameBytes.SameCommandLineSameBytes | dlc-platform/web/terminal.ts:8-13 | whenever the web terminal builds a request, the native runner builds the same bytes, exactly if its flags can be registered, the engine has the command, and every value is spelled for both encoders; and it never builds other ones |
| SameBytes.CaseDiffers | dlc-platform/cli/run.go:97-140 | a command name in another case is executed natively and unknown to the web terminal |
| SameBytes.RequestExactly | dlc-platform/cli/encode.go:45-67 | each encoder makes a request exactly when no field that is not repeated has several values and it can read every value |
| TypedValues.IntegersAsTyped | dlc-platform/cli/encode.go:103-153 | a typed integer is refused exactly when it is out of the 64-bit range of its kind, and otherwise is the number on the wire |
| TypedValues.OthersAsTyped | dlc-platform/cli/encode.go:103-153 | the six spellings of true are 1 and those of false 0, an enumeration's value is its place, any other is refused, and a text is its characters in UTF-8 |
| TypedValues.WebReadsExactly | dlc-platform/web/encode.ts:111-123 | the web encoder takes as an integer exactly digits with a sign or none and white space on either side |
| TypedValues.WebIntegersAsTyped | dlc-platform/web/encode.ts:70-133 | and pushes what was typed, in two's complement when negative, without an upper bound; an unsigned field refuses a negative one |
| SameBytes.RequestDecodes | dlc-platform/cli/encode.go:45-67 | a decoder of the wire format, run on a request, finds exactly the given values in ascending field order |
| SameBytes.SignedValueSurvives | dlc-platform/cli/encode.go:103-153 | an int32 or int64 value, negative ones included, reads back as the integer that was typed, in ten bytes at most |
| Terminal.Tokenize | dlc-platform/web/terminal.ts:58-93 | the character loop splits a line into the specified tokens, or reports the quote left open |
| TerminalWords.SplitsExactly | dlc-platform/web/terminal.ts:58-93 | the lines that are split, with the words they are split into, are exactly those typed from characters, single and double quotes, and gaps |
| TerminalWords.RefusesExactly | dlc-platform/web/terminal.ts:58-93 | a line is refused for a quote exactly when that quote stands behind whole parts and is never closed |
| Terminal.ShownValueExact | dlc-platform/web/inspector.ts:286-305 | a value shown by the inspector reads back as itself exactly when it has white space and no control characters, or neither white space nor quotes |
| Terminal.ReadJoined | dlc-platform/web/terminal.ts:58-93 | any number of parts, shown and joined, come back as themselves exactly when each of them survives |
| Terminal.RetypingTheLine | dlc-platform/web/inspector.ts:286-305 | for every form, switches included: the printed line's parts come back exactly when every value survives, they parse into the form's values exactly when no switch is filled in, and the typed line as a whole parses into those values exactly when both is so |
| Terminal.PrintedSwitchIsRefused | dlc-platform/web/inspector.ts:296-305 | a switch set to `true` prints as two arguments, of which the parser refuses the second |
| Varint.VarintRoundTrip | dlc-platform/web/encode.ts:139-146 | decoding an encoded number gives it back with what followed it |
| Varint.RecordsRoundTrip | dlc-platform/cli/encode.go:103-153 | decoding an encoded flat message gives back its fields, each once and in order |
| Bits.OrAdds | dlc-platform/web/environment.ts:177-188 | `\|=` of bits shifted above those already there is addition |
| Surface.ReadVarint | dlc-platform/web/environment.ts:177-188 | the loop reads what the specification reads, with the length it took |
| Surface.ReadsWhatWasWritten | dlc-platform/web/environment.ts:177-188 | at any offset, an encoded number reads back exactly below 2^32 with its length, as its low 32 bits below 2^35, and is refused from there on |
| Surface.LiveSurface | dlc-platform/web/environment.ts:132-175 | the loops over records and packed ids give the specified set, or no answer |
| Surface.SurfaceIsWhatWasSent | dlc-platform/web/environment.ts:120-175 | however an encoder packs the ids, the surface read is the set sent when it holds id 4, and no answer otherwise |
| Surface.EncodeSetEnvironment | dlc-platform/web/environment.ts:58-94 | refuses a revision that is not positive, and otherwise writes the nested message of revision and facts |
| Surface.ManifestIsUnderstood | dlc-platform/web/environment.ts:50-94 | a decoder of the wire format finds exactly the facts stated, three messages deep, and the revision exactly below 2^32 |
| Base64.RoundTrip | dlc-platform/bft.go:140-150 | decoding what was encoded gives back every byte string |
| Base64.DecodesExactly | dlc-platform/bft.go:240-255 | a text decodes to bytes exactly when, line breaks aside, it stands for them in groups of 24 bits, padded only at the end |
| Utf8.SanitizeExact | dlc-platform/bft.go:168-194 | rewriting a string rune by rune changes it exactly when it is not valid UTF-8 |
| Utf8.SanitizeReplaces | dlc-platform/bft.go:168-194 | a well-formed rune is kept and a byte that begins none becomes U+FFFD |
| BundlePrinter.EncodeBundle | dlc-platform/bft.go:105-194 | the buffer-filling printer writes the specified document, whatever order the maps yield their keys in |
| BundleParser.Parser.ReadString | dlc-platform/bft.go:357-410 | reads a string with every escape, and leaves the cursor behind its closing quote |
| BundleParser.Parser.ReadObject | dlc-platform/bft.go:266-317 | reads an object, ends on every input, and only ever moves the cursor forward |
| BundleParser.Parser.ReadEntries | dlc-platform/bft.go:319-355 | reads the entries, a later name replacing an equal earlier one |
| BundleParser.Parser.ReadNode | dlc-platform/bft.go:221-264 | reads a node and decides its kind from the fields, or fails |
| BundleParser.DecodeBundle | dlc-platform/bft.go:207-219 | gives a tree exactly when the whole input is one node with white space around it, and otherwise an error, on every byte string |
| BundleStrings.StringsExactly | dlc-platform/bft.go:357-410 | the strings that are read, with what they are read as, are exactly the spelled ones: every single-letter escape, and every code of four digits in either case |
| BundleGrammar.DecodesExactly | dlc-platform/bft.go:207-355 | a bundle decodes to a tree exactly when it is a document that means the tree: any white space, any order of fields, the last of equal keys, unknown fields passed over |
| BundleRoundTrip.StringRoundTrip | dlc-platform/bft.go:168-194 | a written string reads back as its runes |
| BundleRoundTrip.ReadNode | dlc-platform/bft.go:112-150 | at any depth, and in front of anything, a written node reads back as the same node with its names rewritten rune by rune |
| BundleRoundTrip.FileKind | dlc-platform/bft.go:137-166 | a file goes out as text exactly when it is valid UTF-8 with no control character but tab, line feed and carriage return, and in base64 otherwise |
| BundleRoundTrip.BundleRoundTrips | dlc-platform/bft.go:105-219 | decoding an encoded tree always succeeds, and gives the tree itself exactly when all its names are valid UTF-8, whatever bytes the files hold |
| BundleRoundTrip.BundlesAreFaithful | dlc-platform/bft.go:105-110 | different trees with valid names have different bundles |
| Paths.CleanIdempotent | dlc-platform/fs.go:86-86 | cleaning a path twice is cleaning it once |
| Paths.CleanLeadsSame | dlc-platform/fs.go:86-86 | a cleaned path leads where the path led, from every working directory |
| Paths.AcceptedExactly | dlc-platform/fs.go:79-94 | a path is accepted exactly when it is relative, not empty, and no prefix of it climbs above its start |
| Paths.StaysUnderRoot | dlc-platform/fs.go:79-94 | what is returned for an accepted path leads to the root followed by plain names |
| FileTree.Walk | dlc-platform/bft.go:72-90 | the recursive walk yields every file in name order with the path it stands at, whatever the names are |
| FileTree.WalkSpells | dlc-platform/bft.go:72-90 | for names without slashes that is the listing of the tree's files with their places spelled out |
| FileTree.ItemsAreFiles | dlc-platform/bft.go:72-90 | a path is listed with a content exactly when the tree has that file there |
| FileTree.ItemsDistinct | dlc-platform/bft.go:72-90 | no file is listed twice |
| FileTree.InsertRebuilds | dlc-platform/bft.go:45-90 | inserting the listing into an empty tree rebuilds the tree without its file-less directories |
| FileTree.ExportedFiles | dlc-platform/fs.go:118-192 | an export holds exactly the prefix's files outside the index directory, and index files exactly when the prefix lies strictly inside it |
| FileTree.ExportedDirs | dlc-platform/fs.go:113-192 | an export succeeds exactly for a directory, the index counting as an empty one, and holds every directory that may travel, empty ones too |
| FileTree.IndexCanTravel | dlc-platform/fs.go:113-145 | an export of a prefix strictly inside the index directory, and the index file it holds |
| FileTree.ImportReplaces | dlc-platform/commands.go:244-273 | importing an exported bundle with REPLACE succeeds exactly unless a file blocks the way, and leaves the exported tree at the destination |
| FileTree.ImportedFiles | dlc-platform/commands.go:219-273 | file by file: below the destination what was exported, beside it what was there |
| FileTree.ImportStaysInside | dlc-platform/commands.go:244-273 | whatever bytes a bundle is, in either mode and even when it stops half-way, an import changes no file outside its destination |
| Merge.MergeSucceeds | dlc-platform/commands.go:256-265 | importing with MERGE, whoever wrote the bundle, succeeds exactly when no file stands where it needs a directory and no directory where it holds a file |
| Merge.MergedFiles | dlc-platform/commands.go:256-265 | it then leaves the bundle's files in their places and every other file of the destination as it was |
| Merge.MergeDeletesNothing | dlc-platform/commands.go:256-265 | even a merge that stops half-way leaves every file that the bundle does not hold |
| Merge.ImportExactly | dlc-platform/fs.go:198-217 | whatever the names in a bundle are, one path that is refused refuses the import, and otherwise each file is written where its path leads, in order; a single file writes none |
| FileTree.GraftExactly | dlc-platform/fs.go:198-217 | writing a tree at a place changes that place and nothing beside it |
| Opfs.WriteDir | dlc-platform/web/opfs.ts:201-237 | succeeds exactly when no name changes kind, then leaves the tree and the reserved entries; reserved entries survive even a failure |
| Opfs.ReadDir | dlc-platform/web/opfs.ts:182-199 | copies every entry but the reserved ones of the top level |
| Opfs.FlushThenLoad | dlc-platform/web/opfs.ts:51-76 | what is loaded after a flush is the engine's tree, nested removals included, with host entries untouched |
| Opfs.LoadThenFlush | dlc-platform/web/opfs.ts:51-76 | flushing what was just loaded succeeds and changes nothing |
| Opfs.CompatibleWhenNoClash | dlc-platform/web/opfs.ts:222-235 | a flush can succeed exactly when no path outside the reserved names is a file on one side and a directory on the other |
| Fingerprint.TreeFingerprint | dlc-platform/web/opfs.ts:99-129 | the walk's digest is FNV-1a over the specified stream |
| Fingerprint.MixInjective | dlc-platform/web/opfs.ts:101-106 | a step with an odd multiplier loses neither the state it came from nor the byte it was given |
| Fingerprint.EditShows | dlc-platform/web/opfs.ts:78-98 | trees that differ in one byte of one file have different fingerprints |
| Fingerprint.SameStreamSameTree | dlc-platform/web/opfs.ts:107-126 | between trees of one shape the stream decides every byte of every file |
| Fingerprint.SameStreamAlike | dlc-platform/web/opfs.ts:99-126 | between trees of one form, whatever the names, the stream decides the low bytes of every name and every byte of every file, and no more |
| Fingerprint.RenameShows | dlc-platform/web/opfs.ts:107-116 | another name for an entry, at the same turn in the order and different in a low byte, changes the stream |
| Fingerprint.DirectoryEndIsSilent | dlc-platform/web/opfs.ts:111-126 | a last entry inside a directory and the next entry beside it give the same stream and the same fingerprint |
| Tabs.StepExact | dlc-platform/web/worker.ts:104-272 | each step of any tab keeps the invariant of all tabs exactly when it is harmless: always, for all but a reload, a throwing flush and a cleared store |
| Tabs.ReloadOutsideWindow | dlc-platform/web/crosstab.ts:1-36 | a reload with no flush of its own to announce is harmless |
| TabRuns.EveryRunIsSafe | dlc-platform/web/worker.ts:94-113 | in every interleaving of harmless steps a tab that is up, not stale and not flushing holds the store's tree, or a broadcast is on its way, or another tab is inside its window |
| TabRuns.NoWriteIsLost | dlc-platform/web/worker.ts:191-208 | for a whole flush, with any steps of any tab between its start and its end: a tab unaware at the start overwrites the very tree its own was made from, and one unaware at the end has had the store to itself and leaves its own tree there |
| TabRuns.StaleRunsNothing | dlc-platform/web/worker.ts:221-233 | an idle stale tab does nothing but receive until it is reloaded |
| TabRuns.WritesExactly | dlc-platform/web/worker.ts:191-208 | in every run a command writes exactly when the digest of its tree differs from that of the tree last hydrated or persisted; one that does not write leaves the store and every other tab as they were |
| TabRuns.ReadersTouchNothing | dlc-platform/web/worker.ts:194-199 | in every run, a tab whose commands all leave the tree as they find it changes neither the store nor any other tab |
| TabRuns.EventsAreTold | dlc-platform/web/worker.ts:245-266 | in every run, a tab has told its page the events of all its commands since it was loaded, in order and each once, but for those whose flush threw and those of the command in flight |
| TabRuns.EventsFollowTheWrite | dlc-platform/web/worker.ts:115-134 | where the command's tree, if it has the digest of the tree last hydrated or persisted, is that tree: when a command's events go out, all that the run says of this tab have gone, and the store holds the tree of their command, or another tab has written or is writing, of which this one has heard or will |
| Tabs.ReloadExact | dlc-platform/web/crosstab.ts:1-36 | a reload keeps the invariant exactly when every other tab is in step, or covered without the reloaded one |
| Tabs.FlushFailExact | dlc-platform/web/worker.ts:200-208 | a flush that throws announces nothing, and is harmless exactly when no tab, its own included, is left behind |
| Tabs.ClearExact | dlc-platform/web/worker.ts:330-348 | clearing removes entry by entry, and whatever is left so far, that is harmless exactly when every tab is cold, holds what is left, or is aware |
| LostWrites.ReloadMidFlushLosesAWrite | dlc-platform/web/crosstab.ts:1-36 | a run from two fresh tabs in which a reload in mid-flush leaves a write to be overwritten, and nobody was told |
| LostWrites.FailedFlushIsUndone | dlc-platform/web/opfs.ts:201-237 | a run from two fresh tabs in which a flush removes a file and then throws, and another tab brings the file back |
| LostWrites.ClearIsUndone | dlc-platform/web/worker.ts:330-348 | a run from two fresh tabs in which a cleared store comes back |
| LostWrites.AdmittedTabOverwrites | dlc-platform/web/worker.ts:221-234 | a run of harmless steps in which a tab is admitted, then hears of another's write, and all the same overwrites it |
| LostWrites.TrapMakesAReaderWrite | dlc-platform/web/worker.ts:245-255 | a run in which a command that changes nothing writes what a trapped one left behind |
| TabWorker.Worker.HearStoreChanged | dlc-platform/web/crosstab.ts:83-101 | a broadcast from another context makes the tab stale for good, its own does not |
| TabWorker.Worker.Admit | dlc-platform/web/worker.ts:221-234 | a stale tab refuses and changes nothing |
| TabWorker.Worker.FinishBoot | dlc-platform/web/worker.ts:177-182 | boot seeds the digest from the hydrated tree |
| TabWorker.Worker.RunCommand | dlc-platform/web/worker.ts:245-255 | events are held back, and the tab flushes exactly when the digest moved |
| TabWorker.Worker.Boot | dlc-platform/web/worker.ts:145-182 | boot over a store at rest gives the engine everything but the host's entries |
| TabWorker.Worker.Persist | dlc-platform/web/worker.ts:200-208 | a flush left alone mirrors and records the tree, or throws and records, announces and delivers nothing |
| TabWorker.Worker.EndFlush | dlc-platform/web/worker.ts:205-208 | whoever else has written meanwhile, the digest recorded is that of this tab's tree |
| TabWorker.Worker.Finish | dlc-platform/web/worker.ts:255-272 | broadcasts exactly after a write, and delivers the held events in order |
| Keys.ValidateKey | dlc-platform/index/store.go:249-284 | refuses exactly the keys that break a rule, naming one they break |
| Keys.MakeSlug | example-apps/notes/engine/commands.go:315-331 | the builder loop makes the specified slug |
| Keys.SlugIsSlug | example-apps/notes/engine/commands.go:315-331 | a slug is lower-case letters and digits in single-dashed groups, and empty exactly when the title has none |
| Keys.SlugSpellsWords | example-apps/notes/engine/commands.go:315-331 | a slug is the title's words, its runs of usable characters, with one dash between them |
| Keys.SlugOfSlug | example-apps/notes/engine/commands.go:315-331 | the slug of a slug is the slug |
| Keys.SlugIsLegalKey | dlc-platform/index/store.go:236-294 | a slug is a legal key exactly when it is not empty, at most 255 long and no device name; and no two slugs fold together |
| Notes.NotesEngine.StorePut | dlc-platform/index/store.go:123-142 | writes one file for the key, or nothing when the key is illegal or folds to a name already there |
| Notes.NotesEngine.CreateRecord | example-apps/notes/engine/commands.go:66-99 | the new files, the announcement and the answer of every branch: refused titles, a failed write, a failed index |
| Notes.NotesEngine.UpdateRecord | example-apps/notes/engine/commands.go:226-271 | the same for an edit: absent means unchanged, and nothing changed means nothing written or announced |
| Notes.NotesEngine.DeleteRecord | example-apps/notes/engine/commands.go:273-296 | the same for a removal: announced exactly when a file was there |
| Notes.NotesEngine.RebuildIndex | dlc-platform/index/index.go:86-111 | clears first, then puts every record's projection in name order, stopping at the first failure |
| Notes.NotesEngine.ListRecords | example-apps/notes/engine/commands.go:112-133 | the entries a scan decodes in key order, strays skipped, or an unreadable index |
| NotesIndex.SaveSettles | example-apps/notes/engine/commands.go:84-94 | saving succeeds exactly for a legal key with a file name that fits and nothing it folds to; then the id is settled and announced, and no other id is touched either way |
| NotesIndex.DeleteSettles | example-apps/notes/engine/commands.go:273-296 | deleting settles the id, touches no other, and is announced exactly when there was a record |
| NotesIndex.OpSettles | example-apps/notes/engine/commands.go:66-296 | every handler settles its own id when it succeeds, and touches no other id whatever happens |
| NotesIndex.RebuildExact | dlc-platform/index/index.go:74-111 | a rebuild from any index succeeds exactly when all record ids are legal keys and no two fold together in ASCII case; then nothing drifts and the count is the number of records |
| NotesIndex.RebuildStops | dlc-platform/index/index.go:86-111 | a rebuild stops over the old index exactly when something in its directory is no file |
| NotesIndex.DriftIsSuspect | dlc-platform/index/index.go:74-85 | in every run, a key that drifts is one whose last change failed or was cut short, or follows a failed rebuild |
| NotesIndex.OpKeepsUnfolded | dlc-platform/index/store.go:286-294 | a handler that succeeds never leaves two ids that fold together |
| NotesIndex.MaintainedEqualsRebuilt | dlc-platform/index/index.go:77-81 | after any run in which every step succeeded nothing drifts; and where no two ids folded at the start, a rebuild succeeds and a scan of it finds under each key what a scan of the maintained index did |
| NotesIndex.FromEmptyEqualsRebuilt | dlc-platform/index/index.go:77-81 | from an empty store that holds of every such run |
| NotesIndex.OneKeyBehind | example-apps/notes/engine/commands.go:84-87 | dying between the record's file and the index leaves that id behind and no other |
| NotesIndex.ListMatchesRecords | example-apps/notes/engine/commands.go:101-133 | from a settled state a list has for every record, once, in ascending order of ids, its title, its creation time and the longest first line of its body within 200 bytes |
| NotesIndex.ListExactly | example-apps/notes/engine/commands.go:101-133 | in any state a list gives the entries under legal keys, or is refused exactly when one of these is no entry |
| NotesIndex.CreatedIsListed | example-apps/notes/engine/commands.go:66-99 | a create that succeeds files the request's title, body and time, and the list shows them |
| NotesIndex.UpdateExact | example-apps/notes/engine/commands.go:226-271 | an update succeeds exactly for a record that is there and, where the request changes it, can be saved |
| NotesIndex.UpdatedIsListed | example-apps/notes/engine/commands.go:226-271 | an update that succeeds leaves title and body as requested, what was not given as it was, says whether anything changed, and is listed |
| NotesIndex.CreateExact | example-apps/notes/engine/commands.go:66-99 | creating succeeds, and is announced, exactly for a title that is not blank and a slug that is not empty, fits a file name, is no device name and folds to nothing; a device name leaves its file unindexed |
| NotesIndex.SlashedDeleteExact | example-apps/notes/engine/commands.go:277-291 | deleting by an id with a slash keeps the index settled exactly when the file it leads to is neither a record's nor a record's entry |
| NotesIndex.SlashedUpdateIsPlain | example-apps/notes/engine/commands.go:226-271 | updating by an id with a slash that leads to a record's file is updating that record under its own id, so it touches no other and settles it where it succeeds |
| NotesIndex.SlashedIdLeadsElsewhere | example-apps/notes/engine/commands.go:277-277 | the id `x/../b` leads to the file of record `b` |
| Registry.Package.RegisterBlock | dlc-platform/registry.go:125-142 | adds the block's missing handlers and replaces none |
| Registry.Package.UnregisterBlock | dlc-platform/registry.go:146-152 | drops the block's ids and no other |
| Registry.Package.SyncIndexVerbs | dlc-platform/commands.go:156-170 | the index verb is there exactly when there is a rebuilder and, for a discovering app, a filesystem |
| Registry.Package.ExecuteSetEnvironment | dlc-platform/commands.go:199-214 | the manifest's four refusals, or the new facts, the synced surface and then the event |
| Registry.Package.CommandSurface | dlc-platform/commands.go:179-186 | the registered ids, ascending, each once |
| Registry.SurfaceIsExpected | dlc-platform/commands.go:80-170 | in every run of calls in any order, the platform's ids are the fixed function of policy, rebuilder and filesystem, exactly unless everything was registered on top of discovery without a filesystem |
| Registry.OrderDoesNotShow | dlc-platform/commands.go:50-56 | runs that declare and learn the same end with the same platform ids |
| Registry.AppIdsAreTheApps | dlc-platform/registry.go:92-97 | in every run, what answers an id outside the platform's blocks is what the app has last put there |
| Registry.PanicsExactly | dlc-platform/registry.go:86-97 | a run panics exactly when the app registers an id that something answers already |
| Registry.OverridesSurviveExactly | dlc-platform/registry.go:86-97 | in every run and for every id, the handler the app last put there answers exactly unless a later call found the id's block unwanted or unregistered the id; from then on only the platform's own can answer |
| Registry.OverrideRunIsLost | dlc-platform/registry.go:86-97 | a run in which a handler the app put on a platform id is the platform's again once the filesystem went and came back |
| Registry.RevisionsDiffer | dlc-platform/environment.go:91-114 | in every run there is one event for each manifest that took effect, and no revision twice running |
| Registry.EventFollowsTheSurface | dlc-platform/commands.go:204-212 | when the event goes out, the surface is the one the new facts call for |
| Locks.LockFile.CheckIds | dlc-platform/cmd/protoc-gen-dlc-registry/main.go:566-641 | the file afterwards and the error of every branch: two names for one id, a first build, additions, changes and removals |
| Locks.LockFile.CheckTopics | dlc-platform/cmd/protoc-gen-dlc-registry/events.go:166-215 | the same for topics, with no file made for a build without events |
| Locks.ParseLockText | dlc-platform/cmd/protoc-gen-dlc-registry/main.go:643-658 | the line loop reads what the specification reads |
| Locks.RenderLockText | dlc-platform/cmd/protoc-gen-dlc-registry/main.go:660-674 | two comment lines, then one line a name, in sorted order whatever order the map yields |
| Locks.IdLockRoundTrip | dlc-platform/cmd/protoc-gen-dlc-registry/main.go:643-674 | parsing a rendered lock gives the map back exactly when names have no space or line break and do not start with `#`, and ids are uint32 |
| Locks.TopicLockRoundTrip | dlc-platform/cmd/protoc-gen-dlc-registry/events.go:217-247 | the same for topics, exactly when trimming Unicode white space and cutting leave each entry alone |
| Locks.BuildLocks | dlc-platform/cmd/protoc-gen-dlc-registry/main.go:610-641 | a build succeeds exactly when ids are distinct and, unless it carries the update flag, keep what was locked; then it locks what it declared, and otherwise nothing changes |
| Locks.IdsArePermanent | dlc-platform/cmd/protoc-gen-dlc-registry/main.go:560-641 | over any sequence of builds, an id once given to a name is that name's in every later successful build, and no other's, up to the next build with the update flag |
| Locks.TopicsArePermanent | dlc-platform/cmd/protoc-gen-dlc-registry/events.go:155-215 | a topic once locked is its message's topic in every later successful build, up to the next with the update flag |

## Left out

- FileTree: `insert`, `WriteTree` and the file system are maps from names to nodes, so aliasing of nodes, symbolic links, other irregular files and permissions do not appear.
- Opfs.WriteDir: directory handles are values handed back, not objects updated in place; failures of the browser other than a name of the wrong kind do not occur.
- Notes.NotesEngine.RebuildIndex: the count is a number without a width, where the program has a uint32.
- Notes.NotesEngine.ListRecords: the order the two library sorts give to entries whose ids are out of step with their keys; in a settled index there are none.
- Notes.NotesEngine.StorePut: case folding beyond ASCII.
- NotesIndex.RebuildExact: folding is of ASCII letters, so two records whose ids differ in the case of another letter, which the program refuses to index, are no clash here.
- Notes.NotesEngine.CreateRecord: TrimSpace and ToLower on the title are inputs of the request.
- Tabs: two commands of one page in flight at once, `setEnvironment` and a boot without OPFS. A tab has one command at a time.
- TabWorker: the chain of earlier channel handlers and its undoing, and the flush and external-change listeners.
- Registry: the handlers themselves, and `version`.
- Locks: how the DLC_ID_LOCK_UPDATE flag is read from the environment; it is a parameter.
- Encoding: values read from files or standard input; both runners resolve them before the part modelled here.
- SameBytes: how the native runner asks the engine for its surface (the answer is a parameter), running host-local verbs, and an argv that is not valid UTF-8.
- Parsing: help flags, and keys of JavaScript's object prototype as flag names.
- Surface: failures of the port other than an unsuccessful result, and revisions that are not whole numbers.
- The text of error messages and parse offsets.
- Completion, history and rendering of the terminal; the other half of the inspector.
- Templates, the build driver, manifests of apps, and the embedded and Wasm hosts.
- Record JSON and the wire form of index entries: a file holds a record or an entry, told apart from anything else.
