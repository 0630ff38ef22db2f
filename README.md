# fragmenter — download, merge and pack core, in Dafny

This project models four pieces of the fragmenter distribution tool and proves
properties about them:

- **The error taxonomy.** `FragmenterErrorCode` and the platform-error
  classifier `interpretNodeException`. Also the one-line wire format
  `FragmenterError(<Name>): <message>` with `create`, `createFromError`,
  `isFragmenterError` and `parseFromMessage`, and the fixed unrecoverable subset.
- **The stream downloader.** The request headers of a resumed GET, and how
  the way a stream ends becomes a result. This includes the run-wide
  `unrecoverableErrorEncountered` flag.
- **The module downloader.** The choice between the single-file path and the
  split path. Part naming, with zero-padded indices, remote `sf-part` names,
  local `fg-tmp` names and query strings. The sequential part loop with its
  progress events. The merge loop that appends the parts to the final zip and
  deletes them.
- **The packer's checks.** Option defaulting, manifest validation,
  the split decision and `toUnixPath`.

The local file system is a class holding `map<string, seq<byte>>`.

The file downloader, the stream transport and the stream copy of the merge
are outside the core. They enter as function-typed parameters:
- `Downloader` is a request mapped to `{bytesDownloaded, error, progress ticks, file left behind, raisedUnrecoverable}`, the last saying whether one of its streams raised the run-wide unrecoverable flag.
- `Request -> StreamEnding` is the transport of one stream.
- `Copier` gives the copy fault of a part, if any.

The part loop and the merge loop are methods with `while` loops. Each is
proved equal to a recursive specification function of the initial state
(`PartsOutcome`, `MergeOutcome`). The lemmas state what the source promises
about those functions. For example:
- the final file is its old content followed by the parts in order;
- a missing part stops the merge with `false` and leaves the later parts alone;
- progress `loaded` counts the earlier parts' bytes plus the current part's.

Two behaviours of the code worth noting:
- The merge opens the final file for appending at the top of every
  iteration, before it checks that the part exists. The final file
  therefore exists even when the merge returns `false`.
- Parsing accepts a message that starts with white space when the message
  is one character long. The regular expression's `\s*` gives that
  character back to `.+`.

## Model

| member | source | states |
|---|---|---|
| Errors.CodeOfName | src/errors.ts:55-59 | the reverse lookup only yields a member whose name is the key |
| Errors.CodeOfNameOfCode | src/errors.ts:55-57 | name and reverse lookup are inverse for every member |
| Errors.NumericNameRefused | src/errors.ts:55-59 | a numeric key such as `3` names no member, so the lookup refuses it |
| Errors.CodeForKey | src/errors.ts:69-90 | each platform key maps to its code, in both directions; every other key is Unknown |
| Errors.Classify | src/errors.ts:64-91 | a trimmed truncated-archive message gives CorruptedZipFile, before any key lookup; otherwise the `code ?? message` key decides; the result is never `null` and never a code the classifier does not produce |
| Errors.ClassifyByCode | src/errors.ts:69 | two causes with the same `code` classify alike whatever their messages, unless a message is a truncated-archive signature |
| Errors.CorruptedZipWinsOverCode | src/errors.ts:65-67 | either truncated-archive signature, with any white space before and any after, is CorruptedZipFile whatever code the cause carries |
| Errors.TrimStart | src/errors.ts:65 | `trimStart` removes exactly the leading white space |
| Errors.TrimEnd | src/errors.ts:65 | `trimEnd` removes exactly the trailing white space |
| Errors.TrimAroundWord | src/errors.ts:65 | trimming a word with any white space before it and any after it gives the word |
| Errors.UnrecoverableCodes | src/errors.ts:94-101 | the unrecoverable codes are exactly the six listed; UserAborted, NetworkError, ResourceBusy, CorruptedZipFile and Unknown are not among them |
| Errors.ClassifiedUnrecoverable | src/errors.ts:64-101 | a classified cause is unrecoverable iff its key is EACCES, EPERM, ENOSPC, ENOTEMPTY, ENOENT or ENOTDIR and its message is no truncated-archive signature |
| Errors.FormatIsTagged | src/errors.ts:27-29 | every formatted line starts with the tag, so `isFragmenterError` holds for it |
| Errors.Create | src/errors.ts:40-42 | `create(c, m)` has code `c`, no cause and message `FragmenterError(<name of c>): m`, and is recognised as a FragmenterError |
| Errors.CreateFromError | src/errors.ts:31-38 | `createFromError(e)` has the classified code, keeps `e`, and formats `e.message` |
| Text.ContainsFrom | src/errors.ts:28 | `includes` holds iff the searched text occurs at some position |
| Errors.MatchAtSound | src/errors.ts:45-47 | a match at position i is `FragmenterError(` followed by a word, `):`, the longest run of white space that still leaves a non-empty capture, and a capture that runs to the next line terminator or the end, containing none |
| Errors.MatchAtComplete | src/errors.ts:45-47 | conversely, wherever the text has that shape, the matcher matches at i and captures that word |
| Errors.Search | src/errors.ts:47 | the result is the match at the leftmost position where the expression matches; None iff it matches at no position |
| Errors.ParseFromMessage | src/errors.ts:44-62 | refused as not matching iff the expression finds no match; refused as an unknown code iff the captured word names no member; otherwise the code is the one the captured word names and the error is `create` of that code and the captured message |
| Errors.ParseNoMatchIff | src/errors.ts:45-51 | parsing refuses a line as not matching iff no position of it has the shape `FragmenterError(<word>): <message>` |
| Errors.ParseUnknownWord | src/errors.ts:53-59 | `FragmenterError(w): m` with a word `w` that names no member is refused as an unknown code string |
| Errors.ParseNeedsTag | src/errors.ts:47-51 | a line without `FragmenterError(` is refused as not matching |
| Errors.CodeNameIsWord | src/errors.ts:1-16 | every member name consists of word characters, so `\w+` captures it whole |
| Errors.MatchLine | src/errors.ts:45-53 | on `FragmenterError(w): m` the expression captures `w` and `m` itself |
| Errors.ParseCreate | src/errors.ts:40-62 | round trip: parsing the line of `create(c, m)` gives back `create(c, m)` for every capturable `m` |
| Errors.ParseCreateOnlyCapturable | src/errors.ts:44-62 | the round trip holds only for capturable messages |
| Errors.ParseIdempotent | src/errors.ts:44-62 | re-parsing the line of a parsed error gives the same error |
| Errors.ParseRefusesNumericCode | src/errors.ts:53-59 | `FragmenterError(3): m` is refused as an unknown code string |
| StreamDownloader.RequestHeaders | src/install/stream-downloader.ts:84-94 | User-Agent present iff configured, Range present iff the offset is not 0, nothing else |
| StreamDownloader.RangeNamesOffset | src/install/stream-downloader.ts:92-94 | the Range value is `bytes=<offset>-` and its digits read back as the offset |
| StreamDownloader.EndingError | src/install/stream-downloader.ts:39-68 | a start failure and a stream error give `createFromError(cause)`; a close gives UserAborted iff the signal is aborted, else no error |
| StreamDownloader.RaisesUnrecoverableExactly | src/install/stream-downloader.ts:69-76 | the flag is raised exactly for a stream error whose cause classifies as unrecoverable; a failure to start never raises it |
| StreamDownloader.AbortIsNotUnrecoverable | src/install/stream-downloader.ts:55-60 | a user abort never raises the flag |
| StreamDownloader.StreamDownloader.constructor | src/install/stream-downloader.ts:21-26 | the downloader keeps its context and URL |
| StreamDownloader.StreamDownloader.ReadStreamHeaders | src/install/stream-downloader.ts:84-94 | the headers filled in place equal the header rules |
| StreamDownloader.StreamDownloader.DownloadFrom | src/install/stream-downloader.ts:28-82 | no buffers, 0 bytes written, the error the ending gives; the flag becomes old flag or unrecoverable, so never goes from true to false |
| Text.Decimal | src/install/module-downloader.ts:163 | `toString` of a natural: digits only, no leading zero, one digit exactly below 10 |
| Text.DecimalValue | src/install/module-downloader.ts:163 | the decimal rendering reads back as the number |
| Text.PadStart | src/install/module-downloader.ts:163-164 | `padStart` reaches the width with the fill character in front and the string unchanged at the end |
| Text.Prefix | src/install/module-downloader.ts:103 | `substring(0, n)` is a prefix of length n, or the whole string when shorter |
| PartNaming.PartIndexStringShape | src/install/module-downloader.ts:163-164 | for every part of the plan, the index string has the digit width of the part count, is all digits and reads back as `i + 1` |
| PartNaming.PartIndexStringInjective | src/install/module-downloader.ts:163-164 | two parts of one plan never share an index string |
| PartNaming.PartIndexStringTwelve | src/install/module-downloader.ts:231-232 | with 12 parts, 0-based index 3 gives `04` |
| PartNaming.TempPartPathsDistinct | src/install/module-downloader.ts:193 | distinct parts have distinct temporary paths |
| PartNaming.TempPartPathIsNotModuleFile | src/install/module-downloader.ts:127 | no temporary part path is the final module path |
| PartNaming.RetrySuffix | src/install/module-downloader.ts:105-107 | the retry marker is empty iff the retry count is 0 |
| PartNaming.RetryOnlyAppendsMarker | src/install/module-downloader.ts:103-107 | a retry only appends `&retry=<n>` to the first attempt's URL, for the whole file and for each part |
| PartNaming.HashQueryDistinguishes | src/install/module-downloader.ts:169 | two hash queries are equal iff both pairs of eight-character prefixes are equal, when module hashes contain no `&` |
| PartNaming.PartNamesTwelve | src/install/module-downloader.ts:163-193 | part 3 of 12 is fetched as `sf-part04` with `partIndex=3` and stored as `fg-tmp04` |
| ModuleDownloader.FirstFailedPart | src/install/module-downloader.ts:160-217 | every part before the first failed one succeeded, and that one failed |
| ModuleDownloader.PartsSucceedIff | src/install/module-downloader.ts:160-220 | the part loop succeeds iff every part's download reports no error |
| ModuleDownloader.PartsOutcomeAt | src/install/module-downloader.ts:195-217 | afterwards parts before the failing one hold their download, the failing one is removed, the later ones are untouched (never started) |
| ModuleDownloader.PartsOutcomeElsewhere | src/install/module-downloader.ts:193-214 | the part loop touches no path other than the temporary part paths |
| ModuleDownloader.PartsProgressLoaded | src/install/module-downloader.ts:158-202 | every part progress record's `loaded` is the bytes of the earlier parts plus the current part's own, with the module total and part count |
| ModuleDownloader.RaisedBefore | src/install/stream-downloader.ts:72-76 | the flag is raised by the first k parts iff one of their downloads raised it |
| ModuleDownloader.PartsRaiseFlagIff | src/install/module-downloader.ts:195-208 | the part loop raises the run-wide flag iff a part it started, up to and including the first failed one, raised it |
| ModuleDownloader.FirstUnmergeable | src/install/module-downloader.ts:228-262 | every part before the first unmergeable one exists and copies cleanly, and that one is missing or faults |
| ModuleDownloader.MergeCompletes | src/install/module-downloader.ts:228-269 | the merge returns true iff every part exists and copies cleanly; the final file is then its prior content followed by all parts in order, and no part is left |
| ModuleDownloader.MergeStopsAtMissingPart | src/install/module-downloader.ts:229-241 | a missing part gives false: earlier parts appended and removed, the final file holds prior content plus those parts, later parts untouched |
| ModuleDownloader.MergeFaultKeepsCopiedBytes | src/install/module-downloader.ts:243-258 | a copy fault gives the classified error; the final file keeps the bytes copied so far and the part stays |
| ModuleDownloader.MergedElsewhere | src/install/module-downloader.ts:228-267 | merging touches only the final path and the merged parts |
| ModuleDownloader.MergedFinal | src/install/module-downloader.ts:229-253 | after k parts the final file is its prior content followed by those parts in order |
| ModuleDownloader.MergedRemovesParts | src/install/module-downloader.ts:266 | merged parts are removed |
| ModuleDownloader.MergeSeesOriginal | src/install/module-downloader.ts:234-243 | each part is read as it was before the merge began |
| ModuleDownloader.DownloadThenMerge | src/install/module-downloader.ts:56-63 | when every part downloads and copies cleanly, the final file is its old content followed by every part's download in order, no part is left and other paths are unchanged |
| ModuleDownloader.ModuleDownloader.constructor | src/install/module-downloader.ts:31-42 | the downloader keeps its configuration, with no probed size and no progress emitted yet |
| ModuleDownloader.ModuleDownloader.TargetsDistinct | src/install/module-downloader.ts:193-234 | the plan's temporary paths are pairwise distinct and differ from the final path |
| ModuleDownloader.ModuleDownloader.NoteUnrecoverable | src/install/stream-downloader.ts:72-76 | the run-wide flag becomes true when the download raised it and otherwise keeps its value; it is never reset |
| ModuleDownloader.ModuleDownloader.DownloadPart | src/install/module-downloader.ts:175-202 | one part is fetched as the plan's attempt for it; the file system holds what it left, the part's progress is appended and the flag is raised iff the attempt raised it |
| ModuleDownloader.ModuleDownloader.DownloadModuleFile | src/install/module-downloader.ts:98-153 | progress against the probed size or else the manifest size; on success the file is what the download left; on failure the final path is removed and the same error returned; the run-wide flag is raised iff the download raised it |
| ModuleDownloader.ModuleDownloader.DownloadModuleFileParts | src/install/module-downloader.ts:155-221 | result, file system, emitted progress and the run-wide flag equal the part-loop specification |
| ModuleDownloader.ModuleDownloader.MergeModuleFileParts | src/install/module-downloader.ts:223-270 | result and file system equal the merge specification |
| ModuleDownloader.ModuleDownloader.StartDownload | src/install/module-downloader.ts:44-73 | records the phase and the probed size; split modules take the part loop and then the merge, unless the parts fail; others take the single-file path; the run-wide flag is raised only as the path taken raises it |
| Packer.EmptyOverrideKeepsDefaults | src/packer.ts:23-25 | an override that sets nothing gives the defaults |
| Packer.FullOverrideWins | src/packer.ts:23-25 | an override that sets every field gives exactly that override |
| Packer.NoSplitWithoutPositiveSize | src/packer.ts:79-81 | a non-positive split size or a zip no larger than it records 0 parts |
| Packer.PackedModuleDownloadMode | src/packer.ts:79-94 | the downloader splits a packed module iff the packer split it into at least one part, and then with that many parts |
| Packer.SlashesForBackslashes | src/packer.ts:118 | every backslash becomes a slash and every other character stays |
| Packer.ToUnixPath | src/packer.ts:110-119 | length preserved; extended-length paths and paths with a character above U+0080 are returned unchanged |
| Packer.ToUnixPathConverts | src/packer.ts:118 | a converted path has no backslash and keeps every other character |
| Packer.ToUnixPathIdempotent | src/packer.ts:110-119 | normalising twice is normalising once |
| Packer.AsciiLowerCaseBlind | src/packer.ts:123 | two names lower-case alike iff they are equal up to the case of ASCII letters |
| Packer.AsciiLowerIdempotent | src/packer.ts:123 | a lowered name has no upper-case ASCII letter, and lowering it again changes nothing |
| Packer.ReservedNameIff | src/packer.ts:123-125 | a name is reserved iff it is `base` or `full` up to the case of its letters |
| Packer.ReservedNamesAnyCase | src/packer.ts:123-125 | `Base`, `FULL` are reserved; `baseline` is not |
| Packer.ManifestCheckNoneIff | src/packer.ts:122-145 | validation passes iff no name is reserved, no module lies inside another, no name is empty and no name repeats |
| Packer.ManifestCheckSound | src/packer.ts:122-145 | each reported error names a real problem; a duplicate is reported only when no name is reserved and nothing is nested |
| Packer.SharedSourceDirRefused | src/packer.ts:127-134 | two modules with the same source directory are refused |
| Packer.EmptyNameRefused | src/packer.ts:138-145 | a module with an empty name is refused |
| Packer.ValidateModules | src/packer.ts:122-145 | the loops throw what the validation specification gives, and pass exactly for a valid manifest |

## Left out

- HTTP is not modelled: Axios requests, stream piping, event-emitter wiring and the abort listener. The transport's outcome is an input (`StreamEnding`, `Downloader`, `Copier`).
- `FileDownloader` (src/install/file-downloader.ts) is not part of this model. Its resume and retry behaviour is a function parameter reporting bytes, error, progress ticks and the file it leaves.
- `FileDownloader` reports whether one of its streams raised the run-wide unrecoverable flag (`raisedUnrecoverable`); the module downloader then sets the context's flag. That the file downloader raises it exactly as `StreamDownloader.RaisesUnrecoverableExactly` describes is not connected, since the file downloader is not part of this model.
- The retry count is a `nat`. The source tests `if (this.retryCount)` (src/install/module-downloader.ts:105, 171), which is truthiness; a negative count would add a marker, and is not representable here.
- PartNaming.HashQueryDistinguishes: requires module hashes without `&`. Hashes are hexadecimal, so this holds for every hash the packer writes; without it two queries could coincide.
- The size probe (`probeModuleCompleteFileSize`) is an input to `StartDownload`. A failed request, or a `content-length` that is not a finite number, is `None`. Negative lengths are not representable.
- Logging, and the forwarding of `error` and `downloadInterrupted` events, are not modelled. Only `progress` events are recorded, as a sequence.
- Concurrency between downloaders sharing one context is not modelled. The context's flag is one field updated sequentially.
- `error.stack` copying, and `super(fromError?.message)`, are not modelled.
- Strings are sequences of code points. JavaScript counts UTF-16 code units, which differ only for characters outside the Basic Multilingual Plane. In particular `Text.Prefix` models `substring(0, 8)`, which counts code units; the hashes it cuts are hexadecimal, hence ASCII, and the two counts agree on them.
- The splitter's part count is an input: split-file is a library.
- Hashing, zipping, splitting, recursive directory reads, temp-directory handling and manifest writing in `pack` are not modelled. So are the base file list built by `toUnixPath`, and the assembly of the distribution manifest from their results.
- `splitFileCount` in the manifest is an integer or absent. Fractional counts are not modelled.
- Packer.ResolvePackOptions: a field present but explicitly `undefined` in `packOptions` is treated as absent, whereas `Object.assign` would copy the `undefined`.
- Packer.AsciiLower: only ASCII letters are lowered. This is exact for the reserved-name test, because no other character lower-cases to a string made only of the letters of `base` or `full`.
- Packer.ValidateModules: `moduleA !== moduleB` compares object identity. The model compares positions, since manifest entries are distinct objects.
- `path.join` and `urljoin` are concatenation with one `/`. `path.relative` is an uninterpreted function parameter.
- ModuleDownloader.ModuleDownloader.MergeModuleFileParts: file-system calls (`rm`, `access`, opening the write stream) are assumed to succeed. Two consequences follow. First, after a failed download the source swallows a failed `rm` (src/install/module-downloader.ts:144-149, 210-214) and the file stays, whereas the model always removes it. Second, the merge's `rm` of a part (src/install/module-downloader.ts:266) is outside any `try`, so a failed removal would throw a raw error, never passed through `createFromError`, out of `mergeModuleFileParts` and `startDownload`; `MergeOutcome` has no such outcome.
- ModuleDownloader.ModuleDownloader.MergeModuleFileParts: a copy fault is modelled by how many bytes reached the final file. Stream buffering and partial writes are not modelled further.
