# Media-file selection of two Premiere Pro import scripts

This project models how two ExtendScript scripts for Adobe Premiere Pro choose and prepare the
files they import. It then proves properties of that model in Dafny.

- `AutoImportV2.3.jsx` lists the chosen folder. It keeps every entry whose lower-cased name ends in
  `.mp4`, and throws `"No .mp4 files found in the selected folder."` when none is left.
- `BatchImportSequence1of2_V1.jsx` does four things:
  - It keeps every entry whose extension, taken from the last dot and lower-cased, is one of
    `.mp4 .mov .avi .wmv .flv .mkv .webm` (`isVideoFile`).
  - It sorts the kept entries by their decoded names: `decodeFileName` turns `+` into a space and then
    calls `decodeURIComponent`.
  - It throws `"No video files found in the selected folder."` when no entry was kept.
  - For each file it asks the host to import the file and to create a sequence. The sequence is
    named after the decoded name, cut at its last dot and followed by `_Sequence`.

Modules, one concern each:

- `Results` (results.dfy): the `Result` and `Option` wrappers.
- `JsStrings` (js_strings.dfy): the ECMAScript 3 string built-ins the scripts call, namely
  `toLowerCase`, `lastIndexOf`, `slice`, `substr` and a one-character global `replace`. Negative
  positions follow the standard's rules.
- `UriDecoding` (uri_decode.dfy): `decodeURIComponent`, following section 15.1.3.2 of ECMA-262
  3rd edition step by step. Each check that makes it throw a `URIError` has its own error value.
- `PercentEncoding` (percent_encode.dfy): a reference percent-encoder (UTF-8 per RFC 3629, escapes
  per section 2.1 of RFC 3986). It is the inverse the decoder is proved against.
- `Listing` (listing.dfy): folder entries, and `KeepByName`, the recursive function that says what
  the push-filter loops of both scripts compute. The loops themselves are `AutoImport.SelectMp4Files`
  and `BatchImportRun.CollectVideoFiles`.
- `AutoImport` (auto_import.dfy): the `.mp4` selection of the first script.
- `BatchImport` (batch_import.dfy): `isVideoFile`, `decodeFileName` and the sequence name of the
  second script.
- `BatchImportRun` (batch_run.dfy): the second script's `try` block, meaning the filter loop, the
  sort, the empty check and the per-file loop.

How the host is modelled:

- `app.project` and the folder dialog become the parameters `projectOpen` and `folder`.
- `getFiles()` becomes a `seq<FileEntry>`.
- The host's import and sequence calls become `SequenceJob` values, which record the path handed to
  `importFiles` and the name handed to `createNewSequenceFromClips`.
- `localeCompare` becomes a comparator parameter. It must be consistent in the sense of section
  15.4.4.11 of ECMA-262 3rd edition.

Behaviour of the code worth knowing:

- A name that does not decode is not replaced by its raw form. The comparator of the sort throws the
  `URIError`, and the script's one `catch` ends the run. So one listing entry whose `name` is the
  string `50% off.mp4` stops every import. With two or more video files the sort's comparator throws;
  with that one file alone the per-file loop throws before the import.
- `Array.prototype.sort` is not required to be stable, and the model does not claim stability.
- The `.mp4` check of the first script is modelled exactly as written:
  `substr(length - 4) === '.mp4'` on the lower-cased name.

## Model

| member | source | states |
|---|---|---|
| JsStrings.ToLowerCase | Premiere-Pro/AutoImportV2.3.jsx:56 | `toLowerCase` keeps the length; its letter-by-letter behaviour is stated by `JsStrings.ToLowerCaseLetters` |
| JsStrings.ToLowerCaseLetters | Premiere-Pro/BatchImportSequence1of2_V1.jsx:32 | the lower-cased string has no ASCII capital; each capital becomes the letter 32 code points later and every other character is kept |
| JsStrings.LastIndexOf | Premiere-Pro/BatchImportSequence1of2_V1.jsx:32 | `lastIndexOf` gives -1 or a position holding the character, and no later position holds it |
| JsStrings.Slice | Premiere-Pro/BatchImportSequence1of2_V1.jsx:83 | `slice(start, end)` is the run of characters from the start position (a negative start counting from the end); it is `s[start..end]` for in-range arguments and drops the last `-end` characters for `slice(0, end)` with a negative `end` |
| JsStrings.Substr | Premiere-Pro/AutoImportV2.3.jsx:57 | `substr(start)` is always a suffix of the string: `length - start` characters for a non-negative start, and the last `-start` characters (at most all of them) for a negative one |
| JsStrings.ReplaceAll | Premiere-Pro/BatchImportSequence1of2_V1.jsx:42 | the global one-character `replace` keeps the length and leaves no occurrence of the replaced character; its character-by-character behaviour is stated by `JsStrings.ReplaceAllChars` |
| JsStrings.ReplaceAllChars | Premiere-Pro/BatchImportSequence1of2_V1.jsx:42 | each replaced character becomes the replacement in the same position, and every other character is kept |
| UriDecoding.ContinuationOctets | Premiere-Pro/BatchImportSequence1of2_V1.jsx:42 | the continuation part succeeds iff every escape slot from `j` to `n` holds a well-formed `%XY` whose octet has the form 10xxxxxx, and then the octets are exactly those escapes' octets, in order |
| UriDecoding.DecodeEscape | Premiere-Pro/BatchImportSequence1of2_V1.jsx:42 | a decoded escape sequence takes a whole number of escapes, from one to the length of the input, and every one of them is a well-formed `%XY` |
| UriDecoding.DecodeUriComponent | Premiere-Pro/BatchImportSequence1of2_V1.jsx:42 | a successful decode is never longer than its input; its other properties are the lemmas of `UriDecoding` and `PercentEncoding.DecodeInvertsEncode` |
| UriDecoding.MalformedEscapeThrows | Premiere-Pro/BatchImportSequence1of2_V1.jsx:42 | any `%` not followed by two hexadecimal digits, wherever it stands, makes `decodeURIComponent` throw |
| UriDecoding.DecodeWithoutEscapes | Premiere-Pro/BatchImportSequence1of2_V1.jsx:42 | a string without `%` decodes to itself |
| UriDecoding.DecodeExamples | Premiere-Pro/BatchImportSequence1of2_V1.jsx:42 | `%20` decodes to a space, `%2B` to `+`, and `%C3%A9` to `é` |
| UriDecoding.MalformedEscapeExamples | Premiere-Pro/BatchImportSequence1of2_V1.jsx:42 | a trailing `%`, a non-hex digit, a stray continuation octet, a cut-off sequence, a continuation without `%` and a bad continuation octet each throw, with the matching error |
| UriDecoding.InvalidUtf8Examples | Premiere-Pro/BatchImportSequence1of2_V1.jsx:42 | an overlong form (`%C0%80`) and an encoded surrogate (`%ED%A0%80`) throw |
| UriDecoding.DecodeAppend | Premiere-Pro/BatchImportSequence1of2_V1.jsx:42 | appending text without `%` that does not start with a hex digit changes neither whether decoding succeeds nor the decoded prefix, and the text is appended unchanged |
| PercentEncoding.PercentEncode | Premiere-Pro/BatchImportSequence1of2_V1.jsx:42 | the reference encoder writes each character as itself or as one to four `%XY` escapes, so its output is one to twelve times as long as its input |
| PercentEncoding.DecodedEscapeIsUtf8 | Premiere-Pro/BatchImportSequence1of2_V1.jsx:42 | the escapes a decoded sequence consumes spell exactly the UTF-8 encoding of the character it yields |
| PercentEncoding.DecodeInvertsEncode | Premiere-Pro/BatchImportSequence1of2_V1.jsx:42 | `decodeURIComponent` undoes percent-encoding for every string |
| PercentEncoding.EncodeHasNoPlus | Premiere-Pro/BatchImportSequence1of2_V1.jsx:42 | a percent-encoded name holds no `+`, so the `+` replacement before decoding leaves it alone |
| Listing.KeepByName | Premiere-Pro/BatchImportSequence1of2_V1.jsx:62-68 | the filter is no longer than the listing and keeps only listed entries whose name passes the test |
| Listing.KeepByNamePicksAccepted | Premiere-Pro/BatchImportSequence1of2_V1.jsx:62-68 | the push loop picks the positions whose name passes the test, exactly, in increasing order |
| Listing.KeepByNameCounts | Premiere-Pro/AutoImportV2.3.jsx:54-60 | each accepted entry occurs in the result as often as in the listing, and a rejected one never does |
| AutoImport.IsMp4Name | Premiere-Pro/AutoImportV2.3.jsx:56-57 | defined as the lower-cased name's `substr(length - 4)` being `.mp4`; its meaning is stated by `AutoImport.Mp4NameSuffix` |
| AutoImport.SelectMp4Files | Premiere-Pro/AutoImportV2.3.jsx:54-64 | the loop keeps exactly the `.mp4` entries in listing order, and the run throws the no-`.mp4` message exactly when none is kept |
| AutoImport.Mp4NameSuffix | Premiere-Pro/AutoImportV2.3.jsx:56-57 | a name is kept iff it has at least four characters and ends in `.`, `m` or `M`, `p` or `P`, then `4` |
| AutoImport.Mp4NamesKept | Premiere-Pro/AutoImportV2.3.jsx:56-57 | `CLIP.MP4`, `clip.Mp4` and `.mp4` are kept |
| AutoImport.Mp4NamesRejected | Premiere-Pro/AutoImportV2.3.jsx:56-57 | `videoamp4`, `video.mp4x`, `a.mov`, `mp4` and the empty name are rejected |
| AutoImport.SelectionIsOrderedSubsequence | Premiere-Pro/AutoImportV2.3.jsx:54-60 | the selection is a subsequence of the listing holding every `.mp4` entry as often as the listing does and nothing else |
| AutoImport.EmptySelectionIff | Premiere-Pro/AutoImportV2.3.jsx:62-64 | the selection is empty iff no entry ends in `.mp4` |
| BatchImport.ExtensionOf | Premiere-Pro/BatchImportSequence1of2_V1.jsx:32 | the extension is a suffix of the name; with a dot in the name it starts at a dot and holds no other, and without one it is the last character |
| BatchImport.HasVideoExtension | Premiere-Pro/BatchImportSequence1of2_V1.jsx:30-39 | defined as the lower-cased extension being one of the seven; its meaning is stated by `BatchImport.VideoFileIffLastDot` |
| BatchImport.IsVideoFile | Premiere-Pro/BatchImportSequence1of2_V1.jsx:30-39 | the loop over the extension list answers whether the lower-cased extension is one of the seven |
| BatchImport.VideoExtensionShape | Premiere-Pro/BatchImportSequence1of2_V1.jsx:31 | each listed extension is a dot followed by at least three lower-case letters or digits |
| BatchImport.ExtensionAtLastDot | Premiere-Pro/BatchImportSequence1of2_V1.jsx:32 | the extension is the part of the name from its last dot on |
| BatchImport.VideoFileIffLastDot | Premiere-Pro/BatchImportSequence1of2_V1.jsx:30-39 | a name is a video file iff it has a dot and the lower-cased part from its last dot is a video extension, so a dotless name is rejected |
| BatchImport.VideoFilesAccepted | Premiere-Pro/BatchImportSequence1of2_V1.jsx:30-39 | `a.txt.mp4`, `A.MOV` and `clip.webm` are video files |
| BatchImport.VideoFilesRejected | Premiere-Pro/BatchImportSequence1of2_V1.jsx:30-39 | `a.mp4.txt` is not a video file: only its last extension counts |
| BatchImport.DotlessNameRejected | Premiere-Pro/BatchImportSequence1of2_V1.jsx:30-39 | no name without a dot is a video file, since `slice(-1)` leaves at most one character to compare |
| BatchImport.DotlessNamesRejected | Premiere-Pro/BatchImportSequence1of2_V1.jsx:30-39 | `mp4`, `videoamp4` and the empty name are not video files |
| BatchImport.Mp4NamesAreVideoNames | Premiere-Pro/BatchImportSequence1of2_V1.jsx:30-39 | every name the first script's `.mp4` filter keeps is also a video file here |
| BatchImport.DecodeFileName | Premiere-Pro/BatchImportSequence1of2_V1.jsx:41-43 | a decoded name is never longer than the name as given |
| BatchImport.DecodeFileNameWithoutEscapes | Premiere-Pro/BatchImportSequence1of2_V1.jsx:41-43 | a name without `%` decodes to itself with each `+` made a space, and to itself when it has no `+` either |
| BatchImport.DecodeFileNameExamples | Premiere-Pro/BatchImportSequence1of2_V1.jsx:42 | `a+b` gives `a b`, `%2B` gives `+` and `%20` gives a space |
| BatchImport.MalformedNameExamples | Premiere-Pro/BatchImportSequence1of2_V1.jsx:42 | a trailing `%` throws as a cut-off escape and `%G1` as a non-hex digit |
| BatchImport.MalformedNameThrows | Premiere-Pro/BatchImportSequence1of2_V1.jsx:41-43 | any `%` in the name not followed by two hexadecimal digits makes `decodeFileName` throw |
| BatchImport.LiteralPercentThrows | Premiere-Pro/BatchImportSequence1of2_V1.jsx:42 | the name string `50% off.mp4` throws instead of decoding to itself |
| BatchImport.DecodeFileNameInvertsEncode | Premiere-Pro/BatchImportSequence1of2_V1.jsx:41-43 | `decodeFileName` undoes percent-encoding, a `+` being written `%2B` |
| BatchImport.SequenceName | Premiere-Pro/BatchImportSequence1of2_V1.jsx:83-84 | the sequence name is a prefix of the decoded name followed by `_Sequence`; when the name has a dot the prefix ends just before its last dot |
| BatchImport.SequenceNameExample | Premiere-Pro/BatchImportSequence1of2_V1.jsx:83-84 | `clip.mp4` gives `clip_Sequence` |
| BatchImport.SequenceNameKeepsEarlierDots | Premiere-Pro/BatchImportSequence1of2_V1.jsx:83-84 | `take 2.final.mov` gives `take 2.final_Sequence` |
| BatchImport.SequenceNameWithoutDot | Premiere-Pro/BatchImportSequence1of2_V1.jsx:83-84 | a dotless `clip` loses its last character: `cli_Sequence` |
| BatchImport.SequenceNameCutsAtExtension | Premiere-Pro/BatchImportSequence1of2_V1.jsx:83-84 | a stem followed by a tail whose only dot is its first character is named stem plus `_Sequence` |
| BatchImport.SequenceNameDropsVideoExtension | Premiere-Pro/BatchImportSequence1of2_V1.jsx:82-84 | for a video file whose name decodes, the decoded name is the decoded stem followed by the extension as written, and the sequence name is that stem followed by `_Sequence` |
| BatchImport.DecodeFileNameAppend | Premiere-Pro/BatchImportSequence1of2_V1.jsx:41-43 | a tail with no `%`, no `+` and no leading hex digit passes through `decodeFileName` unchanged, and changes nothing about whether it throws |
| BatchImport.VideoExtensionIsPlain | Premiere-Pro/BatchImportSequence1of2_V1.jsx:30-39 | a video file's extension is a suffix of its name that starts with its only dot and holds no `%` and no `+` |
| BatchImportRun.CollectVideoFiles | Premiere-Pro/BatchImportSequence1of2_V1.jsx:62-68 | the filter loop keeps exactly the entries that pass `isVideoFile`, in listing order |
| BatchImportRun.VideoSelectionIsOrderedSubsequence | Premiere-Pro/BatchImportSequence1of2_V1.jsx:62-68 | the video selection is a subsequence of the listing holding every video entry as often as the listing does and nothing else |
| BatchImportRun.EmptyVideoSelectionIff | Premiere-Pro/BatchImportSequence1of2_V1.jsx:74-76 | the selection is empty, and the run throws, iff no entry is a video file |
| BatchImportRun.SortByDisplayName | Premiere-Pro/BatchImportSequence1of2_V1.jsx:70-72 | the sort permutes the files and leaves them ordered by the comparator on decoded names. With two or more files it throws iff some name does not decode, and the error is that name's |
| BatchImportRun.JobFor | Premiere-Pro/BatchImportSequence1of2_V1.jsx:81-91 | defined as the file's path with the sequence name of its decoded name; what that name is for a video file is stated by `BatchImportRun.JobForVideoFile` |
| BatchImportRun.JobForVideoFile | Premiere-Pro/BatchImportSequence1of2_V1.jsx:81-91 | a video file's job imports its own path into a sequence named after its decoded name without the video extension, followed by `_Sequence` |
| BatchImportRun.CreateSequences | Premiere-Pro/BatchImportSequence1of2_V1.jsx:80-98 | one job per file in order, each importing the file's path under its sequence name. A name that does not decode stops the loop before its file is imported |
| BatchImportRun.Run | Premiere-Pro/BatchImportSequence1of2_V1.jsx:45-104 | each thrown error is covered: no project, no folder, no video file iff the selection is empty, a `URIError` iff some selected name does not decode. The run succeeds iff a project is open, a folder was chosen, the selection is not empty and every selected name decodes. Any error means no job was created. Otherwise the files are a sorted permutation of the selection with one job each |

## Left out

- Host calls are not executed: `importFiles`, `createNewSequenceFromClips`, `createFolder` for the
  transcripts folder, `alert`, and the `$.writeln` log lines. The per-file loop records a
  `SequenceJob` where the script calls the host.
- Whether the host created each sequence is not modelled, so the success and failure log lines are
  left out. So is the script's assumption that the newest child of the root bin is the imported clip.
- The first script's import loop, its `insertTime` accumulator and the insertion of clips into a
  sequence are host calls and are not part of this model.
- The collation of `localeCompare` is implementation-defined and is a parameter; only its
  consistency is assumed.
- The sort is modelled as an insertion sort, since ECMA-262 leaves the algorithm open. When several
  names do not decode, which one's error is reported depends on the order of comparisons.
- BatchImportRun.SortByDisplayName: when the sort throws, the order the array is left in is not
  stated, only that it is a permutation; the run ends in that case anyway.
- JsStrings.ToLowerCase: maps only ASCII `A`-`Z`. Full Unicode case mapping (for example KELVIN SIGN
  U+212A to `k`, which would let `.MKV` written with it pass) is not modelled.
- Strings are sequences of Unicode scalar values, not UTF-16 code units. Positions and lengths differ
  for characters beyond U+FFFF. A four-octet escape decodes to one character, not to a surrogate pair.
- The host's encoding of `File.name` is not modelled. Whether a file on disk called `50% off.mp4`
  reaches the script with a bare `%` or already escaped depends on the host, so the model speaks only
  of the `name` string the listing reports.
