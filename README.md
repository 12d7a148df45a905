# Clipper core in Dafny

This project models the clip orchestration core of the video clipper's HTTP function, `ClipperFunction`.

A request is a batch of parts, each naming a video and a range `from`..`to` in seconds. The function handles a batch in four steps:

1. It groups the parts by video.
2. It makes each video's source available once in a working directory.
3. For every part, it does one of the following:
   - rejects the part when the range is reversed or empty, or when `to - from`, computed in 32-bit `int` arithmetic, exceeds `maxDuration`;
   - skips it when its clip object already exists in the storage bucket;
   - otherwise runs ffmpeg to cut the clip and uploads the clip under its canonical object name, with a does-not-exist precondition, then deletes the local file.
4. It answers one `PartResponse` per part, plus `hasErrors`, which is set when any part failed.

The CORS decision (`getAllowOrigin`) and the parse of the configured allow-list are modelled too.

Modules:

- `JavaStrings`: the Java string operations the core relies on:
  - `Integer.toString` and its inverse parse;
  - `String.split` on one char. Java drops the trailing empty pieces, so `JavaSplit` is `Split` with those pieces removed (`JavaSplitIsSplitPrefix`). Empty pieces never reach the allow-list, so the parsed list is the same either way (`ParseDomainsOfSplit`);
  - `indexOf`, and the prefix test the code writes as `indexOf(p) == 0`;
  - `trim` (removes chars up to `' '` from both ends);
  - `isBlank` (`Character.isWhitespace`), which is not the same test as an empty `trim`.
- `Naming`: the canonical object and file names. It proves that the object name is collision-free over `(video, from, to)`.
- `Validation`: Java's 32-bit `int`, and the range check as written next to the intended one. The pipeline and the class use the check as written; see "## Findings".
- `Cors`: the allow-list parse and the allow-origin choice.
- `Batch`: the request and response records, grouping by video, and the `hasErrors` fold.
- `Pipeline`: what each step does to the observable world, as functions over a `World`:
  - the object names in the bucket;
  - the file names in the working directory;
  - a trace of the calls made to storage, the file system and ffmpeg.

  Everything outside the model answers through an `Env`: the ffmpeg outcome for each range, and whether `createFrom` or `deleteIfExists` throws an `IOException`. The lemmas about what the pipeline promises are stated here.
- `Clipper`: the class `ClipperFunction` with its configuration (`maxDuration`) and the state it changes (`bucket`, `workDir`). It has one method per step. `GetVideo`, `UploadPart`, `CutPart`, `CutVideo` and `Process` are each proved to change that state exactly as the matching `Pipeline` function says. `Transcode` has no `Pipeline` function of its own: its contract gives the new state directly, and that state is the ffmpeg step inside `CutPartSpec`.

The grouping map hands out its keys in an unspecified order. That order is the parameter `order` of `Process`, constrained by `IsGroupOrder`: every video of the batch appears exactly once.

The model follows the code in two places where it does something other than what is intended:

- **Clip already stored.** Re-submitting a part whose clip exists is meant to be an idempotent skip that succeeds. The code does skip the work, but it leaves `succeeded` at `false`. `Pipeline.ClippedPartReportedFailed` and `Pipeline.ResubmittedPartReportedFailed` state this. `Pipeline.ProcessReportsClippedPart` shows the effect: such a batch always reports `hasErrors`.
- **Delete after upload fails.** A failed delete of the local clip is meant not to change the outcome of a stored clip. The code answers `false` when `deleteIfExists` throws after a successful upload, although the clip is stored. `Pipeline.UploadOutcome` states both halves: the answer is `false`, and the bucket holds the clip.

## Model

All source paths are relative to the repository root.

| member | source | states |
|---|---|---|
| JavaStrings.IntToString | src/main/java/com/leo/functions/ClipperFunction.java:133 | the decimal text of an `int` concatenated into a name: non-empty digits, with a leading `-` exactly for negative values |
| JavaStrings.IntToStringRoundTrip | src/main/java/com/leo/functions/ClipperFunction.java:133 | parsing the decimal text of `n` gives back `n` |
| JavaStrings.IntToStringInjective | src/main/java/com/leo/functions/ClipperFunction.java:133 | distinct integers have distinct decimal texts |
| JavaStrings.IndexOf | src/main/java/com/leo/functions/ClipperFunction.java:175 | `indexOf` answers -1 exactly when the text does not occur; otherwise it answers an index where it occurs, and the text occurs at no earlier index |
| JavaStrings.StartsWith | src/main/java/com/leo/functions/ClipperFunction.java:175 | a string starts with `p` exactly when `indexOf(p) == 0` |
| JavaStrings.Split | src/main/java/com/leo/functions/ClipperFunction.java:35-36 | splitting at a separator gives at least one piece and no piece holds the separator |
| JavaStrings.SplitJoin | src/main/java/com/leo/functions/ClipperFunction.java:35-36 | joining the pieces with the separator gives back the original string |
| JavaStrings.JavaSplit | src/main/java/com/leo/functions/ClipperFunction.java:35-36 | Java's `split`: no piece holds the separator; a string without the separator is its own single piece; otherwise the last piece, if any, is not empty |
| JavaStrings.JavaSplitIsSplitPrefix | src/main/java/com/leo/functions/ClipperFunction.java:35-36 | Java's pieces are a prefix of all the pieces, and every piece left out is empty |
| JavaStrings.TrimSlice | src/main/java/com/leo/functions/ClipperFunction.java:37-38 | `trim` returns a slice `s[i..j]`: every char before `i` and from `j` on is up to `' '`, and the slice has no such char at either end |
| JavaStrings.TrimEmpty | src/main/java/com/leo/functions/ClipperFunction.java:37 | a string trims to empty exactly when every char of it is up to `' '` |
| JavaStrings.TrimIdempotent | src/main/java/com/leo/functions/ClipperFunction.java:38 | trimming twice is trimming once |
| JavaStrings.BlankButNotTrimmedAway | src/main/java/com/leo/functions/ClipperFunction.java:172 | an em space is blank, yet `trim` leaves it in place |
| JavaStrings.TrimmedAwayButNotBlank | src/main/java/com/leo/functions/ClipperFunction.java:172 | a NUL char is not blank, yet `trim` removes it |
| Cors.Distinct | src/main/java/com/leo/functions/ClipperFunction.java:39 | `distinct` leaves no duplicates, keeps exactly the same members, never lengthens the list, and keeps the first element first |
| Cors.DistinctInOrder | src/main/java/com/leo/functions/ClipperFunction.java:39 | `distinct` lists the elements in the order of their first occurrence |
| Cors.DistinctKeepsDistinct | src/main/java/com/leo/functions/ClipperFunction.java:39 | a list without duplicates is left unchanged |
| Cors.TrimmedNonEmpty | src/main/java/com/leo/functions/ClipperFunction.java:37-38 | the blank filter followed by `trim` leaves only trimmed, non-empty entries |
| Cors.TrimmedNonEmptyAppend | src/main/java/com/leo/functions/ClipperFunction.java:37-38 | the filter works piece by piece: cleaning two joined lists gives the two cleaned lists joined, so input order is kept |
| Cors.TrimmedNonEmptyKeeps | src/main/java/com/leo/functions/ClipperFunction.java:37-38 | every piece with a non-empty trim is kept, trimmed |
| Cors.TrimmedNonEmptyOrigin | src/main/java/com/leo/functions/ClipperFunction.java:37-38 | every kept entry is the non-empty trim of some piece |
| Cors.TrimmedNonEmptyFirst | src/main/java/com/leo/functions/ClipperFunction.java:37-38 | the first kept entry is the trim of the first piece whose trim is not empty |
| Cors.ParseDomains | src/main/java/com/leo/functions/ClipperFunction.java:35-39 | the allow-list holds trimmed, non-empty entries without duplicates |
| Cors.ParseDomainsOfSplit | src/main/java/com/leo/functions/ClipperFunction.java:35-39 | parsing with Java's `split` gives the same list as parsing with all the pieces, trailing empty ones included |
| Cors.ParseDomainsMembers | src/main/java/com/leo/functions/ClipperFunction.java:35-39 | a string is in the allow-list exactly when it is the non-empty trim of a comma-separated piece of the configuration value, and no entry holds a comma |
| Cors.ParseDomainsFirst | src/main/java/com/leo/functions/ClipperFunction.java:35-39 | the allow-list is empty exactly when every comma-separated piece is blank; otherwise its first entry, the default answer, is the trim of the first piece that is not blank |
| Cors.AllowOrigin | src/main/java/com/leo/functions/ClipperFunction.java:171-179 | the answer is the request origin or the first allow-list entry; there is no answer, because `get(0)` throws, exactly when the list is empty and the origin is absent, blank or not permitted |
| Cors.AllowOriginEchoes | src/main/java/com/leo/functions/ClipperFunction.java:175-177 | the origin is echoed exactly when it starts with `http://localhost`, is listed and not blank, or is the first entry |
| Naming.PartObjectNameInjective | src/main/java/com/leo/functions/ClipperFunction.java:132-134 | the clip object name determines video, `from` and `to`: distinct keys never share an object |
| Naming.PartObjectNeverSource | src/main/java/com/leo/functions/ClipperFunction.java:132-134 | no clip object has the name of any video's source object |
| Naming.SourceNamesInjective | src/main/java/com/leo/functions/ClipperFunction.java:160-165 | distinct videos have distinct local source files and distinct source objects |
| Naming.PartFileNotOwnSource | src/main/java/com/leo/functions/ClipperFunction.java:104 | ffmpeg never writes a clip over the source file it reads |
| Naming.LocalNamesCanCollide | src/main/java/com/leo/functions/ClipperFunction.java:104 | local file names, unlike object names, can collide: the clip of `a` from 1 to 2 has the file name of the source of video `a_1_2` |
| Validation.Wrap32 | src/main/java/com/leo/functions/ClipperFunction.java:101 | Java `int` subtraction: equal to the exact value when that fits in 32 bits, otherwise congruent to it modulo 2^32 |
| Validation.ClassifyAsWritten | src/main/java/com/leo/functions/ClipperFunction.java:99-102 | the range check as written, which the pipeline uses, rejects as reversed exactly the ranges with `to <= from` |
| Validation.Classify | src/main/java/com/leo/functions/ClipperFunction.java:99-102 | the intended check: a part is reversed exactly when `to <= from`, and accepted exactly when `0 < to - from <= maxDuration` |
| Validation.OverflowAdmitsHugeRange | src/main/java/com/leo/functions/ClipperFunction.java:101 | from `MinInt32` to `MaxInt32` with ceiling 10, the written check accepts and the intended one rejects |
| Validation.AsWrittenVersusIntended | src/main/java/com/leo/functions/ClipperFunction.java:99-102 | both checks agree when `to - from` fits in an `int`; otherwise, with a non-negative ceiling, the written one accepts every such range |
| Batch.HasErrors | src/main/java/com/leo/functions/ClipperFunction.java:88 | `hasErrors` is true exactly when at least one response has `succeeded` false |
| Batch.PartsOf | src/main/java/com/leo/functions/ClipperFunction.java:81-82 | the group of a video holds only that video's parts |
| Batch.RegroupedWithin | src/main/java/com/leo/functions/ClipperFunction.java:81-87 | the grouped parts are parts of the batch whose video has a group |
| Batch.RegroupedIsPermutation | src/main/java/com/leo/functions/ClipperFunction.java:81-87 | the groups handed out in any key order hold every part exactly once |
| Batch.RegroupedKeepsVideoOrder | src/main/java/com/leo/functions/ClipperFunction.java:81-87 | within each video, the grouped parts come in input order |
| Pipeline.GetVideoSpec | src/main/java/com/leo/functions/ClipperFunction.java:159-169 | afterwards the source file is in the working directory and the bucket is unchanged |
| Pipeline.GetVideoDownloadsWhenAbsent | src/main/java/com/leo/functions/ClipperFunction.java:161-168 | `getVideo` only appends to the trace, and it downloads the source exactly when no file of its name was in the working directory |
| Pipeline.UploadSpec | src/main/java/com/leo/functions/ClipperFunction.java:136-155 | an upload never removes an object, adds at most the clip's own object, and never adds a local file |
| Pipeline.UploadOutcome | src/main/java/com/leo/functions/ClipperFunction.java:136-155 | the upload answers true exactly when the clip file exists and neither `createFrom` nor `deleteIfExists` throws; on true the bucket gains exactly the clip's name and the file is gone; when `createFrom` throws, bucket and files are unchanged; when it succeeds, the bucket gains the clip even if the delete then throws |
| Pipeline.CutPartSpec | src/main/java/com/leo/functions/ClipperFunction.java:95-128 | each response copies the video, `from` and `to` of its part, and a part never removes an object from the bucket |
| Pipeline.RejectedPartTouchesNothing | src/main/java/com/leo/functions/ClipperFunction.java:99-102 | a range the check as written rejects (reversed, empty, or too long by the 32-bit difference) fails without any storage lookup, transcode or upload |
| Pipeline.OverlongPartIsTranscoded | src/main/java/com/leo/functions/ClipperFunction.java:101 | a part longer than `MaxInt32` seconds, which the intended check rejects as too long, is looked up and, when its clip is absent, sent to ffmpeg |
| Pipeline.ClippedPartReportedFailed | src/main/java/com/leo/functions/ClipperFunction.java:125-128 | an accepted part whose clip is stored is only looked up, leaves bucket and files unchanged, and is answered false |
| Pipeline.FailedTranscodeUploadsNothing | src/main/java/com/leo/functions/ClipperFunction.java:116-124 | when ffmpeg fails, times out or exits non-zero, the part fails and nothing is uploaded or left behind in the model |
| Pipeline.PartSucceedsExactlyWhen | src/main/java/com/leo/functions/ClipperFunction.java:97-128 | a part succeeds exactly when the check as written accepts it, its clip is absent, ffmpeg exits 0 within the timeout, and the upload and the delete of its file go through; it then leaves its clip in the bucket and no local file |
| Pipeline.PartBucketGrowth | src/main/java/com/leo/functions/ClipperFunction.java:103-124 | one part only adds to the bucket, and at most its own clip when the check as written accepts it and it is transcoded |
| Pipeline.ResubmittedPartReportedFailed | src/main/java/com/leo/functions/ClipperFunction.java:125-128 | repeating a part right after it succeeded does no work and is answered false |
| Pipeline.CutVideoSpec | src/main/java/com/leo/functions/ClipperFunction.java:91-130 | one response per part of the group, and the bucket never shrinks |
| Pipeline.ProcessSpec | src/main/java/com/leo/functions/ClipperFunction.java:80-89 | over a batch the bucket never shrinks |
| Pipeline.ProcessResolvesEachGroupOnce | src/main/java/com/leo/functions/ClipperFunction.java:83-86 | `getVideo` is called exactly once per group, in group order |
| Pipeline.VideoAnswersItsParts | src/main/java/com/leo/functions/ClipperFunction.java:91-130 | the responses for a video's group answer exactly its parts, in order |
| Pipeline.ProcessAnswersRegrouped | src/main/java/com/leo/functions/ClipperFunction.java:80-89 | the batch's responses answer the parts group after group |
| Pipeline.ProcessAnswersEachPartOnce | src/main/java/com/leo/functions/ClipperFunction.java:80-89 | one response per part: the answered requests are a permutation of the parts, and within each video they keep input order |
| Pipeline.VideoBucketGrowth | src/main/java/com/leo/functions/ClipperFunction.java:91-130 | within one video the bucket only grows, by clips of its accepted parts whose transcode exited 0 |
| Pipeline.VideoReportsClippedPart | src/main/java/com/leo/functions/ClipperFunction.java:125-128 | a group holding an accepted part whose clip is already stored has a failed response |
| Pipeline.ProcessBucketGrowth | src/main/java/com/leo/functions/ClipperFunction.java:80-89 | over a batch the bucket only grows, by clips of accepted parts whose transcode exited 0 |
| Pipeline.HasErrorsAppend | src/main/java/com/leo/functions/ClipperFunction.java:88 | the `hasErrors` fold over joined responses is the OR of the two folds |
| Pipeline.ProcessReportsClippedPart | src/main/java/com/leo/functions/ClipperFunction.java:88 | a batch holding an accepted part whose clip is already stored always reports `hasErrors` |
| Pipeline.StoredThenReversed | src/main/java/com/leo/functions/ClipperFunction.java:93-129 | an accepted part that goes through followed by a reversed part of the same video: true then false, the first clip stored; one failing part does not affect its sibling |
| Pipeline.SingleStored | src/main/java/com/leo/functions/ClipperFunction.java:93-129 | a group of one accepted part that goes through is answered true and its clip stored |
| Pipeline.WorkedBatch | src/main/java/com/leo/functions/ClipperFunction.java:80-130 | for two distinct videos `a`, `b` and the parts `a/0/5`, `a/20/10`, `b/0/5` with ceiling 10, neither clip stored and every call succeeding: true, false, true, `hasErrors` set, and both clips stored |
| Clipper.ClipperFunction.constructor | src/main/java/com/leo/functions/ClipperFunction.java:41-58 | the function starts with the given ceiling, bucket and working directory, and no calls made |
| Clipper.ClipperFunction.GetVideo | src/main/java/com/leo/functions/ClipperFunction.java:159-169 | changes the state as `GetVideoSpec` |
| Clipper.ClipperFunction.Transcode | src/main/java/com/leo/functions/ClipperFunction.java:104-124 | answers true exactly on a timely exit with code 0; the clip file is then present; the bucket is untouched |
| Clipper.ClipperFunction.UploadPart | src/main/java/com/leo/functions/ClipperFunction.java:136-155 | changes the state and answers as `UploadSpec`, whose outcome `UploadOutcome` states |
| Clipper.ClipperFunction.CutPart | src/main/java/com/leo/functions/ClipperFunction.java:95-128 | changes the state and answers as `CutPartSpec`, with the range check as written |
| Clipper.ClipperFunction.CutVideo | src/main/java/com/leo/functions/ClipperFunction.java:91-130 | changes the state and answers as `CutVideoSpec` |
| Clipper.ClipperFunction.Process | src/main/java/com/leo/functions/ClipperFunction.java:80-89 | changes the state and answers as `ProcessSpec`; `hasErrors` holds exactly when some part failed |

## Left out

- HTTP transport is not modelled:
  - `service`, JSON (de)serialisation and the response headers;
  - the OPTIONS preflight;
  - an absent `origin` header, which `service` turns into `""`. `AllowOrigin` also takes `None`, standing for `null`.
- Configuration loading from the environment is not modelled:
  - working directory, project and bucket;
  - the defaults of 120000 ms for the timeout and 10 s for `maxDuration`;
  - `Integer.parseInt` failures.

  `maxDuration` is a constructor parameter and the allow-list is the value of `ParseDomains`. A missing `CORS_DOMAINS` (a `NullPointerException` in the static initialiser) is not modelled.
- Process supervision is reduced to an outcome in `Env`: a throw, a timeout, or an exit code. Not modelled:
  - the command line;
  - the stdout logging loop;
  - stderr not being drained;
  - the timeout only starting once stdout closes;
  - an existing output file making ffmpeg refuse;
  - `StreamGobbler`, which is never used.

  A partial output file left by a failed run is not modelled: the working directory only gains the clip file on exit 0.
- Storage specifics are not modelled: content type and cache-control metadata, credentials, and the object contents (storage is a set of names).
- Unchecked failures are not modelled. These are:
  - a `StorageException` from the does-not-exist precondition when another producer created the object between lookup and upload, or from any storage call;
  - a missing source object (`blob` is `null`, so `downloadTo` throws);
  - `null` videos or part lists.

  `UploadPart` requires the object to be absent, which the lookup just before it establishes within one sequential run.
- The outside calls answer by key: the ffmpeg outcome is fixed per `(video, from, to)`, and whether `createFrom` or `deleteIfExists` throws is fixed per object or file name. A part listed twice in one batch therefore meets the same outcomes on each attempt, while the real calls may answer differently from one attempt to the next.
- `getVideo` is modelled only as a once-per-video call that makes a file of the source's name present.
- Logging to stdout and stderr is not modelled.
- `SupabaseClient` and `SupabaseException` are not part of this model. They are never called from `ClipperFunction`.
- Parallel handling of videos is not modelled: the code handles the groups one after another.

## Findings

| source | as written | input that shows it | evidently intended | confidence | as-written member | corrected member |
|---|---|---|---|---|---|---|
| src/main/java/com/leo/functions/ClipperFunction.java:101 | `to - from > maxDuration` subtracts in 32-bit `int` arithmetic, so a range longer than `Integer.MAX_VALUE` wraps to a negative length and passes the check | `from = -2147483648`, `to = 2147483647`, `maxDuration = 10`: the difference wraps to `-1`, so the part is accepted and sent to ffmpeg | a range longer than `maxDuration` is rejected whatever its bounds | not executed | Validation.ClassifyAsWritten | Validation.Classify |

The pipeline and the class `ClipperFunction` keep the check as written, so their lemmas describe what the code does with such a range: `Pipeline.OverlongPartIsTranscoded` shows that the part is looked up and sent to ffmpeg. `Validation.Classify` is the corrected check. `Validation.AsWrittenVersusIntended` proves that the two agree on every range whose length fits in an `int`, and that with a non-negative ceiling they differ exactly on the longer ranges.
