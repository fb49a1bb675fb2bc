# FileManager matcher-copier, modelled in Dafny

The file manager picks the raw photos that go with a curated set of JPEGs.
For every needed file it takes the first eight characters of the base name
and appends `.CR2`; that is the key. Every candidate file whose base name is
exactly that key is copied into a destination directory. If the destination
already has a file with the key's name, the copy gets a new name instead:
every `.CR2` in the key is replaced by the decimal text of one random `long`
followed by `.CR2`. The new name is not checked again, and any file already
there is overwritten. Two counters record how many matches were copied and how
many needed a generated name.

The model has four modules:

- `Wrappers` (`wrappers.dfy`): `Option`.
- `JavaText` (`java_text.dfy`): the two Java library operations the names are
  built from. `Replace` is `String.replace` (every non-overlapping occurrence,
  left to right). `LongText` is `Long.toString`, with `ParseLong` as its inverse.
- `FileManager` (`file_manager.dfy`): the data model and the program.
  - The destination directory is a `map<string, Content>`.
  - Files are `FileRecord(name, content)` values.
  - The random draws and each copy's success or failure come from an `Oracle`.
    The n-th collision uses `draw(n)`. The copy attempted while the copy counter
    stands at k succeeds exactly when `copyOk(k)`.
  - The pure parts are functions: `NumberedName`, `DeriveKey`, `RandomFileName`,
    and the specification of one copy (`CopyStep`), one match (`MatchStep`),
    the inner loop (`ScanPool`) and the outer loop (`RunFrom`, `Run`).
  - The class `MatcherCopier` holds the destination and the two static counters,
    with one method per Java method on the copy path, `copyFile` up to
    `filterAndGenerateFiles`. Each method's `ensures` ties the new state
    to those functions. `FilterAndGenerateFiles` keeps the nested `for` loops,
    with loop invariants.
- `FileManagerProofs` (`file_manager_proofs.dfy`): the properties. These are
  key derivation, name generation, the counters, which destination entries a
  copy may touch, a second run over the same destination, and the end-to-end
  scenarios.

A needed name shorter than eight characters makes `substring(0, 8)` throw.
Nothing catches the exception, so the run stops there. The model records the
index of that file in `RunResult.crashedAt`. The destination keeps whatever was
copied before it.

The code increments the copy counter for every matching pair, even when
`copyFile` catches an I/O error. The model follows the code. So the counter
counts copy attempts, not successful copies, even though the log line calls
them "Files copied".

## Model

| member | source | states |
|---|---|---|
| `FileManager.NumberedName` | src/Main.java:86-88 | defined exactly when the name has at least 8 characters; then it is the name's 8-character prefix |
| `FileManager.DeriveKey` | src/Main.java:77-78 | defined exactly when the name has at least 8 characters; the key is 12 characters long: the name's first 8, then `.CR2` |
| `FileManagerProofs.KeyIgnoresExtension` | src/Main.java:77-78 | two names with the same first 8 characters give the same key, `prefix + ".CR2"`, whatever their extensions |
| `FileManagerProofs.DerivedKeyHasExtension` | src/Main.java:77-78 | every derived key has `.CR2` at index 8 |
| `FileManagerProofs.KeyExamples` | src/Main.java:86-88 | `IMG_0001.JPG` and `IMG_0001.jpeg` both give `IMG_0001.CR2`; `AB.JPG` gives no key |
| `JavaText.Replace` | src/Main.java:129 | `String.replace` with a non-empty target; the result is no shorter than the input when the replacement is no shorter than the target |
| `JavaText.ReplaceWithoutOccurrence` | src/Main.java:129 | a string with no occurrence of the target is returned unchanged |
| `JavaText.ReplaceKeepsPlainPrefix` | src/Main.java:129 | a prefix in which no occurrence of the target starts is kept unchanged, and the rest is replaced as if on its own |
| `JavaText.ReplaceTakes` | src/Main.java:129 | where the target starts, the result has the replacement and the scan resumes after the target |
| `JavaText.ReplaceLeftToRight` | src/Main.java:129 | occurrences are taken from the left and never overlap: `"aaa".replace("aa", "b")` is `"ba"` |
| `JavaText.ReplaceGrows` | src/Main.java:129 | a replacement longer than the target makes the result strictly longer than any input containing the target |
| `JavaText.DigitsText` | src/Main.java:129 | the decimal digits of a natural number: non-empty, all digits, a leading `0` only for zero |
| `JavaText.LongText` | src/Main.java:129 | `Long.toString`: non-empty, starts with `-` exactly for negative values, digits otherwise |
| `JavaText.LongTextRoundTrip` | src/Main.java:129 | parsing the decimal text of any value gives back that value |
| `JavaText.LongTextInjective` | src/Main.java:128-129 | different draws have different decimal texts |
| `JavaText.LongTextExamples` | src/Main.java:129 | the texts of 0, 7 and -12 are `0`, `7` and `-12` |
| `FileManager.RandomFileName` | src/Main.java:127-130 | the generated name is at least as long as the name it was made from |
| `FileManagerProofs.GeneratedNameShape` | src/Main.java:127-130 | if the 8-character prefix holds no `.CR2`, the generated name is the prefix, then the draw's decimal text, then `.CR2` |
| `FileManagerProofs.KeyWithExtensionInside` | src/Main.java:77-78 | the needed name `A.CR2xyz.JPG` gives the key `A.CR2xyz.CR2`, which contains `.CR2` twice |
| `FileManagerProofs.GeneratedNameReplacesEveryOccurrence` | src/Main.java:129 | in a name `a.CR2b.CR2` with dot-free `a` and `b`, both `.CR2` get the draw's text in front: `a<draw>.CR2b<draw>.CR2` |
| `FileManagerProofs.DifferentDrawsDifferentNames` | src/Main.java:127-130 | for a key whose 8-character prefix holds no `.CR2`, two different draws give two different generated names |
| `FileManagerProofs.ExampleGeneratedName` | src/Main.java:127-130 | the name generated from key `IMG_0001.CR2` is `IMG_0001<draw>.CR2` |
| `FileManagerProofs.GeneratedNameDiffers` | src/Main.java:120-130 | a name containing `.CR2` always comes back strictly longer, so never unchanged |
| `FileManagerProofs.GeneratedNameIsNeverAKey` | src/Main.java:120-130 | a name generated from a key is never equal to any derived key |
| `FileManager.CopyTarget` | src/Main.java:104-122 | the copy goes to the key when it is free, otherwise to the name generated from the next draw; a taken key containing `.CR2` is never its own target, since the generated name is strictly longer |
| `FileManager.CopyStep` | src/Main.java:108-118 | the copy counter rises by one, success or not; the unique-name counter rises exactly when the key is already taken; a successful copy puts the content at the target; a failed one changes nothing; no other name is touched |
| `FileManagerProofs.CollisionLeavesExistingUntouched` | src/Main.java:109-112 | on a collision the file at the key keeps its content, the unique counter rises by one, and the directory changes only at the generated name, where any old entry is overwritten |
| `FileManagerProofs.RegularCopy` | src/Main.java:113-116 | without a collision a successful copy adds the key with the candidate's content, and the unique counter stays the same |
| `FileManager.MatchStep` | src/Main.java:95-100 | a candidate whose name is not exactly the key changes nothing; the copy counter rises exactly when it is |
| `FileManager.ScanPool` | src/Main.java:79-81 | scanning the pool for one key counts exactly one copy per candidate named the key, and removes no destination entry |
| `FileManagerProofs.ScanPoolCounts` | src/Main.java:79-81 | scanning the pool adds one copy per matching candidate, adds no more unique names than copies, and removes no destination entry |
| `FileManagerProofs.ScanPoolNoMatch` | src/Main.java:95-100 | a pool with no candidate named the key leaves the state unchanged |
| `FileManagerProofs.ScanPoolKeepsTakenKey` | src/Main.java:108-112 | once the key is taken its file is never changed, and every match adds one unique name |
| `FileManagerProofs.ScanPoolFreshKey` | src/Main.java:108-117 | with the key free and every copy succeeding, the first matching candidate lands at the key and every later duplicate gets a generated name |
| `FileManagerProofs.ScanPoolSingleMatch` | src/Main.java:79-117 | with the key free and exactly one candidate named the key, scanning the pool is that one copy step; if it succeeds the destination gains exactly the key with that candidate's content, copies rise by 1 and unique names stay the same |
| `FileManagerProofs.ScanPoolCopiesKey` | src/Main.java:113-116 | with every copy succeeding, a key that some candidate matches is in the destination afterwards |
| `FileManager.RunFrom` | src/Main.java:75-84 | from needed file `from` on, the copy counter rises by the number of matching pairs, no entry is removed, and a stop happens only at a needed name shorter than 8 characters |
| `FileManager.Run` | src/Main.java:75-84 | the same for the whole needed list |
| `FileManagerProofs.RunStopsAtFirstShortName` | src/Main.java:76-78 | the run finishes exactly when every needed name has at least 8 characters; otherwise it stops at the first short one |
| `FileManagerProofs.RunCounts` | src/Main.java:75-82 | the copy counter rises by the number of matching pairs, failed copies included; unique names rise by no more than that; no destination entry disappears |
| `FileManagerProofs.UniqueNamesNeverExceedCopies` | src/Main.java:20-21 | if the unique counter is at most the copy counter before a run, it still is after the run |
| `FileManagerProofs.RunCoversKeys` | src/Main.java:113-116 | when every copy succeeds, the run leaves every matched key in the destination |
| `FileManagerProofs.RunAllCollide` | src/Main.java:109-112 | if every matched key is already taken, every copy of the run gets a generated name |
| `FileManagerProofs.SecondRunAllCollides` | src/Main.java:75-82 | a second process, with its counters starting at 0, over the destination a fully successful run left behind: both counters end at the number of matching pairs, so every copy goes to a generated name |
| `FileManagerProofs.ExamplePoolMatchesOnce` | src/Main.java:95-100 | of `IMG_0001.CR2` and `IMG_0001.JPG`, only the first matches key `IMG_0001.CR2` |
| `FileManagerProofs.ExampleRunIsOneCopy` | src/Main.java:75-82 | one needed `IMG_0001.JPG` against that pool performs exactly one copy step |
| `FileManagerProofs.ScenarioEmptyDestination` | src/Main.java:75-117 | with an empty destination, the result is exactly `IMG_0001.CR2` with the raw file's content; copies 1, unique names 0 |
| `FileManagerProofs.ScenarioTakenDestination` | src/Main.java:108-130 | with `IMG_0001.CR2` taken, the original stays and the raw file lands at `IMG_0001<draw>.CR2`; copies 1, unique names 1 |
| `FileManagerProofs.ScenarioShortName` | src/Main.java:86-88 | the needed name `AB.JPG` stops the run at index 0 with the state unchanged |
| `FileManager.MatcherCopier.constructor` | src/Main.java:20-21 | both counters start at 0 (so the invariant holds); the destination is as given |
| `FileManager.MatcherCopier.CopyFile` | src/Main.java:132-140 | on success the target holds the source's content and replaces any old entry; a failed copy leaves the directory unchanged |
| `FileManager.MatcherCopier.GenerateAndCopyFileWithUniqueName` | src/Main.java:120-125 | copies to `RandomFileName(key, draw)` from one draw, with no re-check of that name |
| `FileManager.MatcherCopier.GenerateAndCopyWithUniqueNameOrRegular` | src/Main.java:108-118 | the new state is `CopyStep` of the old one, the returned name is the copy target, and the invariant is kept |
| `FileManager.MatcherCopier.GenerateAndCopyFile` | src/Main.java:102-106 | copies the matched candidate's content, as `CopyStep` describes |
| `FileManager.MatcherCopier.GenerateIfSameFile` | src/Main.java:95-100 | returns a name exactly when the candidate's name equals the key; that name is the copy target; the new state is `MatchStep` of the old one |
| `FileManager.MatcherCopier.FilterAndGenerateFiles` | src/Main.java:75-84 | the final directory, the counters and the index where the run stopped are `Run` of the old state |

## Left out

- Directory enumeration with `Files.walk` and the regular-file filter (src/Main.java:43-67) is filesystem I/O. The needed list and the candidate pool are input sequences of `FileRecord`.
- The `IllegalArgumentException` thrown when enumeration fails (src/Main.java:36-38) is left out. So is the startup in `main`/`runFileManager` (src/Main.java:26-34). Both are top-level plumbing around the modelled loop.
- Creating the destination with `mkdirs` (src/Main.java:69-73) is left out. It is an idempotent I/O side effect; the model starts from a given destination map.
- Console output and stack traces are left out (src/Main.java:39-40, 50-51, 63-64, 90-93, 136-138). This includes the final report `logFilteringAndGenerationResult`.
- `java.util.Random` (src/Main.java:128) is not modelled. The drawn values come from `Oracle.draw`, which may return any `long`. `Random.nextLong` cannot return every 64-bit value, because its seed has only 48 bits, so this over-approximates the draws; lemmas about every draw still hold for the real ones.
- Whether a copy succeeds is `Oracle.copyOk`. Byte copying itself is not modelled: content is an opaque `seq<bv8>` copied verbatim.
- The counters are plain `nat` fields, not `AtomicLong` (src/Main.java:20-21). The program is single-threaded.
- The hard-coded directory paths (src/Main.java:15-17) are left out. Full paths are left out too: files are identified by base name only.
- `File.exists()` is true for a directory as well as for a file. The model only has files, so a directory that happens to be named like the key is not modelled.
- `JavaText.Replace`: Java's behaviour for an empty target is not modelled, because the only call passes the non-empty constant `.CR2`.
- `FileManager.NumberedName`: Java's `substring` counts UTF-16 code units, while Dafny's `string` counts Unicode scalar values. So the two differ for names with characters outside the Basic Multilingual Plane.
- `FileManager.CopyStep`: destination names are compared exactly, character by character. On a Windows destination, `File.exists()` ignores case, so an existing `img_0001.cr2` would make the key `IMG_0001.CR2` collide; the model treats the key as free and adds a second entry.
- `FileManager.CopyStep`: a failed copy is all-or-nothing in the model and leaves the directory unchanged. A real `Files.copy` with REPLACE_EXISTING may delete or partly write the target before it fails.
