# copy-webpack-plugin: `writeFile`

This project is a Dafny model of `writeFile(globalRef, pattern, file)` from
copy-webpack-plugin (`src/writeFile.js`). The function copies one matched
source file into the assets of a webpack compilation. It does so in order:

1. It skips directories.
2. It adds a file that came from a glob to the watch list.
3. It runs the pattern's transform over the bytes and hashes the result.
4. It resolves the target name. A template target is interpolated through
   loader-utils, after `[ext]` is removed from the template when the source
   file has no extension.
5. Unless `copyUnmodified` is set, it skips a source whose content hash is
   already tracked.
6. It replaces the source's tracking entry with the new hash.
7. It writes the asset, unless an asset with that name exists and the file
   is not forced.

The model has three modules:

- `ExtToken` (`ext_token.dfy`) models `template.replace(/\.?\[ext\]/g, '')`.
  This is a left-to-right scan: at each position it tries `.[ext]`, then
  `[ext]`, and otherwise keeps one character.
- `Paths` (`paths.dfy`) models Node's POSIX `path.extname`.
- `WriteFile` (`write_file.dfy`) has three parts:
  - the values writeFile works on: patterns, files, stats, assets, and the
    shared state;
  - `Decide`, the whole step stated on values, with its last two stages
    `Track` (dedup and tracking) and `Emit` (collision and write);
  - the classes `GlobalRef`, `Compilation` and `MatchedFile`, whose fields
    writeFile updates in place.

`GlobalRef.WriteFile` runs the step on those objects up to the target name,
then hands the tail (source lines 50-74) to `GlobalRef.Record`. Both are
proved to leave exactly the state, target name and exit that the stage
functions give, and to keep every tracked source at a single hash. The
lemmas about `Decide` state what the source promises.

The dedup check compares the source path and the content hash only:
`written[absoluteFrom][hash]` (src/writeFile.js:50-51). The resolved target
name plays no part in it. `WriteFile.RepeatedRunSkips` states the
consequence: a second run over unchanged bytes is skipped whatever its
target name, and a new name is not written.

## Model

| member | source | states |
|---|---|---|
| `WriteFile.Decide` | src/writeFile.js:7-77 | The whole step on values, following the source branch by branch. Its properties are the lemmas below, from `WriteFile.DirectoryLeavesEverything` to `WriteFile.SameContentTwoArtifacts`. |
| `WriteFile.FinalContent` | src/writeFile.js:25-27 | The bytes hashed and written: the transform's result when there is a transform, the read bytes otherwise. `WriteFile.TargetResolution` and `WriteFile.CommittedAsset` state where it is used. |
| `WriteFile.TemplateFor` | src/writeFile.js:34-38 | The template passed to interpolation. Its properties are in `WriteFile.TemplateKeptWithExtension` and `WriteFile.TemplateWithoutExtension`. |
| `WriteFile.ResolveTarget` | src/writeFile.js:31-48 | The final target name. `WriteFile.TargetResolution` states it for the step. |
| `WriteFile.Watch` | src/writeFile.js:18-20 | The watch list after a non-directory. `WriteFile.WatchList` states it for the step. |
| `WriteFile.Unchanged` | src/writeFile.js:50-51 | The dedup test. `WriteFile.UnchangedSkip`, `WriteFile.CopyUnmodifiedNeverSkips` and `WriteFile.DedupAgainstLastHash` carry its properties. |
| `WriteFile.Emit` | src/writeFile.js:61-74 | The collision check and the write. `WriteFile.ExistingTargetSkip` and `WriteFile.CommittedAsset` carry its properties. |
| `WriteFile.GlobalRef.WriteFile` | src/writeFile.js:7-77 | The new watch list, tracking map, assets, final `webpackTo` and exit are those `Decide` gives for the old state. A state where every source tracks one hash keeps that property. |
| `WriteFile.GlobalRef.Record` | src/writeFile.js:50-74 | The tail of writeFile leaves exactly the state `Track` gives: the dedup skip, the tracking overwrite, the collision skip and the write. It keeps one hash per source. |
| `WriteFile.Track` | src/writeFile.js:50-74 | The last two stages never change the resolved target name. |
| `WriteFile.DirectoryLeavesEverything` | src/writeFile.js:13-15 | A directory changes no state and leaves `webpackTo` as it was. |
| `WriteFile.DirectoryIffSkipped` | src/writeFile.js:13-15 | The directory exit is taken exactly when the stat reports a directory. |
| `WriteFile.WatchList` | src/writeFile.js:17-20 | For a non-directory, the watch list gains the absolute source path exactly when the pattern came from a glob. This holds whatever the later exits. |
| `WriteFile.TargetResolution` | src/writeFile.js:31-48 | A template target is `interpolateName` applied to the source path, the template after the `[ext]` pre-strip, the transformed content and the pattern context. Any other target is `webpackTo` unchanged. |
| `WriteFile.TemplateKeptWithExtension` | src/writeFile.js:36-38 | When the source has an extension, the template is passed on untouched. |
| `WriteFile.TemplateWithoutExtension` | src/writeFile.js:34-38 | When the source has no extension, the template passed on is a subsequence of the template. It equals the template exactly when the template holds no `[ext]`. It holds no `[ext]` when its brackets do not nest. |
| `WriteFile.TemplateForLicense` | src/writeFile.js:34-37 | For `LICENSE`, `[name].[ext]` becomes `[name]`. |
| `WriteFile.TemplateForLicenseBare` | src/writeFile.js:34-37 | For `LICENSE`, `[name][ext]` becomes `[name]`. |
| `WriteFile.TemplateForFileWithExtension` | src/writeFile.js:36 | For `file.txt`, `[name].[ext]` is kept as it stands. |
| `WriteFile.UnchangedSkip` | src/writeFile.js:50-53 | A non-directory is skipped as unchanged exactly when `copyUnmodified` is off and the source's tracked hashes hold the digest of the transformed content. The target name plays no part. The skip changes neither tracking nor assets. |
| `WriteFile.CopyUnmodifiedNeverSkips` | src/writeFile.js:50-51 | With `copyUnmodified` set, no call is skipped as unchanged. |
| `WriteFile.TrackingReplaced` | src/writeFile.js:54-58 | Past the dedup check, the source's entry becomes the single current hash. This holds also when the asset is then skipped because its target exists. |
| `WriteFile.ExistingTargetSkip` | src/writeFile.js:61-64 | Past the dedup check, the asset is skipped exactly when the target is already an asset and the file is not forced. That skip leaves the assets unchanged. |
| `WriteFile.CommittedAsset` | src/writeFile.js:66-74 | A written asset sits under the resolved target. It reports the stat size and serves the transformed content, whose digest is the only hash now tracked for the source. |
| `WriteFile.OnlyTargetAndSourceChange` | src/writeFile.js:50-74 | No asset disappears. Only the resolved target's asset can change or appear. Tracking of every other source is untouched. |
| `WriteFile.SingleHashesUpdate` | src/writeFile.js:56-58 | Replacing a source's entry by `{[hash]: true}` keeps every source at one tracked hash. |
| `WriteFile.DedupAgainstLastHash` | src/writeFile.js:50-58 | When every source tracks one hash (`GlobalRef.Valid`, which both methods keep), the dedup test holds exactly when `copyUnmodified` is off and the hash is the one last tracked for the source. |
| `WriteFile.SingleHashesPreserved` | src/writeFile.js:50-58 | Each call preserves "every tracked source holds exactly one hash". |
| `WriteFile.RepeatedRunSkips` | src/writeFile.js:50-58 | A second run over the same source and bytes, with `copyUnmodified` off, is skipped as unchanged. It leaves tracking and assets as the first run left them. A new target name is not written. |
| `WriteFile.ChangedContentIsCopied` | src/writeFile.js:50-58 | A source whose tracked hash differs from the new digest is not skipped as unchanged, and it tracks the new hash. |
| `WriteFile.DistinctSourcesBothWritten` | src/writeFile.js:50-74 | Dedup is per source path: after any first call, an untracked second source with the same bytes and a free target of its own is written. If the first source was written, its asset survives. |
| `WriteFile.SameContentTwoArtifacts` | src/writeFile.js:50-74 | Two untracked sources with the same bytes and distinct free targets are both written. Each asset holds the stat size and its own transformed content. |
| `ExtToken.MatchLength` | src/writeFile.js:37 | The match of `/\.?\[ext\]/` at the start of a string is 0, 5 or 6 characters long and fits in the string. |
| `ExtToken.StripExt` | src/writeFile.js:37 | The strip never lengthens the template. |
| `ExtToken.StripExtKeepsOrder` | src/writeFile.js:37 | The result is a subsequence of the template: the replace only deletes. |
| `ExtToken.StripExtUnmatchedPrefix` | src/writeFile.js:37 | A prefix in which no match starts is kept as it stands, and the rest is stripped on its own. Every character before a match survives. |
| `ExtToken.StripExtKeepsLoneDot` | src/writeFile.js:37 | `a.b[ext]` becomes `a.b`: a `.` not followed by `[ext]` is kept. |
| `ExtToken.StripExtShrinks` | src/writeFile.js:37 | A template that contains `[ext]` gets strictly shorter. |
| `ExtToken.StripExtKeepsTokenFree` | src/writeFile.js:37 | A template without `[ext]` is returned unchanged. |
| `ExtToken.StripExtIsIdentityIff` | src/writeFile.js:37 | The strip changes the template exactly when it contains `[ext]`. |
| `ExtToken.StripExtRemovesAllTokens` | src/writeFile.js:37 | When the template's brackets do not nest, no `[ext]` remains. |
| `ExtToken.StripExtIdempotent` | src/writeFile.js:37 | When the template's brackets do not nest, stripping twice equals stripping once. |
| `ExtToken.StripExtKeepsPlain` | src/writeFile.js:37 | Characters other than `.` and `[` are kept and do not disturb the rest of the scan. |
| `ExtToken.StripExtKeepsOpen` | src/writeFile.js:37 | A `[` that does not open `[ext]` is kept. |
| `ExtToken.StripExtDropsToken` | src/writeFile.js:37 | A leading `[ext]` is removed. |
| `ExtToken.StripExtDropsDotToken` | src/writeFile.js:37 | A leading `.[ext]` is removed together with its dot. |
| `ExtToken.StripExtPlaceholderThenDotExt` | src/writeFile.js:34-37 | A placeholder `[n]` other than `[ext]`, followed by `.[ext]`, keeps the placeholder and loses the extension token. |
| `ExtToken.StripExtPlaceholderThenExt` | src/writeFile.js:34-37 | The same with the bare token `[ext]`. |
| `ExtToken.StripExtNameDotExt` | src/writeFile.js:35 | `[name].[ext]` becomes `[name]`. |
| `ExtToken.StripExtNameExt` | src/writeFile.js:35 | `[name][ext]` becomes `[name]`. |
| `ExtToken.StripExtCanLeaveToken` | src/writeFile.js:37 | One pass over `[e[ext]xt]` yields `[ext]`. That result still contains the token and is not a fixed point. |
| `Paths.LastIndexOf` | src/writeFile.js:36 | Returns the index of the last occurrence of a character, with none after it, or -1 when there is none. |
| `Paths.LastIndexOfIs` | src/writeFile.js:36 | The last occurrence is the unique index that holds the character and has none after it. |
| `Paths.TrimTrailingSlashes` | src/writeFile.js:36 | Removes exactly the trailing `/` run, giving a prefix that does not end in `/`. |
| `Paths.LastSegment` | src/writeFile.js:36 | The last segment ends the trimmed path, holds no `/`, and is either the whole trimmed path or starts right after a `/`. |
| `Paths.ExtName` | src/writeFile.js:36 | `path.extname` on POSIX. `Paths.ExtNameShape`, `Paths.HasExtensionIff` and the examples below carry its properties. |
| `Paths.HasExtension` | src/writeFile.js:36 | The truthiness of `path.extname`. `Paths.HasExtensionIff` characterises it. |
| `Paths.ExtNameShape` | src/writeFile.js:36 | `path.extname` is empty or a `.` followed by no further `.` and no `/`. It is a suffix of the last segment. |
| `Paths.HasExtensionIff` | src/writeFile.js:36 | A path has an extension exactly when its last segment has a non-leading dot and is not `..`. |
| `Paths.DotfileHasNoExtension` | src/writeFile.js:36 | A segment whose only dot leads it has no extension. |
| `Paths.ExtNameOfSegment` | src/writeFile.js:36 | For one segment, the extension runs from its last, non-leading dot. |
| `Paths.DirectoryDotsIgnored` | src/writeFile.js:36 | `dir.d/README` has the last segment `README` and no extension. |
| `Paths.ExtNameOfFile` | src/writeFile.js:36 | `file.txt` has the extension `.txt`. |
| `Paths.ExtNameOfDoubleExtension` | src/writeFile.js:36 | `archive.tar.gz` has the extension `.gz`. |
| `Paths.ExtNameOfBareName` | src/writeFile.js:36 | `LICENSE` has no extension. |
| `Paths.ExtNameOfDotfile` | src/writeFile.js:36 | `.gitignore` has no extension. |

## Left out

- `fs.statAsync` and `fs.readFileAsync` are not modelled. Their results are the parameters `stat` and `raw`. A failed stat or read rejects the promise; that error path is not modelled.
- After a failed read, a glob source has already been added to the watch list. That error path is not modelled either.
- Promise sequencing and concurrency between calls are not modelled. Each `WriteFile` call runs to completion before the next starts.
- `info` and `debug` logging are left out; they have no effect on state.
- `loaderUtils.getHashDigest` and `loaderUtils.interpolateName` are external code. They are the two functions of the `Library` parameter and are not interpreted.
- The pattern's transform is user code, passed in as a function. Exceptions it throws are not modelled.
- `path.extname` follows Node's POSIX rules. Windows paths are not modelled.
- `compilation.assets` is a map from name to an `Asset` value. The JavaScript asset object with `size()` and `source()` closures is represented by those two values.
- JavaScript truthiness tests are modelled as membership: `written[abs]`, `written[abs][hash]` and `compilation.assets[to]`. The values stored there are always objects or `true`. The transform test is modelled as an `Option`.
- Object keys such as `__proto__`, which JavaScript objects treat specially, are not modelled.
- The return value of writeFile (a promise of `undefined`) is not modelled. `Outcome` records which exit was taken.
- `GlobalRef.WriteFile` runs source lines 50-74 through the method `GlobalRef.Record`. The source inlines those lines, and the order of the state changes is the same.
- The transform cache and chunk naming are not part of this file, so they are not part of this model.
- ExtToken.StripExtRemovesAllTokens: "no `[ext]` remains after the strip" is proved only for templates whose brackets do not nest. Some nested templates still lose every token (`[[ext]` becomes `[`), but a single pass over `[e[ext]xt]` leaves `[ext]`, as `ExtToken.StripExtCanLeaveToken` shows.
- ExtToken.StripExtIdempotent: proved only for templates whose brackets do not nest, for the same reason.
- WriteFile.TemplateWithoutExtension: its third clause has the same side condition on nesting brackets.
