/**
 * `writeFile(globalRef, pattern, file)` of copy-webpack-plugin: copies one
 * matched source file into webpack's compilation assets.
 *
 * The step, once the file's stat and bytes are known:
 *   - a directory is skipped and nothing changes;
 *   - a file matched by a glob is appended to the watch list;
 *   - the bytes go through the pattern's transform, and the digest of what
 *     comes out is the file's hash;
 *   - a template target is interpolated, after `[ext]` is stripped from it
 *     when the source file has no extension;
 *   - unless `copyUnmodified` is set, a source whose tracked hashes already
 *     hold this hash is skipped;
 *   - otherwise the tracking entry of the source is replaced by this one hash,
 *     and the asset is written unless the target exists and is not forced.
 *
 * `Decide` states the whole step on values, `Track` and `Emit` its last two
 * stages. `GlobalRef.WriteFile` performs the step in place on the plugin's
 * shared state up to the target name and hands the rest to
 * `GlobalRef.Record`; each is proved to agree with its stage function.
 */
module WriteFile {
  import opened ExtToken
  import opened Paths

  newtype byte = x: int | 0 <= x < 256

  /** The contents of a file, as a Node `Buffer`. */
  type Bytes = seq<byte>

  datatype Option<T> = None | Some(value: T)

  /** `pattern.fromType`. */
  datatype SourceKind = Glob | File | Dir

  /** `pattern.toType`. */
  datatype TargetKind = ToFile | ToDir | Template

  /**
   * The fields of a normalised pattern that writeFile reads. The transform
   * receives the bytes and the absolute source path.
   */
  datatype Pattern = Pattern(
    fromType: SourceKind,
    toType: TargetKind,
    transform: Option<(Bytes, string) -> Bytes>,
    context: string)

  /**
   * The two loader-utils functions writeFile calls, given as parameters:
   * `getHashDigest(content)` and
   * `interpolateName({resourcePath}, template, {content, context})`.
   */
  datatype Library = Library(
    digest: Bytes -> string,
    interpolateName: (string, string, Bytes, string) -> string)

  /** What `fs.stat` reports about the source. */
  datatype Stat = Stat(isDirectory: bool, size: nat)

  /** An entry of `compilation.assets`: its `size()` and its `source()`. */
  datatype Asset = Asset(size: nat, source: Bytes)

  /** A matched file as writeFile sees it on entry. */
  datatype FileView = FileView(absoluteFrom: string, relativeFrom: string, webpackTo: string, force: bool)

  /**
   * The shared state writeFile changes: the watch list, the hashes tracked
   * per absolute source path, and the compilation's assets by target name.
   */
  datatype State = State(
    fileDependencies: seq<string>,
    written: map<string, set<string>>,
    assets: map<string, Asset>)

  /** Which return of writeFile was taken. */
  datatype Outcome = SkippedDirectory | SkippedUnchanged | SkippedExisting | Written

  /** The state after the step, the file's final `webpackTo`, and the way out. */
  datatype Step = Step(after: State, webpackTo: string, outcome: Outcome)

  /** The bytes that are hashed and written: the transform's result, if there is one. */
  function FinalContent(pattern: Pattern, absoluteFrom: string, raw: Bytes): Bytes {
    match pattern.transform
    case None => raw
    case Some(f) => f(raw, absoluteFrom)
  }

  /** The template handed to interpolation: `[ext]` removed when the source has no extension. */
  function TemplateFor(relativeFrom: string, template: string): string {
    if HasExtension(relativeFrom) then template else StripExt(template)
  }

  /** The target name: the interpolated template, or `webpackTo` as it came. */
  function ResolveTarget(pattern: Pattern, file: FileView, content: Bytes, lib: Library): string {
    if pattern.toType == Template then
      lib.interpolateName(file.absoluteFrom, TemplateFor(file.relativeFrom, file.webpackTo), content, pattern.context)
    else
      file.webpackTo
  }

  /** The watch list after the step for a non-directory. */
  function Watch(deps: seq<string>, pattern: Pattern, absoluteFrom: string): seq<string> {
    if pattern.fromType == Glob then deps + [absoluteFrom] else deps
  }

  /** The source is already tracked with this hash and copying unmodified files is off. */
  predicate Unchanged(written: map<string, set<string>>, copyUnmodified: bool, absoluteFrom: string, hash: string) {
    !copyUnmodified && absoluteFrom in written && hash in written[absoluteFrom]
  }

  /** One call of writeFile, stated on values. */
  function Decide(s: State, copyUnmodified: bool, pattern: Pattern, file: FileView, stat: Stat, raw: Bytes, lib: Library): Step {
    if stat.isDirectory then Step(s, file.webpackTo, SkippedDirectory)
    else
      var content := FinalContent(pattern, file.absoluteFrom, raw);
      Track(State(Watch(s.fileDependencies, pattern, file.absoluteFrom), s.written, s.assets),
        copyUnmodified, file.absoluteFrom, file.force, stat.size, content, lib.digest(content), ResolveTarget(pattern, file, content, lib))
  }

  /** The dedup check and the tracking update, once content, hash and target are known. */
  function Track(s: State, copyUnmodified: bool, source: string, force: bool, size: nat, content: Bytes, hash: string, to: string): (r: Step)
    ensures r.webpackTo == to
  {
    if Unchanged(s.written, copyUnmodified, source, hash) then Step(s, to, SkippedUnchanged)
    else Emit(State(s.fileDependencies, s.written[source := {hash}], s.assets), force, to, Asset(size, content))
  }

  /** The collision check and the asset write. */
  function Emit(s: State, force: bool, to: string, asset: Asset): Step {
    if to in s.assets && !force then Step(s, to, SkippedExisting)
    else Step(State(s.fileDependencies, s.written, s.assets[to := asset]), to, Written)
  }

  /** Every tracked source holds exactly one hash. */
  predicate SingleHashes(written: map<string, set<string>>) {
    forall k :: k in written ==> |written[k]| == 1
  }

  // ---------------------------------------------------------------------
  // Properties of one step

  /** A directory is skipped: state and target name stay as they were. */
  lemma {:induction false} DirectoryLeavesEverything(s: State, copyUnmodified: bool, pattern: Pattern, file: FileView, stat: Stat, raw: Bytes, lib: Library)
    requires stat.isDirectory
    ensures Decide(s, copyUnmodified, pattern, file, stat, raw, lib) == Step(s, file.webpackTo, SkippedDirectory)
  {
  }

  /** Only a directory takes the first return. */
  lemma {:induction false} DirectoryIffSkipped(s: State, copyUnmodified: bool, pattern: Pattern, file: FileView, stat: Stat, raw: Bytes, lib: Library)
    ensures Decide(s, copyUnmodified, pattern, file, stat, raw, lib).outcome == SkippedDirectory <==> stat.isDirectory
  {
  }

  /**
   * For a file that is not a directory, the watch list gains the source path
   * exactly when the pattern came from a glob, and whatever the later returns.
   */
  lemma {:induction false} WatchList(s: State, copyUnmodified: bool, pattern: Pattern, file: FileView, stat: Stat, raw: Bytes, lib: Library)
    requires !stat.isDirectory
    ensures var after := Decide(s, copyUnmodified, pattern, file, stat, raw, lib).after;
      after.fileDependencies == s.fileDependencies + (if pattern.fromType == Glob then [file.absoluteFrom] else [])
  {
    assert s.fileDependencies + [] == s.fileDependencies;
  }

  /**
   * A template target is the interpolation of the template, with the source
   * path as resource and the transformed content; any other target is
   * `webpackTo` unchanged.
   */
  lemma {:induction false} TargetResolution(s: State, copyUnmodified: bool, pattern: Pattern, file: FileView, stat: Stat, raw: Bytes, lib: Library)
    requires !stat.isDirectory
    ensures var step := Decide(s, copyUnmodified, pattern, file, stat, raw, lib);
      var content := FinalContent(pattern, file.absoluteFrom, raw);
      step.webpackTo ==
        if pattern.toType == Template
        then lib.interpolateName(file.absoluteFrom, TemplateFor(file.relativeFrom, file.webpackTo), content, pattern.context)
        else file.webpackTo
  {
  }

  /** A template keeps its `[ext]` when the source has an extension. */
  lemma {:induction false} TemplateKeptWithExtension(relativeFrom: string, template: string)
    requires HasExtension(relativeFrom)
    ensures TemplateFor(relativeFrom, template) == template
  {
  }

  /**
   * For a source without an extension, the template handed to interpolation
   * holds no `[ext]` (when its brackets do not nest), is a subsequence of the
   * template, and equals it exactly when the template had no `[ext]`.
   */
  lemma {:induction false} TemplateWithoutExtension(relativeFrom: string, template: string)
    requires !HasExtension(relativeFrom)
    ensures IsSubsequence(TemplateFor(relativeFrom, template), template)
    ensures TemplateFor(relativeFrom, template) == template <==> !ContainsExt(template)
    ensures BracketsUnnested(template) ==> !ContainsExt(TemplateFor(relativeFrom, template))
  {
    StripExtKeepsOrder(template);
    StripExtIsIdentityIff(template);
    if BracketsUnnested(template) {
      StripExtRemovesAllTokens(template);
    }
  }

  /** The source comment's example: for `LICENSE`, `[name].[ext]` becomes `[name]`. */
  lemma {:induction false} TemplateForLicense(relativeFrom: string, template: string)
    requires relativeFrom == "LICENSE"
    requires template == "[name].[ext]"
    ensures TemplateFor(relativeFrom, template) == "[name]"
  {
    ExtNameOfBareName(relativeFrom);
    StripExtNameDotExt();
  }

  /** The comment's other example: for `LICENSE`, `[name][ext]` becomes `[name]`. */
  lemma {:induction false} TemplateForLicenseBare(relativeFrom: string, template: string)
    requires relativeFrom == "LICENSE"
    requires template == "[name][ext]"
    ensures TemplateFor(relativeFrom, template) == "[name]"
  {
    ExtNameOfBareName(relativeFrom);
    StripExtNameExt();
  }

  /** For `file.txt`, `[name].[ext]` is interpolated as it stands. */
  lemma {:induction false} TemplateForFileWithExtension(relativeFrom: string, template: string)
    requires relativeFrom == "file.txt"
    requires template == "[name].[ext]"
    ensures TemplateFor(relativeFrom, template) == template
  {
    ExtNameOfFile(relativeFrom);
  }

  /**
   * A non-directory is skipped as unchanged exactly when copying unmodified
   * files is off and the source's tracked hashes hold the digest of the
   * transformed content. The target name plays no part: dedup is by source
   * path and hash only. The skip changes neither tracking nor assets.
   */
  lemma {:induction false} UnchangedSkip(s: State, copyUnmodified: bool, pattern: Pattern, file: FileView, stat: Stat, raw: Bytes, lib: Library)
    requires !stat.isDirectory
    ensures var step := Decide(s, copyUnmodified, pattern, file, stat, raw, lib);
      var hash := lib.digest(FinalContent(pattern, file.absoluteFrom, raw));
      step.outcome == SkippedUnchanged <==>
        !copyUnmodified && file.absoluteFrom in s.written && hash in s.written[file.absoluteFrom]
    ensures var step := Decide(s, copyUnmodified, pattern, file, stat, raw, lib);
      step.outcome == SkippedUnchanged ==> step.after.written == s.written && step.after.assets == s.assets
  {
  }

  /** With `copyUnmodified` set, a file is never skipped as unchanged. */
  lemma {:induction false} CopyUnmodifiedNeverSkips(s: State, pattern: Pattern, file: FileView, stat: Stat, raw: Bytes, lib: Library)
    ensures Decide(s, true, pattern, file, stat, raw, lib).outcome != SkippedUnchanged
  {
  }

  /**
   * Past the unchanged check, the tracking entry of the source becomes the one
   * current hash, replacing whatever it held, and this holds even when the
   * asset is then skipped because its target exists.
   */
  lemma {:induction false} TrackingReplaced(s: State, copyUnmodified: bool, pattern: Pattern, file: FileView, stat: Stat, raw: Bytes, lib: Library)
    ensures var step := Decide(s, copyUnmodified, pattern, file, stat, raw, lib);
      var hash := lib.digest(FinalContent(pattern, file.absoluteFrom, raw));
      step.outcome == SkippedExisting || step.outcome == Written ==>
        step.after.written == s.written[file.absoluteFrom := {hash}]
  {
  }

  /**
   * Past the unchanged check, the asset is skipped exactly when its target
   * already exists and the file is not forced; that skip leaves the assets
   * as they were.
   */
  lemma {:induction false} ExistingTargetSkip(s: State, copyUnmodified: bool, pattern: Pattern, file: FileView, stat: Stat, raw: Bytes, lib: Library)
    requires !stat.isDirectory
    requires !Unchanged(s.written, copyUnmodified, file.absoluteFrom, lib.digest(FinalContent(pattern, file.absoluteFrom, raw)))
    ensures var step := Decide(s, copyUnmodified, pattern, file, stat, raw, lib);
      step.outcome == SkippedExisting <==> step.webpackTo in s.assets && !file.force
    ensures var step := Decide(s, copyUnmodified, pattern, file, stat, raw, lib);
      step.outcome == SkippedExisting ==> step.after.assets == s.assets
  {
  }

  /**
   * A written asset sits under the resolved target name, reports the size of
   * the source file, and serves the transformed content, whose digest is the
   * hash now tracked for the source.
   */
  lemma {:induction false} CommittedAsset(s: State, copyUnmodified: bool, pattern: Pattern, file: FileView, stat: Stat, raw: Bytes, lib: Library)
    ensures var step := Decide(s, copyUnmodified, pattern, file, stat, raw, lib);
      var content := FinalContent(pattern, file.absoluteFrom, raw);
      step.outcome == Written ==>
        step.after.assets == s.assets[step.webpackTo := Asset(stat.size, content)] &&
        step.after.written[file.absoluteFrom] == {lib.digest(step.after.assets[step.webpackTo].source)}
  {
  }

  /**
   * Nothing else changes: no asset disappears, only the resolved target can
   * change, and the tracking of every other source stays as it was.
   */
  lemma {:induction false} OnlyTargetAndSourceChange(s: State, copyUnmodified: bool, pattern: Pattern, file: FileView, stat: Stat, raw: Bytes, lib: Library)
    ensures var step := Decide(s, copyUnmodified, pattern, file, stat, raw, lib);
      s.assets.Keys <= step.after.assets.Keys &&
      step.after.assets.Keys <= s.assets.Keys + {step.webpackTo} &&
      (forall k :: k in s.assets && k != step.webpackTo ==> step.after.assets[k] == s.assets[k])
    ensures var step := Decide(s, copyUnmodified, pattern, file, stat, raw, lib);
      forall k :: k in s.written && k != file.absoluteFrom ==> k in step.after.written && step.after.written[k] == s.written[k]
    ensures var step := Decide(s, copyUnmodified, pattern, file, stat, raw, lib);
      step.after.written.Keys <= s.written.Keys + {file.absoluteFrom}
  {
  }

  /** Tracking one hash for a source keeps every source at one hash. */
  lemma {:induction false} SingleHashesUpdate(written: map<string, set<string>>, source: string, hash: string)
    requires SingleHashes(written)
    ensures SingleHashes(written[source := {hash}])
  {
    assert |{hash}| == 1;
  }

  /**
   * With every tracked source at one hash, the dedup test asks whether the
   * hash is exactly the one last tracked for the source: the last write wins.
   */
  lemma {:induction false} DedupAgainstLastHash(written: map<string, set<string>>, copyUnmodified: bool, source: string, hash: string)
    requires SingleHashes(written)
    ensures Unchanged(written, copyUnmodified, source, hash) <==>
      !copyUnmodified && source in written && written[source] == {hash}
  {
    if source in written && hash in written[source] {
      assert |written[source] - {hash}| == 0;
      assert written[source] == {hash} + (written[source] - {hash});
    }
  }

  /** Every tracked source holding a single hash is preserved by a step. */
  lemma {:induction false} SingleHashesPreserved(s: State, copyUnmodified: bool, pattern: Pattern, file: FileView, stat: Stat, raw: Bytes, lib: Library)
    requires SingleHashes(s.written)
    ensures SingleHashes(Decide(s, copyUnmodified, pattern, file, stat, raw, lib).after.written)
  {
    var hash := lib.digest(FinalContent(pattern, file.absoluteFrom, raw));
    SingleHashesUpdate(s.written, file.absoluteFrom, hash);
  }

  /**
   * A second run over the same source and the same bytes, with copying
   * unmodified files off, is skipped as unchanged whatever the first run did
   * past the directory check, and whatever the second run's target: the
   * assets and tracking are left as the first run made them. In particular
   * a new target name for unchanged bytes is not written.
   */
  lemma {:induction false} RepeatedRunSkips(s: State, pattern: Pattern, file: FileView, again: FileView, stat: Stat, raw: Bytes, lib: Library)
    requires !stat.isDirectory
    requires again.absoluteFrom == file.absoluteFrom
    ensures var first := Decide(s, false, pattern, file, stat, raw, lib);
      var second := Decide(first.after, false, pattern, again, stat, raw, lib);
      second.outcome == SkippedUnchanged &&
      second.after.written == first.after.written && second.after.assets == first.after.assets
    ensures var first := Decide(s, false, pattern, file, stat, raw, lib);
      var second := Decide(first.after, false, pattern, again, stat, raw, lib);
      second.webpackTo !in first.after.assets ==> second.webpackTo !in second.after.assets
  {
    var first := Decide(s, false, pattern, file, stat, raw, lib);
    var hash := lib.digest(FinalContent(pattern, file.absoluteFrom, raw));
    if first.outcome != SkippedUnchanged {
      assert first.after.written[file.absoluteFrom] == {hash};
    }
    assert Unchanged(first.after.written, false, file.absoluteFrom, hash);
  }

  /**
   * A source whose tracked hash differs from the digest of its current
   * content is not skipped as unchanged, and then tracks the new hash.
   */
  lemma {:induction false} ChangedContentIsCopied(s: State, copyUnmodified: bool, pattern: Pattern, file: FileView, stat: Stat, raw: Bytes, lib: Library, old_hash: string)
    requires !stat.isDirectory
    requires file.absoluteFrom in s.written && s.written[file.absoluteFrom] == {old_hash}
    requires lib.digest(FinalContent(pattern, file.absoluteFrom, raw)) != old_hash
    ensures var step := Decide(s, copyUnmodified, pattern, file, stat, raw, lib);
      step.outcome != SkippedUnchanged &&
      step.after.written[file.absoluteFrom] == {lib.digest(FinalContent(pattern, file.absoluteFrom, raw))}
  {
  }

  /**
   * Two sources with the same content but different paths do not shadow each
   * other: when the second was not tracked before and resolves to a free
   * target of its own, it is written after the first, and a written first
   * asset survives.
   */
  lemma {:induction false} DistinctSourcesBothWritten(s: State, pattern: Pattern, a: FileView, b: FileView, stat: Stat, raw: Bytes, lib: Library)
    requires !stat.isDirectory
    requires a.absoluteFrom != b.absoluteFrom && b.absoluteFrom !in s.written
    requires var content := FinalContent(pattern, b.absoluteFrom, raw);
      var to := ResolveTarget(pattern, b, content, lib);
      to != Decide(s, false, pattern, a, stat, raw, lib).webpackTo && to !in s.assets
    ensures var first := Decide(s, false, pattern, a, stat, raw, lib);
      var second := Decide(first.after, false, pattern, b, stat, raw, lib);
      second.outcome == Written && second.webpackTo in second.after.assets &&
      (first.outcome == Written ==> first.webpackTo in second.after.assets)
  {
    var first := Decide(s, false, pattern, a, stat, raw, lib);
    assert b.absoluteFrom !in first.after.written;
    var content := FinalContent(pattern, b.absoluteFrom, raw);
    assert ResolveTarget(pattern, b, content, lib) !in first.after.assets;
  }

  /**
   * Two untracked sources with the same bytes and distinct free targets are
   * each written, one after the other, and each asset serves its own
   * transformed content at the stat size.
   */
  lemma {:induction false} SameContentTwoArtifacts(s: State, pattern: Pattern, a: FileView, b: FileView, stat: Stat, raw: Bytes, lib: Library)
    requires !stat.isDirectory
    requires a.absoluteFrom != b.absoluteFrom
    requires a.absoluteFrom !in s.written && b.absoluteFrom !in s.written
    requires var toA := ResolveTarget(pattern, a, FinalContent(pattern, a.absoluteFrom, raw), lib);
      var toB := ResolveTarget(pattern, b, FinalContent(pattern, b.absoluteFrom, raw), lib);
      toA != toB && toA !in s.assets && toB !in s.assets
    ensures var first := Decide(s, false, pattern, a, stat, raw, lib);
      var second := Decide(first.after, false, pattern, b, stat, raw, lib);
      first.outcome == Written && second.outcome == Written &&
      second.after.assets[first.webpackTo] == Asset(stat.size, FinalContent(pattern, a.absoluteFrom, raw)) &&
      second.after.assets[second.webpackTo] == Asset(stat.size, FinalContent(pattern, b.absoluteFrom, raw))
  {
  }

  // ---------------------------------------------------------------------
  // The plugin's shared state, changed in place

  /** `compilation`: only its `assets` dictionary is used here. */
  class Compilation {
    var assets: map<string, Asset>

    constructor (assets: map<string, Asset>)
      ensures this.assets == assets
    {
      this.assets := assets;
    }
  }

  /**
   * A file matched by a pattern. writeFile rewrites `webpackTo` in place
   * when the target is a template.
   */
  class MatchedFile {
    const absoluteFrom: string
    const relativeFrom: string
    const force: bool
    var webpackTo: string

    constructor (absoluteFrom: string, relativeFrom: string, webpackTo: string, force: bool)
      ensures View() == FileView(absoluteFrom, relativeFrom, webpackTo, force)
    {
      this.absoluteFrom := absoluteFrom;
      this.relativeFrom := relativeFrom;
      this.webpackTo := webpackTo;
      this.force := force;
    }

    function View(): FileView
      reads this
    {
      FileView(absoluteFrom, relativeFrom, webpackTo, force)
    }
  }

  /**
   * `globalRef`: the watch list and the tracked hashes, shared by every call
   * in a compilation, the compilation whose assets are written, and the
   * `copyUnmodified` option.
   */
  class GlobalRef {
    var fileDependencies: seq<string>
    var written: map<string, set<string>>
    const compilation: Compilation
    const copyUnmodified: bool

    constructor (compilation: Compilation, copyUnmodified: bool)
      ensures this.compilation == compilation && this.copyUnmodified == copyUnmodified
      ensures fileDependencies == [] && written == map[]
      ensures Valid()
    {
      this.compilation := compilation;
      this.copyUnmodified := copyUnmodified;
      fileDependencies := [];
      written := map[];
    }

    /** The value of the state writeFile changes. */
    function Snapshot(): State
      reads this, compilation
    {
      State(fileDependencies, written, compilation.assets)
    }

    /** Every tracked source holds one hash. */
    predicate Valid()
      reads this
    {
      SingleHashes(written)
    }

    /**
     * writeFile, once `fs.stat` gave `stat` and `fs.readFile` gave `raw`:
     * the new state, the file's final `webpackTo` and the return taken are
     * those of `Decide`, and every tracked source still holds one hash.
     */
    method WriteFile(pattern: Pattern, file: MatchedFile, stat: Stat, raw: Bytes, lib: Library) returns (outcome: Outcome)
      modifies this, compilation, file
      ensures var step := Decide(old(Snapshot()), copyUnmodified, pattern, old(file.View()), stat, raw, lib);
        Snapshot() == step.after && file.webpackTo == step.webpackTo && outcome == step.outcome
      ensures old(Valid()) ==> Valid()
    {
      ghost var before := Snapshot();
      ghost var view := file.View();
      if stat.isDirectory {
        outcome := SkippedDirectory;
        return;
      }
      if pattern.fromType == Glob {
        fileDependencies := fileDependencies + [file.absoluteFrom];
      }
      var content := FinalContent(pattern, file.absoluteFrom, raw);
      var hash := lib.digest(content);
      if pattern.toType == Template {
        var template := file.webpackTo;
        if !HasExtension(file.relativeFrom) {
          template := StripExt(template);
        }
        file.webpackTo := lib.interpolateName(file.absoluteFrom, template, content, pattern.context);
      }
      assert file.webpackTo == ResolveTarget(pattern, view, content, lib);
      ghost var read := State(Watch(before.fileDependencies, pattern, view.absoluteFrom), before.written, before.assets);
      assert Snapshot() == read;
      outcome := Record(file, stat.size, content, hash);
    }

    /**
     * The end of writeFile, once the content, its hash and the target are
     * known: the dedup check, the tracking update, the collision check and
     * the write, as `Track` states them.
     */
    method Record(file: MatchedFile, size: nat, content: Bytes, hash: string) returns (outcome: Outcome)
      modifies this, compilation
      ensures var step := Track(old(Snapshot()), copyUnmodified, file.absoluteFrom, file.force, size, content, hash, file.webpackTo);
        Snapshot() == step.after && outcome == step.outcome
      ensures old(Valid()) ==> Valid()
    {
      if !copyUnmodified && file.absoluteFrom in written && hash in written[file.absoluteFrom] {
        outcome := SkippedUnchanged;
        return;
      }
      if Valid() {
        SingleHashesUpdate(written, file.absoluteFrom, hash);
      }
      written := written[file.absoluteFrom := {hash}];
      if file.webpackTo in compilation.assets && !file.force {
        outcome := SkippedExisting;
        return;
      }
      compilation.assets := compilation.assets[file.webpackTo := Asset(size, content)];
      outcome := Written;
    }
  }
}
