/**
 * One run of the `cacheBust` task (tasks/cachebust.js:27-65): build the
 * asset map, optionally delete the busted files of the previous run that
 * are no longer current, then rewrite every consuming document.
 */
module CacheBust {
  import opened Wrappers
  import opened Text
  import opened AssetMap
  import opened Ordering
  import opened Rewrite

  /** How a run ends. */
  datatype Outcome =
    | Completed(assets: AssetMap, documents: seq<string>)
      // `grunt.file.readJSON` throws: cleanup was asked for and the previous map could not be read
    | MissingAssetJson(assets: AssetMap)

  /** Every document rewritten with the whole map. */
  function Rewritten(m: AssetMap, separator: string, documents: seq<string>): seq<string> {
    seq(|documents|, i requires 0 <= i < |documents| => RewriteText(m, separator, documents[i]))
  }

  /** The files of the previous run that the cleanup deletes. */
  function CleanupEffects(opts: Options, previous: Option<AssetMap>, m: AssetMap): seq<Effect> {
    if opts.deleteOldHashFiles && previous.Some? then StaleDeletes(previous.value, m) else []
  }

  /**
   * The task body. `previous` is the map the previous run wrote, `None` when
   * it cannot be read; `documents` are the texts of the files to rewrite, in
   * the order they are listed.
   */
  method CacheBustTask(fs: FileSystem, opts: Options, host: Host, files: seq<string>,
                       previous: Option<AssetMap>, documents: seq<string>)
    returns (outcome: Outcome)
    modifies fs
    ensures var name := NameOf(opts, host);
            var m := AssetMapOf(name, SortDescending(files));
            if opts.deleteOldHashFiles && previous.None? then
              outcome == MissingAssetJson(m) && fs.log == old(fs.log) + EffectsOf(opts, name, SortDescending(files))
            else
              outcome == Completed(m, Rewritten(m, opts.separator, documents)) &&
              fs.log == old(fs.log) + EffectsOf(opts, name, SortDescending(files))
                        + CleanupEffects(opts, previous, m)
  {
    ghost var start := fs.log;
    var m := BuildAssetMap(fs, opts, host, files);
    ghost var built := fs.log;
    if opts.deleteOldHashFiles {
      if previous.None? {
        return MissingAssetJson(m);
      }
      DeleteOldHashFiles(fs, previous.value, m);
    }
    assert fs.log == built + CleanupEffects(opts, previous, m);
    AppendAssoc(start, EffectsOf(opts, NameOf(opts, host), SortDescending(files)), CleanupEffects(opts, previous, m));
    var out := RewriteDocuments(m, opts.separator, documents);
    outcome := Completed(m, out);
  }

  /** The rewriting loop over the consuming documents, each with the whole map. */
  method RewriteDocuments(m: AssetMap, separator: string, documents: seq<string>) returns (out: seq<string>)
    ensures out == Rewritten(m, separator, documents)
  {
    out := [];
    for i := 0 to |documents|
      invariant |out| == i
      invariant forall j :: 0 <= j < i ==> out[j] == RewriteText(m, separator, documents[j])
    {
      var markup := ReplaceInFile(m, separator, documents[i]);
      out := out + [markup];
    }
  }

  /** A name the map holds as a value. */
  lemma NamedIsValue(name: string -> string, order: seq<string>, f: string)
    requires f in order
    ensures name(f) in Values(AssetMapOf(name, order))
  {
    var m := AssetMapOf(name, order);
    AssetMapLookup(name, order, f);
    var i :| 0 <= i < |m| && m[i] == Entry(f, name(f));
    assert Values(m)[i] == name(f);
  }

  /** The cleanup never deletes a copy the same run has just made. */
  lemma CopiesSurviveCleanup(opts: Options, name: string -> string, order: seq<string>,
                             previous: Option<AssetMap>, source: string, target: string)
    requires Effect.Copy(source, target) in EffectsOf(opts, name, order)
    ensures Effect.Delete(target) !in CleanupEffects(opts, previous, AssetMapOf(name, order))
  {
    EffectsExact(opts, name, order, source, target);
    NamedIsValue(name, order, source);
    if previous.Some? {
      StaleDeletesExact(previous.value, AssetMapOf(name, order), target);
    }
  }
}
