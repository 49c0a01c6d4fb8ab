/**
 * The asset map of tasks/cachebust.js: the `sort().reverse().reduce(hashFile, {})`
 * at lines 40-44, `hashFile` (88-108) with its copy and delete side effects,
 * and the selection of stale busted files at lines 47-55.
 */
module AssetMap {
  import opened Wrappers
  import opened Ordering
  import opened Naming
  import opened Text

  /** One property of the asset object: an original path and its busted name. */
  datatype Entry = Entry(original: string, busted: string)

  /** A plain object with string keys, as a sequence of entries in insertion order. */
  type AssetMap = seq<Entry>

  function Keys(m: AssetMap): seq<string> {
    seq(|m|, i requires 0 <= i < |m| => m[i].original)
  }

  function Values(m: AssetMap): seq<string> {
    seq(|m|, i requires 0 <= i < |m| => m[i].busted)
  }

  /** No path is a key twice. */
  predicate UniqueKeys(m: AssetMap) {
    Distinct(Keys(m))
  }

  /** `obj[key]`. */
  function Lookup(m: AssetMap, key: string): (r: Option<string>)
    ensures r.None? <==> key !in Keys(m)
    ensures r.Some? ==> Entry(key, r.value) in m
  {
    if m == [] then None
    else
      assert Keys(m) == [m[0].original] + Keys(m[1..]);
      if m[0].original == key then Some(m[0].busted)
      else Lookup(m[1..], key)
  }

  /**
   * `obj[key] = value`: an existing property keeps its place and takes the
   * new value, a new one is added at the end.
   */
  function Put(m: AssetMap, key: string, value: string): (r: AssetMap)
    ensures key in Keys(m) ==> Keys(r) == Keys(m)
    ensures key !in Keys(m) ==> Keys(r) == Keys(m) + [key]
  {
    if m == [] then [Entry(key, value)]
    else
      assert Keys(m) == [m[0].original] + Keys(m[1..]);
      if m[0].original == key then
        var r := [Entry(key, value)] + m[1..];
        assert Keys(r) == [key] + Keys(m[1..]);
        r
      else
        var rest := Put(m[1..], key, value);
        var r := [m[0]] + rest;
        assert Keys(r) == [m[0].original] + Keys(rest);
        r
  }

  /** After `obj[key] = value`, `key` reads `value` and every other key reads what it did. */
  lemma {:induction false} PutLookup(m: AssetMap, key: string, value: string, k: string)
    ensures Lookup(Put(m, key, value), k) == if k == key then Some(value) else Lookup(m, k)
  {
    if m != [] && m[0].original != key {
      PutLookup(m[1..], key, value, k);
      assert Put(m, key, value)[1..] == Put(m[1..], key, value);
    }
  }

  /** The task options that name derivation and `hashFile` read, with their defaults below. */
  datatype Options = Options(
    createCopies: bool,
    deleteOriginals: bool,
    deleteOldHashFiles: bool,
    length: int,
    separator: string,
    queryString: bool,
    outputDir: string,
    hash: string)

  /** `DEFAULT_OPTIONS`; an unset `hash` is the empty string. */
  const DefaultOptions := Options(true, false, false, 16, ".", false, "", "")

  /**
   * The environment: the bytes of an asset, the hex digest for the configured
   * algorithm and encoding, and `url.parse`.
   */
  datatype Host = Host(read: string -> seq<byte>, digest: seq<byte> -> string, parseUrl: string -> UrlParts)

  /** The busted name `hashFile` computes for `file`. */
  function NewFilename(opts: Options, host: Host, file: string): string {
    var hash := GenerateFileHash(opts.hash, host.digest, host.read(file), opts.length);
    AddFileHash(file, host.parseUrl(file), hash, opts.separator, opts.queryString, opts.outputDir)
  }

  /** `NewFilename` for the given options and environment, as a function of the path. */
  function NameOf(opts: Options, host: Host): string -> string {
    f => NewFilename(opts, host, f)
  }

  /** A file-system change, with paths relative to the base directory. */
  datatype Effect = Copy(source: string, target: string) | Delete(path: string)

  /** What `hashFile` does to the file system for one asset. */
  function FileEffects(opts: Options, file: string, newName: string): seq<Effect> {
    if opts.queryString then []
    else
      (if opts.createCopies then [Copy(file, newName)] else []) + (if opts.deleteOriginals then [Delete(file)] else [])
  }

  /** The asset object after `hashFile` has named every path of `order`, starting from `{}`. */
  function AssetMapOf(name: string -> string, order: seq<string>): AssetMap {
    if order == [] then []
    else
      var last := order[|order| - 1];
      Put(AssetMapOf(name, order[..|order| - 1]), last, name(last))
  }

  /** The effects of the same run, in the order they happen. */
  function EffectsOf(opts: Options, name: string -> string, order: seq<string>): seq<Effect> {
    if order == [] then []
    else
      var last := order[|order| - 1];
      EffectsOf(opts, name, order[..|order| - 1]) + FileEffects(opts, last, name(last))
  }

  /** The file system, seen through the changes made to it. */
  class FileSystem {
    var log: seq<Effect>

    constructor()
      ensures log == []
    {
      log := [];
    }

    /** `grunt.file.copy(source, target)`. */
    method Copy(source: string, target: string)
      modifies this
      ensures log == old(log) + [Effect.Copy(source, target)]
    {
      log := log + [Effect.Copy(source, target)];
    }

    /** `grunt.file.delete(path, {force: true})` or `fs.removeSync(path)`. */
    method Delete(path: string)
      modifies this
      ensures log == old(log) + [Effect.Delete(path)]
    {
      log := log + [Effect.Delete(path)];
    }
  }

  /** `hashFile(obj, file)`: names the asset, copies and deletes as configured, and records the name. */
  method HashFile(fs: FileSystem, opts: Options, host: Host, obj: AssetMap, file: string) returns (r: AssetMap)
    modifies fs
    ensures r == Put(obj, file, NewFilename(opts, host, file))
    ensures fs.log == old(fs.log) + FileEffects(opts, file, NewFilename(opts, host, file))
  {
    var hash := GenerateFileHash(opts.hash, host.digest, host.read(file), opts.length);
    var newFilename := AddFileHash(file, host.parseUrl(file), hash, opts.separator, opts.queryString, opts.outputDir);
    assert newFilename == NewFilename(opts, host, file);
    ApplyFileEffects(fs, opts, file, newFilename);
    r := Put(obj, file, newFilename);
  }

  /** The copy and the deletion of lines 95-103: none in query-string mode, otherwise as the options say. */
  method ApplyFileEffects(fs: FileSystem, opts: Options, file: string, newFilename: string)
    modifies fs
    ensures fs.log == old(fs.log) + FileEffects(opts, file, newFilename)
  {
    ghost var before := fs.log;
    if !opts.queryString {
      ghost var copies: seq<Effect> := if opts.createCopies then [Effect.Copy(file, newFilename)] else [];
      ghost var deletes: seq<Effect> := if opts.deleteOriginals then [Effect.Delete(file)] else [];
      if opts.createCopies {
        fs.Copy(file, newFilename);
      }
      assert fs.log == before + copies;
      ghost var copied := fs.log;
      if opts.deleteOriginals {
        fs.Delete(file);
      }
      assert fs.log == copied + deletes;
      AppendAssoc(before, copies, deletes);
    }
  }

  /** `files.sort().reverse().reduce(hashFile, {})`. */
  method BuildAssetMap(fs: FileSystem, opts: Options, host: Host, files: seq<string>) returns (m: AssetMap)
    modifies fs
    ensures m == AssetMapOf(NameOf(opts, host), SortDescending(files))
    ensures fs.log == old(fs.log) + EffectsOf(opts, NameOf(opts, host), SortDescending(files))
  {
    var order := SortDescending(files);
    ghost var name := NameOf(opts, host);
    ghost var start := fs.log;
    m := [];
    for i := 0 to |order|
      invariant m == AssetMapOf(name, order[..i])
      invariant fs.log == start + EffectsOf(opts, name, order[..i])
    {
      assert name(order[i]) == NewFilename(opts, host, order[i]);
      ghost var effects := FileEffects(opts, order[i], name(order[i]));
      EffectsOfSnoc(opts, name, order, i);
      AssetMapOfSnoc(name, order, i);
      ghost var logged := fs.log;
      m := HashFile(fs, opts, host, m, order[i]);
      assert fs.log == logged + effects;
      AppendAssoc(start, EffectsOf(opts, name, order[..i]), effects);
    }
    assert order[..|order|] == order;
  }

  lemma EffectsOfSnoc(opts: Options, name: string -> string, order: seq<string>, i: nat)
    requires i < |order|
    ensures EffectsOf(opts, name, order[..i + 1])
         == EffectsOf(opts, name, order[..i]) + FileEffects(opts, order[i], name(order[i]))
  {
    assert order[..i + 1][..i] == order[..i];
  }

  lemma AssetMapOfSnoc(name: string -> string, order: seq<string>, i: nat)
    requires i < |order|
    ensures AssetMapOf(name, order[..i + 1]) == Put(AssetMapOf(name, order[..i]), order[i], name(order[i]))
  {
    assert order[..i + 1][..i] == order[..i];
  }

  /** Every path of the order becomes a key, once, and nothing else does. */
  lemma {:induction false} AssetMapKeys(name: string -> string, order: seq<string>)
    ensures UniqueKeys(AssetMapOf(name, order))
    ensures forall f :: f in Keys(AssetMapOf(name, order)) <==> f in order
    ensures Distinct(order) ==> Keys(AssetMapOf(name, order)) == order
  {
    if order != [] {
      var init := order[..|order| - 1];
      var last := order[|order| - 1];
      AssetMapKeys(name, init);
      assert order == init + [last];
      var keys := Keys(AssetMapOf(name, init));
      if last !in keys {
        DistinctSnoc(keys, last);
      }
      forall x ensures x in order <==> x in init || x == last {
        InSnoc(init, last, x);
      }
      if Distinct(order) {
        DistinctInit(order);
      }
    }
  }

  lemma DistinctInit(order: seq<string>)
    requires order != [] && Distinct(order)
    ensures Distinct(order[..|order| - 1]) && order[|order| - 1] !in order[..|order| - 1]
  {
    var init := order[..|order| - 1];
    forall i, j | 0 <= i < j < |init| ensures init[i] != init[j] {
      assert init[i] == order[i] && init[j] == order[j];
    }
    forall i | 0 <= i < |init| ensures init[i] != order[|order| - 1] {
      assert init[i] == order[i];
    }
  }

  /** The value of each key is the name derived for it. */
  lemma {:induction false} AssetMapLookup(name: string -> string, order: seq<string>, f: string)
    ensures f in order ==> Lookup(AssetMapOf(name, order), f) == Some(name(f))
    ensures f !in order ==> Lookup(AssetMapOf(name, order), f) == None
  {
    if order != [] {
      var init := order[..|order| - 1];
      var last := order[|order| - 1];
      assert order == init + [last];
      InSnoc(init, last, f);
      AssetMapLookup(name, init, f);
      PutLookup(AssetMapOf(name, init), last, name(last), f);
    }
  }

  /**
   * The map built from the listed paths (each listed once) has them all as
   * keys, once each, in descending order.
   */
  lemma BuiltMapOrder(name: string -> string, files: seq<string>)
    requires Distinct(files)
    ensures var keys := Keys(AssetMapOf(name, SortDescending(files)));
            Descending(keys) && Distinct(keys) && multiset(keys) == multiset(files)
  {
    var order := SortDescending(files);
    SortDescendingSpec(files);
    DistinctPermutation(files, order);
    AssetMapKeys(name, order);
  }

  /** In query-string mode no file is copied or deleted. */
  lemma {:induction false} QueryModeNoEffects(opts: Options, name: string -> string, order: seq<string>)
    requires opts.queryString
    ensures EffectsOf(opts, name, order) == []
  {
    if order != [] {
      QueryModeNoEffects(opts, name, order[..|order| - 1]);
    }
  }

  /**
   * A copy happens exactly for a listed file, to its new name, when not in
   * query-string mode and `createCopies` is set; a deletion exactly for a
   * listed file when not in query-string mode and `deleteOriginals` is set.
   */
  lemma {:induction false} EffectsExact(opts: Options, name: string -> string, order: seq<string>,
                                        source: string, target: string)
    ensures Effect.Copy(source, target) in EffectsOf(opts, name, order)
        <==> !opts.queryString && opts.createCopies && source in order && target == name(source)
    ensures Effect.Delete(source) in EffectsOf(opts, name, order)
        <==> !opts.queryString && opts.deleteOriginals && source in order
  {
    if order != [] {
      var init := order[..|order| - 1];
      EffectsExact(opts, name, init, source, target);
      assert order == init + [order[|order| - 1]];
    }
  }

  /** With copies and deletions both on, each asset is copied and then deleted, asset by asset. */
  lemma {:induction false} CopyPrecedesDelete(opts: Options, name: string -> string, order: seq<string>)
    requires !opts.queryString && opts.createCopies && opts.deleteOriginals
    ensures var log := EffectsOf(opts, name, order);
            |log| == 2 * |order| &&
            forall i :: 0 <= i < |order| ==>
              log[2 * i] == Effect.Copy(order[i], name(order[i])) && log[2 * i + 1] == Effect.Delete(order[i])
  {
    if order != [] {
      var init := order[..|order| - 1];
      CopyPrecedesDelete(opts, name, init);
      forall i | 0 <= i < |init| ensures order[i] == init[i] {
      }
    }
  }

  /** The previous busted files that the cleanup deletes, in the order of the previous map. */
  function StaleDeletes(previous: AssetMap, current: AssetMap): seq<Effect> {
    if previous == [] then []
    else
      var last := previous[|previous| - 1];
      StaleDeletes(previous[..|previous| - 1], current)
        + (if last.busted !in Values(current) && last.busted != last.original then [Effect.Delete(last.busted)] else [])
  }

  /** The cleanup loop of lines 50-54, over the map read from the previous run. */
  method DeleteOldHashFiles(fs: FileSystem, previous: AssetMap, current: AssetMap)
    modifies fs
    ensures fs.log == old(fs.log) + StaleDeletes(previous, current)
  {
    for i := 0 to |previous|
      invariant fs.log == old(fs.log) + StaleDeletes(previous[..i], current)
    {
      assert previous[..i + 1][..i] == previous[..i];
      var hashed := previous[i].busted;
      if hashed !in Values(current) && hashed != previous[i].original {
        fs.Delete(hashed);
      }
    }
    assert previous[..|previous|] == previous;
  }

  /**
   * The cleanup only deletes, and deletes `h` exactly when some previous
   * entry maps another path to `h` and `h` is no value of the new map; so a
   * current busted name is never deleted.
   */
  lemma {:induction false} StaleDeletesExact(previous: AssetMap, current: AssetMap, h: string)
    ensures forall e :: e in StaleDeletes(previous, current) ==> e.Delete?
    ensures Effect.Delete(h) in StaleDeletes(previous, current)
        <==> h !in Values(current) && exists i :: 0 <= i < |previous| && previous[i].busted == h && previous[i].original != h
    ensures h in Values(current) ==> Effect.Delete(h) !in StaleDeletes(previous, current)
  {
    if previous != [] {
      StaleDeletesExact(previous[..|previous| - 1], current, h);
      StaleForSnoc(previous, h);
    }
  }

  /** Some entry of `previous` maps another path to `h`. */
  predicate StaleFor(previous: AssetMap, h: string) {
    exists i :: 0 <= i < |previous| && previous[i].busted == h && previous[i].original != h
  }

  lemma StaleForSnoc(previous: AssetMap, h: string)
    requires previous != []
    ensures var last := previous[|previous| - 1];
            StaleFor(previous, h) <==> StaleFor(previous[..|previous| - 1], h) || (last.busted == h && last.original != h)
  {
    var init := previous[..|previous| - 1];
    if StaleFor(previous, h) {
      var i :| 0 <= i < |previous| && previous[i].busted == h && previous[i].original != h;
      if i < |init| {
        assert init[i] == previous[i];
      }
    }
    if StaleFor(init, h) {
      var i :| 0 <= i < |init| && init[i].busted == h && init[i].original != h;
      assert previous[i] == init[i];
    }
  }

  /** A file whose new name changed has its old busted file deleted, and the new one is kept. */
  lemma ChangedHashIsCleaned()
    ensures StaleDeletes([Entry("a.js", "a.abc123.js")], [Entry("a.js", "a.def456.js")])
         == [Effect.Delete("a.abc123.js")]
  {
    var current := [Entry("a.js", "a.def456.js")];
    assert Values(current) == ["a.def456.js"];
    assert "a.abc123.js" != "a.def456.js" by { assert "a.abc123.js"[2] != "a.def456.js"[2]; }
    assert [Entry("a.js", "a.abc123.js")][..0] == [];
  }
}
