# grunt-cache-bust: naming, asset map and reference rewriting

This project models the core of the `cacheBust` Grunt task, `tasks/cachebust.js`. The task gives every
static asset a content fingerprint. It copies or renames the asset to a "busted" name that carries the
fingerprint, or appends the fingerprint as a query string. It then rewrites every reference to the asset in
the consuming documents (HTML, CSS, JS) so that they point at the busted name.

The modules follow the task:

- `Naming` (naming.dfy): `generateFileHash` and `addFileHash`. The digest is an uninterpreted function
  from the file bytes to a hex string. The parts of `url.parse` that `addFileHash` reads (protocol,
  hostname, pathname) are given as a value.
- `Paths` (paths.dfy): the POSIX `path.extname`, the basename regex `/^.*[\\\/]/` and `path.join` for a
  plain file name.
- `Ordering` (ordering.dfy): `.sort().reverse()` on paths, by character-code order.
- `AssetMap` (assetmap.dfy) covers:
  - the asset object as an insertion-ordered sequence of entries;
  - `hashFile` and the `reduce` that builds the map;
  - the copy and delete effects, as an append-only log on a `FileSystem` object;
  - the stale-file cleanup.
- `Regex` (regex.dfy) covers:
  - `escapeStr`;
  - the meaning of the pattern fragments that the rewrite uses: literal characters, `\x` escapes,
    `[a-fA-F0-9]`, and the greedy `*`, `+` and `?`;
  - a backtracking matcher over sequences of such atoms.
- `Rewrite` (rewrite.dfy) covers:
  - the trunk and extension split;
  - the two-alternative pattern of line 80;
  - JavaScript's global `String.prototype.replace`, as a left-to-right scan;
  - `replaceInFile`.
- `CacheBust` (cachebust.dfy): one run of the task, from the listed asset paths to the rewritten documents.
- `Text` (text.dfy) and `Wrappers` (wrappers.dfy) hold string helpers, `Option` and `Result`.

Behaviour of the code that a reader might not expect, all of which the model follows:

- `addFileHash` deletes the first occurrence of the extension with `String.replace`, not the suffix.
  `jquery.jsonp.js` becomes `jqueryonp.js.<hash>.js`.
- `url.parse` gives the protocol as `http:` without the two slashes, so an absolute URL keeps its host
  but loses `//`: `http:example.com/app.<hash>.js`.
- The query group of the pattern only takes hexadecimal digits. In `css/app.css?oldhash123` the `o` is
  not one, so only the path is replaced and `?oldhash123` stays in the text.
- Rewriting a busted reference leaves it unchanged only under conditions.
  - Query-string names are left alone when the hash is a non-empty run of hexadecimal digits. The `hash`
    option is used verbatim, so with `hash: 'v2'` the name `app.js?v2` becomes `app.js?v2?v2`. With an empty
    hash, `app.js?` becomes `app.js??`.
  - File-mode names `stem.<hash>.ext` are left alone exactly when `<hash>.ext` does not start with `ext`,
    so that the busted name does not start with the original one. This holds for `css/app.<hash>.css`
    and every hexadecimal hash. It fails for `main.c` with the hash `cafe`: `main.cafe.c` still starts with
    `main.c`, so every run inserts the hash again. `main.0a.c` is left alone.

## Model

| member | source | states |
|---|---|---|
| Regex.EscapeStr | tasks/cachebust.js:67-69 | output length is input length plus number of special characters; the output never starts with an unescaped special character |
| Regex.EscapeRoundTrip | tasks/cachebust.js:67-69 | read back as pattern source, the escaped text is the literal atoms of exactly the input characters, in order |
| Regex.EscapeStrPlain | tasks/cachebust.js:67-69 | text with no special character is its own escape |
| Regex.Parse | tasks/cachebust.js:80 | reads `RegExp` source as a sequence of atoms: a quantifier with nothing before it is `NothingToRepeat`, constructs outside the model are `Unmodelled`; `EscapeRoundTrip` and `DoublePlusRejected` pin it |
| Regex.MatchLen | tasks/cachebust.js:80 | the length of the leftmost backtracking match of the atoms at the start of the text, each quantifier greedy; it never goes past the text |
| Regex.HexPlusThenLits | tasks/cachebust.js:80 | `[a-fA-F0-9]+` before a literal that starts with a non-digit takes the whole digit run or fails |
| Naming.GenerateFileHash | tasks/cachebust.js:110-112 | a non-empty `hash` option is returned as is; otherwise the result is the prefix of the digest of length min(max(length, 0), digest length), hexadecimal when the digest is |
| Naming.Origin | tasks/cachebust.js:122 | the origin is empty exactly when the URL has no hostname |
| Naming.HashSegment | tasks/cachebust.js:122 | the segment is empty exactly when the hash is; otherwise it starts with the separator and ends with the hash |
| Naming.TargetPath | tasks/cachebust.js:119 | without output directory the pathname itself; with one, a path that starts with the directory and ends with what the basename regex leaves of the pathname |
| Naming.AddFileHash | tasks/cachebust.js:114-124 | query mode gives `str + "?" + hash` (a bare `?` for an empty hash); file mode starts with the origin and ends with the hash segment and the extension |
| Naming.FileModeName | tasks/cachebust.js:118-122 | when the extension occurs in the target path only at its end, the result is origin, path before the extension, hash segment, extension |
| Naming.FileModeEmptyHash | tasks/cachebust.js:122 | with an empty hash and an extension that occurs in the target path only at its end, no separator is added and the target path is kept whole |
| Naming.FileModeNoExtension | tasks/cachebust.js:120-122 | a path without extension only gets the hash segment appended |
| Naming.OutputDirKeepsLastSegment | tasks/cachebust.js:119 | with an output directory the directory part is dropped: the name is the output directory joined with the last segment, as if only that segment had been given |
| Naming.DottedName | tasks/cachebust.js:118-122 | `stem.ext` without host becomes `stem.<hash>.ext` when `.ext` occurs only at the end |
| Naming.AppCssName | tasks/cachebust.js:114-124 | `css/app.css` becomes `css/app.<hash>.css` |
| Naming.FirstOccurrenceInStem | tasks/cachebust.js:122 | `jquery.jsonp.js` becomes `jqueryonp.js.<hash>.js`: the first `.js` is deleted, not the last |
| Naming.AbsoluteUrlLosesSlashes | tasks/cachebust.js:118-122 | `http://example.com/app.js` becomes `http:example.com/app.<hash>.js` |
| Paths.ExtName | tasks/cachebust.js:120 | the extension is empty or a dot followed by dot-free, slash-free text, and ends the path without its trailing slashes |
| Paths.ExtNameOfLastSegment | tasks/cachebust.js:120 | the extension depends only on the last path segment |
| Paths.ExtNameOfDotted | tasks/cachebust.js:120 | the extension of `stem.ext` is `.ext` |
| Paths.StripDirectory | tasks/cachebust.js:119 | the basename regex leaves a suffix of the pathname |
| Paths.StripDirectoryOf | tasks/cachebust.js:119 | with no line break before it, everything up to the last `/` or `\` is dropped |
| Paths.JoinPath | tasks/cachebust.js:119 | the joined path starts with the directory and ends with the name, with exactly one `/` between them |
| Paths.JoinPathLastSegment | tasks/cachebust.js:119 | the last segment of the joined path is the name that was joined |
| Text.ReplaceFirst | tasks/cachebust.js:122 | the first occurrence of a string pattern is replaced; a text without an occurrence is unchanged; `ReplaceFirstOfSuffix` and `ReplaceFirstOfMiddle` give the result |
| Text.Split | tasks/cachebust.js:77-78 | at least one piece, no piece contains the separator, and joining the pieces with it gives the text back |
| Text.Join | tasks/cachebust.js:78 | the pieces with the separator between each two; `Split` is its right inverse |
| Ordering.SortAscending | tasks/cachebust.js:42 | the result is ascending and a permutation of the input |
| Ordering.AscendingUnique | tasks/cachebust.js:42 | an ascending permutation is unique, so the sort is determined by its specification |
| Ordering.Reverse | tasks/cachebust.js:43 | element i of the result is element n-1-i of the input |
| Ordering.SortDescending | tasks/cachebust.js:42-43 | `sort().reverse()`, the reverse of the ascending sort; `SortDescendingSpec` proves it descending and a permutation |
| Ordering.SortDescendingSpec | tasks/cachebust.js:40-43 | the processing order is descending and holds each listed path as often as listed |
| Ordering.ExtensionsFirst | tasks/cachebust.js:40-43 | a path that extends another one (`app.js.map` of `app.js`) is processed before it |
| Ordering.DistinctPermutation | tasks/cachebust.js:40-43 | sorting paths that are listed once each keeps them listed once each |
| AssetMap.Lookup | tasks/cachebust.js:105 | a key is found exactly when it is present, with a value it is stored with |
| AssetMap.PutLookup | tasks/cachebust.js:105 | after `obj[file] = name` the file maps to name and every other key is unchanged |
| AssetMap.Put | tasks/cachebust.js:105 | an existing key keeps its place among the keys; a new key is added after all others |
| AssetMap.FileEffects | tasks/cachebust.js:95-103 | the copy and deletion for one asset under the option guards; `EffectsExact` states when each happens |
| AssetMap.AssetMapOf | tasks/cachebust.js:40-44 | the object after `hashFile` has named every path of the processing order, starting from `{}`; `AssetMapKeys` and `AssetMapLookup` give its keys and values |
| AssetMap.EffectsOf | tasks/cachebust.js:40-44 | the effects of the same fold, asset by asset in processing order; `EffectsExact` and `CopyPrecedesDelete` describe them |
| AssetMap.HashFile | tasks/cachebust.js:88-108 | the map gets the file with its new name; the log grows by exactly the copy and delete of this file |
| AssetMap.ApplyFileEffects | tasks/cachebust.js:95-103 | the log grows by a copy to the new name when `createCopies` is set, then a deletion of the original when `deleteOriginals` is set, and by nothing in query-string mode |
| AssetMap.BuildAssetMap | tasks/cachebust.js:40-44 | the map and the log are those of folding `hashFile` over the descending order, starting from `{}` |
| AssetMap.AssetMapKeys | tasks/cachebust.js:40-44 | the keys are unique and are exactly the listed paths, in processing order when each is listed once |
| AssetMap.AssetMapLookup | tasks/cachebust.js:105 | each listed path maps to its derived name; unlisted paths are absent |
| AssetMap.BuiltMapOrder | tasks/cachebust.js:40-44 | the keys are descending, distinct and a permutation of the listed paths |
| AssetMap.QueryModeNoEffects | tasks/cachebust.js:95 | in query-string mode no file is copied or deleted |
| AssetMap.EffectsExact | tasks/cachebust.js:95-103 | a copy to the new name happens exactly when not in query mode and `createCopies` is set; a deletion of the original exactly when `deleteOriginals` is set |
| AssetMap.CopyPrecedesDelete | tasks/cachebust.js:96-103 | with both options on, each asset is copied and then deleted, asset by asset |
| AssetMap.DeleteOldHashFiles | tasks/cachebust.js:50-54 | the log grows by exactly the stale deletions, in the order of the previous map |
| AssetMap.StaleDeletes | tasks/cachebust.js:50-53 | one deletion per previous entry, in the previous map's order, under the guard of line 51; `StaleDeletesExact` characterises it |
| AssetMap.StaleDeletesExact | tasks/cachebust.js:51-53 | the cleanup only deletes; it deletes h exactly when a previous entry maps another path to h and h is no value of the new map; a current value is never deleted |
| AssetMap.ChangedHashIsCleaned | tasks/cachebust.js:51-53 | a file whose hash changed has its previous busted file deleted |
| Rewrite.SplitExtension | tasks/cachebust.js:74-76 | the extension has no dot; trunk, dot and extension rebuild a name that has a dot; a name without a dot has an empty trunk and is its own extension |
| Rewrite.SplitExtensionOf | tasks/cachebust.js:74-76 | `trunk.ext` with a dot-free ext splits into exactly trunk and ext |
| Rewrite.CompileAsWritten | tasks/cachebust.js:80 | the pattern as the source builds it, with the extension unescaped; an error where `new RegExp` throws |
| Rewrite.Compile | tasks/cachebust.js:80 | the two alternatives with every piece literal; `CompileEscapesAll` shows it is the fully escaped pattern |
| Rewrite.MatchAt | tasks/cachebust.js:80 | the first alternative with the query group taken greedily, else the second alternative; a match never goes past the text |
| Rewrite.ReplaceAll | tasks/cachebust.js:82 | the global `replace` as a left-to-right scan; `SkipUnmatched`, `ReplaceFirstMatch` and `NoMatchUnchanged` pin it down |
| Rewrite.CompileEscapesAll | tasks/cachebust.js:80 | escaping all three pieces gives the pattern "original, optional hex query" or "trunk, separator, hex digits, dot, extension", all literal |
| Rewrite.AsWrittenAgrees | tasks/cachebust.js:80 | an extension with no special character gives the same pattern whether it is escaped or not |
| Rewrite.QueryLenOf | tasks/cachebust.js:80 | the optional query group takes `?` and the whole run of hex digits when one follows, and nothing otherwise |
| Rewrite.PlainMatch | tasks/cachebust.js:80 | text starting with the original name matches it plus the query group |
| Rewrite.VersionedMatch | tasks/cachebust.js:80 | text not starting with the original name can only match the second alternative |
| Rewrite.MismatchNoMatch | tasks/cachebust.js:80 | nothing matches at a character other than the first of the name |
| Rewrite.SkipUnmatched | tasks/cachebust.js:82 | characters before the first match are kept as they are |
| Rewrite.NoMatchUnchanged | tasks/cachebust.js:82 | text with no match anywhere is unchanged |
| Rewrite.ReplaceFirstMatch | tasks/cachebust.js:82 | the leftmost match is replaced by the busted name and scanning goes on after it |
| Rewrite.NoFirstCharUnchanged | tasks/cachebust.js:80-82 | text not containing the first character of the name is unchanged |
| Rewrite.OriginalReplaced | tasks/cachebust.js:80-82 | a reference to the original name is replaced and the text around it is kept |
| Rewrite.OldQueryReplaced | tasks/cachebust.js:80-82 | a reference with an old hex query is replaced together with the query |
| Rewrite.OldHashReplaced | tasks/cachebust.js:80-82 | a reference to an earlier busted name is replaced by the current one |
| Rewrite.NonHexQueryKept | tasks/cachebust.js:80-82 | `css/app.css?oldhash123` keeps `?oldhash123` |
| Rewrite.HexQueryReplaced | tasks/cachebust.js:80-82 | `css/app.css?0ff1ce` is replaced whole |
| Rewrite.ReferenceInMarkup | tasks/cachebust.js:80-82 | `href="css/app.css"` becomes `href="<busted>"` |
| Rewrite.QueryNameIsFixedPoint | tasks/cachebust.js:80-82 | `original?hex` is rewritten to itself |
| Rewrite.VersionedNameIsFixedPoint | tasks/cachebust.js:74-82 | `trunk sep hex . ext` that does not start with the original name is rewritten to itself |
| Rewrite.BustedNameIsFixedPoint | tasks/cachebust.js:74-82 | the file-mode name `addFileHash` gives for `stem.ext` with separator `.` is `stem.<hash>.ext`. It is rewritten to itself when `.ext` occurs only at the end and `<hash>.ext` does not start with `ext` |
| Rewrite.DottedNameIsFixedPoint | tasks/cachebust.js:74-82 | `stem.<hash>.ext` is rewritten with the pattern of `stem.ext` to itself when `<hash>.ext` does not start with `ext` |
| Rewrite.AppCssIsFixedPoint | tasks/cachebust.js:74-82 | `css/app.<hash>.css` is rewritten to itself for every non-empty hexadecimal hash |
| Rewrite.QueryBustedIsFixedPoint | tasks/cachebust.js:74-82 | the query-mode name `addFileHash` gives is rewritten to itself when the hash is a non-empty run of hexadecimal digits |
| Rewrite.QueryNonHexGrows | tasks/cachebust.js:80-82 | the query-mode name with an empty hash, or one that does not start with a hexadecimal digit, gets `?` and the hash appended again on every run |
| Rewrite.HexExtensionGrows | tasks/cachebust.js:80-82 | `main.cafe.c`, the busted `main.c`, is rewritten to `main.cafe.cafe.c` |
| Rewrite.RewriteAsWritten | tasks/cachebust.js:80-82 | one entry applied with the pattern as written: the error of `new RegExp`, or the rewritten text |
| Rewrite.RewriteAsWrittenAgrees | tasks/cachebust.js:80-82 | with a plain extension, rewriting with the pattern as written equals rewriting with the escaped one |
| Rewrite.DoublePlusRejected | tasks/cachebust.js:80 | an extension of one plain character and `++` makes the pattern as written invalid |
| Rewrite.CPlusPlusRejected | tasks/cachebust.js:80 | the pattern as written for `main.c++` has nothing to repeat |
| Rewrite.PlusExtensionGrows | tasks/cachebust.js:80-82 | as written, the busted name of `stem.c+` is rewritten to itself plus `+` |
| Rewrite.PlusExtensionExample | tasks/cachebust.js:80-82 | as written, `a.9e.x+` becomes `a.9e.x++` |
| Rewrite.PlusExtensionFixed | tasks/cachebust.js:80-82 | escaped, `a.9e.x+` is rewritten to itself |
| Rewrite.RewriteFirstEntryFirst | tasks/cachebust.js:73-84 | the entries are applied in map order, the first one to the text as read |
| Rewrite.RewriteUnmatched | tasks/cachebust.js:73-84 | a text that no entry matches is unchanged |
| Rewrite.ReplaceEntry | tasks/cachebust.js:80-82 | one entry of the map applied to a text: every match of its corrected pattern replaced by its busted name |
| Rewrite.RewriteText | tasks/cachebust.js:74-83 | the entries of the map applied in map order; `RewriteFirstEntryFirst` and `RewriteUnmatched` describe it |
| Rewrite.ReplaceInFile | tasks/cachebust.js:71-86 | the markup is the text after every entry of the map has been applied in order |
| CacheBust.CacheBustTask | tasks/cachebust.js:40-65 | one run: the map and effects of the fold, then the stale deletions, then every document rewritten; a missing previous map ends the run after the fold |
| CacheBust.RewriteDocuments | tasks/cachebust.js:65 | the documents come out in their order, each rewritten with every entry of the map |
| CacheBust.NamedIsValue | tasks/cachebust.js:40-44 | the name derived for a listed path is a value of the map |
| CacheBust.CopiesSurviveCleanup | tasks/cachebust.js:40-55 | the cleanup never deletes a copy the same run has made |

## Findings

| source | as written | input that shows it | evidently intended | confidence | as-written member | corrected member |
|---|---|---|---|---|---|---|
| tasks/cachebust.js:80 | the extension is put into the `RegExp` source without `escapeStr` | an asset named `main.c++`: `\.c++` has a `+` with nothing to repeat, so `new RegExp` throws and the task stops | the extension escaped like the original name and the trunk | not executed | Rewrite.CPlusPlusRejected | Rewrite.CompileEscapesAll |
| tasks/cachebust.js:80 | the extension is put into the `RegExp` source without `escapeStr` | an asset `a.x+` busted as `a.9e.x+`: `x+` matches only the `x`, so each run turns a reference into `a.9e.x++`, then `a.9e.x+++` | a busted reference is left as it is | not executed | Rewrite.PlusExtensionExample | Rewrite.PlusExtensionFixed |

The rest of the model (`ReplaceEntry`, `ReplaceInFile`, `CacheBustTask`) uses the corrected `Compile`.
`RewriteAsWritten` is the rewrite with the pattern as written. `RewriteAsWrittenAgrees` shows that the two
rewrites agree whenever the extension has no special character.

## Left out

- The digest itself (`crypto.createHash(...).digest('hex')`) is an uninterpreted function. Unknown algorithms and encodings are not modelled.
- File reads, copies and deletions are not real: `FileSystem` only logs `Copy` and `Delete` effects. `path.resolve` against `baseDir` is not modelled; effect paths are relative to `baseDir`.
- `clearOutputDir` (lines 35-37) is not modelled. It is file-system I/O.
- `grunt.file.expand` is not modelled. Globbing and `getFilesToBeRenamed` (lines 126-135) are host plumbing. The listed paths and the documents to rewrite are parameters.
- Reading the previous map with `grunt.file.readJSON` (line 48) becomes an `Option` parameter; `None` stands for the exception. Writing the map as JSON (lines 60-62) is not modelled, since the map is the run's result. Logging is not modelled.
- `url.parse` is not modelled: its protocol, hostname and pathname are supplied by a host function.
- JavaScript object key order is not modelled. Objects list integer-like keys first and treat `__proto__` specially; the map here is insertion-ordered for every key.
- `Ordering.Below` compares characters by code point, and `.sort()` compares UTF-16 code units. The two orders agree on the Basic Multilingual Plane but not above it.
- `path.join` is not modelled beyond joining a directory and a plain file name. It also normalises `..` and repeated slashes.
- Only POSIX `path.extname` is modelled, not the Windows variant.
- `$&`, `$1` and the other `$` forms in the replacement string are not modelled: the busted name is inserted literally.
- `Regex.Parse`: regular-expression constructs other than literals, `\x` escapes and the `*`, `+`, `?` quantifiers yield `Unmodelled`. This covers classes, groups, anchors, alternation, `{n}` and lazy quantifiers, which an unescaped extension could contain.
- The `m` flag is not modelled: the pattern has no anchors, so it does not change any match.
- `hash` options that are not strings (numbers, booleans) are not modelled. An unset `hash` is the empty string. A non-numeric `length` is not modelled.
- `HashFile`: the accumulator `obj` is a value threaded through the fold, not an object mutated in place. The JavaScript code returns the same object it was given, so nothing observable differs.
- Rewrite.ReplaceInFile: uses the corrected pattern `Compile`, with the extension escaped, not the pattern of line 80 as written. The two agree whenever the extension has no special character (`RewriteAsWrittenAgrees`); where they differ is shown under "## Findings".
- CacheBust.CacheBustTask: rewrites the documents through `ReplaceInFile`, so it too uses the corrected pattern.
