/**
 * Reference rewriting, `replaceInFile` (tasks/cachebust.js:71-86): for each
 * entry of the asset map, in map order, every match of
 * `escapeStr(original)(\?[a-fA-F0-9]+)?|(escapeStr(trunk + separator)[a-fA-F0-9]+\.ext)`
 * is replaced by the busted name.
 */
module Rewrite {
  import opened Wrappers
  import opened Text
  import opened Regex
  import opened Paths
  import opened Naming
  import opened AssetMap

  /**
   * `original.split('.')`: the trunk is every piece but the last joined
   * again with `.`, the extension is the last piece.
   */
  function SplitExtension(original: string): (r: (string, string))
    ensures '.' !in r.1
    ensures '.' in original ==> r.0 + "." + r.1 == original
    ensures '.' !in original ==> r.0 == "" && r.1 == original
  {
    var parts := Split(original, '.');
    var trunk := Join(parts[..|parts| - 1], '.');
    var ext := parts[|parts| - 1];
    if |parts| >= 2 then
      JoinSnoc(parts, '.');
      JoinHasSeparator(parts, '.');
      (trunk, ext)
    else
      assert parts[..0] == [];
      (trunk, ext)
  }

  /** A name made of a trunk, a dot and a dot-free extension splits back into them. */
  lemma SplitExtensionOf(trunk: string, ext: string)
    requires '.' !in ext
    ensures SplitExtension(trunk + "." + ext) == (trunk, ext)
  {
    var original := trunk + "." + ext;
    assert original[|trunk|] == '.';
    var r := SplitExtension(original);
    LastSeparatorUnique(r.0, r.1, trunk, ext, '.');
  }

  /** The two alternatives of the rewrite pattern. */
  datatype Pattern = Pattern(plain: seq<Atom>, versioned: seq<Atom>)

  /**
   * The pattern built from the source text of the original name, of the
   * trunk with its separator, and of the extension, each as it is inserted
   * into the pattern source; a fragment that does not compile is an error.
   */
  function PatternOf(originalSource: string, trunkSource: string, extSource: string): Result<Pattern, RegexError> {
    match Parse(originalSource)
    case Err(e) => Err(e)
    case Ok(plain) =>
      match Parse(trunkSource)
      case Err(e) => Err(e)
      case Ok(trunk) =>
        match Parse("\\." + extSource)
        case Err(e) => Err(e)
        case Ok(ext) => Ok(Pattern(plain, trunk + [HexPlus] + ext))
  }

  /** The pattern of line 80 as written: the extension goes into the pattern source unescaped. */
  function CompileAsWritten(original: string, separator: string): Result<Pattern, RegexError> {
    var (trunk, ext) := SplitExtension(original);
    PatternOf(EscapeStr(original), EscapeStr(trunk + separator), ext)
  }

  /**
   * The pattern with the extension escaped like the other two pieces: the
   * original name, or the trunk, separator, hexadecimal digits, a dot and
   * the extension, all literally.
   */
  function Compile(original: string, separator: string): Pattern {
    var (trunk, ext) := SplitExtension(original);
    Pattern(Lits(original), Lits(trunk + separator) + [HexPlus] + Lits("." + ext))
  }

  /** `Compile` is the pattern the source builds once the extension is escaped too. */
  lemma CompileEscapesAll(original: string, separator: string)
    ensures var (trunk, ext) := SplitExtension(original);
            PatternOf(EscapeStr(original), EscapeStr(trunk + separator), EscapeStr(ext)) == Ok(Compile(original, separator))
  {
    var (trunk, ext) := SplitExtension(original);
    EscapeRoundTrip(original);
    EscapeRoundTrip(trunk + separator);
    EscapeRoundTrip("." + ext);
    assert EscapeStr("." + ext) == "\\." + EscapeStr(ext) by {
      assert ("." + ext)[1..] == ext;
    }
  }

  /** Where the extension has no special character, the pattern as written is the escaped one. */
  lemma AsWrittenAgrees(original: string, separator: string)
    requires forall i :: 0 <= i < |SplitExtension(original).1| ==> !IsSpecial(SplitExtension(original).1[i])
    ensures CompileAsWritten(original, separator) == Ok(Compile(original, separator))
  {
    EscapeStrPlain(SplitExtension(original).1);
    CompileEscapesAll(original, separator);
  }

  /** `(\?[a-fA-F0-9]+)`. */
  const QueryGroup := Lits("?") + [HexPlus]

  /** How much the optional query group takes: all of it when it matches, nothing otherwise. */
  function QueryLen(t: string): (n: nat)
    ensures n <= |t|
  {
    match MatchLen(QueryGroup, t)
    case Some(n) => n
    case None => 0
  }

  /**
   * The length of the match at the start of `t`: the first alternative,
   * then its optional query group taken greedily; the second alternative
   * only when the first fails.
   */
  function MatchAt(p: Pattern, t: string): (r: Option<nat>)
    ensures r.Some? ==> r.value <= |t|
  {
    match MatchLen(p.plain, t)
    case Some(j) => Some(j + QueryLen(t[j..]))
    case None => MatchLen(p.versioned, t)
  }

  /**
   * `t.replace(p, hashed)` with a global pattern: from left to right, each
   * match is replaced and the scan goes on after it; after an empty match
   * the next character is kept and the scan goes on after that character.
   */
  function ReplaceAll(p: Pattern, hashed: string, t: string): string
    decreases |t|
  {
    match MatchAt(p, t)
    case Some(n) =>
      if n > 0 then hashed + ReplaceAll(p, hashed, t[n..])
      else if t == [] then hashed
      else hashed + [t[0]] + ReplaceAll(p, hashed, t[1..])
    case None =>
      if t == [] then [] else [t[0]] + ReplaceAll(p, hashed, t[1..])
  }

  /** No match starts at any of the first `m` positions of `t`. */
  predicate NoMatchBefore(p: Pattern, t: string, m: nat)
    decreases m
  {
    m == 0 || (t != [] && MatchAt(p, t).None? && NoMatchBefore(p, t[1..], m - 1))
  }

  lemma {:induction false} NoMatchBeforeOf(p: Pattern, t: string, m: nat)
    requires m <= |t|
    requires forall k :: 0 <= k < m ==> MatchAt(p, t[k..]).None?
    ensures NoMatchBefore(p, t, m)
    decreases m
  {
    if m > 0 {
      assert t[0..] == t;
      var u := t[1..];
      forall k | 0 <= k < m - 1 ensures MatchAt(p, u[k..]).None? {
        assert u[k..] == t[k + 1..];
      }
      NoMatchBeforeOf(p, u, m - 1);
    }
  }

  /** Where no match starts, the first character is kept and the scan goes on after it. */
  lemma UnmatchedStep(p: Pattern, hashed: string, t: string)
    requires t != [] && MatchAt(p, t).None?
    ensures ReplaceAll(p, hashed, t) == [t[0]] + ReplaceAll(p, hashed, t[1..])
  {
  }

  lemma {:induction false} SkipPrefix(p: Pattern, hashed: string, a: string, b: string)
    requires NoMatchBefore(p, a + b, |a|)
    ensures ReplaceAll(p, hashed, a + b) == a + ReplaceAll(p, hashed, b)
    decreases |a|
  {
    if a == [] {
      assert a + b == b;
    } else {
      SkipFirst(p, a, b);
      SkipPrefix(p, hashed, a[1..], b);
      SkipOne(p, hashed, a, b);
    }
  }

  lemma SkipFirst(p: Pattern, a: string, b: string)
    requires a != [] && NoMatchBefore(p, a + b, |a|)
    ensures NoMatchBefore(p, a[1..] + b, |a| - 1)
  {
    assert (a + b)[1..] == a[1..] + b;
  }

  lemma SkipOne(p: Pattern, hashed: string, a: string, b: string)
    requires a != [] && MatchAt(p, a + b).None?
    requires ReplaceAll(p, hashed, a[1..] + b) == a[1..] + ReplaceAll(p, hashed, b)
    ensures ReplaceAll(p, hashed, a + b) == a + ReplaceAll(p, hashed, b)
  {
    UnmatchedSplit(p, hashed, a, b);
    ConsAssoc(a, ReplaceAll(p, hashed, b));
  }

  lemma UnmatchedSplit(p: Pattern, hashed: string, a: string, b: string)
    requires a != [] && MatchAt(p, a + b).None?
    ensures ReplaceAll(p, hashed, a + b) == [a[0]] + ReplaceAll(p, hashed, a[1..] + b)
  {
    var t := a + b;
    assert t[0] == a[0] && t[1..] == a[1..] + b;
    UnmatchedStep(p, hashed, t);
  }

  /** Where no match starts before `m`, the first `m` characters are kept as they are. */
  lemma SkipUnmatched(p: Pattern, hashed: string, t: string, m: nat)
    requires m <= |t|
    requires forall k :: 0 <= k < m ==> MatchAt(p, t[k..]).None?
    ensures ReplaceAll(p, hashed, t) == t[..m] + ReplaceAll(p, hashed, t[m..])
  {
    NoMatchBeforeOf(p, t, m);
    assert t == t[..m] + t[m..];
    SkipPrefix(p, hashed, t[..m], t[m..]);
  }

  /** Text in which the pattern matches nowhere is left unchanged. */
  lemma NoMatchUnchanged(p: Pattern, hashed: string, t: string)
    requires forall k :: 0 <= k <= |t| ==> MatchAt(p, t[k..]).None?
    ensures ReplaceAll(p, hashed, t) == t
  {
    SkipUnmatched(p, hashed, t, |t|);
    assert t[|t|..] == [];
    assert t[..|t|] == t;
  }

  /**
   * The first match, at `m` and of length `n > 0`, is replaced by the busted
   * name, the text before it is kept, and the scan goes on after it.
   */
  lemma ReplaceFirstMatch(p: Pattern, hashed: string, t: string, m: nat, n: nat)
    requires m <= |t|
    requires forall k :: 0 <= k < m ==> MatchAt(p, t[k..]).None?
    requires MatchAt(p, t[m..]) == Some(n) && n > 0
    ensures ReplaceAll(p, hashed, t) == t[..m] + hashed + ReplaceAll(p, hashed, t[m + n..])
  {
    NoMatchBeforeOf(p, t, m);
    assert t == t[..m] + t[m..];
    ReplaceAfterPrefix(p, hashed, t[..m], t[m..], n);
    assert t[m..][n..] == t[m + n..];
  }

  /** The same with the text given as the unmatched part and the rest, the match at the start of the rest. */
  lemma ReplaceAfterPrefix(p: Pattern, hashed: string, pre: string, u: string, n: nat)
    requires NoMatchBefore(p, pre + u, |pre|)
    requires MatchAt(p, u) == Some(n) && n > 0
    ensures ReplaceAll(p, hashed, pre + u) == pre + hashed + ReplaceAll(p, hashed, u[n..])
  {
    SkipPrefix(p, hashed, pre, u);
    MatchedStep(p, hashed, u, n);
    AppendAssoc(pre, hashed, ReplaceAll(p, hashed, u[n..]));
  }

  /** A non-empty match is replaced and the scan goes on after it. */
  lemma MatchedStep(p: Pattern, hashed: string, u: string, n: nat)
    requires MatchAt(p, u) == Some(n) && n > 0
    ensures ReplaceAll(p, hashed, u) == hashed + ReplaceAll(p, hashed, u[n..])
  {
  }
  /** The optional query group takes `?` and the whole run of hexadecimal digits after it, if there is one. */
  lemma QueryLenOf(u: string)
    ensures QueryLen(u) == if |u| >= 2 && u[0] == '?' && IsHexDigit(u[1]) then 1 + Run(HexDigit, u[1..]) else 0
  {
    LitsThen("?", [HexPlus], u);
    if StartsWith(u, "?") {
      HexPlusAlone(u[1..]);
    } else if |u| >= 1 {
      assert u[..1] != "?";
    }
  }

  /** Where the text starts with the original name, the first alternative matches, with any query. */
  lemma PlainMatch(original: string, separator: string, t: string)
    requires StartsWith(t, original)
    ensures MatchAt(Compile(original, separator), t) == Some(|original| + QueryLen(t[|original|..]))
  {
    LitsAlone(original, t);
  }

  /**
   * The second alternative matches the trunk and the separator, the whole
   * run of hexadecimal digits after them (at least one), a dot and the
   * extension.
   */
  lemma VersionedAlternative(head: string, ext: string, t: string)
    ensures MatchLen(Lits(head) + [HexPlus] + Lits("." + ext), t)
         == if StartsWith(t, head) && Run(HexDigit, t[|head|..]) >= 1
               && StartsWith(t[|head| + Run(HexDigit, t[|head|..])..], "." + ext)
            then Some(|head| + Run(HexDigit, t[|head|..]) + 1 + |ext|)
            else None
  {
    var tail := [HexPlus] + Lits("." + ext);
    AppendAssoc(Lits(head), [HexPlus], Lits("." + ext));
    LitsThen(head, tail, t);
    if StartsWith(t, head) {
      VersionedTailAt(head, ext, t);
    }
  }

  lemma VersionedTailAt(head: string, ext: string, t: string)
    requires StartsWith(t, head)
    ensures Shift(MatchLen([HexPlus] + Lits("." + ext), t[|head|..]), |head|)
         == if Run(HexDigit, t[|head|..]) >= 1 && StartsWith(t[|head| + Run(HexDigit, t[|head|..])..], "." + ext)
            then Some(|head| + Run(HexDigit, t[|head|..]) + 1 + |ext|)
            else None
  {
    var u := t[|head|..];
    HexPlusThenLits("." + ext, u);
    var n := Run(HexDigit, u);
    if n >= 1 {
      assert u[n..] == t[|head| + n..];
    }
  }

  /** Where the text does not start with the original name, only the second alternative can match. */
  lemma VersionedMatch(original: string, separator: string, t: string)
    requires !StartsWith(t, original)
    ensures var (trunk, ext) := SplitExtension(original);
            MatchAt(Compile(original, separator), t) == MatchLen(Lits(trunk + separator) + [HexPlus] + Lits("." + ext), t)
  {
    LitsAlone(original, t);
  }

  /** The text after a match is scanned again; the empty rest of a text has no match. */
  lemma EmptyTextNoMatch(original: string, separator: string)
    requires original != ""
    ensures MatchAt(Compile(original, separator), []) == None
  {
    VersionedMatch(original, separator, []);
    VersionedAlternative(SplitExtension(original).0 + separator, SplitExtension(original).1, []);
  }

  /**
   * A text that does not start with the first character of the original name
   * has no match at its start, when the name has a non-empty trunk.
   */
  lemma MismatchNoMatch(original: string, separator: string, t: string)
    requires original != "" && SplitExtension(original).0 != ""
    requires t == [] || t[0] != original[0]
    ensures MatchAt(Compile(original, separator), t) == None
  {
    var (trunk, ext) := SplitExtension(original);
    assert original == trunk + "." + ext;
    assert original[0] == trunk[0];
    assert !StartsWith(t, original);
    VersionedMatch(original, separator, t);
    VersionedAlternative(trunk + separator, ext, t);
    assert !StartsWith(t, trunk + separator) by {
      assert (trunk + separator)[0] == trunk[0];
    }
  }

  /** A text without the first character of such a name is left unchanged. */
  lemma NoFirstCharUnchanged(original: string, separator: string, hashed: string, t: string)
    requires original != "" && SplitExtension(original).0 != ""
    requires original[0] !in t
    ensures ReplaceAll(Compile(original, separator), hashed, t) == t
  {
    forall k | 0 <= k <= |t| ensures MatchAt(Compile(original, separator), t[k..]).None? {
      if k < |t| {
        assert t[k..][0] == t[k];
      }
      MismatchNoMatch(original, separator, t[k..]);
    }
    NoMatchUnchanged(Compile(original, separator), hashed, t);
  }

  /** A run of hexadecimal digits that ends the text or is followed by a non-digit is all of them. */
  lemma RunOfHex(q: string, rest: string)
    requires IsHex(q)
    requires rest == [] || !IsHexDigit(rest[0])
    ensures Run(HexDigit, q + rest) == |q|
  {
    var t := q + rest;
    assert forall i :: 0 <= i < |q| ==> t[i] == q[i];
    assert |t| > |q| ==> t[|q|] == rest[0];
  }

  /** The busted name of query-string mode is rewritten to itself. */
  lemma QueryNameIsFixedPoint(original: string, separator: string, q: string)
    requires original != ""
    requires q != "" && IsHex(q)
    ensures var busted := original + "?" + q;
            ReplaceAll(Compile(original, separator), busted, busted) == busted
  {
    var p := Compile(original, separator);
    var busted := original + "?" + q;
    QueryAloneShape(original, q);
    QueryMatch(original, separator, q, []);
    MatchedStep(p, busted, busted, |busted|);
    EmptyRest(busted, busted);
    EmptyTextUnchanged(original, separator, busted);
  }

  /** The second alternative matches all of a busted name that does not start with the original name. */
  lemma VersionedNameMatch(original: string, separator: string, q: string)
    requires q != "" && IsHex(q)
    requires var (trunk, ext) := SplitExtension(original);
             !StartsWith(trunk + separator + q + "." + ext, original)
    ensures var (trunk, ext) := SplitExtension(original);
            var busted := trunk + separator + q + "." + ext;
            MatchAt(Compile(original, separator), busted) == Some(|busted|)
  {
    var (trunk, ext) := SplitExtension(original);
    VersionedMatch(original, separator, trunk + separator + q + "." + ext);
    VersionedAlternativeWhole(trunk + separator, q, ext);
  }

  lemma VersionedAlternativeWhole(head: string, q: string, ext: string)
    requires q != "" && IsHex(q)
    ensures var t := head + q + "." + ext;
            MatchLen(Lits(head) + [HexPlus] + Lits("." + ext), t) == Some(|t|)
  {
    VersionedAlternativeWithTail(head, q, ext, []);
    assert head + q + "." + ext + [] == head + q + "." + ext;
  }

  /**
   * The busted name of file mode, trunk, separator, a hexadecimal hash, a dot
   * and the extension, is rewritten to itself, provided it does not start
   * with the original name.
   */
  lemma VersionedNameIsFixedPoint(original: string, separator: string, q: string)
    requires '.' in original
    requires q != "" && IsHex(q)
    requires var (trunk, ext) := SplitExtension(original);
             !StartsWith(trunk + separator + q + "." + ext, original)
    ensures var (trunk, ext) := SplitExtension(original);
            var busted := trunk + separator + q + "." + ext;
            ReplaceAll(Compile(original, separator), busted, busted) == busted
  {
    var (trunk, ext) := SplitExtension(original);
    var busted := trunk + separator + q + "." + ext;
    VersionedNameMatch(original, separator, q);
    assert busted[|busted|..] == [];
    EmptyTextNoMatch(original, separator);
  }
  /**
   * The name `addFileHash` gives in file mode with separator `.` and no
   * output directory is rewritten to itself, when `.ext` occurs in the path
   * only at its end and the busted name does not start with the original
   * one, that is, `hash.ext` does not start with `ext`.
   */
  lemma BustedNameIsFixedPoint(stem: string, ext: string, hash: string, url: UrlParts)
    requires stem != [] && stem[|stem| - 1] != '/'
    requires ext != [] && '.' !in ext && '/' !in ext
    requires forall k :: 0 <= k < |stem| ==> !OccursAt(stem + ("." + ext), "." + ext, k)
    requires hash != "" && IsHex(hash)
    requires !StartsWith(hash + "." + ext, ext)
    requires url.hostname == "" && url.pathname == stem + "." + ext
    ensures var original := stem + "." + ext;
            var busted := AddFileHash(original, url, hash, ".", false, "");
            busted == stem + "." + hash + "." + ext
            && ReplaceAll(Compile(original, "."), busted, busted) == busted
  {
    DottedName(stem, ext, hash, url);
    DottedNameIsFixedPoint(stem, ext, hash);
  }

  /** `stem.hash.ext` is rewritten to itself unless it starts with `stem.ext`. */
  lemma DottedNameIsFixedPoint(stem: string, ext: string, hash: string)
    requires '.' !in ext && ext != []
    requires hash != "" && IsHex(hash)
    requires !StartsWith(hash + "." + ext, ext)
    ensures var busted := stem + "." + hash + "." + ext;
            ReplaceAll(Compile(stem + "." + ext, "."), busted, busted) == busted
  {
    var original := stem + "." + ext;
    var busted := stem + "." + hash + "." + ext;
    SplitExtensionOf(stem, ext);
    assert original[|stem|] == '.';
    DottedShapes(stem, hash, ext);
    StartsWithCommon(stem + ".", hash + "." + ext, ext);
    VersionedNameIsFixedPoint(original, ".", hash);
  }

  lemma DottedShapes(stem: string, hash: string, ext: string)
    ensures stem + "." + hash + "." + ext == (stem + ".") + (hash + "." + ext)
    ensures stem + "." + ext == (stem + ".") + ext
  {
  }

  /**
   * The design's `css/app.css`: its busted name is rewritten to itself for
   * every hexadecimal hash, although `c` is a hexadecimal digit, because no
   * hash is followed by `ss`.
   */
  lemma AppCssIsFixedPoint(hash: string)
    requires hash != "" && IsHex(hash)
    ensures var busted := "css/app" + "." + hash + "." + "css";
            ReplaceAll(Compile("css/app" + "." + "css", "."), busted, busted) == busted
  {
    CssNotAfterHash(hash);
    DottedNameIsFixedPoint("css/app", "css", hash);
  }

  lemma CssNotAfterHash(hash: string)
    requires hash != "" && IsHex(hash)
    ensures !StartsWith(hash + "." + "css", "css")
  {
    var t := hash + "." + "css";
    if |hash| >= 2 {
      assert t[1] == hash[1];
    } else {
      assert t[1] == '.';
    }
  }

  /** The name `addFileHash` gives in query-string mode is rewritten to itself. */
  lemma QueryBustedIsFixedPoint(original: string, url: UrlParts, hash: string, separator: string, outputDir: string)
    requires original != ""
    requires hash != "" && IsHex(hash)
    ensures var busted := AddFileHash(original, url, hash, separator, true, outputDir);
            ReplaceAll(Compile(original, separator), busted, busted) == busted
  {
    QueryNameIsFixedPoint(original, separator, hash);
  }

  /**
   * A query-string name whose hash is empty or does not start with a
   * hexadecimal digit (the `hash` option is used verbatim) is not a fixed
   * point: `app.js?v2` becomes `app.js?v2?v2`.
   */
  lemma QueryNonHexGrows(original: string, separator: string, hash: string)
    requires original != "" && SplitExtension(original).0 != ""
    requires hash == "" || !IsHexDigit(hash[0])
    requires original[0] != '?' && original[0] !in hash
    ensures var busted := original + "?" + hash;
            ReplaceAll(Compile(original, separator), busted, busted) == busted + "?" + hash
  {
    var busted := original + "?" + hash;
    var post := "?" + hash;
    assert original[0] !in post by {
      forall i | 0 <= i < |post| ensures post[i] != original[0] {
        if i > 0 { assert post[i] == hash[i - 1]; }
      }
    }
    AppendAssoc(original, "?", hash);
    ReplacedAlone(original, separator, busted, post);
    AppendAssoc(busted, "?", hash);
  }

  /**
   * An extension that starts with a hexadecimal digit breaks the fixed
   * point: `main.cafe.c` still starts with `main.c`, so a second run inserts
   * the hash again.
   */
  lemma HexExtensionGrows()
    ensures ReplaceAll(Compile("main.c", "."), "main.cafe.c", "main.cafe.c") == "main.cafe.c" + "afe.c"
  {
    HexExtensionFacts();
    MainTrunk();
    OriginalReplaced("main.c", ".", "main.cafe.c", [], "afe.c");
    NoFirstCharUnchanged("main.c", ".", "main.cafe.c", "afe.c");
    EmptyLeft("main.c", "afe.c");
    EmptyLeft("main.cafe.c", "afe.c");
  }

  lemma HexExtensionFacts()
    ensures 'm' !in "afe.c" && "afe.c"[0] != '?'
    ensures "main.c" + "afe.c" == "main.cafe.c"
  {
  }

  lemma MainTrunk()
    ensures SplitExtension("main.c") == ("main", "c")
  {
    MainParts();
    SplitExtensionOf("main", "c");
  }

  lemma MainParts()
    ensures "main" + "." + "c" == "main.c" && '.' !in "c"
  {
  }

  /**
   * A reference to the original name with no query of hexadecimal digits
   * after it is replaced, when nothing before it can match.
   */
  lemma OriginalReplaced(original: string, separator: string, hashed: string, pre: string, post: string)
    requires original != "" && SplitExtension(original).0 != ""
    requires original[0] !in pre
    requires !(|post| >= 2 && post[0] == '?' && IsHexDigit(post[1]))
    ensures var p := Compile(original, separator);
            ReplaceAll(p, hashed, pre + original + post) == pre + hashed + ReplaceAll(p, hashed, post)
  {
    var u := original + post;
    QueryLenOf(post);
    LeadingPartUnmatched(original, separator, pre, u);
    assert u[..|original|] == original;
    PlainMatch(original, separator, u);
    assert u[|original|..] == post;
    ReplaceAfterPrefix(Compile(original, separator), hashed, pre, u, |original|);
    AppendAssoc(pre, original, post);
  }

  /** No match starts inside a leading part that lacks the first character of the name. */
  lemma {:induction false} LeadingPartUnmatched(original: string, separator: string, pre: string, rest: string)
    requires original != "" && SplitExtension(original).0 != ""
    requires original[0] !in pre
    ensures NoMatchBefore(Compile(original, separator), pre + rest, |pre|)
    decreases |pre|
  {
    if pre != [] {
      var t := pre + rest;
      assert t[0] == pre[0] && t[1..] == pre[1..] + rest;
      MismatchNoMatch(original, separator, t);
      assert original[0] !in pre[1..] by {
        assert forall i :: 0 <= i < |pre| - 1 ==> pre[1..][i] == pre[i + 1];
      }
      LeadingPartUnmatched(original, separator, pre[1..], rest);
    }
  }

  /** A reference with an old query of hexadecimal digits is replaced together with the query. */
  lemma OldQueryReplaced(original: string, separator: string, hashed: string, pre: string, q: string, post: string)
    requires original != "" && SplitExtension(original).0 != ""
    requires original[0] !in pre
    requires q != "" && IsHex(q)
    requires post == [] || !IsHexDigit(post[0])
    ensures var p := Compile(original, separator);
            ReplaceAll(p, hashed, pre + original + "?" + q + post) == pre + hashed + ReplaceAll(p, hashed, post)
  {
    var u := original + ("?" + q + post);
    QueryRegroup(pre, original, q, post);
    LeadingPartUnmatched(original, separator, pre, u);
    QueryMatch(original, separator, q, post);
    ReplaceAfterPrefix(Compile(original, separator), hashed, pre, u, |original| + 1 + |q|);
    assert u[|original| + 1 + |q|..] == post;
  }

  lemma QueryRegroup(pre: string, original: string, q: string, post: string)
    ensures pre + original + "?" + q + post == pre + (original + ("?" + q + post))
  {
    AppendAssoc(pre + original + "?", q, post);
    AppendAssoc(pre + original, "?", q + post);
    AppendAssoc(pre, original, "?" + (q + post));
    AppendAssoc("?", q, post);
  }

  /** The first alternative takes the name and the whole query of hexadecimal digits after it. */
  lemma QueryMatch(original: string, separator: string, q: string, post: string)
    requires q != "" && IsHex(q)
    requires post == [] || !IsHexDigit(post[0])
    ensures MatchAt(Compile(original, separator), original + ("?" + q + post)) == Some(|original| + 1 + |q|)
  {
    var u := original + ("?" + q + post);
    assert u[..|original|] == original;
    PlainMatch(original, separator, u);
    assert u[|original|..] == "?" + q + post;
    QueryLenOfHex(q, post);
  }

  /** An old query of hexadecimal digits is taken whole. */
  lemma QueryLenOfHex(q: string, post: string)
    requires q != "" && IsHex(q)
    requires post == [] || !IsHexDigit(post[0])
    ensures QueryLen("?" + q + post) == 1 + |q|
  {
    var u := "?" + q + post;
    QueryLenOf(u);
    assert u[0] == '?' && u[1] == q[0];
    assert u[1..] == q + post;
    RunOfHex(q, post);
  }

  /**
   * A reference to an earlier busted name (trunk, separator, hexadecimal
   * digits, a dot and the extension) is replaced by the current one.
   */
  lemma OldHashReplaced(original: string, separator: string, hashed: string, pre: string, v: string, post: string)
    requires original != "" && SplitExtension(original).0 != ""
    requires original[0] !in pre
    requires v != "" && IsHex(v)
    requires var (trunk, ext) := SplitExtension(original);
             !StartsWith(trunk + separator + v + "." + ext + post, original)
    ensures var (trunk, ext) := SplitExtension(original);
            var p := Compile(original, separator);
            ReplaceAll(p, hashed, pre + (trunk + separator + v + "." + ext) + post)
              == pre + hashed + ReplaceAll(p, hashed, post)
  {
    var (trunk, ext) := SplitExtension(original);
    var stale := trunk + separator + v + "." + ext;
    var u := stale + post;
    AppendAssoc(pre, stale, post);
    LeadingPartUnmatched(original, separator, pre, u);
    VersionedMatch(original, separator, u);
    VersionedAlternativeWithTail(trunk + separator, v, ext, post);
    ReplaceAfterPrefix(Compile(original, separator), hashed, pre, u, |stale|);
    assert u[|stale|..] == post;
  }

  /** What follows a match of the second alternative does not change it. */
  lemma VersionedAlternativeWithTail(head: string, v: string, ext: string, post: string)
    requires v != "" && IsHex(v)
    ensures var stale := head + v + "." + ext;
            MatchLen(Lits(head) + [HexPlus] + Lits("." + ext), stale + post) == Some(|stale|)
  {
    var rest := "." + ext + post;
    var u := v + rest;
    AppendAssoc(Lits(head), [HexPlus], Lits("." + ext));
    StaleRegroup(head, v, ext, post);
    LitsThenWhole(head, [HexPlus] + Lits("." + ext), u);
    RunOfHex(v, rest);
    HexPlusThenLits("." + ext, u);
    assert u[|v|..] == rest;
    assert rest[..|ext| + 1] == "." + ext;
  }

  lemma StaleRegroup(head: string, v: string, ext: string, post: string)
    ensures head + v + "." + ext + post == head + (v + ("." + ext + post))
  {
    AppendAssoc(head + v + ".", ext, post);
    AppendAssoc(head + v, ".", ext + post);
    AppendAssoc(head, v, "." + (ext + post));
    AppendAssoc(".", ext, post);
  }

  /** A text that is a reference followed by something without its first character. */
  lemma ReplacedAlone(original: string, separator: string, hashed: string, post: string)
    requires original != "" && SplitExtension(original).0 != ""
    requires !(|post| >= 2 && post[0] == '?' && IsHexDigit(post[1]))
    requires original[0] !in post
    ensures ReplaceAll(Compile(original, separator), hashed, original + post) == hashed + post
  {
    var p := Compile(original, separator);
    OriginalReplaced(original, separator, hashed, [], post);
    EmptyLeft(original, post);
    NoFirstCharUnchanged(original, separator, hashed, post);
    EmptyLeft(hashed, post);
  }

  lemma AppCssTrunk()
    ensures SplitExtension("css/app.css") == ("css/app", "css")
  {
    SplitExtensionOf("css/app", "css");
    assert "css/app" + "." + "css" == "css/app.css";
  }

  lemma OldHashQueryLetters()
    ensures var q := "?oldhash123";
            q[0] == '?' && !IsHexDigit(q[1]) && 'c' !in q
  {
  }

  /**
   * A query of letters that are not all hexadecimal stays: `css/app.css?oldhash123`
   * has only its path replaced.
   */
  lemma NonHexQueryKept(hashed: string)
    ensures ReplaceAll(Compile("css/app.css", "."), hashed, "css/app.css" + "?oldhash123") == hashed + "?oldhash123"
  {
    AppCssTrunk();
    OldHashQueryLetters();
    ReplacedAlone("css/app.css", ".", hashed, "?oldhash123");
  }

  /** A reference followed by an old query of hexadecimal digits and nothing else. */
  lemma QueryReplacedAlone(original: string, separator: string, hashed: string, q: string)
    requires original != "" && SplitExtension(original).0 != ""
    requires q != "" && IsHex(q)
    ensures ReplaceAll(Compile(original, separator), hashed, original + "?" + q) == hashed
  {
    var p := Compile(original, separator);
    var t := original + "?" + q;
    QueryAloneShape(original, q);
    QueryMatch(original, separator, q, []);
    MatchedStep(p, hashed, t, |t|);
    EmptyRest(hashed, t);
    EmptyTextUnchanged(original, separator, hashed);
  }

  lemma QueryAloneShape(original: string, q: string)
    ensures original + ("?" + q + []) == original + "?" + q
  {
    AppendAssoc(original, "?", q);
    assert "?" + q + [] == "?" + q;
  }

  lemma EmptyRest(hashed: string, t: string)
    ensures t[|t|..] == [] && hashed + [] == hashed
  {
  }

  /** The empty text stays empty. */
  lemma EmptyTextUnchanged(original: string, separator: string, hashed: string)
    requires original != ""
    ensures ReplaceAll(Compile(original, separator), hashed, []) == []
  {
    EmptyTextNoMatch(original, separator);
  }

  lemma HexQueryDigits()
    ensures IsHex("0ff1ce")
  {
  }

  /** A query of hexadecimal digits is replaced with the path: `css/app.css?0ff1ce` becomes the busted name. */
  lemma HexQueryReplaced(hashed: string)
    ensures ReplaceAll(Compile("css/app.css", "."), hashed, "css/app.css" + "?" + "0ff1ce") == hashed
  {
    AppCssTrunk();
    HexQueryDigits();
    QueryReplacedAlone("css/app.css", ".", hashed, "0ff1ce");
  }

  /** A reference inside markup is replaced and the markup around it is kept. */
  lemma ReferenceInMarkup(hashed: string)
    ensures ReplaceAll(Compile("css/app.css", "."), hashed, "href=\"" + "css/app.css" + "\"")
         == "href=\"" + hashed + "\""
  {
    AppCssTrunk();
    assert 'c' !in "href=\"";
    OriginalReplaced("css/app.css", ".", hashed, "href=\"", "\"");
    assert 'c' !in "\"";
    NoFirstCharUnchanged("css/app.css", ".", hashed, "\"");
  }

  /**
   * One entry applied to a text with the pattern of line 80 as written:
   * an error where `new RegExp` throws, the rewritten text otherwise.
   */
  function RewriteAsWritten(original: string, separator: string, hashed: string, t: string): Result<string, RegexError> {
    match CompileAsWritten(original, separator)
    case Err(e) => Err(e)
    case Ok(p) => Ok(ReplaceAll(p, hashed, t))
  }

  /** Where the extension has no special character, the pattern as written and the corrected one rewrite alike. */
  lemma RewriteAsWrittenAgrees(original: string, separator: string, hashed: string, t: string)
    requires forall i :: 0 <= i < |SplitExtension(original).1| ==> !IsSpecial(SplitExtension(original).1[i])
    ensures RewriteAsWritten(original, separator, hashed, t) == Ok(ReplaceAll(Compile(original, separator), hashed, t))
  {
    AsWrittenAgrees(original, separator);
  }

  /** An extension made of a plain character and `++` makes the pattern as written invalid. */
  lemma DoublePlusRejected(stem: string, c: char)
    requires !IsSpecial(c)
    ensures CompileAsWritten(stem + "." + [c, '+', '+'], ".") == Err(NothingToRepeat)
  {
    SplitExtensionOf(stem, [c, '+', '+']);
    EscapeRoundTrip(stem + "." + [c, '+', '+']);
    EscapeRoundTrip(stem + ".");
    ParseDoublePlus(c);
    ParseEscapedDot([c, '+', '+']);
  }

  /** A C++ source file among the assets, `main.c++`, makes `new RegExp` throw on line 80. */
  lemma CPlusPlusRejected()
    ensures CompileAsWritten("main.c++", ".") == Err(NothingToRepeat)
  {
    DoublePlusRejected("main", 'c');
    assert "main" + "." + ['c', '+', '+'] == "main.c++";
  }

  /** The pattern as written for an extension of a plain character and `+`. */
  lemma PlusExtensionPattern(stem: string, c: char)
    requires !IsSpecial(c)
    ensures CompileAsWritten(stem + "." + [c, '+'], ".")
         == Ok(Pattern(Lits(stem + "." + [c, '+']),
                       Lits(stem + ".") + [HexPlus] + [Atom(Exactly('.'), Once), Atom(Exactly(c), Plus)]))
  {
    SplitExtensionOf(stem, [c, '+']);
    EscapeRoundTrip(stem + "." + [c, '+']);
    EscapeRoundTrip(stem + ".");
    ParsePlus(c);
    ParseEscapedDot([c, '+']);
    assert [Atom(Exactly('.'), Once)] + [Atom(Exactly(c), Plus)] == [Atom(Exactly('.'), Once), Atom(Exactly(c), Plus)];
  }

  /** A literal dot first fails on a text that does not start with a dot. */
  lemma DotFirstFails(c: char, u: string)
    requires u == [] || u[0] != '.'
    ensures MatchLen([Atom(Exactly('.'), Once), Atom(Exactly(c), Plus)], u).None?
  {
  }

  /** The unescaped `.c+` takes the dot and the run of `c`, and leaves the `+` of the name. */
  lemma PlusExtensionTail(c: char)
    requires !IsSpecial(c)
    ensures MatchLen([Atom(Exactly('.'), Once), Atom(Exactly(c), Plus)], ['.', c, '+']) == Some(2)
  {
    var rest := [Atom(Exactly('.'), Once), Atom(Exactly(c), Plus)];
    var u := ['.', c, '+'];
    assert Run(Exactly('.'), u) == 1 by {
      assert u[1..] == [c, '+'];
    }
    assert rest[1..] == [Atom(Exactly(c), Plus)];
    assert u[1..] == [c, '+'];
    PlusAlone(c, [c, '+']);
    assert Run(Exactly(c), [c, '+']) == 1 by {
      assert [c, '+'][1..] == ['+'];
    }
    assert TryReps(rest, u, 1) == Some(2);
  }

  /** The second alternative as written takes all of a busted name but its last `+`. */
  lemma PlusVersionedMatch(head: string, hash: string, c: char)
    requires hash != "" && IsHex(hash)
    requires !IsSpecial(c)
    ensures MatchLen(Lits(head) + [HexPlus] + [Atom(Exactly('.'), Once), Atom(Exactly(c), Plus)],
                     head + hash + "." + [c, '+'])
         == Some(|head| + |hash| + 2)
  {
    var tail := [HexPlus] + [Atom(Exactly('.'), Once), Atom(Exactly(c), Plus)];
    var u := hash + ['.', c, '+'];
    assert head + hash + "." + [c, '+'] == head + u;
    assert Lits(head) + [HexPlus] + [Atom(Exactly('.'), Once), Atom(Exactly(c), Plus)] == Lits(head) + tail;
    HexThenPlusExtension(hash, c);
    LitsThenWhole(head, tail, u);
  }

  /** Literal atoms followed by more: the literal text, then what the rest takes. */
  lemma LitsThenWhole(head: string, tail: seq<Atom>, u: string)
    ensures MatchLen(Lits(head) + tail, head + u) == Shift(MatchLen(tail, u), |head|)
  {
    LitsThen(head, tail, head + u);
    assert (head + u)[..|head|] == head;
    assert (head + u)[|head|..] == u;
  }

  lemma HexThenPlusExtension(hash: string, c: char)
    requires hash != "" && IsHex(hash)
    requires !IsSpecial(c)
    ensures MatchLen([HexPlus] + [Atom(Exactly('.'), Once), Atom(Exactly(c), Plus)], hash + ['.', c, '+'])
         == Some(|hash| + 2)
  {
    var rest := [Atom(Exactly('.'), Once), Atom(Exactly(c), Plus)];
    var u := hash + ['.', c, '+'];
    RunOfHex(hash, ['.', c, '+']);
    NoDotAmongDigits(hash, c, |hash|);
    HexPlusThen(rest, u);
    assert u[|hash|..] == ['.', c, '+'];
    PlusExtensionTail(c);
  }

  /** The unescaped `.c+` cannot match right after a digit of the hash. */
  lemma {:induction false} NoDotAmongDigits(hash: string, c: char, n: nat)
    requires IsHex(hash) && n <= |hash|
    ensures NoneBelow([Atom(Exactly('.'), Once), Atom(Exactly(c), Plus)], hash + ['.', c, '+'], n)
    decreases n
  {
    if n > 1 {
      var u := hash + ['.', c, '+'];
      assert u[n - 1..][0] == hash[n - 1];
      DotFirstFails(c, u[n - 1..]);
      NoDotAmongDigits(hash, c, n - 1);
    }
  }

  /** Nothing in a pattern for a name starting with `stem` matches a lone `+` or the empty text. */
  lemma PlusLeftAlone(p: Pattern, stem: string, hashed: string)
    requires stem != [] && stem[0] != '+'
    requires |p.plain| > |stem| && p.plain[0] == Atom(Exactly(stem[0]), Once)
    requires |p.versioned| > 0 && p.versioned[0] == Atom(Exactly(stem[0]), Once)
    ensures ReplaceAll(p, hashed, "+") == "+"
  {
    assert MatchAt(p, []).None?;
    assert MatchAt(p, "+").None?;
    assert "+"[1..] == [];
  }

  /**
   * With the extension unescaped, the busted name of `stem.c+` is not a
   * fixed point of the rewrite: every run adds another `+`.
   */
  lemma PlusExtensionGrows(stem: string, c: char, hash: string)
    requires stem != [] && stem[0] != '+'
    requires !IsSpecial(c) && !IsHexDigit(c)
    requires hash != "" && IsHex(hash)
    ensures var busted := stem + "." + hash + "." + [c, '+'];
            RewriteAsWritten(stem + "." + [c, '+'], ".", busted, busted) == Ok(busted + "+")
  {
    var original := stem + "." + [c, '+'];
    var busted := stem + "." + hash + "." + [c, '+'];
    var rest := [Atom(Exactly('.'), Once), Atom(Exactly(c), Plus)];
    var p := Pattern(Lits(original), Lits(stem + ".") + [HexPlus] + rest);
    PlusExtensionPattern(stem, c);
    PlusBustedRewrite(stem, c, hash);
    AsWrittenResult(original, ".", busted, busted, p);
  }

  lemma AsWrittenResult(original: string, separator: string, hashed: string, t: string, p: Pattern)
    requires CompileAsWritten(original, separator) == Ok(p)
    ensures RewriteAsWritten(original, separator, hashed, t) == Ok(ReplaceAll(p, hashed, t))
  {
  }

  lemma PlusBustedRewrite(stem: string, c: char, hash: string)
    requires stem != [] && stem[0] != '+'
    requires !IsSpecial(c) && !IsHexDigit(c)
    requires hash != "" && IsHex(hash)
    ensures var busted := stem + "." + hash + "." + [c, '+'];
            var p := Pattern(Lits(stem + "." + [c, '+']),
                             Lits(stem + ".") + [HexPlus] + [Atom(Exactly('.'), Once), Atom(Exactly(c), Plus)]);
            ReplaceAll(p, busted, busted) == busted + "+"
  {
    var busted := stem + "." + hash + "." + [c, '+'];
    var p := Pattern(Lits(stem + "." + [c, '+']),
                     Lits(stem + ".") + [HexPlus] + [Atom(Exactly('.'), Once), Atom(Exactly(c), Plus)]);
    PlusBustedMatch(stem, c, hash);
    MatchedStep(p, busted, busted, |busted| - 1);
    assert busted[|busted| - 1..] == "+";
    PlusLeftAlone(p, stem, busted);
  }

  /** The pattern as written matches all of the busted name of `stem.c+` but its last `+`. */
  lemma PlusBustedMatch(stem: string, c: char, hash: string)
    requires stem != []
    requires !IsSpecial(c) && !IsHexDigit(c)
    requires hash != "" && IsHex(hash)
    ensures var busted := stem + "." + hash + "." + [c, '+'];
            var p := Pattern(Lits(stem + "." + [c, '+']),
                             Lits(stem + ".") + [HexPlus] + [Atom(Exactly('.'), Once), Atom(Exactly(c), Plus)]);
            MatchAt(p, busted) == Some(|busted| - 1)
  {
    var original := stem + "." + [c, '+'];
    var busted := stem + "." + hash + "." + [c, '+'];
    assert busted[|stem| + 1] == hash[0] && original[|stem| + 1] == c;
    assert !StartsWith(busted, original);
    LitsAlone(original, busted);
    assert busted == (stem + ".") + hash + "." + [c, '+'];
    PlusVersionedMatch(stem + ".", hash, c);
  }

  /** `a.x+` busted as `a.9e.x+` becomes `a.9e.x++`. */
  lemma PlusExtensionExample()
    ensures RewriteAsWritten("a.x+", ".", "a.9e.x+", "a.9e.x+") == Ok("a.9e.x+" + "+")
  {
    PlusExampleFacts();
    PlusExtensionGrows("a", 'x', "9e");
  }

  lemma PlusExampleFacts()
    ensures !IsSpecial('x') && !IsHexDigit('x') && IsHex("9e")
    ensures "a" + "." + "9e" + "." + ['x', '+'] == "a.9e.x+"
    ensures "a" + "." + ['x', '+'] == "a.x+"
  {
  }

  /** With the extension escaped, the same busted name is a fixed point. */
  lemma PlusExtensionFixed()
    ensures ReplaceAll(Compile("a.x+", "."), "a.9e.x+", "a.9e.x+") == "a.9e.x+"
  {
    PlusFixedFacts();
    DottedNameIsFixedPoint("a", "x+", "9e");
  }

  lemma PlusFixedFacts()
    ensures '.' !in "x+" && IsHex("9e")
    ensures !StartsWith("9e" + "." + "x+", "x+")
    ensures "a" + "." + "9e" + "." + "x+" == "a.9e.x+"
    ensures "a" + "." + "x+" == "a.x+"
  {
    assert ("9e" + "." + "x+")[0] == '9';
  }

  /** One entry of the map applied to a text, with the corrected pattern. */
  function ReplaceEntry(e: Entry, separator: string, t: string): string {
    ReplaceAll(Compile(e.original, separator), e.busted, t)
  }

  /** The text after the entries of `m` have been applied in map order. */
  function RewriteText(m: AssetMap, separator: string, t: string): string {
    if m == [] then t
    else ReplaceEntry(m[|m| - 1], separator, RewriteText(m[..|m| - 1], separator, t))
  }

  /** The first entry is applied first, to the text as read. */
  lemma {:induction false} RewriteFirstEntryFirst(m: AssetMap, separator: string, t: string)
    requires m != []
    ensures RewriteText(m, separator, t) == RewriteText(m[1..], separator, ReplaceEntry(m[0], separator, t))
    decreases |m|
  {
    if |m| > 1 {
      var init := m[..|m| - 1];
      RewriteFirstEntryFirst(init, separator, t);
      assert init[1..] == m[1..][..|m[1..]| - 1];
      assert m[1..][|m[1..]| - 1] == m[|m| - 1];
    } else {
      assert m[1..] == [];
      assert m[..0] == [];
    }
  }

  /** A text in which no entry's pattern matches anywhere is left unchanged. */
  lemma {:induction false} RewriteUnmatched(m: AssetMap, separator: string, t: string)
    requires forall i, k :: 0 <= i < |m| && 0 <= k <= |t| ==> MatchAt(Compile(m[i].original, separator), t[k..]).None?
    ensures RewriteText(m, separator, t) == t
  {
    if m != [] {
      var init := m[..|m| - 1];
      RewriteUnmatched(init, separator, t);
      var last := m[|m| - 1];
      forall k | 0 <= k <= |t| ensures MatchAt(Compile(last.original, separator), t[k..]).None? {
      }
      NoMatchUnchanged(Compile(last.original, separator), last.busted, t);
    }
  }

  /**
   * `replaceInFile` between reading and writing the file: each entry of the
   * map, in order, rewrites the markup.
   */
  method ReplaceInFile(m: AssetMap, separator: string, text: string) returns (markup: string)
    ensures markup == RewriteText(m, separator, text)
  {
    markup := text;
    for i := 0 to |m|
      invariant markup == RewriteText(m[..i], separator, text)
    {
      assert m[..i + 1][..i] == m[..i];
      var e := m[i];
      markup := ReplaceAll(Compile(e.original, separator), e.busted, markup);
    }
    assert m[..|m|] == m;
  }
}
