/**
 * The path functions `addFileHash` calls: `path.extname` (POSIX flavour),
 * the basename regular expression `/^.*[\\\/]/` of tasks/cachebust.js:119,
 * and `path.join` for a directory and one file name.
 */
module Paths {
  import opened Wrappers
  import opened Text

  /** The index of the last `c` in `s`. */
  function LastIndexOf(s: string, c: char): (r: Option<nat>)
    ensures r.Some? ==> r.value < |s| && s[r.value] == c && c !in s[r.value + 1..]
    ensures r.None? ==> c !in s
  {
    if s == [] then None
    else if s[|s| - 1] == c then Some(|s| - 1)
    else
      var init := s[..|s| - 1];
      var r := LastIndexOf(init, c);
      assert s == init + [s[|s| - 1]];
      assert r.Some? ==> s[r.value + 1..] == init[r.value + 1..] + [s[|s| - 1]];
      r
  }

  /** The last occurrence is determined by its defining property. */
  lemma LastIndexOfAt(s: string, c: char, k: nat)
    requires k < |s| && s[k] == c && c !in s[k + 1..]
    ensures LastIndexOf(s, c) == Some(k)
  {
    assert s[k] in s;
  }

  /** `p` without its trailing slashes; `path.extname` ignores them. */
  function TrimTrailingSlashes(p: string): (r: string)
    ensures StartsWith(p, r)
    ensures r == [] || r[|r| - 1] != '/'
    ensures (p == [] || p[|p| - 1] != '/') ==> r == p
  {
    if p != [] && p[|p| - 1] == '/' then
      var r := TrimTrailingSlashes(p[..|p| - 1]);
      assert p[..|p| - 1][..|r|] == p[..|r|];
      r
    else p
  }

  /** What follows the last `/`. */
  function LastSegment(q: string): (r: string)
    ensures EndsWith(q, r) && '/' !in r
  {
    match LastIndexOf(q, '/')
    case None => q
    case Some(k) => q[k + 1..]
  }

  /**
   * `path.extname(p)`: from the last `.` of the final segment to its end,
   * or empty when that segment has no `.`, starts with its only `.`
   * (".bashrc") or is "..".
   */
  function ExtName(p: string): (r: string)
    ensures r == [] || (r[0] == '.' && '.' !in r[1..] && '/' !in r)
    ensures EndsWith(TrimTrailingSlashes(p), r)
  {
    var q := TrimTrailingSlashes(p);
    var base := LastSegment(q);
    var r := SegmentExt(base);
    EndsWithTrans(q, base, r);
    r
  }

  /** The extension of one path segment. */
  function SegmentExt(base: string): (r: string)
    requires '/' !in base
    ensures r == [] || (r[0] == '.' && '.' !in r[1..] && '/' !in r)
    ensures EndsWith(base, r)
  {
    if base == ".." then ""
    else match LastIndexOf(base, '.')
      case None => ""
      case Some(k) =>
        if k == 0 then ""
        else
          ExtensionOfBase(base, k);
          base[k..]
  }

  /** The text from a segment's last dot on is a dot followed by dot-free, slash-free text. */
  lemma ExtensionOfBase(base: string, k: nat)
    requires '/' !in base
    requires 0 < k < |base| && base[k] == '.' && '.' !in base[k + 1..]
    ensures var r := base[k..];
            r[0] == '.' && '.' !in r[1..] && '/' !in r
  {
    var r := base[k..];
    assert r[1..] == base[k + 1..];
    forall i | 0 <= i < |r| ensures r[i] != '/' {
      assert r[i] == base[k + i];
    }
  }

  /** A non-empty extension is a suffix of the path itself when the path does not end in `/`. */
  lemma ExtNameIsSuffix(p: string)
    requires p == [] || p[|p| - 1] != '/'
    ensures EndsWith(p, ExtName(p))
  {
  }

  /** The extension depends only on the last segment. */
  lemma ExtNameOfLastSegment(d: string, b: string)
    requires b != [] && '/' !in b
    ensures ExtName(d + "/" + b) == ExtName(b)
  {
    var p := d + "/" + b;
    assert p[|p| - 1] == b[|b| - 1];
    var q := d + "/";
    assert q[|d|] == '/' && q[|d| + 1..] == [];
    LastIndexOfAt(q, '/', |d|);
    LastSegmentAppend(q, b);
    assert LastSegment(p) == b;
    assert LastSegment(b) == b;
  }

  /** Appending text without a `/` extends the last segment. */
  lemma LastSegmentAppend(a: string, b: string)
    requires '/' !in b
    ensures LastSegment(a + b) == LastSegment(a) + b
  {
    var p := a + b;
    match LastIndexOf(a, '/')
    case None =>
      NoSlashConcat(a, b);
    case Some(k) =>
      var seg := a[k + 1..];
      assert p[k + 1..] == seg + b;
      NoSlashConcat(seg, b);
      assert p[k] == '/';
      LastIndexOfAt(p, '/', k);
  }

  lemma NoSlashConcat(x: string, y: string)
    requires '/' !in x && '/' !in y
    ensures '/' !in x + y
  {
    var z := x + y;
    forall i | 0 <= i < |z| ensures z[i] != '/' {
      if i < |x| { assert z[i] == x[i]; } else { assert z[i] == y[i - |x|]; }
    }
  }

  /** A path that does not end in `/` has a non-empty last segment. */
  lemma LastSegmentNonEmpty(q: string)
    requires q != [] && q[|q| - 1] != '/'
    ensures LastSegment(q) != []
  {
  }

  /** A name whose last segment is a non-empty stem, a dot and a dot-free extension has that extension. */
  lemma ExtNameOfDotted(stem: string, ext: string)
    requires stem != [] && stem[|stem| - 1] != '/'
    requires ext != [] && '.' !in ext && '/' !in ext
    ensures ExtName(stem + "." + ext) == "." + ext
  {
    var p := stem + "." + ext;
    AppendAssoc(stem, ".", ext);
    assert p[|p| - 1] == ext[|ext| - 1];
    NoSlashConcat(".", ext);
    LastSegmentAppend(stem, "." + ext);
    LastSegmentNonEmpty(stem);
    SegmentExtOfDotted(LastSegment(stem), ext);
  }

  lemma SegmentExtOfDotted(seg: string, ext: string)
    requires seg != [] && '/' !in seg
    requires ext != [] && '.' !in ext && '/' !in ext
    ensures '/' !in seg + ("." + ext)
    ensures SegmentExt(seg + ("." + ext)) == "." + ext
  {
    var base := seg + ("." + ext);
    NoSlashConcat(".", ext);
    NoSlashConcat(seg, "." + ext);
    assert base[|seg|] == '.';
    assert base[|seg| + 1..] == ext;
    LastIndexOfAt(base, '.', |seg|);
    assert base[|seg|..] == "." + ext;
  }

  predicate IsLineTerminator(c: char) {
    c == '\n' || c == '\r' || c == '\U{2028}' || c == '\U{2029}'
  }

  predicate IsPathSeparator(c: char) {
    c == '/' || c == '\\'
  }

  /** The text before the first line terminator: what `^.*` can reach. */
  function FirstLine(p: string): (r: string)
    ensures StartsWith(p, r)
    ensures forall i :: 0 <= i < |r| ==> !IsLineTerminator(r[i])
  {
    if p == [] || IsLineTerminator(p[0]) then []
    else
      var r := [p[0]] + FirstLine(p[1..]);
      assert p == [p[0]] + p[1..];
      r
  }

  /** The index of the last `/` or `\`. */
  function LastSeparator(s: string): (r: Option<nat>)
    ensures r.Some? ==> r.value < |s| && IsPathSeparator(s[r.value])
    ensures r.Some? ==> forall i :: r.value < i < |s| ==> !IsPathSeparator(s[i])
    ensures r.None? ==> forall i :: 0 <= i < |s| ==> !IsPathSeparator(s[i])
  {
    if s == [] then None
    else if IsPathSeparator(s[|s| - 1]) then Some(|s| - 1)
    else LastSeparator(s[..|s| - 1])
  }

  /**
   * `p.replace(/^.*[\\\/]/, '')`: drops everything up to and including the
   * last `/` or `\` of the first line.
   */
  function StripDirectory(p: string): (r: string)
    ensures EndsWith(p, r)
  {
    var head := FirstLine(p);
    match LastSeparator(head)
    case None => p
    case Some(k) => p[k + 1..]
  }

  lemma {:induction false} FirstLineAppend(x: string, y: string)
    requires forall i :: 0 <= i < |x| ==> !IsLineTerminator(x[i])
    ensures FirstLine(x + y) == x + FirstLine(y)
  {
    if x != [] {
      var xy := x + y;
      var tail := x[1..];
      assert xy[0] == x[0];
      assert xy[1..] == tail + y;
      assert forall i :: 0 <= i < |tail| ==> tail[i] == x[i + 1];
      FirstLineAppend(tail, y);
      assert FirstLine(xy) == [x[0]] + (tail + FirstLine(y));
      AppendAssoc([x[0]], tail, FirstLine(y));
      assert [x[0]] + tail == x;
    } else {
      assert x + y == y;
    }
  }

  /** With no line break before it, the last separator ends the directory part. */
  lemma StripDirectoryOf(d: string, sep: char, b: string)
    requires IsPathSeparator(sep)
    requires forall i :: 0 <= i < |d| ==> !IsLineTerminator(d[i])
    requires forall i :: 0 <= i < |b| ==> !IsPathSeparator(b[i])
    ensures StripDirectory(d + [sep] + b) == b
  {
    var a := d + [sep];
    assert forall i :: 0 <= i < |a| ==> a[i] == (if i < |d| then d[i] else sep);
    FirstLineAppend(a, b);
    var fb := FirstLine(b);
    assert forall i :: 0 <= i < |fb| ==> fb[i] == b[..|fb|][i];
    LastSeparatorAfter(d, sep, fb);
    assert (a + b)[|d| + 1..] == b;
  }

  lemma LastSeparatorAfter(d: string, sep: char, f: string)
    requires IsPathSeparator(sep)
    requires forall i :: 0 <= i < |f| ==> !IsPathSeparator(f[i])
    ensures LastSeparator(d + [sep] + f) == Some(|d|)
  {
    var a := d + [sep];
    assert a[|a| - 1] == sep;
    LastSeparatorSkips(a, f);
  }

  /** Text without separators at the end does not move the last separator. */
  lemma {:induction false} LastSeparatorSkips(x: string, f: string)
    requires forall i :: 0 <= i < |f| ==> !IsPathSeparator(f[i])
    ensures LastSeparator(x + f) == LastSeparator(x)
    decreases |f|
  {
    if f == [] {
      assert x + f == x;
    } else {
      var g := f[..|f| - 1];
      var s := x + f;
      assert s[..|s| - 1] == x + g;
      assert s[|s| - 1] == f[|f| - 1];
      assert forall i :: 0 <= i < |g| ==> g[i] == f[i];
      LastSeparatorSkips(x, g);
    }
  }

  /** A name without separators has no directory part to strip. */
  lemma StripDirectoryPlain(b: string)
    requires forall i :: 0 <= i < |b| ==> !IsPathSeparator(b[i])
    ensures StripDirectory(b) == b
    ensures '/' !in b
  {
    var head := FirstLine(b);
    assert forall i :: 0 <= i < |head| ==> head[i] == b[i];
    assert LastSeparator(head).None?;
    assert forall i :: 0 <= i < |b| ==> b[i] != '/';
  }

  /**
   * `path.join(dir, name)` for a normalised `dir` and a plain file name: the
   * directory, then the name, with exactly one `/` between them.
   */
  function JoinPath(dir: string, name: string): (r: string)
    ensures StartsWith(r, dir) && EndsWith(r, name)
    ensures |r| == |dir| + |name| + (if dir != [] && dir[|dir| - 1] == '/' then 0 else 1)
    ensures r[|r| - |name| - 1] == '/'
  {
    if dir != [] && dir[|dir| - 1] == '/' then dir + name else dir + "/" + name
  }

  /** The last segment of a joined path is the name that was joined. */
  lemma JoinPathLastSegment(dir: string, name: string)
    requires '/' !in name
    ensures LastSegment(JoinPath(dir, name)) == name
  {
    var r := JoinPath(dir, name);
    var head := r[..|r| - |name|];
    assert r == head + name;
    assert head[|head| - 1] == '/' && head[|head|..] == [];
    LastIndexOfAt(head, '/', |head| - 1);
    LastSegmentAppend(head, name);
  }
}
