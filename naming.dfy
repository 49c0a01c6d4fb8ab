/**
 * The fingerprint and the busted name of one asset: `generateFileHash`
 * (tasks/cachebust.js:110-112) and `addFileHash` (114-124).
 */
module Naming {
  import opened Wrappers
  import opened Text
  import opened Paths

  newtype byte = b: int | 0 <= b < 256

  /**
   * `opts.hash || digest(data).substring(0, length)`. `digest` stands for
   * `crypto.createHash(opts.algorithm).update(data, opts.encoding).digest('hex')`;
   * a non-empty `hash` option is returned as it is.
   */
  function GenerateFileHash(hash: string, digest: seq<byte> -> string, data: seq<byte>, length: int): (r: string)
    ensures hash != "" ==> r == hash
    ensures hash == "" ==> StartsWith(digest(data), r)
    ensures hash == "" ==> |r| == if length <= 0 then 0 else if length < |digest(data)| then length else |digest(data)|
    ensures hash == "" && IsHex(digest(data)) ==> IsHex(r)
  {
    if hash != "" then hash
    else
      var d := digest(data);
      var end := if length <= 0 then 0 else if length < |d| then length else |d|;
      d[..end]
  }

  /** The parts of `url.parse(str)` that `addFileHash` reads. */
  datatype UrlParts = UrlParts(protocol: string, hostname: string, pathname: string)

  /** The origin kept in front of the busted name: protocol and hostname, when there is a hostname. */
  function Origin(url: UrlParts): (r: string)
    ensures r == "" <==> url.hostname == ""
  {
    if url.hostname != "" then url.protocol + url.hostname else ""
  }

  /** The hash segment: the separator and the hash, or nothing for an empty hash. */
  function HashSegment(separator: string, hash: string): (r: string)
    ensures r == "" <==> hash == ""
    ensures hash != "" ==> StartsWith(r, separator) && EndsWith(r, hash)
  {
    if hash != "" then separator + hash else ""
  }

  /** The path the busted name is built from: the pathname, or its last segment moved into `outputDir`. */
  function TargetPath(pathname: string, outputDir: string): (r: string)
    ensures |outputDir| == 0 ==> r == pathname
    ensures |outputDir| > 0 ==> StartsWith(r, outputDir) && EndsWith(r, StripDirectory(pathname))
  {
    if |outputDir| > 0 then JoinPath(outputDir, StripDirectory(pathname)) else pathname
  }

  /**
   * `addFileHash(str, hash, separator)`, where `url` is `url.parse(str)`.
   * In query-string mode the hash is appended after `?`; otherwise the first
   * occurrence of the extension is deleted from the target path and the
   * separator, the hash and the extension are appended.
   */
  function AddFileHash(str: string, url: UrlParts, hash: string, separator: string,
                       queryString: bool, outputDir: string): (r: string)
    ensures queryString ==> r == str + "?" + hash
    ensures !queryString ==> StartsWith(r, Origin(url))
    ensures !queryString ==> EndsWith(r, HashSegment(separator, hash) + ExtName(url.pathname))
  {
    if queryString then str + "?" + hash
    else
      var ext := ExtName(url.pathname);
      var origin := Origin(url);
      var path := ReplaceFirst(TargetPath(url.pathname, outputDir), ext, "");
      var segment := HashSegment(separator, hash);
      FourParts(origin, path, segment, ext);
      origin + path + segment + ext
  }

  lemma FourParts(a: string, b: string, c: string, d: string)
    ensures StartsWith(a + b + c + d, a)
    ensures EndsWith(a + b + c + d, c + d)
  {
    var s := a + b + c + d;
    assert s[..|a|] == a;
    assert s[|s| - |c + d|..] == c + d;
  }

  /**
   * When the extension occurs in the target path only as its suffix, the
   * busted name is the origin, the path before the extension, the hash
   * segment and the extension.
   */
  lemma FileModeName(str: string, url: UrlParts, hash: string, separator: string, outputDir: string,
                     stem: string)
    requires TargetPath(url.pathname, outputDir) == stem + ExtName(url.pathname)
    requires forall k :: 0 <= k < |stem| ==> !OccursAt(stem + ExtName(url.pathname), ExtName(url.pathname), k)
    ensures AddFileHash(str, url, hash, separator, false, outputDir)
         == Origin(url) + stem + HashSegment(separator, hash) + ExtName(url.pathname)
  {
    ReplaceFirstOfSuffix(stem, ExtName(url.pathname));
  }

  /** Under the same condition an empty hash leaves the target path as it is: no separator is added. */
  lemma FileModeEmptyHash(str: string, url: UrlParts, separator: string, outputDir: string, stem: string)
    requires TargetPath(url.pathname, outputDir) == stem + ExtName(url.pathname)
    requires forall k :: 0 <= k < |stem| ==> !OccursAt(stem + ExtName(url.pathname), ExtName(url.pathname), k)
    ensures AddFileHash(str, url, "", separator, false, outputDir) == Origin(url) + TargetPath(url.pathname, outputDir)
  {
    FileModeName(str, url, "", separator, outputDir, stem);
    Reassemble(Origin(url), stem, ExtName(url.pathname));
  }

  lemma Reassemble(origin: string, stem: string, ext: string)
    ensures origin + stem + "" + ext == origin + (stem + ext)
  {
  }

  /**
   * A name whose extension occurs in its pathname only at the end gets the
   * separator `.` and the hash inserted before the extension, after the origin.
   */
  lemma DottedNameWithOrigin(str: string, stem: string, ext: string, hash: string, url: UrlParts)
    requires stem != [] && stem[|stem| - 1] != '/'
    requires ext != [] && '.' !in ext && '/' !in ext
    requires forall k :: 0 <= k < |stem| ==> !OccursAt(stem + ("." + ext), "." + ext, k)
    requires hash != ""
    requires url.pathname == stem + "." + ext
    ensures AddFileHash(str, url, hash, ".", false, "") == Origin(url) + (stem + "." + hash + "." + ext)
  {
    var dotExt := "." + ext;
    AppendAssoc(stem, ".", ext);
    ExtNameOfDotted(stem, ext);
    assert ExtName(url.pathname) == dotExt;
    assert TargetPath(url.pathname, "") == stem + dotExt;
    FileModeName(str, url, hash, ".", "", stem);
    assert HashSegment(".", hash) == "." + hash;
    Regroup(Origin(url), stem, ".", hash, dotExt);
    AppendAssoc(stem + "." + hash, ".", ext);
  }

  /** The same for a relative name: the busted name is just `stem.<hash>.ext`. */
  lemma DottedName(stem: string, ext: string, hash: string, url: UrlParts)
    requires stem != [] && stem[|stem| - 1] != '/'
    requires ext != [] && '.' !in ext && '/' !in ext
    requires forall k :: 0 <= k < |stem| ==> !OccursAt(stem + ("." + ext), "." + ext, k)
    requires hash != ""
    requires url.hostname == "" && url.pathname == stem + "." + ext
    ensures AddFileHash(stem + "." + ext, url, hash, ".", false, "") == stem + "." + hash + "." + ext
  {
    DottedNameWithOrigin(stem + "." + ext, stem, ext, hash, url);
    assert Origin(url) == "";
    EmptyLeft(stem + "." + hash + "." + ext, "");
    assert stem + "." + hash + "." + ext + "" == stem + "." + hash + "." + ext;
  }

  /** A path without an extension gets only the hash segment appended. */
  lemma FileModeNoExtension(str: string, url: UrlParts, hash: string, separator: string, outputDir: string)
    requires ExtName(url.pathname) == ""
    ensures AddFileHash(str, url, hash, separator, false, outputDir)
         == Origin(url) + TargetPath(url.pathname, outputDir) + HashSegment(separator, hash)
  {
    ReplaceFirstEmpty(TargetPath(url.pathname, outputDir));
  }

  /**
   * With an output directory, the directory part of the pathname is dropped:
   * the name is the one the bare last segment would get.
   */
  lemma OutputDirKeepsLastSegment(str: string, url: UrlParts, hash: string, separator: string,
                                  outputDir: string, dir: string, base: string)
    requires |outputDir| > 0
    requires url.pathname == dir + "/" + base
    requires base != [] && forall i :: 0 <= i < |base| ==> !IsPathSeparator(base[i])
    requires forall i :: 0 <= i < |dir| ==> !IsLineTerminator(dir[i])
    ensures TargetPath(url.pathname, outputDir) == JoinPath(outputDir, base)
    ensures AddFileHash(str, url, hash, separator, false, outputDir)
         == AddFileHash(str, url.(pathname := base), hash, separator, false, outputDir)
  {
    assert url.pathname == dir + ['/'] + base;
    StripDirectoryOf(dir, '/', base);
    StripDirectoryPlain(base);
    ExtNameOfLastSegment(dir, base);
    SameParts(str, url, url.(pathname := base), hash, separator, outputDir);
  }

  /** `addFileHash` sees the URL only through its origin, the extension and the target path. */
  lemma SameParts(str: string, url: UrlParts, other: UrlParts, hash: string, separator: string, outputDir: string)
    requires Origin(url) == Origin(other)
    requires ExtName(url.pathname) == ExtName(other.pathname)
    requires TargetPath(url.pathname, outputDir) == TargetPath(other.pathname, outputDir)
    ensures AddFileHash(str, url, hash, separator, false, outputDir) == AddFileHash(str, other, hash, separator, false, outputDir)
  {
  }

  /** A non-empty hash segment is the separator followed by the hash. */
  lemma Regroup(origin: string, stem: string, separator: string, hash: string, ext: string)
    ensures origin + stem + (separator + hash) + ext == origin + (stem + separator + hash + ext)
  {
    AppendAssoc(origin, stem, separator + hash);
    AppendAssoc(stem, separator, hash);
    AppendAssoc(origin + stem + (separator + hash), ext, "");
  }

  lemma AppCssLiterals()
    ensures '.' !in "css/app" && "css/app"[6] != '/'
    ensures '.' !in "css" && '/' !in "css"
    ensures "css/app" + "." + "css" == "css/app.css"
  {
  }

  /** `css/app.css` with separator `.` becomes `css/app.<hash>.css`. */
  lemma AppCssName(hash: string)
    requires hash != ""
    ensures AddFileHash("css/app.css", UrlParts("", "", "css/app.css"), hash, ".", false, "")
         == "css/app" + "." + hash + "." + "css"
  {
    AppCssLiterals();
    NoDotBefore("css/app", "." + "css", "." + "css");
    DottedName("css/app", "css", hash, UrlParts("", "", "css/app.css"));
  }

  lemma JsonpExtension()
    ensures ExtName("jquery.jsonp.js") == ".js"
  {
    var p := "jquery.jsonp.js";
    assert '/' !in p;
    assert LastSegment(p) == p;
    assert p[13..] == "js";
    LastIndexOfAt(p, '.', 12);
  }

  lemma JsonpFirstOccurrence()
    ensures ReplaceFirst("jquery.jsonp.js", ".js", "") == "jqueryonp.js"
  {
    JsonpLiterals();
    NoDotBefore("jquery", ".js" + "onp.js", ".js");
    AppendAssoc("jquery", ".js", "onp.js");
    ReplaceFirstOfMiddle("jquery", ".js", "onp.js");
  }

  lemma JsonpLiterals()
    ensures '.' !in "jquery"
    ensures "jquery" + ".js" + "onp.js" == "jquery.jsonp.js"
    ensures "jquery" + "onp.js" == "jqueryonp.js"
  {
  }

  lemma JsonpParts(hash: string)
    ensures AddFileHash("jquery.jsonp.js", UrlParts("", "", "jquery.jsonp.js"), hash, ".", false, "")
         == Origin(UrlParts("", "", "jquery.jsonp.js")) + "jqueryonp.js" + HashSegment(".", hash) + ".js"
  {
    JsonpExtension();
    JsonpFirstOccurrence();
  }

  /**
   * The extension is deleted where it first occurs, not at the end: in
   * `jquery.jsonp.js` the first `.js` is the start of `.jsonp`.
   */
  lemma FirstOccurrenceInStem(hash: string)
    requires hash != ""
    ensures AddFileHash("jquery.jsonp.js", UrlParts("", "", "jquery.jsonp.js"), hash, ".", false, "")
         == "jqueryonp.js" + "." + hash + ".js"
  {
    JsonpParts(hash);
    assert Origin(UrlParts("", "", "jquery.jsonp.js")) == "";
    assert HashSegment(".", hash) == "." + hash;
    Regroup("", "jqueryonp.js", ".", hash, ".js");
    EmptyLeft("jqueryonp.js" + "." + hash + ".js", "");
    assert "jqueryonp.js" + "." + hash + ".js" + "" == "jqueryonp.js" + "." + hash + ".js";
  }

  lemma AppJsLiterals()
    ensures '.' !in "/app" && "/app"[3] != '/'
    ensures '.' !in "js" && '/' !in "js"
    ensures "/app" + "." + "js" == "/app.js"
    ensures Origin(UrlParts("http:", "example.com", "/app.js")) == "http:" + "example.com"
  {
  }

  /**
   * `url.parse` gives the protocol with its colon but without the two
   * slashes, so an absolute URL loses them.
   */
  lemma AbsoluteUrlLosesSlashes(hash: string)
    requires hash != ""
    ensures AddFileHash("http://example.com/app.js", UrlParts("http:", "example.com", "/app.js"), hash, ".", false, "")
         == "http:" + "example.com" + ("/app" + "." + hash + "." + "js")
  {
    AppJsLiterals();
    NoDotBefore("/app", "." + "js", "." + "js");
    DottedNameWithOrigin("http://example.com/app.js", "/app", "js", hash, UrlParts("http:", "example.com", "/app.js"));
  }
}
