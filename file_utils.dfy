/** File-name and path helpers of `utils/file_utils.py`, on POSIX paths. */
module FileUtils {
  import opened Wrappers
  import opened Text
  import Urls

  // ---------------------------------------------------------------- safe_filepart

  /** The characters `safe_filepart` removes: `\ / : * ? " < > |`. */
  predicate IsForbidden(c: char)
  {
    c == '\\' || c == '/' || c == ':' || c == '*' || c == '?' || c == '"' || c == '<' || c == '>' || c == '|'
  }

  predicate EndsForbidden(s: string)
  {
    s != [] && IsForbidden(s[|s| - 1])
  }

  /** `re.sub(r'[\\/:*?"<>|]+', "_", s)`: every maximal run of forbidden characters becomes "_". */
  function CollapseForbidden(s: string): (r: string)
    decreases |s|
  {
    if s == [] then []
    else
      var init := s[..|s| - 1];
      if !IsForbidden(s[|s| - 1]) then CollapseForbidden(init) + [s[|s| - 1]]
      else if EndsForbidden(init) then CollapseForbidden(init)
      else CollapseForbidden(init) + "_"
  }

  /** `safe_filepart(s)`: `s or ""`, runs of forbidden characters collapsed, then stripped. */
  function SafeFilepart(s: Option<string>): string
  {
    Strip(CollapseForbidden(s.GetOr("")))
  }

  lemma {:induction false} CollapseHasNoForbidden(s: string)
    ensures forall k :: 0 <= k < |CollapseForbidden(s)| ==> !IsForbidden(CollapseForbidden(s)[k])
    decreases |s|
  {
    if s != [] {
      CollapseHasNoForbidden(s[..|s| - 1]);
    }
  }

  /** The result never holds a forbidden character, and a None or empty input gives "". */
  lemma SafeFilepartIsSafe(s: Option<string>)
    ensures forall k :: 0 <= k < |SafeFilepart(s)| ==> !IsForbidden(SafeFilepart(s)[k])
    ensures s.None? || s == Some("") ==> SafeFilepart(s) == ""
  {
    var c := CollapseForbidden(s.GetOr(""));
    CollapseHasNoForbidden(s.GetOr(""));
    var i, j := StripSlice(c);
    forall k | 0 <= k < |SafeFilepart(s)| ensures !IsForbidden(SafeFilepart(s)[k]) {
      assert SafeFilepart(s)[k] == c[i + k];
    }
  }

  /** Without forbidden characters the substitution changes nothing. */
  lemma {:induction false} CollapseClean(s: string)
    requires forall k :: 0 <= k < |s| ==> !IsForbidden(s[k])
    ensures CollapseForbidden(s) == s
    decreases |s|
  {
    if s != [] {
      CollapseClean(s[..|s| - 1]);
      assert s == s[..|s| - 1] + [s[|s| - 1]];
    }
  }

  /** A run of forbidden characters alone becomes one "_". */
  lemma {:induction false} CollapseRun(run: string)
    requires run != [] && forall k :: 0 <= k < |run| ==> IsForbidden(run[k])
    ensures CollapseForbidden(run) == "_"
    decreases |run|
  {
    if |run| > 1 {
      CollapseRun(run[..|run| - 1]);
    }
  }

  /** The substitution works piece by piece when the cut does not fall inside a run. */
  lemma {:induction false} CollapseAppend(a: string, b: string)
    requires !EndsForbidden(a) || b == [] || !IsForbidden(b[0])
    ensures CollapseForbidden(a + b) == CollapseForbidden(a) + CollapseForbidden(b)
    decreases |b|
  {
    if b == [] {
      assert a + b == a;
    } else {
      var b' := b[..|b| - 1];
      assert (a + b)[..|a + b| - 1] == a + b';
      CollapseAppend(a, b');
      if b' == [] {
        assert a + b' == a;
      } else {
        assert (a + b')[|a + b'| - 1] == b'[|b'| - 1];
      }
    }
  }

  /** Each maximal run of forbidden characters between clean text becomes a single "_". */
  lemma MaximalRunBecomesUnderscore(a: string, run: string, b: string)
    requires run != [] && forall k :: 0 <= k < |run| ==> IsForbidden(run[k])
    requires !EndsForbidden(a) && (b == [] || !IsForbidden(b[0]))
    ensures CollapseForbidden(a + run + b) == CollapseForbidden(a) + "_" + CollapseForbidden(b)
  {
    CollapseAppend(a, run);
    CollapseRun(run);
    assert EndsForbidden(a + run) by {
      assert (a + run)[|a + run| - 1] == run[|run| - 1];
    }
    CollapseAppend(a + run, b);
  }

  /** A clean name: no forbidden character, and no whitespace at either end. */
  predicate IsCleanName(s: string)
  {
    s != [] && !IsSpace(s[0]) && !IsSpace(s[|s| - 1])
    && forall k :: 0 <= k < |s| ==> !IsForbidden(s[k])
  }

  lemma SafeFilepartOfClean(s: string)
    requires IsCleanName(s)
    ensures SafeFilepart(Some(s)) == s
  {
    CollapseClean(s);
    StripNoEnds(s);
  }

  // ---------------------------------------------------------------- paths

  /** `os.path.join(a, b)` on POSIX. */
  function PathJoin(a: string, b: string): string
  {
    if StartsWith(b, "/") then b
    else if a == [] || EndsWith(a, "/") then a + b
    else a + "/" + b
  }

  function LastIndexOf(s: string, c: char): int
    ensures -1 <= LastIndexOf(s, c) < |s|
    decreases |s|
  {
    if s == [] then -1 else if s[|s| - 1] == c then |s| - 1 else LastIndexOf(s[..|s| - 1], c)
  }

  /** `os.path.splitext` on POSIX: the extension starts at the last '.' of the last path
      component, provided that component has a character other than '.' before it. */
  function SplitExt(p: string): (string, string)
  {
    var sep := LastIndexOf(p, '/');
    var dot := LastIndexOf(p, '.');
    if dot > sep && exists k :: sep + 1 <= k < dot && p[k] != '.' then (p[..dot], p[dot..])
    else (p, "")
  }

  /** `root + ext == p`, and a non-empty extension is one '.' and no further '.' or '/'. */
  lemma SplitExtParts(p: string)
    ensures SplitExt(p).0 + SplitExt(p).1 == p
    ensures var e := SplitExt(p).1;
            e == [] || (e[0] == '.' && forall k :: 1 <= k < |e| ==> e[k] != '.' && e[k] != '/')
  {
    var dot := LastIndexOf(p, '.');
    var sep := LastIndexOf(p, '/');
    if SplitExt(p).1 != [] {
      LastIndexFacts(p, '.');
      LastIndexFacts(p, '/');
      var e := SplitExt(p).1;
      forall k | 1 <= k < |e| ensures e[k] != '.' && e[k] != '/' {
        assert e[k] == p[dot + k];
      }
    }
  }

  lemma {:induction false} LastIndexFacts(s: string, c: char)
    ensures LastIndexOf(s, c) >= 0 ==> s[LastIndexOf(s, c)] == c
    ensures forall k :: LastIndexOf(s, c) < k < |s| ==> s[k] != c
    decreases |s|
  {
    if s != [] && s[|s| - 1] != c {
      LastIndexFacts(s[..|s| - 1], c);
    }
  }

  // ---------------------------------------------------------------- extensions

  /** The extensions the helpers may choose. */
  predicate IsImageExt(e: string)
  {
    e == ".jpg" || e == ".jpeg" || e == ".png" || e == ".webp"
  }

  /** The URL hint: the lowered extension of the URL's path, when it is an image extension. */
  function UrlExtHint(url: string): Option<string>
  {
    var e := Lower(SplitExt(Urls.Path(url)).1);
    if IsImageExt(e) then Some(e) else None
  }

  /** `guess_ext_from_headers`: the content type decides for jpeg, png and webp, then the URL
      path's extension, then ".jpg". */
  function HeaderExt(url: string, contentType: Option<string>): (r: string)
    ensures IsImageExt(r)
  {
    var ct := Lower(contentType.GetOr(""));
    if Contains(ct, "image/jpeg") || Contains(ct, "image/jpg") then ".jpg"
    else if Contains(ct, "image/png") then ".png"
    else if Contains(ct, "image/webp") then ".webp"
    else UrlExtHint(url).GetOr(".jpg")
  }

  /** `_guess_ext` inside `download_image_to`: the same order with looser content-type tests. */
  function DownloadExt(url: string, contentType: Option<string>): (r: string)
    ensures IsImageExt(r)
  {
    var ct := Lower(contentType.GetOr(""));
    if Contains(ct, "jpeg") then ".jpg"
    else if Contains(ct, "png") then ".png"
    else if Contains(ct, "webp") then ".webp"
    else UrlExtHint(url).GetOr(".jpg")
  }

  predicate NamesImage(contentType: Option<string>)
  {
    var ct := Lower(contentType.GetOr(""));
    Contains(ct, "image/jpeg") || Contains(ct, "image/jpg") || Contains(ct, "image/png") || Contains(ct, "image/webp")
  }

  /** A content type naming jpeg, png or webp wins over the URL; otherwise the URL's image
      extension is used, and ".jpg" is the default. */
  lemma HeaderExtPrecedence(url1: string, url2: string, contentType: Option<string>)
    ensures NamesImage(contentType) ==> HeaderExt(url1, contentType) == HeaderExt(url2, contentType)
    ensures !NamesImage(contentType) && UrlExtHint(url1).Some? ==> HeaderExt(url1, contentType) == UrlExtHint(url1).value
    ensures !NamesImage(contentType) && UrlExtHint(url1).None? ==> HeaderExt(url1, contentType) == ".jpg"
  {
  }

  /** `download_image_to`'s extension rewrite: keep a destination that already ends (in any
      case) with the extension, else replace its extension by it. */
  function RewriteExt(dest: string, ext: string): string
  {
    if EndsWith(Lower(dest), ext) then dest else SplitExt(dest).0 + ext
  }

  /** After the rewrite the path ends with the chosen extension, keeps the original stem and
      does not change on a second rewrite. */
  lemma RewriteExtEnds(dest: string, ext: string)
    requires IsImageExt(ext)
    ensures EndsWith(Lower(RewriteExt(dest, ext)), ext)
    ensures StartsWith(RewriteExt(dest, ext), SplitExt(dest).0)
    ensures RewriteExt(RewriteExt(dest, ext), ext) == RewriteExt(dest, ext)
  {
    RewriteEndsWithExt(dest, ext);
    RewriteKeepsRoot(dest, ext);
  }

  lemma RewriteEndsWithExt(dest: string, ext: string)
    requires IsImageExt(ext)
    ensures EndsWith(Lower(RewriteExt(dest, ext)), ext)
  {
    if !EndsWith(Lower(dest), ext) {
      var r := SplitExt(dest).0 + ext;
      var n := |r| - |ext|;
      ImageExtIsLower(ext);
      forall i | 0 <= i < |ext| ensures Lower(r)[n..][i] == ext[i] {
        assert r[n + i] == ext[i];
      }
      assert Lower(r)[n..] == ext;
    }
  }

  lemma ImageExtIsLower(ext: string)
    requires IsImageExt(ext)
    ensures forall i :: 0 <= i < |ext| ==> LowerChar(ext[i]) == ext[i]
  {
  }

  lemma RewriteKeepsRoot(dest: string, ext: string)
    ensures StartsWith(RewriteExt(dest, ext), SplitExt(dest).0)
  {
    SplitExtParts(dest);
    var r := RewriteExt(dest, ext);
    assert r[..|SplitExt(dest).0|] == SplitExt(dest).0;
  }

  // ---------------------------------------------------------------- certificates

  /** Python's f-string rendering of an optional string: None prints as "None". */
  function PyStr(s: Option<string>): string
  {
    match s
    case Some(v) => v
    case None => "None"
  }

  /** `usedata or "unknown"`. */
  function OrUnknown(s: Option<string>): string
  {
    if Truthy(s) then s.value else "unknown"
  }

  /** `save_certificate_to_disk`'s destination:
      `CERT_DIR/safe(usedata or "unknown")/safe(f"{usedata}-{bib}") + ".jpg"`. */
  function CertificatePath(certDir: string, usedata: Option<string>, bib: string): string
  {
    JoinCertificate(certDir, SafeFilepart(Some(OrUnknown(usedata))), SafeFilepart(Some(PyStr(usedata) + "-" + bib)))
  }

  /** `os.path.join(os.path.join(certDir, dirName), fileName + ".jpg")`. */
  function JoinCertificate(certDir: string, dirName: string, fileName: string): string
  {
    PathJoin(PathJoin(certDir, dirName), fileName + ".jpg")
  }

  /** Clean names are joined with exactly one '/' between the parts. */
  lemma JoinCertificatePlain(certDir: string, dirName: string, fileName: string)
    requires certDir != [] && certDir[|certDir| - 1] != '/'
    requires IsCleanName(dirName) && IsCleanName(fileName)
    ensures JoinCertificate(certDir, dirName, fileName) == certDir + "/" + dirName + "/" + fileName + ".jpg"
  {
    PathJoinPlain(certDir, dirName);
    var eventDir := certDir + "/" + dirName;
    CleanFileName(fileName);
    assert eventDir[|eventDir| - 1] == dirName[|dirName| - 1];
    PathJoinPlain(eventDir, fileName + ".jpg");
  }

  /** Joining onto a directory not ending in '/' a name not starting with '/' inserts one '/'. */
  lemma PathJoinPlain(a: string, b: string)
    requires a != [] && a[|a| - 1] != '/'
    requires b != [] && b[0] != '/'
    ensures PathJoin(a, b) == a + "/" + b
  {
  }

  /** Two clean names around a '-' make a clean name. */
  lemma CleanHyphenated(a: string, b: string)
    requires IsCleanName(a) && IsCleanName(b)
    ensures IsCleanName(a + "-" + b)
  {
    var name := a + "-" + b;
    assert name[0] == a[0] && name[|name| - 1] == b[|b| - 1];
    forall k | 0 <= k < |name| ensures !IsForbidden(name[k]) {
      if k < |a| {
        assert name[k] == a[k];
      } else if k > |a| {
        assert name[k] == b[k - |a| - 1];
      }
    }
  }

  /** A clean name followed by ".jpg" does not start with '/'. */
  lemma CleanFileName(name: string)
    requires IsCleanName(name)
    ensures (name + ".jpg")[0] != '/'
  {
    assert (name + ".jpg")[0] == name[0];
  }

  /** With a clean directory name and file name, the certificate lands at
      `<dir>/<directory name>/<file name>.jpg`. */
  lemma CertificatePathOfParts(certDir: string, usedata: Option<string>, bib: string, dirName: string, fileName: string)
    requires certDir != [] && certDir[|certDir| - 1] != '/'
    requires IsCleanName(dirName) && SafeFilepart(Some(OrUnknown(usedata))) == dirName
    requires IsCleanName(fileName) && SafeFilepart(Some(PyStr(usedata) + "-" + bib)) == fileName
    ensures CertificatePath(certDir, usedata, bib) == certDir + "/" + dirName + "/" + fileName + ".jpg"
  {
    assert CertificatePath(certDir, usedata, bib) == JoinCertificate(certDir, dirName, fileName);
    JoinCertificatePlain(certDir, dirName, fileName);
  }

  /** With a clean event code and bib, the certificate is `<dir>/<usedata>/<usedata>-<bib>.jpg`:
      the digits of a padded bib are kept. */
  lemma CertificatePathOfCleanNames(certDir: string, usedata: string, bib: string)
    requires certDir != [] && certDir[|certDir| - 1] != '/'
    requires IsCleanName(usedata) && IsCleanName(bib)
    ensures CertificatePath(certDir, Some(usedata), bib) == certDir + "/" + usedata + "/" + (usedata + "-" + bib) + ".jpg"
  {
    SafeFilepartOfClean(usedata);
    CleanHyphenated(usedata, bib);
    SafeFilepartOfClean(usedata + "-" + bib);
    CertificatePathOfParts(certDir, Some(usedata), bib, usedata, usedata + "-" + bib);
  }

  /** A missing event code files the certificate under "unknown", named "None-<bib>.jpg". */
  lemma CertificatePathWithoutUsedata(certDir: string, bib: string)
    requires certDir != [] && certDir[|certDir| - 1] != '/'
    requires IsCleanName(bib)
    ensures CertificatePath(certDir, None, bib) == certDir + "/" + "unknown" + "/" + ("None" + "-" + bib) + ".jpg"
  {
    SafeUnknown();
    NoneIsClean();
    CleanHyphenated("None", bib);
    SafeFilepartOfClean("None" + "-" + bib);
    CertificatePathOfParts(certDir, None, bib, "unknown", "None" + "-" + bib);
  }

  lemma SafeUnknown()
    ensures IsCleanName("unknown") && SafeFilepart(Some("unknown")) == "unknown"
  {
    CleanWord("unknown");
  }

  lemma NoneIsClean()
    ensures IsCleanName("None")
  {
  }

  lemma CleanWord(w: string)
    requires w != [] && forall k :: 0 <= k < |w| ==> Urls.IsAsciiAlpha(w[k])
    ensures IsCleanName(w) && SafeFilepart(Some(w)) == w
  {
    SafeFilepartOfClean(w);
  }

  // ---------------------------------------------------------------- static URLs

  /** `to_web_static_url`: None for None or ""; otherwise the web path of the path with every
      '\\' turned into '/'. `baseDir` is `BASE_DIR`. */
  function ToWebStaticUrl(localPath: Option<string>, baseDir: string): Option<string>
  {
    if !Truthy(localPath) then None
    else StaticUrlOfPath(Replace(localPath.value, "\\", "/"), baseDir)
  }

  /** `STATIC_ROOT = os.path.join(BASE_DIR, "static")`, with '\\' turned into '/'. */
  function StaticRoot(baseDir: string): string
  {
    Replace(PathJoin(baseDir, "static"), "\\", "/")
  }

  /** The suffix from the last case-insensitive "/static/"; else, under the static root,
      "/static" plus the relative part with one leading '/'; else None. */
  function StaticUrlOfPath(p: string, baseDir: string): Option<string>
  {
    match RFind(Lower(p), "/static/")
    case Some(idx) => Some(p[idx..])
    case None =>
      var root := StaticRoot(baseDir);
      if StartsWith(p, root) then
        var rel := p[|root|..];
        Some("/static" + (if StartsWith(rel, "/") then rel else "/" + rel))
      else None
  }

  /** `replace` with a replacement free of the pattern's character removes that character. */
  lemma {:induction false} ReplaceRemovesChar(s: string, c: char, repl: string)
    requires c !in repl
    ensures c !in Replace(s, [c], repl)
    decreases |s|
  {
    if |s| >= 1 {
      ReplaceRemovesChar(s[1..], c, repl);
    }
  }

  /** The suffix taken from inside the path starts with "/static/" in any case. */
  lemma MarkerSuffixShape(p: string, idx: nat)
    requires RFind(Lower(p), "/static/") == Some(idx)
    ensures StartsWith(Lower(p[idx..]), "/static/")
  {
    var lp := Lower(p);
    assert Lower(p[idx..]) == lp[idx..];
    assert lp[idx..][..8] == lp[idx..idx + 8];
  }

  /** The path under the static root becomes "/static/...". */
  lemma RootSuffixShape(rel: string)
    ensures var rel2 := if StartsWith(rel, "/") then rel else "/" + rel;
            StartsWith(Lower("/static" + rel2), "/static/")
  {
    var rel2 := if StartsWith(rel, "/") then rel else "/" + rel;
    LowerAppend("/static", rel2);
    assert rel2[0] == '/';
    assert Lower(rel2)[0] == '/';
    assert Lower("/static") == "/static";
  }

  /** A web path never holds a backslash and starts with "/static/" (ignoring case); None and
      "" give None. */
  lemma StaticUrlShape(localPath: Option<string>, baseDir: string)
    ensures var r := ToWebStaticUrl(localPath, baseDir);
            r.Some? ==> '\\' !in r.value && StartsWith(Lower(r.value), "/static/")
    ensures !Truthy(localPath) ==> ToWebStaticUrl(localPath, baseDir).None?
  {
    if Truthy(localPath) {
      var p := Replace(localPath.value, "\\", "/");
      ReplaceRemovesChar(localPath.value, '\\', "/");
      StaticPathShape(p, baseDir);
    }
  }

  lemma StaticPathShape(p: string, baseDir: string)
    requires '\\' !in p
    ensures var r := StaticUrlOfPath(p, baseDir);
            r.Some? ==> '\\' !in r.value && StartsWith(Lower(r.value), "/static/")
  {
    var r := StaticUrlOfPath(p, baseDir);
    if r.Some? {
      match RFind(Lower(p), "/static/")
      case Some(idx) => {
        MarkerSuffixShape(p, idx);
        assert '\\' !in p[idx..] by {
          forall k | 0 <= k < |p| - idx ensures p[idx..][k] != '\\' {
            assert p[idx..][k] == p[idx + k];
          }
        }
      }
      case None => {
        var root := StaticRoot(baseDir);
        var rel := p[|root|..];
        RootSuffixShape(rel);
        assert '\\' !in rel by {
          forall k | 0 <= k < |rel| ensures rel[k] != '\\' {
            assert rel[k] == p[|root| + k];
          }
        }
      }
    }
  }

  /** The suffix starts at the last "/static/": none occurs after it. */
  lemma StaticUrlFromLastMarker(p: string, baseDir: string, idx: nat)
    requires RFind(Lower(p), "/static/") == Some(idx)
    ensures StaticUrlOfPath(p, baseDir) == Some(p[idx..])
    ensures forall j :: 0 < j ==> !OccursAt(Lower(p[idx..]), "/static/", j)
  {
    var lp := Lower(p);
    LowerSuffix(p, idx);
    forall j | 0 < j ensures !OccursAt(lp[idx..], "/static/", j) {
      OccursInSuffix(lp, "/static/", idx, j);
    }
  }

  lemma OccursInSuffix(s: string, sub: string, i: nat, j: int)
    requires i <= |s|
    ensures OccursAt(s[i..], sub, j) ==> OccursAt(s, sub, i + j)
  {
    if OccursAt(s[i..], sub, j) {
      assert s[i + j..i + j + |sub|] == s[i..][j..j + |sub|];
    }
  }

  lemma LowerSuffix(s: string, i: nat)
    requires i <= |s|
    ensures Lower(s[i..]) == Lower(s)[i..]
  {
  }

  /** Without any "/static/", a path under the static root maps to "/static" plus the relative
      part with exactly one leading '/', and any other path to None. */
  lemma StaticUrlUnderRoot(p: string, baseDir: string)
    requires RFind(Lower(p), "/static/").None?
    ensures var root := StaticRoot(baseDir);
            !StartsWith(p, root) ==> StaticUrlOfPath(p, baseDir).None?
    ensures var root := StaticRoot(baseDir);
            StartsWith(p, root) ==>
              var rel := p[|root|..];
              StaticUrlOfPath(p, baseDir) == if StartsWith(rel, "/") then Some("/static" + rel) else Some("/static/" + rel)
  {
    var root := StaticRoot(baseDir);
    if StartsWith(p, root) {
      StaticPrefix(p[|root|..]);
    }
  }

  lemma StaticPrefix(rel: string)
    ensures "/static" + ("/" + rel) == "/static/" + rel
  {
  }
}
