/** Where `save_content` writes a page: `posixpath.join`, `dirname` and
    `basename`, and the rewriting of a URL's path into a local path and file
    name shared by the HTML and the Markdown artifact. */
module Paths {
  import opened Text

  /** `os.path.join(a, b)` on POSIX: an absolute `b` replaces `a`. */
  function Join(a: string, b: string): (r: string)
    ensures StartsWith(b, "/") ==> r == b
    ensures !StartsWith(b, "/") ==> EndsWith(r, b)
  {
    if StartsWith(b, "/") then b
    else if a == [] || EndsWith(a, "/") then a + b
    else a + "/" + b
  }

  predicate AllSlashes(s: string) {
    forall i :: 0 <= i < |s| ==> s[i] == '/'
  }

  /** `os.path.dirname`: everything before the last `/`, with trailing
      slashes removed unless it consists of slashes only. */
  function DirName(p: string): string {
    var head := SplitLastSlash(p).0;
    if head != [] && !AllSlashes(head) then RStrip(head, '/') else head
  }

  /** `os.path.basename`: everything after the last `/`. */
  function BaseName(p: string): (r: string)
    ensures '/' !in r
  {
    SplitLastSlash(p).1
  }

  /** The file name of `save_content`: the base name, or `index` for a path
      that ends in `/` (or is empty). */
  function FileName(local: string): (r: string)
    ensures r != [] && '/' !in r
  {
    if BaseName(local) == [] then "index" else BaseName(local)
  }

  /** Lines 62-67 of `save_content`: an empty path becomes `index`, then one
      trailing `.html` (five characters) is cut off. */
  function Finish(p: string): (r: string)
    ensures p != [] && EndsWith(p, ".html") ==> r == p[..|p| - 5]
    ensures p != [] && !EndsWith(p, ".html") ==> r == p
    ensures p == [] ==> r == "index"
  {
    var q := if p == [] then "index" else p;
    if EndsWith(q, ".html") then q[..|q| - 5] else q
  }

  /** The local path as the code computes it: one leading `/` removed. */
  function LocalPathAsWritten(urlPath: string): (r: string)
    ensures (r != [] && r[0] == '/') <==> StartsWith(urlPath, "//")
  {
    StartsWithSlash(urlPath);
    StartsWithDoubleSlash(urlPath);
    var p := if StartsWith(urlPath, "/") then urlPath[1..] else urlPath;
    FinishKeepsLeadingSlash(p);
    Finish(p)
  }

  /** Cutting `.html` or substituting `index` never adds or removes a leading `/`. */
  lemma FinishKeepsLeadingSlash(p: string)
    ensures (Finish(p) != [] && Finish(p)[0] == '/') <==> (p != [] && p[0] == '/')
  {
    if p != [] && EndsWith(p, ".html") {
      if p[0] == '/' {
        assert p[|p| - 5..][0] == '.';
        assert |p| > 5;
      }
      assert |p| > 5 ==> p[..|p| - 5][0] == p[0];
    }
  }

  /** The local path with every leading `/` removed, so that it is always
      relative to the output directory. */
  function LocalPath(urlPath: string): string
  {
    Finish(LStrip(urlPath, '/'))
  }

  /** `os.path.join(output_dir, kind, dirname(path), filename + ext)`. */
  function ArtifactFile(outputDir: string, kind: string, ext: string, local: string): string {
    Join(Join(Join(outputDir, kind), DirName(local)), FileName(local) + ext)
  }

  function HtmlFile(outputDir: string, urlPath: string): string {
    ArtifactFile(outputDir, "html", ".html", LocalPath(urlPath))
  }

  function MdFile(outputDir: string, urlPath: string): string {
    ArtifactFile(outputDir, "md", ".md", LocalPath(urlPath))
  }

  function HtmlFileAsWritten(outputDir: string, urlPath: string): string {
    ArtifactFile(outputDir, "html", ".html", LocalPathAsWritten(urlPath))
  }

  function MdFileAsWritten(outputDir: string, urlPath: string): string {
    ArtifactFile(outputDir, "md", ".md", LocalPathAsWritten(urlPath))
  }

  /** The directory part and file name joined: the page's location relative
      to `html/` and `md/`. */
  function SubPath(local: string): string {
    if DirName(local) == [] then FileName(local) else DirName(local) + "/" + FileName(local)
  }

  // ---------------------------------------------------------------------------
  // Lemmas


  /** Stripping a leading `/` never leaves the local path empty and only an
      `index` path or a `.html` suffix removal changes it further. */
  lemma LocalPathNotAbsolute(urlPath: string)
    ensures LocalPath(urlPath) != [] ==> LocalPath(urlPath)[0] != '/'
  {
    var p := LStrip(urlPath, '/');
    if p != [] && EndsWith(p, ".html") && |p| > 5 {
      assert LocalPath(urlPath)[0] == p[0];
    }
  }

  /** The directory of a relative path is empty or a relative path without a
      trailing slash. */
  lemma DirNameOfRelative(local: string)
    requires local == [] || local[0] != '/'
    ensures DirName(local) == [] || (DirName(local)[0] != '/' && DirName(local)[|DirName(local)| - 1] != '/')
  {
    var head := SplitLastSlash(local).0;
    if head != [] {
      assert head[0] == local[0];
      assert !AllSlashes(head);
      var r := RStrip(head, '/');
      assert r != [];
      assert r[0] == head[0];
    }
  }

  /** Joining a relative name to a directory without a trailing slash inserts one. */
  lemma JoinAppend(a: string, b: string)
    requires a != [] && a[|a| - 1] != '/'
    requires b == [] || b[0] != '/'
    ensures Join(a, b) == a + "/" + b
  {
    StartsWithSlash(b);
    EndsWithSlash(a);
  }

  /** Joining a relative name to a directory with a trailing slash concatenates. */
  lemma JoinAfterSlash(a: string, b: string)
    requires a != [] && a[|a| - 1] == '/'
    requires b == [] || b[0] != '/'
    ensures Join(a, b) == a + b
  {
    StartsWithSlash(b);
    EndsWithSlash(a);
  }

  /** Joining an absolute path discards the directory. */
  lemma JoinAbsolute(a: string, b: string)
    requires b != [] && b[0] == '/'
    ensures Join(a, b) == b
  {
    StartsWithSlash(b);
  }


  lemma JoinKind(outputDir: string, kind: string)
    requires kind != [] && kind[0] != '/' && kind[|kind| - 1] != '/'
    ensures Join(outputDir, kind) != [] && Join(outputDir, kind)[|Join(outputDir, kind)| - 1] != '/'
  {
    StartsWithSlash(kind);
    var r := Join(outputDir, kind);
    assert r == outputDir + kind || r == outputDir + "/" + kind;
    assert r[|r| - 1] == kind[|kind| - 1];
  }

  /** The three joins of `ArtifactFile` once the directory and file name are known. */
  lemma ArtifactShape(x: string, d: string, stem: string, ext: string)
    requires x != [] && x[|x| - 1] != '/'
    requires d == [] || (d[0] != '/' && d[|d| - 1] != '/')
    requires stem != [] && stem[0] != '/'
    ensures Join(Join(x, d), stem + ext) == x + "/" + (if d == [] then stem else d + "/" + stem) + ext
  {
    assert (stem + ext)[0] == stem[0];
    if d == [] {
      FlatShape(x, stem + ext);
      assert x + "/" + (stem + ext) == x + "/" + stem + ext;
    } else {
      NestedShape(x, d, stem + ext);
      assert x + "/" + (d + "/" + (stem + ext)) == x + "/" + (d + "/" + stem) + ext;
    }
  }

  lemma FlatShape(x: string, f: string)
    requires x != [] && x[|x| - 1] != '/'
    requires f == [] || f[0] != '/'
    ensures Join(Join(x, ""), f) == x + "/" + f
  {
    JoinAppend(x, "");
    assert x + "/" + "" == x + "/";
    JoinAfterSlash(x + "/", f);
  }

  lemma NestedShape(x: string, d: string, f: string)
    requires x != [] && x[|x| - 1] != '/'
    requires d != [] && d[0] != '/' && d[|d| - 1] != '/'
    requires f == [] || f[0] != '/'
    ensures Join(Join(x, d), f) == x + "/" + (d + "/" + f)
  {
    JoinAppend(x, d);
    var xd := x + "/" + d;
    assert xd[|xd| - 1] == d[|d| - 1];
    JoinAppend(xd, f);
    assert xd + "/" + f == x + "/" + (d + "/" + f);
  }

  lemma ArtifactFileOfRelative(outputDir: string, kind: string, ext: string, local: string)
    requires kind != [] && kind[0] != '/' && kind[|kind| - 1] != '/'
    requires local == [] || local[0] != '/'
    ensures ArtifactFile(outputDir, kind, ext, local) == Join(outputDir, kind) + "/" + SubPath(local) + ext
  {
    var x := Join(outputDir, kind);
    var d := DirName(local);
    var stem := FileName(local);
    assert ArtifactFile(outputDir, kind, ext, local) == Join(Join(x, d), stem + ext);
    assert SubPath(local) == if d == [] then stem else d + "/" + stem;
    DirNameOfRelative(local);
    JoinKind(outputDir, kind);
    assert stem[0] in stem;
    ArtifactShape(x, d, stem, ext);
  }

  /** Both artifacts of a page go to the same sub-path, under `html/` with
      `.html` and under `md/` with `.md`. The sub-path is kept as a string:
      `.` and `..` segments in it are not resolved. */
  lemma ArtifactsShareSubPath(outputDir: string, urlPath: string)
    ensures HtmlFile(outputDir, urlPath) == Join(outputDir, "html") + "/" + SubPath(LocalPath(urlPath)) + ".html"
    ensures MdFile(outputDir, urlPath) == Join(outputDir, "md") + "/" + SubPath(LocalPath(urlPath)) + ".md"
  {
    var local := LocalPath(urlPath);
    LocalPathNotAbsolute(urlPath);
    assert HtmlFile(outputDir, urlPath) == ArtifactFile(outputDir, "html", ".html", local);
    assert MdFile(outputDir, urlPath) == ArtifactFile(outputDir, "md", ".md", local);
    ArtifactFileOfRelative(outputDir, "html", ".html", local);
    ArtifactFileOfRelative(outputDir, "md", ".md", local);
  }

  /** The sub-path is never absolute: it never starts with `/`, so joining it
      never discards the output directory. */
  lemma SubPathRelative(urlPath: string)
    ensures SubPath(LocalPath(urlPath))[0] != '/'
  {
    var local := LocalPath(urlPath);
    LocalPathNotAbsolute(urlPath);
    DirNameOfRelative(local);
  }

  lemma LStripOnce(urlPath: string)
    requires !StartsWith(urlPath, "//")
    ensures LStrip(urlPath, '/') == if StartsWith(urlPath, "/") then urlPath[1..] else urlPath
  {
    StartsWithSlash(urlPath);
    if urlPath != [] && urlPath[0] == '/' {
      LStripSingleSlash(urlPath);
    } else {
      assert LStrip(urlPath, '/') == urlPath;
    }
  }

  lemma LStripSingleSlash(urlPath: string)
    requires urlPath != [] && urlPath[0] == '/'
    requires !StartsWith(urlPath, "//")
    ensures LStrip(urlPath, '/') == urlPath[1..]
  {
    var rest := urlPath[1..];
    StartsWithDoubleSlash(urlPath);
    assert rest == [] || rest[0] != '/';
    assert LStrip(rest, '/') == rest;
  }

  /** Only the first `/` is removed by the code; the two computations agree on
      every path that does not start with `//`. */
  lemma AsWrittenAgreesWithoutDoubleSlash(urlPath: string)
    requires !StartsWith(urlPath, "//")
    ensures LocalPathAsWritten(urlPath) == LocalPath(urlPath)
  {
    LStripOnce(urlPath);
  }

  /** As written, the two artifacts share their sub-path whenever the URL
      path does not start with `//`. */
  lemma ArtifactsShareSubPathAsWritten(outputDir: string, urlPath: string)
    requires !StartsWith(urlPath, "//")
    ensures HtmlFileAsWritten(outputDir, urlPath) == Join(outputDir, "html") + "/" + SubPath(LocalPathAsWritten(urlPath)) + ".html"
    ensures MdFileAsWritten(outputDir, urlPath) == Join(outputDir, "md") + "/" + SubPath(LocalPathAsWritten(urlPath)) + ".md"
  {
    AsWrittenAgreesWithoutDoubleSlash(urlPath);
    ArtifactsShareSubPath(outputDir, urlPath);
  }

  /** As written, the sub-path stays relative whenever the URL path does not
      start with `//`. */
  lemma SubPathRelativeAsWritten(urlPath: string)
    requires !StartsWith(urlPath, "//")
    ensures SubPath(LocalPathAsWritten(urlPath))[0] != '/'
  {
    AsWrittenAgreesWithoutDoubleSlash(urlPath);
    SubPathRelative(urlPath);
  }

  /** A path segment: non-empty, without `/`, not ending in `.html`. */
  predicate Segment(name: string) {
    name != [] && '/' !in name && !EndsWith(name, ".html")
  }

  lemma SubPathOfSegment(name: string)
    requires '/' !in name && name != []
    ensures SubPath(name) == name
  {
    SplitLastSlashUnique("", name);
    assert "" + name == name;
  }

  lemma LocalPathAsWrittenOfDoubleSlash(name: string)
    requires Segment(name)
    ensures LocalPathAsWritten("//" + name) == "/" + name
  {
    var urlPath := "//" + name;
    var local := "/" + name;
    StartsWithSlash(urlPath);
    assert urlPath[1..] == local;
    assert LocalPathAsWritten(urlPath) == Finish(local);
    SlashSegmentNotHtml(name);
  }

  lemma SlashSegmentNotHtml(name: string)
    requires Segment(name)
    ensures !EndsWith("/" + name, ".html")
  {
    var local := "/" + name;
    if |name| >= 5 {
      assert local[|local| - 5..] == name[|name| - 5..];
    } else {
      assert local[0] == '/';
      assert |local| == 5 ==> local[|local| - 5..][0] == '/';
    }
  }

  /** Any artifact of a path directly below the root lands at the root. */
  lemma ArtifactAtRoot(outputDir: string, kind: string, ext: string, name: string)
    requires name != [] && '/' !in name
    ensures ArtifactFile(outputDir, kind, ext, "/" + name) == "/" + name + ext
  {
    var local := "/" + name;
    var f := name + ext;
    assert ArtifactFile(outputDir, kind, ext, local) == Join(Join(Join(outputDir, kind), DirName(local)), FileName(local) + ext);
    SplitLastSlashUnique("/", name);
    assert AllSlashes("/");
    assert DirName(local) == "/";
    assert FileName(local) == name;
    JoinAbsolute(Join(outputDir, kind), "/");
    assert name[0] in name;
    assert f[0] == name[0];
    JoinAfterSlash("/", f);
    assert "/" + f == "/" + name + ext;
  }

  /** A URL path starting with `//` (as `urlparse` returns for
      `https://host//a`) makes the code write both files at the file system
      root, outside the output directory, whatever that directory is. */
  lemma DoubleSlashEscapesAsWritten(outputDir: string, name: string)
    requires Segment(name)
    ensures HtmlFileAsWritten(outputDir, "//" + name) == "/" + name + ".html"
    ensures MdFileAsWritten(outputDir, "//" + name) == "/" + name + ".md"
  {
    LocalPathAsWrittenOfDoubleSlash(name);
    ArtifactAtRoot(outputDir, "html", ".html", name);
    ArtifactAtRoot(outputDir, "md", ".md", name);
  }

  lemma LocalPathOfDoubleSlash(name: string)
    requires Segment(name)
    ensures LocalPath("//" + name) == name
  {
    var urlPath := "//" + name;
    assert urlPath[0] == '/' && urlPath[1..] == "/" + name;
    assert urlPath[1..][0] == '/' && urlPath[1..][1..] == name;
    assert name[0] != '/' by {
      assert name[0] in name;
    }
    assert LStrip(name, '/') == name;
    assert LStrip(urlPath[1..], '/') == name;
    assert LStrip(urlPath, '/') == name;
  }

  /** The corrected computation writes the same page under `html/` and `md/`
      of the output directory. */
  lemma DoubleSlashStaysInside(outputDir: string, name: string)
    requires Segment(name)
    ensures HtmlFile(outputDir, "//" + name) == Join(outputDir, "html") + "/" + name + ".html"
    ensures MdFile(outputDir, "//" + name) == Join(outputDir, "md") + "/" + name + ".md"
  {
    ArtifactsShareSubPath(outputDir, "//" + name);
    LocalPathOfDoubleSlash(name);
    SubPathOfSegment(name);
  }

  // ---------------------------------------------------------------------------
  // The rewriting rules and their edge cases

  /** One `.html` suffix, exactly five characters, is removed; a second one stays. */
  lemma FinishRemovesOneHtml(p: string)
    ensures Finish(p + ".html") == p
    ensures Finish(p + ".html" + ".html") == p + ".html"
  {
    assert EndsWith(p + ".html", ".html");
    assert (p + ".html")[..|p|] == p;
    var q := p + ".html" + ".html";
    assert q[|q| - 5..] == ".html";
    assert q[..|q| - 5] == p + ".html";
  }

  lemma LocalPathOfSegment(name: string)
    requires Segment(name)
    ensures LocalPath("/" + name) == name
  {
    var urlPath := "/" + name;
    assert name[0] != '/' by {
      assert name[0] in name;
    }
    assert urlPath[1..] == name;
    assert LStrip(urlPath, '/') == name;
  }

  /** A URL path whose local path is a single segment is saved under that name. */
  lemma SingleSegmentFiles(outputDir: string, urlPath: string, name: string)
    requires '/' !in name && name != []
    requires LocalPath(urlPath) == name
    ensures HtmlFile(outputDir, urlPath) == Join(outputDir, "html") + "/" + name + ".html"
    ensures MdFile(outputDir, urlPath) == Join(outputDir, "md") + "/" + name + ".md"
  {
    ArtifactsShareSubPath(outputDir, urlPath);
    SubPathOfSegment(name);
  }

  /** A page directly below the root, such as `/page1`, is saved as
      `html/page1.html` and `md/page1.md`. */
  lemma SegmentFiles(outputDir: string, name: string)
    requires Segment(name)
    ensures HtmlFile(outputDir, "/" + name) == Join(outputDir, "html") + "/" + name + ".html"
    ensures MdFile(outputDir, "/" + name) == Join(outputDir, "md") + "/" + name + ".md"
  {
    LocalPathOfSegment(name);
    SingleSegmentFiles(outputDir, "/" + name, name);
  }

  /** The site root, with an empty path or `/`, is saved as `html/index.html`
      and `md/index.md`. */
  lemma RootFiles(outputDir: string, urlPath: string)
    requires urlPath == "" || urlPath == "/"
    ensures HtmlFile(outputDir, urlPath) == Join(outputDir, "html") + "/" + "index" + ".html"
    ensures MdFile(outputDir, urlPath) == Join(outputDir, "md") + "/" + "index" + ".md"
  {
    LocalPathOfRoot(urlPath);
    IndexIsSegment();
    SingleSegmentFiles(outputDir, urlPath, "index");
  }

  lemma IndexIsSegment()
    ensures '/' !in "index" && "index" != []
  {
  }

  lemma LocalPathOfRoot(urlPath: string)
    requires urlPath == "" || urlPath == "/"
    ensures LocalPath(urlPath) == "index"
  {
    if urlPath == "/" {
      assert urlPath[1..] == "";
    }
    assert LStrip(urlPath, '/') == "";
  }

  lemma LocalPathOfDirectory(name: string)
    requires Segment(name)
    ensures LocalPath("/" + name + "/") == name + "/"
  {
    var urlPath := "/" + name + "/";
    assert name[0] != '/' by {
      assert name[0] in name;
    }
    assert urlPath[1..] == name + "/";
    assert (name + "/")[0] == name[0];
    assert LStrip(urlPath, '/') == name + "/";
    assert !EndsWith(name + "/", ".html") by {
      assert (name + "/")[|name|] == '/';
    }
  }

  lemma SubPathOfDirectory(name: string)
    requires '/' !in name && name != []
    ensures SubPath(name + "/") == name + "/" + "index"
  {
    SplitLastSlashUnique(name + "/", "");
    assert name + "/" + "" == name + "/";
    assert name[0] in name;
    assert !AllSlashes(name + "/") by {
      assert (name + "/")[0] == name[0];
    }
    assert RStrip(name, '/') == name by {
      assert name[|name| - 1] in name;
    }
    assert (name + "/")[..|name|] == name;
    assert DirName(name + "/") == name;
  }

  /** A directory URL such as `/a/` is saved as `html/a/index.html` and
      `md/a/index.md`. */
  lemma DirectoryFiles(outputDir: string, name: string)
    requires Segment(name)
    ensures HtmlFile(outputDir, "/" + name + "/") == Join(outputDir, "html") + "/" + (name + "/" + "index") + ".html"
    ensures MdFile(outputDir, "/" + name + "/") == Join(outputDir, "md") + "/" + (name + "/" + "index") + ".md"
  {
    ArtifactsShareSubPath(outputDir, "/" + name + "/");
    LocalPathOfDirectory(name);
    SubPathOfDirectory(name);
  }

  /** The mapping is not injective: `/a` and `/a.html` give the same files. */
  lemma HtmlSuffixCollides(outputDir: string, name: string)
    requires Segment(name)
    ensures HtmlFile(outputDir, "/" + name + ".html") == HtmlFile(outputDir, "/" + name)
    ensures MdFile(outputDir, "/" + name + ".html") == MdFile(outputDir, "/" + name)
  {
    LocalPathOfSegment(name);
    var urlPath := "/" + name + ".html";
    assert name[0] != '/' by {
      assert name[0] in name;
    }
    assert urlPath[1..] == name + ".html";
    assert (name + ".html")[0] == name[0];
    assert LStrip(urlPath, '/') == name + ".html";
    FinishRemovesOneHtml(name);
  }

  /** Two URL paths with the same local path give the same files. */
  lemma SameLocalSameFiles(outputDir: string, p: string, q: string)
    requires LocalPath(p) == LocalPath(q)
    ensures HtmlFile(outputDir, p) == HtmlFile(outputDir, q)
    ensures MdFile(outputDir, p) == MdFile(outputDir, q)
  {
    assert HtmlFile(outputDir, p) == ArtifactFile(outputDir, "html", ".html", LocalPath(p));
    assert MdFile(outputDir, p) == ArtifactFile(outputDir, "md", ".md", LocalPath(p));
  }

  lemma LocalPathOfIndex()
    ensures LocalPath("/index") == "index"
  {
    var s := "/index";
    var t := "index";
    assert s[1..] == t;
    assert LStrip(t, '/') == t;
    assert LStrip(s, '/') == t;
    assert t[|t| - 5..] == t;
    assert !EndsWith(t, ".html");
    assert Finish(t) == t;
  }

  /** The mapping is not injective: `/` and `/index` give the same files. */
  lemma IndexCollides(outputDir: string)
    ensures HtmlFile(outputDir, "/index") == HtmlFile(outputDir, "/")
    ensures MdFile(outputDir, "/index") == MdFile(outputDir, "/")
  {
    LocalPathOfRoot("/");
    LocalPathOfIndex();
    SameLocalSameFiles(outputDir, "/index", "/");
  }

  lemma LocalPathOfDirectoryIndex(name: string)
    requires Segment(name)
    ensures LocalPath("/" + name + "/index") == name + "/index"
  {
    var urlPath := "/" + name + "/index";
    var local := name + "/index";
    assert name[0] != '/' by {
      assert name[0] in name;
    }
    assert urlPath[1..] == local;
    assert local[0] == name[0];
    assert LStrip(urlPath, '/') == local;
    assert !EndsWith(local, ".html") by {
      assert local[|local| - 1] == 'x';
    }
  }

  lemma SubPathOfDirectoryIndex(name: string)
    requires Segment(name)
    ensures SubPath(name + "/index") == name + "/" + "index"
  {
    var local := name + "/index";
    SplitLastSlashUnique(name + "/", "index");
    assert name + "/" + "index" == local;
    assert (name + "/")[0] == name[0];
    assert name[0] in name;
    assert RStrip(name, '/') == name by {
      assert name[|name| - 1] in name;
    }
    assert (name + "/")[..|name|] == name;
    assert DirName(local) == name;
  }

  /** The mapping is not injective: `/a/` and `/a/index` give the same files. */
  lemma DirectoryIndexCollides(outputDir: string, name: string)
    requires Segment(name)
    ensures HtmlFile(outputDir, "/" + name + "/index") == HtmlFile(outputDir, "/" + name + "/")
    ensures MdFile(outputDir, "/" + name + "/index") == MdFile(outputDir, "/" + name + "/")
  {
    DirectoryFiles(outputDir, name);
    ArtifactsShareSubPath(outputDir, "/" + name + "/index");
    LocalPathOfDirectoryIndex(name);
    SubPathOfDirectoryIndex(name);
  }
}
