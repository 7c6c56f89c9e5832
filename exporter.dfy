/** The exporter: it takes the list of page URLs a site loader discovered,
    keeps each distinct one once, in ascending order, fetches every page,
    picks its content region and writes it twice: as HTML as found, and as
    Markdown after removing scripts, styles and navigation. */
module Exporter {
  import opened Text
  import opened Urls
  import opened Dom
  import opened Paths

  // ---------------------------------------------------------------------------
  // The URL list of `run`

  /** Python's `sorted` result on distinct strings: strictly ascending. */
  predicate StrictlySorted(s: seq<string>) {
    forall i, j :: 0 <= i < j < |s| ==> Below(s[i], s[j])
  }

  /** The `source` values the loader reported that are present and non-empty. */
  function Sources(docs: seq<Option<string>>): set<string> {
    set i | 0 <= i < |docs| && docs[i].Some? && docs[i].value != "" :: docs[i].value
  }

  /** Inserts `x` into a strictly ascending list, keeping it so (a set insert). */
  function Insert(s: seq<string>, x: string): (r: seq<string>)
    requires StrictlySorted(s)
    ensures StrictlySorted(r)
    ensures forall u :: u in r <==> u in s || u == x
  {
    if s == [] then [x]
    else if x == s[0] then s
    else if Below(x, s[0]) then
      assert forall j :: 0 <= j < |s| ==> Below(x, s[j]) by {
        forall j | 0 <= j < |s| ensures Below(x, s[j]) {
          if j > 0 {
            BelowTransitive(x, s[0], s[j]);
          }
        }
      }
      [x] + s
    else
      BelowTotal(x, s[0]);
      var t := Insert(s[1..], x);
      assert forall j :: 0 <= j < |t| ==> Below(s[0], t[j]) by {
        forall j | 0 <= j < |t| ensures Below(s[0], t[j]) {
          assert t[j] in t;
          if t[j] != x {
            var k :| 0 <= k < |s[1..]| && s[1..][k] == t[j];
            assert s[k + 1] == t[j];
          }
        }
      }
      assert forall u :: u in s <==> u == s[0] || u in s[1..] by {
        assert s == [s[0]] + s[1..];
      }
      [s[0]] + t
  }

  /** `sorted(list(set(doc.metadata.get('source') for doc in documents if
      doc.metadata.get('source'))))`. */
  function SortedUrls(docs: seq<Option<string>>): (r: seq<string>)
    ensures StrictlySorted(r)
    ensures forall u :: u in r <==> u in Sources(docs)
  {
    if docs == [] then []
    else
      var front := docs[..|docs| - 1];
      var last := docs[|docs| - 1];
      var r0 := SortedUrls(front);
      assert forall u :: u in Sources(docs) <==> u in Sources(front) || (last.Some? && last.value != "" && u == last.value) by {
        forall u ensures u in Sources(docs) <==> u in Sources(front) || (last.Some? && last.value != "" && u == last.value) {
          if u in Sources(docs) {
            var i :| 0 <= i < |docs| && docs[i].Some? && docs[i].value != "" && docs[i].value == u;
            if i < |docs| - 1 {
              assert front[i] == docs[i];
            }
          }
          if u in Sources(front) {
            var i :| 0 <= i < |front| && front[i].Some? && front[i].value != "" && front[i].value == u;
            assert docs[i] == front[i];
          }
        }
      }
      if last.Some? && last.value != "" then Insert(r0, last.value) else r0
  }

  /** A strictly ascending list is determined by its elements: the URL list is
      the only ascending, duplicate-free arrangement of the sources. */
  lemma {:induction false} StrictlySortedUnique(a: seq<string>, b: seq<string>)
    requires StrictlySorted(a) && StrictlySorted(b)
    requires forall u :: u in a <==> u in b
    ensures a == b
    decreases |a|
  {
    assert a != [] ==> a[0] in b;
    assert b != [] ==> b[0] in a;
    if a != [] && b != [] {
      if a[0] != b[0] {
        var i :| 0 <= i < |b| && b[i] == a[0];
        var j :| 0 <= j < |a| && a[j] == b[0];
        assert Below(b[0], a[0]);
        assert Below(a[0], b[0]);
        BelowTransitive(a[0], b[0], a[0]);
        BelowIrreflexive(a[0]);
      }
      forall u ensures u in a[1..] <==> u in b[1..] {
        if u in a[1..] {
          var i :| 1 <= i < |a| && a[i] == u;
          BelowIrreflexive(a[0]);
          assert u != a[0];
          assert u in b;
          var k :| 0 <= k < |b| && b[k] == u;
          assert k != 0;
        }
        if u in b[1..] {
          var i :| 1 <= i < |b| && b[i] == u;
          BelowIrreflexive(b[0]);
          assert u != b[0];
          assert u in a;
          var k :| 0 <= k < |a| && a[k] == u;
          assert k != 0;
        }
      }
      StrictlySortedUnique(a[1..], b[1..]);
      assert a == [a[0]] + a[1..] && b == [b[0]] + b[1..];
    }
  }

  /** Each URL appears once in the list. */
  lemma SortedUrlsDistinct(docs: seq<Option<string>>)
    ensures forall i, j :: 0 <= i < j < |SortedUrls(docs)| ==> SortedUrls(docs)[i] != SortedUrls(docs)[j]
  {
    var r := SortedUrls(docs);
    forall i, j | 0 <= i < j < |r| ensures r[i] != r[j] {
      BelowIrreflexive(r[i]);
    }
  }

  // ---------------------------------------------------------------------------
  // What one run leaves on disk

  /** What `run` saves for the page at a URL: nothing when the fetch failed
      or the page has no content region, else the region as found and the
      Markdown of the region with the noise removed. */
  function Page(fetch: string -> Option<seq<Node>>, render: string -> string, url: string): Option<(string, string)> {
    if fetch(url).None? || SelectContent(fetch(url).value).None? then None
    else
      var c := SelectContent(fetch(url).value).value;
      Some((Serialize(c), render(Serialize(Strip(c)))))
  }

  /** Where `save_content` puts the two files of the page at a URL. */
  function PageFiles(outputDir: string, url: string): (string, string) {
    (HtmlFile(outputDir, Parse(url).path), MdFile(outputDir, Parse(url).path))
  }

  /** Writes a page's two files, the HTML file first, when there is
      something to save. */
  function Write(files: map<string, string>, at: (string, string), page: Option<(string, string)>): map<string, string> {
    if page.None? then files else files[at.0 := page.value.0][at.1 := page.value.1]
  }

  /** One iteration of `run`'s loop: a page with nothing to save leaves the
      files as they are; otherwise its HTML file and then its Markdown file
      are written. */
  function Step(files: map<string, string>, outputDir: string, url: string,
                fetch: string -> Option<seq<Node>>, render: string -> string): map<string, string>
  {
    Write(files, PageFiles(outputDir, url), Page(fetch, render, url))
  }

  /** The files after processing `urls` in order. */
  function Exported(files: map<string, string>, outputDir: string, urls: seq<string>,
                    fetch: string -> Option<seq<Node>>, render: string -> string): map<string, string>
    decreases |urls|
  {
    if urls == [] then files
    else Step(Exported(files, outputDir, urls[..|urls| - 1], fetch, render), outputDir, urls[|urls| - 1], fetch, render)
  }

  /** The run over the first `i + 1` URLs is the run over the first `i`
      followed by one step. */
  lemma ExportedSnoc(files: map<string, string>, outputDir: string, urls: seq<string>, i: nat,
                     fetch: string -> Option<seq<Node>>, render: string -> string)
    requires i < |urls|
    ensures Exported(files, outputDir, urls[..i + 1], fetch, render) ==
            Step(Exported(files, outputDir, urls[..i], fetch, render), outputDir, urls[i], fetch, render)
  {
    assert urls[..i + 1][..i] == urls[..i];
  }

  lemma ExtendPrefix(r: seq<string>, urls: seq<string>, i: nat)
    requires i < |urls|
    ensures r + urls[..i] + [urls[i]] == r + urls[..i + 1]
  {
    assert urls[..i + 1] == urls[..i] + [urls[i]];
  }

  /** The paths the run writes for the page at `u`. */
  function Saved(outputDir: string, fetch: string -> Option<seq<Node>>, render: string -> string, u: string): set<string> {
    if Page(fetch, render, u).Some? then {PageFiles(outputDir, u).0, PageFiles(outputDir, u).1} else {}
  }

  /** The paths a run over `urls` writes to. */
  function Written(outputDir: string, urls: seq<string>,
                   fetch: string -> Option<seq<Node>>, render: string -> string): set<string>
    decreases |urls|
  {
    if urls == [] then {}
    else Written(outputDir, urls[..|urls| - 1], fetch, render) + Saved(outputDir, fetch, render, urls[|urls| - 1])
  }

  lemma WriteKeys(files: map<string, string>, at: (string, string), page: Option<(string, string)>)
    ensures Write(files, at, page).Keys == files.Keys + (if page.Some? then {at.0, at.1} else {})
  {
  }

  /** The files after a run are the files before it and the files it wrote. */
  lemma {:induction false} ExportedKeys(files: map<string, string>, outputDir: string, urls: seq<string>,
                                        fetch: string -> Option<seq<Node>>, render: string -> string)
    ensures Exported(files, outputDir, urls, fetch, render).Keys == files.Keys + Written(outputDir, urls, fetch, render)
    decreases |urls|
  {
    if urls != [] {
      var front := urls[..|urls| - 1];
      var last := urls[|urls| - 1];
      ExportedKeys(files, outputDir, front, fetch, render);
      WriteKeys(Exported(files, outputDir, front, fetch, render), PageFiles(outputDir, last), Page(fetch, render, last));
    }
  }

  /** A run writes exactly the HTML and Markdown files of the processed pages
      that had something to save; skipped pages add nothing and do not stop
      the others. */
  lemma {:induction false} WrittenIff(outputDir: string, urls: seq<string>,
                                      fetch: string -> Option<seq<Node>>, render: string -> string, k: string)
    ensures k in Written(outputDir, urls, fetch, render) <==> exists u :: u in urls && k in Saved(outputDir, fetch, render, u)
    decreases |urls|
  {
    if urls != [] {
      var front := urls[..|urls| - 1];
      var last := urls[|urls| - 1];
      WrittenIff(outputDir, front, fetch, render, k);
      SnocMembers(urls);
    }
  }

  /** A page is saved exactly when it was fetched and has a content region,
      and what is saved as Markdown holds no `script`, `style` or `nav`. */
  lemma PageSaved(fetch: string -> Option<seq<Node>>, render: string -> string, url: string)
    ensures Page(fetch, render, url).Some? <==> fetch(url).Some? && SelectContent(fetch(url).value).Some?
    ensures Page(fetch, render, url).Some? ==>
              var c := SelectContent(fetch(url).value).value;
              Page(fetch, render, url).value == (Serialize(c), render(Serialize(Strip(c)))) &&
              !HasNoise(Strip(c).children)
  {
    if fetch(url).Some? && SelectContent(fetch(url).value).Some? {
      var c := SelectContent(fetch(url).value).value;
      SelectContentIsElement(fetch(url).value);
      StripListRemovesNoise(c.children);
    }
  }

  /** The HTML and the Markdown file of a page are different files. */
  lemma PageFilesDistinct(outputDir: string, url: string)
    ensures PageFiles(outputDir, url).0 != PageFiles(outputDir, url).1
  {
    var p := Parse(url).path;
    ArtifactsShareSubPath(outputDir, p);
    var h := HtmlFile(outputDir, p);
    var m := MdFile(outputDir, p);
    assert h[|h| - 1] == 'l';
    assert m[|m| - 1] == 'd';
  }

  /** The last page of the run that has something to save holds it: the HTML
      file its first part, the Markdown file its second. */
  lemma LastSavedPageFiles(files: map<string, string>, outputDir: string, urls: seq<string>,
                           fetch: string -> Option<seq<Node>>, render: string -> string)
    requires urls != [] && Page(fetch, render, urls[|urls| - 1]).Some?
    ensures var u := urls[|urls| - 1];
      var out := Exported(files, outputDir, urls, fetch, render);
      out[PageFiles(outputDir, u).0] == Page(fetch, render, u).value.0 &&
      out[PageFiles(outputDir, u).1] == Page(fetch, render, u).value.1
  {
    var front := urls[..|urls| - 1];
    StepSavedFiles(Exported(files, outputDir, front, fetch, render), outputDir, urls[|urls| - 1], fetch, render);
  }

  /** A saved page's two files still hold its content at the end of the run
      when no later page of the run writes to either of them. */
  lemma SavedPageFiles(files: map<string, string>, outputDir: string, urls: seq<string>, i: nat,
                       fetch: string -> Option<seq<Node>>, render: string -> string)
    requires i < |urls| && Page(fetch, render, urls[i]).Some?
    requires forall j :: i < j < |urls| ==>
               PageFiles(outputDir, urls[i]).0 !in Saved(outputDir, fetch, render, urls[j]) &&
               PageFiles(outputDir, urls[i]).1 !in Saved(outputDir, fetch, render, urls[j])
    ensures var out := Exported(files, outputDir, urls, fetch, render);
      var at := PageFiles(outputDir, urls[i]);
      at.0 in out && at.1 in out &&
      out[at.0] == Page(fetch, render, urls[i]).value.0 &&
      out[at.1] == Page(fetch, render, urls[i]).value.1
  {
    var at := PageFiles(outputDir, urls[i]);
    var page := Page(fetch, render, urls[i]).value;
    var mid := Exported(files, outputDir, urls[..i + 1], fetch, render);
    SavedAfterOwnStep(files, outputDir, urls, i, fetch, render);
    UntouchedAfter(outputDir, urls, i, fetch, render);
    ExportedSplit(files, outputDir, urls, i + 1, fetch, render);
    ExportedKeeps(mid, outputDir, urls[i + 1..], fetch, render, at.0, page.0);
    ExportedKeeps(mid, outputDir, urls[i + 1..], fetch, render, at.1, page.1);
  }

  lemma SavedAfterOwnStep(files: map<string, string>, outputDir: string, urls: seq<string>, i: nat,
                          fetch: string -> Option<seq<Node>>, render: string -> string)
    requires i < |urls| && Page(fetch, render, urls[i]).Some?
    ensures var mid := Exported(files, outputDir, urls[..i + 1], fetch, render);
      var at := PageFiles(outputDir, urls[i]);
      Holds(mid, at.0, Page(fetch, render, urls[i]).value.0) && Holds(mid, at.1, Page(fetch, render, urls[i]).value.1)
  {
    ExportedSnoc(files, outputDir, urls, i, fetch, render);
    StepSavedFiles(Exported(files, outputDir, urls[..i], fetch, render), outputDir, urls[i], fetch, render);
  }

  lemma UntouchedAfter(outputDir: string, urls: seq<string>, i: nat,
                       fetch: string -> Option<seq<Node>>, render: string -> string)
    requires i < |urls|
    requires forall j :: i < j < |urls| ==>
               PageFiles(outputDir, urls[i]).0 !in Saved(outputDir, fetch, render, urls[j]) &&
               PageFiles(outputDir, urls[i]).1 !in Saved(outputDir, fetch, render, urls[j])
    ensures Untouched(PageFiles(outputDir, urls[i]).0, outputDir, urls[i + 1..], 0, fetch, render)
    ensures Untouched(PageFiles(outputDir, urls[i]).1, outputDir, urls[i + 1..], 0, fetch, render)
  {
    var later := urls[i + 1..];
    forall j | 0 <= j < |later|
      ensures PageFiles(outputDir, urls[i]).0 !in Saved(outputDir, fetch, render, later[j])
      ensures PageFiles(outputDir, urls[i]).1 !in Saved(outputDir, fetch, render, later[j])
    {
      assert later[j] == urls[i + 1 + j];
    }
  }

  /** A run splits at any position into the run up to there and the rest. */
  lemma ExportedSplit(files: map<string, string>, outputDir: string, urls: seq<string>, n: nat,
                      fetch: string -> Option<seq<Node>>, render: string -> string)
    requires n <= |urls|
    ensures Exported(files, outputDir, urls, fetch, render) ==
            Exported(Exported(files, outputDir, urls[..n], fetch, render), outputDir, urls[n..], fetch, render)
  {
    assert urls == urls[..n] + urls[n..];
    ExportedAppend(files, outputDir, urls[..n], urls[n..], fetch, render);
  }

  /** Applies `step` to each URL in turn. */
  function Fold(files: map<string, string>, urls: seq<string>,
                step: (map<string, string>, string) -> map<string, string>): map<string, string>
    decreases |urls|
  {
    if urls == [] then files else step(Fold(files, urls[..|urls| - 1], step), urls[|urls| - 1])
  }

  lemma {:induction false} FoldAppend(files: map<string, string>, a: seq<string>, b: seq<string>,
                                      step: (map<string, string>, string) -> map<string, string>)
    ensures Fold(files, a + b, step) == Fold(Fold(files, a, step), b, step)
    decreases |b|
  {
    if b == [] {
      assert a + b == a;
    } else {
      var ab := a + b;
      assert ab[..|ab| - 1] == a + b[..|b| - 1];
      assert ab[|ab| - 1] == b[|b| - 1];
      FoldAppend(files, a, b[..|b| - 1], step);
    }
  }

  function StepOf(outputDir: string, fetch: string -> Option<seq<Node>>, render: string -> string)
    : (map<string, string>, string) -> map<string, string>
  {
    (files, url) => Step(files, outputDir, url, fetch, render)
  }

  lemma {:induction false} ExportedIsFold(files: map<string, string>, outputDir: string, urls: seq<string>,
                                          fetch: string -> Option<seq<Node>>, render: string -> string)
    ensures Exported(files, outputDir, urls, fetch, render) == Fold(files, urls, StepOf(outputDir, fetch, render))
    decreases |urls|
  {
    if urls != [] {
      ExportedIsFold(files, outputDir, urls[..|urls| - 1], fetch, render);
    }
  }

  lemma ExportedAppend(files: map<string, string>, outputDir: string, a: seq<string>, b: seq<string>,
                       fetch: string -> Option<seq<Node>>, render: string -> string)
    ensures Exported(files, outputDir, a + b, fetch, render) ==
            Exported(Exported(files, outputDir, a, fetch, render), outputDir, b, fetch, render)
  {
    var step := StepOf(outputDir, fetch, render);
    ExportedIsFold(files, outputDir, a + b, fetch, render);
    ExportedIsFold(files, outputDir, a, fetch, render);
    ExportedIsFold(Exported(files, outputDir, a, fetch, render), outputDir, b, fetch, render);
    FoldAppend(files, a, b, step);
  }

  /** No step of `urls` from position `n` on writes the file `k`. */
  predicate Untouched(k: string, outputDir: string, urls: seq<string>, n: nat,
                      fetch: string -> Option<seq<Node>>, render: string -> string)
  {
    forall j {:trigger Saved(outputDir, fetch, render, urls[j])} :: n <= j < |urls| ==> k !in Saved(outputDir, fetch, render, urls[j])
  }

  lemma UntouchedSplit(k: string, outputDir: string, urls: seq<string>, n: nat,
                       fetch: string -> Option<seq<Node>>, render: string -> string)
    requires n < |urls| && Untouched(k, outputDir, urls, n, fetch, render)
    ensures Untouched(k, outputDir, urls[..|urls| - 1], n, fetch, render)
    ensures k !in Saved(outputDir, fetch, render, urls[|urls| - 1])
  {
    var front := urls[..|urls| - 1];
    forall j | n <= j < |front|
      ensures k !in Saved(outputDir, fetch, render, front[j])
    {
      assert front[j] == urls[j];
    }
  }

  /** The file `k` exists and holds `v`. */
  predicate Holds(files: map<string, string>, k: string, v: string) {
    k in files && files[k] == v
  }

  /** A file holding `v` still holds it after steps none of which writes it. */
  lemma {:induction false} ExportedKeeps(files: map<string, string>, outputDir: string, later: seq<string>,
                                         fetch: string -> Option<seq<Node>>, render: string -> string,
                                         k: string, v: string)
    requires Holds(files, k, v)
    requires Untouched(k, outputDir, later, 0, fetch, render)
    ensures Holds(Exported(files, outputDir, later, fetch, render), k, v)
    decreases |later|
  {
    if later != [] {
      UntouchedSplit(k, outputDir, later, 0, fetch, render);
      ExportedKeeps(files, outputDir, later[..|later| - 1], fetch, render, k, v);
      ExportedKeepsLast(files, outputDir, later, fetch, render, k, v);
    }
  }

  /** The last step of a run keeps a file it does not write. */
  lemma ExportedKeepsLast(files: map<string, string>, outputDir: string, urls: seq<string>,
                          fetch: string -> Option<seq<Node>>, render: string -> string, k: string, v: string)
    requires urls != []
    requires Holds(Exported(files, outputDir, urls[..|urls| - 1], fetch, render), k, v)
    requires k !in Saved(outputDir, fetch, render, urls[|urls| - 1])
    ensures Holds(Exported(files, outputDir, urls, fetch, render), k, v)
  {
    StepKeeps(Exported(files, outputDir, urls[..|urls| - 1], fetch, render), outputDir, urls[|urls| - 1], fetch, render, k);
  }

  /** A step leaves every file it does not write as it was. */
  lemma StepKeeps(files: map<string, string>, outputDir: string, url: string,
                  fetch: string -> Option<seq<Node>>, render: string -> string, k: string)
    requires k in files && k !in Saved(outputDir, fetch, render, url)
    ensures k in Step(files, outputDir, url, fetch, render) && Step(files, outputDir, url, fetch, render)[k] == files[k]
  {
  }

  /** The class saves at the corrected paths; they are the paths the code
      computes for every URL whose path does not start with `//`. */
  lemma PageFilesAgreeAsWritten(outputDir: string, url: string)
    requires !StartsWith(Parse(url).path, "//")
    ensures PageFiles(outputDir, url) == (HtmlFileAsWritten(outputDir, Parse(url).path), MdFileAsWritten(outputDir, Parse(url).path))
  {
    AsWrittenAgreesWithoutDoubleSlash(Parse(url).path);
  }

  /** A saved page's two files hold what was saved for it. */
  lemma StepSavedFiles(files: map<string, string>, outputDir: string, url: string,
                       fetch: string -> Option<seq<Node>>, render: string -> string)
    requires Page(fetch, render, url).Some?
    ensures var out := Step(files, outputDir, url, fetch, render);
      out[PageFiles(outputDir, url).0] == Page(fetch, render, url).value.0 &&
      out[PageFiles(outputDir, url).1] == Page(fetch, render, url).value.1
  {
    PageFilesDistinct(outputDir, url);
    WriteSaved(files, PageFiles(outputDir, url), Page(fetch, render, url));
  }

  /** A page with nothing to save leaves the files as they are. */
  lemma StepSkips(files: map<string, string>, outputDir: string, url: string,
                  fetch: string -> Option<seq<Node>>, render: string -> string)
    requires Page(fetch, render, url).None?
    ensures Step(files, outputDir, url, fetch, render) == files
  {
  }

  /** A page with content is written to its HTML file and then its Markdown file. */
  lemma StepSaves(files: map<string, string>, outputDir: string, url: string,
                  fetch: string -> Option<seq<Node>>, render: string -> string)
    requires Page(fetch, render, url).Some?
    ensures Step(files, outputDir, url, fetch, render) ==
            files[PageFiles(outputDir, url).0 := Page(fetch, render, url).value.0]
                 [PageFiles(outputDir, url).1 := Page(fetch, render, url).value.1]
  {
    WriteSome(files, PageFiles(outputDir, url), Page(fetch, render, url));
  }

  lemma WriteSome(files: map<string, string>, at: (string, string), page: Option<(string, string)>)
    requires page.Some?
    ensures Write(files, at, page) == files[at.0 := page.value.0][at.1 := page.value.1]
  {
  }

  lemma WriteSaved(files: map<string, string>, at: (string, string), page: Option<(string, string)>)
    requires page.Some? && at.0 != at.1
    ensures Write(files, at, page)[at.0] == page.value.0 && Write(files, at, page)[at.1] == page.value.1
  {
  }

  // ---------------------------------------------------------------------------
  // The exporter object

  /** The three settings `__init__` derives from its arguments: the base URL
      without trailing slashes, the domain, and the output directory below the
      domain. */
  method Settings(baseUrlArg: string, outputDirArg: string) returns (baseUrl: string, domain: string, outputDir: string)
    ensures baseUrl == RStrip(baseUrlArg, '/')
    ensures domain == Parse(baseUrlArg).netloc
    ensures outputDir == Join(outputDirArg, domain)
  {
    baseUrl := RStrip(baseUrlArg, '/');
    domain := Parse(baseUrlArg).netloc;
    outputDir := Join(outputDirArg, domain);
  }

  class GitBookExporter {
    /** `base_url` without trailing slashes. */
    const baseUrl: string
    /** The network location of the URL the exporter was created with. */
    const domain: string
    /** `output_dir` joined with the domain. */
    const outputDir: string
    /** The files this exporter has written, by path. */
    var files: map<string, string>
    /** The URLs fetched so far, in order. */
    ghost var requested: seq<string>

    constructor(baseUrlArg: string, outputDirArg: string)
      ensures baseUrl == RStrip(baseUrlArg, '/')
      ensures domain == Parse(baseUrlArg).netloc
      ensures outputDir == Join(outputDirArg, domain)
      ensures files == map[] && requested == []
    {
      var b, d, o := Settings(baseUrlArg, outputDirArg);
      baseUrl, domain, outputDir := b, d, o;
      files := map[];
      requested := [];
    }

    /** `extract_content`: the content region printed before any change, and
        the Markdown of the region after every `script`, `style` and `nav`
        below it has been removed; nothing when there is no region. */
    method ExtractContent(doc: seq<Node>, render: string -> string) returns (html: Option<string>, markdown: Option<string>)
      ensures SelectContent(doc).None? ==> html.None? && markdown.None?
      ensures SelectContent(doc).Some? ==>
                html == Some(Serialize(SelectContent(doc).value)) &&
                markdown == Some(render(Serialize(Strip(SelectContent(doc).value))))
    {
      var found := SelectContent(doc);
      if found.None? {
        return None, None;
      }
      var content := found.value;
      SelectContentIsElement(doc);
      html := Some(Serialize(content));
      var kids := content.children;
      while HasNoise(kids)
        invariant StripList(kids) == StripList(content.children)
        decreases SizeList(kids)
      {
        RemoveFirstNoiseKeepsStrip(kids);
        RemoveFirstNoiseShrinks(kids);
        kids := RemoveFirstNoise(kids);
      }
      StripListNoiseFree(kids);
      markdown := Some(render(Serialize(content.(children := kids))));
    }

    /** `save_content`: both artifacts of the page, at the paths derived from
        the URL's path. */
    method SaveContent(url: string, html: string, markdown: string)
      modifies this
      ensures files == old(files)[PageFiles(outputDir, url).0 := html][PageFiles(outputDir, url).1 := markdown]
      ensures requested == old(requested)
    {
      var (htmlFile, mdFile) := PageFiles(outputDir, url);
      files := files[htmlFile := html][mdFile := markdown];
    }

    /** The body of `run`'s loop for one URL: fetch the page, skip it when
        the fetch failed or it has no content region, else save it. */
    method ProcessPage(url: string, fetch: string -> Option<seq<Node>>, render: string -> string)
      modifies this
      ensures files == Step(old(files), outputDir, url, fetch, render)
      ensures requested == old(requested)
    {
      var soup := fetch(url);
      if soup.None? {
        StepSkips(files, outputDir, url, fetch, render);
        return;
      }
      var html, markdown := ExtractContent(soup.value, render);
      if html.Some? && html.value != "" {
        assert Page(fetch, render, url) == Some((html.value, markdown.value));
        StepSaves(files, outputDir, url, fetch, render);
        SaveContent(url, html.value, markdown.value);
      } else if html.None? {
        StepSkips(files, outputDir, url, fetch, render);
      } else {
        SelectContentIsElement(soup.value);
        SerializeElementNonEmpty(SelectContent(soup.value).value);
        assert false;
      }
    }

    /** `run`: `load` is the site loader applied to the base URL, giving the
        `source` of each document it found (`None` when absent) or `None`
        when it raised; `fetch` is `get_soup`, `None` when the request failed. */
    method Run(load: string -> Option<seq<Option<string>>>, fetch: string -> Option<seq<Node>>, render: string -> string)
      modifies this
      ensures load(baseUrl).None? ==> files == old(files) && requested == old(requested)
      ensures load(baseUrl).Some? ==>
                requested == old(requested) + SortedUrls(load(baseUrl).value) &&
                files == Exported(old(files), outputDir, SortedUrls(load(baseUrl).value), fetch, render)
    {
      var loaded := load(baseUrl);
      if loaded.None? {
        return;
      }
      var urls := SortedUrls(loaded.value);
      for i := 0 to |urls|
        invariant requested == old(requested) + urls[..i]
        invariant files == Exported(old(files), outputDir, urls[..i], fetch, render)
      {
        RunStep(urls, i, old(files), old(requested), fetch, render);
      }
      assert urls[..|urls|] == urls;
    }

    /** One round of `run`'s loop: request `urls[i]` and process its page. */
    method RunStep(urls: seq<string>, i: nat, ghost start: map<string, string>, ghost startRequested: seq<string>,
                   fetch: string -> Option<seq<Node>>, render: string -> string)
      requires i < |urls|
      requires requested == startRequested + urls[..i]
      requires files == Exported(start, outputDir, urls[..i], fetch, render)
      modifies this
      ensures requested == startRequested + urls[..i + 1]
      ensures files == Exported(start, outputDir, urls[..i + 1], fetch, render)
    {
      var url := urls[i];
      ExportedSnoc(start, outputDir, urls, i, fetch, render);
      ExtendPrefix(startRequested, urls, i);
      requested := requested + [url];
      ProcessPage(url, fetch, render);
    }
  }

  /** The exporter created for `scheme://host` (the site root) files the root
      page as `<output_dir>/<host>/html/index.html` and `.../md/index.md`, and
      `/name` as `.../html/name.html` and `.../md/name.md`. */
  lemma SiteLayout(scheme: string, host: string, outputDirArg: string, name: string)
    requires ValidScheme(scheme)
    requires !ContainsAny(host, NetlocStops) && !ContainsAny(host, Unsafe)
    requires Segment(name) && !ContainsAny(name, Unsafe) && '?' !in name && '#' !in name && ';' !in name
    ensures var outputDir := Join(outputDirArg, Parse(scheme + "://" + host).netloc);
      var root := Parse(scheme + "://" + host).path;
      var page := Parse(scheme + "://" + host + ("/" + name)).path;
      HtmlFile(outputDir, root) == Join(Join(outputDirArg, host), "html") + "/" + "index" + ".html" &&
      MdFile(outputDir, root) == Join(Join(outputDirArg, host), "md") + "/" + "index" + ".md" &&
      HtmlFile(outputDir, page) == Join(Join(outputDirArg, host), "html") + "/" + name + ".html" &&
      MdFile(outputDir, page) == Join(Join(outputDirArg, host), "md") + "/" + name + ".md"
  {
    SiteRootFiles(scheme, host, outputDirArg);
    SitePageFiles(scheme, host, outputDirArg, name);
  }

  lemma SiteRootFiles(scheme: string, host: string, outputDirArg: string)
    requires ValidScheme(scheme)
    requires !ContainsAny(host, NetlocStops) && !ContainsAny(host, Unsafe)
    ensures var u := Parse(scheme + "://" + host);
      u.netloc == host &&
      HtmlFile(Join(outputDirArg, host), u.path) == Join(Join(outputDirArg, host), "html") + "/" + "index" + ".html" &&
      MdFile(Join(outputDirArg, host), u.path) == Join(Join(outputDirArg, host), "md") + "/" + "index" + ".md"
  {
    assert !ContainsAny([], Unsafe);
    NetlocOfAbsolute(scheme, host, []);
    assert scheme + "://" + host + [] == scheme + "://" + host;
    RootFiles(Join(outputDirArg, host), "");
  }

  lemma SitePageFiles(scheme: string, host: string, outputDirArg: string, name: string)
    requires ValidScheme(scheme)
    requires !ContainsAny(host, NetlocStops) && !ContainsAny(host, Unsafe)
    requires Segment(name) && !ContainsAny(name, Unsafe) && '?' !in name && '#' !in name && ';' !in name
    ensures var u := Parse(scheme + "://" + host + ("/" + name));
      HtmlFile(Join(outputDirArg, host), u.path) == Join(Join(outputDirArg, host), "html") + "/" + name + ".html" &&
      MdFile(Join(outputDirArg, host), u.path) == Join(Join(outputDirArg, host), "md") + "/" + name + ".md"
  {
    var rest := "/" + name;
    assert !ContainsAny(rest, Unsafe) && '?' !in rest && '#' !in rest && ';' !in rest;
    NetlocOfAbsolute(scheme, host, rest);
    SegmentFiles(Join(outputDirArg, host), name);
  }

  /** Which file a page is written to depends on its URL's path only: adding a
      query or a fragment changes nothing. */
  lemma FilesIgnoreQueryAndFragment(outputDir: string, a: string, t: string)
    requires '?' !in a && '#' !in a
    requires t != [] && (t[0] == '?' || t[0] == '#')
    ensures HtmlFile(outputDir, Parse(a + t).path) == HtmlFile(outputDir, Parse(a).path)
    ensures MdFile(outputDir, Parse(a + t).path) == MdFile(outputDir, Parse(a).path)
  {
    ParseAppendTail(a, t);
  }
}
