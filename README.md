# gitbook_exporter — a Dafny model

The exporter turns a GitBook site into two file trees: one of HTML fragments and one of Markdown.

The `GitBookExporter` class works in four steps:
- its constructor derives the base URL, the site's domain and the output directory;
- `extract_content` picks a page's content region by a fixed priority of selectors, keeps its HTML, and renders its Markdown after removing every `script`, `style` and `nav` below it;
- `save_content` maps a page's URL path to an `html/…/<name>.html` and an `md/…/<name>.md` file under the output directory;
- `run` takes the page list from the site loader, keeps the distinct non-empty sources in sorted order, and fetches, extracts and saves each, skipping pages that fail.

The debugging script `debug_links.py` does two link checks:
- it collects the internal links of a page's first `nav`, each resolved, filtered with `is_internal` and canonicalised with `clean_url`;
- it searches the whole page for an anchor that leads to an expected address.

The model has six modules:
- **Text** (`text.dfy`): string helpers, namely the Python `startswith`, `endswith`, `lstrip`, `rstrip` and `rfind` behaviour, plus the code-point order `sorted()` uses.
- **Urls** (`urls.dfy`): `urllib.parse.urlparse`, written out as CPython 3.12 splits a URL, together with `clean_url` and `is_internal`.
  - It strips leading C0 and space characters and removes tab, CR and LF.
  - It splits off the scheme and lowercases it, then the `//netloc`, then the fragment, the query, and the `;params` for the schemes in `uses_params`.
- **Dom** (`dom.dfy`): the parsed page as a tree of elements.
  - Each element has a name, an id, classes, an `href` and children.
  - The module also gives `find`/`find_all` in document order, the printed form of a tag, and the removal of `script`/`style`/`nav` descendants.
- **Paths** (`paths.dfy`): `posixpath.join`, `dirname` and `basename`, and the mapping from a URL path to the two artifact files. The mapping comes both as written and corrected (see Findings).
- **Exporter** (`exporter.dfy`): the class `GitBookExporter`.
  - The written files are the map field `files` (path to content).
  - The URLs requested so far are the ghost field `requested`.
  - `run` is a loop proved against the specification function `Exported`.
- **DebugLinks** (`debug_links.dfy`): the nav scan as a loop proved against the function `NavLinks`, and the expected-link search as a loop with a `found` flag and an early exit.

Code outside the repository is passed in as function parameters:
- `fetch` is `get_soup`, giving `None` for a failed request;
- `render` is `markdownify`;
- `resolve` is `urljoin`;
- `load` is the site loader applied to the base URL, giving `None` when it raised.

## Model

| member | source | states |
|---|---|---|
| Exporter.Settings | exporter.py:10-13 | the base URL is the argument without trailing `/`, the domain is the argument's netloc, and the output directory is `join(output_dir, domain)` |
| Exporter.GitBookExporter.constructor | exporter.py:10-13 | a new exporter holds exactly those three settings and has written and requested nothing |
| Exporter.GitBookExporter.ExtractContent | exporter.py:28-49 | nothing when no content region exists; otherwise the HTML is the region printed before any removal, and the Markdown is the rendering of the region with its noise removed |
| Dom.FirstMatch | exporter.py:30 | `find` returns nothing iff no node in document order matches; otherwise it returns the first matching node |
| Dom.FindMatches | exporter.py:30 | a found tag matches the selector and is a node of the page |
| Dom.FirstFound | exporter.py:30-35 | the `or` chain returns nothing iff every selector fails; otherwise it returns the result of the first selector that finds something |
| Dom.SelectContentPriority | exporter.py:30-38 | `main` wins when present; `body` is used only when `main`, `article`, `div.page-inner` and `div#book-search-results` are all missing; there is no region iff all five are missing |
| Dom.SelectContentIsElement | exporter.py:30-38 | the selected region is always a tag |
| Dom.SerializeElementNonEmpty | exporter.py:41 | the printed form of a tag is never empty, so a found region always has non-empty HTML |
| Dom.HasNoiseIffFound | exporter.py:45 | some child subtree holds `script`/`style`/`nav` iff `find_all` of those names, in document order, is non-empty |
| Dom.RemoveFirstNoiseShrinks | exporter.py:45-46 | removing one noise tag makes the tree smaller, so the removal loop ends |
| Dom.RemoveFirstNoiseKeepsStrip | exporter.py:45-46 | removing one noise tag does not change the fully stripped tree |
| Dom.StripListRemovesNoise | exporter.py:45-48 | after stripping, no `script`, `style` or `nav` is left at any depth |
| Dom.StripListNoiseFree | exporter.py:45-48 | stripping a noise-free tree leaves it unchanged |
| Dom.StripListIdentityIff | exporter.py:45-48 | stripping changes the tree iff it holds noise |
| Exporter.PageSaved | exporter.py:107-113 | a page is saved iff it was fetched and has a content region; the saved pair is the unstripped HTML and the Markdown of the stripped region, which holds no noise |
| Paths.Join | exporter.py:70-71 | `os.path.join` drops its first part when the second is absolute, and otherwise ends with the second part |
| Paths.FileName | exporter.py:76-78 | the file stem is never empty and holds no `/` |
| Text.SplitLastSlash | exporter.py:70-76 | the head and tail split at the last `/` rebuild the path; the tail holds no `/` and the head is empty or ends with `/` |
| Text.SplitLastSlashUnique | exporter.py:70-76 | any decomposition of that shape is the split |
| Paths.LocalPathAsWritten | exporter.py:59-67 | the code's local path (one leading `/` removed, then `index` for an empty path and one `.html` cut) starts with `/` iff the URL path starts with `//` |
| Paths.LocalPathNotAbsolute | exporter.py:59-67 | corrected mapping (every leading `/` removed): the local path never starts with `/` |
| Paths.FinishRemovesOneHtml | exporter.py:66-67 | a trailing `.html` is removed once, as five characters, and a second one stays |
| Paths.ArtifactsShareSubPathAsWritten | exporter.py:59-85 | as written, for a URL path not starting with `//`: both artifacts lie at the same sub-path, under `html/` with `.html` and under `md/` with `.md` |
| Paths.SubPathRelativeAsWritten | exporter.py:59-85 | as written, for a URL path not starting with `//`: that sub-path never starts with `/`, so joining it never discards the output directory |
| Paths.ArtifactsShareSubPath | exporter.py:70-85 | corrected mapping, for every URL path: both artifacts lie at the same sub-path under `html/` and `md/` |
| Paths.SubPathRelative | exporter.py:70-85 | corrected mapping, for every URL path: that sub-path never starts with `/` |
| Paths.RootFiles | exporter.py:59-63 | an empty path and `/` both map to `html/index.html` and `md/index.md` |
| Paths.SingleSegmentFiles | exporter.py:70-85 | a local path that is one segment `name` gives `html/name.html` and `md/name.md` |
| Paths.SegmentFiles | exporter.py:59-85 | `/name` gives `html/name.html` and `md/name.md` |
| Paths.DirectoryFiles | exporter.py:70-78 | `/name/` gives `html/name/index.html` and `md/name/index.md` |
| Paths.HtmlSuffixCollides | exporter.py:66-67 | `/name.html` and `/name` map to the same files |
| Paths.IndexCollides | exporter.py:59-63 | `/index` and `/` map to the same files |
| Paths.DirectoryIndexCollides | exporter.py:70-78 | `/name/index` and `/name/` map to the same files |
| Paths.AsWrittenAgreesWithoutDoubleSlash | exporter.py:59-60 | removing one leading `/` and removing all of them agree unless the path starts with `//` |
| Paths.DoubleSlashEscapesAsWritten | exporter.py:59-85 | as written, the path `//name` is saved to the absolute files `/name.html` and `/name.md` |
| Paths.DoubleSlashStaysInside | exporter.py:59-85 | with all leading slashes removed, `//name` is saved under the output directory's `html/` and `md/` |
| Exporter.PageFilesAgreeAsWritten | exporter.py:56-85 | the files the class writes for a URL are exactly the code's as-written files whenever the URL path does not start with `//` |
| Exporter.PageFilesDistinct | exporter.py:81-85 | a page's HTML file and Markdown file are different files |
| Exporter.FilesIgnoreQueryAndFragment | exporter.py:56-57 | adding a query or a fragment to a URL does not change its files |
| Exporter.SiteLayout | exporter.py:10-13 | the exporter for `scheme://host` files the site root as `<out>/<host>/html/index.html` and `<out>/<host>/md/index.md`, and `/name` as `.../html/name.html` and `.../md/name.md` |
| Exporter.GitBookExporter.SaveContent | exporter.py:56-86 | the HTML and the Markdown are written to the page's two files; no other file and nothing else changes |
| Exporter.Insert | exporter.py:102 | inserting into a strictly sorted list keeps it strictly sorted, and its members become the old ones plus the new one |
| Exporter.SortedUrls | exporter.py:102 | the URL list is strictly ascending and holds exactly the non-empty sources |
| Exporter.StrictlySortedUnique | exporter.py:102 | two strictly ascending lists with the same members are equal, so the URL list is determined by the set of sources |
| Exporter.SortedUrlsDistinct | exporter.py:102 | no URL occurs twice in the list |
| Text.BelowIrreflexive | exporter.py:102 | string order is irreflexive |
| Text.BelowTransitive | exporter.py:102 | string order is transitive |
| Text.BelowTotal | exporter.py:102 | any two distinct strings are ordered |
| Exporter.GitBookExporter.Run | exporter.py:90-115 | when the loader raises, nothing changes; otherwise every URL of the sorted list is requested once, in order, and the files are those that saving the pages in that order produces |
| Exporter.GitBookExporter.RunStep | exporter.py:104-113 | one round of the loop extends the requested list by the next URL and the written files by its page |
| Exporter.GitBookExporter.ProcessPage | exporter.py:107-113 | one page: a failed fetch or a page without a region leaves the files alone; otherwise both files are written |
| Exporter.StepSavedFiles | exporter.py:111-113 | after saving, the page's two files hold its HTML and its Markdown |
| Exporter.LastSavedPageFiles | exporter.py:104-113 | the last URL of a run, when it has content, leaves its HTML and Markdown in its two files |
| Exporter.SavedPageFiles | exporter.py:104-113 | any URL of a run that has content leaves its HTML and Markdown in its two files when no later URL of the run writes either file |
| Exporter.ExportedKeys | exporter.py:104-113 | the files after the run are the old ones plus exactly the files of the saved pages |
| Exporter.WrittenIff | exporter.py:104-113 | a file is written iff some URL of the run has content and maps to that file |
| Urls.Parse | debug_links.py:11 | definition of `urlparse` (no contract of its own; its properties are the lemmas below) |
| Urls.CleanUrl | debug_links.py:10-12 | definition of `clean_url`: scheme, `://`, netloc and path of the parse (no contract of its own; see the CleanUrl lemmas) |
| Urls.IsInternal | debug_links.py:14-15 | definition of `is_internal`: equality of the parsed netloc with the domain (no contract of its own; see InternalIffSameHost) |
| Urls.ParseWellFormed | debug_links.py:11 | the parsed scheme is empty or a lowercase valid scheme; the netloc holds no `/`, `?` or `#`; the path holds no `?` or `#` and starts with `/` whenever there is a netloc; for the schemes that take params its last segment holds no `;`; neither netloc nor path holds tab, CR or LF |
| Urls.CleanUrlPreserves | debug_links.py:10-12 | for a URL that has a scheme and, when it has no netloc, an empty path or one starting with `/`: the cleaned URL parses to the scheme, netloc and path of the original, path verbatim including a trailing `/`, and no params, query or fragment |
| Urls.CleanUrlHasNoQueryOrFragment | debug_links.py:10-12 | the cleaned URL contains no `?` and no `#` |
| Urls.CleanUrlIgnoresQueryAndFragment | debug_links.py:10-12 | URLs that differ only in a query or fragment suffix clean to the same URL |
| Urls.ParseAppendTail | debug_links.py:11 | appending a query or fragment suffix does not change the scheme, netloc or path |
| Urls.CleanUrlIdempotent | debug_links.py:10-12 | cleaning a URL that has a scheme twice gives the same result as once |
| Urls.CleanUrlGrowsWithoutScheme | debug_links.py:10-12 | without a scheme and a netloc, cleaning again prepends another `://` |
| Urls.NetlocOfAbsolute | debug_links.py:15 | the netloc of `scheme://host…` is exactly `host`, and its path is the rest when the rest has no query, fragment or params |
| Urls.InternalIffSameHost | debug_links.py:14-15 | `scheme://host…` is internal iff `host` equals the domain, compared exactly (case and port included) |
| DebugLinks.CollectNavLinks | debug_links.py:23-32 | no links when the page has no `nav`; otherwise the links are those of the anchors below the first `nav`, in order |
| DebugLinks.NavLinks | debug_links.py:26-32 | there are never more links than anchors |
| DebugLinks.NavLinksAppend | debug_links.py:27-32 | the links keep document order: the links of more anchors are those of the first ones followed by those of the rest |
| DebugLinks.NavLinksIff | debug_links.py:27-32 | a string is a collected link iff some anchor resolves to an internal URL that cleans to it |
| DebugLinks.NavLinksAllInternal | debug_links.py:27-32 | when every anchor is internal, every anchor yields its cleaned URL, in order and with duplicates |
| DebugLinks.CleanedAll | debug_links.py:27-32 | one cleaned URL per anchor |
| DebugLinks.NavLinkHost | debug_links.py:27-32 | every collected link has the page's domain as its netloc |
| Dom.HrefsComplete | debug_links.py:27 | every anchor of the page with an `href` is visited |
| Dom.HrefsAppend | debug_links.py:27 | anchors are visited in document order |
| Dom.HrefsSound | debug_links.py:27 | every visited `href` belongs to an anchor of the page |
| DebugLinks.FindExpected | debug_links.py:49-61 | when found, the result is the first anchor, in document order, whose resolved and cleaned URL is the expected one; when not found, no anchor leads there |

## Left out

- The network: the session, its `User-Agent` header and `get_soup`'s request and status check become the `fetch` parameter. The same goes for the module-level requests of `debug_links.py`.
- The site loader's discovery becomes the `load` parameter. Only the `source` of each document is kept.
- HTML parsing and the exact text `str()` prints for a tag are not modelled. Tags carry only a name, an id, classes and an `href`. Text nodes are printed as they are, without escaping.
- `markdownify` and `urljoin` are the `render` and `resolve` parameters. The model states nothing about their output.
- `os.makedirs` and `open`/`write` are modelled as updates of the `files` map. Directory creation, encodings and I/O errors are not modelled.
- `time.sleep` and every `print` have no effect in the model.
- `urlparse` is not modelled in two places: the `ValueError` for malformed IPv6 brackets, and the NFKC check on the netloc. The model's parse is total.
- `main.py`, `debug_sidebar.py` and `debug_html.py` are not part of this model. Neither is the sidebar fallback of `debug_links.py` (lines 39-44), which only prints.
- DebugLinks.FindExpected: returns the position of the matching anchor instead of printing the tag and its parents (lines 54-58).
- DebugLinks.CollectNavLinks: the script's fixed page URL and the `domain` it derives from it (line 19) are parameters.
- Exporter.GitBookExporter.ExtractContent: removes the first remaining `script`/`style`/`nav` in document order until none is left. The source iterates over the list `find_all` computed beforehand. Both end with the same tree, and the in-place mutation of the caller's tree is not modelled.
- Exporter.GitBookExporter.SaveContent: writes at the corrected paths of `Paths.LocalPath` (see Findings). For a URL path starting with `//` the code writes `/name.html` and `/name.md` at the filesystem root instead; on every other URL the two agree (`Exporter.PageFilesAgreeAsWritten`).
- Exporter.GitBookExporter.ProcessPage: saves through `SaveContent`, so the same difference applies for URL paths starting with `//`.
- Exporter.GitBookExporter.RunStep: saves through `ProcessPage`, so the same difference applies for URL paths starting with `//`.
- Exporter.GitBookExporter.Run: saves pages at the corrected paths of `Paths.LocalPath` (see Findings), not at the as-written ones, for URL paths starting with `//`.
- Urls.CleanUrlPreserves: requires a scheme and, without a netloc, a path that is empty or starts with `/`. Otherwise the cleaned URL does not parse back to the same parts: `mailto:x` cleans to `mailto://x`, whose netloc is `x`.
- Exporter.Settings: the default `output_dir="output"` of the constructor is not modelled; callers always pass the output directory.
- Exporter.GitBookExporter.constructor: likewise takes the output directory as an argument without the `"output"` default.
- Urls.CleanUrlIdempotent: requires a non-empty scheme. For a URL with neither scheme nor netloc, cleaning again adds another `://` (`Urls.CleanUrlGrowsWithoutScheme`). A URL without a scheme but with a netloc grows too, since `//host/a` cleans to `://host/a` and then to `://://host/a`; no lemma states that case.
- DebugLinks.NavLinkHost: requires the resolved URLs to have a scheme and a non-empty `domain`. `urljoin` against the script's absolute page URL always gives a scheme, and the domain derived from that fixed URL is non-empty, but `resolve` and the domain are parameters here.
- Files are keyed by path strings. `.` and `..` segments and other aliases of one file are not resolved, so `/a/./b` and `/a/b` are two keys for one file on disk, and a URL path with enough `..` segments still leaves the output directory under both mappings. `Exporter.SavedPageFiles`, `Exporter.WrittenIff` and `Exporter.PageFilesDistinct` hold per path string, not per file on disk.

## Findings

| source | as written | input that shows it | evidently intended | confidence | as-written member | corrected member |
|---|---|---|---|---|---|---|
| exporter.py:59-60 | only one leading `/` is removed from the URL path, so a path starting with `//` keeps an absolute directory, and `os.path.join` at lines 70-71 then discards the output directory | the URL `https://host//a` has the path `//a`; its files are `/a.html` and `/a.md` at the filesystem root | no URL path makes a page's file name absolute: each file name starts with `<output_dir>/html/` or `<output_dir>/md/` | not executed | Paths.DoubleSlashEscapesAsWritten | Paths.DoubleSlashStaysInside |
