/** URLs as the debug script and the exporter see them: `urllib.parse.urlparse`
    splits a string into the six components of section 3 of RFC 3986 (with
    `;params` split off the last path segment), `clean_url` rebuilds
    `scheme://netloc + path`, and `is_internal` compares network locations.
    The splitting follows CPython 3.12's `urlsplit`/`urlparse`. */
module Urls {
  import opened Text

  /** The `ParseResult` six-tuple. */
  datatype Url = Url(scheme: string, netloc: string, path: string, params: string, query: string, fragment: string)
  {
    /** The f-string of `clean_url`: `{scheme}://{netloc}{path}`. */
    function Cleaned(): string {
      scheme + "://" + netloc + path
    }
  }

  predicate IsAsciiAlpha(c: char) {
    'a' <= c <= 'z' || 'A' <= c <= 'Z'
  }

  /** `scheme_chars`: ASCII letters, digits, `+`, `-` and `.`. */
  predicate IsSchemeChar(c: char) {
    IsAsciiAlpha(c) || '0' <= c <= '9' || c == '+' || c == '-' || c == '.'
  }

  /** A scheme `urlsplit` accepts: non-empty, starting with a letter, scheme characters only. */
  predicate ValidScheme(s: string) {
    s != [] && IsAsciiAlpha(s[0]) && forall i :: 0 <= i < |s| ==> IsSchemeChar(s[i])
  }

  /** `scheme in uses_params`: the schemes for which `urlparse` splits off `;params`. */
  predicate UsesParams(scheme: string) {
    scheme in {"", "ftp", "hdl", "prospero", "http", "imap", "https", "shttp",
               "rtsp", "rtsps", "rtspu", "sip", "sips", "mms", "sftp", "tel"}
  }

  /** The characters that end a network location. */
  const NetlocStops: set<char> := {'/', '?', '#'}

  /** `_UNSAFE_URL_BYTES_TO_REMOVE`. */
  const Unsafe: set<char> := {'\t', '\r', '\n'}

  /** `_WHATWG_C0_CONTROL_OR_SPACE`: U+0000 to U+001F and the space. */
  predicate IsC0OrSpace(c: char) {
    c <= ' '
  }

  function LStripC0(s: string): (r: string)
    ensures |r| <= |s| && r == s[|s| - |r|..]
    ensures r == [] || !IsC0OrSpace(r[0])
  {
    if s != [] && IsC0OrSpace(s[0]) then LStripC0(s[1..]) else s
  }

  function RemoveUnsafe(s: string): string {
    if s == [] then "" else (if s[0] in Unsafe then "" else [s[0]]) + RemoveUnsafe(s[1..])
  }

  /** What `urlsplit` does to its argument before splitting it. */
  function Sanitize(s: string): string {
    RemoveUnsafe(LStripC0(s))
  }

  /** The scheme, lower-cased, and what follows its colon; `("", s)` when `s`
      has no valid scheme. */
  function SplitScheme(s: string): (string, string) {
    var pre := TakeUntil(s, {':'});
    if |pre| < |s| && ValidScheme(pre) then (Lower(pre), s[|pre| + 1..]) else ("", s)
  }

  /** `_splitnetloc` after a leading `//`; `("", rest)` without one. */
  function SplitNetloc(rest: string): (string, string) {
    if StartsWith(rest, "//") then (TakeUntil(rest[2..], NetlocStops), DropUntil(rest[2..], NetlocStops))
    else ("", rest)
  }

  /** `s.split(c, 1)` when `c` occurs in `s`, else `(s, "")`. */
  function SplitOn(s: string, c: char): (string, string) {
    var d := DropUntil(s, {c});
    (TakeUntil(s, {c}), if d == [] then "" else d[1..])
  }

  /** `_splitparams`: the first `;` of the last path segment starts the params. */
  function SplitParams(path: string): (string, string) {
    var (head, seg) := SplitLastSlash(path);
    var afterSemicolon := DropUntil(seg, {';'});
    if afterSemicolon == [] then (path, "") else (head + TakeUntil(seg, {';'}), afterSemicolon[1..])
  }

  /** `urlparse(s)`. */
  function Parse(s: string): Url {
    var (scheme, afterScheme) := SplitScheme(Sanitize(s));
    ParseAfterScheme(scheme, afterScheme)
  }

  /** The rest of `urlparse` once the scheme is split off. */
  function ParseAfterScheme(scheme: string, afterScheme: string): Url {
    var (netloc, afterNetloc) := SplitNetloc(afterScheme);
    ParseAfterNetloc(scheme, netloc, afterNetloc)
  }

  /** The rest of `urlparse` once the network location is split off: fragment
      first, then query, then params. */
  function ParseAfterNetloc(scheme: string, netloc: string, afterNetloc: string): Url {
    var (beforeFragment, fragment) := SplitOn(afterNetloc, '#');
    var (path0, query) := SplitOn(beforeFragment, '?');
    var (path, params) := if UsesParams(scheme) && ';' in path0 then SplitParams(path0) else (path0, "");
    Url(scheme, netloc, path, params, query, fragment)
  }

  /** `clean_url`: scheme, `://`, network location and path, nothing else. */
  function CleanUrl(s: string): string {
    Parse(s).Cleaned()
  }

  /** `is_internal`: exact, case- and port-sensitive comparison of network locations. */
  predicate IsInternal(s: string, domain: string) {
    Parse(s).netloc == domain
  }


  // ---------------------------------------------------------------------------
  // Sanitising

  lemma {:induction false} RemoveUnsafeShape(s: string)
    ensures !ContainsAny(RemoveUnsafe(s), Unsafe) && CharsIn(RemoveUnsafe(s), s)
  {
    if s != [] {
      RemoveUnsafeShape(s[1..]);
      var h := if s[0] in Unsafe then "" else [s[0]];
      assert RemoveUnsafe(s) == h + RemoveUnsafe(s[1..]);
      assert s == [s[0]] + s[1..];
    }
  }

  lemma SanitizeShape(s: string)
    ensures !ContainsAny(Sanitize(s), Unsafe) && CharsIn(Sanitize(s), s)
  {
    var l := LStripC0(s);
    RemoveUnsafeShape(l);
    assert s == s[..|s| - |l|] + l;
  }

  lemma {:induction false} RemoveUnsafeAppend(a: string, b: string)
    ensures RemoveUnsafe(a + b) == RemoveUnsafe(a) + RemoveUnsafe(b)
  {
    if a == [] {
      assert a + b == b;
    } else {
      assert (a + b)[0] == a[0];
      assert (a + b)[1..] == a[1..] + b;
      RemoveUnsafeAppend(a[1..], b);
    }
  }

  lemma {:induction false} RemoveUnsafeIdentity(s: string)
    requires !ContainsAny(s, Unsafe)
    ensures RemoveUnsafe(s) == s
  {
    if s != [] {
      assert s == [s[0]] + s[1..];
      assert s[0] in s;
      assert !ContainsAny(s[1..], Unsafe);
      RemoveUnsafeIdentity(s[1..]);
    }
  }

  lemma {:induction false} LStripC0Append(a: string, b: string)
    requires b != [] && !IsC0OrSpace(b[0])
    ensures LStripC0(a + b) == LStripC0(a) + b
  {
    if a == [] {
      assert a + b == b;
    } else {
      assert (a + b)[0] == a[0];
      assert (a + b)[1..] == a[1..] + b;
      if IsC0OrSpace(a[0]) {
        LStripC0Append(a[1..], b);
      }
    }
  }

  /** Text appended after a character that is neither a control character nor
      a space is sanitised on its own. */
  lemma SanitizeAppend(a: string, b: string)
    requires b != [] && !IsC0OrSpace(b[0])
    ensures Sanitize(a + b) == Sanitize(a) + RemoveUnsafe(b)
  {
    LStripC0Append(a, b);
    RemoveUnsafeAppend(LStripC0(a), b);
  }

  lemma SanitizeIdentity(s: string)
    requires !ContainsAny(s, Unsafe)
    requires s == [] || !IsC0OrSpace(s[0])
    ensures Sanitize(s) == s
  {
    RemoveUnsafeIdentity(s);
  }

  /** Removing unsafe characters keeps a first character that is not unsafe. */
  lemma RemoveUnsafeHead(b: string)
    requires b != [] && b[0] !in Unsafe
    ensures RemoveUnsafe(b) == [b[0]] + RemoveUnsafe(b[1..])
  {
  }

  lemma AvoidsSub(x: string, y: string, cs: set<char>)
    requires CharsIn(x, y) && !ContainsAny(y, cs)
    ensures !ContainsAny(x, cs)
  {
  }

  // ---------------------------------------------------------------------------
  // What the components of a parse always look like

  /** Empty, or a valid scheme already in lower case. */
  predicate SchemeShaped(s: string) {
    s == [] || (ValidScheme(s) && Lower(s) == s)
  }

  /** The shape of every `urlparse` result: a lower-case valid scheme or none;
      a network location without `/`, `?`, `#`; a path without `?` or `#` that
      starts with `/` whenever a network location was present; no `;` left in
      the last segment when params were split; no tab or newline anywhere. */
  predicate WellFormed(u: Url) {
    && SchemeShaped(u.scheme)
    && !ContainsAny(u.netloc, NetlocStops) && !ContainsAny(u.netloc, Unsafe)
    && '?' !in u.path && '#' !in u.path && !ContainsAny(u.path, Unsafe)
    && (u.netloc != [] ==> u.path == [] || u.path[0] == '/')
    && (UsesParams(u.scheme) ==> ';' !in SplitLastSlash(u.path).1)
  }

  lemma SchemeCharsSafe(scheme: string)
    requires ValidScheme(scheme)
    ensures !ContainsAny(scheme, Unsafe) && !ContainsAny(scheme, NetlocStops)
    ensures ':' !in scheme && '?' !in scheme && '#' !in scheme
  {
    forall x | x in scheme ensures x !in Unsafe && x !in NetlocStops && x != ':' {
      var i :| 0 <= i < |scheme| && scheme[i] == x;
      assert IsSchemeChar(scheme[i]);
    }
  }

  lemma SplitSchemeShape(s: string)
    ensures SchemeShaped(SplitScheme(s).0)
    ensures SplitScheme(s).0 == [] ==> SplitScheme(s).1 == s
    ensures CharsIn(SplitScheme(s).1, s)
  {
    var pre := TakeUntil(s, {':'});
    if |pre| < |s| && ValidScheme(pre) {
      LowerIdempotent(pre);
      var l := Lower(pre);
      assert IsAsciiAlpha(l[0]);
      assert forall i :: 0 <= i < |l| ==> IsSchemeChar(l[i]) by {
        forall i | 0 <= i < |l| ensures IsSchemeChar(l[i]) {
          assert IsSchemeChar(pre[i]);
        }
      }
      assert s == s[..|pre| + 1] + s[|pre| + 1..];
    }
  }

  lemma SplitNetlocShape(rest: string)
    ensures !ContainsAny(SplitNetloc(rest).0, NetlocStops)
    ensures SplitNetloc(rest).0 != [] ==> SplitNetloc(rest).1 == [] || SplitNetloc(rest).1[0] in NetlocStops
    ensures CharsIn(SplitNetloc(rest).0, rest) && CharsIn(SplitNetloc(rest).1, rest)
  {
    if StartsWith(rest, "//") {
      TakeUntilStopFree(rest[2..], NetlocStops);
      SplitCharsIn(rest[2..], NetlocStops);
      assert rest == rest[..2] + rest[2..];
    }
  }

  lemma SplitOnShape(s: string, c: char)
    ensures c !in SplitOn(s, c).0
    ensures CharsIn(SplitOn(s, c).0, s) && CharsIn(SplitOn(s, c).1, s)
    ensures SplitOn(s, c).0 == [] || SplitOn(s, c).0[0] == s[0]
    ensures c !in s ==> SplitOn(s, c) == (s, "")
  {
    TakeUntilStopFree(s, {c});
    SplitCharsIn(s, {c});
    DropUntilEmpty(s, {c});
    var d := DropUntil(s, {c});
    if d != [] {
      assert d == [d[0]] + d[1..];
    }
  }

  lemma SplitOnAbsent(s: string, c: char)
    requires c !in s
    ensures SplitOn(s, c) == (s, "")
  {
    DropUntilEmpty(s, {c});
  }

  lemma SplitParamsShape(path: string)
    requires path != []
    ensures ';' !in SplitLastSlash(SplitParams(path).0).1
    ensures CharsIn(SplitParams(path).0, path)
    ensures path[0] == '/' ==> SplitParams(path).0 != [] && SplitParams(path).0[0] == '/'
  {
    var (head, seg) := SplitLastSlash(path);
    DropUntilEmpty(seg, {';'});
    if DropUntil(seg, {';'}) != [] {
      var t := TakeUntil(seg, {';'});
      TakeUntilStopFree(seg, {';'});
      SplitCharsIn(seg, {';'});
      assert '/' !in t;
      SplitLastSlashUnique(head, t);
      if path[0] == '/' {
        assert head != [];
        assert head[0] == path[0];
      }
    }
  }

  lemma ParseWellFormed(s: string)
    ensures WellFormed(Parse(s))
  {
    var san := Sanitize(s);
    SanitizeShape(s);
    SplitSchemeShape(san);
    var (scheme, afterScheme) := SplitScheme(san);
    AvoidsSub(afterScheme, san, Unsafe);
    ParseAfterSchemeWellFormed(scheme, afterScheme);
  }

  lemma ParseAfterSchemeWellFormed(scheme: string, afterScheme: string)
    requires SchemeShaped(scheme) && !ContainsAny(afterScheme, Unsafe)
    ensures WellFormed(ParseAfterScheme(scheme, afterScheme))
  {
    SplitNetlocShape(afterScheme);
    var (netloc, afterNetloc) := SplitNetloc(afterScheme);
    AvoidsSub(netloc, afterScheme, Unsafe);
    AvoidsSub(afterNetloc, afterScheme, Unsafe);
    ParseAfterNetlocWellFormed(scheme, netloc, afterNetloc);
  }

  lemma ParseAfterNetlocWellFormed(scheme: string, netloc: string, afterNetloc: string)
    requires SchemeShaped(scheme)
    requires !ContainsAny(netloc, NetlocStops) && !ContainsAny(netloc, Unsafe)
    requires !ContainsAny(afterNetloc, Unsafe)
    requires netloc != [] ==> afterNetloc == [] || afterNetloc[0] in NetlocStops
    ensures WellFormed(ParseAfterNetloc(scheme, netloc, afterNetloc))
  {
    SplitOnShape(afterNetloc, '#');
    var beforeFragment := SplitOn(afterNetloc, '#').0;
    AvoidsSub(beforeFragment, afterNetloc, Unsafe);
    SplitOnShape(beforeFragment, '?');
    var path0 := SplitOn(beforeFragment, '?').0;
    AvoidsSub(path0, beforeFragment, Unsafe);
    assert '#' !in path0;
    assert netloc != [] ==> path0 == [] || path0[0] == '/';
    ParamsWellFormed(scheme, path0);
  }

  /** What the params split leaves as path keeps the shape of the text before it. */
  lemma ParamsWellFormed(scheme: string, path0: string)
    requires '?' !in path0 && '#' !in path0 && !ContainsAny(path0, Unsafe)
    ensures var path := if UsesParams(scheme) && ';' in path0 then SplitParams(path0).0 else path0;
      && '?' !in path && '#' !in path && !ContainsAny(path, Unsafe)
      && (path0 == [] || path0[0] == '/' ==> path == [] || path[0] == '/')
      && (UsesParams(scheme) ==> ';' !in SplitLastSlash(path).1)
  {
    if UsesParams(scheme) && ';' in path0 {
      SplitParamsShape(path0);
      AvoidsSub(SplitParams(path0).0, path0, Unsafe);
    } else {
      assert CharsIn(SplitLastSlash(path0).1, path0);
    }
  }

  // ---------------------------------------------------------------------------
  // clean_url

  lemma SplitSchemeOfAbsolute(scheme: string, rest: string)
    requires ValidScheme(scheme)
    ensures SplitScheme(scheme + [':'] + rest) == (Lower(scheme), rest)
  {
    SchemeCharsSafe(scheme);
    assert !ContainsAny(scheme, {':'});
    TakeUntilAtStop(scheme, ':', rest, {':'});
  }

  lemma SplitNetlocOfSlashes(netloc: string, path: string)
    requires !ContainsAny(netloc, NetlocStops)
    ensures SplitNetloc("//" + netloc + path)
         == (netloc + TakeUntil(path, NetlocStops), DropUntil(path, NetlocStops))
  {
    var rest := "//" + netloc + path;
    assert rest[2..] == netloc + path;
    TakeUntilAppendNone(netloc, path, NetlocStops);
  }

  /** A path whose last segment holds no `;` loses nothing to `_splitparams`. */
  lemma SplitParamsNoop(p1: string, p2: string)
    requires p2 == [] || p2[0] == '/'
    requires ';' !in SplitLastSlash(p1 + p2).1
    ensures p2 != [] ==> SplitParams(p2) == (p2, "")
  {
    if p2 != [] {
      var (h2, t2) := SplitLastSlash(p2);
      assert h2 != [];
      assert p1 + p2 == (p1 + h2) + t2;
      SplitLastSlashUnique(p1 + h2, t2);
      DropUntilEmpty(t2, {';'});
    }
  }

  lemma CleanedSanitized(u: Url)
    requires WellFormed(u) && u.scheme != []
    ensures Sanitize(u.Cleaned()) == u.Cleaned()
  {
    SchemeCharsSafe(u.scheme);
    var c := u.Cleaned();
    assert !ContainsAny(c, Unsafe) by {
      assert !ContainsAny("://", Unsafe);
    }
    assert c[0] == u.scheme[0];
    SanitizeIdentity(c);
  }

  lemma ReparseScheme(u: Url)
    requires WellFormed(u) && u.scheme != []
    ensures Parse(u.Cleaned()) == ParseAfterScheme(u.scheme, "//" + u.netloc + u.path)
  {
    var rest := "//" + u.netloc + u.path;
    var c := u.Cleaned();
    assert c == u.scheme + [':'] + rest;
    CleanedSanitized(u);
    SplitSchemeOfAbsolute(u.scheme, rest);
    assert SplitScheme(Sanitize(c)) == (u.scheme, rest);
    assert Parse(c) == ParseAfterScheme(SplitScheme(Sanitize(c)).0, SplitScheme(Sanitize(c)).1);
  }

  lemma ReparseTail(u: Url, p1: string, p2: string)
    requires WellFormed(u) && u.path == p1 + p2
    requires p2 == [] || p2[0] in NetlocStops
    ensures ParseAfterNetloc(u.scheme, u.netloc + p1, p2) == Url(u.scheme, u.netloc + p1, p2, "", "", "")
  {
    assert CharsIn(p2, u.path);
    assert '#' !in p2 && '?' !in p2;
    SplitOnAbsent(p2, '#');
    SplitOnAbsent(p2, '?');
    if UsesParams(u.scheme) && p2 != [] {
      assert p2[0] in p2;
      SplitParamsNoop(p1, p2);
    }
    ParseAfterNetlocUnsplit(u.scheme, u.netloc + p1, p2);
  }

  lemma ReparseCleaned(u: Url)
    requires WellFormed(u) && u.scheme != []
    ensures var p1 := TakeUntil(u.path, NetlocStops);
      var p2 := DropUntil(u.path, NetlocStops);
      Parse(u.Cleaned()) == Url(u.scheme, u.netloc + p1, p2, "", "", "")
  {
    var p1 := TakeUntil(u.path, NetlocStops);
    var p2 := DropUntil(u.path, NetlocStops);
    ReparseScheme(u);
    SplitNetlocOfSlashes(u.netloc, u.path);
    ReparseTail(u, p1, p2);
  }

  lemma CleanedIdempotent(u: Url)
    requires WellFormed(u) && u.scheme != []
    ensures Parse(u.Cleaned()).Cleaned() == u.Cleaned()
  {
    ReparseCleaned(u);
    CleanedResplit(u, TakeUntil(u.path, NetlocStops), DropUntil(u.path, NetlocStops));
  }

  lemma CleanedResplit(u: Url, p1: string, p2: string)
    requires u.path == p1 + p2
    ensures Url(u.scheme, u.netloc + p1, p2, "", "", "").Cleaned() == u.Cleaned()
  {
  }

  /** Cleaning an absolute URL twice gives what cleaning it once gives. */
  lemma CleanUrlIdempotent(s: string)
    requires Parse(s).scheme != []
    ensures CleanUrl(CleanUrl(s)) == CleanUrl(s)
  {
    ParseWellFormed(s);
    CleanedIdempotent(Parse(s));
  }

  /** The cleaned URL carries the scheme, network location and path verbatim
      (a trailing slash included) and no params, query or fragment, whenever
      the path cannot be mistaken for a network location. */
  lemma CleanUrlPreserves(s: string)
    requires Parse(s).scheme != []
    requires Parse(s).netloc != [] || Parse(s).path == [] || Parse(s).path[0] == '/'
    ensures var u := Parse(s);
      Parse(CleanUrl(s)) == Url(u.scheme, u.netloc, u.path, "", "", "")
  {
    var u := Parse(s);
    ParseWellFormed(s);
    ReparseCleaned(u);
    assert TakeUntil(u.path, NetlocStops) == [];
  }

  lemma CleanedHasNoQueryOrFragment(u: Url)
    requires WellFormed(u)
    ensures '?' !in u.Cleaned() && '#' !in u.Cleaned()
  {
    if u.scheme != [] {
      SchemeCharsSafe(u.scheme);
    }
  }

  /** No `?` and no `#` ever appears in a cleaned URL, so it has no query and
      no fragment. */
  lemma CleanUrlHasNoQueryOrFragment(s: string)
    ensures '?' !in CleanUrl(s) && '#' !in CleanUrl(s)
  {
    ParseWellFormed(s);
    CleanedHasNoQueryOrFragment(Parse(s));
  }

  // ---------------------------------------------------------------------------
  // Query and fragment do not reach the scheme, network location or path

  /** The components `clean_url` keeps. */
  predicate SameBase(u: Url, v: Url) {
    u.scheme == v.scheme && u.netloc == v.netloc && u.path == v.path
  }

  lemma SplitSchemeAppendTail(x: string, t: string)
    requires t != [] && (t[0] == '?' || t[0] == '#')
    ensures SplitScheme(x + t) == (SplitScheme(x).0, SplitScheme(x).1 + t)
  {
    if ContainsAny(x, {':'}) {
      SplitSchemeAppendAfterColon(x, t);
    } else {
      SplitSchemeAppendNoColon(x, t);
    }
  }

  lemma SplitSchemeAppendAfterColon(x: string, t: string)
    requires ContainsAny(x, {':'})
    ensures SplitScheme(x + t) == (SplitScheme(x).0, SplitScheme(x).1 + t)
  {
    var pre := TakeUntil(x, {':'});
    TakeUntilAppendFound(x, t, {':'});
    DropUntilEmpty(x, {':'});
    SplitSchemeAtColon(x, pre);
    SplitSchemeAtColon(x + t, pre);
    DropAppend(x, t, |pre| + 1);
  }

  /** `SplitScheme` once the text before the first colon is known. */
  lemma SplitSchemeAtColon(s: string, pre: string)
    requires pre == TakeUntil(s, {':'}) && |pre| < |s|
    ensures ValidScheme(pre) ==> SplitScheme(s) == (Lower(pre), s[|pre| + 1..])
    ensures !ValidScheme(pre) ==> SplitScheme(s) == ("", s)
  {
  }

  lemma SplitSchemeAppendNoColon(x: string, t: string)
    requires !ContainsAny(x, {':'})
    requires t != [] && (t[0] == '?' || t[0] == '#')
    ensures SplitScheme(x + t) == ("", x + t) && SplitScheme(x) == ("", x)
  {
    DropUntilEmpty(x, {':'});
    SplitSchemeRejects(x);
    TakeUntilAppendNone(x, t, {':'});
    TakeUntilHead(t, {':'});
    NotSchemeAfter(x, TakeUntil(t, {':'}));
    SplitSchemeRejects(x + t);
  }

  /** `SplitScheme` finds no scheme when there is no colon or the text before
      it is not a valid scheme. */
  lemma SplitSchemeRejects(s: string)
    requires |TakeUntil(s, {':'})| == |s| || !ValidScheme(TakeUntil(s, {':'}))
    ensures SplitScheme(s) == ("", s)
  {
  }

  lemma NotSchemeAfter(x: string, head: string)
    requires head != [] && !IsSchemeChar(head[0])
    ensures !ValidScheme(x + head)
  {
    assert (x + head)[|x|] == head[0];
  }

  lemma SplitNetlocAppendTail(x: string, t: string)
    requires t != [] && (t[0] == '?' || t[0] == '#')
    ensures SplitNetloc(x + t) == (SplitNetloc(x).0, SplitNetloc(x).1 + t)
  {
    StartsWithDoubleSlash(x);
    StartsWithDoubleSlash(x + t);
    if StartsWith(x, "//") {
      NetlocAppendTail(x, t);
    } else {
      assert |x| >= 2 ==> (x + t)[0] == x[0] && (x + t)[1] == x[1];
      assert |x| == 1 ==> (x + t)[1] == t[0];
      assert |x| == 0 ==> (x + t)[0] == t[0];
      assert !StartsWith(x + t, "//");
    }
  }

  lemma NetlocAppendTail(x: string, t: string)
    requires StartsWith(x, "//") && StartsWith(x + t, "//")
    requires t != [] && (t[0] == '?' || t[0] == '#')
    ensures SplitNetloc(x + t) == (SplitNetloc(x).0, SplitNetloc(x).1 + t)
  {
    var y := x[2..];
    assert (x + t)[2..] == y + t;
    if ContainsAny(y, NetlocStops) {
      TakeUntilAppendFound(y, t, NetlocStops);
    } else {
      TakeUntilAppendNone(y, t, NetlocStops);
      DropUntilEmpty(y, NetlocStops);
      assert TakeUntil(t, NetlocStops) == [];
      assert DropUntil(t, NetlocStops) == t;
      assert y + [] == y && [] + t == t;
    }
  }

  /** The text `ParseAfterNetloc` takes as path before params: everything up
      to the first `?` or `#`. */
  lemma PathBeforeTail(r: string, t: string)
    requires '?' !in r && '#' !in r
    requires t != [] && (t[0] == '?' || t[0] == '#')
    ensures SplitOn(SplitOn(r + t, '#').0, '?').0 == r
    ensures SplitOn(SplitOn(r, '#').0, '?').0 == r
  {
    SplitOnAbsent(r, '#');
    SplitOnAbsent(r, '?');
    if t[0] == '#' {
      FragmentTail(r, t);
    } else {
      QueryTail(r, t);
    }
  }

  lemma FragmentTail(r: string, t: string)
    requires '#' !in r
    requires t != [] && t[0] == '#'
    ensures SplitOn(r + t, '#').0 == r
  {
    assert !ContainsAny(r, {'#'});
    assert r + t == r + ['#'] + t[1..];
    TakeUntilAtStop(r, '#', t[1..], {'#'});
  }

  lemma QueryTail(r: string, t: string)
    requires '?' !in r && '#' !in r
    requires t != [] && t[0] == '?'
    ensures SplitOn(SplitOn(r + t, '#').0, '?').0 == r
  {
    assert !ContainsAny(r, {'#'}) && !ContainsAny(r, {'?'});
    TakeUntilAppendNone(r, t, {'#'});
    var tq := TakeUntil(t, {'#'});
    assert tq != [] && tq[0] == '?';
    var b := SplitOn(r + t, '#').0;
    assert b == r + ['?'] + tq[1..];
    TakeUntilAtStop(r, '?', tq[1..], {'?'});
  }

  lemma ParseAfterNetlocAppendTail(scheme: string, netloc: string, r: string, t: string)
    requires '?' !in r && '#' !in r
    requires t != [] && (t[0] == '?' || t[0] == '#')
    ensures SameBase(ParseAfterNetloc(scheme, netloc, r + t), ParseAfterNetloc(scheme, netloc, r))
  {
    PathBeforeTail(r, t);
  }

  lemma ParseAfterSchemeAppendTail(scheme: string, r: string, t: string)
    requires '?' !in r && '#' !in r
    requires t != [] && (t[0] == '?' || t[0] == '#')
    ensures SameBase(ParseAfterScheme(scheme, r + t), ParseAfterScheme(scheme, r))
  {
    SplitNetlocAppendTail(r, t);
    SplitNetlocShape(r);
    var rest := SplitNetloc(r).1;
    assert CharsIn(rest, r);
    ParseAfterNetlocAppendTail(scheme, SplitNetloc(r).0, rest, t);
  }

  /** Whatever follows a `?` or `#` placed after the path leaves the scheme,
      network location and path of the parse unchanged. */
  lemma ParseAppendTail(a: string, t: string)
    requires '?' !in a && '#' !in a
    requires t != [] && (t[0] == '?' || t[0] == '#')
    ensures SameBase(Parse(a + t), Parse(a))
  {
    var scheme, r, t' := SplitSchemeBeforeTail(a, t);
    ParseViaScheme(a, scheme, r);
    ParseViaScheme(a + t, scheme, r + t');
    ParseAfterSchemeAppendTail(scheme, r, t');
  }

  /** The scheme split of a `?`- and `#`-free text followed by a tail: the
      sanitised tail is appended to what follows the scheme. */
  lemma SplitSchemeBeforeTail(a: string, t: string) returns (scheme: string, r: string, t': string)
    requires '?' !in a && '#' !in a
    requires t != [] && (t[0] == '?' || t[0] == '#')
    ensures SplitScheme(Sanitize(a)) == (scheme, r)
    ensures SplitScheme(Sanitize(a + t)) == (scheme, r + t')
    ensures '?' !in r && '#' !in r
    ensures t' != [] && (t'[0] == '?' || t'[0] == '#')
  {
    t' := SanitizeBeforeTail(a, t);
    SplitSchemeAppendTail(Sanitize(a), t');
    scheme, r := SplitScheme(Sanitize(a)).0, SplitScheme(Sanitize(a)).1;
    AfterSchemeFree(a, r);
  }

  lemma SanitizeBeforeTail(a: string, t: string) returns (t': string)
    requires t != [] && (t[0] == '?' || t[0] == '#')
    ensures Sanitize(a + t) == Sanitize(a) + t'
    ensures t' != [] && t'[0] == t[0]
  {
    t' := RemoveUnsafe(t);
    SanitizeAppend(a, t);
    RemoveUnsafeHead(t);
  }

  /** What follows the scheme of a `?`- and `#`-free text is free of them too. */
  lemma AfterSchemeFree(a: string, r: string)
    requires '?' !in a && '#' !in a
    requires r == SplitScheme(Sanitize(a)).1
    ensures '?' !in r && '#' !in r
  {
    SanitizeShape(a);
    SplitSchemeShape(Sanitize(a));
  }

  lemma ParseViaScheme(s: string, scheme: string, rest: string)
    requires SplitScheme(Sanitize(s)) == (scheme, rest)
    ensures Parse(s) == ParseAfterScheme(scheme, rest)
  {
  }

  /** URLs that differ only in their query or fragment have the same cleaned
      form: any two tails starting with `?` or `#` after the same `?`- and
      `#`-free prefix. */
  lemma CleanUrlIgnoresQueryAndFragment(a: string, t1: string, t2: string)
    requires '?' !in a && '#' !in a
    requires t1 != [] && (t1[0] == '?' || t1[0] == '#')
    requires t2 != [] && (t2[0] == '?' || t2[0] == '#')
    ensures CleanUrl(a + t1) == CleanUrl(a + t2) == CleanUrl(a)
  {
    ParseAppendTail(a, t1);
    ParseAppendTail(a, t2);
  }

  // ---------------------------------------------------------------------------
  // is_internal

  lemma AbsoluteFrontSafe(scheme: string, host: string)
    requires ValidScheme(scheme) && !ContainsAny(host, Unsafe)
    ensures Sanitize(scheme + "://" + host) == scheme + "://" + host
    ensures (scheme + "://" + host)[0] == scheme[0]
  {
    SchemeCharsSafe(scheme);
    assert !ContainsAny(scheme + "://" + host, Unsafe) by {
      assert !ContainsAny("://", Unsafe);
    }
    SanitizeIdentity(scheme + "://" + host);
  }

  /** Text after an already-sanitised front that starts with `/`, `?` or `#`
      only loses its tabs and newlines. */
  lemma SanitizeAfterClean(front: string, rest: string)
    requires Sanitize(front) == front
    requires rest == [] || rest[0] in NetlocStops
    ensures Sanitize(front + rest) == front + RemoveUnsafe(rest)
    ensures RemoveUnsafe(rest) == [] || RemoveUnsafe(rest)[0] in NetlocStops
  {
    if rest == [] {
      assert front + rest == front;
      assert RemoveUnsafe(rest) == [];
    } else {
      SanitizeBeforeStop(front, rest);
    }
  }

  lemma SanitizeBeforeStop(front: string, rest: string)
    requires Sanitize(front) == front
    requires rest != [] && rest[0] in NetlocStops
    ensures Sanitize(front + rest) == front + RemoveUnsafe(rest)
    ensures RemoveUnsafe(rest) != [] && RemoveUnsafe(rest)[0] == rest[0]
  {
    RemoveUnsafeHead(rest);
    SanitizeAppend(front, rest);
  }

  lemma NetlocAfterSlashes(scheme: string, host: string, tail: string)
    requires !ContainsAny(host, NetlocStops)
    requires tail == [] || tail[0] in NetlocStops
    ensures ParseAfterScheme(scheme, "//" + host + tail).netloc == host
    ensures '?' !in tail && '#' !in tail && ';' !in tail ==> ParseAfterScheme(scheme, "//" + host + tail).path == tail
  {
    SplitNetlocOfSlashes(host, tail);
    assert TakeUntil(tail, NetlocStops) == [];
    assert DropUntil(tail, NetlocStops) == tail;
    if '?' !in tail && '#' !in tail && ';' !in tail {
      SplitOnShape(tail, '#');
      SplitOnShape(tail, '?');
    }
  }

  lemma ColonSlashSlash(scheme: string, host: string, tail: string)
    ensures scheme + "://" + host + tail == scheme + [':'] + ("//" + host + tail)
  {
  }

  lemma NetlocOfAbsolute(scheme: string, host: string, rest: string)
    requires ValidScheme(scheme)
    requires !ContainsAny(host, NetlocStops) && !ContainsAny(host, Unsafe)
    requires rest == [] || rest[0] in NetlocStops
    ensures Parse(scheme + "://" + host + rest).netloc == host
    ensures !ContainsAny(rest, Unsafe) && '?' !in rest && '#' !in rest && ';' !in rest ==>
              Parse(scheme + "://" + host + rest).path == rest
  {
    var s := scheme + "://" + host + rest;
    var tail := RemoveUnsafe(rest);
    var after := "//" + host + tail;
    AbsoluteFrontSafe(scheme, host);
    SanitizeAfterClean(scheme + "://" + host, rest);
    ColonSlashSlash(scheme, host, tail);
    assert Sanitize(s) == scheme + [':'] + after;
    SplitSchemeOfAbsolute(scheme, after);
    assert Parse(s) == ParseAfterScheme(Lower(scheme), after);
    if !ContainsAny(rest, Unsafe) {
      RemoveUnsafeIdentity(rest);
    }
    NetlocAfterSlashes(Lower(scheme), host, tail);
  }

  /** `is_internal` of an absolute URL holds exactly when its host part,
      port included and letter case respected, is the domain. */
  lemma InternalIffSameHost(scheme: string, host: string, rest: string, domain: string)
    requires ValidScheme(scheme)
    requires !ContainsAny(host, NetlocStops) && !ContainsAny(host, Unsafe)
    requires rest == [] || rest[0] in NetlocStops
    ensures IsInternal(scheme + "://" + host + rest, domain) <==> host == domain
  {
    NetlocOfAbsolute(scheme, host, rest);
  }

  /** A path whose last segment holds no `;` has no params to split off. */
  lemma SplitParamsNone(p: string)
    requires ';' !in SplitLastSlash(p).1
    ensures SplitParams(p) == (p, "")
  {
    DropUntilEmpty(SplitLastSlash(p).1, {';'});
  }

  /** Putting `://` in front of a path keeps its last segment. */
  lemma LastSegmentAfterColonSlashes(path: string)
    ensures SplitLastSlash("://" + path).1 == SplitLastSlash(path).1
  {
    var (h, t) := SplitLastSlash(path);
    assert "://" + path == ("://" + h) + t;
    SplitLastSlashUnique("://" + h, t);
  }

  lemma ReparseSchemeless(u: Url)
    requires WellFormed(u) && u.scheme == [] && u.netloc == []
    ensures Parse(u.Cleaned()) == Url("", "", u.Cleaned(), "", "", "")
  {
    var c := u.Cleaned();
    assert c == "://" + u.path;
    SchemelessText(u.path);
    SchemelessSplit(c);
    ParseUnsplit(c);
    LastSegmentAfterColonSlashes(u.path);
    ParseAfterNetlocPlain(c);
  }

  /** `://` followed by a path that was already parsed out. */
  lemma SchemelessText(path: string)
    requires '?' !in path && '#' !in path && !ContainsAny(path, Unsafe)
    ensures var c := "://" + path;
      c[0] == ':' && '?' !in c && '#' !in c && Sanitize(c) == c
  {
    var c := "://" + path;
    assert c[0] == ':';
    assert !ContainsAny(c, Unsafe) by {
      assert !ContainsAny("://", Unsafe);
    }
    SanitizeIdentity(c);
  }

  /** Text starting with `:` has neither a scheme nor a network location. */
  lemma SchemelessSplit(c: string)
    requires c != [] && c[0] == ':'
    ensures SplitScheme(c) == ("", c) && SplitNetloc(c) == ("", c)
  {
    assert TakeUntil(c, {':'}) == "";
    assert !StartsWith(c, "//") by {
      assert |c| >= 2 ==> c[..2][0] == ':';
    }
  }

  lemma ParseUnsplit(c: string)
    requires Sanitize(c) == c && SplitScheme(c) == ("", c) && SplitNetloc(c) == ("", c)
    ensures Parse(c) == ParseAfterNetloc("", "", c)
  {
  }

  /** Text without `#` or `?`, and without `;` in its last segment, is all path. */
  lemma ParseAfterNetlocPlain(c: string)
    requires '#' !in c && '?' !in c && ';' !in SplitLastSlash(c).1
    ensures ParseAfterNetloc("", "", c) == Url("", "", c, "", "", "")
  {
    SplitOnAbsent(c, '#');
    SplitOnAbsent(c, '?');
    SplitParamsNone(c);
    ParseAfterNetlocUnsplit("", "", c);
  }

  lemma ParseAfterNetlocUnsplit(scheme: string, netloc: string, c: string)
    requires SplitOn(c, '#') == (c, "") && SplitOn(c, '?') == (c, "")
    requires UsesParams(scheme) && ';' in c ==> SplitParams(c) == (c, "")
    ensures ParseAfterNetloc(scheme, netloc, c) == Url(scheme, netloc, c, "", "", "")
  {
  }

  /** Without a scheme or network location `clean_url` is not idempotent:
      every application puts another `://` in front (`/a` becomes `:///a`,
      then `:///:///a`). */
  lemma CleanUrlGrowsWithoutScheme(s: string)
    requires Parse(s).scheme == [] && Parse(s).netloc == []
    ensures CleanUrl(CleanUrl(s)) == "://" + CleanUrl(s)
  {
    ParseWellFormed(s);
    CleanedGrowsSchemeless(Parse(s));
  }

  lemma CleanedGrowsSchemeless(u: Url)
    requires WellFormed(u) && u.scheme == [] && u.netloc == []
    ensures Parse(u.Cleaned()).Cleaned() == "://" + u.Cleaned()
  {
    ReparseSchemeless(u);
    SchemelessCleaned(u.Cleaned());
  }

  lemma SchemelessCleaned(p: string)
    ensures Url("", "", p, "", "", "").Cleaned() == "://" + p
  {
  }
}
