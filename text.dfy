/** String helpers shared by the URL, path and exporter models: Python's
    `find`/`split(c, 1)`, `rfind`, `startswith`/`endswith`, `lstrip`/`rstrip`
    of one character, ASCII `lower()`, and the code-point order that
    `sorted()` uses on `str`. */
module Text {

  datatype Option<+T> = None | Some(value: T)

  /** `p` is a prefix of `s` (Python's `s.startswith(p)`). */
  predicate StartsWith(s: string, p: string) {
    |p| <= |s| && s[..|p|] == p
  }

  /** `p` is a suffix of `s` (Python's `s.endswith(p)`). */
  predicate EndsWith(s: string, p: string) {
    |p| <= |s| && s[|s| - |p|..] == p
  }

  lemma StartsWithSlash(b: string)
    ensures StartsWith(b, "/") <==> b != [] && b[0] == '/'
  {
    if b != [] {
      assert b[..1][0] == b[0];
      if b[0] == '/' {
        assert b[..1] == "/";
      }
    }
  }

  lemma StartsWithDoubleSlash(b: string)
    ensures StartsWith(b, "//") <==> |b| >= 2 && b[0] == '/' && b[1] == '/'
  {
    if |b| >= 2 {
      assert b[..2][0] == b[0] && b[..2][1] == b[1];
      if b[0] == '/' && b[1] == '/' {
        assert b[..2] == "//";
      }
    }
  }

  lemma EndsWithSlash(a: string)
    ensures EndsWith(a, "/") <==> a != [] && a[|a| - 1] == '/'
  {
    if a != [] {
      assert a[|a| - 1..][0] == a[|a| - 1];
      if a[|a| - 1] == '/' {
        assert a[|a| - 1..] == "/";
      }
    }
  }

  lemma DropAppend(s: string, t: string, k: nat)
    requires k <= |s|
    ensures (s + t)[k..] == s[k..] + t
  {
  }

  /** The longest prefix of `s` holding no character of `stop`. */
  function TakeUntil(s: string, stop: set<char>): (r: string)
    ensures |r| <= |s| && r == s[..|r|]
    ensures |r| < |s| ==> s[|r|] in stop
  {
    if s == [] || s[0] in stop then "" else [s[0]] + TakeUntil(s[1..], stop)
  }

  lemma TakeUntilHead(s: string, stop: set<char>)
    requires s != [] && s[0] !in stop
    ensures TakeUntil(s, stop) != [] && TakeUntil(s, stop)[0] == s[0]
  {
  }

  /** What is left of `s` after `TakeUntil`: empty, or starting with a stop character. */
  function DropUntil(s: string, stop: set<char>): (r: string)
    ensures s == TakeUntil(s, stop) + r
    ensures r != [] ==> r[0] in stop
  {
    s[|TakeUntil(s, stop)|..]
  }

  /** Some character of `stop` occurs in `s`. */
  predicate ContainsAny(s: string, stop: set<char>) {
    exists c :: c in s && c in stop
  }

  /** Every character of `s` occurs in `t`. */
  predicate CharsIn(s: string, t: string) {
    forall c :: c in s ==> c in t
  }

  lemma {:induction false} TakeUntilStopFree(s: string, stop: set<char>)
    ensures !ContainsAny(TakeUntil(s, stop), stop)
  {
    if s != [] && s[0] !in stop {
      TakeUntilStopFree(s[1..], stop);
      assert TakeUntil(s, stop) == [s[0]] + TakeUntil(s[1..], stop);
    }
  }

  /** Both halves of a split consist of characters of the whole. */
  lemma SplitCharsIn(s: string, stop: set<char>)
    ensures CharsIn(TakeUntil(s, stop), s) && CharsIn(DropUntil(s, stop), s)
  {
  }

  /** The split point lies inside `s` exactly when `s` holds a stop character. */
  lemma DropUntilEmpty(s: string, stop: set<char>)
    ensures DropUntil(s, stop) == [] <==> !ContainsAny(s, stop)
    ensures !ContainsAny(s, stop) ==> TakeUntil(s, stop) == s
  {
    var t := TakeUntil(s, stop);
    if DropUntil(s, stop) != [] {
      assert s[|t|] in stop;
      assert s[|t|] in s;
    } else {
      TakeUntilStopFree(s, stop);
    }
  }

  /** Appending text to a string that already holds a stop character does not
      move the split point. */
  lemma {:induction false} TakeUntilAppendFound(s: string, t: string, stop: set<char>)
    requires ContainsAny(s, stop)
    ensures TakeUntil(s + t, stop) == TakeUntil(s, stop)
    ensures DropUntil(s + t, stop) == DropUntil(s, stop) + t
  {
    if s[0] !in stop {
      ContainsAnyTail(s, stop);
      TakeUntilAppendFound(s[1..], t, stop);
      TakeUntilConsAppend(s, t, stop);
    } else {
      assert (s + t)[0] == s[0];
    }
    DropAppend(s, t, |TakeUntil(s, stop)|);
  }

  lemma ContainsAnyTail(s: string, stop: set<char>)
    requires ContainsAny(s, stop) && s[0] !in stop
    ensures ContainsAny(s[1..], stop)
  {
    var c :| c in s && c in stop;
    assert s == [s[0]] + s[1..];
  }

  lemma TakeUntilConsAppend(s: string, t: string, stop: set<char>)
    requires s != [] && s[0] !in stop
    requires TakeUntil(s[1..] + t, stop) == TakeUntil(s[1..], stop)
    ensures TakeUntil(s + t, stop) == TakeUntil(s, stop)
  {
    assert (s + t)[0] == s[0];
    assert (s + t)[1..] == s[1..] + t;
  }

  /** Appending text to a string that holds no stop character moves the split
      point past the whole string. */
  lemma {:induction false} TakeUntilAppendNone(s: string, t: string, stop: set<char>)
    requires !ContainsAny(s, stop)
    ensures TakeUntil(s + t, stop) == s + TakeUntil(t, stop)
    ensures DropUntil(s + t, stop) == DropUntil(t, stop)
  {
    if s == [] {
      assert s + t == t;
    } else {
      assert (s + t)[0] == s[0];
      assert s[0] !in stop by { assert s[0] in s; }
      assert (s + t)[1..] == s[1..] + t;
      assert !ContainsAny(s[1..], stop) by {
        assert s == [s[0]] + s[1..];
      }
      TakeUntilAppendNone(s[1..], t, stop);
    }
  }

  /** A stop-free string followed by a stop character splits exactly there. */
  lemma TakeUntilAtStop(s: string, c: char, t: string, stop: set<char>)
    requires !ContainsAny(s, stop) && c in stop
    ensures TakeUntil(s + [c] + t, stop) == s
    ensures DropUntil(s + [c] + t, stop) == [c] + t
  {
    var u := [c] + t;
    assert s + [c] + t == s + u;
    assert u[0] == c;
    assert TakeUntil(u, stop) == "";
    assert DropUntil(u, stop) == u[0..] == u;
    TakeUntilAppendNone(s, u, stop);
  }

  /** The members of a non-empty list are those of all but its last entry,
      and that entry. */
  lemma SnocMembers(s: seq<string>)
    requires s != []
    ensures forall u :: u in s <==> u in s[..|s| - 1] || u == s[|s| - 1]
  {
    assert s == s[..|s| - 1] + [s[|s| - 1]];
  }

  /** Splits `s` at its last `/`: `head` ends with `/` (or is empty) and `tail`
      holds no `/` (`p.rfind('/') + 1` in `posixpath`). */
  function SplitLastSlash(s: string): (r: (string, string))
    ensures r.0 + r.1 == s
    ensures '/' !in r.1
    ensures r.0 == [] || r.0[|r.0| - 1] == '/'
    ensures '/' in s ==> r.0 != []
  {
    if s == [] then ("", "")
    else if s[|s| - 1] == '/' then (s, "")
    else
      var (h, t) := SplitLastSlash(s[..|s| - 1]);
      assert s == s[..|s| - 1] + [s[|s| - 1]];
      (h, t + [s[|s| - 1]])
  }

  /** The split at the last slash is determined by any decomposition of the
      same shape. */
  lemma {:induction false} SplitLastSlashUnique(h: string, t: string)
    requires h == [] || h[|h| - 1] == '/'
    requires '/' !in t
    ensures SplitLastSlash(h + t) == (h, t)
  {
    if t == [] {
      assert h + t == h;
      if h != [] {
        assert SplitLastSlash(h) == (h, "");
      }
    } else {
      var s := h + t;
      assert s[|s| - 1] == t[|t| - 1];
      assert s[..|s| - 1] == h + t[..|t| - 1];
      SplitLastSlashUnique(h, t[..|t| - 1]);
      assert t[..|t| - 1] + [t[|t| - 1]] == t;
    }
  }

  /** Python's `s.lstrip(c)`. */
  function LStrip(s: string, c: char): (r: string)
    ensures |r| <= |s| && r == s[|s| - |r|..]
    ensures r == [] || r[0] != c
    ensures forall i :: 0 <= i < |s| - |r| ==> s[i] == c
  {
    if s != [] && s[0] == c then LStrip(s[1..], c) else s
  }

  /** Python's `s.rstrip(c)`. */
  function RStrip(s: string, c: char): (r: string)
    ensures |r| <= |s| && r == s[..|r|]
    ensures r == [] || r[|r| - 1] != c
    ensures forall i :: |r| <= i < |s| ==> s[i] == c
  {
    if s != [] && s[|s| - 1] == c then RStrip(s[..|s| - 1], c) else s
  }

  function LowerChar(c: char): char {
    if 'A' <= c <= 'Z' then (c as int + 32) as char else c
  }

  /** ASCII `str.lower()`; only ever applied to scheme characters, which are ASCII. */
  function Lower(s: string): (r: string)
    ensures |r| == |s|
    ensures forall i :: 0 <= i < |s| ==> r[i] == LowerChar(s[i])
  {
    if s == [] then "" else [LowerChar(s[0])] + Lower(s[1..])
  }

  lemma LowerIdempotent(s: string)
    ensures Lower(Lower(s)) == Lower(s)
  {
  }

  /** Python's `<` on `str`: lexicographic by code point, a proper prefix first. */
  predicate Below(a: string, b: string) {
    if a == [] then b != []
    else if b == [] then false
    else if a[0] != b[0] then a[0] < b[0]
    else Below(a[1..], b[1..])
  }

  lemma {:induction false} BelowIrreflexive(a: string)
    ensures !Below(a, a)
  {
    if a != [] {
      BelowIrreflexive(a[1..]);
    }
  }

  lemma {:induction false} BelowTransitive(a: string, b: string, c: string)
    requires Below(a, b) && Below(b, c)
    ensures Below(a, c)
  {
    if a != [] && b != [] && c != [] && a[0] == b[0] && b[0] == c[0] {
      BelowTransitive(a[1..], b[1..], c[1..]);
    }
  }

  lemma {:induction false} BelowTotal(a: string, b: string)
    ensures a == b || Below(a, b) || Below(b, a)
  {
    if a != [] && b != [] && a[0] == b[0] {
      BelowTotal(a[1..], b[1..]);
      if a[1..] == b[1..] {
        assert a == [a[0]] + a[1..] && b == [b[0]] + b[1..];
      }
    }
  }
}
