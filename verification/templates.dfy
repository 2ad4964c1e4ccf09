/**
 * Filename templates and the regular expression `pattern2regex` builds from
 * one (plugin/py_test_switcher.py:35-40).
 *
 * A template is a literal with `%` wildcards. Its regular expression is
 *     (^|/) prefix ([^/]+) suffix' $
 * where `prefix` is the text before the first `%`, the first `%` becomes the
 * capture group, and every later `%` in `suffix` becomes `\1`, a
 * back-reference to the BOUNDARY group `(^|/)`, not to the capture. Every
 * `.` is escaped, so all literal characters match only themselves.
 *
 * Instead of a regex engine, a match is described directly: a start
 * position, the text the boundary group took ("" at position 0, or "/"),
 * and the text the capture group took. `Search` returns the match that
 * Python's `re.search` finds: the first one in the engine's order.
 */
module Templates {
  import opened Options

  const Wildcard: char := '%'

  /** Index of the first `ch` in `s`, or `|s|` when there is none. */
  function FirstIndex(s: string, ch: char): (i: nat)
    ensures i <= |s|
    ensures ch !in s[..i]
    ensures i < |s| ==> s[i] == ch
  {
    if s == [] then 0
    else if s[0] == ch then 0
    else
      var j := FirstIndex(s[1..], ch);
      assert s[..j + 1] == [s[0]] + s[1..][..j];
      j + 1
  }

  /** Every wildcard of `t` replaced by `x`: Python's `t.replace('%', x)`. */
  function Subst(t: string, x: string): string {
    if t == [] then []
    else (if t[0] == Wildcard then x else [t[0]]) + Subst(t[1..], x)
  }

  /** A template without wildcards is left as it is. */
  lemma {:induction false} SubstLiteral(t: string, x: string)
    requires Wildcard !in t
    ensures Subst(t, x) == t
  {
    if t != [] {
      assert t == [t[0]] + t[1..];
      SubstLiteral(t[1..], x);
    }
  }

  /**
   * The characters of a substitution: those of the template other than the
   * wildcard, and those of `x` when the template has a wildcard.
   */
  lemma {:induction false} SubstChars(t: string, x: string, ch: char)
    ensures ch in Subst(t, x) <==> (ch in t && ch != Wildcard) || (Wildcard in t && ch in x)
  {
    if t != [] {
      assert t == [t[0]] + t[1..];
      SubstChars(t[1..], x, ch);
    }
  }

  /** Replacing wildcards distributes over concatenation. */
  lemma {:induction false} SubstConcat(t1: string, t2: string, x: string)
    ensures Subst(t1 + t2, x) == Subst(t1, x) + Subst(t2, x)
  {
    if t1 != [] {
      var t := t1 + t2;
      assert t[0] == t1[0];
      assert t[1..] == t1[1..] + t2;
      SubstConcat(t1[1..], t2, x);
      var head := if t1[0] == Wildcard then x else [t1[0]];
      calc {
        Subst(t, x);
        head + Subst(t1[1..] + t2, x);
        head + (Subst(t1[1..], x) + Subst(t2, x));
        (head + Subst(t1[1..], x)) + Subst(t2, x);
        Subst(t1, x) + Subst(t2, x);
      }
    } else {
      assert t1 + t2 == t2;
    }
  }

  /**
   * A compiled template: the literal before the first wildcard, whether
   * there is one, and the text after it (which may hold further wildcards).
   */
  datatype Compiled = Compiled(prefix: string, wild: bool, suffix: string)

  /** The template a compiled value was made from. */
  function Source(c: Compiled): string {
    if c.wild then c.prefix + [Wildcard] + c.suffix else c.prefix + c.suffix
  }

  /** Well-formed compiled values: what `Compile` can return. */
  predicate WellFormed(c: Compiled) {
    Wildcard !in c.prefix && (!c.wild ==> c.suffix == [])
  }

  /** `pattern2regex`: split the template at its first wildcard. */
  function Compile(p: string): (c: Compiled)
    ensures WellFormed(c)
    ensures c.wild <==> Wildcard in p
    ensures Source(c) == p
  {
    var i := FirstIndex(p, Wildcard);
    if i == |p| then
      assert p[..i] == p;
      Compiled(p, false, [])
    else
      assert p == p[..i] + [Wildcard] + p[i + 1..];
      Compiled(p[..i], true, p[i + 1..])
  }

  /** `FirstIndex` finds the first occurrence and no later one. */
  lemma {:induction false} FirstIndexIsFirst(s: string, ch: char, k: nat)
    requires k < |s| && s[k] == ch && ch !in s[..k]
    ensures FirstIndex(s, ch) == k
  {
    if k > 0 {
      assert s[0] == s[..k][0];
      assert s[1..][..k - 1] == s[1..k];
      assert forall j :: 1 <= j < k ==> s[j] == s[..k][j];
      FirstIndexIsFirst(s[1..], ch, k - 1);
    }
  }

  /** Compiling is the inverse of `Source` on well-formed values. */
  lemma {:induction false} CompileSource(c: Compiled)
    requires WellFormed(c)
    ensures Compile(Source(c)) == c
  {
    var p := Source(c);
    if c.wild {
      assert p[..|c.prefix|] == c.prefix;
      FirstIndexIsFirst(p, Wildcard, |c.prefix|);
      assert p[|c.prefix| + 1..] == c.suffix;
    } else {
      assert p == c.prefix;
    }
  }

  /**
   * A match of a compiled template: where it starts, the text the boundary
   * group `(^|/)` took, and the text the capture group took ("" when the
   * template has no wildcard).
   */
  datatype Match = Match(start: nat, sep: string, capture: string)

  /** The boundary group: empty at position 0 (`^`), or a '/' in the filename. */
  predicate Boundary(f: string, start: nat, sep: string) {
    (start == 0 && sep == []) || (start < |f| && f[start] == '/' && sep == "/")
  }

  /**
   * The literal that must end the filename after the capture: the suffix with
   * every later wildcard read as the boundary text (the `\1` back-reference).
   */
  function Closing(c: Compiled, sep: string): string {
    Subst(c.suffix, sep)
  }

  /** The part of the regex after the boundary group matches all of `tail`. */
  predicate TailMatches(tail: string, c: Compiled, sep: string) {
    if !c.wild then tail == c.prefix
    else
      var close := Closing(c, sep);
      |c.prefix| + |close| < |tail| &&
      tail[..|c.prefix|] == c.prefix &&
      tail[|tail| - |close|..] == close &&
      '/' !in tail[|c.prefix|..|tail| - |close|]
  }

  /** The text the capture group `([^/]+)` takes in a matching tail. */
  function CaptureOf(tail: string, c: Compiled, sep: string): string
    requires TailMatches(tail, c, sep)
  {
    if !c.wild then [] else tail[|c.prefix|..|tail| - |Closing(c, sep)|]
  }

  /** The text a match covers after its boundary. */
  function Text(c: Compiled, m: Match): string {
    if c.wild then c.prefix + m.capture + Closing(c, m.sep) else c.prefix
  }

  /** The regex matches `f` from `start` with the boundary group taking `sep`. */
  predicate MatchesAt(f: string, c: Compiled, start: nat, sep: string) {
    Boundary(f, start, sep) && TailMatches(f[start + |sep|..], c, sep)
  }

  /** The capture of the match from `start` with boundary `sep`. */
  function CaptureAt(f: string, c: Compiled, start: nat, sep: string): string
    requires MatchesAt(f, c, start, sep)
  {
    CaptureOf(f[start + |sep|..], c, sep)
  }

  /** `m` describes one way the template's regex matches `f`. */
  predicate IsMatch(f: string, c: Compiled, m: Match) {
    MatchesAt(f, c, m.start, m.sep) && m.capture == CaptureAt(f, c, m.start, m.sep)
  }

  /**
   * `m` is the match `re.search` reports. The engine tries start positions
   * from left to right and, at position 0, the `^` alternative before the
   * `/` one; so no `/` match starts before `m`, and if `m` took a '/' at
   * position 0 or later, `^` did not match.
   */
  predicate IsLeftmost(f: string, c: Compiled, m: Match) {
    IsMatch(f, c, m) &&
    (m.sep == "/" ==> !MatchesAt(f, c, 0, [])) &&
    forall t: nat :: t < m.start ==> !MatchesAt(f, c, t, "/")
  }

  /** The text after the boundary of a possible match start. */
  function After(f: string, start: nat, sep: string): string
    requires Boundary(f, start, sep)
  {
    f[start + |sep|..]
  }

  /** A filename is its head, the boundary text, and what comes after. */
  lemma HeadSepAfter(f: string, start: nat, sep: string)
    requires Boundary(f, start, sep)
    ensures f == f[..start] + sep + After(f, start, sep)
  {
    assert f[start..start + |sep|] == sep;
    assert f == f[..start] + f[start..start + |sep|] + f[start + |sep|..];
  }

  /**
   * A match splits the filename into an untouched head, the boundary, and
   * the template's literals around a capture that is non-empty and holds
   * no '/'; the match ends at the end of the filename.
   */
  lemma {:induction false} MatchIsSplit(f: string, c: Compiled, m: Match)
    requires IsMatch(f, c, m)
    ensures f == f[..m.start] + m.sep + Text(c, m)
    ensures c.wild ==> m.capture != [] && '/' !in m.capture
    ensures !c.wild ==> m.capture == []
  {
    HeadSepAfter(f, m.start, m.sep);
    var tail := After(f, m.start, m.sep);
    if c.wild {
      var close := Closing(c, m.sep);
      assert tail == tail[..|c.prefix|] + tail[|c.prefix|..|tail| - |close|] + tail[|tail| - |close|..];
    }
  }

  /** Conversely, every such split is a match. */
  lemma {:induction false} SplitIsMatch(f: string, c: Compiled, m: Match)
    requires Boundary(f, m.start, m.sep)
    requires f == f[..m.start] + m.sep + Text(c, m)
    requires c.wild ==> m.capture != [] && '/' !in m.capture
    requires !c.wild ==> m.capture == []
    ensures IsMatch(f, c, m)
  {
    HeadSepAfter(f, m.start, m.sep);
    var tail := After(f, m.start, m.sep);
    assert tail == Text(c, m);
    if c.wild {
      var close := Closing(c, m.sep);
      assert tail[..|c.prefix|] == c.prefix;
      assert tail[|c.prefix|..|tail| - |close|] == m.capture;
      assert tail[|tail| - |close|..] == close;
    }
  }

  /** `s` ends with `t`. */
  predicate EndsWith(s: string, t: string) {
    |t| <= |s| && s[|s| - |t|..] == t
  }

  /**
   * The regex is anchored by `$`: a match of a template with a wildcard
   * ends with its closing literal, and one without a wildcard with its
   * whole literal.
   */
  lemma MatchEndsWith(f: string, c: Compiled, start: nat, sep: string)
    requires MatchesAt(f, c, start, sep)
    ensures c.wild ==> EndsWith(f, Closing(c, sep))
    ensures !c.wild ==> EndsWith(f, c.prefix)
  {
    var tail := f[start + |sep|..];
    if c.wild {
      var close := Closing(c, sep);
      assert f[|f| - |close|..] == tail[|tail| - |close|..];
    } else {
      assert f[|f| - |c.prefix|..] == tail;
    }
  }

  /** Two matches that both come first are the same match. */
  lemma LeftmostUnique(f: string, c: Compiled, m1: Match, m2: Match)
    requires IsLeftmost(f, c, m1) && IsLeftmost(f, c, m2)
    ensures m1 == m2
  {
    assert MatchesAt(f, c, m1.start, m1.sep) && MatchesAt(f, c, m2.start, m2.sep);
    assert m1.start == m2.start;
    assert m1.sep == m2.sep;
  }

  /** The engine's scan from position `s` on. */
  function SearchFrom(f: string, c: Compiled, s: nat): (r: Option<Match>)
    ensures r.Some? ==> IsMatch(f, c, r.value) && s <= r.value.start
    ensures r.Some? && s == 0 && r.value.sep == "/" ==> !MatchesAt(f, c, 0, [])
    ensures r.Some? ==> forall t: nat :: s <= t < r.value.start ==> !MatchesAt(f, c, t, "/")
    ensures r.None? ==> s == 0 ==> !MatchesAt(f, c, 0, [])
    ensures r.None? ==> forall t: nat :: s <= t ==> !MatchesAt(f, c, t, "/")
    decreases |f| - s
  {
    if s == 0 && MatchesAt(f, c, 0, []) then
      Some(Match(0, [], CaptureAt(f, c, 0, [])))
    else if s >= |f| then
      None
    else if MatchesAt(f, c, s, "/") then
      Some(Match(s, "/", CaptureAt(f, c, s, "/")))
    else
      SearchFrom(f, c, s + 1)
  }

  /** `rx.search(filename)`: the first match of the compiled template, if any. */
  function Search(f: string, c: Compiled): (r: Option<Match>)
    ensures r.Some? ==> IsLeftmost(f, c, r.value)
    ensures r.None? ==> forall m :: !IsMatch(f, c, m)
  {
    var r := SearchFrom(f, c, 0);
    assert r.None? ==> forall m :: !IsMatch(f, c, m) by {
      forall m | r.None?
        ensures !IsMatch(f, c, m)
      {
        if m.sep == [] {
          assert !MatchesAt(f, c, 0, []);
        } else {
          assert !MatchesAt(f, c, m.start, "/");
        }
      }
    }
    r
  }
}
