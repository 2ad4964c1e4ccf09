/**
 * The counterpart-file switcher of plugin/py_test_switcher.py: the rule
 * table, `try_match`, `find_all_matches` and `find_best_match`.
 *
 * The file system enters only through two oracles passed to
 * `FindBestMatch`: whether a path exists, and whether the parent directory
 * of a path exists.
 */
module Switcher {
  import opened Options
  import opened Templates

  /** A pair of templates; each side may be the source of a rewrite. */
  type Rule = (string, string)

  /** The static rule table, in the order the rules are tried. */
  const Patterns: seq<Rule> := [
    ("%/__init__.py", "%/tests/test_%.py"),
    ("%.py", "tests/test_%.py"),
    ("%.py", "test/test_%.py"),
    ("%.py", "test_%.py"),
    ("%.py", "%.txt"),
    ("%.py", "tests/tests.py"),
    ("%.py", "tests.py"),
    ("__init__.py", "tests.py"),
    // Pylons
    ("controllers/%.py", "tests/functional/test_%.py"),
    ("controllers/%.py", "tests/test_%.py"),
    ("lib/%.py", "tests/test_%.py"),
    ("model/__init__.py", "tests/test_models.py"),
    ("public/js/ControlPanel/%.js", "tests/js/test_%.js"),
    ("resources/%.js", "tests/test_%.js"),
    ("%-en.html.mako", "%-lt.html.mako")
  ]

  /** The replacement needs a capture that the source template cannot supply. */
  predicate SynthesizesWildcard(pattern: string, replacement: string) {
    Wildcard in replacement && Wildcard !in pattern
  }

  /**
   * `rx.sub(r'\1' + replacement.replace('%', r'\2'), filename)`: the head
   * before the match is kept, the boundary is put back, and every wildcard
   * of the replacement becomes the captured text.
   */
  function Rewrite(f: string, m: Match, replacement: string): (r: string)
    requires m.start <= |f|
    ensures |r| >= m.start + |m.sep| && r[..m.start] == f[..m.start]
    ensures r[m.start..m.start + |m.sep|] == m.sep
  {
    f[..m.start] + m.sep + Subst(replacement, m.capture)
  }

  /** `try_match(filename, pattern, replacement)`. */
  function TryMatch(f: string, pattern: string, replacement: string): (r: Option<string>)
    ensures r.Some? ==> !SynthesizesWildcard(pattern, replacement)
    ensures r != Some(f)
  {
    if SynthesizesWildcard(pattern, replacement) then None
    else
      match Search(f, Compile(pattern))
      case None => None
      case Some(m) =>
        var candidate := Rewrite(f, m, replacement);
        if candidate == f then None else Some(candidate)
  }

  /**
   * What `try_match` returns, in terms of the first match of the source
   * template alone: nothing when the replacement would need a capture the
   * source lacks or when the rewrite gives the filename back, else the
   * rewrite of the first match.
   */
  lemma TryMatchOfLeftmost(f: string, a: string, b: string, m: Match)
    requires IsLeftmost(f, Compile(a), m)
    ensures TryMatch(f, a, b) ==
      if SynthesizesWildcard(a, b) || Rewrite(f, m, b) == f then None else Some(Rewrite(f, m, b))
  {
    var s := Search(f, Compile(a));
    LeftmostUnique(f, Compile(a), s.value, m);
  }

  /** Without any match of the source template there is no candidate. */
  lemma TryMatchWithoutMatch(f: string, a: string, b: string)
    requires forall m :: !IsMatch(f, Compile(a), m)
    ensures TryMatch(f, a, b) == None
  {
  }

  /**
   * Every candidate comes from a match that is anchored at the start of the
   * filename or just after a '/', and that reaches the end of the filename;
   * the candidate keeps the head, puts the boundary back, and fills the
   * replacement's wildcards with a capture that is non-empty and has no '/'.
   */
  lemma CandidateShape(f: string, a: string, b: string)
    requires TryMatch(f, a, b).Some?
    ensures exists m ::
      && IsLeftmost(f, Compile(a), m)
      && f == f[..m.start] + m.sep + Text(Compile(a), m)
      && (Wildcard in a ==> m.capture != [] && '/' !in m.capture)
      && (Wildcard !in a ==> m.capture == [] && Wildcard !in b)
      && TryMatch(f, a, b).value == f[..m.start] + m.sep + Subst(b, m.capture)
  {
    var m := Search(f, Compile(a)).value;
    MatchIsSplit(f, Compile(a), m);
  }

  /**
   * The attempts of `find_all_matches` before filtering: for each rule in
   * order, the forward and then the reverse rewrite.
   */
  function Attempts(f: string, rules: seq<Rule>): (r: seq<Option<string>>)
    ensures |r| == 2 * |rules|
  {
    if rules == [] then []
    else
      var (a, b) := rules[|rules| - 1];
      Attempts(f, rules[..|rules| - 1]) + [TryMatch(f, a, b), TryMatch(f, b, a)]
  }

  /** Trying one more rule appends its two attempts. */
  lemma AttemptsStep(f: string, rules: seq<Rule>, i: nat)
    requires i < |rules|
    ensures Attempts(f, rules[..i + 1]) ==
      Attempts(f, rules[..i]) + [TryMatch(f, rules[i].0, rules[i].1), TryMatch(f, rules[i].1, rules[i].0)]
  {
    assert rules[..i + 1][..i] == rules[..i];
  }

  /** Attempt 2i is rule i forward and attempt 2i+1 is rule i reversed. */
  lemma {:induction false} AttemptsAt(f: string, rules: seq<Rule>, i: nat)
    requires i < |rules|
    ensures Attempts(f, rules)[2 * i] == TryMatch(f, rules[i].0, rules[i].1)
    ensures Attempts(f, rules)[2 * i + 1] == TryMatch(f, rules[i].1, rules[i].0)
  {
    var init := rules[..|rules| - 1];
    if i < |rules| - 1 {
      AttemptsAt(f, init, i);
      assert init[i] == rules[i];
    }
  }

  /**
   * Python's `filter(None, xs)`: the results that are truthy, that is
   * present and not the empty string, in order.
   */
  function Successes(xs: seq<Option<string>>): (r: seq<string>)
    ensures |r| <= |xs|
  {
    if xs == [] then []
    else
      var x := xs[|xs| - 1];
      Successes(xs[..|xs| - 1]) + if x.Some? && x.value != [] then [x.value] else []
  }

  /** Filtering keeps exactly the present, non-empty results. */
  lemma {:induction false} SuccessesMember(xs: seq<Option<string>>, c: string)
    ensures c in Successes(xs) <==> c != [] && Some(c) in xs
  {
    if xs != [] {
      var x := xs[|xs| - 1];
      assert xs == xs[..|xs| - 1] + [x];
      SuccessesMember(xs[..|xs| - 1], c);
    }
  }

  /** Filtering drops no duplicate: each candidate is kept as often as it was produced. */
  lemma {:induction false} SuccessesCount(xs: seq<Option<string>>, c: string)
    requires c != []
    ensures multiset(Successes(xs))[c] == multiset(xs)[Some(c)]
  {
    if xs != [] {
      var init := xs[..|xs| - 1];
      var x := xs[|xs| - 1];
      assert xs == init + [x];
      SuccessesCount(init, c);
      assert multiset(xs) == multiset(init) + multiset{x};
      var kept := if x.Some? && x.value != [] then [x.value] else [];
      assert multiset(Successes(xs)) == multiset(Successes(init)) + multiset(kept);
    }
  }

  /** The candidates `find_all_matches` returns for a filename. */
  function Candidates(f: string): seq<string> {
    Successes(Attempts(f, Patterns))
  }

  /** `find_all_matches(filename)`. */
  method FindAllMatches(f: string) returns (results: seq<string>)
    ensures results == Candidates(f)
  {
    var attempts: seq<Option<string>> := [];
    for i := 0 to |Patterns|
      invariant attempts == Attempts(f, Patterns[..i])
    {
      var (a, b) := Patterns[i];
      AttemptsStep(f, Patterns, i);
      ghost var before := attempts;
      attempts := attempts + [TryMatch(f, a, b)];
      attempts := attempts + [TryMatch(f, b, a)];
      assert attempts == before + [TryMatch(f, a, b), TryMatch(f, b, a)];
    }
    assert Patterns[..|Patterns|] == Patterns;
    results := Successes(attempts);
  }

  /** At most two candidates per rule; duplicates are not removed. */
  lemma CandidatesBound(f: string)
    ensures |Candidates(f)| <= 2 * |Patterns|
  {
  }

  /** A filtered attempt comes from a rule, forward or reversed. */
  lemma CandidatesOfSound(f: string, rules: seq<Rule>, c: string)
    requires c in Successes(Attempts(f, rules))
    ensures c != []
    ensures exists i ::
      (0 <= i < |rules| &&
       (TryMatch(f, rules[i].0, rules[i].1) == Some(c) ||
        TryMatch(f, rules[i].1, rules[i].0) == Some(c)))
  {
    var xs := Attempts(f, rules);
    SuccessesMember(xs, c);
    var k :| 0 <= k < |xs| && xs[k] == Some(c);
    var i := k / 2;
    AttemptsAt(f, rules, i);
    assert k == 2 * i || k == 2 * i + 1;
    assert xs[2 * i] == Some(c) || xs[2 * i + 1] == Some(c);
    assert TryMatch(f, rules[i].0, rules[i].1) == Some(c) || TryMatch(f, rules[i].1, rules[i].0) == Some(c);
  }

  /** Every non-empty rewrite by a rule, forward or reversed, is kept. */
  lemma CandidatesOfComplete(f: string, rules: seq<Rule>, c: string, i: nat)
    requires i < |rules| && c != []
    requires TryMatch(f, rules[i].0, rules[i].1) == Some(c) ||
             TryMatch(f, rules[i].1, rules[i].0) == Some(c)
    ensures c in Successes(Attempts(f, rules))
  {
    var xs := Attempts(f, rules);
    AttemptsAt(f, rules, i);
    assert xs[2 * i] == Some(c) || xs[2 * i + 1] == Some(c);
    SuccessesMember(xs, c);
  }

  /** The same for the rule table: the candidates of `find_all_matches`. */
  lemma CandidatesMember(f: string, c: string)
    ensures c in Candidates(f) <==>
      (c != [] &&
       exists i :: 0 <= i < |Patterns| &&
         (TryMatch(f, Patterns[i].0, Patterns[i].1) == Some(c) ||
          TryMatch(f, Patterns[i].1, Patterns[i].0) == Some(c)))
  {
    if c in Candidates(f) {
      CandidatesOfSound(f, Patterns, c);
    }
    if c != [] && exists i ::
         (0 <= i < |Patterns| &&
          (TryMatch(f, Patterns[i].0, Patterns[i].1) == Some(c) ||
           TryMatch(f, Patterns[i].1, Patterns[i].0) == Some(c))) {
      var i :| 0 <= i < |Patterns| &&
         (TryMatch(f, Patterns[i].0, Patterns[i].1) == Some(c) ||
          TryMatch(f, Patterns[i].1, Patterns[i].0) == Some(c));
      CandidatesOfComplete(f, Patterns, c, i);
    }
  }

  /** A value at two positions of a sequence is counted at least twice. */
  lemma CountTwo<T>(xs: seq<T>, i: nat, j: nat)
    requires i < j < |xs| && xs[i] == xs[j]
    ensures multiset(xs)[xs[i]] >= 2
  {
    assert xs == xs[..j] + xs[j..];
    assert xs[..j][i] == xs[i] && xs[j..][0] == xs[i];
    assert multiset(xs) == multiset(xs[..j]) + multiset(xs[j..]);
  }

  /** Two rules that propose the same candidate put it in the list twice. */
  lemma DuplicatesKept(f: string, i: nat, j: nat, c: string)
    requires i < j < |Patterns| && c != []
    requires TryMatch(f, Patterns[i].0, Patterns[i].1) == Some(c)
    requires TryMatch(f, Patterns[j].0, Patterns[j].1) == Some(c)
    ensures multiset(Candidates(f))[c] >= 2
  {
    var xs := Attempts(f, Patterns);
    AttemptsAt(f, Patterns, i);
    AttemptsAt(f, Patterns, j);
    CountTwo(xs, 2 * i, 2 * j);
    SuccessesCount(xs, c);
  }

  /** The candidates the oracle accepts, in order: one pass of `find_best_match`. */
  function Keep(ms: seq<string>, ok: string -> bool): (r: seq<string>)
    ensures |r| <= |ms|
  {
    if ms == [] then []
    else
      var x := ms[|ms| - 1];
      Keep(ms[..|ms| - 1], ok) + if ok(x) then [x] else []
  }

  /** A pass keeps exactly the candidates the oracle accepts. */
  lemma {:induction false} KeepMember(ms: seq<string>, ok: string -> bool, c: string)
    ensures c in Keep(ms, ok) <==> c in ms && ok(c)
  {
    if ms != [] {
      var x := ms[|ms| - 1];
      assert ms == ms[..|ms| - 1] + [x];
      KeepMember(ms[..|ms| - 1], ok, c);
    }
  }

  /**
   * The order in which `find_best_match` counts candidates: those that
   * exist, then those whose parent directory exists. A candidate that
   * passes both tests is counted twice.
   */
  function Ranked(ms: seq<string>, pathExists: string -> bool, parentExists: string -> bool): seq<string> {
    Keep(ms, pathExists) + Keep(ms, parentExists)
  }

  /**
   * The `nth` counted candidate, or the last counted one when fewer than
   * `nth` are counted (also for `nth` <= 0, which never reaches zero), or
   * nothing when none is counted.
   */
  function Pick(ranked: seq<string>, nth: int): (r: Option<string>)
    ensures r == None <==> ranked == []
    ensures r.Some? ==> r.value in ranked
  {
    if ranked == [] then None
    else if 1 <= nth <= |ranked| then Some(ranked[nth - 1])
    else Some(ranked[|ranked| - 1])
  }

  /** A candidate is counted exactly when it exists or its parent directory exists. */
  lemma RankedMember(ms: seq<string>, pathExists: string -> bool, parentExists: string -> bool, c: string)
    ensures c in Ranked(ms, pathExists, parentExists) <==> c in ms && (pathExists(c) || parentExists(c))
  {
    KeepMember(ms, pathExists, c);
    KeepMember(ms, parentExists, c);
  }

  /** The last element of a sequence, if any. */
  function LastOf(s: seq<string>): Option<string> {
    if s == [] then None else Some(s[|s| - 1])
  }

  /** The passes of `find_best_match` count a prefix of what a full pass keeps. */
  lemma {:induction false} KeepPrefix(ms: seq<string>, ok: string -> bool, i: nat)
    requires i <= |ms|
    ensures Keep(ms[..i], ok) <= Keep(ms, ok)
    decreases |ms| - i
  {
    if i < |ms| {
      KeepPrefix(ms, ok, i + 1);
      assert ms[..i + 1][..i] == ms[..i];
    } else {
      assert ms[..i] == ms;
    }
  }

  /** One more candidate in a pass: counted when the oracle accepts it. */
  lemma KeepStep(ms: seq<string>, ok: string -> bool, i: nat)
    requires i < |ms|
    ensures Keep(ms[..i + 1], ok) == Keep(ms[..i], ok) + if ok(ms[i]) then [ms[i]] else []
  {
    assert ms[..i + 1][..i] == ms[..i];
  }

  /** The first pass reaches `nth` at candidate `i`. */
  lemma PickInFirstPass(ms: seq<string>, pathExists: string -> bool, parentExists: string -> bool, nth: int, i: nat)
    requires i < |ms| && pathExists(ms[i])
    requires nth == |Keep(ms[..i + 1], pathExists)|
    ensures Pick(Ranked(ms, pathExists, parentExists), nth) == Some(ms[i])
  {
    KeepStep(ms, pathExists, i);
    KeepPrefix(ms, pathExists, i + 1);
    var first := Keep(ms, pathExists);
    assert (first + Keep(ms, parentExists))[nth - 1] == first[nth - 1];
  }

  /** The second pass reaches `nth` at candidate `i`. */
  lemma PickInSecondPass(ms: seq<string>, pathExists: string -> bool, parentExists: string -> bool, nth: int, i: nat)
    requires i < |ms| && parentExists(ms[i])
    requires nth == |Keep(ms, pathExists)| + |Keep(ms[..i + 1], parentExists)|
    ensures Pick(Ranked(ms, pathExists, parentExists), nth) == Some(ms[i])
  {
    KeepStep(ms, parentExists, i);
    KeepPrefix(ms, parentExists, i + 1);
    var first := Keep(ms, pathExists);
    var second := Keep(ms, parentExists);
    assert (first + second)[nth - 1] == second[nth - 1 - |first|];
  }

  /** Neither pass reaches `nth`: the last counted candidate, if any. */
  lemma PickFallback(ms: seq<string>, pathExists: string -> bool, parentExists: string -> bool, nth: int)
    requires !(1 <= nth <= |Ranked(ms, pathExists, parentExists)|)
    ensures Pick(Ranked(ms, pathExists, parentExists), nth) == LastOf(Ranked(ms, pathExists, parentExists))
  {
  }

  /** `find_best_match(filename, nth)`: rank the candidates of the filename. */
  method FindBestMatch(f: string, nth: int, pathExists: string -> bool, parentExists: string -> bool)
    returns (r: Option<string>)
    ensures r == Pick(Ranked(Candidates(f), pathExists, parentExists), nth)
  {
    var matches := FindAllMatches(f);
    r := PickFrom(matches, nth, pathExists, parentExists);
  }

  /**
   * The two passes of `find_best_match` over its candidate list, sharing
   * one countdown from `nth`.
   */
  method PickFrom(matches: seq<string>, nth: int, pathExists: string -> bool, parentExists: string -> bool)
    returns (r: Option<string>)
    ensures r == Pick(Ranked(matches, pathExists, parentExists), nth)
  {
    // the candidates counted so far, in counting order
    ghost var counted: seq<string> := [];
    var n := nth;
    var lastValid: Option<string> := None;
    assert matches[..0] == [];
    for i := 0 to |matches|
      invariant counted == Keep(matches[..i], pathExists)
      invariant n == nth - |counted|
      invariant lastValid == LastOf(counted)
      invariant !(1 <= nth <= |counted|)
    {
      KeepStep(matches, pathExists, i);
      if pathExists(matches[i]) {
        n := n - 1;
        counted := counted + [matches[i]];
        if n == 0 {
          PickInFirstPass(matches, pathExists, parentExists, nth, i);
          return Some(matches[i]);
        } else {
          lastValid := Some(matches[i]);
        }
      }
    }
    assert matches[..|matches|] == matches;
    ghost var first := counted;
    assert counted == first + Keep(matches[..0], parentExists);
    for i := 0 to |matches|
      invariant counted == first + Keep(matches[..i], parentExists)
      invariant n == nth - |counted|
      invariant lastValid == LastOf(counted)
      invariant !(1 <= nth <= |counted|)
    {
      KeepStep(matches, parentExists, i);
      if parentExists(matches[i]) {
        n := n - 1;
        assert first + Keep(matches[..i + 1], parentExists) == counted + [matches[i]];
        counted := counted + [matches[i]];
        if n == 0 {
          PickInSecondPass(matches, pathExists, parentExists, nth, i);
          return Some(matches[i]);
        } else {
          lastValid := Some(matches[i]);
        }
      }
    }
    assert matches[..|matches|] == matches;
    PickFallback(matches, pathExists, parentExists, nth);
    r := lastValid;
  }

  /** Whatever `find_best_match` returns is one of the candidates. */
  lemma PickIsCandidate(ms: seq<string>, pathExists: string -> bool, parentExists: string -> bool, nth: int)
    requires Pick(Ranked(ms, pathExists, parentExists), nth).Some?
    ensures Pick(Ranked(ms, pathExists, parentExists), nth).value in ms
  {
    var first := Keep(ms, pathExists);
    var c := Pick(first + Keep(ms, parentExists), nth).value;
    if c in first {
      KeepMember(ms, pathExists, c);
    } else {
      KeepMember(ms, parentExists, c);
    }
  }

  /** A pass over candidates none of which qualifies counts nothing. */
  lemma KeepNone(ms: seq<string>, ok: string -> bool)
    requires forall j :: 0 <= j < |ms| ==> !ok(ms[j])
    ensures Keep(ms, ok) == []
  {
    var r := Keep(ms, ok);
    if r != [] {
      KeepMember(ms, ok, r[0]);
    }
  }

  /** The first existing candidate is at the head of the first pass. */
  lemma {:induction false} KeepFirst(ms: seq<string>, ok: string -> bool, k: nat)
    requires k < |ms| && ok(ms[k])
    requires forall j :: 0 <= j < k ==> !ok(ms[j])
    ensures Keep(ms, ok) != [] && Keep(ms, ok)[0] == ms[k]
  {
    var init := ms[..|ms| - 1];
    if k < |ms| - 1 {
      KeepFirst(init, ok, k);
    } else {
      assert forall j :: 0 <= j < |init| ==> init[j] == ms[j];
      KeepNone(init, ok);
    }
  }

  /** With `nth` = 1 and some existing candidate, the first existing one wins. */
  lemma FirstExistingWins(ms: seq<string>, pathExists: string -> bool, parentExists: string -> bool, k: nat)
    requires k < |ms| && pathExists(ms[k])
    requires forall j :: 0 <= j < k ==> !pathExists(ms[j])
    ensures Pick(Ranked(ms, pathExists, parentExists), 1) == Some(ms[k])
  {
    KeepFirst(ms, pathExists, k);
  }

  /** An existing file is preferred: the first pass decides while it has enough. */
  lemma ExistingPreferred(ms: seq<string>, pathExists: string -> bool, parentExists: string -> bool, nth: int)
    requires 1 <= nth <= |Keep(ms, pathExists)|
    ensures Pick(Ranked(ms, pathExists, parentExists), nth).Some?
    ensures pathExists(Pick(Ranked(ms, pathExists, parentExists), nth).value)
  {
    var first := Keep(ms, pathExists);
    KeepMember(ms, pathExists, first[nth - 1]);
  }

  /** Nothing is returned exactly when no candidate exists and no parent directory does. */
  lemma PickNone(ms: seq<string>, pathExists: string -> bool, parentExists: string -> bool, nth: int)
    ensures Pick(Ranked(ms, pathExists, parentExists), nth) == None <==>
      forall c :: c in ms ==> !pathExists(c) && !parentExists(c)
  {
    var first := Keep(ms, pathExists);
    var second := Keep(ms, parentExists);
    if first != [] {
      KeepMember(ms, pathExists, first[0]);
    } else if second != [] {
      KeepMember(ms, parentExists, second[0]);
    } else {
      forall c | c in ms
        ensures !pathExists(c) && !parentExists(c)
      {
        KeepMember(ms, pathExists, c);
        KeepMember(ms, parentExists, c);
      }
    }
  }

  /**
   * A candidate that exists and whose parent exists is counted in both
   * passes, so it occurs at least twice in the counting order.
   */
  lemma CountedTwice(ms: seq<string>, pathExists: string -> bool, parentExists: string -> bool, c: string)
    requires c in ms && pathExists(c) && parentExists(c)
    ensures multiset(Ranked(ms, pathExists, parentExists))[c] >= 2
  {
    var first := Keep(ms, pathExists);
    var second := Keep(ms, parentExists);
    KeepMember(ms, pathExists, c);
    KeepMember(ms, parentExists, c);
    assert multiset(first + second) == multiset(first) + multiset(second);
  }

  /**
   * As the only candidate, such a file is both the first and the second one
   * counted: `nth` = 2 returns it again.
   */
  lemma OnlyCandidateTwice(c: string, pathExists: string -> bool, parentExists: string -> bool)
    requires pathExists(c) && parentExists(c)
    ensures Ranked([c], pathExists, parentExists) == [c, c]
    ensures Pick(Ranked([c], pathExists, parentExists), 2) == Some(c)
  {
    assert [c][..0] == [];
  }
}
