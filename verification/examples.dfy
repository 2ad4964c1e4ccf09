/**
 * The rule table at work: what `try_match` does with the table's templates
 * on filenames of a given shape, for every directory and name.
 */
module Examples {
  import opened Options
  import opened Templates
  import opened Switcher

  /** A replacement that starts with its only wildcard. */
  lemma SubstLeading(x: string, post: string)
    requires Wildcard !in post
    ensures Subst([Wildcard] + post, x) == x + post
  {
    var w := [Wildcard] + post;
    assert w[0] == Wildcard && w[1..] == post;
    SubstLiteral(post, x);
  }

  /** A replacement with one wildcard puts the capture in its place. */
  lemma SubstOne(pre: string, x: string, post: string)
    requires Wildcard !in pre && Wildcard !in post
    ensures Subst(pre + [Wildcard] + post, x) == pre + x + post
  {
    var w := [Wildcard] + post;
    SubstLeading(x, post);
    SubstLiteral(pre, x);
    SubstConcat(pre, w, x);
    assert pre + [Wildcard] + post == pre + w;
  }

  /** A replacement with two wildcards puts the capture in both places. */
  lemma SubstTwo(pre: string, x: string, mid: string, post: string)
    requires Wildcard !in pre && Wildcard !in mid && Wildcard !in post
    ensures Subst(pre + [Wildcard] + mid + [Wildcard] + post, x) == pre + x + mid + x + post
  {
    var w := [Wildcard] + post;
    SubstOne(pre, x, mid);
    SubstLeading(x, post);
    SubstConcat(pre + [Wildcard] + mid, w, x);
    assert pre + [Wildcard] + mid + [Wildcard] + post == (pre + [Wildcard] + mid) + w;
  }

  /** A wildcard-free literal after the capture, and a '/' inside the capture's span. */
  lemma SlashInCapture(f: string, c: Compiled, t: nat, sep: string, k: nat)
    requires c.wild && Wildcard !in c.suffix
    requires t + |sep| + |c.prefix| <= k < |f| - |c.suffix| && f[k] == '/'
    ensures !MatchesAt(f, c, t, sep)
  {
    SubstLiteral(c.suffix, sep);
    var s := t + |sep|;
    if Boundary(f, t, sep) {
      var tail := f[s..];
      assert tail[k - s] == '/';
      SlashInSpan(tail, c, sep, k - s);
    }
  }

  /** A '/' strictly between the leading and the closing literal of the tail. */
  lemma SlashInSpan(tail: string, c: Compiled, sep: string, i: nat)
    requires c.wild
    requires |c.prefix| <= i < |tail| - |Closing(c, sep)| && tail[i] == '/'
    ensures !TailMatches(tail, c, sep)
  {
    var span := tail[|c.prefix|..|tail| - |Closing(c, sep)|];
    assert span[i - |c.prefix|] == '/';
  }

  /** The filename differs from the template's leading literal. */
  lemma PrefixDiffers(f: string, c: Compiled, t: nat, sep: string, k: nat)
    requires c.wild
    requires Boundary(f, t, sep) && t + |sep| <= k < t + |sep| + |c.prefix| && k < |f|
    requires f[k] != c.prefix[k - t - |sep|]
    ensures !MatchesAt(f, c, t, sep)
  {
    var tail := f[t + |sep|..];
    if |c.prefix| <= |tail| {
      assert tail[..|c.prefix|][k - t - |sep|] == f[k];
    }
  }

  /** The match of a leading-wildcard template takes the last component. */
  lemma LastComponentMatch(d: string, n: string, close: string)
    requires Wildcard !in close
    requires n != [] && '/' !in n
    ensures IsMatch(d + "/" + n + close, Compiled([], true, close), Match(|d|, "/", n))
  {
    assert "/"[1..] == [];
    ComponentMatch(d, "/", n, close);
  }

  /**
   * A template of a literal, a `%` and a literal matches at the '/' that
   * starts `lead`, the boundary followed by the leading literal, capturing a
   * name without '/'.
   */
  lemma ComponentMatch(d: string, lead: string, n: string, close: string)
    requires lead != [] && lead[0] == '/'
    requires Wildcard !in close
    requires n != [] && '/' !in n
    ensures IsMatch(d + lead + n + close, Compiled(lead[1..], true, close), Match(|d|, "/", n))
  {
    var f := d + lead + n + close;
    var pre := lead[1..];
    SubstLiteral(close, "/");
    assert f[|d|] == '/';
    var tail := f[|d| + 1..];
    assert tail == pre + n + close;
    assert tail[..|pre|] == pre;
    assert tail[|tail| - |close|..] == close;
    assert tail[|pre|..|tail| - |close|] == n;
  }

  /** ... and it is the first match. */
  lemma LastComponentLeftmost(d: string, n: string, close: string)
    requires Wildcard !in close
    requires n != [] && '/' !in n
    ensures IsLeftmost(d + "/" + n + close, Compiled([], true, close), Match(|d|, "/", n))
  {
    var f := d + "/" + n + close;
    var c := Compiled([], true, close);
    LastComponentMatch(d, n, close);
    assert f[|d|] == '/';
    SlashInCapture(f, c, 0, [], |d|);
    forall t: nat | t < |d|
      ensures !MatchesAt(f, c, t, "/")
    {
      if f[t] == '/' {
        SlashInCapture(f, c, t, "/", |d|);
      }
    }
  }

  /**
   * A rule whose source template is a wildcard and a literal rewrites the
   * last component of a filename, keeping its directory; the candidate is
   * dropped when it is the filename itself.
   */
  lemma LeadingWildcardRule(f: string, a: string, b: string, d: string, n: string, close: string, r: string)
    requires a == [Wildcard] + close && Wildcard !in close
    requires f == d + "/" + n + close && n != [] && '/' !in n
    requires r == d + "/" + Subst(b, n)
    ensures TryMatch(f, a, b) == if r == f then None else Some(r)
  {
    var c := Compiled([], true, close);
    assert Source(c) == a;
    CompileSource(c);
    LastComponentLeftmost(d, n, close);
    assert f[..|d|] == d;
    TryMatchOfLeftmost(f, a, b, Match(|d|, "/", n));
  }

  /** The name of a module's test module. */
  lemma TestModuleName(n: string)
    ensures Subst("tests/test_%.py", n) == "tests/test_" + n + ".py"
  {
    assert "tests/test_%.py" == "tests/test_" + [Wildcard] + ".py";
    SubstOne("tests/test_", n, ".py");
  }

  /** A module's test module lives in `tests/` beside it. */
  lemma ModuleToTest(d: string, n: string)
    requires n != [] && '/' !in n
    ensures TryMatch(d + "/" + n + ".py", "%.py", "tests/test_%.py") == Some(d + "/tests/test_" + n + ".py")
  {
    var f := d + "/" + n + ".py";
    var r := d + "/tests/test_" + n + ".py";
    TestModuleName(n);
    assert d + "/" + ("tests/test_" + n + ".py") == r;
    assert |r| != |f|;
    LeadingWildcardRule(f, "%.py", "tests/test_%.py", d, n, ".py", r);
  }

  /** The name of a package's test module. */
  lemma PackageTestName(n: string)
    ensures Subst("%/tests/test_%.py", n) == n + "/tests/test_" + n + ".py"
  {
    assert "%/tests/test_%.py" == [] + [Wildcard] + "/tests/test_" + [Wildcard] + ".py";
    SubstTwo([], n, "/tests/test_", ".py");
    assert [] + n + "/tests/test_" + n + ".py" == n + "/tests/test_" + n + ".py";
  }

  /** A package's `__init__.py` gets a test module named after the package. */
  lemma PackageToTest(d: string, n: string)
    requires n != [] && '/' !in n
    ensures TryMatch(d + "/" + n + "/__init__.py", "%/__init__.py", "%/tests/test_%.py") ==
      Some(d + "/" + n + "/tests/test_" + n + ".py")
  {
    var f := d + "/" + n + "/__init__.py";
    var r := d + "/" + n + "/tests/test_" + n + ".py";
    PackageTestName(n);
    assert d + "/" + (n + "/tests/test_" + n + ".py") == r;
    assert |r| != |f|;
    LeadingWildcardRule(f, "%/__init__.py", "%/tests/test_%.py", d, n, "/__init__.py", r);
  }

  /**
   * Every module maps to the `tests.py` beside it, except `tests.py`
   * itself: that rewrite gives the filename back, so it is no candidate.
   */
  lemma ModuleToTestsFile(d: string, n: string)
    requires n != [] && '/' !in n
    ensures TryMatch(d + "/" + n + ".py", "%.py", "tests.py") ==
      if n == "tests" then None else Some(d + "/tests.py")
  {
    var f := d + "/" + n + ".py";
    var r := d + "/tests.py";
    SameTestsFile(d, n);
    SubstLiteral("tests.py", n);
    assert r == d + "/" + Subst("tests.py", n);
    LeadingWildcardRule(f, "%.py", "tests.py", d, n, ".py", r);
  }

  /** The `tests.py` beside a module is the module itself only for `tests.py`. */
  lemma SameTestsFile(d: string, n: string)
    ensures (d + "/tests.py" == d + "/" + n + ".py") <==> n == "tests"
  {
    var f := d + "/" + n + ".py";
    var r := d + "/tests.py";
    if r == f {
      assert n == f[|d| + 1..|f| - 3] == r[|d| + 1..|r| - 3];
    }
    if n == "tests" {
      assert r == f;
    }
  }

  /** The `.` of a template is a literal dot: only names ending in ".py" match "%.py". */
  lemma DotIsLiteral(f: string, b: string)
    requires !EndsWith(f, ".py")
    ensures TryMatch(f, "%.py", b) == None
  {
    var c := Compiled([], true, ".py");
    assert Source(c) == "%.py";
    CompileSource(c);
    forall m: Match
      ensures !IsMatch(f, c, m)
    {
      if IsMatch(f, c, m) {
        MatchEndsWith(f, c, m.start, m.sep);
        SubstLiteral(".py", m.sep);
      }
    }
    TryMatchWithoutMatch(f, "%.py", b);
  }

  /** A test module under `tests/` maps back to the module beside the directory. */
  lemma TestToModule(d: string, n: string)
    requires n != [] && '/' !in n
    ensures TryMatch(d + "/tests/test_" + n + ".py", "tests/test_%.py", "%.py") == Some(d + "/" + n + ".py")
  {
    var f := d + "/tests/test_" + n + ".py";
    var r := d + "/" + n + ".py";
    assert "%.py" == [Wildcard] + ".py";
    SubstLeading(n, ".py");
    assert r == d + "/" + Subst("%.py", n);
    assert |r| != |f|;
    TestDirectoryRule(f, "tests/test_%.py", "%.py", d, n, ".py", r);
  }

  /**
   * The rule from "tests/test_%" and a literal: the match takes the last two
   * components, and the rewrite keeps what comes before them.
   */
  lemma TestDirectoryRule(f: string, a: string, b: string, d: string, n: string, close: string, r: string)
    requires a == "tests/test_" + [Wildcard] + close && Wildcard !in close
    requires f == d + "/tests/test_" + n + close && n != [] && '/' !in n
    requires r == d + "/" + Subst(b, n)
    ensures TryMatch(f, a, b) == if r == f then None else Some(r)
  {
    var c := Compiled("tests/test_", true, close);
    assert Source(c) == a;
    CompileSource(c);
    TestDirectoryLeftmost(d, n, close);
    assert f[..|d|] == d;
    TryMatchOfLeftmost(f, a, b, Match(|d|, "/", n));
  }

  /** The match of "tests/test_%" and a literal takes the last two components. */
  lemma TestDirectoryMatch(d: string, n: string, close: string)
    requires Wildcard !in close
    requires n != [] && '/' !in n
    ensures IsMatch(d + "/tests/test_" + n + close, Compiled("tests/test_", true, close), Match(|d|, "/", n))
  {
    assert "/tests/test_"[1..] == "tests/test_";
    ComponentMatch(d, "/tests/test_", n, close);
  }

  /** ... and it is the first match. */
  lemma TestDirectoryLeftmost(d: string, n: string, close: string)
    requires Wildcard !in close
    requires n != [] && '/' !in n
    ensures IsLeftmost(d + "/tests/test_" + n + close, Compiled("tests/test_", true, close), Match(|d|, "/", n))
  {
    var f := d + "/tests/test_" + n + close;
    var c := Compiled("tests/test_", true, close);
    TestDirectoryMatch(d, n, close);
    assert f[|d|] == '/' && f[|d| + 6] == '/';
    EarlierBlocked(f, c, 0, [], |d|);
    forall t: nat | t < |d|
      ensures !MatchesAt(f, c, t, "/")
    {
      if f[t] == '/' {
        EarlierBlocked(f, c, t, "/", |d|);
      }
    }
  }

  /**
   * A start before the '/' at `k` puts that '/' either against a letter of
   * "tests" or, with the '/' of "tests/", inside the capture.
   */
  lemma EarlierBlocked(f: string, c: Compiled, t: nat, sep: string, k: nat)
    requires c.prefix == "tests/test_" && c.wild && Wildcard !in c.suffix
    requires Boundary(f, t, sep) && t + |sep| <= k && k + 12 <= |f| - |c.suffix|
    requires f[k] == '/' && f[k + 6] == '/'
    ensures !MatchesAt(f, c, t, sep)
  {
    if t + |sep| + 11 <= k + 6 {
      SlashInCapture(f, c, t, sep, k + 6);
    } else {
      assert c.prefix[k - t - |sep|] != '/';
      PrefixDiffers(f, c, t, sep, k);
    }
  }

  /**
   * The boundary back-reference at work: the second wildcard of a template
   * such as "%/tests/test_%.py" reads as the text the boundary took, here
   * the empty start of the filename; so a relative filename whose test name
   * is empty matches, with the first component as the capture.
   */
  lemma BackReferenceRule(f: string, a: string, b: string, n: string, mid: string, post: string, r: string)
    requires a == [Wildcard] + mid + [Wildcard] + post && Wildcard !in mid && Wildcard !in post
    requires f == n + mid + post && n != [] && '/' !in n
    requires r == Subst(b, n)
    ensures TryMatch(f, a, b) == if r == f then None else Some(r)
  {
    var c := Compiled([], true, mid + [Wildcard] + post);
    assert Source(c) == a;
    CompileSource(c);
    BackReferenceLeftmost(f, n, mid, post);
    assert f[..0] + [] + Subst(b, n) == r;
    TryMatchOfLeftmost(f, a, b, Match(0, [], n));
  }

  /** The match of the back-reference example, at the start of the filename. */
  lemma BackReferenceLeftmost(f: string, n: string, mid: string, post: string)
    requires Wildcard !in mid && Wildcard !in post
    requires f == n + mid + post && n != [] && '/' !in n
    ensures IsLeftmost(f, Compiled([], true, mid + [Wildcard] + post), Match(0, [], n))
  {
    SubstOne(mid, [], post);
    assert mid + [] + post == mid + post;
    assert f[|f| - |mid + post|..] == mid + post;
    assert f[0..|f| - |mid + post|] == n;
  }

  /** The `__init__.py` of a package. */
  lemma PackageInitName(n: string)
    ensures Subst("%/__init__.py", n) == n + "/__init__.py"
  {
    assert "%/__init__.py" == [Wildcard] + "/__init__.py";
    SubstLeading(n, "/__init__.py");
  }

  /** "%/tests/test_%.py" maps the relative "tests/test_.py" of a package to its `__init__.py`. */
  lemma BoundaryBackReference(n: string)
    requires n != [] && '/' !in n
    ensures TryMatch(n + "/tests/test_.py", "%/tests/test_%.py", "%/__init__.py") == Some(n + "/__init__.py")
  {
    var f := n + "/tests/test_.py";
    var r := n + "/__init__.py";
    PackageInitName(n);
    assert |r| != |f|;
    assert "%/tests/test_%.py" == [Wildcard] + "/tests/test_" + [Wildcard] + ".py";
    assert f == n + "/tests/test_" + ".py";
    BackReferenceRule(f, "%/tests/test_%.py", "%/__init__.py", n, "/tests/test_", ".py", r);
  }

  /**
   * A template with two wildcards matches only a filename that ends with
   * its closing literal read with one of the two boundaries.
   */
  lemma TwoWildcardsNoMatch(f: string, a: string, b: string, mid: string, post: string)
    requires a == [Wildcard] + mid + [Wildcard] + post && Wildcard !in mid && Wildcard !in post
    requires !EndsWith(f, mid + post) && !EndsWith(f, mid + "/" + post)
    ensures TryMatch(f, a, b) == None
  {
    var c := Compiled([], true, mid + [Wildcard] + post);
    assert Source(c) == a;
    CompileSource(c);
    TwoWildcardClosings(mid, post);
    forall m: Match
      ensures !IsMatch(f, c, m)
    {
      if IsMatch(f, c, m) {
        MatchEndsWith(f, c, m.start, m.sep);
      }
    }
    TryMatchWithoutMatch(f, a, b);
  }

  /** The closing literal of "%" + mid + "%" + post, read with either boundary. */
  lemma TwoWildcardClosings(mid: string, post: string)
    requires Wildcard !in mid && Wildcard !in post
    ensures Closing(Compiled([], true, mid + [Wildcard] + post), []) == mid + post
    ensures Closing(Compiled([], true, mid + [Wildcard] + post), "/") == mid + "/" + post
  {
    SubstOne(mid, [], post);
    SubstOne(mid, "/", post);
    assert mid + [] + post == mid + post;
  }

  /**
   * ... and it is why the reverse of the package rule does not lead back:
   * with a '/' boundary the second wildcard reads as "/", with an empty one
   * as nothing, and a package's test module ends with neither reading.
   */
  lemma PackageTestNoReturn(d: string, n: string)
    requires n != [] && '/' !in n
    ensures TryMatch(d + "/" + n + "/tests/test_" + n + ".py", "%/tests/test_%.py", "%/__init__.py") == None
  {
    var f := d + "/" + n + "/tests/test_" + n + ".py";
    PackageTestEnding(d, n);
    assert "%/tests/test_%.py" == [Wildcard] + "/tests/test_" + [Wildcard] + ".py";
    TwoWildcardsNoMatch(f, "%/tests/test_%.py", "%/__init__.py", "/tests/test_", ".py");
  }

  /** A package's test module ends with neither reading of "/tests/test_%.py". */
  lemma PackageTestEnding(d: string, n: string)
    requires n != [] && '/' !in n
    ensures !EndsWith(d + "/" + n + "/tests/test_" + n + ".py", "/tests/test_" + ".py")
    ensures !EndsWith(d + "/" + n + "/tests/test_" + n + ".py", "/tests/test_" + "/" + ".py")
  {
    var f := d + "/" + n + "/tests/test_" + n + ".py";
    var g := "/tests/test_" + n + ".py";
    assert f == (d + "/" + n) + g;
    assert EndsWith(f, g);
    assert "/tests/test_" + ".py" == "/tests/test_.py";
    assert "/tests/test_" + "/" + ".py" == "/tests/test_/.py";
    TestNameEndings(n);
    EndsWithWithin(f, g, "/tests/test_.py");
    EndsWithWithin(f, g, "/tests/test_/.py");
  }

  /**
   * "/tests/test_" + n + ".py" ends with neither "/tests/test_.py" (the '_'
   * before the name, or a letter of the name, stands where that literal has
   * a letter or a '/') nor "/tests/test_/.py" (the name's last character
   * stands where it has a '/').
   */
  lemma TestNameEndings(n: string)
    requires n != [] && '/' !in n
    ensures !EndsWith("/tests/test_" + n + ".py", "/tests/test_.py")
    ensures !EndsWith("/tests/test_" + n + ".py", "/tests/test_/.py")
  {
    var g := "/tests/test_" + n + ".py";
    var L := |n|;
    var j := if L < 6 then 11 - L else 6;
    if L < 6 {
      assert g[L..][j] == g[11] == '_';
      assert "/tests/test_.py"[j] != '_';
    } else {
      assert g[L..][j] == g[L + 6] == n[L - 6];
      assert "/tests/test_.py"[j] == '/';
    }
    assert g[|g| - 15..] == g[L..];
    assert g[|g| - 16..][12] == g[L + 11] == n[L - 1];
    assert "/tests/test_/.py"[12] == '/';
  }

  /** Ending with `t` is decided by a longer ending `g`. */
  lemma EndsWithWithin(f: string, g: string, t: string)
    requires EndsWith(f, g) && |t| <= |g|
    ensures EndsWith(f, t) <==> EndsWith(g, t)
  {
    assert f[|f| - |t|..] == g[|g| - |t|..];
  }

  /**
   * A rule whose source template has no wildcard rewrites the whole last
   * part of a filename that ends with it after a '/'.
   */
  lemma LiteralRule(f: string, a: string, b: string, d: string, r: string)
    requires Wildcard !in a && Wildcard !in b
    requires f == d + "/" + a && r == d + "/" + b
    ensures TryMatch(f, a, b) == if r == f then None else Some(r)
  {
    var c := Compiled(a, false, []);
    assert Source(c) == a;
    CompileSource(c);
    LiteralLeftmost(f, a, d);
    SubstLiteral(b, []);
    assert f[..|d|] == d;
    TryMatchOfLeftmost(f, a, b, Match(|d|, "/", []));
  }

  /** A literal template matches only as the whole part after one '/'. */
  lemma LiteralLeftmost(f: string, a: string, d: string)
    requires f == d + "/" + a
    ensures IsLeftmost(f, Compiled(a, false, []), Match(|d|, "/", []))
  {
    assert f[|d|] == '/' && f[|d| + 1..] == a;
  }

  /** A package's `__init__.py` maps to the `tests.py` beside it. */
  lemma InitToTests(d: string)
    ensures TryMatch(d + "/__init__.py", "__init__.py", "tests.py") == Some(d + "/tests.py")
  {
    var f := d + "/__init__.py";
    var r := d + "/tests.py";
    assert |f| != |r|;
    LiteralRule(f, "__init__.py", "tests.py", d, r);
  }

  /**
   * Duplicates are kept: for a package's `__init__.py`, the module rule
   * "%.py" -> "tests.py" and the rule "__init__.py" -> "tests.py" both
   * propose the same `tests.py`.
   */
  lemma DuplicateCandidates(d: string)
    ensures multiset(Candidates(d + "/__init__.py"))[d + "/tests.py"] >= 2
  {
    assert Patterns[6] == ("%.py", "tests.py") && Patterns[7] == ("__init__.py", "tests.py");
    var f := d + "/__init__.py";
    var c := d + "/tests.py";
    assert f == d + "/" + "__init__" + ".py";
    ModuleToTestsFile(d, "__init__");
    InitToTests(d);
    DuplicatesKept(f, 6, 7, c);
  }

  /**
   * The module rule undoes itself: rewriting a module to its test module
   * and the test module back by the reversed rule gives the module again.
   */
  lemma ModuleTestRoundTrip(d: string, n: string)
    requires n != [] && '/' !in n
    ensures TryMatch(d + "/" + n + ".py", "%.py", "tests/test_%.py").Some?
    ensures TryMatch(TryMatch(d + "/" + n + ".py", "%.py", "tests/test_%.py").value, "tests/test_%.py", "%.py") ==
      Some(d + "/" + n + ".py")
  {
    ModuleToTest(d, n);
    TestToModule(d, n);
  }
}
