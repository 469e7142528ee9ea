/**
 * Pruning test directories out of installed packages.  The directory walk is
 * given as the sequence of directories it lists, in walk order; for each one
 * it is known whether it is (still) a directory when its turn comes and
 * whether a recursive delete of it would raise.
 */
module TestPruner {

  datatype Dir = Dir(name: string, isDir: bool, removalFails: bool)

  /** Substring that marks a directory as test code. */
  const TESTS: string := "tests"

  ghost predicate OccursAt(s: string, sub: string, i: int) {
    0 <= i && i + |sub| <= |s| && s[i..i + |sub|] == sub
  }

  /** Python's `sub in s` for strings: `sub` occurs at some position of `s`. */
  function Contains(s: string, sub: string): (r: bool)
    ensures r <==> exists i :: OccursAt(s, sub, i)
    decreases |s|
  {
    if |sub| > |s| then false
    else if s[..|sub|] == sub then
      assert OccursAt(s, sub, 0);
      true
    else
      var rest := Contains(s[1..], sub);
      assert rest ==> exists i :: OccursAt(s, sub, i) by {
        if rest {
          var i :| OccursAt(s[1..], sub, i);
          assert s[1..][i..i + |sub|] == s[i + 1..i + 1 + |sub|];
          assert OccursAt(s, sub, i + 1);
        }
      }
      assert (exists i :: OccursAt(s, sub, i)) ==> rest by {
        if i :| OccursAt(s, sub, i) {
          assert i != 0;
          assert s[1..][i - 1..i - 1 + |sub|] == s[i..i + |sub|];
          assert OccursAt(s[1..], sub, i - 1);
        }
      }
      rest
  }

  /** A directory the pruner deletes: it still exists and its name contains "tests". */
  predicate Eligible(d: Dir)
    ensures Eligible(d) <==> d.isDir && exists i :: OccursAt(d.name, TESTS, i)
  {
    d.isDir && Contains(d.name, TESTS)
  }

  /** The exit code of a pruning run and the indices of the directories it tried to delete. */
  datatype Pruning = Pruning(code: int, attempted: seq<nat>)

  /**
   * Pruning the listing from position `from` on: only eligible directories
   * are attempted, each at most once and in walk order, and the exit code is
   * 0 or 1.
   */
  function Prune(dirs: seq<Dir>, from: nat): (p: Pruning)
    requires from <= |dirs|
    ensures p.code == 0 || p.code == 1
    ensures forall k :: 0 <= k < |p.attempted| ==>
      from <= p.attempted[k] < |dirs| && Eligible(dirs[p.attempted[k]])
    ensures forall k, l :: 0 <= k < l < |p.attempted| ==> p.attempted[k] < p.attempted[l]
    decreases |dirs| - from
  {
    if from == |dirs| then Pruning(0, [])
    else if Eligible(dirs[from]) then
      if dirs[from].removalFails then Pruning(1, [from])
      else
        var rest := Prune(dirs, from + 1);
        Pruning(rest.code, [from] + rest.attempted)
    else Prune(dirs, from + 1)
  }

  /** The exit code is 0 exactly when no eligible directory's deletion raises. */
  lemma {:induction false} PruneCode(dirs: seq<Dir>, from: nat)
    requires from <= |dirs|
    ensures Prune(dirs, from).code == 0 <==>
      forall j :: from <= j < |dirs| && Eligible(dirs[j]) ==> !dirs[j].removalFails
    decreases |dirs| - from
  {
    if from < |dirs| {
      PruneCode(dirs, from + 1);
    }
  }

  /** When the exit code is 0, every eligible directory was attempted. */
  lemma {:induction false} PruneAttemptsAllOnSuccess(dirs: seq<Dir>, from: nat)
    requires from <= |dirs|
    requires Prune(dirs, from).code == 0
    ensures forall j :: from <= j < |dirs| && Eligible(dirs[j]) ==> j in Prune(dirs, from).attempted
    decreases |dirs| - from
  {
    if from < |dirs| {
      PruneAttemptsAllOnSuccess(dirs, from + 1);
    }
  }

  /** When the exit code is 1, the last attempt is a deletion that raised. */
  lemma {:induction false} PruneEndsAtFailure(dirs: seq<Dir>, from: nat)
    requires from <= |dirs|
    requires Prune(dirs, from).code == 1
    ensures |Prune(dirs, from).attempted| > 0
    ensures dirs[Last(Prune(dirs, from).attempted)].removalFails
    decreases |dirs| - from
  {
    if from < |dirs| && !(Eligible(dirs[from]) && dirs[from].removalFails) {
      PruneEndsAtFailure(dirs, from + 1);
    }
  }

  /** No attempt but possibly the last one is a deletion that raised. */
  ghost predicate OnlyLastFails(dirs: seq<Dir>, a: seq<nat>) {
    forall k :: 0 <= k < |a| - 1 ==> a[k] < |dirs| && !dirs[a[k]].removalFails
  }

  /** Only the last attempt can be a deletion that raised: the run stops at the first one. */
  lemma {:induction false} PruneStopsAtFirstFailure(dirs: seq<Dir>, from: nat)
    requires from <= |dirs|
    ensures OnlyLastFails(dirs, Prune(dirs, from).attempted)
    decreases |dirs| - from
  {
    if from < |dirs| && !(Eligible(dirs[from]) && dirs[from].removalFails) {
      PruneStopsAtFirstFailure(dirs, from + 1);
      if Eligible(dirs[from]) {
        var a := Prune(dirs, from).attempted;
        var rest := Prune(dirs, from + 1).attempted;
        assert a == [from] + rest;
        forall k | 0 <= k < |a| - 1
          ensures a[k] < |dirs| && !dirs[a[k]].removalFails
        {
          if k > 0 {
            assert a[k] == rest[k - 1];
          }
        }
      }
    }
  }

  /** No eligible directory before the last attempt was skipped. */
  lemma {:induction false} PruneSkipsNothingBeforeLast(dirs: seq<Dir>, from: nat)
    requires from <= |dirs|
    ensures var a := Prune(dirs, from).attempted;
      |a| > 0 ==> forall j :: from <= j < Last(a) && Eligible(dirs[j]) ==> j in a
    decreases |dirs| - from
  {
    if from < |dirs| && !(Eligible(dirs[from]) && dirs[from].removalFails) {
      PruneSkipsNothingBeforeLast(dirs, from + 1);
      if Eligible(dirs[from]) {
        var a := Prune(dirs, from).attempted;
        var rest := Prune(dirs, from + 1).attempted;
        assert a == [from] + rest;
        if |rest| > 0 {
          assert Last(a) == Last(rest);
        }
      }
    }
  }

  function Last(a: seq<nat>): nat
    requires |a| > 0
  {
    a[|a| - 1]
  }

  /**
   * The pruner: walks the listing, tries to delete every eligible directory,
   * and returns 1 at the first deletion that raises, 0 when none does.
   */
  method RemoveTrees(dirs: seq<Dir>) returns (code: int, attempted: seq<nat>)
    ensures Pruning(code, attempted) == Prune(dirs, 0)
  {
    attempted := [];
    var i := 0;
    while i < |dirs|
      invariant 0 <= i <= |dirs|
      invariant Prune(dirs, 0) == Pruning(Prune(dirs, i).code, attempted + Prune(dirs, i).attempted)
    {
      var dir := dirs[i];
      if dir.isDir && Contains(dir.name, TESTS) {
        attempted := attempted + [i];
        if dir.removalFails {
          return 1, attempted;
        }
        assert attempted + Prune(dirs, i + 1).attempted == attempted[..|attempted| - 1] + ([i] + Prune(dirs, i + 1).attempted);
      }
      i := i + 1;
    }
    code := 0;
    assert attempted + [] == attempted;
  }

  /**
   * A walk over pkgA/tests, pkgB/lib and pkgC/unit_tests deletes the two
   * directories whose names contain "tests" and exits with 0.
   */
  lemma PackageScenario()
    ensures var dirs := [Dir("pkgA", true, false), Dir("pkgB", true, false), Dir("pkgC", true, false),
                         Dir("tests", true, false), Dir("lib", true, false), Dir("unit_tests", true, false)];
      Prune(dirs, 0) == Pruning(0, [3, 5])
  {
    var dirs := [Dir("pkgA", true, false), Dir("pkgB", true, false), Dir("pkgC", true, false),
                 Dir("tests", true, false), Dir("lib", true, false), Dir("unit_tests", true, false)];
    assert Contains("unit_tests", TESTS) by {
      assert "unit_tests"[5..] == TESTS;
      assert Contains("unit_tests"[5..], TESTS);
      assert Contains("unit_tests"[4..], TESTS);
      assert Contains("unit_tests"[3..], TESTS);
      assert Contains("unit_tests"[2..], TESTS);
      assert Contains("unit_tests"[1..], TESTS);
    }
    assert Prune(dirs, 6) == Pruning(0, []);
    assert Prune(dirs, 5) == Pruning(0, [5]);
    assert !Contains("lib", TESTS);
    assert Prune(dirs, 4) == Pruning(0, [5]);
    assert Contains("tests", TESTS);
    assert Prune(dirs, 3) == Pruning(0, [3, 5]);
    assert !Contains("pkgC", TESTS) && !Contains("pkgB", TESTS) && !Contains("pkgA", TESTS);
  }
}
