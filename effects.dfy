/**
 * Issuing a sequence of database statements the way both reconcilers do:
 * each statement is executed in order and the pass returns at the first one
 * that reports an error. Whether a statement fails is decided by the
 * database, which the model takes as a predicate `fails`.
 */
module Effects {

  /** The statements actually issued, and whether the last of them failed. */
  datatype Outcome<S> = Outcome(issued: seq<S>, failed: bool)

  /** No statement in `steps` fails. */
  predicate NoneFail<S>(steps: seq<S>, fails: S -> bool)
  {
    forall k :: 0 <= k < |steps| ==> !fails(steps[k])
  }

  /** Runs `script` up to and including its first failing statement. */
  function Run<S>(script: seq<S>, fails: S -> bool): Outcome<S>
  {
    if script == [] then Outcome([], false)
    else if fails(script[0]) then Outcome([script[0]], true)
    else
      var rest := Run(script[1..], fails);
      Outcome([script[0]] + rest.issued, rest.failed)
  }

  /**
   * What Run issues: a prefix of the script; all of it when nothing fails;
   * otherwise up to a last statement that fails, every earlier one succeeding.
   */
  lemma RunIssues<S>(script: seq<S>, fails: S -> bool)
    ensures Run(script, fails).issued <= script
    ensures Run(script, fails).failed <==> !NoneFail(script, fails)
    ensures !Run(script, fails).failed ==> Run(script, fails).issued == script
    ensures var r := Run(script, fails);
            r.failed ==> |r.issued| > 0 && fails(r.issued[|r.issued| - 1])
                         && NoneFail(r.issued[..|r.issued| - 1], fails)
  {
    RunPrefix(script, fails);
    RunFailsIff(script, fails);
    RunLast(script, fails);
  }

  lemma {:induction false} RunPrefix<S>(script: seq<S>, fails: S -> bool)
    ensures Run(script, fails).issued <= script
    ensures !Run(script, fails).failed ==> Run(script, fails).issued == script
    decreases |script|
  {
    if script != [] && !fails(script[0]) {
      var tail := script[1..];
      RunPrefix(tail, fails);
      assert script == [script[0]] + tail;
    }
  }

  lemma {:induction false} RunFailsIff<S>(script: seq<S>, fails: S -> bool)
    ensures Run(script, fails).failed <==> !NoneFail(script, fails)
    decreases |script|
  {
    if script != [] && !fails(script[0]) {
      var tail := script[1..];
      RunFailsIff(tail, fails);
      assert forall k :: 1 <= k < |script| ==> script[k] == tail[k - 1];
    }
  }

  lemma {:induction false} RunLast<S>(script: seq<S>, fails: S -> bool)
    ensures var r := Run(script, fails);
            r.failed ==> |r.issued| > 0 && fails(r.issued[|r.issued| - 1])
                         && NoneFail(r.issued[..|r.issued| - 1], fails)
    decreases |script|
  {
    if script != [] && !fails(script[0]) {
      var tail := script[1..];
      RunLast(tail, fails);
      var r := Run(tail, fails);
      if r.failed {
        var n := |r.issued|;
        assert ([script[0]] + r.issued)[..n] == [script[0]] + r.issued[..n - 1];
      }
    }
  }

  /** A prefix that succeeds is issued whole, and the rest runs as on its own. */
  lemma {:induction false} RunAfter<S>(p: seq<S>, q: seq<S>, fails: S -> bool)
    requires NoneFail(p, fails)
    ensures Run(p + q, fails) == Outcome(p + Run(q, fails).issued, Run(q, fails).failed)
    decreases |p|
  {
    if p == [] {
      assert p + q == q;
    } else {
      assert NoneFail(p[1..], fails) by {
        forall k | 0 <= k < |p| - 1 ensures !fails(p[1..][k]) {
          assert p[1..][k] == p[k + 1];
        }
      }
      assert (p + q)[1..] == p[1..] + q;
      RunCons(p + q, fails);
      RunAfter(p[1..], q, fails);
      var rq := Run(q, fails);
      assert [p[0]] + (p[1..] + rq.issued) == p + rq.issued;
    }
  }

  /** One step of Run past a statement that succeeds. */
  lemma RunCons<S>(script: seq<S>, fails: S -> bool)
    requires script != [] && !fails(script[0])
    ensures Run(script, fails) == Outcome([script[0]] + Run(script[1..], fails).issued, Run(script[1..], fails).failed)
  {
  }

  /**
   * If `log` is a prefix of `script` whose statements all succeed except the
   * last, which fails, then `log` is exactly what running `script` issues.
   */
  lemma RunStopsAt<S>(script: seq<S>, log: seq<S>, fails: S -> bool)
    requires log <= script && |log| > 0
    requires NoneFail(log[..|log| - 1], fails) && fails(log[|log| - 1])
    ensures Run(script, fails) == Outcome(log, true)
  {
    var n := |log| - 1;
    var rest := script[n..];
    assert script == log[..n] + rest;
    assert rest[0] == log[n];
    RunAfter(log[..n], rest, fails);
    assert log[..n] + [log[n]] == log;
  }

  /** A script that nothing in it fails runs to completion. */
  lemma RunAll<S>(script: seq<S>, fails: S -> bool)
    requires NoneFail(script, fails)
    ensures Run(script, fails) == Outcome(script, false)
  {
    RunIssues(script, fails);
  }

  /** Running a concatenation: the second part runs only if the first succeeds. */
  lemma RunAppend<S>(p: seq<S>, q: seq<S>, fails: S -> bool)
    ensures Run(p + q, fails)
            == if Run(p, fails).failed then Run(p, fails)
               else Outcome(p + Run(q, fails).issued, Run(q, fails).failed)
  {
    RunIssues(p, fails);
    var rp := Run(p, fails);
    if rp.failed {
      assert rp.issued <= p + q;
      RunStopsAt(p + q, rp.issued, fails);
    } else {
      RunAfter(p, q, fails);
    }
  }

  /**
   * A step `cs` that fails, reached after a prefix `p` that succeeds, ends the
   * whole script there.
   */
  lemma RunStopsInside<S>(script: seq<S>, p: seq<S>, cs: seq<S>, fails: S -> bool)
    requires p + cs <= script && NoneFail(p, fails) && Run(cs, fails).failed
    ensures Run(script, fails) == Outcome(p + Run(cs, fails).issued, true)
  {
    RunIssues(cs, fails);
    var log := p + Run(cs, fails).issued;
    var k := |Run(cs, fails).issued|;
    assert log[..|log| - 1] == p + Run(cs, fails).issued[..k - 1];
    assert NoneFail(log[..|log| - 1], fails);
    assert log <= script by {
      assert Run(cs, fails).issued == cs[..k];
      assert log == (p + cs)[..|p| + k];
    }
    RunStopsAt(script, log, fails);
  }
}
