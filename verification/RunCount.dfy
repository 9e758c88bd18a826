/**
  How often the server of modules/acpc_server/bm_server.c starts a match: as often as was asked for, unless a connection
  it is played over is lost.
 */
module RunCount {
  import opened Queue

  /** What can happen to the server's lists. */
  datatype Step =
    | Start(entry: nat, now: Time)
    | Finish(k: nat)
    | Clean
    | Hangup(conn: nat)
    | Submit(entry: nat, m: Match)
    | Open(entry: nat)
    | Logon(conn: nat, user: nat)
    | Sweep

  ghost predicate Does(v: View, step: Step, w: View) {
    match step
    case Start(entry, now) =>
      entry in v.listed && entry < |v.matches| && v.matches[entry].numRuns > 0 && w == Started(v, entry, now)
    case Finish(k) => k < |v.runs| && Below(v.runs, |v.matches|) && w == Finished(v, k)
    case Clean => Below(v.listed, |v.matches|) && w == Cleaned(v)
    case Hangup(conn) => conn < |v.conns| && w == Hungup(v, conn)
    case Submit(entry, m) =>
      entry <= |v.matches| && entry !in v.listed && m.numRuns >= 0 && w == Queued(v, entry, m)
    case Open(entry) => entry <= |v.conns| && w == Opened(v, entry)
    case Logon(conn, user) => conn < |v.conns| && w == LoggedOn(v, conn, user)
    case Sweep => Below(v.open, |v.conns|) && w == Swept(v)
  }

  /** The steps lead from the first view to the last, one after the other. */
  ghost predicate Leads(vs: seq<View>, steps: seq<Step>) {
    |vs| == |steps| + 1 && forall k: nat :: LeadsAt(vs, steps, k)
  }

  ghost predicate LeadsAt(vs: seq<View>, steps: seq<Step>, k: nat)
    requires |vs| == |steps| + 1
  {
    k < |steps| ==> Does(vs[k], steps[k], vs[k + 1])
  }

  /** How often the match at an entry is started. */
  function Starts(steps: seq<Step>, entry: nat): nat {
    if steps == [] then 0
    else
      var last := steps[|steps| - 1];
      Starts(steps[..|steps| - 1], entry) + if last.Start? && last.entry == entry then 1 else 0
  }

  /** A connection the match is played over is closed. */
  predicate Loses(step: Step, m: Match) {
    step.Hangup? && MatchUsesConnection(m, step.conn)
  }

  predicate Lost(steps: seq<Step>, m: Match) {
    exists k :: 0 <= k < |steps| && Loses(steps[k], m)
  }

  /** Nothing else is queued at the entry. */
  predicate Undisturbed(steps: seq<Step>, entry: nat) {
    forall k :: 0 <= k < |steps| ==> !(steps[k].Submit? && steps[k].entry == entry)
  }

  /** Of match m at the entry, started s times: on the list it has the other runs left, off it has none. */
  ghost predicate Keeps(v: View, entry: nat, m: Match, s: nat, lost: bool) {
    && entry < |v.matches| && v.matches[entry].players == m.players && s <= m.numRuns
    && (entry in v.listed ==> 0 <= v.matches[entry].numRuns <= m.numRuns - s)
    && (!lost ==> if entry in v.listed then v.matches[entry].numRuns == m.numRuns - s else s == m.numRuns)
  }

  lemma StepKeeps(v: View, step: Step, w: View, entry: nat, m: Match, s: nat, lost: bool)
    requires Does(v, step, w) && Keeps(v, entry, m, s, lost) && !(step.Submit? && step.entry == entry)
    ensures Keeps(w, entry, m, s + if step.Start? && step.entry == entry then 1 else 0, lost || Loses(step, m))
  {
    if step.Clean? { KeptMeans(v.listed, v.matches); }
  }

  /**
    A match queued for some runs is started no more often, and exactly as often, with those still to come, unless a
    connection it is played over is lost.
   */
  lemma {:induction false} RunsAreCounted(vs: seq<View>, steps: seq<Step>, a: nat, b: nat)
    requires Leads(vs, steps) && a < b <= |steps| && steps[a].Submit?
    requires Undisturbed(steps[a + 1..b], steps[a].entry)
    ensures var m := steps[a].m;
      Keeps(vs[b], steps[a].entry, m, Starts(steps[a + 1..b], steps[a].entry), Lost(steps[a + 1..b], m))
  {
    var entry, m := steps[a].entry, steps[a].m;
    if b == a + 1 {
      assert LeadsAt(vs, steps, a);
      assert steps[a + 1..b] == [];
    } else {
      var before, after := steps[a + 1..b - 1], steps[a + 1..b];
      assert after[..|after| - 1] == before && after[|after| - 1] == steps[b - 1];
      assert forall k :: 0 <= k < |before| ==> before[k] == after[k];
      RunsAreCounted(vs, steps, a, b - 1);
      assert LeadsAt(vs, steps, b - 1);
      StepKeeps(vs[b - 1], steps[b - 1], vs[b], entry, m, Starts(before, entry), Lost(before, m));
      LostLater(before, steps[b - 1], m);
    }
  }

  lemma LostLater(before: seq<Step>, step: Step, m: Match)
    ensures Lost(before + [step], m) <==> Lost(before, m) || Loses(step, m)
  {
    var after := before + [step];
    if Lost(before, m) {
      var k :| 0 <= k < |before| && Loses(before[k], m);
      assert after[k] == before[k];
    }
    assert after[|before|] == step;
  }

  // ---------------------------------------------------------------- putting steps together

  /** Steps that lead from one view to the other. */
  ghost predicate Path(v: View, steps: seq<Step>, w: View) {
    exists vs :: Leads(vs, steps) && vs[0] == v && vs[|vs| - 1] == w
  }

  lemma NoStep(v: View)
    ensures Path(v, [], v)
  {
    var vs := [v];
    forall k: nat ensures LeadsAt(vs, [], k) {}
    assert Leads(vs, []);
  }

  lemma OneStepMore(v: View, steps: seq<Step>, u: View, step: Step, w: View)
    requires Path(v, steps, u) && Does(u, step, w)
    ensures Path(v, steps + [step], w)
  {
    var vs :| Leads(vs, steps) && vs[0] == v && vs[|vs| - 1] == u;
    var ws, more := vs + [w], steps + [step];
    forall k: nat ensures LeadsAt(ws, more, k) { assert LeadsAt(vs, steps, k); }
    assert Leads(ws, more) && ws[0] == v && ws[|ws| - 1] == w;
  }

  lemma {:induction false} PathsJoin(v: View, steps: seq<Step>, u: View, more: seq<Step>, w: View)
    requires Path(v, steps, u) && Path(u, more, w)
    ensures Path(v, steps + more, w)
  {
    var vs :| Leads(vs, more) && vs[0] == u && vs[|vs| - 1] == w;
    PathJoins(v, steps, u, vs, more);
  }

  lemma {:induction false} PathJoins(v: View, steps: seq<Step>, u: View, vs: seq<View>, more: seq<Step>)
    requires Path(v, steps, u) && Leads(vs, more) && vs[0] == u
    ensures Path(v, steps + more, vs[|more|])
    decreases |more|
  {
    hide Does;
    if more == [] {
      assert steps + more == steps;
    } else {
      var n := |more| - 1;
      assert LeadsAt(vs, more, n);
      var us, fewer := vs[..n + 1], more[..n];
      forall k: nat ensures LeadsAt(us, fewer, k) { assert LeadsAt(vs, more, k); }
      PathJoins(v, steps, u, us, fewer);
      OneStepMore(v, steps + more[..n], vs[n], more[n], vs[n + 1]);
      assert steps + more == steps + more[..n] + [more[n]];
    }
  }

  lemma CleanPath(v: View)
    requires Below(v.listed, |v.matches|)
    ensures Path(v, [Clean], Cleaned(v))
  {
    NoStep(v);
    OneStepMore(v, [], v, Clean, Cleaned(v));
    assert [] + [Clean] == [Clean];
  }

  lemma StartPath(v: View, best: nat, now: Time)
    requires Below(v.listed, |v.matches|) && best in Cleaned(v).listed && best < |v.matches|
    requires v.matches[best].numRuns > 0
    ensures Path(v, [Clean, Start(best, now)], Started(Cleaned(v), best, now))
  {
    CleanPath(v);
    OneStepMore(v, [Clean], Cleaned(v), Start(best, now), Started(Cleaned(v), best, now));
    assert [Clean] + [Start(best, now)] == [Clean, Start(best, now)];
  }

  lemma FinishDoes(v: View, k: nat)
    requires k < |v.runs| && Below(v.runs, |v.matches|)
    ensures Does(v, Finish(k), Finished(v, k))
  {
  }

  lemma SweepDoes(v: View)
    requires Below(v.open, |v.conns|)
    ensures Does(v, Sweep, Swept(v))
  {
  }

  lemma OpenDoes(v: View, entry: nat)
    requires entry <= |v.conns|
    ensures Does(v, Open(entry), Opened(v, entry))
  {
  }

  /** What a line does is a step, or nothing. */
  lemma HandlePath(conf: Config, users: nat, v: View, w: View, conn: nat, line: Line, now: Time)
    returns (steps: seq<Step>)
    requires conn < |v.conns| && Handles(conf, users, v, w, conn, line, now)
    ensures Path(v, steps, w)
  {
    NoStep(v);
    steps := [];
    if w != v {
      var step: Step;
      if w == Hungup(v, conn) {
        step := Hangup(conn);
      } else if v.conns[conn].status == Unvalidated {
        step := Logon(conn, line.user);
      } else {
        var m := Asked(conf, line.command, conn, v.conns[conn].user, now);
        var entry: nat :| entry <= |v.matches| && entry !in v.listed && w == Queued(v, entry, m);
        step := Submit(entry, m);
      }
      OneStepMore(v, [], v, step, w);
      steps := [] + [step];
    }
  }

  /**
    Whatever steps the server takes after queueing a match: it starts it at most as often as was asked for, and as often
    exactly, but for the runs the match on the list still has, unless a connection it is played over is closed.
   */
  lemma StartedAsAsked(v: View, steps: seq<Step>, w: View, a: nat)
    requires Path(v, steps, w) && a < |steps| && steps[a].Submit? && Undisturbed(steps[a + 1..], steps[a].entry)
    ensures var entry, m, after := steps[a].entry, steps[a].m, steps[a + 1..];
      && Starts(after, entry) <= m.numRuns
      && (!Lost(after, m) ==>
            if entry in w.listed then
              entry < |w.matches| && Starts(after, entry) + w.matches[entry].numRuns == m.numRuns
            else Starts(after, entry) == m.numRuns)
  {
    var vs :| Leads(vs, steps) && vs[0] == v && vs[|vs| - 1] == w;
    assert steps[a + 1..|steps|] == steps[a + 1..];
    RunsAreCounted(vs, steps, a, |steps|);
  }
}
