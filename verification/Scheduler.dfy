/**
  The server of modules/acpc_server/bm_server.c: connections, queued matches and running jobs in three list pools.
  Processes, sockets and the clock are given.
 */
module Scheduler {
  import opened Pools
  import opened Queue
  import opened RunCount

  /**
    What happens in one turn of the main loop: the jobs that ended, the clock, whether a client connects, who sends
    what.
   */
  datatype Turn = Turn(ended: set<nat>, clock: nat -> Time, arrives: bool, input: map<nat, seq<Line>>)

  class Server {
    const conf: Config
    var waitStart: seq<Time>
    var running: seq<int>
    const conns: Pool<Connection>
    const matches: Pool<Match>
    const jobs: Pool<MatchJob>

    /** The match of every job, the latest job first. */
    ghost function Runs(): seq<nat>
      reads jobs
      requires Below(jobs.live, |jobs.data|)
    {
      seq(|jobs.live|, k requires 0 <= k < |jobs.live| reads jobs requires Below(jobs.live, |jobs.data|)
        => jobs.data[jobs.live[k]].matchEntry)
    }

    ghost function Now(): View
      reads this, conns, matches, jobs
      requires Below(jobs.live, |jobs.data|)
    {
      View(matches.data, matches.live, Runs(), running, conns.data, conns.live)
    }

    ghost predicate Valid()
      reads this, conns, matches, jobs
    {
      && conns.Valid() && matches.Valid() && jobs.Valid()
      && Below(jobs.live, |jobs.data|) && Inv(conf, |waitStart|, Now())
    }

    constructor (conf: Config, waitStart: seq<Time>)
      ensures Valid() && this.conf == conf && this.waitStart == waitStart
      ensures conns.live == [] && matches.live == [] && jobs.live == []
      ensures fresh(conns) && fresh(matches) && fresh(jobs)
    {
      this.conf := conf;
      this.waitStart := waitStart;
      running := seq(|conf.games|, _ => 0);
      conns := new Pool();
      matches := new Pool();
      jobs := new Pool();
    }

    /** How many bots the match starts. */
    static method BotsIn(m: Match) returns (num: int)
      ensures num == BotsInMatch(m.players)
    {
      num := 0;
      for p := 0 to |m.players|
        invariant num == BotsInMatch(m.players[..p])
      {
        assert m.players[..p + 1][..p] == m.players[..p];
        if m.players[p].Bot? {
          num := num + 1;
        }
      }
      assert m.players[..|m.players|] == m.players;
    }

    /** How many bots the jobs run. */
    method CountBots() returns (bots: int)
      requires jobs.Valid() && Below(jobs.live, |jobs.data|) && Below(Runs(), |matches.data|)
      ensures bots == BotsRunning(Runs(), matches.data)
    {
      bots := 0;
      var cur := jobs.FirstEntry();
      ghost var k: nat, runs := 0, Runs();
      assert runs[0..] == runs;
      while cur != NULL
        invariant k <= |jobs.live| && cur == (if k < |jobs.live| then jobs.live[k] else NULL)
        invariant BotsRunning(runs, matches.data) == bots + BotsRunning(runs[k..], matches.data)
        decreases |jobs.live| - k
      {
        BotsStep(runs, k, matches.data);
        assert runs[k] == jobs.data[cur].matchEntry;
        var more := BotsIn(matches.data[jobs.data[cur].matchEntry]);
        bots := bots + more;
        cur := jobs.NextEntry(cur, k);
        k := k + 1;
      }
    }

    /** Walks the queue for the match to start; on the way, matches that are over leave the list. */
    method PickBest() returns (best: int)
      requires matches.Valid() && AllFit(conf, |waitStart|, matches.data, matches.live) && |running| == |conf.games|
      modifies matches
      ensures matches.Valid() && matches.data == old(matches.data)
      ensures matches.live == Kept(old(matches.live), matches.data)
      ensures AllFit(conf, |waitStart|, matches.data, old(matches.live))
      ensures best == BestOf(conf, waitStart, running, matches.data, old(matches.live), |old(matches.live)|)
    {
      best := NULL;
      var cur := matches.FirstEntry();
      ghost var w := Walk(waitStart, running, matches.data, matches.live, 0);
      WalkBegins(conf, w);
      while cur != NULL
        invariant w == Walk(waitStart, running, old(matches.data), old(matches.live), w.i)
        invariant matches.Valid() && matches.data == w.matches
        invariant w.i <= |w.was|
        invariant WalkIs(conf, w, matches.live, cur, best)
        decreases |w.was| - w.i
      {
        cur, best := LookAt(cur, best, w);
        w := w.(i := w.i + 1);
      }
      assert cur == NULL;
      WalkEnds(conf, w, matches.live, best);
    }

    /** Looks at one match of the queue. */
    method LookAt(cur: int, best: int, ghost w: Walk) returns (after: int, best': int)
      requires matches.Valid() && matches.data == w.matches && waitStart == w.wait && running == w.running
      requires cur != NULL && WalkIs(conf, w, matches.live, cur, best)
      modifies matches
      ensures matches.Valid() && matches.data == w.matches
      ensures WalkIs(conf, w.(i := w.i + 1), matches.live, after, best')
      ensures w.i < |w.was|
    {
      WalkOpens(conf, w, matches.live, cur, best);
      WalkStep(conf, w, matches.live, cur, best);
      ghost var k := WalkPlace(w);
      after := matches.NextEntry(cur, k);
      var m := matches.data[cur];
      best' := best;
      if !m.isRunning {
        if m.numRuns <= 0 {
          matches.RemoveEntry(cur, k);
        } else if conf.games[m.game].maxRunningJobs > 0 && running[m.game] >= conf.games[m.game].maxRunningJobs {
        } else if best == NULL || Beats(waitStart, m, matches.data[best]) {
          best' := cur;
        }
      }
    }

    /** Starts the match whose turn it is, unless its bots would be too many. */
    method StartMatchJob(now: Time, later: Time) returns (started: bool, ghost steps: seq<Step>)
      requires Valid()
      modifies this, matches, jobs
      ensures Valid() && Path(old(Now()), steps, Now())
      ensures old(AllFit(conf, |waitStart|, matches.data, matches.live) && |running| == |conf.games|)
      ensures var v := old(Now());
        var best := old(BestOf(conf, waitStart, running, matches.data, matches.live, |matches.live|));
        && (started <==> best != NULL && BotsAllow(conf, v, best))
        && Now() == (if started then Started(Cleaned(v), best, later) else Cleaned(v))
        && waitStart == if started then old(waitStart)[v.matches[best].user := now] else old(waitStart)
    {
      hide Path;
      ghost var v := Now();
      InvFitsAll(conf, |waitStart|, v);
      steps := [Clean];
      CleanPath(v);
      if matches.numEntries == 0 {
        assert Cleaned(v) == v;
        return false, steps;
      }
      var bots := CountBots();
      var best := Pick();
      if best == NULL {
        return false, steps;
      }
      var more := BotsIn(matches.data[best]);
      if conf.maxRunningBots > 0 && more + bots > conf.maxRunningBots {
        return false, steps;
      }
      StartPath(v, best, later);
      steps := [Clean, Start(best, later)];
      Enter(best, now, later);
      return true, steps;
    }

    /** The match to start, with the queue cleaned up. */
    method Pick() returns (best: int)
      requires Valid()
      modifies matches
      ensures Valid() && Now() == Cleaned(old(Now()))
      ensures old(AllFit(conf, |waitStart|, matches.data, matches.live)) && |running| == |conf.games|
      ensures best == old(BestOf(conf, waitStart, running, matches.data, matches.live, |matches.live|))
      ensures best != NULL ==> best in matches.live && 0 <= best < |matches.data|
    {
      ghost var v := Now();
      InvFitsAll(conf, |waitStart|, v);
      CleanKeeps(conf, |waitStart|, v);
      best := PickBest();
      if best != NULL { BestIsKept(conf, waitStart, running, v.matches, v.listed, |v.listed|); }
    }

    method Enter(best: nat, now: Time, later: Time)
      requires Valid() && best in matches.live && best < |matches.data| && matches.data[best].game < |running|
      requires matches.data[best].user < |waitStart| && Eligible(conf, running, matches.data[best])
      requires BotsAllow(conf, Now(), best)
      modifies this, matches, jobs
      ensures Valid() && Now() == Started(old(Now()), best, later)
      ensures waitStart == old(waitStart)[old(matches.data[best].user) := now]
    {
      StartKeeps(conf, |waitStart|, Now(), best, later);
      var m := matches.data[best];
      AddJob(best);
      running := Count(running, m.game, 1);
      waitStart := waitStart[m.user := now];
      matches.data := matches.data[best := StartedMatch(m, later)];
    }

    method AddJob(best: nat)
      requires jobs.Valid() && Below(jobs.live, |jobs.data|)
      modifies jobs
      ensures jobs.Valid() && Below(jobs.live, |jobs.data|) && Runs() == [best] + old(Runs())
    {
      var job := jobs.AddItem(MatchJob(best));
    }

    /** Starts matches until none can be; the clock tells the times. */
    method StartJobs(clock: nat -> Time) returns (ghost steps: seq<Step>)
      requires Valid()
      modifies this, matches, jobs
      ensures Valid() && Path(old(Now()), steps, Now())
      ensures Settled(conf, waitStart, Now())
    {
      hide Path, Does;
      var ticks: nat := 0;
      var started := true;
      steps := [];
      NoStep(Now());
      while started
        invariant Valid() && (!started ==> Settled(conf, waitStart, Now()))
        invariant Path(old(Now()), steps, Now())
        decreases |matches.live| - |jobs.live|, started
      {
        ghost var v := Now();
        RunsAreListed(conf, |waitStart|, v);
        ghost var more;
        started, more := StartMatchJob(clock(ticks), clock(ticks + 1));
        PathsJoin(old(Now()), steps, v, more, Now());
        steps := steps + more;
        if started {
          RunsAreListed(conf, |waitStart|, Now());
        } else {
          CleanedIsSettled(conf, waitStart, v);
        }
        ticks := ticks + 2;
      }
    }

    /** A job whose processes have ended leaves the list, and its match waits again. */
    method FinishedJob(jobEntry: nat, ghost k: nat)
      requires Valid() && k < |jobs.live| && jobs.live[k] == jobEntry
      modifies this`running, matches`data, jobs
      ensures Valid() && Now() == Finished(old(Now()), k) && jobs.live == Without(old(jobs.live), k)
    {
      FinishKeeps(conf, |waitStart|, Now(), k);
      var entry := jobs.data[jobEntry].matchEntry;
      var m := matches.data[entry];
      running := Count(running, m.game, -1);
      matches.data := matches.data[entry := m.(isRunning := false)];
      RemoveJob(jobEntry, k);
    }

    method RemoveJob(jobEntry: nat, ghost k: nat)
      requires jobs.Valid() && Below(jobs.live, |jobs.data|) && k < |jobs.live| && jobs.live[k] == jobEntry
      modifies jobs
      ensures jobs.Valid() && Below(jobs.live, |jobs.data|)
      ensures jobs.live == Without(old(jobs.live), k) && Runs() == Without(old(Runs()), k)
    {
      jobs.RemoveEntry(jobEntry, k);
    }

    /** Every job whose processes have ended leaves the list. */
    method CleanFinished(ended: set<nat>) returns (ghost steps: seq<Step>)
      requires Valid()
      modifies this`running, matches`data, jobs
      ensures Valid() && Path(old(Now()), steps, Now())
      ensures forall e: nat :: e in jobs.live <==> e in old(jobs.live) && e !in ended
    {
      hide Path, Does;
      var cur := jobs.FirstEntry();
      ghost var was, k: nat, i: nat := jobs.live, 0, 0;
      steps := [];
      NoStep(Now());
      while cur != NULL
        invariant Valid() && HalfFinished(was, i, jobs.live, k, ended) && Path(old(Now()), steps, Now())
        invariant cur == if k < |jobs.live| then jobs.live[k] else NULL
        decreases |was| - i
      {
        HalfFinishedStep(was, i, jobs.live, k, ended);
        ghost var v, j, gone := Now(), k, cur in ended;
        cur, k := FinishIfEnded(cur, k, ended);
        if gone {
          FinishDoes(v, j);
          OneStepMore(old(Now()), steps, v, Finish(j), Now());
          steps := steps + [Finish(j)];
        }
        i := i + 1;
      }
      assert was[..|was|] == was && jobs.live[..k] == jobs.live;
    }

    method FinishIfEnded(cur: nat, ghost k: nat, ended: set<nat>) returns (after: int, ghost k': nat)
      requires Valid() && k < |jobs.live| && jobs.live[k] == cur
      modifies this`running, matches`data, jobs
      ensures Valid() && k' == (if cur in ended then k else k + 1)
      ensures k < |old(Runs())| && Below(old(Runs()), |old(matches.data)|)
      ensures Now() == if cur in ended then Finished(old(Now()), k) else old(Now())
      ensures jobs.live == if cur in ended then Without(old(jobs.live), k) else old(jobs.live)
      ensures after == if k' < |jobs.live| then jobs.live[k'] else NULL
    {
      after := jobs.NextEntry(cur, k);
      k' := k + 1;
      if cur in ended {
        FinishedJob(cur, k);
        k' := k;
      }
    }

    /** Closed connections leave the list. */
    method CleanConnections()
      requires Valid()
      modifies conns
      ensures Valid() && Now() == Swept(old(Now())) && NoneClosed(conns.live, conns.data)
    {
      SweptAreOpen(conf, |waitStart|, Now());
      SweepKeeps(conf, |waitStart|, Now());
      SweepList();
    }

    method SweepList()
      requires conns.Valid() && Below(conns.live, |conns.data|)
      modifies conns
      ensures conns.Valid() && conns.data == old(conns.data) && conns.live == StillOpen(old(conns.live), conns.data)
    {
      var cur := conns.FirstEntry();
      ghost var was, i: nat := conns.live, 0;
      SweepBegins(was, conns.data);
      while cur != NULL
        invariant conns.Valid() && conns.data == old(conns.data) && i <= |was|
        invariant SweepIs(was, i, conns.data, conns.live, cur)
        decreases |was| - i
      {
        SweepOpens(was, i, conns.data, conns.live, cur);
        SweepStep(was, i, conns.data, conns.live, cur);
        cur := RemoveIfClosed(cur, SweepPlace(was, i, conns.data));
        i := i + 1;
      }
      SweepEnds(was, i, conns.data, conns.live);
    }

    method RemoveIfClosed(cur: nat, ghost k: nat) returns (after: int)
      requires conns.Valid() && k < |conns.live| && conns.live[k] == cur && cur < |conns.data|
      modifies conns
      ensures conns.Valid() && conns.data == old(conns.data)
      ensures conns.live == if conns.data[cur].status == Closed then Without(old(conns.live), k) else old(conns.live)
      ensures after == if k + 1 < |old(conns.live)| then old(conns.live)[k + 1] else NULL
    {
      after := conns.NextEntry(cur, k);
      if conns.data[cur].status == Closed {
        conns.RemoveEntry(cur, k);
      }
    }

    method AddConnection() returns (entry: nat)
      requires Valid()
      modifies conns
      ensures Valid() && entry <= |old(conns.data)| && entry !in old(conns.live) && Now() == Opened(old(Now()), entry)
      ensures old(NoneClosed(conns.live, conns.data)) ==> NoneClosed(conns.live, conns.data)
    {
      ghost var v := Now();
      entry := conns.AddItem(Connection(Unvalidated, NULL));
      OpenKeeps(conf, |waitStart|, v, entry);
      if NoneClosed(v.open, v.conns) { OpenedIsOpen(v, entry); }
    }

    /** The connection is closed; matches that rely on it will not be run again. */
    method CloseConnection(conn: nat)
      requires Valid() && conn in conns.live
      modifies conns`data, matches`data
      ensures Valid() && Now() == Hungup(old(Now()), conn)
    {
      HangupKeeps(conf, |waitStart|, Now(), conn);
      conns.data := conns.data[conn := conns.data[conn].(status := Closed)];
      DropMatches(conn);
    }

    method DropMatches(conn: nat)
      requires matches.Valid() && Below(matches.live, |matches.data|)
      modifies matches`data
      ensures matches.Valid() && matches.data == AllDropped(old(matches.data), matches.live, conn)
    {
      var cur := matches.FirstEntry();
      ghost var was, k: nat := matches.data, 0;
      assert AllDropped(was, matches.live[..0], conn) == was;
      while cur != NULL
        invariant matches.Valid() && k <= |matches.live| && |matches.data| == |was|
        invariant cur == if k < |matches.live| then matches.live[k] else NULL
        invariant matches.data == AllDropped(was, matches.live[..k], conn)
        decreases |matches.live| - k
      {
        DroppedStep(was, matches.live, k, conn);
        var after := matches.NextEntry(cur, k);
        if MatchUsesConnection(matches.data[cur], conn) {
          matches.data := matches.data[cur := matches.data[cur].(numRuns := 0)];
        }
        cur := after;
        k := k + 1;
      }
      assert matches.live[..k] == matches.live;
    }

    method Logon(conn: nat, user: nat)
      requires Valid() && conn in conns.live && conn < |conns.data| && conns.data[conn].status == Unvalidated
      requires user < |waitStart|
      modifies conns`data
      ensures Valid() && Now() == LoggedOn(old(Now()), conn, user)
    {
      LogonKeeps(conf, |waitStart|, Now(), conn, user);
      conns.data := conns.data[conn := Connection(Okay, user)];
    }

    /** Queues the match asked for, if the request can be read. */
    method Submit(conn: nat, c: Command, now: Time) returns (parsed: bool)
      requires Valid() && conn in conns.live && conn < |conns.data| && conns.data[conn].status == Okay
      modifies matches
      ensures Valid() && parsed == Parses(conf, c)
      ensures !parsed ==> Now() == old(Now())
      ensures conns.data[conn].user >= 0
      ensures parsed ==> IsQueued(old(Now()), Now(), Asked(conf, c, conn, conns.data[conn].user, now))
    {
      ghost var v := Now();
      AskedFits(conf, |waitStart|, v, c, conn, now);
      if !Parses(conf, c) {
        return false;
      }
      var m := Asked(conf, c, conn, conns.data[conn].user, now);
      var entry := matches.AddItem(m);
      QueueKeeps(conf, |waitStart|, v, entry, m);
      assert Now() == Queued(v, entry, m);
      return true;
    }

    /** Handles what a client sent: no line after the first that is acted on. */
    method HandleConnection(conn: nat, lines: seq<Line>, now: Time) returns (ghost steps: seq<Step>)
      requires Valid() && conn in conns.live && conn < |conns.data| && conns.data[conn].status != Closed
      modifies conns`data, matches
      ensures Valid() && conns.live == old(conns.live) && |conns.data| == old(|conns.data|)
      ensures var v, k := old(Now()), if old(conns.data[conn].status) == Okay then Asks(lines) else 0;
        if k < |lines| then Handles(conf, |waitStart|, v, Now(), conn, lines[k], now) else Now() == v
      ensures forall c: nat :: c != conn && c < |conns.data| ==> conns.data[c] == old(conns.data)[c]
      ensures Path(old(Now()), steps, Now())
    {
      hide Handles, Inv, Path;
      ghost var v := Now();
      steps := [];
      NoStep(v);
      assert lines[0..] == lines;
      for i := 0 to |lines|
        invariant Valid() && conns.live == old(conns.live) && conns.data == old(conns.data) && Now() == v
        invariant i > 0 ==> conns.data[conn].status == Okay
        invariant conns.data[conn].status == Okay ==> Asks(lines) == i + Asks(lines[i..])
      {
        assert lines[i..][1..] == lines[i + 1..];
        var acted := HandleLine(conn, lines[i], now);
        if acted {
          steps := HandlePath(conf, |waitStart|, v, Now(), conn, lines[i], now);
          return;
        }
      }
    }

    /** Acts on a line, unless it only asks for something. */
    method HandleLine(conn: nat, line: Line, now: Time) returns (acted: bool)
      requires Valid() && conn in conns.live && conn < |conns.data| && conns.data[conn].status != Closed
      modifies conns`data, matches
      ensures acted == !(line.Line? && line.command == Ask && old(conns.data[conn].status) == Okay)
      ensures Valid() && conns.live == old(conns.live) && |conns.data| == old(|conns.data|)
      ensures if acted then Handles(conf, |waitStart|, old(Now()), Now(), conn, line, now) else Now() == old(Now())
      ensures forall c: nat :: c != conn && c < |conns.data| ==> conns.data[c] == old(conns.data)[c]
    {
      hide Inv, IsQueued, Asked;
      if line.EndOfFile? {
        CloseConnection(conn);
        return true;
      }
      if conns.data[conn].status == Unvalidated {
        if line.user < 0 || line.user >= |waitStart| {
          CloseConnection(conn);
        } else {
          Logon(conn, line.user);
        }
        return true;
      }
      match line.command {
        case Ask => return false;
        case RunMatches(_, _, _) =>
          var parsed := Submit(conn, line.command, now);
          return true;
        case Unknown => return true;
      }
    }

    /** One turn of the main loop. */
    method TakeTurn(t: Turn) returns (ghost steps: seq<Step>)
      requires Valid()
      modifies this, conns, matches, jobs
      ensures Valid() && Path(old(Now()), steps, Now())
    {
      hide Path, Does, Inv;
      steps := CleanFinished(t.ended);
      ghost var v := Now();
      CleanConnections();
      SweepDoes(v);
      OneStepMore(old(Now()), steps, v, Sweep, Now());
      steps, v := steps + [Sweep], Now();
      ghost var more := StartJobs(t.clock);
      PathsJoin(old(Now()), steps, v, more, Now());
      steps, v := steps + more, Now();
      if t.arrives {
        var entry := AddConnection();
        OpenDoes(v, entry);
        OneStepMore(old(Now()), steps, v, Open(entry), Now());
        steps, v := steps + [Open(entry)], Now();
      }
      more := HandleAll(t.input, t.clock(0));
      PathsJoin(old(Now()), steps, v, more, Now());
      steps := steps + more;
    }

    /** Handles every connection that sent something; none of them is closed yet. */
    method HandleAll(input: map<nat, seq<Line>>, now: Time) returns (ghost steps: seq<Step>)
      requires Valid() && NoneClosed(conns.live, conns.data)
      modifies conns`data, matches
      ensures Valid() && Path(old(Now()), steps, Now())
    {
      hide Handles, Path, Inv, Asks, Linked;
      var cur := conns.FirstEntry();
      ghost var k: nat := 0;
      steps := [];
      NoStep(Now());
      while cur != NULL
        invariant Valid() && k <= |conns.live| && conns.live == old(conns.live)
        invariant Path(old(Now()), steps, Now())
        invariant cur == if k < |conns.live| then conns.live[k] else NULL
        invariant forall i :: k <= i < |conns.live| ==> conns.data[conns.live[i]].status != Closed
        decreases |conns.live| - k
      {
        forall i | k < i < |conns.live| ensures conns.live[i] != cur { Differ(conns.live, k, i); }
        if cur in input {
          ghost var v := Now();
          ghost var more := HandleConnection(cur, input[cur], now);
          PathsJoin(old(Now()), steps, v, more, Now());
          steps := steps + more;
        }
        cur := conns.NextEntry(cur, k);
        k := k + 1;
      }
    }

    /** Whatever happens in however many turns, the server holds to its limits. */
    method Serve(turns: seq<Turn>) returns (ghost steps: seq<Step>)
      requires Valid()
      modifies this, conns, matches, jobs
      ensures Valid() && Path(old(Now()), steps, Now())
    {
      hide Path, Inv;
      steps := [];
      NoStep(Now());
      for i := 0 to |turns|
        invariant Valid() && Path(old(Now()), steps, Now())
      {
        ghost var v := Now();
        ghost var more := TakeTurn(turns[i]);
        PathsJoin(old(Now()), steps, v, more, Now());
        steps := steps + more;
      }
    }
  }
}
