/**
  What the server of modules/acpc_server/bm_server.c keeps of its matches and jobs, as values: which match goes next,
  how many jobs and bots run, and what holds of every state.
 */
module Queue {
  import opened Pools

  datatype Time = Time(sec: int, usec: int)

  predicate TimeIsEarlier(a: Time, b: Time) {
    a.sec < b.sec || (a.sec == b.sec && a.usec < b.usec)
  }

  /** A seat is played over a connection or by a bot of ours. */
  datatype Player = Network(conn: nat) | Bot

  datatype Match = Match(game: nat, user: nat, numRuns: int, queueTime: Time, players: seq<Player>, isRunning: bool)

  datatype Status = Closed | Unvalidated | Okay

  datatype Connection = Connection(status: Status, user: int)

  datatype MatchJob = MatchJob(matchEntry: nat)

  /** A zero cap is no cap. */
  datatype Game = Game(maxMatchRuns: nat, maxRunningJobs: nat, numPlayers: nat)

  datatype Config = Config(maxRunningBots: nat, games: seq<Game>)

  function BotsInMatch(players: seq<Player>): nat {
    if players == [] then 0
    else BotsInMatch(players[..|players| - 1]) + if players[|players| - 1].Bot? then 1 else 0
  }

  predicate MatchUsesConnection(m: Match, conn: nat) {
    exists p :: 0 <= p < |m.players| && m.players[p] == Network(conn)
  }

  /** Match a goes before match b: its user waits longer, or as long and it was queued earlier. */
  predicate Beats(wait: seq<Time>, a: Match, b: Match)
    requires a.user < |wait| && b.user < |wait|
  {
    TimeIsEarlier(wait[a.user], wait[b.user])
    || (!TimeIsEarlier(wait[b.user], wait[a.user]) && TimeIsEarlier(a.queueTime, b.queueTime))
  }

  /** The match may be started, bots aside. */
  predicate Eligible(conf: Config, running: seq<int>, m: Match)
    requires m.game < |conf.games| == |running|
  {
    && !m.isRunning && m.numRuns > 0
    && (conf.games[m.game].maxRunningJobs == 0 || running[m.game] < conf.games[m.game].maxRunningJobs)
  }

  /** Neither running nor to be run again. */
  predicate Over(m: Match) {
    !m.isRunning && m.numRuns <= 0
  }

  /** Every number listed is one of the first n. */
  ghost predicate Below(es: seq<nat>, n: nat) {
    forall k :: 0 <= k < |es| ==> es[k] < n
  }

  /** The entries that are not cleaned up. */
  function Kept(listed: seq<nat>, matches: seq<Match>): seq<nat>
    requires Below(listed, |matches|)
  {
    if listed == [] then []
    else
      var last := listed[|listed| - 1];
      Kept(listed[..|listed| - 1], matches) + if Over(matches[last]) then [] else [last]
  }

  lemma {:induction false} KeptMeans(listed: seq<nat>, matches: seq<Match>)
    requires Below(listed, |matches|)
    ensures forall m: nat :: m in Kept(listed, matches) <==> m in listed && !Over(matches[m])
  {
    if listed != [] {
      var n := |listed| - 1;
      KeptMeans(listed[..n], matches);
      assert listed == listed[..n] + [listed[n]];
    }
  }

  /** What the server holds: the matches, those of them on its list, for each job its match, and the connections. */
  datatype View = View(matches: seq<Match>, listed: seq<nat>, runs: seq<nat>, running: seq<int>,
                       conns: seq<Connection>, open: seq<nat>)

  /** How many jobs are of this game. */
  function JobsOf(runs: seq<nat>, matches: seq<Match>, game: nat): nat
    requires Below(runs, |matches|)
  {
    if runs == [] then 0
    else (if matches[runs[0]].game == game then 1 else 0) + JobsOf(runs[1..], matches, game)
  }

  /** How many bots all jobs run. */
  function BotsRunning(runs: seq<nat>, matches: seq<Match>): nat
    requires Below(runs, |matches|)
  {
    if runs == [] then 0 else BotsInMatch(matches[runs[0]].players) + BotsRunning(runs[1..], matches)
  }

  lemma BotsStep(runs: seq<nat>, k: nat, matches: seq<Match>)
    requires Below(runs, |matches|) && k < |runs|
    ensures BotsRunning(runs[k..], matches) ==
      BotsInMatch(matches[runs[k]].players) + BotsRunning(runs[k + 1..], matches)
  {
    assert runs[k..][1..] == runs[k + 1..];
  }

  /** Every listed match is of a known game and user, with all its seats, and with runs left within its game's limit. */
  ghost predicate MatchesFit(conf: Config, users: nat, v: View) {
    Below(v.listed, |v.matches|) && forall m: nat :: m in v.listed ==> MatchFits(conf, users, v.matches[m])
  }

  predicate MatchFits(conf: Config, users: nat, m: Match) {
    && m.game < |conf.games| && m.user < users && |m.players| == conf.games[m.game].numPlayers
    && 0 <= m.numRuns <= conf.games[m.game].maxMatchRuns
  }

  /** No job points at an entry off the list, no two at one, and exactly the matches with a job are running. */
  ghost predicate JobsFit(v: View) {
    && Distinct(v.runs)
    && Below(v.listed, |v.matches|) && Below(v.runs, |v.matches|)
    && (forall m: nat :: m in v.runs ==> m in v.listed)
    && forall m: nat :: m in v.listed ==> (v.matches[m].isRunning <==> m in v.runs)
  }

  /** The counter of each game is the number of its jobs, and within its cap. */
  ghost predicate CountsFit(conf: Config, v: View) {
    && |v.running| == |conf.games|
    && Below(v.runs, |v.matches|)
    && forall g: nat :: CountFits(conf, v.running, v.runs, v.matches, g)
  }

  ghost predicate CountFits(conf: Config, running: seq<int>, runs: seq<nat>, matches: seq<Match>, g: nat)
    requires |running| == |conf.games| && Below(runs, |matches|)
  {
    g < |running| ==>
      && running[g] == JobsOf(runs, matches, g)
      && (conf.games[g].maxRunningJobs > 0 ==> running[g] <= conf.games[g].maxRunningJobs)
  }

  ghost predicate BotsFit(conf: Config, v: View)
    requires Below(v.runs, |v.matches|)
  {
    conf.maxRunningBots > 0 ==> BotsRunning(v.runs, v.matches) <= conf.maxRunningBots
  }

  /** A match that may still be started is played over open connections of its own user. */
  ghost predicate ConnsFit(v: View) {
    Below(v.listed, |v.matches|) && forall m: nat, p ::
      m in v.listed && 0 <= p < |v.matches[m].players| && v.matches[m].numRuns > 0 ==>
      SeatFits(v, v.matches[m].user, v.matches[m].players[p])
  }

  predicate SeatFits(v: View, user: int, player: Player) {
    player.Network? ==>
      && player.conn in v.open && player.conn < |v.conns|
      && v.conns[player.conn] == Connection(Okay, user)
  }

  /** Who is logged on is a known user. */
  ghost predicate UsersFit(users: nat, v: View) {
    Below(v.open, |v.conns|) && forall c: nat :: c in v.open && v.conns[c].status == Okay ==>
      0 <= v.conns[c].user < users
  }

  ghost predicate Inv(conf: Config, users: nat, v: View) {
    && Below(v.runs, |v.matches|) && Below(v.listed, |v.matches|) && Below(v.open, |v.conns|)
    && |v.running| == |conf.games| && forall k: nat :: InvAt(k, conf, users, v)
  }

  /** The invariant itself, the same for every k. */
  ghost predicate InvAt(k: nat, conf: Config, users: nat, v: View) {
    && MatchesFit(conf, users, v) && JobsFit(v) && CountsFit(conf, v) && BotsFit(conf, v) && ConnsFit(v)
    && UsersFit(users, v)
  }

  /** Counts depend only on the games and the seats of the matches that run. */
  lemma {:induction false} CountsKept(runs: seq<nat>, matches: seq<Match>, matches': seq<Match>, game: nat)
    requires Below(runs, |matches|) && Below(runs, |matches'|)
    requires forall m: nat :: m in runs ==>
      matches'[m].game == matches[m].game && matches'[m].players == matches[m].players
    ensures JobsOf(runs, matches', game) == JobsOf(runs, matches, game)
    ensures BotsRunning(runs, matches') == BotsRunning(runs, matches)
  {
    if runs != [] { CountsKept(runs[1..], matches, matches', game); }
  }

  lemma {:induction false} CountsWithout(runs: seq<nat>, k: nat, matches: seq<Match>, game: nat)
    requires k < |runs| && Below(runs, |matches|)
    ensures forall m: nat :: m in Without(runs, k) ==> m in runs
    ensures JobsOf(Without(runs, k), matches, game) ==
      JobsOf(runs, matches, game) - if matches[runs[k]].game == game then 1 else 0
    ensures BotsRunning(Without(runs, k), matches) == BotsRunning(runs, matches) - BotsInMatch(matches[runs[k]].players)
  {
    if k > 0 {
      assert Without(runs, k)[1..] == Without(runs[1..], k - 1);
      CountsWithout(runs[1..], k - 1, matches, game);
    } else {
      assert Without(runs, 0) == runs[1..];
    }
  }

  /** The matches that are over leave the list. */
  function Cleaned(v: View): View
    requires Below(v.listed, |v.matches|)
  {
    v.(listed := Kept(v.listed, v.matches))
  }

  lemma CleanKeeps(conf: Config, users: nat, v: View)
    requires Inv(conf, users, v)
    ensures Inv(conf, users, Cleaned(v))
  {
    InvOpens(conf, users, v);
    KeptMeans(v.listed, v.matches);
    KeptIsBelow(v.listed, v.matches);
    assert forall g: nat :: CountFits(conf, v.running, v.runs, v.matches, g);
    forall k: nat ensures InvAt(k, conf, users, Cleaned(v)) {}
  }

  lemma KeptIsBelow(listed: seq<nat>, matches: seq<Match>)
    requires Below(listed, |matches|)
    ensures Below(Kept(listed, matches), |matches|)
  {
    KeptMeans(listed, matches);
    var kept := Kept(listed, matches);
    forall k | 0 <= k < |kept| ensures kept[k] < |matches| {
      assert kept[k] in listed;
    }
  }

  /** One game's counter changed. */
  function Count(running: seq<int>, game: nat, change: int): seq<int> {
    if game < |running| then running[game := running[game] + change] else running
  }

  /** The match is running, with a run less, and back in the queue. */
  function StartedMatch(m: Match, now: Time): Match {
    m.(isRunning := true, numRuns := m.numRuns - 1, queueTime := now)
  }

  /** A job for the match is on the list of jobs, and counted. */
  function Started(v: View, best: nat, now: Time): View
    requires best < |v.matches|
  {
    var m := v.matches[best];
    v.(matches := v.matches[best := StartedMatch(m, now)], runs := [best] + v.runs,
       running := Count(v.running, m.game, 1))
  }

  /** With the bots of the match, no more run than may. */
  predicate BotsAllow(conf: Config, v: View, best: int)
    requires 0 <= best < |v.matches| && Below(v.runs, |v.matches|)
  {
    conf.maxRunningBots > 0 ==>
      BotsInMatch(v.matches[best].players) + BotsRunning(v.runs, v.matches) <= conf.maxRunningBots
  }

  lemma StartKeeps(conf: Config, users: nat, v: View, best: nat, now: Time)
    requires Inv(conf, users, v) && best in v.listed && best < |v.matches| && v.matches[best].game < |conf.games|
    requires Eligible(conf, v.running, v.matches[best])
    requires BotsAllow(conf, v, best)
    ensures Inv(conf, users, Started(v, best, now))
  {
    InvOpens(conf, users, v);
    var w, m := Started(v, best, now), v.matches[best];
    assert best !in v.runs;
    PushIsDistinct(best, v.runs);
    assert w.runs[1..] == v.runs;
    forall g: nat ensures CountFits(conf, w.running, w.runs, w.matches, g) {
      assert CountFits(conf, v.running, v.runs, v.matches, g);
      CountsKept(v.runs, v.matches, w.matches, g);
    }
    CountsKept(v.runs, v.matches, w.matches, 0);
    forall s: nat, p | s in w.listed && 0 <= p < |w.matches[s].players| && w.matches[s].numRuns > 0
      ensures SeatFits(w, w.matches[s].user, w.matches[s].players[p])
    {
      assert SeatFits(v, v.matches[s].user, v.matches[s].players[p]);
    }
    forall k: nat ensures InvAt(k, conf, users, Started(v, best, now)) {}
  }

  /** The k-th job is off the list, and its match no longer running. */
  function Finished(v: View, k: nat): View
    requires k < |v.runs| && Below(v.runs, |v.matches|)
  {
    var m := v.matches[v.runs[k]];
    v.(matches := v.matches[v.runs[k] := m.(isRunning := false)], runs := Without(v.runs, k),
       running := Count(v.running, m.game, -1))
  }

  lemma FinishKeeps(conf: Config, users: nat, v: View, k: nat)
    requires Inv(conf, users, v) && k < |v.runs|
    ensures Inv(conf, users, Finished(v, k))
  {
    hide JobsOf, BotsInMatch, Kept;
    InvOpens(conf, users, v);
    var w, s := Finished(v, k), v.runs[k];
    WithoutIsDistinct(v.runs, k);
    WithoutKeepsOthers(v.runs, k);
    forall g: nat ensures CountFits(conf, w.running, w.runs, w.matches, g) {
      assert CountFits(conf, v.running, v.runs, v.matches, g);
      CountsWithout(v.runs, k, v.matches, g);
      CountsKept(w.runs, v.matches, w.matches, g);
    }
    CountsWithout(v.runs, k, v.matches, 0);
    CountsKept(w.runs, v.matches, w.matches, 0);
    forall s: nat, p | s in w.listed && 0 <= p < |w.matches[s].players| && w.matches[s].numRuns > 0
      ensures SeatFits(w, w.matches[s].user, w.matches[s].players[p])
    {
      assert SeatFits(v, v.matches[s].user, v.matches[s].players[p]);
    }
    forall l: nat ensures InvAt(l, conf, users, Finished(v, k)) {}
  }

  lemma WithoutKeepsOthers(es: seq<nat>, k: nat)
    requires k < |es|
    ensures forall e: nat :: e in es ==> e == es[k] || e in Without(es, k)
  {
    forall e: nat | e in es ensures e == es[k] || e in Without(es, k) {
      var i :| 0 <= i < |es| && es[i] == e;
      if i < k { assert Without(es, k)[i] == e; }
      if i > k { assert Without(es, k)[i - 1] == e; }
    }
  }

  /** A match that nobody has asked for before, in an entry that was on no list. */
  function Queued(v: View, entry: nat, m: Match): View
    requires entry <= |v.matches|
  {
    v.(matches := Put(v.matches, entry, m), listed := [entry] + v.listed)
  }

  lemma QueueKeeps(conf: Config, users: nat, v: View, entry: nat, m: Match)
    requires Inv(conf, users, v) && entry <= |v.matches| && entry !in v.listed
    requires MatchFits(conf, users, m) && !m.isRunning
    requires forall p :: 0 <= p < |m.players| ==> SeatFits(v, m.user, m.players[p])
    ensures Inv(conf, users, Queued(v, entry, m))
  {
    InvOpens(conf, users, v);
    var w := Queued(v, entry, m);
    assert entry !in v.runs;
    forall g: nat ensures CountFits(conf, w.running, w.runs, w.matches, g) {
      assert CountFits(conf, v.running, v.runs, v.matches, g);
      CountsKept(v.runs, v.matches, w.matches, g);
    }
    CountsKept(v.runs, v.matches, w.matches, 0);
    forall s: nat, p | s in w.listed && 0 <= p < |w.matches[s].players| && w.matches[s].numRuns > 0
      ensures SeatFits(w, w.matches[s].user, w.matches[s].players[p])
    {
      assert SeatFits(v, w.matches[s].user, w.matches[s].players[p]);
    }
    forall k: nat ensures InvAt(k, conf, users, Queued(v, entry, m)) {}
  }

  function Opened(v: View, entry: nat): View
    requires entry <= |v.conns|
  {
    v.(conns := Put(v.conns, entry, Connection(Unvalidated, NULL)), open := [entry] + v.open)
  }

  lemma OpenKeeps(conf: Config, users: nat, v: View, entry: nat)
    requires Inv(conf, users, v) && entry <= |v.conns| && entry !in v.open
    ensures Inv(conf, users, Opened(v, entry))
  {
    InvOpens(conf, users, v);
    var w := Opened(v, entry);
    assert forall g: nat :: CountFits(conf, v.running, v.runs, v.matches, g);
    forall s: nat, p | s in w.listed && 0 <= p < |w.matches[s].players| && w.matches[s].numRuns > 0
      ensures SeatFits(w, w.matches[s].user, w.matches[s].players[p])
    {
      assert SeatFits(v, w.matches[s].user, w.matches[s].players[p]);
    }
    forall k: nat ensures InvAt(k, conf, users, Opened(v, entry)) {}
  }

  function LoggedOn(v: View, conn: nat, user: nat): View
    requires conn < |v.conns|
  {
    v.(conns := v.conns[conn := Connection(Okay, user)])
  }

  lemma LogonKeeps(conf: Config, users: nat, v: View, conn: nat, user: nat)
    requires Inv(conf, users, v) && conn < |v.conns| && v.conns[conn].status == Unvalidated && user < users
    ensures Inv(conf, users, LoggedOn(v, conn, user))
  {
    InvOpens(conf, users, v);
    var w := LoggedOn(v, conn, user);
    assert forall g: nat :: CountFits(conf, v.running, v.runs, v.matches, g);
    forall s: nat, p | s in w.listed && 0 <= p < |w.matches[s].players| && w.matches[s].numRuns > 0
      ensures SeatFits(w, w.matches[s].user, w.matches[s].players[p])
    {
      assert SeatFits(v, w.matches[s].user, w.matches[s].players[p]);
    }
    forall k: nat ensures InvAt(k, conf, users, LoggedOn(v, conn, user)) {}
  }

  /** The match as it is once the connection is gone. */
  function Dropped(m: Match, conn: nat): Match {
    if MatchUsesConnection(m, conn) then m.(numRuns := 0) else m
  }

  function AllDropped(matches: seq<Match>, listed: seq<nat>, conn: nat): seq<Match> {
    seq(|matches|, i requires 0 <= i < |matches| => if i in listed then Dropped(matches[i], conn) else matches[i])
  }

  /** The connection is closed, and the matches played over it are to be run no more. */
  function Hungup(v: View, conn: nat): View
    requires conn < |v.conns|
  {
    v.(conns := v.conns[conn := v.conns[conn].(status := Closed)], matches := AllDropped(v.matches, v.listed, conn))
  }

  lemma HangupKeeps(conf: Config, users: nat, v: View, conn: nat)
    requires Inv(conf, users, v) && conn < |v.conns|
    ensures Inv(conf, users, Hungup(v, conn))
  {
    InvOpens(conf, users, v);
    var w := Hungup(v, conn);
    forall g: nat ensures CountFits(conf, w.running, w.runs, w.matches, g) {
      assert CountFits(conf, v.running, v.runs, v.matches, g);
      CountsKept(v.runs, v.matches, w.matches, g);
    }
    CountsKept(v.runs, v.matches, w.matches, 0);
    forall s: nat, p | s in w.listed && 0 <= p < |w.matches[s].players| && w.matches[s].numRuns > 0
      ensures SeatFits(w, w.matches[s].user, w.matches[s].players[p])
    {
      assert w.matches[s] == v.matches[s] && !MatchUsesConnection(v.matches[s], conn);
      assert SeatFits(v, w.matches[s].user, w.matches[s].players[p]);
    }
    forall k: nat ensures InvAt(k, conf, users, Hungup(v, conn)) {}
  }

  /** The connections that are not closed. */
  function StillOpen(open: seq<nat>, conns: seq<Connection>): seq<nat>
    requires Below(open, |conns|)
  {
    if open == [] then []
    else
      var last := open[|open| - 1];
      StillOpen(open[..|open| - 1], conns) + if conns[last].status == Closed then [] else [last]
  }

  lemma {:induction false} StillOpenMeans(open: seq<nat>, conns: seq<Connection>)
    requires Below(open, |conns|)
    ensures forall c: nat :: c in StillOpen(open, conns) <==> c in open && conns[c].status != Closed
    ensures Below(StillOpen(open, conns), |conns|)
  {
    if open != [] {
      var n := |open| - 1;
      StillOpenMeans(open[..n], conns);
      assert open == open[..n] + [open[n]];
    }
  }

  function Swept(v: View): View
    requires Below(v.open, |v.conns|)
  {
    v.(open := StillOpen(v.open, v.conns))
  }

  lemma SweepKeeps(conf: Config, users: nat, v: View)
    requires Inv(conf, users, v)
    ensures Inv(conf, users, Swept(v))
  {
    InvOpens(conf, users, v);
    var w := Swept(v);
    StillOpenMeans(v.open, v.conns);
    assert forall g: nat :: CountFits(conf, v.running, v.runs, v.matches, g);
    forall s: nat, p | s in w.listed && 0 <= p < |w.matches[s].players| && w.matches[s].numRuns > 0
      ensures SeatFits(w, w.matches[s].user, w.matches[s].players[p])
    {
      assert SeatFits(v, w.matches[s].user, w.matches[s].players[p]);
    }
    forall k: nat ensures InvAt(k, conf, users, Swept(v)) {}
  }

  /** Distinct entries that are all on the list are no more than the list has. */
  lemma {:induction false} NoMoreThan(a: seq<nat>, b: seq<nat>)
    requires Distinct(a) && forall e: nat :: e in a ==> e in b
    ensures |a| <= |b|
  {
    if a != [] {
      assert a[0] in a && a[0] in b;
      var i: nat :| i < |b| && b[i] == a[0];
      RestIsDistinct(a);
      WithoutKeepsOthers(b, i);
      forall e: nat | e in a[1..] ensures e in Without(b, i) { assert e in a; }
      NoMoreThan(a[1..], Without(b, i));
    }
  }

  lemma {:induction false} KeptIsNoLonger(listed: seq<nat>, matches: seq<Match>)
    requires Below(listed, |matches|)
    ensures |Kept(listed, matches)| <= |listed|
  {
    if listed != [] { KeptIsNoLonger(listed[..|listed| - 1], matches); }
  }

  ghost predicate AllFit(conf: Config, users: nat, matches: seq<Match>, listed: seq<nat>) {
    forall k :: 0 <= k < |listed| ==> listed[k] < |matches| && MatchFits(conf, users, matches[listed[k]])
  }

  lemma InvOpens(conf: Config, users: nat, v: View)
    requires Inv(conf, users, v)
    ensures InvAt(0, conf, users, v)
  {
  }

  /** What holds of every state of the server, in plain words. */
  lemma InvMeans(conf: Config, users: nat, v: View)
    requires Inv(conf, users, v)
    ensures forall g: nat :: g < |conf.games| ==> v.running[g] == JobsOf(v.runs, v.matches, g)
    ensures forall g: nat :: g < |conf.games| && conf.games[g].maxRunningJobs > 0 ==>
      v.running[g] <= conf.games[g].maxRunningJobs
    ensures conf.maxRunningBots > 0 ==> BotsRunning(v.runs, v.matches) <= conf.maxRunningBots
    ensures Distinct(v.runs) && forall m: nat :: m in v.runs ==> m in v.listed
    ensures forall m: nat :: m in v.listed ==> (v.matches[m].isRunning <==> m in v.runs)
    ensures forall m: nat, p :: m in v.listed && v.matches[m].numRuns > 0 && 0 <= p < |v.matches[m].players| ==>
      SeatFits(v, v.matches[m].user, v.matches[m].players[p])
  {
    InvOpens(conf, users, v);
    forall g: nat | g < |conf.games| ensures v.running[g] == JobsOf(v.runs, v.matches, g)
      && (conf.games[g].maxRunningJobs > 0 ==> v.running[g] <= conf.games[g].maxRunningJobs)
    {
      assert CountFits(conf, v.running, v.runs, v.matches, g);
    }
  }

  lemma InvFitsAll(conf: Config, users: nat, v: View)
    requires Inv(conf, users, v)
    ensures AllFit(conf, users, v.matches, v.listed) && |v.running| == |conf.games|
  {
    InvOpens(conf, users, v);
    forall k | 0 <= k < |v.listed| ensures MatchFits(conf, users, v.matches[v.listed[k]]) {
      assert v.listed[k] in v.listed;
    }
  }

  /** The walk of the first n on the list that keeps the match to start. */
  function BestOf(conf: Config, wait: seq<Time>, running: seq<int>, matches: seq<Match>, listed: seq<nat>,
                  n: nat): (best: int)
    requires AllFit(conf, |wait|, matches, listed) && |running| == |conf.games| && n <= |listed|
    ensures best == NULL
      || (best in listed && MatchFits(conf, |wait|, matches[best]) && Eligible(conf, running, matches[best]))
  {
    if n == 0 then NULL
    else
      var last, best := listed[n - 1], BestOf(conf, wait, running, matches, listed, n - 1);
      if Eligible(conf, running, matches[last]) && (best == NULL || Beats(wait, matches[last], matches[best])) then last
      else best
  }

  /** The match at b beats every eligible one before it, and of the first n no one beats it. */
  ghost predicate GoesFirst(conf: Config, wait: seq<Time>, running: seq<int>, matches: seq<Match>, listed: seq<nat>,
                            n: nat, b: nat)
    requires AllFit(conf, |wait|, matches, listed) && |running| == |conf.games| && n <= |listed|
  {
    && b < n && Eligible(conf, running, matches[listed[b]])
    && forall k :: 0 <= k < n && k != b && Eligible(conf, running, matches[listed[k]]) ==>
         if k < b then Beats(wait, matches[listed[b]], matches[listed[k]])
         else !Beats(wait, matches[listed[k]], matches[listed[b]])
  }

  /**
    The match to start goes before every other that may be started; of those it is alike with, it is the first on the
    list.  There is none only if no match may be started.
   */
  lemma {:induction false} BestGoesFirst(conf: Config, wait: seq<Time>, running: seq<int>, matches: seq<Match>,
                                         listed: seq<nat>, n: nat)
    requires AllFit(conf, |wait|, matches, listed) && |running| == |conf.games| && n <= |listed|
    ensures var best := BestOf(conf, wait, running, matches, listed, n);
      if best == NULL then forall k :: 0 <= k < n ==> !Eligible(conf, running, matches[listed[k]])
      else exists b: nat :: GoesFirst(conf, wait, running, matches, listed, n, b) && listed[b] == best
  {
    if n > 0 {
      BestGoesFirst(conf, wait, running, matches, listed, n - 1);
      var before := BestOf(conf, wait, running, matches, listed, n - 1);
      var last := matches[listed[n - 1]];
      if Eligible(conf, running, last) && (before == NULL || Beats(wait, last, matches[before])) {
        assert GoesFirst(conf, wait, running, matches, listed, n, n - 1);
      } else if before != NULL {
        var b: nat :| GoesFirst(conf, wait, running, matches, listed, n - 1, b) && listed[b] == before;
        assert GoesFirst(conf, wait, running, matches, listed, n, b);
      }
    }
  }

  /**
    Nobody is overtaken: once a match of one user has started, with the clock past the time every other user began to
    wait, the next match is not of that user again while a match of another user may be started.
   */
  lemma NobodyIsOvertaken(conf: Config, wait: seq<Time>, running: seq<int>, matches: seq<Match>, listed: seq<nat>,
                          user: nat, now: Time, other: nat)
    requires AllFit(conf, |wait|, matches, listed) && |running| == |conf.games| && user < |wait|
    requires forall u :: 0 <= u < |wait| && u != user ==> TimeIsEarlier(wait[u], now)
    requires other < |listed| && matches[listed[other]].user != user && Eligible(conf, running, matches[listed[other]])
    ensures var best := BestOf(conf, wait[user := now], running, matches, listed, |listed|);
      best != NULL && matches[best].user != user
  {
    var wait' := wait[user := now];
    BestGoesFirst(conf, wait', running, matches, listed, |listed|);
  }

  /**
    A user's own matches take turns: one that was started, with the clock past the time another was queued, does not
    start again before that other one.
   */
  lemma OwnMatchesTakeTurns(conf: Config, wait: seq<Time>, running: seq<int>, matches: seq<Match>, listed: seq<nat>,
                            m: Match, now: Time, mine: nat, other: nat)
    requires AllFit(conf, |wait|, matches, listed) && |running| == |conf.games| && mine < |listed| && other < |listed|
    requires matches[listed[mine]] == StartedMatch(m, now).(isRunning := false)
    requires matches[listed[other]].user == m.user && TimeIsEarlier(matches[listed[other]].queueTime, now)
    requires Eligible(conf, running, matches[listed[other]])
    requires forall k :: 0 <= k < |listed| && k != mine ==> listed[k] != listed[mine]
    ensures BestOf(conf, wait, running, matches, listed, |listed|) != listed[mine]
  {
    BestGoesFirst(conf, wait, running, matches, listed, |listed|);
  }

  /** The match to start is not over, so it stays on the list. */
  lemma BestIsKept(conf: Config, wait: seq<Time>, running: seq<int>, matches: seq<Match>, listed: seq<nat>, n: nat)
    requires AllFit(conf, |wait|, matches, listed) && |running| == |conf.games| && n <= |listed|
    requires Below(listed, |matches|) && BestOf(conf, wait, running, matches, listed, n) != NULL
    ensures BestOf(conf, wait, running, matches, listed, n) in Kept(listed, matches)
  {
    KeptMeans(listed, matches);
  }

  /** The list halfway through the walk: the entries kept so far, and those not yet looked at. */
  function Halfway(was: seq<nat>, i: nat, matches: seq<Match>): seq<nat>
    requires Below(was, |matches|) && i <= |was|
  {
    Kept(was[..i], matches) + was[i..]
  }

  lemma HalfwayStep(was: seq<nat>, i: nat, matches: seq<Match>)
    requires Below(was, |matches|) && i < |was|
    ensures var list, k := Halfway(was, i, matches), |Kept(was[..i], matches)|;
      && k < |list| && list[k] == was[i]
      && (k + 1 < |list| <==> i + 1 < |was|) && (i + 1 < |was| ==> list[k + 1] == was[i + 1])
      && Halfway(was, i + 1, matches) == if Over(matches[was[i]]) then Without(list, k) else list
  {
    assert was[..i + 1][..i] == was[..i] && was[..i + 1] == was[..i] + [was[i]];
    assert was[i..] == [was[i]] + was[i + 1..];
  }

  /** A walk of the matches, having looked at the first i of those listed when it began. */
  datatype Walk = Walk(wait: seq<Time>, running: seq<int>, matches: seq<Match>, was: seq<nat>, i: nat)

  /** The list, the entry looked at next and the match to start so far are what the walk makes them. */
  ghost predicate WalkIs(conf: Config, w: Walk, listed: seq<nat>, cur: int, best: int) {
    forall k: nat :: WalkIsAt(k, conf, w, listed, cur, best)
  }

  ghost predicate WalkIsAt(k: nat, conf: Config, w: Walk, listed: seq<nat>, cur: int, best: int) {
    && AllFit(conf, |w.wait|, w.matches, w.was) && |w.running| == |conf.games| && w.i <= |w.was|
    && listed == Halfway(w.was, w.i, w.matches)
    && cur == (if w.i < |w.was| then w.was[w.i] else NULL)
    && best == BestOf(conf, w.wait, w.running, w.matches, w.was, w.i)
  }

  /** Where on the list the walk is. */
  function WalkPlace(w: Walk): nat
    requires Below(w.was, |w.matches|) && w.i <= |w.was|
  {
    |Kept(w.was[..w.i], w.matches)|
  }

  lemma WalkOpens(conf: Config, w: Walk, listed: seq<nat>, cur: int, best: int)
    requires WalkIs(conf, w, listed, cur, best)
    ensures Below(w.was, |w.matches|) && |w.running| == |conf.games| && w.i <= |w.was|
    ensures best != NULL ==> 0 <= best < |w.matches| && w.matches[best].user < |w.wait|
    ensures cur != NULL ==> w.i < |w.was| && 0 <= cur < |w.matches| && MatchFits(conf, |w.wait|, w.matches[cur])
    ensures cur != NULL ==> WalkPlace(w) < |listed| && listed[WalkPlace(w)] == cur
  {
    assert WalkIsAt(0, conf, w, listed, cur, best);
    if cur != NULL { HalfwayStep(w.was, w.i, w.matches); }
  }

  /** What looking at one match makes of the list and of the match to start. */
  lemma WalkStep(conf: Config, w: Walk, listed: seq<nat>, cur: nat, best: int)
    requires WalkIs(conf, w, listed, cur, best)
    requires Below(w.was, |w.matches|) && w.i < |w.was| && WalkPlace(w) < |listed| && |w.running| == |conf.games|
    requires cur < |w.matches| && MatchFits(conf, |w.wait|, w.matches[cur])
    requires best != NULL ==> 0 <= best < |w.matches| && w.matches[best].user < |w.wait|
    ensures var m, k := w.matches[cur], WalkPlace(w);
      WalkIs(conf, w.(i := w.i + 1), if Over(m) then Without(listed, k) else listed,
             if k + 1 < |listed| then listed[k + 1] else NULL,
             if Eligible(conf, w.running, m) && (best == NULL || Beats(w.wait, m, w.matches[best])) then cur else best)
  {
    hide Halfway, Kept, Eligible, Beats, MatchFits;
    assert WalkIsAt(0, conf, w, listed, cur, best);
    HalfwayStep(w.was, w.i, w.matches);
  }

  lemma WalkBegins(conf: Config, w: Walk)
    requires AllFit(conf, |w.wait|, w.matches, w.was) && |w.running| == |conf.games| && w.i == 0
    ensures WalkIs(conf, w, w.was, if w.was == [] then NULL else w.was[0], NULL)
  {
    assert Halfway(w.was, 0, w.matches) == w.was;
  }

  lemma WalkEnds(conf: Config, w: Walk, listed: seq<nat>, best: int)
    requires WalkIs(conf, w, listed, NULL, best)
    ensures AllFit(conf, |w.wait|, w.matches, w.was) && |w.running| == |conf.games|
    ensures listed == Kept(w.was, w.matches)
    ensures best == BestOf(conf, w.wait, w.running, w.matches, w.was, |w.was|)
  {
    assert WalkIsAt(0, conf, w, listed, NULL, best);
    assert w.was[..|w.was|] == w.was;
  }

  lemma {:induction false} BestOfPrefix(conf: Config, wait: seq<Time>, running: seq<int>, matches: seq<Match>,
                                        listed: seq<nat>, listed': seq<nat>, n: nat)
    requires AllFit(conf, |wait|, matches, listed) && AllFit(conf, |wait|, matches, listed')
    requires |running| == |conf.games|
    requires n <= |listed| && n <= |listed'| && forall k :: 0 <= k < n ==> listed'[k] == listed[k]
    ensures BestOf(conf, wait, running, matches, listed', n) == BestOf(conf, wait, running, matches, listed, n)
  {
    if n > 0 { BestOfPrefix(conf, wait, running, matches, listed, listed', n - 1); }
  }

  lemma KeptFitsAll(conf: Config, users: nat, matches: seq<Match>, listed: seq<nat>, n: nat)
    requires AllFit(conf, users, matches, listed) && n <= |listed| && Below(listed, |matches|)
    ensures AllFit(conf, users, matches, Kept(listed[..n], matches))
  {
    var kept := Kept(listed[..n], matches);
    KeptMeans(listed[..n], matches);
    forall k | 0 <= k < |kept| ensures kept[k] < |matches| && MatchFits(conf, users, matches[kept[k]]) {
      assert kept[k] in listed[..n];
    }
  }

  /** Cleaning up does not change which match goes next. */
  lemma {:induction false} BestAfterClean(conf: Config, wait: seq<Time>, running: seq<int>, matches: seq<Match>,
                                          listed: seq<nat>, n: nat)
    requires AllFit(conf, |wait|, matches, listed) && |running| == |conf.games| && n <= |listed|
    requires Below(listed, |matches|)
    ensures var kept := Kept(listed[..n], matches);
      && AllFit(conf, |wait|, matches, kept)
      && BestOf(conf, wait, running, matches, kept, |kept|) == BestOf(conf, wait, running, matches, listed, n)
  {
    KeptFitsAll(conf, |wait|, matches, listed, n);
    hide Beats;
    if n > 0 {
      BestAfterClean(conf, wait, running, matches, listed, n - 1);
      assert listed[..n][..n - 1] == listed[..n - 1];
      var before, kept := Kept(listed[..n - 1], matches), Kept(listed[..n], matches);
      BestOfPrefix(conf, wait, running, matches, before, kept, |before|);
    }
  }

  /** Nothing may be started: no match is eligible, or the one whose turn it is has too many bots. */
  ghost predicate Settled(conf: Config, wait: seq<Time>, v: View) {
    && Below(v.runs, |v.matches|) && AllFit(conf, |wait|, v.matches, v.listed) && |v.running| == |conf.games|
    && var best := BestOf(conf, wait, v.running, v.matches, v.listed, |v.listed|);
      best == NULL || !BotsAllow(conf, v, best)
  }

  lemma CleanedIsSettled(conf: Config, wait: seq<Time>, v: View)
    requires Below(v.listed, |v.matches|) && Settled(conf, wait, v)
    ensures Settled(conf, wait, Cleaned(v))
  {
    BestAfterClean(conf, wait, v.running, v.matches, v.listed, |v.listed|);
    assert v.listed[..|v.listed|] == v.listed;
  }

  lemma RunsAreListed(conf: Config, users: nat, v: View)
    requires Inv(conf, users, v)
    ensures |v.runs| <= |v.listed| && |Cleaned(v).listed| <= |v.listed|
  {
    InvOpens(conf, users, v);
    NoMoreThan(v.runs, v.listed);
    KeptIsNoLonger(v.listed, v.matches);
  }

  /**
    A line from a client; one that is not logged on is taken to log on with it, as user if name and password are right.
   */
  datatype Line = EndOfFile | Line(user: int, command: Command)

  /** A request for matches: the game, the runs, and each player by name, a connection of the client's or a bot. */
  datatype Command = RunMatches(game: nat, numRuns: int, names: seq<Name>) | Ask | Unknown

  datatype Name = Local | KnownBot | NoBot

  predicate Parses(conf: Config, c: Command) {
    && c.RunMatches? && c.game < |conf.games| && 0 <= c.numRuns <= conf.games[c.game].maxMatchRuns
    && conf.games[c.game].numPlayers <= |c.names|
    && forall p :: 0 <= p < conf.games[c.game].numPlayers ==> c.names[p] != NoBot
  }

  /** The match asked for over the connection. */
  function Asked(conf: Config, c: Command, conn: nat, user: nat, now: Time): Match
    requires Parses(conf, c)
  {
    Match(c.game, user, c.numRuns, now, Seats(c.names, conn, conf.games[c.game].numPlayers), false)
  }

  function Seats(names: seq<Name>, conn: nat, n: nat): (players: seq<Player>)
    requires n <= |names|
    ensures |players| == n && forall p :: 0 <= p < n ==> players[p] == if names[p] == Local then Network(conn) else Bot
  {
    seq(n, p requires 0 <= p < n => if names[p] == Local then Network(conn) else Bot)
  }

  /** The match is queued, in an entry that was on no list. */
  ghost predicate IsQueued(before: View, after: View, m: Match) {
    exists entry: nat :: entry <= |before.matches| && entry !in before.listed && after == Queued(before, entry, m)
  }

  /** The lines before the first that is acted on: those of a client that is logged on and asks for the games. */
  function Asks(lines: seq<Line>): (k: nat)
    ensures k <= |lines| && (k < |lines| ==> lines[k].EndOfFile? || lines[k].command != Ask)
    ensures forall l :: 0 <= l < k ==> lines[l].Line? && lines[l].command == Ask
  {
    if lines == [] || lines[0].EndOfFile? || lines[0].command != Ask then 0 else 1 + Asks(lines[1..])
  }

  /**
    What a line does: the end of the input hangs up, and so does a login that fails; the request of a client that is
    logged on queues a match if it can be read.
   */
  ghost predicate Handles(conf: Config, users: nat, v: View, after: View, conn: nat, line: Line, now: Time)
    requires conn < |v.conns|
  {
    if line.EndOfFile? then after == Hungup(v, conn)
    else if v.conns[conn].status == Unvalidated then
      after == if 0 <= line.user < users then LoggedOn(v, conn, line.user) else Hungup(v, conn)
    else if Parses(conf, line.command) && v.conns[conn].user >= 0 then
      IsQueued(v, after, Asked(conf, line.command, conn, v.conns[conn].user, now))
    else after == v
  }

  lemma AskedFits(conf: Config, users: nat, v: View, c: Command, conn: nat, now: Time)
    requires Inv(conf, users, v)
    requires conn in v.open && conn < |v.conns| && v.conns[conn].status == Okay
    ensures 0 <= v.conns[conn].user < users
    ensures Parses(conf, c) ==> var m := Asked(conf, c, conn, v.conns[conn].user, now);
      MatchFits(conf, users, m) && !m.isRunning && forall p :: 0 <= p < |m.players| ==>
        SeatFits(v, m.user, m.players[p])
  {
    InvOpens(conf, users, v);
  }

  ghost predicate NoneClosed(open: seq<nat>, conns: seq<Connection>) {
    forall k :: 0 <= k < |open| ==> open[k] < |conns| && conns[open[k]].status != Closed
  }

  lemma OpenedIsOpen(v: View, entry: nat)
    requires NoneClosed(v.open, v.conns) && entry <= |v.conns| && entry !in v.open
    ensures NoneClosed(Opened(v, entry).open, Opened(v, entry).conns)
  {
    var w := Opened(v, entry);
    forall k | 0 <= k < |w.open| ensures w.open[k] < |w.conns| && w.conns[w.open[k]].status != Closed {
      if k > 0 { assert w.open[k] == v.open[k - 1]; }
    }
  }

  lemma SweptAreOpen(conf: Config, users: nat, v: View)
    requires Inv(conf, users, v)
    ensures NoneClosed(Swept(v).open, v.conns)
  {
    StillOpenMeans(v.open, v.conns);
    forall k | 0 <= k < |Swept(v).open| ensures v.conns[Swept(v).open[k]].status != Closed {
      assert Swept(v).open[k] in Swept(v).open;
    }
  }

  /** The list of connections halfway through the walk. */
  function HalfSwept(was: seq<nat>, i: nat, conns: seq<Connection>): seq<nat>
    requires Below(was, |conns|) && i <= |was|
  {
    StillOpen(was[..i], conns) + was[i..]
  }

  /** The list and the entry looked at next, once the walk has looked at the first i. */
  ghost predicate SweepIs(was: seq<nat>, i: nat, conns: seq<Connection>, list: seq<nat>, cur: int) {
    forall k: nat :: SweepIsAt(k, was, i, conns, list, cur)
  }

  ghost predicate SweepIsAt(k: nat, was: seq<nat>, i: nat, conns: seq<Connection>, list: seq<nat>, cur: int) {
    && Below(was, |conns|) && i <= |was|
    && list == HalfSwept(was, i, conns) && cur == if i < |was| then was[i] else NULL
  }

  /** Where on the list the walk is. */
  function SweepPlace(was: seq<nat>, i: nat, conns: seq<Connection>): nat
    requires Below(was, |conns|) && i <= |was|
  {
    |StillOpen(was[..i], conns)|
  }

  lemma SweepOpens(was: seq<nat>, i: nat, conns: seq<Connection>, list: seq<nat>, cur: int)
    requires SweepIs(was, i, conns, list, cur)
    ensures Below(was, |conns|) && i <= |was| && (cur != NULL ==> i < |was|)
    ensures cur != NULL ==>
      var k := SweepPlace(was, i, conns); cur >= 0 && k < |list| && list[k] == cur && cur < |conns|
  {
    assert SweepIsAt(0, was, i, conns, list, cur);
    if i < |was| { assert was[i..] == [was[i]] + was[i + 1..]; }
  }

  lemma SweepStep(was: seq<nat>, i: nat, conns: seq<Connection>, list: seq<nat>, cur: nat)
    requires SweepIs(was, i, conns, list, cur) && Below(was, |conns|) && i < |was|
    requires SweepPlace(was, i, conns) < |list| && cur < |conns|
    ensures var k := SweepPlace(was, i, conns);
      SweepIs(was, i + 1, conns, if conns[cur].status == Closed then Without(list, k) else list,
              if k + 1 < |list| then list[k + 1] else NULL)
  {
    assert SweepIsAt(0, was, i, conns, list, cur);
    assert was[..i + 1][..i] == was[..i] && was[..i + 1] == was[..i] + [was[i]];
    assert was[i..] == [was[i]] + was[i + 1..];
  }

  lemma SweepBegins(was: seq<nat>, conns: seq<Connection>)
    requires Below(was, |conns|)
    ensures SweepIs(was, 0, conns, was, if was == [] then NULL else was[0])
  {
    assert HalfSwept(was, 0, conns) == was;
  }

  lemma SweepEnds(was: seq<nat>, i: nat, conns: seq<Connection>, list: seq<nat>)
    requires SweepIs(was, i, conns, list, NULL)
    ensures Below(was, |conns|) && list == StillOpen(was, conns)
  {
    assert SweepIsAt(0, was, i, conns, list, NULL);
    assert was[..|was|] == was;
  }

  /** The jobs on the list, halfway through: those that stay, then those not looked at. */
  ghost predicate HalfFinished(was: seq<nat>, i: nat, live: seq<nat>, k: nat, ended: set<nat>) {
    && i <= |was| && k <= |live| && live[k..] == was[i..]
    && forall e: nat :: e in live[..k] <==> e in was[..i] && e !in ended
  }

  lemma HalfFinishedStep(was: seq<nat>, i: nat, live: seq<nat>, k: nat, ended: set<nat>)
    requires HalfFinished(was, i, live, k, ended) && k < |live|
    ensures i < |was| && was[i] == live[k]
    ensures if live[k] in ended then HalfFinished(was, i + 1, Without(live, k), k, ended)
            else HalfFinished(was, i + 1, live, k + 1, ended)
  {
    assert live[k..][0] == was[i..][0] && live[k..][1..] == was[i..][1..];
    assert was[..i + 1] == was[..i] + [was[i]];
    if live[k] in ended {
      assert Without(live, k)[..k] == live[..k] && Without(live, k)[k..] == live[k + 1..];
    } else {
      assert live[..k + 1] == live[..k] + [live[k]];
    }
  }

  lemma DroppedStep(matches: seq<Match>, listed: seq<nat>, k: nat, conn: nat)
    requires k < |listed| && Below(listed, |matches|)
    ensures var cur, data := listed[k], AllDropped(matches, listed[..k], conn);
      AllDropped(matches, listed[..k + 1], conn) == data[cur := Dropped(data[cur], conn)]
  {
    assert listed[..k + 1] == listed[..k] + [listed[k]];
  }
}
