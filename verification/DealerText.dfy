/**
  The text the dealer of modules/agent/src/dealer.c reads and writes: the responses of the players, which echo the
  state they answer, and the lines of the transaction log, from which a match is taken up again.
 */
module DealerText {
  import opened Betting
  import opened Hands
  import opened Numbers
  import opened StateText
  import opened TextRoundTrip
  import opened Matches
  import opened Dealer

  // ---------------------------------------------------------------- responses

  /** readAction, at the end of the string too, where it finds the character 0. */
  function ActionAt(noLimit: bool, s: string): Parsed<Action> {
    if s == [] then Got(Action(Invalid, 0), s) else ReadAction(noLimit, s)
  }

  /** How readPlayerResponse takes a line: as an answer to the state ms or not, and with which action. */
  ghost function Taken(f: Format, ms: MatchState, line: string, recv: Time): Reply
    requires f.Valid() && ms.hand.Shape(f.game)
  {
    if line != [] && (line[0] == '#' || line[0] == ';') then Comment(recv)
    else
      match ReadMatchState(f, line)
      case Error => Unrequested(recv)
      case Got(read, rest) =>
        if !read.hand.Shape(f.game) || !MatchStatesEqual(f, ms, read) then Unrequested(recv)
        else if rest == [] || rest[0] != ':' then Unreadable(recv)
        else
          match ActionAt(f.game.noLimit, rest[1..])
          case Error => Unreadable(recv)
          case Got(a, _) => Chosen(recv, a)
  }

  /** What a player sends: the state he was sent, and his action. */
  ghost function Answer(f: Format, ms: MatchState, a: Action, end: string): string
    requires f.Valid() && ms.hand.Shape(f.game) && |ms.holeCards| == f.game.numPlayers
  {
    PrintMatchState(f, ms) + (":" + (PrintAction(f.game.noLimit, a) + end))
  }

  /**
    An answer that echoes the state is taken, with its action, exactly if the state's text tells hole cards from board
    cards; otherwise the dealer never takes the player's answer for one.
   */
  lemma AnswersAreTaken(f: Format, ms: MatchState, r: Run, a: Action, end: string, recv: Time)
    requires Reached(f, ms, r) && Plain(f.game, a) && (end == [] || !Digit(end[0])) && ms.hand.Shape(f.game)
    ensures Taken(f, ms, Answer(f, ms, a, end), recv) == if Readable(f, ms) then Chosen(recv, a) else Unrequested(recv)
  {
    var more := PrintAction(f.game.noLimit, a) + end;
    var rest := ":" + more;
    StartsLikeAState(f, ms, rest);
    var text := PrintMatchState(f, ms) + rest;
    assert Answer(f, ms, a, end) == text;
    ReadsBackExactly(f, ms, r, rest);
    ActionReads(f.game, a, end);
    assert rest[1..] == more;
    hide Taken, Answer, ReadMatchState, PrintMatchState, MatchStatesEqual, ReadAction, PrintAction, Readable, Reached,
      Hand.Shape;
    if Readable(f, ms) {
      TakesAnswer(f, ms, text, recv, ReadMatchState(f, text).value, rest, a, end);
    } else {
      TakesNothing(f, ms, text, recv);
    }
  }

  lemma TakesAnswer(f: Format, ms: MatchState, text: string, recv: Time, read: MatchState, rest: string, a: Action,
                    end: string)
    requires f.Valid() && ms.hand.Shape(f.game) && read.hand == ms.hand && text != [] && text[0] == 'M'
    requires ReadMatchState(f, text) == Got(read, rest) && MatchStatesEqual(f, ms, read) && |rest| > 1 && rest[0] == ':'
    requires ReadAction(f.game.noLimit, rest[1..]) == Got(a, end)
    ensures Taken(f, ms, text, recv) == Chosen(recv, a)
  {
    hide ReadMatchState, MatchStatesEqual, ReadAction, Hand.Shape;
  }

  lemma TakesNothing(f: Format, ms: MatchState, text: string, recv: Time)
    requires f.Valid() && ms.hand.Shape(f.game) && text != [] && text[0] == 'M' && ReadMatchState(f, text) == Error
    ensures Taken(f, ms, text, recv) == Unrequested(recv)
  {
    hide ReadMatchState, Hand.Shape;
  }

  /** No comment starts like a state. */
  lemma StartsLikeAState(f: Format, ms: MatchState, rest: string)
    requires f.Valid() && ms.hand.Shape(f.game) && |ms.holeCards| == f.game.numPlayers
    ensures var text := PrintMatchState(f, ms) + rest; text != [] && text[0] == 'M'
  {
  }

  /** The actions that come out of a text have a size only where the text has one. */
  lemma ActionsReadArePlain(g: Game, s: string)
    ensures ActionAt(g.noLimit, s).Got? ==>
      ActionAt(g.noLimit, s).value.kind.Invalid? || Plain(g, ActionAt(g.noLimit, s).value)
  {
  }

  // ---------------------------------------------------------------- numbers of six digits

  /** The last k digits of n. */
  function LastDigits(n: nat, k: nat): (s: string)
    ensures |s| == k
  {
    if k == 0 then "" else LastDigits(n / 10, k - 1) + [DigitChar(n % 10)]
  }

  function Ten(k: nat): (t: nat)
    ensures t > 0
  {
    if k == 0 then 1 else 10 * Ten(k - 1)
  }

  lemma {:induction false} LastDigitsValue(n: nat, k: nat)
    requires n < Ten(k)
    ensures AllDigits(LastDigits(n, k)) && Value(LastDigits(n, k)) == n
  {
    if k > 0 {
      LastDigitsValue(n / 10, k - 1);
      DigitCharIs(n % 10);
      assert LastDigits(n, k)[..k - 1] == LastDigits(n / 10, k - 1);
    }
  }

  /** %06u */
  function Micros(n: nat): string {
    if n < 1000000 then LastDigits(n, 6) else Dec(n)
  }

  /** %6u: no more than six digits. */
  function ReadSix(s: string): (p: Parsed<nat>)
    ensures p.Got? ==> |p.rest| < |s|
  {
    var t := SkipSpaces(s);
    var n := if DigitRun(t) < 6 then DigitRun(t) else 6;
    if n == 0 then Error else Got(Value(t[..n]), t[n..])
  }

  lemma {:induction false} RunAtLeast(d: string, rest: string)
    requires AllDigits(d)
    ensures DigitRun(d + rest) >= |d|
  {
    if d != [] {
      RunAtLeast(d[1..], rest);
      assert (d + rest)[1..] == d[1..] + rest;
    }
  }

  lemma MicrosRead(n: nat, rest: string)
    requires n < 1000000
    ensures ReadSix(Micros(n) + rest) == Got(n, rest)
  {
    assert Ten(6) == 1000000;
    LastDigitsValue(n, 6);
    RunAtLeast(Micros(n), rest);
    NoSpace(Micros(n) + rest);
    Cut(Micros(n), rest);
  }

  // ---------------------------------------------------------------- lines of the log

  /** A time, and what follows it. */
  function TimeText(t: Time, rest: string): string {
    Dec(t.sec) + ("." + (Micros(t.usec) + rest))
  }

  /** logTransaction. */
  function PrintEntry(noLimit: bool, e: Entry): string {
    PrintAction(noLimit, e.action) + (" " + (Dec(e.handId) + (" " + TimeText(e.send, " " + TimeText(e.recv, "\n")))))
  }

  /** Seconds, and microseconds if there are any. */
  function ReadTime(s: string): Parsed<(nat, Option<nat>)> {
    match ReadNat(s)
    case Error => Error
    case Got(sec, rest) =>
      if rest == [] || rest[0] != '.' then Got((sec, None), rest)
      else
        match ReadSix(rest[1..])
        case Error => Got((sec, None), rest)
        case Got(usec, rest) => Got((sec, Some(usec)), rest)
  }

  /**
    The first steps of processTransactionFile.  Four of the five numbers are enough for it: the last microseconds are
    then those it read before.
   */
  function ReadEntry(noLimit: bool, line: string, before: nat): Option<Entry> {
    match ActionAt(noLimit, line)
    case Error => None
    case Got(a, rest) =>
      match ReadNat(rest)
      case Error => None
      case Got(handId, rest) =>
        match ReadTime(rest)
        case Error => None
        case Got(send, rest) =>
          if send.1.None? then None
          else
            match ReadTime(rest)
            case Error => None
            case Got(recv, _) =>
              var usec := if recv.1.Some? then recv.1.value else before;
              Some(Entry(a, handId, Time(send.0, send.1.value), Time(recv.0, usec)))
  }

  lemma TimeReads(t: Time, rest: string)
    requires t.Valid()
    ensures ReadTime(TimeText(t, rest)) == Got((t.sec, Some(t.usec)), rest)
  {
    var more := "." + (Micros(t.usec) + rest);
    DecReads(t.sec, more);
    assert more[1..] == Micros(t.usec) + rest;
    MicrosRead(t.usec, rest);
  }

  /** After one space. */
  lemma SpaceSkipped(s: string)
    ensures SkipSpaces(" " + s) == SkipSpaces(s)
  {
    assert (" " + s)[1..] == s;
  }

  lemma SpaceReads(s: string)
    ensures ReadNat(" " + s) == ReadNat(s) && ReadTime(" " + s) == ReadTime(s)
  {
    SpaceSkipped(s);
  }

  /** A line of the log reads back. */
  lemma EntryReads(g: Game, e: Entry, before: nat)
    requires Plain(g, e.action) && e.send.Valid() && e.recv.Valid()
    ensures PrintEntry(g.noLimit, e) != [] && ReadEntry(g.noLimit, PrintEntry(g.noLimit, e), before) == Some(e)
  {
    var recv := TimeText(e.recv, "\n");
    var send := TimeText(e.send, " " + recv);
    var hand := Dec(e.handId) + (" " + send);
    ActionReads(g, e.action, " " + hand);
    SpaceReads(hand);
    DecReads(e.handId, " " + send);
    SpaceReads(send);
    TimeReads(e.send, " " + recv);
    SpaceReads(recv);
    TimeReads(e.recv, "\n");
  }

  // ---------------------------------------------------------------- lines of a file

  /** Where the first line of the text ends. */
  function LineEnd(text: string): (n: nat)
    ensures n <= |text| && (text != [] ==> n > 0)
  {
    if text == [] then 0 else if text[0] == '\n' then 1 else 1 + LineEnd(text[1..])
  }

  predicate OneLine(s: string) {
    s != [] && s[|s| - 1] == '\n' && NoBreak(s[..|s| - 1])
  }

  predicate NoBreak(s: string) {
    forall k :: 0 <= k < |s| ==> s[k] != '\n'
  }

  lemma {:induction false} LineEndOf(s: string, rest: string)
    requires OneLine(s)
    ensures LineEnd(s + rest) == |s|
  {
    assert (s + rest)[1..] == s[1..] + rest;
    if |s| > 1 {
      assert s[0] != '\n';
      assert s[1..][..|s| - 2] == s[..|s| - 1][1..];
      LineEndOf(s[1..], rest);
    }
  }

  lemma Breakless(a: string, b: string)
    requires NoBreak(a) && NoBreak(b)
    ensures NoBreak(a + b)
  {
  }

  lemma DigitsAreBreakless(n: nat)
    ensures NoBreak(Dec(n)) && NoBreak(Micros(n))
  {
    DecIsDigits(n);
    if n < 1000000 {
      assert Ten(6) == 1000000;
      LastDigitsValue(n, 6);
    }
  }

  /** The text of a time, with a rest that ends a line. */
  lemma TimeEndsLine(t: Time, rest: string)
    requires OneLine(rest)
    ensures OneLine(TimeText(t, rest))
  {
    DigitsAreBreakless(t.sec);
    DigitsAreBreakless(t.usec);
    Lead(Micros(t.usec), rest);
    Lead(".", Micros(t.usec) + rest);
    Lead(Dec(t.sec), "." + (Micros(t.usec) + rest));
  }

  lemma Lead(a: string, s: string)
    requires NoBreak(a) && OneLine(s)
    ensures OneLine(a + s)
  {
    assert (a + s)[..|a + s| - 1] == a + s[..|s| - 1];
    Breakless(a, s[..|s| - 1]);
  }

  lemma EntryIsLine(noLimit: bool, e: Entry)
    ensures OneLine(PrintEntry(noLimit, e))
  {
    var recv := TimeText(e.recv, "\n");
    var send := TimeText(e.send, " " + recv);
    TimeEndsLine(e.recv, "\n");
    Lead(" ", recv);
    TimeEndsLine(e.send, " " + recv);
    Lead(" ", send);
    DigitsAreBreakless(e.handId);
    Lead(Dec(e.handId), " " + send);
    Lead(" ", Dec(e.handId) + (" " + send));
    ActionIsBreakless(noLimit, e.action);
    Lead(PrintAction(noLimit, e.action), " " + (Dec(e.handId) + (" " + send)));
  }

  lemma ActionIsBreakless(noLimit: bool, a: Action)
    ensures NoBreak(PrintAction(noLimit, a))
  {
    if a.size < 0 { DecIsDigits(-a.size); } else { DecIsDigits(a.size); }
  }

  // ---------------------------------------------------------------- the log as text

  function PrintLog(noLimit: bool, es: seq<Entry>): string {
    if es == [] then "" else PrintEntry(noLimit, es[0]) + PrintLog(noLimit, es[1..])
  }

  /** processTransactionFile: line after line to the end of the text, or to the first that fails. */
  ghost function ReplayText(t: Table, m: Match, c: Clocks, text: string, before: nat): Replayed
    requires AtTable(t, m) && |c.usedHand| == |c.usedMatch| == t.game.numPlayers
    decreases |text|
  {
    if text == [] then Resumed(m, c)
    else
      var n := LineEnd(text);
      match ReadEntry(t.game.noLimit, text[..n], before)
      case None => Broken
      case Some(e) =>
        match ReplayEntry(t, m, c, e)
        case Broken => Broken
        case Resumed(m', c') => ReplayText(t, m', c', text[n..], e.recv.usec)
  }

  /** Entries as the dealer makes them: no size where the text has none, and microseconds of a clock. */
  ghost predicate Printable(g: Game, es: seq<Entry>) {
    forall k :: 0 <= k < |es| ==> Plain(g, es[k].action) && es[k].send.Valid() && es[k].recv.Valid()
  }

  /** Replaying a log, first entry first. */
  lemma {:induction false} ReplayFirst(t: Table, m: Match, c: Clocks, es: seq<Entry>)
    requires AtTable(t, m) && |c.usedHand| == |c.usedMatch| == t.game.numPlayers && es != []
    ensures Replay(t, m, c, es) ==
      match ReplayEntry(t, m, c, es[0])
      case Broken => Broken
      case Resumed(m', c') => Replay(t, m', c', es[1..])
  {
    hide ReplayEntry;
    var n := |es| - 1;
    if n == 0 {
      assert es[..0] == [] && es[1..] == [];
    } else {
      ReplayFirst(t, m, c, es[..n]);
      assert es[..n][1..] == es[1..][..n - 1] && es[1..][n - 1] == es[n] && es[..n][0] == es[0];
    }
  }

  lemma OneMoreLine(t: Table, m: Match, c: Clocks, e: Entry, rest: string, before: nat)
    requires AtTable(t, m) && |c.usedHand| == |c.usedMatch| == t.game.numPlayers && Printable(t.game, [e])
    ensures ReplayText(t, m, c, PrintEntry(t.game.noLimit, e) + rest, before) ==
      match ReplayEntry(t, m, c, e)
      case Broken => Broken
      case Resumed(m', c') => ReplayText(t, m', c', rest, e.recv.usec)
  {
    var line := PrintEntry(t.game.noLimit, e);
    assert Plain(t.game, [e][0].action) && [e][0].send.Valid() && [e][0].recv.Valid();
    EntryReads(t.game, e, before);
    EntryIsLine(t.game.noLimit, e);
    LineEndOf(line, rest);
    Cut(line, rest);
  }

  /** Replaying the text of a log is replaying the log. */
  lemma {:induction false} TextReplays(t: Table, m: Match, c: Clocks, es: seq<Entry>, before: nat)
    requires AtTable(t, m) && |c.usedHand| == |c.usedMatch| == t.game.numPlayers && Printable(t.game, es)
    ensures ReplayText(t, m, c, PrintLog(t.game.noLimit, es), before) == Replay(t, m, c, es)
    decreases |es|
  {
    if es != [] {
      OneMoreLine(t, m, c, es[0], PrintLog(t.game.noLimit, es[1..]), before);
      ReplayFirst(t, m, c, es);
      var r := ReplayEntry(t, m, c, es[0]);
      if r.Resumed? { TextReplays(t, r.m, r.c, es[1..], es[0].recv.usec); }
    }
  }

  /** So the text the dealer has written up to any point of a live match brings the match back as it stood. */
  lemma TextRecovers(v: Live, c: Clocks, k: nat, before: nat)
    requires v.Valid() && k <= |v.es| && AtMost(c, v.cs[0]) && Printable(v.t.game, v.es)
    ensures var r := ReplayText(v.t, v.ms[0], c, PrintLog(v.t.game.noLimit, v.es[..k]), before);
      r.Resumed? && r.m == v.ms[k] && AtMost(r.c, v.cs[k])
  {
    TextReplays(v.t, v.ms[0], c, v.es[..k], before);
    LogRecovers(v, c, k);
  }

  // ---------------------------------------------------------------- a dealer's own log

  /** The reply's action was read from some text. */
  ghost predicate FromText(g: Game, r: Reply) {
    r.Chosen? ==> exists s: string :: ReadFrom(g, s, r.action)
  }

  ghost predicate ReadFrom(g: Game, s: string, a: Action) {
    ActionAt(g.noLimit, s).Got? && ActionAt(g.noLimit, s).value == a
  }

  lemma TakenIsFromText(f: Format, ms: MatchState, line: string, recv: Time)
    requires f.Valid() && ms.hand.Shape(f.game)
    ensures FromText(f.game, Taken(f, ms, line, recv))
  {
    hide ReadMatchState, MatchStatesEqual, Hand.Shape;
    if Taken(f, ms, line, recv).Chosen? {
      var rest := ReadMatchState(f, line).rest;
      assert ReadFrom(f.game, rest[1..], Taken(f, ms, line, recv).action);
    }
  }

  /** Mending keeps actions plain. */
  lemma MendedIsPlain(g: Game, h: Hand, r: Reply)
    requires g.Valid() && h.Shape(g) && FromText(g, r)
    ensures Plain(g, Mended(g, h, r))
  {
    if r.Chosen? {
      var s: string :| ReadFrom(g, s, r.action);
      ActionsReadArePlain(g, s);
    }
  }

  /** What a dealer logs for replies read from text can be printed. */
  lemma LogIsPrintable(live: Live, t: Table, sends: seq<Time>, replies: seq<Reply>, log: seq<Entry>)
    requires PlayedOn(live, t, sends, replies, log) && forall k :: 0 <= k < |sends| ==> sends[k].Valid()
    requires forall k :: 0 <= k < |replies| ==> replies[k].recv.Valid() && FromText(t.game, replies[k])
    ensures Printable(t.game, log)
  {
    hide FromText, Mended, Plain, AtTable;
    forall k | 0 <= k < |log| ensures Plain(t.game, log[k].action) && log[k].send.Valid() && log[k].recv.Valid() {
      assert LogsOneOf(t, live.ms[k], replies, sends[k], log[k]);
      var i :| 0 <= i < |replies| && Logs(t, live.ms[k], replies[i], sends[k], log[k]);
      LoggedIsPlain(t, live.ms[k], replies[i], sends[k], log[k]);
    }
  }

  lemma LoggedIsPlain(t: Table, m: Match, r: Reply, send: Time, e: Entry)
    requires Logs(t, m, r, send, e) && FromText(t.game, r)
    ensures Plain(t.game, e.action)
  {
    MendedIsPlain(t.game, m.hand, r);
  }

  /** processTransactionFile, line by line from the text. */
  method ProcessText(d: Dealer, text: string) returns (ok: bool)
    requires d.Valid()
    modifies d.Repr()
    ensures match ReplayText(d.t, old(d.m), old(d.c), text, 0) {
              case Broken => !ok
              case Resumed(m', c') => ok && d.Valid() && d.m == m' && d.c == c' }
  {
    hide ReplayEntry, ReadEntry, LineEnd;
    ghost var all := ReplayText(d.t, d.m, d.c, text, 0);
    var rest, before := text, 0;
    while rest != []
      invariant d.Valid() && all == ReplayText(d.t, d.m, d.c, rest, before)
      decreases |rest|
    {
      var n := LineEnd(rest);
      var entry := ReadEntry(d.t.game.noLimit, rest[..n], before);
      if entry.None? {
        return false;
      }
      ok := d.ProcessEntry(entry.value);
      if !ok {
        return;
      }
      rest, before := rest[n..], entry.value.recv.usec;
    }
    ok := true;
  }

  /** A dealer restarted with the text another one wrote, up to entry k, stands where that one stood then. */
  method RecoverFromText(t: Table, seed: nat, numHands: nat, sends: seq<Time>, replies: seq<Reply>, k: nat)
    returns (second: Dealer, resumed: bool, ghost live: Live)
    requires t.Valid() && (forall k :: 0 <= k < |sends| ==> sends[k].Valid())
    requires forall k :: 0 <= k < |replies| ==> replies[k].recv.Valid() && FromText(t.game, replies[k])
    ensures PlayedOn(live, t, sends, replies, live.es) && live.ms[0] == First(t, seed)
    ensures k <= |live.es| ==> resumed && second.Valid() && second.m == live.ms[k] && AtMost(second.c, live.cs[k])
  {
    var first := new Dealer(t, seed);
    var ok, log, played := first.GameLoop(numHands, sends, replies);
    live := played;
    second := new Dealer(t, seed);
    if k > |log| {
      return second, false, live;
    }
    LogIsPrintable(live, t, sends, replies, log);
    TextRecovers(live, second.c, k, 0);
    resumed := ProcessText(second, PrintLog(t.game.noLimit, log[..k]));
  }
}
