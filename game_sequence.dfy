/**
 * The game loop of the battleships AI tester (HomeTask/battleships/GameSequence.cs).
 *
 * `Run` plays up to `GamesCount` games against one AI, folds each game's
 * counters into running totals, repairs the AI after a crash and stops early
 * once more than `CrashLimit` games have crashed. A game is represented by
 * the counters it ends with (`GameOutcome`); the i-th element of `games` is
 * what playing game i to its end yields. The calls the loop makes on the AI
 * and the results it hands to its subscribers are recorded, in order, as a
 * trace of `Event`s.
 */
module GameSequence {

  /** The settings the loop reads. */
  datatype Settings = Settings(gamesCount: int, crashLimit: int, verbose: bool)

  /** The counters of a game once it is over. */
  datatype GameOutcome = GameOutcome(turnsCount: nat, badShots: nat, crashed: bool)

  /** Reported after each game when the settings are verbose. */
  datatype GameResult = GameResult(turnsCount: nat, badShots: nat, aiCrashed: bool, gameIndex: nat)

  /** Reported once, at the end of the sequence. */
  datatype GameSequenceResult =
    GameSequenceResult(aiName: string, shots: seq<nat>, crashes: nat, badShots: nat, gamesPlayed: nat)

  /** What the loop does that is visible from outside, in order. */
  datatype Event =
    | Repaired(gameIndex: nat)               // game.RepairAi() after game `gameIndex` crashed
    | GameReported(result: GameResult)       // ProvideGameResult(...)
    | Disposed                               // ai.Dispose()
    | SequenceReported(summary: GameSequenceResult)  // ProvideSequanceResults(...)

  function Max0(x: int): nat { if x < 0 then 0 else x }

  // ---------------------------------------------------------------------
  // Totals over the games played
  // ---------------------------------------------------------------------

  /** Number of crashed games in `gs`. */
  function Crashes(gs: seq<GameOutcome>): nat
  {
    if gs == [] then 0
    else Crashes(gs[..|gs| - 1]) + (if gs[|gs| - 1].crashed then 1 else 0)
  }

  /** Bad shots of every game in `gs`, crashed or not. */
  function BadShotsTotal(gs: seq<GameOutcome>): nat
  {
    if gs == [] then 0
    else BadShotsTotal(gs[..|gs| - 1]) + gs[|gs| - 1].badShots
  }

  /** Turn counts of the games of `gs` that did not crash, in order of play. */
  function Turns(gs: seq<GameOutcome>): seq<nat>
  {
    if gs == [] then []
    else Turns(gs[..|gs| - 1]) + (if gs[|gs| - 1].crashed then [] else [gs[|gs| - 1].turnsCount])
  }

  /** The sequence result for the games `gs` that were played. */
  function Summary(aiName: string, gs: seq<GameOutcome>): GameSequenceResult
  {
    GameSequenceResult(aiName, Turns(gs), Crashes(gs), BadShotsTotal(gs), |gs|)
  }

  // ---------------------------------------------------------------------
  // When the loop stops
  // ---------------------------------------------------------------------

  /** The n-th game played (game n - 1) crashed and brought the crash count above the limit. */
  predicate Broken(settings: Settings, games: seq<GameOutcome>, n: nat)
  {
    0 < n <= |games| && games[n - 1].crashed && Crashes(games[..n]) > settings.crashLimit
  }

  /**
   * `n` games are played: none of the first n - 1 games broke the loop, and
   * either game n - 1 broke it or all `GamesCount` games were played.
   */
  predicate Stops(settings: Settings, games: seq<GameOutcome>, n: nat)
  {
    && n <= |games|
    && n <= Max0(settings.gamesCount)
    && (forall j :: 0 < j < n ==> !Broken(settings, games, j))
    && (Broken(settings, games, n) || n == Max0(settings.gamesCount))
  }

  /** Games that ran through the whole loop body: all played games but a breaking one. */
  function Completed(settings: Settings, games: seq<GameOutcome>, n: nat): nat
  {
    if Broken(settings, games, n) then n - 1 else n
  }

  // ---------------------------------------------------------------------
  // What the loop reports
  // ---------------------------------------------------------------------

  /** Events of game `i` when it does not break the loop. */
  function GameEvents(settings: Settings, games: seq<GameOutcome>, i: nat): seq<Event>
    requires i < |games|
  {
    (if games[i].crashed then [Repaired(i)] else [])
    + (if settings.verbose
       then [GameReported(GameResult(games[i].turnsCount, BadShotsTotal(games[..i + 1]), games[i].crashed, i))]
       else [])
  }

  /** Events of games 0 .. k - 1, none of which broke the loop. */
  function EventsBefore(settings: Settings, games: seq<GameOutcome>, k: nat): seq<Event>
    requires k <= |games|
  {
    if k == 0 then [] else EventsBefore(settings, games, k - 1) + GameEvents(settings, games, k - 1)
  }

  /** Everything a run that plays `n` games does, in order. */
  function SequenceTrace(settings: Settings, aiName: string, games: seq<GameOutcome>, n: nat): seq<Event>
    requires n <= |games|
  {
    EventsBefore(settings, games, Completed(settings, games, n))
    + [Disposed, SequenceReported(Summary(aiName, games[..n]))]
  }

  /** Number of repairs in a trace. */
  function Repairs(t: seq<Event>): nat
  {
    if t == [] then 0 else Repairs(t[..|t| - 1]) + (if t[|t| - 1].Repaired? then 1 else 0)
  }

  /** Number of per-game reports in a trace. */
  function Reports(t: seq<Event>): nat
  {
    if t == [] then 0 else Reports(t[..|t| - 1]) + (if t[|t| - 1].GameReported? then 1 else 0)
  }

  // ---------------------------------------------------------------------
  // The loop
  // ---------------------------------------------------------------------

  /**
   * GameSequence.Run: plays the games, returns the sequence result and the
   * trace of repairs, reports and the final disposal.
   */
  method Run(settings: Settings, aiName: string, games: seq<GameOutcome>)
    returns (result: GameSequenceResult, trace: seq<Event>)
    requires settings.gamesCount <= |games|
    ensures Stops(settings, games, result.gamesPlayed)
    ensures result == Summary(aiName, games[..result.gamesPlayed])
    ensures trace == SequenceTrace(settings, aiName, games, result.gamesPlayed)
  {
    var badShots: nat, crashes: nat, gamesPlayed: nat := 0, 0, 0;
    var shots: seq<nat> := [];
    trace := [];
    var gameIndex: nat := 0;
    while gameIndex < settings.gamesCount
      invariant gameIndex == gamesPlayed <= Max0(settings.gamesCount)
      invariant badShots == BadShotsTotal(games[..gamesPlayed])
      invariant crashes == Crashes(games[..gamesPlayed])
      invariant shots == Turns(games[..gamesPlayed])
      invariant forall j :: 0 < j <= gamesPlayed ==> !Broken(settings, games, j)
      invariant trace == EventsBefore(settings, games, gamesPlayed)
    {
      var game := games[gameIndex];
      gamesPlayed := gamesPlayed + 1;
      assert games[..gamesPlayed][..gameIndex] == games[..gameIndex];
      badShots := badShots + game.badShots;
      if game.crashed {
        crashes := crashes + 1;
        if crashes > settings.crashLimit {
          assert Broken(settings, games, gamesPlayed);
          break;
        }
        trace := trace + [Repaired(gameIndex)];
      } else {
        shots := shots + [game.turnsCount];
      }
      if settings.verbose {
        trace := trace + [GameReported(GameResult(game.turnsCount, badShots, game.crashed, gameIndex))];
      }
      gameIndex := gameIndex + 1;
    }
    trace := trace + [Disposed];
    result := GameSequenceResult(aiName, shots, crashes, badShots, gamesPlayed);
    trace := trace + [SequenceReported(result)];
  }

  // ---------------------------------------------------------------------
  // Properties of the totals
  // ---------------------------------------------------------------------

  lemma PrefixOfPrefix(gs: seq<GameOutcome>, m: nat)
    requires 0 < m <= |gs|
    ensures gs[..m][..m - 1] == gs[..m - 1]
  {
  }

  /** Totals of two stretches of play add up; `Turns` keeps the order of play. */
  lemma {:induction false} SummaryAppend(a: seq<GameOutcome>, b: seq<GameOutcome>)
    ensures Crashes(a + b) == Crashes(a) + Crashes(b)
    ensures BadShotsTotal(a + b) == BadShotsTotal(a) + BadShotsTotal(b)
    ensures Turns(a + b) == Turns(a) + Turns(b)
  {
    if b == [] {
      assert a + b == a;
    } else {
      var b' := b[..|b| - 1];
      assert (a + b)[..|a + b| - 1] == a + b';
      SummaryAppend(a, b');
    }
  }

  /** Every game played is either a crash or contributes one turn count. */
  lemma {:induction false} GamesAccounted(gs: seq<GameOutcome>)
    ensures |Turns(gs)| + Crashes(gs) == |gs|
  {
    if gs != [] {
      GamesAccounted(gs[..|gs| - 1]);
    }
  }

  /** The cumulative bad-shot count never decreases from one game to the next. */
  lemma BadShotsMonotone(gs: seq<GameOutcome>, i: nat, j: nat)
    requires i <= j <= |gs|
    ensures BadShotsTotal(gs[..i]) <= BadShotsTotal(gs[..j])
  {
    assert gs[..j] == gs[..i] + gs[i..j];
    SummaryAppend(gs[..i], gs[i..j]);
  }

  // ---------------------------------------------------------------------
  // Properties of the stopping rule
  // ---------------------------------------------------------------------

  /** While the loop has not broken, the crashes stay within the limit (or 0 for a negative limit). */
  lemma {:induction false} CrashesBeforeBreak(settings: Settings, games: seq<GameOutcome>, m: nat)
    requires m <= |games|
    requires forall j :: 0 < j <= m ==> !Broken(settings, games, j)
    ensures Crashes(games[..m]) <= Max0(settings.crashLimit)
  {
    if m > 0 {
      CrashesBeforeBreak(settings, games, m - 1);
      PrefixOfPrefix(games, m);
      assert !Broken(settings, games, m);
    }
  }

  /**
   * At most max(CrashLimit, 0) + 1 games crash; an early stop happens only
   * after a crash, and the crash that breaks the loop is number
   * max(CrashLimit, 0) + 1 (1 for a negative limit).
   */
  lemma CrashLimitRespected(settings: Settings, games: seq<GameOutcome>, n: nat)
    requires Stops(settings, games, n)
    ensures Crashes(games[..n]) <= Max0(settings.crashLimit) + 1
    ensures n < settings.gamesCount ==> Broken(settings, games, n)
    ensures Broken(settings, games, n) ==>
              games[n - 1].crashed && Crashes(games[..n]) == Max0(settings.crashLimit) + 1
  {
    if n > 0 {
      CrashesBeforeBreak(settings, games, n - 1);
      PrefixOfPrefix(games, n);
    }
  }

  /** The stopping rule determines how many games are played. */
  lemma GamesPlayedDetermined(settings: Settings, games: seq<GameOutcome>, n1: nat, n2: nat)
    requires Stops(settings, games, n1) && Stops(settings, games, n2)
    ensures n1 == n2
  {
  }

  /** With no games configured nothing is played, the AI is disposed and an empty result reported. */
  lemma NoGames(settings: Settings, aiName: string, games: seq<GameOutcome>, n: nat)
    requires settings.gamesCount <= 0
    requires Stops(settings, games, n)
    ensures n == 0
    ensures SequenceTrace(settings, aiName, games, n)
            == [Disposed, SequenceReported(GameSequenceResult(aiName, [], 0, 0, 0))]
  {
  }

  // ---------------------------------------------------------------------
  // Properties of the trace
  // ---------------------------------------------------------------------

  lemma {:induction false} EventCountsAppend(a: seq<Event>, b: seq<Event>)
    ensures Repairs(a + b) == Repairs(a) + Repairs(b)
    ensures Reports(a + b) == Reports(a) + Reports(b)
  {
    if b == [] {
      assert a + b == a;
    } else {
      var b' := b[..|b| - 1];
      assert (a + b)[..|a + b| - 1] == a + b';
      EventCountsAppend(a, b');
    }
  }

  lemma EventCountsSingle(e: Event)
    ensures Repairs([e]) == if e.Repaired? then 1 else 0
    ensures Reports([e]) == if e.GameReported? then 1 else 0
  {
    assert [e][..0] == [];
  }

  /** A game that does not break the loop repairs the AI iff it crashed, and reports iff verbose. */
  lemma GameEventsCounts(settings: Settings, games: seq<GameOutcome>, i: nat)
    requires i < |games|
    ensures Repairs(GameEvents(settings, games, i)) == if games[i].crashed then 1 else 0
    ensures Reports(GameEvents(settings, games, i)) == if settings.verbose then 1 else 0
  {
    var repair: seq<Event> := if games[i].crashed then [Repaired(i)] else [];
    var report: seq<Event> :=
      if settings.verbose
      then [GameReported(GameResult(games[i].turnsCount, BadShotsTotal(games[..i + 1]), games[i].crashed, i))]
      else [];
    assert GameEvents(settings, games, i) == repair + report;
    EventCountsAppend(repair, report);
    if games[i].crashed { EventCountsSingle(repair[0]); }
    if settings.verbose { EventCountsSingle(report[0]); }
  }

  /** One repair per crashed game and, when verbose, one report per game. */
  lemma {:induction false} EventsBeforeCounts(settings: Settings, games: seq<GameOutcome>, k: nat)
    requires k <= |games|
    ensures Repairs(EventsBefore(settings, games, k)) == Crashes(games[..k])
    ensures Reports(EventsBefore(settings, games, k)) == if settings.verbose then k else 0
  {
    if k > 0 {
      EventsBeforeCounts(settings, games, k - 1);
      PrefixOfPrefix(games, k);
      EventCountsAppend(EventsBefore(settings, games, k - 1), GameEvents(settings, games, k - 1));
      GameEventsCounts(settings, games, k - 1);
    }
  }

  /**
   * `e` is something a game among the first `k` does: a repair, or a report
   * naming that game with its own turn count and crash flag and the bad
   * shots accumulated up to and including it.
   */
  predicate GameEventOf(games: seq<GameOutcome>, e: Event, k: nat)
  {
    match e
    case Repaired(i) => i < k && i < |games| && games[i].crashed
    case GameReported(r) =>
      && r.gameIndex < k
      && r.gameIndex < |games|
      && r.turnsCount == games[r.gameIndex].turnsCount
      && r.aiCrashed == games[r.gameIndex].crashed
      && r.badShots == BadShotsTotal(games[..r.gameIndex + 1])
    case _ => false
  }

  /** Before the end of the sequence the trace holds only repairs and reports of games already played. */
  lemma {:induction false} EventsBeforeShape(settings: Settings, games: seq<GameOutcome>, k: nat)
    requires k <= |games|
    ensures forall i :: 0 <= i < |EventsBefore(settings, games, k)| ==>
              GameEventOf(games, EventsBefore(settings, games, k)[i], k)
  {
    if k > 0 {
      EventsBeforeShape(settings, games, k - 1);
      var before := EventsBefore(settings, games, k - 1);
      var g := GameEvents(settings, games, k - 1);
      var t := EventsBefore(settings, games, k);
      assert t == before + g;
      forall i | 0 <= i < |t|
        ensures GameEventOf(games, t[i], k)
      {
        if i < |before| {
          assert t[i] == before[i];
          assert GameEventOf(games, before[i], k - 1);
        } else {
          var repair: seq<Event> := if games[k - 1].crashed then [Repaired(k - 1)] else [];
          var report: seq<Event> :=
            if settings.verbose
            then [GameReported(GameResult(games[k - 1].turnsCount, BadShotsTotal(games[..k]),
                                          games[k - 1].crashed, k - 1))]
            else [];
          assert g == repair + report;
          var j := i - |before|;
          assert t[i] == g[j];
          if j >= |repair| {
            assert g[j] == report[0];
          }
        }
      }
    }
  }

  /**
   * RepairAi runs once for every crashed game except the one that breaks the
   * loop; no report is made for the breaking game; the AI is disposed exactly
   * once, after every game and before the sequence result is reported.
   */
  lemma RunTraceShape(settings: Settings, aiName: string, games: seq<GameOutcome>, n: nat)
    requires Stops(settings, games, n)
    ensures var t := SequenceTrace(settings, aiName, games, n);
            Repairs(t) == Crashes(games[..n]) - (if Broken(settings, games, n) then 1 else 0)
    ensures var t := SequenceTrace(settings, aiName, games, n);
            Reports(t) == if settings.verbose then Completed(settings, games, n) else 0
    ensures var t := SequenceTrace(settings, aiName, games, n);
            forall i :: 0 <= i < |t| - 2 ==> GameEventOf(games, t[i], Completed(settings, games, n))
    ensures var t := SequenceTrace(settings, aiName, games, n);
            && |t| >= 2 && t[|t| - 2] == Disposed && t[|t| - 1].SequenceReported?
            && forall i :: 0 <= i < |t| - 2 ==> !t[i].Disposed? && !t[i].SequenceReported?
  {
    var c := Completed(settings, games, n);
    var e := EventsBefore(settings, games, c);
    var tail := [Disposed, SequenceReported(Summary(aiName, games[..n]))];
    EventsBeforeCounts(settings, games, c);
    EventsBeforeShape(settings, games, c);
    EventCountsAppend(e, tail);
    EventCountsAppend([Disposed], [SequenceReported(Summary(aiName, games[..n]))]);
    EventCountsSingle(Disposed);
    EventCountsSingle(SequenceReported(Summary(aiName, games[..n])));
    if Broken(settings, games, n) {
      PrefixOfPrefix(games, n);
      assert Crashes(games[..n]) == Crashes(games[..n - 1]) + 1;
    }
  }
}
