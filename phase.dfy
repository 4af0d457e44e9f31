/**
 * The match phases (src/game/phase). A phase belongs to exactly one game and is
 * replaced whenever the game moves on, so it is modelled as a value held in the
 * game's `phase` field; its counters are that value's fields.
 */
module Phases {

  import opened Config
  import opened Colors
  import opened Sessions
  import opened Polls
  import opened Wrappers
  import opened Messages

  datatype PhaseType =
    | WaitingForPlayers | MinimumPlayersReached | Countdown | InProgress
    | EmergencyMeeting | Voting | Ending

  /** One variant per phase class, each with that class's counters and constructor arguments. */
  datatype Phase =
    | WaitingForPlayersPhase
    | MinimumPlayersReachedPhase(countdown: int)
    | CountdownPhase(countdown: int)
    | InProgressPhase
    | EmergencyMeetingPhase(timeToHide: int, timeToEnd: int, poll: Poll, requesterColor: Color, requesterName: string,
                            cadaverFound: bool)
    | VotingPhase
    | EndingPhase(timeToEnd: int, isCrewWin: bool)
  {
    function GetPhaseType(): (t: PhaseType)
      ensures t == WaitingForPlayers <==> this.WaitingForPlayersPhase?
      ensures t == MinimumPlayersReached <==> this.MinimumPlayersReachedPhase?
      ensures t == Countdown <==> this.CountdownPhase?
      ensures t == InProgress <==> this.InProgressPhase?
      ensures t == EmergencyMeeting <==> this.EmergencyMeetingPhase?
      ensures t == Voting <==> this.VotingPhase?
      ensures t == Ending <==> this.EndingPhase?
    {
      match this
      case WaitingForPlayersPhase => WaitingForPlayers
      case MinimumPlayersReachedPhase(_) => MinimumPlayersReached
      case CountdownPhase(_) => Countdown
      case InProgressPhase => InProgress
      case EmergencyMeetingPhase(_, _, _, _, _, _) => EmergencyMeeting
      case VotingPhase => Voting
      case EndingPhase(_, _) => Ending
    }
  }

  /** A fresh `MinimumPlayersReachedPhase`. */
  function NewMinimumPlayersReached(): Phase
  {
    MinimumPlayersReachedPhase(CountdownToStartWithMinimumPlayers)
  }

  /** A fresh `CountdownPhase`. */
  function NewCountdown(): Phase
  {
    CountdownPhase(CountdownStartGame)
  }

  /** A fresh `EndingPhase`; the crew-win flag is fixed here. */
  function NewEnding(isCrewWin: bool): (p: Phase)
    ensures p.EndingPhase? && p.timeToEnd == EndingGameDuration && p.isCrewWin == isCrewWin
  {
    EndingPhase(EndingGameDuration, isCrewWin)
  }

  const SkipOption: string := "skip"

  /** The meeting poll's options: every colour value, then the skip option. */
  function MeetingPollOptions(): (r: seq<string>)
    ensures |r| == |CreateColors()| + 1
    ensures r[..|CreateColors()|] == ColorNames() && r[|CreateColors()|] == SkipOption
    ensures forall t :: Name(t) in r
  {
    var r := ColorNames() + [SkipOption];
    assert forall t :: Name(t) in r by {
      forall t ensures Name(t) in r {
        CreateColorsCoversAllTypes(t);
        var i :| 0 <= i < |CreateColors()| && CreateColors()[i] == Color(t);
        assert r[i] == Name(t);
      }
    }
    r
  }

  /** `skip` is not a colour value, so a kick never targets a skip vote. */
  lemma SkipIsNoColor(t: ColorType)
    ensures Name(t) != SkipOption
  {
  }

  /**
   * A new emergency meeting: both timers at their start values, a fresh poll
   * over `MeetingPollOptions()`, and the requester's colour and name captured
   * now. The requester must be seated. `cadaverFound` says whether the meeting
   * was called over a cadaver; the cadaver entity itself is not modelled.
   */
  method NewEmergencyMeeting(requester: PlayerSession, cadaverFound: bool) returns (p: Phase)
    requires requester.color.Some?
    ensures p.EmergencyMeetingPhase?
    ensures p.timeToHide == TimeToHideEmergencyMeetingMessage && p.timeToEnd == TimeToEndEmergencyMeeting
    ensures fresh(p.poll) && p.poll.options == MeetingPollOptions() && p.poll.ballots == [] && p.poll.Valid()
    ensures p.requesterColor == requester.color.value && p.requesterName == requester.player.username
    ensures p.cadaverFound == cadaverFound
  {
    var poll := new Poll(MeetingPollOptions());
    p := EmergencyMeetingPhase(TimeToHideEmergencyMeetingMessage, TimeToEndEmergencyMeeting,
                               poll, requester.color.value, requester.player.username, cadaverFound);
  }

  // ---------------------------------------------------------------------------
  // Heartbeats

  /** Whether this heartbeat of a meeting resolves the poll. */
  predicate Resolves(p: Phase)
  {
    p.EmergencyMeetingPhase? && p.timeToHide - 1 < 0 && p.timeToEnd - 1 <= 0
  }

  /** Whether this heartbeat of the ending phase sends every player back to matchmaking. */
  predicate Rotates(p: Phase)
  {
    p.EndingPhase? && p.timeToEnd - 1 <= 0
  }

  /**
   * A meeting with both timers counted down by one heartbeat and no transition:
   * the end timer only counts once the hide timer has gone below zero.
   */
  function Counted(p: Phase): (q: Phase)
    requires p.EmergencyMeetingPhase?
  {
    if p.timeToHide - 1 >= 0 then p.(timeToHide := p.timeToHide - 1)
    else p.(timeToHide := p.timeToHide - 1, timeToEnd := p.timeToEnd - 1)
  }

  /**
   * The phase after one heartbeat, as far as counters and transitions go
   * (the waiting phase's pulling of players is a join, handled by the game).
   * A meeting either resolves and returns to the match, or is counted down.
   */
  function AfterHeartbeat(p: Phase): (q: Phase)
    ensures Resolves(p) ==> q == InProgressPhase
    ensures p.EmergencyMeetingPhase? && !Resolves(p) ==> q == Counted(p)
    ensures Rotates(p) ==> q == WaitingForPlayersPhase
    ensures p.EndingPhase? && !Rotates(p) ==> q == p.(timeToEnd := p.timeToEnd - 1)
  {
    match p
    case MinimumPlayersReachedPhase(c) =>
      if c - 1 > 0 then MinimumPlayersReachedPhase(c - 1) else NewCountdown()
    case CountdownPhase(c) =>
      if c > 0 then CountdownPhase(c - 1) else InProgressPhase
    case EmergencyMeetingPhase(h, e, poll, color, name, cadaver) =>
      if h - 1 >= 0 then EmergencyMeetingPhase(h - 1, e, poll, color, name, cadaver)
      else if e - 1 <= 0 then InProgressPhase
      else EmergencyMeetingPhase(h - 1, e - 1, poll, color, name, cadaver)
    case EndingPhase(t, w) =>
      if t - 1 <= 0 then WaitingForPlayersPhase else EndingPhase(t - 1, w)
    case _ => p
  }

  /** `k` heartbeats in a row, with nobody joining or leaving. */
  function Iterate(p: Phase, k: nat): Phase
    decreases k
  {
    if k == 0 then p else Iterate(AfterHeartbeat(p), k - 1)
  }

  lemma {:induction false} IterateSplit(p: Phase, a: nat, b: nat)
    ensures Iterate(p, a + b) == Iterate(Iterate(p, a), b)
    decreases a
  {
    if a > 0 {
      IterateSplit(AfterHeartbeat(p), a - 1, b);
    }
  }

  /** The phases without transition logic stay put. */
  lemma {:induction false} StaticPhasesStay(p: Phase, k: nat)
    requires p.WaitingForPlayersPhase? || p.InProgressPhase? || p.VotingPhase?
    ensures Iterate(p, k) == p
  {
    if k > 0 {
      StaticPhasesStay(p, k - 1);
    }
  }

  lemma {:induction false} MinimumPlayersCounts(c: int, k: nat)
    requires k < c
    ensures Iterate(MinimumPlayersReachedPhase(c), k) == MinimumPlayersReachedPhase(c - k)
  {
    if k > 0 {
      MinimumPlayersCounts(c - 1, k - 1);
    }
  }

  /** Minimum players reached: four heartbeats count down, the fifth starts the countdown. */
  lemma MinimumPlayersTransition()
    ensures forall k :: 0 <= k < CountdownToStartWithMinimumPlayers ==>
      Iterate(NewMinimumPlayersReached(), k).MinimumPlayersReachedPhase?
    ensures Iterate(NewMinimumPlayersReached(), CountdownToStartWithMinimumPlayers) == NewCountdown()
  {
    forall k | 0 <= k < CountdownToStartWithMinimumPlayers
      ensures Iterate(NewMinimumPlayersReached(), k).MinimumPlayersReachedPhase?
    {
      MinimumPlayersCounts(CountdownToStartWithMinimumPlayers, k);
    }
    MinimumPlayersCounts(CountdownToStartWithMinimumPlayers, 4);
    IterateSplit(NewMinimumPlayersReached(), 4, 1);
  }

  lemma {:induction false} CountdownCounts(c: int, k: nat)
    requires k <= c
    ensures Iterate(CountdownPhase(c), k) == CountdownPhase(c - k)
  {
    if k > 0 {
      CountdownCounts(c - 1, k - 1);
    }
  }

  /** Countdown: ten heartbeats take the counter from 10 to 0, the eleventh starts the match. */
  lemma CountdownTransition()
    ensures forall k :: 0 <= k <= CountdownStartGame ==>
      Iterate(NewCountdown(), k) == CountdownPhase(CountdownStartGame - k)
    ensures Iterate(NewCountdown(), CountdownStartGame + 1) == InProgressPhase
  {
    forall k | 0 <= k <= CountdownStartGame
      ensures Iterate(NewCountdown(), k) == CountdownPhase(CountdownStartGame - k)
    {
      CountdownCounts(CountdownStartGame, k);
    }
    CountdownCounts(CountdownStartGame, CountdownStartGame);
    IterateSplit(NewCountdown(), CountdownStartGame, 1);
  }

  /** The countdown counter of a phase that starts in range never goes below zero. */
  lemma CountdownNeverNegative(p: Phase)
    requires p.CountdownPhase? && p.countdown >= 0
    ensures AfterHeartbeat(p).CountdownPhase? ==> AfterHeartbeat(p).countdown >= 0
  {
  }

  lemma {:induction false} MeetingHides(p: Phase, k: nat)
    requires p.EmergencyMeetingPhase? && k <= p.timeToHide
    ensures Iterate(p, k) == p.(timeToHide := p.timeToHide - k)
    decreases k
  {
    if k > 0 {
      MeetingHides(AfterHeartbeat(p), k - 1);
    }
  }

  lemma {:induction false} MeetingRuns(p: Phase, k: nat)
    requires p.EmergencyMeetingPhase? && p.timeToHide <= 0 && k < p.timeToEnd
    ensures Iterate(p, k) == p.(timeToHide := p.timeToHide - k, timeToEnd := p.timeToEnd - k)
    decreases k
  {
    if k > 0 {
      MeetingRuns(AfterHeartbeat(p), k - 1);
    }
  }

  /** What a meeting heartbeat does besides counting, decided by the decremented hide timer. */
  datatype MeetingStage = Starting | SettingUp | Running

  function StageOf(p: Phase): MeetingStage
    requires p.EmergencyMeetingPhase?
  {
    if p.timeToHide - 1 == 0 then SettingUp
    else if p.timeToHide - 1 < 0 then Running
    else Starting
  }

  /** The phase of a fresh meeting before heartbeat k + 1, for the fifteen heartbeats it lasts. */
  lemma MeetingAt(m: Phase, k: nat)
    requires m.EmergencyMeetingPhase?
    requires m.timeToHide == TimeToHideEmergencyMeetingMessage && m.timeToEnd == TimeToEndEmergencyMeeting
    requires k < 15
    ensures Iterate(m, k) == if k <= 5 then m.(timeToHide := 5 - k) else m.(timeToHide := 5 - k, timeToEnd := 15 - k)
  {
    if k <= 5 {
      MeetingHides(m, k);
    } else {
      MeetingHides(m, 5);
      IterateSplit(m, 5, k - 5);
      MeetingRuns(Iterate(m, 5), k - 5);
    }
  }

  /**
   * A fresh meeting: heartbeats 1-4 show the starting messages, heartbeat 5 sets up
   * the vote, heartbeats 6-15 run it and heartbeat 15 is the one that resolves the
   * poll; when the resolution goes through the match resumes, and when it throws
   * the meeting stays, counted down, and resolves again on heartbeat 16.
   * `Iterate(m, k)` is the phase before heartbeat k + 1.
   */
  lemma MeetingSchedule(m: Phase)
    requires m.EmergencyMeetingPhase?
    requires m.timeToHide == TimeToHideEmergencyMeetingMessage && m.timeToEnd == TimeToEndEmergencyMeeting
    ensures forall k :: 0 <= k < 4 ==> Iterate(m, k).EmergencyMeetingPhase? && StageOf(Iterate(m, k)) == Starting
    ensures Iterate(m, 4).EmergencyMeetingPhase? && StageOf(Iterate(m, 4)) == SettingUp
    ensures forall k :: 5 <= k < 15 ==> Iterate(m, k).EmergencyMeetingPhase? && StageOf(Iterate(m, k)) == Running
    ensures forall k :: 0 <= k < 14 ==> !Resolves(Iterate(m, k))
    ensures Resolves(Iterate(m, 14))
    ensures Iterate(m, 15) == InProgressPhase
    ensures Resolves(Counted(Iterate(m, 14))) && Counted(Iterate(m, 14)).poll == m.poll
  {
    forall k | 0 <= k < 15
      ensures Iterate(m, k).EmergencyMeetingPhase?
      ensures StageOf(Iterate(m, k)) == if k < 4 then Starting else if k == 4 then SettingUp else Running
      ensures Resolves(Iterate(m, k)) <==> k == 14
    {
      MeetingAt(m, k);
    }
    MeetingAt(m, 14);
    IterateSplit(m, 14, 1);
  }

  /**
   * A meeting whose resolution threw stays counted down with the same poll, so
   * its next heartbeat, if one runs, resolves the same poll again.
   */
  lemma ResolutionRetried(p: Phase)
    requires Resolves(p)
    ensures Counted(p).EmergencyMeetingPhase? && Counted(p).poll == p.poll && Resolves(Counted(p))
    ensures Counted(p).timeToEnd < p.timeToEnd
  {
  }

  lemma {:induction false} EndingCounts(p: Phase, k: nat)
    requires p.EndingPhase? && k < p.timeToEnd
    ensures Iterate(p, k) == p.(timeToEnd := p.timeToEnd - k)
    decreases k
  {
    if k > 0 {
      EndingCounts(AfterHeartbeat(p), k - 1);
    }
  }

  /** Ending: heartbeats 1-9 only count down, heartbeat 10 sends everybody to matchmaking and waits again. */
  lemma EndingSchedule(isCrewWin: bool)
    ensures forall k :: 0 <= k < EndingGameDuration - 1 ==> !Rotates(Iterate(NewEnding(isCrewWin), k))
    ensures Rotates(Iterate(NewEnding(isCrewWin), EndingGameDuration - 1))
    ensures Iterate(NewEnding(isCrewWin), EndingGameDuration) == WaitingForPlayersPhase
    ensures forall k :: 0 <= k < EndingGameDuration ==>
      Iterate(NewEnding(isCrewWin), k).EndingPhase? && Iterate(NewEnding(isCrewWin), k).isCrewWin == isCrewWin
  {
    forall k | 0 <= k < EndingGameDuration
      ensures Iterate(NewEnding(isCrewWin), k) == EndingPhase(EndingGameDuration - k, isCrewWin)
    {
      EndingCounts(NewEnding(isCrewWin), k);
    }
    IterateSplit(NewEnding(isCrewWin), EndingGameDuration - 1, 1);
  }

  /**
   * The first message a heartbeat of `p` translates for the first roster member,
   * whose ballot in a meeting's poll is `voted`; `None` when that heartbeat
   * translates nothing of its own. A meeting's resolution is the game's business
   * (it needs the roster's colours), so a resolving heartbeat has `None` here.
   */
  function Feedback(p: Phase, voted: Option<string>): Option<MessageId>
  {
    match p
    case WaitingForPlayersPhase => Some(WAITING_FOR_PLAYERS)
    case MinimumPlayersReachedPhase(c) => if c - 1 > 0 then Some(MINIMUM_PLAYERS_REACHED_COUNTDOWN) else None
    case EmergencyMeetingPhase(h, e, _, _, _, cadaverFound) =>
      if h - 1 > 0 then Some(if cadaverFound then DEAD_BODY_FOUND else EMERGENCY_MEETING_MESSAGE)
      else if h - 1 == 0 || e - 1 <= 0 then None
      else if voted.None? then Some(DISCUSS_IMPOSTOR)
      else if voted.value == SkipOption then Some(VOTE_SKIPPED)
      else Some(IMPOSTER_VOTED)
    case EndingPhase(t, _) => if t - 1 <= 0 then None else Some(NEXT_GAME_STARTING_COUNTDOWN)
    case _ => None
  }

  /** Whether the heartbeat's first message is missing from the English table, so that it throws. */
  predicate FeedbackThrows(p: Phase, voted: Option<string>)
  {
    Feedback(p, voted).Some? && EnEn(Feedback(p, voted).value).None?
  }

  /**
   * The heartbeats that throw once anybody is in the roster: every starting and
   * running meeting heartbeat short of the resolution, and every ending heartbeat
   * short of the rotation, whatever the first member voted.
   */
  lemma FeedbackThrowsExactly(p: Phase, voted: Option<string>)
    ensures FeedbackThrows(p, voted) <==>
      (p.EmergencyMeetingPhase? && StageOf(p) != SettingUp && !Resolves(p)) || (p.EndingPhase? && !Rotates(p))
  {
    PhaseIdsMissing();
  }

  /**
   * `Message.t` on the feedback id fails, whatever the arguments, exactly when the
   * heartbeat throws, and then with that id.
   */
  lemma FeedbackTranslation(p: Phase, voted: Option<string>, args: map<string, string>)
    requires Feedback(p, voted).Some?
    ensures T(Feedback(p, voted).value, args).Err? <==> FeedbackThrows(p, voted)
    ensures FeedbackThrows(p, voted) ==> T(Feedback(p, voted).value, args) == Err(TranslationNotFound(Feedback(p, voted).value))
  {
  }

  /** The number a heartbeat shows: the minimum-players popup and the countdown title. */
  function Shown(p: Phase): Option<int>
  {
    match p
    case MinimumPlayersReachedPhase(c) =>
      if c - 1 > 0 then Some(c - 1 + CountdownStartGame - 1) else None
    case CountdownPhase(c) =>
      if c > 0 then Some(c - 1) else None
    case _ => None
  }

  /**
   * From minimum players reached to the match, the shown numbers run 13, 12, 11, 10
   * and, after the transition heartbeat, 9 down to 0 without a gap.
   */
  lemma ShownNumbersContiguous()
    ensures forall k :: 0 <= k < 4 ==> Shown(Iterate(NewMinimumPlayersReached(), k)) == Some(13 - k)
    ensures Shown(Iterate(NewMinimumPlayersReached(), 4)) == None
    ensures forall k :: 5 <= k < 15 ==> Shown(Iterate(NewMinimumPlayersReached(), k)) == Some(14 - k)
    ensures Iterate(NewMinimumPlayersReached(), 16) == InProgressPhase
  {
    var m := NewMinimumPlayersReached();
    forall k | 0 <= k < 5 ensures Iterate(m, k) == MinimumPlayersReachedPhase(5 - k) {
      MinimumPlayersCounts(5, k);
    }
    MinimumPlayersTransition();
    CountdownTransition();
    forall k | 5 <= k < 17 ensures Iterate(m, k) == Iterate(NewCountdown(), k - 5) {
      IterateSplit(m, 5, k - 5);
    }
  }

  // ---------------------------------------------------------------------------
  // Joins and leaves

  /**
   * The phase after a join handler, given the roster size and the pool size after
   * the join. Waiting moves on at quorum; minimum players reached starts the
   * countdown once the pool is empty; all other phases inherit the no-op handler.
   */
  function AfterJoin(p: Phase, players: nat, pool: nat): (q: Phase)
    ensures p.WaitingForPlayersPhase? ==> (q == if players >= MinimumPlayersToStartGame then NewMinimumPlayersReached() else p)
    ensures p.MinimumPlayersReachedPhase? ==> (q == if pool == 0 then NewCountdown() else p)
    ensures !p.WaitingForPlayersPhase? && !p.MinimumPlayersReachedPhase? ==> q == p
  {
    match p
    case WaitingForPlayersPhase =>
      if players >= MinimumPlayersToStartGame then NewMinimumPlayersReached() else p
    case MinimumPlayersReachedPhase(_) =>
      if pool == 0 then NewCountdown() else p
    case _ => p
  }

  /**
   * The phase after a leave handler, given the roster size after the leave. Only
   * minimum players reached and countdown react: below quorum they wait again.
   */
  function AfterLeave(p: Phase, players: nat): (q: Phase)
    ensures (p.MinimumPlayersReachedPhase? || p.CountdownPhase?) && players < MinimumPlayersToStartGame ==> q == WaitingForPlayersPhase
    ensures !((p.MinimumPlayersReachedPhase? || p.CountdownPhase?) && players < MinimumPlayersToStartGame) ==> q == p
  {
    match p
    case MinimumPlayersReachedPhase(_) =>
      if players < MinimumPlayersToStartGame then WaitingForPlayersPhase else p
    case CountdownPhase(_) =>
      if players < MinimumPlayersToStartGame then WaitingForPlayersPhase else p
    case _ => p
  }

  /** Several joins in a row, each adding one player and taking one colour. */
  function AfterJoins(p: Phase, players: nat, pool: nat, k: nat): Phase
    requires k <= pool
    decreases k
  {
    if k == 0 then p else AfterJoins(AfterJoin(p, players + 1, pool - 1), players + 1, pool - 1, k - 1)
  }

  /**
   * Filling a waiting game: below quorum it still waits, at quorum the minimum
   * players phase starts, and an emptied pool starts the countdown.
   */
  lemma {:induction false} WaitingFills(players: nat, pool: nat, k: nat)
    requires k <= pool && players < MinimumPlayersToStartGame && players + pool == MaxPlayers
    ensures AfterJoins(WaitingForPlayersPhase, players, pool, k) ==
      if players + k < MinimumPlayersToStartGame then WaitingForPlayersPhase
      else if pool - k == 0 then NewCountdown()
      else NewMinimumPlayersReached()
    decreases k
  {
    if k > 0 {
      if players + 1 < MinimumPlayersToStartGame {
        WaitingFills(players + 1, pool - 1, k - 1);
      } else {
        MinimumPlayersFills(players + 1, pool - 1, k - 1);
      }
    }
  }

  lemma {:induction false} MinimumPlayersFills(players: nat, pool: nat, k: nat)
    requires k <= pool
    ensures AfterJoins(if pool == 0 then NewCountdown() else NewMinimumPlayersReached(), players, pool, k) ==
      if pool - k == 0 then NewCountdown() else NewMinimumPlayersReached()
    decreases k
  {
    if k > 0 {
      MinimumPlayersFills(players + 1, pool - 1, k - 1);
    }
  }

  /** Joins never start or end the ending phase. */
  lemma {:induction false} JoinsKeepEnding(p: Phase, players: nat, pool: nat, k: nat)
    requires k <= pool
    ensures AfterJoins(p, players, pool, k).EndingPhase? <==> p.EndingPhase?
    decreases k
  {
    if k > 0 {
      JoinsKeepEnding(AfterJoin(p, players + 1, pool - 1), players + 1, pool - 1, k - 1);
    }
  }

  // ---------------------------------------------------------------------------
  // The phase invariant

  /**
   * What each phase's counters and the roster size can be while a game runs:
   * waiting means below quorum; the minimum-players and countdown phases are at
   * quorum with their counters in range; the meeting's end timer only starts once
   * the hide timer has gone below zero; the ending timer is in range.
   */
  predicate PhaseConsistent(p: Phase, players: nat)
  {
    match p
    case WaitingForPlayersPhase => players < MinimumPlayersToStartGame
    case MinimumPlayersReachedPhase(c) =>
      players >= MinimumPlayersToStartGame && 1 <= c <= CountdownToStartWithMinimumPlayers
    case CountdownPhase(c) =>
      players >= MinimumPlayersToStartGame && 0 <= c <= CountdownStartGame
    case EmergencyMeetingPhase(h, e, _, _, _, _) =>
      h <= TimeToHideEmergencyMeetingMessage as int && e == TimeToEndEmergencyMeeting + (if h < 0 then h else 0)
    case EndingPhase(t, _) => 1 <= t <= EndingGameDuration
    case _ => true
  }

  lemma FreshPhasesConsistent(requester: Phase, isCrewWin: bool)
    requires requester.EmergencyMeetingPhase?
    requires requester.timeToHide == TimeToHideEmergencyMeetingMessage && requester.timeToEnd == TimeToEndEmergencyMeeting
    ensures PhaseConsistent(WaitingForPlayersPhase, 0)
    ensures forall n :: PhaseConsistent(requester, n) && PhaseConsistent(NewEnding(isCrewWin), n)
  {
  }

  /**
   * A heartbeat keeps the invariant; a rotating ending empties the roster first,
   * and a meeting whose resolution throws stays counted down.
   */
  lemma HeartbeatConsistent(p: Phase, players: nat)
    requires PhaseConsistent(p, players)
    ensures !Rotates(p) ==> PhaseConsistent(AfterHeartbeat(p), players)
    ensures Rotates(p) ==> PhaseConsistent(AfterHeartbeat(p), 0)
    ensures p.EmergencyMeetingPhase? ==> PhaseConsistent(Counted(p), players)
  {
  }

  /** A join keeps the invariant. */
  lemma JoinConsistent(p: Phase, players: nat, pool: nat)
    requires PhaseConsistent(p, players)
    ensures PhaseConsistent(AfterJoin(p, players + 1, pool), players + 1)
  {
  }

  /** A leave keeps the invariant. */
  lemma LeaveConsistent(p: Phase, players: nat)
    requires PhaseConsistent(p, players + 1)
    ensures PhaseConsistent(AfterLeave(p, players), players)
  {
  }

  /** A meeting may lose players to a kick and keep its invariant. */
  lemma MeetingIgnoresRoster(p: Phase, players: nat, others: nat)
    requires p.EmergencyMeetingPhase? || p.InProgressPhase? || p.VotingPhase? || p.EndingPhase?
    requires PhaseConsistent(p, players)
    ensures PhaseConsistent(p, others)
  {
  }

  // ---------------------------------------------------------------------------
  // Announcements and the end of a match

  /** The sessions that get a join announcement: everybody but those sharing the joiner's username. */
  function JoinAnnouncementRecipients(roster: seq<PlayerSession>, joiner: PlayerSession): (r: seq<PlayerSession>)
    ensures forall i :: 0 <= i < |r| ==> r[i] in roster && r[i].player.username != joiner.player.username
    ensures forall i :: 0 <= i < |roster| && roster[i].player.username != joiner.player.username ==> roster[i] in r
    ensures |r| <= |roster|
  {
    if roster == [] then []
    else
      var rest := JoinAnnouncementRecipients(roster[1..], joiner);
      if roster[0].player.username == joiner.player.username then rest else [roster[0]] + rest
  }

  /** The "players left" number of the announcement; it is zero or negative once quorum is reached. */
  function PlayersLeftCount(players: nat): (r: int)
    ensures r <= 0 <==> players >= MinimumPlayersToStartGame
    ensures r + players == MinimumPlayersToStartGame
  {
    MinimumPlayersToStartGame - players
  }

  /** Whether a player of `role` has won the match. */
  function IsWinner(role: Role, isCrewWin: bool): (r: bool)
    ensures r <==> (role == Crew) == isCrewWin
  {
    (role == Crew && isCrewWin) || (role == Impostor && !isCrewWin)
  }

  /** Exactly one side wins: a crew member and an impostor never both win or both lose. */
  lemma OneSideWins(isCrewWin: bool)
    ensures IsWinner(Crew, isCrewWin) != IsWinner(Impostor, isCrewWin)
  {
  }

  // ---------------------------------------------------------------------------
  // Resolving a meeting

  /** The colour value to kick: only a single most-voted option that is not `skip`. */
  function KickTarget(mostVoted: seq<string>): (r: Option<string>)
    ensures r.Some? <==> |mostVoted| == 1 && mostVoted[0] != SkipOption
    ensures r.Some? ==> r.value == mostVoted[0]
  {
    if |mostVoted| == 1 && mostVoted[0] != SkipOption then Some(mostVoted[0]) else None
  }

  /** `option` is not `skip`, has ballots, and has more ballots than any other option. */
  ghost predicate StrictWinner(bs: seq<Ballot>, option: string)
  {
    option != SkipOption && option in OptionsOf(bs) && forall p :: p != option ==> Count(bs, p) < Count(bs, option)
  }

  /**
   * With the most-voted list of a poll, a kick happens exactly when one option has
   * strictly more ballots than every other and it is not `skip`. A tie, a skip
   * win and an empty poll kick nobody.
   */
  lemma KickIsStrictWinner(bs: seq<Ballot>, mostVoted: seq<string>)
    requires Distinct(mostVoted)
    requires forall o :: o in mostVoted <==> IsMostVoted(bs, o)
    ensures KickTarget(mostVoted).Some? <==>
      exists o :: StrictWinner(bs, o)
    ensures KickTarget(mostVoted).Some? ==>
      forall p :: p != KickTarget(mostVoted).value ==> Count(bs, p) < Count(bs, KickTarget(mostVoted).value)
    ensures bs == [] ==> KickTarget(mostVoted).None?
  {
    if KickTarget(mostVoted).Some? {
      var o := mostVoted[0];
      assert mostVoted == [o];
      assert IsMostVoted(bs, o);
      forall p | p != o ensures Count(bs, p) < Count(bs, o) {
        assert !IsMostVoted(bs, p);
        if p !in OptionsOf(bs) {
          CountAbsent(bs, p);
          CountPresent(bs, o);
        } else {
          var q :| Count(bs, q) > Count(bs, p);
          assert Count(bs, q) <= Count(bs, o);
        }
      }
      assert StrictWinner(bs, o);
    }
    if exists o :: StrictWinner(bs, o) {
      var o :| StrictWinner(bs, o);
      assert IsMostVoted(bs, o);
      forall x | x in mostVoted ensures x == o {
        assert IsMostVoted(bs, x);
        assert Count(bs, o) <= Count(bs, x);
        assert x != o ==> Count(bs, x) < Count(bs, o);
      }
      OnlyElement(mostVoted, o);
    }
    if bs == [] {
      assert OptionsOf(bs) == [];
      HeadIn(mostVoted);
    }
  }

  /** A non-empty sequence contains its head. */
  lemma HeadIn<T>(s: seq<T>)
    ensures |s| > 0 ==> s[0] in s
  {
  }

  /** A duplicate-free sequence all of whose elements are `x`, and which holds `x`, is `[x]`. */
  lemma OnlyElement<T>(s: seq<T>, x: T)
    requires Distinct(s) && x in s && forall y :: y in s ==> y == x
    ensures s == [x]
  {
    assert s[0] in s;
    var t := s[1..];
    assert x !in t by {
      forall i | 0 <= i < |t| ensures t[i] != x {
        assert t[i] == s[i + 1];
      }
    }
    assert forall y :: y in t ==> y in s;
    HeadIn(t);
    assert s == [s[0]] + t;
  }
}
