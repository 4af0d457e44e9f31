/** Matchmaking and the heartbeat fan-out (src/game/GameManager.ts). */
module Matchmaking {

  import opened Wrappers
  import opened Sessions
  import opened Phases
  import opened Colors
  import opened Games
  import opened Messages

  function Min(a: nat, b: nat): nat
  {
    if a < b then a else b
  }

  /**
   * The registry of games. A game's unique id comes from a counter, so the ids
   * are `0 .. nextId - 1` and the map's insertion order is the order of the ids.
   */
  class GameManager {
    var games: map<nat, Game>
    var nextId: nat

    /** The registered games. */
    ghost function Registry(): set<Game>
      reads this
    {
      set id | id in games :: games[id]
    }

    /** The sessions on the registered games' rosters. */
    ghost function Members(): set<PlayerSession>
      reads this, Registry()
    {
      set id, i | id in games && 0 <= i < |games[id].playerSessions| :: games[id].playerSessions[i]
    }

    /** Every id below the counter names a game, and each game is stored under its own id. */
    ghost predicate Keyed()
      reads this, Registry()
    {
      && (forall id: int :: id in games <==> 0 <= id < nextId)
      && (forall id :: id in games ==> games[id].uniqueId == id)
    }

    /** The registry is keyed by unique id and every registered game keeps its invariant. */
    ghost predicate Valid()
      reads this, Registry(), Members()
    {
      && Keyed()
      && (forall id :: id in games ==> games[id].Valid())
    }

    /** `g` is the game registered under its id. */
    ghost predicate Registered(g: Game)
      reads this
    {
      g.uniqueId in games && games[g.uniqueId] == g
    }

    ghost predicate Waiting(id: nat)
      reads this, Registry()
      requires id in games
    {
      games[id].phase.WaitingForPlayersPhase?
    }

    /** No registered game is waiting for players. */
    ghost predicate NoneWaiting()
      reads this, Registry()
    {
      forall id :: id in games ==> !Waiting(id)
    }

    /**
     * `g` is a waiting game with the most players among the waiting games, and
     * every waiting game registered before it has fewer.
     */
    ghost predicate MostSuitable(g: Game)
      reads this, Registry(), g
    {
      && Registered(g) && g.phase.WaitingForPlayersPhase?
      && forall id :: id in games && Waiting(id) ==>
           && |games[id].playerSessions| <= |g.playerSessions|
           && (id < g.uniqueId ==> |games[id].playerSessions| < |g.playerSessions|)
    }

    /** At most one game is the most suitable one. */
    lemma MostSuitableUnique(a: Game, b: Game)
      requires Keyed() && MostSuitable(a) && MostSuitable(b)
      ensures a == b
    {
      assert Waiting(a.uniqueId) && Waiting(b.uniqueId);
    }

    constructor ()
      ensures games == map[] && nextId == 0 && Valid()
    {
      games := map[];
      nextId := 0;
    }

    /**
     * The waiting game with the most players, the earliest on ties (a later game
     * must have strictly more players to replace it); null when none is waiting.
     * Games in any other phase are never chosen, and free colours are not looked at.
     */
    method GetMostSuitableGame() returns (r: Game?)
      requires Keyed()
      ensures r == null <==> NoneWaiting()
      ensures r != null ==> MostSuitable(r)
    {
      r := null;
      for id := 0 to nextId
        invariant r == null <==> forall j :: 0 <= j < id ==> !Waiting(j)
        invariant r != null ==> Registered(r) && r.uniqueId < id && Waiting(r.uniqueId)
        invariant r != null ==> forall j :: 0 <= j < id && Waiting(j) ==>
          && |games[j].playerSessions| <= |r.playerSessions|
          && (j < r.uniqueId ==> |games[j].playerSessions| < |r.playerSessions|)
      {
        var g := games[id];
        assert g.uniqueId == id && (Waiting(id) <==> g.phase.GetPhaseType() == WaitingForPlayers);
        if g.phase.GetPhaseType() == WaitingForPlayers && (r == null || |g.playerSessions| > |r.playerSessions|) {
          r := g;
        }
      }
    }

    /** Registers a new game under the next unique id. */
    method CreateGame() returns (g: Game)
      requires Valid()
      modifies this
      ensures Valid()
      ensures fresh(g) && games == old(games)[old(nextId) := g] && nextId == old(nextId) + 1
      ensures g.uniqueId == old(nextId) && g.beats == 0
      ensures g.playerSessions == [] && g.availableColors == CreateColors() && g.phase == WaitingForPlayersPhase
    {
      g := new Game(nextId);
      games := games[nextId := g];
      nextId := nextId + 1;
    }

    /** The registry still holds every game of `before`, each under its old id. */
    ghost predicate Extends(before: map<nat, Game>)
      reads this
    {
      forall id :: id in before ==> id in games && games[id] == before[id]
    }

    /**
     * Between the pre-state and now, no game of `before` took a heartbeat, and
     * none of them entered or left the ending phase.
     */
    twostate predicate Steady(before: map<nat, Game>)
      reads before.Values
    {
      forall id :: id in before ==>
        var k := before[id]; k.beats == old(k.beats) && (k.phase.EndingPhase? <==> old(k.phase).EndingPhase?)
    }

    /** `q` is assigned to a registered game other than `g`. */
    ghost predicate AssignedElsewhere(q: PlayerSession, g: Game)
      reads this, q
    {
      q.game is Game && Registered(q.game as Game) && q.game != g
    }

    /**
     * When one registered game `g` changes, the others stay valid as long as the
     * registry, the other games and every session seated in another game are untouched.
     */
    twostate lemma OthersStayValid(g: Game)
      requires old(Valid()) && unchanged(this) && Registered(g) && g.Valid()
      requires forall id :: id in games && games[id] != g ==> unchanged(games[id])
      requires forall q: PlayerSession :: old(allocated(q)) && old(q.game) != null && old(q.game) != g ==>
        unchanged(q`game, q`color)
      ensures Valid()
    {
      forall id | id in games && games[id] != g
        ensures games[id].Valid()
      {
        var h := games[id];
        forall q | q in old(h.playerSessions)
          ensures unchanged(q`game, q`color)
        {
          var i :| 0 <= i < old(|h.playerSessions|) && old(h.playerSessions[i]) == q;
          assert old(q.game) == h;
        }
        h.ValidFrame();
      }
    }

    /** The game a session is assigned to: the most suitable one, or a new one; it waits and has a free colour. */
    method Choose() returns (g: Game)
      requires Valid()
      modifies this
      ensures Valid() && Registered(g) && g.Valid() && g.availableColors != [] && g.phase.WaitingForPlayersPhase?
      ensures old(NoneWaiting()) ==>
        && fresh(g) && games == old(games)[old(nextId) := g] && nextId == old(nextId) + 1
        && g.beats == 0 && g.playerSessions == []
      ensures !old(NoneWaiting()) ==>
        && g in old(Registry()) && old(MostSuitable(g)) && games == old(games) && nextId == old(nextId)
    {
      var suitable := GetMostSuitableGame();
      if suitable == null {
        g := CreateGame();
      } else {
        g := suitable;
        PaletteSize(g.seats, g.availableColors);
      }
    }

    /**
     * Matchmaking for one session: the most suitable game, or a newly registered
     * one when no game is waiting, and the session joins it. The join refuses a
     * session that already has a game, after the game was chosen or created.
     */
    method Assign(s: PlayerSession) returns (g: Game, r: Outcome<GameError>)
      requires Valid()
      modifies this, Registry(), s, Members()`role
      ensures Valid() && Registered(g) && Extends(old(games))
      ensures old(NoneWaiting()) ==>
        && fresh(g) && games == old(games)[old(nextId) := g] && nextId == old(nextId) + 1 && g.beats == 0
        && (old(s.game) == null ==> g.playerSessions == [s])
      ensures !old(NoneWaiting()) ==>
        && g in old(Registry()) && old(MostSuitable(g)) && games == old(games) && nextId == old(nextId)
        && g.beats == old(g.beats) && (old(s.game) == null ==> g.playerSessions == old(g.playerSessions) + [s])
      ensures old(s.game) != null ==> r == Fail(AlreadyInGame) && unchanged(s)
      ensures old(s.game) == null ==> r == Pass && s.game == g
      ensures g.phase.WaitingForPlayersPhase? || g.phase.MinimumPlayersReachedPhase?
      ensures forall id :: id in old(games) && old(games)[id] != g ==> unchanged(old(games)[id])
    {
      g := Choose();
      r := Enter(g, s);
    }

    /** `s` joins the chosen game `g`; the other games and their players are not touched. */
    method Enter(g: Game, s: PlayerSession) returns (r: Outcome<GameError>)
      requires Valid() && Registered(g) && g.availableColors != [] && g.phase.WaitingForPlayersPhase?
      modifies g, s, Members()`role
      ensures Valid() && g.beats == old(g.beats)
      ensures old(s.game) != null ==> r == Fail(AlreadyInGame) && unchanged(s) && unchanged(g)
      ensures old(s.game) == null ==> r == Pass && s.game == g && g.playerSessions == old(g.playerSessions) + [s]
      ensures g.phase.WaitingForPlayersPhase? || g.phase.MinimumPlayersReachedPhase?
    {
      label before:
      r := g.Join(s);
      OthersStayValid@before(g);
    }

    /**
     * The once-a-second heartbeat fan-out: every registered game, in
     * registration order, gets one heartbeat. The iteration follows the live
     * registry, so a game registered during the tick (by an ending game's
     * rotation) is visited as well, once. `candidates` are the open sessions,
     * from which waiting games pull players that have no game. A heartbeat that
     * throws ends the fan-out: the games from `visited` on had none.
     */
    method Tick(candidates: seq<PlayerSession>) returns (r: Outcome<MessageError>, ghost visited: nat)
      requires Valid() && Distinct(candidates)
      modifies this, Registry(), Members(), set q | q in candidates
      ensures Valid() && Extends(old(games)) && old(nextId) <= nextId
      ensures visited <= nextId && (r.Pass? ==> visited == nextId)
      ensures forall id :: id in old(games) ==> games[id].beats == old(games[id].beats) + (if id < visited then 1 else 0)
      ensures forall id :: old(nextId) <= id < nextId ==> fresh(games[id]) && games[id].beats == (if id < visited then 1 else 0)
      ensures Members() <= old(Members()) + set q | q in candidates
    {
      ghost var beats0: map<nat, nat> := map id | id in games :: games[id].beats;
      ghost var extra := set q | q in candidates;
      var id := 0;
      r := Pass;
      while id < nextId && r.Pass?
        invariant Ticking(id, old(games), beats0, old(nextId), old(Members()), extra)
        invariant forall j :: old(nextId) <= j < nextId ==> fresh(games[j])
        decreases (MaxPlayers + 1) * old(nextId) - id
      {
        forall k | k in Registry()
          ensures k in old(Registry()) || fresh(k)
        {
          var j :| j in games && games[j] == k;
          if j < old(nextId) {
            assert old(games)[j] == k;
          }
        }
        label step:
        r := TickStep(id, candidates, old(games), beats0, old(nextId), old(Members()), extra);
        forall j | old(nextId) <= j < nextId
          ensures fresh(games[j])
        {
          if j < old@step(nextId) {
            assert old@step(games)[j] == games[j];
          }
        }
        id := id + 1;
      }
      visited := id;
      forall j | j in old(games)
        ensures games[j].beats == old(games[j].beats) + (if j < visited then 1 else 0)
      {
        assert beats0[j] == old(games[j].beats);
      }
    }

    /** A game left by a heartbeat that threw: a meeting or an ending with somebody on its roster. */
    ghost predicate Thrown(g: Game)
      reads g
    {
      g.playerSessions != [] && (g.phase.EmergencyMeetingPhase? || g.phase.EndingPhase?)
    }

    /**
     * The fan-out after visiting the ids below `id`: measured against the
     * registry `games0` (with heartbeat counts `beats0`), the counter `n0` and
     * the sessions `members0` on rosters when the tick began, each visited game
     * had one heartbeat and each other none, the games registered since are
     * not ending until visited, and at most one game per player was registered
     * for each visited game.
     */
    ghost predicate Ticking(id: nat, games0: map<nat, Game>, beats0: map<nat, nat>, n0: nat,
                            members0: set<PlayerSession>, extra: set<PlayerSession>)
      reads this, Registry(), Members()
    {
      && Valid() && Extends(games0) && n0 <= nextId && id <= nextId
      && (forall j :: j in games0 <==> 0 <= j < n0)
      && nextId <= n0 + MaxPlayers * Min(id, n0)
      && (forall j :: 0 <= j < n0 ==> j in beats0 && games[j].beats == beats0[j] + (if j < id then 1 else 0))
      && (forall j :: n0 <= j < nextId ==> games[j].beats == (if j < id then 1 else 0))
      && (forall j :: n0 <= j < nextId && id <= j ==> !games[j].phase.EndingPhase?)
      && Members() <= members0 + extra
    }

    /** The fan-out visits the game registered under `id`. */
    method TickStep(id: nat, candidates: seq<PlayerSession>, ghost games0: map<nat, Game>, ghost beats0: map<nat, nat>,
                    ghost n0: nat, ghost members0: set<PlayerSession>, ghost extra: set<PlayerSession>)
      returns (r: Outcome<MessageError>)
      requires id < nextId && Distinct(candidates) && extra == set q | q in candidates
      requires Ticking(id, games0, beats0, n0, members0, extra)
      modifies this, Registry(), Members(), extra
      ensures Ticking(id + 1, games0, beats0, n0, members0, extra)
      ensures Extends(old(games)) && forall j :: old(nextId) <= j < nextId ==> fresh(games[j])
      ensures r.Fail? ==> Thrown(games[id])
    {
      var g := games[id];
      ghost var games1, n1, members1 := games, nextId, Members();
      ghost var beats1 := map j | j in games :: games[j].beats;
      ghost var ending1 := set j | j in games && games[j].phase.EndingPhase?;
      assert TickedBelow(id, games0, beats0, n0, members0, extra, games1, beats1, ending1, n1, members1);
      label before:
      r := BeatGame(g, candidates);
      assert Rotates(old@before(g.phase)) ==> id in ending1;
      forall j | j in games1 && j != id
        ensures games[j].beats == beats1[j] && (games[j].phase.EndingPhase? ==> j in ending1)
      {
        assert games1[j].uniqueId == j;
        assert old@before(games1[j].beats) == beats1[j];
      }
      TickAdvance(id, games0, beats0, n0, members0, extra, games1, beats1, ending1, n1, members1);
    }

    /**
     * `Ticking(id, ...)` in terms of a snapshot of the registry (`games1`, `n1`),
     * the heartbeat counts (`beats1`), the ending games (`ending1`) and the
     * sessions on rosters (`members1`) taken before the game under `id` is visited.
     */
    ghost predicate TickedBelow(id: nat, games0: map<nat, Game>, beats0: map<nat, nat>, n0: nat,
                                members0: set<PlayerSession>, extra: set<PlayerSession>,
                                games1: map<nat, Game>, beats1: map<nat, nat>, ending1: set<nat>, n1: nat,
                                members1: set<PlayerSession>)
    {
      && n0 <= n1 && id < n1
      && (forall j :: j in games0 <==> 0 <= j < n0)
      && (forall j: int :: j in games1 <==> 0 <= j < n1)
      && (forall j :: j in games0 ==> j in games1 && games1[j] == games0[j])
      && n1 <= n0 + MaxPlayers * Min(id, n0)
      && (forall j :: 0 <= j < n0 ==> j in beats0 && j in beats1 && beats1[j] == beats0[j] + (if j < id then 1 else 0))
      && (forall j :: n0 <= j < n1 ==> j in beats1 && beats1[j] == (if j < id then 1 else 0))
      && (forall j :: n0 <= j < n1 && id <= j ==> j !in ending1)
      && members1 <= members0 + extra
    }

    /** A heartbeat of the game under `id` that kept the fan-out's bookkeeping advances it past `id`. */
    lemma TickAdvance(id: nat, games0: map<nat, Game>, beats0: map<nat, nat>, n0: nat,
                      members0: set<PlayerSession>, extra: set<PlayerSession>,
                      games1: map<nat, Game>, beats1: map<nat, nat>, ending1: set<nat>, n1: nat,
                      members1: set<PlayerSession>)
      requires TickedBelow(id, games0, beats0, n0, members0, extra, games1, beats1, ending1, n1, members1)
      requires Valid() && Extends(games1)
      requires n1 <= nextId <= n1 + (if id in ending1 then MaxPlayers else 0)
      requires games[id].beats == beats1[id] + 1
      requires forall j :: j in games1 && j != id ==>
        games[j].beats == beats1[j] && (games[j].phase.EndingPhase? ==> j in ending1)
      requires forall j :: n1 <= j < nextId ==> games[j].beats == 0 && !games[j].phase.EndingPhase?
      requires Members() <= members1 + extra
      ensures Ticking(id + 1, games0, beats0, n0, members0, extra)
    {
    }

    /**
     * One game's heartbeat, as the fan-out delivers it: the ending phase's last
     * heartbeat moves the players to other games through matchmaking; any other
     * heartbeat is the game's own, where a waiting game pulls in the `candidates`
     * that have no game. No other game takes a heartbeat or starts ending, and
     * only a rotation registers games: at most one per player moved. Only the
     * game's own heartbeat can throw.
     */
    method BeatGame(g: Game, candidates: seq<PlayerSession>) returns (r: Outcome<MessageError>)
      requires Valid() && Registered(g) && Distinct(candidates)
      modifies this, Registry(), Members(), set q | q in candidates
      ensures Valid() && Registered(g) && Extends(old(games))
      ensures Rotates(old(g.phase)) ==> r == Pass
      ensures r.Fail? ==> Thrown(g)
      ensures g.beats == old(g.beats) + 1
      ensures g.phase.EndingPhase? ==> old(g.phase).EndingPhase?
      ensures Rotates(old(g.phase)) ==>
        && g.playerSessions == [] && g.phase == WaitingForPlayersPhase
        && (forall q :: q in old(g.playerSessions) ==> AssignedElsewhere(q, g))
      ensures old(nextId) <= nextId <= old(nextId) + (if Rotates(old(g.phase)) then MaxPlayers else 0)
      ensures forall id :: id in old(games) && old(games)[id] != g ==>
        var k := old(games)[id]; k.beats == old(k.beats) && (k.phase.EndingPhase? ==> old(k.phase).EndingPhase?)
      ensures forall id :: old(nextId) <= id < nextId ==>
        fresh(games[id]) && games[id].beats == 0 && !games[id].phase.EndingPhase?
      ensures Members() <= old(Members()) + set q | q in candidates
    {
      if Rotates(g.phase) {
        g.ValidSeated();
        PaletteSize(g.seats, g.availableColors);
        Rotate(g);
        r := Pass;
      } else {
        r := Beat(g, candidates);
      }
    }

    /**
     * A heartbeat that is the game's own: the registry and the other games stay
     * as they are; when it throws, `g` is a meeting or an ending with a roster.
     */
    method Beat(g: Game, candidates: seq<PlayerSession>) returns (r: Outcome<MessageError>)
      requires Valid() && Registered(g) && Distinct(candidates) && !Rotates(g.phase)
      modifies Registry(), Members(), set q | q in candidates
      ensures Valid() && g.beats == old(g.beats) + 1 && (g.phase.EndingPhase? ==> old(g.phase).EndingPhase?)
      ensures r.Fail? ==> Thrown(g)
      ensures forall id :: id in games && games[id] != g ==> unchanged(games[id])
      ensures Members() <= old(Members()) + set q | q in candidates
    {
      ghost var room := |g.availableColors|;
      ghost var admitted := Admitted(candidates, GameLess(candidates), room);
      forall x | x in admitted
        ensures x in candidates && x.game == null
      {
        AdmittedFree(candidates, room, x);
      }
      label before:
      r := g.Heartbeat(candidates);
      assert forall i :: 0 <= i < old(|g.playerSessions|) ==> old(g.playerSessions[i].game) == g;
      OthersStayValid@before(g);
      ghost var pulled := set q | q in candidates;
      ChangedMembers(g, pulled);
    }

    /**
     * When only the roster of the registered game `g` changed, and each of its
     * members was there before or is in `extra`, the sessions on rosters are the
     * old ones and some of `extra`.
     */
    twostate lemma ChangedMembers(g: Game, new extra: set<PlayerSession>)
      requires unchanged(this) && Registered(g)
      requires forall id :: id in games && games[id] != g ==> games[id].playerSessions == old(games[id].playerSessions)
      requires forall q :: q in g.playerSessions ==> q in old(g.playerSessions) || q in extra
      ensures Members() <= old(Members()) + extra
    {
      forall x | x in Members()
        ensures x in old(Members()) || x in extra
      {
        var id, i :| id in games && 0 <= i < |games[id].playerSessions| && games[id].playerSessions[i] == x;
        if games[id] != g {
          assert old(games[id].playerSessions[i]) in old(Members());
        } else if x in old(g.playerSessions) {
          var j :| 0 <= j < old(|g.playerSessions|) && old(g.playerSessions[j]) == x;
          assert old(games[id].playerSessions[j]) in old(Members());
        }
      }
    }

    /**
     * The ending phase's last heartbeat: every player of `g`, in roster order,
     * leaves it and is assigned by matchmaking to another game (an existing
     * waiting one or a new one), then `g` waits for players again. Games that
     * were registered before keep their heartbeat count and none of them enters
     * the ending phase; the games registered meanwhile have not had a heartbeat.
     */
    method Rotate(g: Game)
      requires Valid() && Registered(g) && Rotates(g.phase)
      modifies this, Registry(), Members()
      ensures Valid() && Registered(g) && Extends(old(games))
      ensures g.playerSessions == [] && g.phase == WaitingForPlayersPhase && g.phase == AfterHeartbeat(old(g.phase))
      ensures g.beats == old(g.beats) + 1
      ensures forall q :: q in old(g.playerSessions) ==> AssignedElsewhere(q, g)
      ensures old(nextId) <= nextId <= old(nextId) + |old(g.playerSessions)|
      ensures forall id :: id in old(games) && old(games)[id] != g ==>
        var k := old(games)[id]; k.beats == old(k.beats) && (k.phase.EndingPhase? ==> old(k.phase).EndingPhase?)
      ensures forall id :: old(nextId) <= id < nextId ==>
        fresh(games[id]) && games[id].beats == 0 && !games[id].phase.EndingPhase?
      ensures Members() <= old(Members())
    {
      var leaving := g.playerSessions;
      g.ValidSeated();
      ghost var beats0 := map id | id in games :: games[id].beats;
      ghost var ending0 := set id | id in games && games[id].phase.EndingPhase?;
      ghost var phase0 := g.phase;
      RotateAll(g, phase0, leaving, beats0, ending0);
      Conclude(g, phase0, leaving, old(games), beats0, ending0, old(nextId), old(Members()));
      forall id | id in old(games) && old(games)[id] != g
        ensures var k := old(games)[id]; k.beats == old(k.beats) && (k.phase.EndingPhase? ==> old(k.phase).EndingPhase?)
      {
        assert beats0[id] == old(games[id].beats);
      }
    }

    /** Every player of the ending game `g`, in roster order, leaves it for another game. */
    method RotateAll(g: Game, ghost phase0: Phase, leaving: seq<PlayerSession>,
                     ghost beats0: map<nat, nat>, ghost ending0: set<nat>)
      requires Rotating(g, phase0, leaving, 0, games, beats0, ending0, nextId, Members())
      modifies this, Registry(), Members()
      ensures Rotating(g, phase0, leaving, |leaving|, old(games), beats0, ending0, old(nextId), old(Members()))
      ensures forall id :: old(nextId) <= id < nextId ==> fresh(games[id])
    {
      ghost var games0, n0, members0 := games, nextId, Members();
      forall j | 0 <= j < |leaving|
        ensures leaving[j] in members0
      {
        assert leaving[j] == games[g.uniqueId].playerSessions[j];
      }
      var i := 0;
      while i < |leaving|
        invariant 0 <= i <= |leaving|
        invariant Rotating(g, phase0, leaving, i, games0, beats0, ending0, n0, members0)
        invariant forall id :: n0 <= id < nextId ==> fresh(games[id])
      {
        assert leaving[i] in members0;
        forall k | k in Registry()
          ensures k in old(Registry()) || fresh(k)
        {
          var id :| id in games && games[id] == k;
          if id < n0 {
            assert games0[id] == k;
          }
        }
        label step:
        RotateStep(g, phase0, leaving, i, games0, beats0, ending0, n0, members0);
        forall id | n0 <= id < nextId
          ensures fresh(games[id])
        {
          if id < old@step(nextId) {
            assert old@step(games)[id] == games[id];
          }
        }
        i := i + 1;
      }
    }

    /**
     * The rest of the ending phase's last heartbeat, once every player has left:
     * the game waits for players again; nothing else changes.
     */
    method Conclude(g: Game, ghost phase0: Phase, ghost leaving: seq<PlayerSession>, ghost games0: map<nat, Game>,
                    ghost beats0: map<nat, nat>, ghost ending0: set<nat>, ghost n0: nat, ghost members0: set<PlayerSession>)
      requires Rotating(g, phase0, leaving, |leaving|, games0, beats0, ending0, n0, members0)
      modifies g`phase, g`beats
      ensures Valid() && Registered(g) && Extends(games0) && n0 <= nextId <= n0 + |leaving|
      ensures g.playerSessions == [] && g.phase == WaitingForPlayersPhase && g.phase == AfterHeartbeat(phase0)
      ensures g.beats == old(g.beats) + 1
      ensures forall q :: q in leaving ==> AssignedElsewhere(q, g)
      ensures forall id :: id in games0 && games0[id] != g ==>
        var k := games0[id]; k.beats == beats0[id] && (k.phase.EndingPhase? ==> id in ending0)
      ensures forall id :: n0 <= id < nextId ==> games[id].beats == 0 && !games[id].phase.EndingPhase?
      ensures Members() <= members0
    {
      label emptied:
      g.FinishEnding();
      OthersStayValid@emptied(g);
      forall id | n0 <= id < nextId
        ensures games[id].beats == 0 && !games[id].phase.EndingPhase?
      {
        assert games[id].uniqueId == id && games[id] != g;
      }
      forall q | q in leaving
        ensures AssignedElsewhere(q, g)
      {
        var j :| 0 <= j < |leaving| && leaving[j] == q;
      }
    }

    /**
     * The state after the first `i` players of `leaving` left `g` for other
     * games, measured against the registry `games0` (with its heartbeat counts
     * `beats0` and its ending games `ending0`), the counter `n0` and the sessions
     * `members0` on rosters before the first of them left.
     */
    ghost predicate Rotating(g: Game, phase0: Phase, leaving: seq<PlayerSession>, i: nat, games0: map<nat, Game>,
                             beats0: map<nat, nat>, ending0: set<nat>, n0: nat, members0: set<PlayerSession>)
      reads this, Registry(), Members(), set j | 0 <= j < |leaving| :: leaving[j]
    {
      && i <= |leaving| && Distinct(leaving)
      && Valid() && Registered(g) && Extends(games0)
      && g.playerSessions == leaving[i..] && g.phase == phase0 && Rotates(phase0)
      && (forall j :: 0 <= j < i ==> AssignedElsewhere(leaving[j], g))
      && n0 <= nextId <= n0 + i
      && (forall id :: id in games0 ==>
            id in beats0 && games0[id].beats == beats0[id] && (games0[id].phase.EndingPhase? ==> id in ending0))
      && (forall id :: n0 <= id < nextId ==> games[id].beats == 0 && !games[id].phase.EndingPhase?)
      && Members() <= members0
    }

    /** One player leaves the ending game for another; the rotation's state advances by one. */
    method RotateStep(g: Game, ghost phase0: Phase, leaving: seq<PlayerSession>, i: nat, ghost games0: map<nat, Game>,
                      ghost beats0: map<nat, nat>, ghost ending0: set<nat>, ghost n0: nat, ghost members0: set<PlayerSession>)
      requires i < |leaving| && Rotating(g, phase0, leaving, i, games0, beats0, ending0, n0, members0)
      modifies this, Registry(), leaving[i], Members()`role
      ensures Rotating(g, phase0, leaving, i + 1, games0, beats0, ending0, n0, members0)
      ensures Extends(old(games)) && forall id :: old(nextId) <= id < nextId ==> fresh(games[id])
      ensures g.beats == old(g.beats)
    {
      Move(g);
      assert g.playerSessions == leaving[i + 1..];
      forall j | 0 <= j < i + 1
        ensures AssignedElsewhere(leaving[j], g)
      {
        if j < i {
          assert leaving[j] != leaving[i] && leaving[j].game == old(leaving[j].game);
          var h := leaving[j].game as Game;
          assert old(Registered(h));
        }
      }
      forall id | n0 <= id < nextId
        ensures games[id].beats == 0 && !games[id].phase.EndingPhase?
      {
        if id < old(nextId) {
          assert id in old(games) && old(games)[id] == games[id];
        }
      }
    }

    /**
     * One step of the ending phase's last heartbeat: the first player of `g`
     * leaves it and matchmaking assigns them to another game.
     */
    method Move(g: Game)
      requires Valid() && Registered(g) && Rotates(g.phase) && g.playerSessions != []
      modifies this, Registry(), g.playerSessions[0], Members()`role
      ensures Valid() && Registered(g) && Extends(old(games))
      ensures g.playerSessions == old(g.playerSessions)[1..] && g.phase == old(g.phase) && g.beats == old(g.beats)
      ensures AssignedElsewhere(old(g.playerSessions)[0], g)
      ensures nextId == old(nextId) || nextId == old(nextId) + 1
      ensures Steady(old(games))
      ensures forall id :: old(nextId) <= id < nextId ==>
        fresh(games[id]) && games[id].beats == 0 && !games[id].phase.EndingPhase?
      ensures Members() <= old(Members())
    {
      assert old(games[g.uniqueId].playerSessions[0]) in old(Members());
      var s := Vacate(g);
      label left:
      Place(s, g);
      forall id | id in old(games)
        ensures var k := old(games)[id]; k.beats == old(k.beats) && (k.phase.EndingPhase? <==> old(k.phase).EndingPhase?)
      {
        var k := old(games)[id];
        assert old(k.beats) == old@left(k.beats) && old(k.phase) == old@left(k.phase);
      }
    }

    /**
     * Matchmaking for a session without a game, as the ending phase uses it: the
     * session lands in a registered game that is not ending, the ending game
     * `ending` is left alone, and no game takes a heartbeat or enters or leaves
     * the ending phase.
     */
    method Place(s: PlayerSession, ghost ending: Game)
      requires Valid() && s.game == null && Registered(ending) && ending.phase.EndingPhase?
      modifies this, Registry(), s, Members()`role
      ensures Valid() && Extends(old(games)) && unchanged(ending)
      ensures s.game is Game && Registered(s.game as Game) && !(s.game as Game).phase.EndingPhase?
      ensures nextId == old(nextId) || nextId == old(nextId) + 1
      ensures Steady(old(games))
      ensures Members() <= old(Members()) + {s}
      ensures forall id :: old(nextId) <= id < nextId ==>
        fresh(games[id]) && games[id].beats == 0 && !games[id].phase.EndingPhase?
    {
      var g, joined := Assign(s);
      forall id | old(nextId) <= id < nextId
        ensures fresh(games[id]) && games[id].beats == 0 && !games[id].phase.EndingPhase?
      {
        assert games[id] == g;
      }
      forall id | id in old(games)
        ensures var k := old(games)[id]; k.beats == old(k.beats) && (k.phase.EndingPhase? <==> old(k.phase).EndingPhase?)
      {
        if old(games)[id] == g {
          assert old(g.phase).WaitingForPlayersPhase?;
        }
      }
      JoinedMembers(g, s);
    }

    /**
     * When one game's roster gained `s` (a new game holding only `s`, or a
     * registered one with `s` appended) and no other roster changed, the
     * sessions on rosters are the old ones and `s`.
     */
    twostate lemma JoinedMembers(new g: Game, s: PlayerSession)
      requires forall id :: id in games && games[id] != g ==> id in old(games) && old(games)[id] == games[id]
      requires forall id :: id in games && games[id] != g ==> games[id].playerSessions == old(games[id].playerSessions)
      requires || g.playerSessions == [s]
               || (g.uniqueId in old(games) && old(games)[g.uniqueId] == g && g.playerSessions == old(g.playerSessions) + [s])
      ensures Members() <= old(Members()) + {s}
    {
      forall x | x in Members()
        ensures x in old(Members()) || x == s
      {
        var id, i :| id in games && 0 <= i < |games[id].playerSessions| && games[id].playerSessions[i] == x;
        if games[id] != g {
          assert old(games[id].playerSessions[i]) in old(Members());
        } else if g.playerSessions != [s] && i < old(|g.playerSessions|) {
          assert old(games[g.uniqueId].playerSessions[i]) in old(Members());
        }
      }
    }

    /** The first player of an ending game leaves it; nothing else changes. */
    method Vacate(g: Game) returns (s: PlayerSession)
      requires Valid() && Registered(g) && Rotates(g.phase) && g.playerSessions != []
      modifies g, g.playerSessions[0]
      ensures Valid() && s == old(g.playerSessions)[0] && s.game == null && Members() <= old(Members())
      ensures g.playerSessions == old(g.playerSessions)[1..] && g.phase == old(g.phase) && g.beats == old(g.beats)
      ensures unchanged(this)
      ensures forall id :: id in games ==> games[id].beats == old(games[id].beats) && games[id].phase == old(games[id].phase)
    {
      s := g.playerSessions[0];
      g.ValidSeated();
      WithoutHead(g.playerSessions);
      label before:
      var left := g.Leave(s);
      OthersStayValid@before(g);
    }
}
}
