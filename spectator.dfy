/**
 * Spectator mode (src/player/PlayerSpectatorModeManager.ts): a player follows
 * another player's camera until the game stops or the followed player goes
 * offline.
 */
module Spectating {

  import opened Wrappers
  import opened Sessions
  import opened Messages

  /** What a message sent to the spectator amounts to: sent, or the missing-translation error it throws. */
  function Delivered(m: Result<string, MessageError>): (r: Outcome<MessageError>)
    ensures r.Pass? <==> m.Ok?
    ensures r.Fail? ==> r.error == m.error
  {
    match m
    case Ok(_) => Pass
    case Err(e) => Fail(e)
  }

  /** A popup with a title and a subtitle: the title is built first, so its error is the one thrown. */
  function Popup(title: Result<string, MessageError>, subtitle: Result<string, MessageError>): (r: Outcome<MessageError>)
    ensures r.Pass? <==> title.Ok? && subtitle.Ok?
    ensures title.Err? ==> r == Fail(title.error)
  {
    if title.Err? then Fail(title.error) else Delivered(subtitle)
  }

  /** The spectator-mode messages are missing from the English table, so sending any of them throws. */
  lemma SpectatorMessagesMissing()
    ensures T(SPECTATOR_MODE_GAME_ENDED, map[]) == Err(TranslationNotFound(SPECTATOR_MODE_GAME_ENDED))
    ensures T(SPECTATOR_MODE_DISCONNECTED, map[]) == Err(TranslationNotFound(SPECTATOR_MODE_DISCONNECTED))
    ensures T(SPECTATOR_MODE_TITLE, map[]) == Err(TranslationNotFound(SPECTATOR_MODE_TITLE))
  {
    MissingIdFails(SPECTATOR_MODE_GAME_ENDED, map[]);
    MissingIdFails(SPECTATOR_MODE_DISCONNECTED, map[]);
    MissingIdFails(SPECTATOR_MODE_TITLE, map[]);
  }

  /** The spectator mode of the player of `session`: `spectating` is the followed session, or null. */
  class PlayerSpectatorModeManager {
    const session: PlayerSession
    var spectating: PlayerSession?

    constructor (session: PlayerSession)
      ensures this.session == session && spectating == null && !IsSpectating()
    {
      this.session := session;
      spectating := null;
    }

    function IsSpectating(): (b: bool)
      reads this
      ensures b <==> spectating != null
    {
      spectating != null
    }

    /** Follows `target` (the camera set-up is the engine's). */
    method Spectate(target: PlayerSession)
      modifies this`spectating
      ensures spectating == target && IsSpectating()
    {
      spectating := target;
    }

    method StopSpectating()
      modifies this`spectating
      ensures spectating == null && !IsSpectating()
    {
      spectating := null;
    }

    /**
     * `q` may be picked next while following `target`: another player (by
     * username) whose colour differs from the followed player's. With nobody
     * followed every other player qualifies.
     */
    ghost predicate Eligible(q: PlayerSession, target: PlayerSession?)
      reads q, target
    {
      q.player.username != session.player.username && (target == null || q.color != target.color)
    }

    /**
     * Follows the first eligible player of `shuffled` (the game's roster after
     * the random shuffle); with none eligible the followed player stays.
     */
    method SpectateRandomPlayer(shuffled: seq<PlayerSession>)
      modifies this`spectating
      ensures (forall i :: 0 <= i < |shuffled| ==> !Eligible(shuffled[i], old(spectating))) ==>
        spectating == old(spectating)
      ensures (exists i :: 0 <= i < |shuffled| && Eligible(shuffled[i], old(spectating))) ==>
        exists i :: 0 <= i < |shuffled| && spectating == shuffled[i] && Eligible(shuffled[i], old(spectating))
          && forall j :: 0 <= j < i ==> !Eligible(shuffled[j], old(spectating))
    {
      var target := spectating;
      var i := 0;
      while i < |shuffled|
        invariant i <= |shuffled| && spectating == target
        invariant forall j :: 0 <= j < i ==> !Eligible(shuffled[j], target)
      {
        var q := shuffled[i];
        if q.player.username != session.player.username && (target == null || q.color != target.color) {
          Spectate(q);
          return;
        }
        i := i + 1;
      }
    }

    /**
     * One heartbeat, given whether the game is being played and whether the
     * followed player is online. Without a followed player nothing happens. A
     * game that is not being played ends the spectating (checked first), and so
     * does a followed player who went offline; each then sends a message.
     * Otherwise the followed player stays and the title popup is sent. The
     * outcome is that of the message sent.
     */
    method Heartbeat(isBeingPlayed: bool, targetOnline: bool) returns (r: Outcome<MessageError>)
      modifies this`spectating
      ensures old(spectating) == null ==> spectating == null && r == Pass
      ensures old(spectating) != null && !isBeingPlayed ==>
        spectating == null && r == Delivered(T(SPECTATOR_MODE_GAME_ENDED, map[]))
      ensures old(spectating) != null && isBeingPlayed && !targetOnline ==>
        spectating == null && r == Delivered(T(SPECTATOR_MODE_DISCONNECTED, map[]))
      ensures old(spectating) != null && isBeingPlayed && targetOnline ==>
        spectating == old(spectating) && r == Popup(T(SPECTATOR_MODE_TITLE, map[]), T(SPECTATOR_MODE_SUBTITLE, map[]))
    {
      if spectating == null {
        return Pass;
      }
      if !isBeingPlayed {
        StopSpectating();
        r := Delivered(T(SPECTATOR_MODE_GAME_ENDED, map[]));
        return;
      }
      if !targetOnline {
        StopSpectating();
        r := Delivered(T(SPECTATOR_MODE_DISCONNECTED, map[]));
        return;
      }
      r := Popup(T(SPECTATOR_MODE_TITLE, map[]), T(SPECTATOR_MODE_SUBTITLE, map[]));
    }
  }

  /**
   * Because the spectator messages are missing, a heartbeat that has someone
   * to follow always ends in the missing-translation error; whether it stops
   * following is decided before the message is built.
   */
  lemma HeartbeatAlwaysThrows(isBeingPlayed: bool, targetOnline: bool)
    ensures !isBeingPlayed ==>
      Delivered(T(SPECTATOR_MODE_GAME_ENDED, map[])) == Fail(TranslationNotFound(SPECTATOR_MODE_GAME_ENDED))
    ensures isBeingPlayed && !targetOnline ==>
      Delivered(T(SPECTATOR_MODE_DISCONNECTED, map[])) == Fail(TranslationNotFound(SPECTATOR_MODE_DISCONNECTED))
    ensures isBeingPlayed && targetOnline ==>
      Popup(T(SPECTATOR_MODE_TITLE, map[]), T(SPECTATOR_MODE_SUBTITLE, map[])) == Fail(TranslationNotFound(SPECTATOR_MODE_TITLE))
  {
    SpectatorMessagesMissing();
  }
}
