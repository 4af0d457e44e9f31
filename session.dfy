/** Player sessions and the username-keyed session registry (src/player). */
module Sessions {

  import opened Wrappers
  import opened Colors

  /** The engine's player handle; only its username matters here. */
  datatype Player = Player(username: string)

  datatype Role = Crew | Impostor

  /**
   * A player's participation record. `game` is the game the session is seated in
   * (compared only by identity, hence `object?`), `color` its seat.
   * The role is the session's extra field; a new session starts as crew.
   */
  class PlayerSession {
    const player: Player
    var game: object?
    var color: Option<Color>
    var role: Role

    constructor (player: Player)
      ensures this.player == player && game == null && color == None && role == Crew
    {
      this.player := player;
      game := null;
      color := None;
      role := Crew;
    }

    method SetGame(game: object?)
      modifies this`game
      ensures this.game == game
    {
      this.game := game;
    }

    method SetColor(color: Option<Color>)
      modifies this`color
      ensures this.color == color
    {
      this.color := color;
    }

    method SetRole(role: Role)
      modifies this`role
      ensures this.role == role
    {
      this.role := role;
    }

    /** Clears the game and the colour; player and role stay. */
    method Reset()
      modifies this`game, this`color
      ensures game == null && color == None
    {
      SetGame(null);
      SetColor(None);
    }
  }

  /** The first position of `x` in `s`, or `|s|` when it is absent. */
  function Position<T(==)>(s: seq<T>, x: T): (k: nat)
    ensures k <= |s|
    ensures k < |s| ==> s[k] == x
    ensures k == |s| <==> x !in s
  {
    if s == [] then 0 else if s[0] == x then 0 else 1 + Position(s[1..], x)
  }

  predicate Distinct<T(==)>(s: seq<T>)
  {
    forall i, j :: 0 <= i < j < |s| ==> s[i] != s[j]
  }

  /** A sequence with a new head is duplicate-free exactly when the head is new and the tail is duplicate-free. */
  lemma DistinctCons<T>(x: T, s: seq<T>)
    ensures Distinct([x] + s) <==> x !in s && Distinct(s)
  {
    if x !in s && Distinct(s) {
      forall i, j | 0 <= i < j < |[x] + s| ensures ([x] + s)[i] != ([x] + s)[j] {
        if i > 0 {
          assert ([x] + s)[i] == s[i - 1] && ([x] + s)[j] == s[j - 1];
        } else {
          assert ([x] + s)[j] == s[j - 1];
        }
      }
    }
    if Distinct([x] + s) {
      forall k | 0 <= k < |s| ensures s[k] != x {
        assert s[k] == ([x] + s)[k + 1] && x == ([x] + s)[0];
      }
      assert forall k :: 0 <= k < |s| ==> s[k] == ([x] + s)[k + 1];
    }
  }

  datatype SessionError = NoSession(username: string)

  /**
   * The session registry: a map from username to session. `order` keeps the
   * map's iteration order (insertion order; overwriting a key keeps its place).
   */
  class PlayerSessionManager {
    var sessions: map<string, PlayerSession>
    var order: seq<string>

    ghost predicate Valid()
      reads this
    {
      && Distinct(order)
      && (forall u :: u in order <==> u in sessions)
      && (forall u :: u in sessions ==> sessions[u].player.username == u)
    }

    constructor ()
      ensures Valid() && sessions == map[] && order == []
    {
      sessions := map[];
      order := [];
    }

    /** The session of `player`'s username, or null. */
    function GetSession(player: Player): (r: PlayerSession?)
      reads this
      ensures r != null <==> player.username in sessions
      ensures r != null ==> r == sessions[player.username]
    {
      if player.username in sessions then sessions[player.username] else null
    }

    /** Like `GetSession`, but an unknown username is an error. */
    method GetSessionOrThrow(player: Player) returns (r: Result<PlayerSession, SessionError>)
      ensures r.Err? <==> player.username !in sessions
      ensures r.Err? ==> r.error == NoSession(player.username)
      ensures r.Ok? ==> r.value == sessions[player.username]
    {
      var session := GetSession(player);
      if session == null {
        return Err(NoSession(player.username));
      }
      return Ok(session);
    }

    /** Stores a fresh session under the username, replacing any earlier session of that username. */
    method OpenSession(player: Player) returns (session: PlayerSession)
      requires Valid()
      modifies this
      ensures Valid()
      ensures fresh(session) && session.player == player
      ensures session.game == null && session.color == None && session.role == Crew
      ensures sessions == old(sessions)[player.username := session]
      ensures order == if player.username in old(sessions) then old(order) else old(order) + [player.username]
      ensures GetSession(player) == session
    {
      session := new PlayerSession(player);
      if player.username !in sessions {
        order := order + [player.username];
      }
      sessions := sessions[player.username := session];
    }

    /** Removes the username's entry and no other. */
    method CloseSession(player: Player)
      requires Valid()
      modifies this
      ensures Valid()
      ensures sessions == old(sessions) - {player.username}
      ensures order == RemoveKey(old(order), player.username)
      ensures GetSession(player) == null
    {
      sessions := sessions - {player.username};
      order := RemoveKey(order, player.username);
    }

    /** The sessions in the registry's iteration order (`getSessions().values()`). */
    function Values(): (r: seq<PlayerSession>)
      reads this
      requires Valid()
      ensures |r| == |order|
      ensures forall i :: 0 <= i < |order| ==> r[i] == sessions[order[i]]
    {
      Lookup(order, sessions)
    }

    /** Sessions are stored under their own username, so the registry never holds one session twice. */
    lemma ValuesDistinct()
      requires Valid()
      ensures Distinct(Values())
    {
      var r := Values();
      forall i, j | 0 <= i < j < |r| ensures r[i] != r[j] {
        assert r[i].player.username == order[i];
        assert r[j].player.username == order[j];
      }
    }
  }

  /** `order` without `u`; the relative order of the others is kept. */
  function RemoveKey(s: seq<string>, u: string): (r: seq<string>)
    ensures forall x :: x in r <==> x in s && x != u
    ensures Distinct(s) ==> Distinct(r)
  {
    if s == [] then []
    else if s[0] == u then RemoveKey(s[1..], u)
    else
      var rest := RemoveKey(s[1..], u);
      assert Distinct(s) ==> s[0] !in s[1..];
      [s[0]] + rest
  }

  /** The values of `m` at `keys`, in the order of `keys`. */
  function Lookup<K, V>(keys: seq<K>, m: map<K, V>): (r: seq<V>)
    requires forall k :: k in keys ==> k in m
    ensures |r| == |keys|
    ensures forall i :: 0 <= i < |keys| ==> r[i] == m[keys[i]]
  {
    if keys == [] then [] else [m[keys[0]]] + Lookup(keys[1..], m)
  }
}
