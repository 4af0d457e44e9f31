/**
 * Teleport stations (src/npc/TeleportStation.ts, src/npc/TeleportStationManager.ts):
 * the map lists pairs of stations; each pair becomes two stations, registered
 * under their unique ids and linked to each other. Using a linked station
 * charges the player and moves them to that station's own target.
 */
module Teleports {

  import opened Wrappers
  import opened Messages

  /** A point of the world (the engine's `Vector3Like`). */
  datatype Position = Position(x: real, y: real, z: real)

  /** One pair of stations as the map lists it: the target of each station. */
  datatype StationPair = StationPair(target1: Position, target2: Position)

  /** What using a station does to the player, in order. */
  datatype UseEvent =
    | ChargeAttempt(cost: nat)
    | MovedTo(target: Position)
    | PopupShown(text: Result<string, MessageError>)

  /** The decimal digits of `n` (`toString` on a non-negative integer). */
  function DecimalText(n: nat): (s: string)
    ensures |s| >= 1 && forall i :: 0 <= i < |s| ==> '0' <= s[i] <= '9'
  {
    var d := [('0' as int + n % 10) as char];
    if n < 10 then d else DecimalText(n / 10) + d
  }

  /** The text of the popup a player without enough coins gets. */
  function NoCoinsText(cost: nat): Result<string, MessageError>
  {
    T(TELEPORT_STATION_NO_COINS, map["cost" := DecimalText(cost)])
  }

  /** The no-coins message is missing from the English table, so that popup throws whatever the cost. */
  lemma NoCoinsMissing(cost: nat)
    ensures NoCoinsText(cost) == Err(TranslationNotFound(TELEPORT_STATION_NO_COINS))
  {
    MissingIdFails(TELEPORT_STATION_NO_COINS, map["cost" := DecimalText(cost)]);
  }

  class TeleportStation {
    const uniqueId: nat
    const teleportTarget: Position
    var stationLinked: TeleportStation?

    /** A new station, with the id `createUniqueId` hands out: not linked to any other. */
    constructor (uniqueId: nat, teleportTarget: Position)
      ensures this.uniqueId == uniqueId && this.teleportTarget == teleportTarget
      ensures stationLinked == null && GetStationLinked() == null
    {
      this.uniqueId := uniqueId;
      this.teleportTarget := teleportTarget;
      stationLinked := null;
    }

    function GetStationLinked(): (r: TeleportStation?)
      reads this
      ensures r == stationLinked
    {
      stationLinked
    }

    /** Links this station to `station`: reading the link back gives `station`. */
    method SetStationLinked(station: TeleportStation)
      modifies this`stationLinked
      ensures GetStationLinked() == station
    {
      stationLinked := station;
    }

    /**
     * A player uses the station. `cost` is the price of a teleport and `paid`
     * what charging the player's coins answered. An unlinked station does
     * nothing. A linked one charges once; a successful charge moves the player
     * to this station's own target, a refused one only shows a popup.
     */
    method Use(cost: nat, paid: bool) returns (events: seq<UseEvent>)
      ensures stationLinked == null <==> events == []
      ensures stationLinked != null ==> |events| == 2 && events[0] == ChargeAttempt(cost)
      ensures stationLinked != null && paid ==> events[1] == MovedTo(teleportTarget)
      ensures stationLinked != null && !paid ==> events[1] == PopupShown(NoCoinsText(cost))
    {
      if stationLinked == null {
        return [];
      }
      events := [ChargeAttempt(cost)];
      if paid {
        events := events + [MovedTo(teleportTarget)];
      } else {
        events := events + [PopupShown(NoCoinsText(cost))];
      }
    }
  }

  /** The charge attempts among `events`. */
  function Charges(events: seq<UseEvent>): (n: nat)
    ensures n <= |events|
  {
    if events == [] then 0
    else (if events[0].ChargeAttempt? then 1 else 0) + Charges(events[1..])
  }

  /**
   * Using a station charges at most once, and only a linked station charges; a
   * refused charge never moves the player.
   */
  lemma UseChargesOnce(linked: bool, cost: nat, events: seq<UseEvent>, paid: bool, target: Position, popup: Result<string, MessageError>)
    requires !linked ==> events == []
    requires linked ==> events == [ChargeAttempt(cost), if paid then MovedTo(target) else PopupShown(popup)]
    ensures Charges(events) == (if linked then 1 else 0)
    ensures forall i :: 0 <= i < |events| && events[i].MovedTo? ==> paid && events[i].target == target
  {
    if linked {
      assert events[1..] == [events[1]];
      assert events[1..][1..] == [];
    }
  }

  /** The numbers `lo` up to, not including, `hi`. */
  function Range(lo: nat, hi: nat): (r: set<nat>)
    ensures forall n :: n in r <==> lo <= n < hi
    decreases hi - lo
  {
    if lo >= hi then {} else {lo} + Range(lo + 1, hi)
  }

  lemma {:induction false} RangeSize(lo: nat, hi: nat)
    requires lo <= hi
    ensures |Range(lo, hi)| == hi - lo
    decreases hi - lo
  {
    if lo < hi {
      RangeSize(lo + 1, hi);
      assert lo !in Range(lo + 1, hi);
    }
  }

  /** A registry keyed by exactly the ids below `n` holds `n` stations. */
  lemma RegistrySize<V>(m: map<nat, V>, n: nat)
    requires forall id :: id in m <==> 0 <= id < n
    ensures |m| == n
  {
    assert m.Keys == Range(0, n);
    RangeSize(0, n);
  }

  /** `s1` and `s2` are the two stations of `pair`: each has its target and each is linked to the other. */
  ghost predicate LinkedPair(s1: TeleportStation, s2: TeleportStation, pair: StationPair)
    reads s1, s2
  {
    && s1.teleportTarget == pair.target1 && s2.teleportTarget == pair.target2
    && s1.stationLinked == s2 && s2.stationLinked == s1
  }

  /**
   * The registry of stations by unique id. `nextId` stands for `createUniqueId`:
   * every id handed out so far is below it, so ids are distinct.
   */
  class TeleportStationManager {
    var stations: map<nat, TeleportStation>
    var nextId: nat

    /** Every station sits under its own id, which was handed out already. */
    ghost predicate Valid()
      reads this
    {
      forall id | id in stations :: stations[id].uniqueId == id && id < nextId
    }

    /** The manager of a map: its pairs set up in a fresh registry. */
    constructor (pairs: seq<StationPair>)
      ensures Valid() && |stations| == 2 * |pairs| && nextId == 2 * |pairs|
      ensures forall id :: id in stations <==> 0 <= id < 2 * |pairs|
      ensures forall k :: 0 <= k < |pairs| ==> LinkedPair(stations[2 * k], stations[2 * k + 1], pairs[k])
    {
      stations := map[];
      nextId := 0;
      new;
      SetupStations(pairs);
      RegistrySize(stations, 2 * |pairs|);
    }

    /** The station registered under `uniqueId`, or null. */
    function GetStation(uniqueId: nat): (r: TeleportStation?)
      reads this
      ensures r == null <==> uniqueId !in stations
      ensures r != null ==> r == stations[uniqueId]
    {
      if uniqueId in stations then stations[uniqueId] else null
    }

    /**
     * Registers the two stations of every pair under two fresh ids, the pair
     * `k` under the `2k`-th and `2k+1`-th ids handed out, and links them to
     * each other. Earlier entries stay.
     */
    method SetupStations(pairs: seq<StationPair>)
      requires Valid()
      modifies this
      ensures Valid()
      ensures nextId == old(nextId) + 2 * |pairs|
      ensures forall id :: id in old(stations) ==> id in stations && stations[id] == old(stations)[id]
      ensures forall id :: id in stations <==> id in old(stations) || old(nextId) <= id < nextId
      ensures forall k :: 0 <= k < |pairs| ==>
        LinkedPair(stations[old(nextId) + 2 * k], stations[old(nextId) + 2 * k + 1], pairs[k])
    {
      ghost var stations0, n0 := stations, nextId;
      var i := 0;
      while i < |pairs|
        invariant i <= |pairs| && nextId == n0 + 2 * i
        invariant Valid()
        invariant forall id :: id in stations0 ==> id in stations && stations[id] == stations0[id]
        invariant forall id :: id in stations <==> id in stations0 || n0 <= id < nextId
        invariant forall k :: 0 <= k < i ==>
          LinkedPair(stations[n0 + 2 * k], stations[n0 + 2 * k + 1], pairs[k])
      {
        ghost var before := stations;
        var station1, station2 := AddPair(pairs[i]);
        forall k | 0 <= k <= i
          ensures LinkedPair(stations[n0 + 2 * k], stations[n0 + 2 * k + 1], pairs[k])
        {
          if k < i {
            assert stations[n0 + 2 * k] == before[n0 + 2 * k];
            assert stations[n0 + 2 * k + 1] == before[n0 + 2 * k + 1];
          }
        }
        i := i + 1;
      }
    }

    /** The loop body of `setupStations`: one pair, registered under the next two ids and linked. */
    method AddPair(pair: StationPair) returns (station1: TeleportStation, station2: TeleportStation)
      requires Valid()
      modifies this
      ensures Valid() && nextId == old(nextId) + 2
      ensures forall id :: id in stations <==> id in old(stations) || id == old(nextId) || id == old(nextId) + 1
      ensures forall id :: id in old(stations) ==> stations[id] == old(stations)[id]
      ensures old(nextId) in stations && stations[old(nextId)] == station1
      ensures old(nextId) + 1 in stations && stations[old(nextId) + 1] == station2
      ensures fresh(station1) && fresh(station2)
      ensures LinkedPair(station1, station2, pair)
    {
      station1 := new TeleportStation(nextId, pair.target1);
      station2 := new TeleportStation(nextId + 1, pair.target2);
      stations := stations[station1.uniqueId := station1];
      stations := stations[station2.uniqueId := station2];
      nextId := nextId + 2;
      station1.SetStationLinked(station2);
      station2.SetStationLinked(station1);
      forall id | id in old(stations)
        ensures stations[id] == old(stations)[id]
      {
        assert id < old(nextId);
      }
    }
  }
}
