/**
 * The periodic chat broadcast (src/utils/Broadcaster.ts): a countdown that one
 * heartbeat lowers by one; when it reaches zero one of six fixed messages is
 * broadcast and the countdown starts over from the interval.
 */
module Broadcasting {

  import opened Wrappers
  import opened Messages

  /** The messages a broadcast picks from, in the order of the list. */
  const BroadcastIds: seq<MessageId> := [BROADCAST_1, BROADCAST_2, BROADCAST_3, BROADCAST_4, BROADCAST_5, BROADCAST_6]

  /** The list is built element by element, so it exists only when every message does; the first failure is thrown. */
  function Collect<E>(rs: seq<Result<string, E>>): (r: Result<seq<string>, E>)
    ensures r.Ok? ==> |r.value| == |rs| && forall i :: 0 <= i < |rs| ==> rs[i] == Ok(r.value[i])
    ensures r.Err? <==> exists i :: 0 <= i < |rs| && rs[i].Err?
  {
    if rs == [] then Ok([])
    else
      match rs[0]
      case Err(e) => Err(e)
      case Ok(m) =>
        match Collect(rs[1..])
        case Err(e) => Err(e)
        case Ok(ms) =>
          assert forall i :: 1 <= i < |rs| ==> rs[i] == rs[1..][i - 1];
          Ok([m] + ms)
  }

  /** `getBroadcastableMessages`: every id translated; the first missing translation throws. */
  function Translated(ids: seq<MessageId>): (r: Result<seq<string>, MessageError>)
    ensures r.Ok? ==> |r.value| == |ids| && forall i :: 0 <= i < |ids| ==> T(ids[i], map[]) == Ok(r.value[i])
    ensures r.Err? <==> exists i :: 0 <= i < |ids| && T(ids[i], map[]).Err?
  {
    Collect(seq(|ids|, i requires 0 <= i < |ids| => T(ids[i], map[])))
  }

  /**
   * `broadcast` with the list entry `pick` (the random index): the message sent,
   * or nothing when the entry is empty; a missing translation throws.
   */
  function Broadcast(pick: nat): (r: Result<Option<string>, MessageError>)
    requires pick < |BroadcastIds|
  {
    match Translated(BroadcastIds)
    case Err(e) => Err(e)
    case Ok(messages) => if messages[pick] == "" then Ok(None) else Ok(Some(messages[pick]))
  }

  /** The six broadcast ids have non-empty English texts, which come back unchanged without arguments. */
  lemma BroadcastIdTranslated(i: nat)
    requires i < |BroadcastIds|
    ensures EnEn(BroadcastIds[i]).Some? && EnEn(BroadcastIds[i]).value != ""
    ensures T(BroadcastIds[i], map[]) == Ok(EnEn(BroadcastIds[i]).value)
  {
    WithoutArgumentsIsTemplate(BroadcastIds[i]);
  }

  /** Every pick broadcasts its English text: the six translations exist and none is empty. */
  lemma BroadcastSendsTemplate(pick: nat)
    requires pick < |BroadcastIds|
    ensures Broadcast(pick) == Ok(Some(EnEn(BroadcastIds[pick]).value))
  {
    forall i | 0 <= i < |BroadcastIds|
      ensures T(BroadcastIds[i], map[]).Ok?
    {
      BroadcastIdTranslated(i);
    }
    BroadcastIdTranslated(pick);
  }

  /** The English text of list entry `pick`. */
  function BroadcastText(pick: nat): string
    requires pick < |BroadcastIds|
  {
    match EnEn(BroadcastIds[pick])
    case Some(text) => text
    case None => ""
  }

  /** `broadcast`: the message of list entry `pick` goes out. */
  method SendBroadcast(pick: nat) returns (r: Result<Option<string>, MessageError>)
    requires pick < |BroadcastIds|
    ensures r == Broadcast(pick) && r == Ok(Some(BroadcastText(pick)))
  {
    r := Broadcast(pick);
    BroadcastSendsTemplate(pick);
  }

  /** The countdown after `k` heartbeats of a broadcaster created with `interval`. */
  function TimerAfter(interval: int, k: nat): int
  {
    if k == 0 then interval
    else
      var t := TimerAfter(interval, k - 1) - 1;
      if t <= 0 then interval else t
  }

  lemma TimerStep(interval: int, k: nat)
    ensures TimerAfter(interval, k + 1) ==
      if TimerAfter(interval, k) - 1 <= 0 then interval else TimerAfter(interval, k) - 1
  {
  }

  /** Heartbeat number `k` (counting from 1) broadcasts. */
  predicate BroadcastsAt(interval: int, k: nat)
  {
    k >= 1 && TimerAfter(interval, k - 1) - 1 <= 0
  }

  /**
   * With an interval of at least one, `r` heartbeats into the `q`-th round the
   * countdown is `interval - r`.
   */
  lemma {:induction false} TimerInRound(interval: int, q: nat, r: nat)
    requires interval >= 1 && r < interval
    ensures TimerAfter(interval, q * interval + r) == interval - r
    decreases q, r
  {
    if r > 0 {
      TimerInRound(interval, q, r - 1);
    } else if q > 0 {
      TimerInRound(interval, q - 1, interval - 1);
      assert (q - 1) * interval + (interval - 1) == q * interval - 1;
    }
  }

  /** With an interval of at least one, the countdown after `k` heartbeats is `interval - k % interval`. */
  lemma TimerPeriodic(interval: int, k: nat)
    requires interval >= 1
    ensures TimerAfter(interval, k) == interval - k % interval
    ensures 1 <= TimerAfter(interval, k) <= interval
  {
    TimerInRound(interval, k / interval, k % interval);
  }

  /**
   * With an interval of at least one, exactly the heartbeats `interval`,
   * `2 * interval`, ... broadcast: heartbeat `q * interval + r` (with
   * `r < interval`) broadcasts if and only if `r` is 0.
   */
  lemma BroadcastEveryInterval(interval: int, q: nat, r: nat)
    requires interval >= 1 && r < interval && q * interval + r >= 1
    ensures BroadcastsAt(interval, q * interval + r) <==> r == 0
  {
    if r > 0 {
      TimerInRound(interval, q, r - 1);
    } else {
      TimerInRound(interval, q - 1, interval - 1);
      assert (q - 1) * interval + (interval - 1) == q * interval - 1;
    }
  }

  /** With an interval below one, every heartbeat broadcasts. */
  lemma {:induction false} ShortIntervalAlwaysBroadcasts(interval: int, k: nat)
    requires interval < 1 && k >= 1
    ensures BroadcastsAt(interval, k)
  {
    if k >= 2 {
      ShortIntervalAlwaysBroadcasts(interval, k - 1);
    }
  }

  /**
   * The broadcaster. `beats` counts the heartbeats so far; it exists only to
   * state which heartbeats broadcast.
   */
  class Broadcaster {
    const interval: int
    var timeForNextBroadcast: int
    ghost var beats: nat

    /** The countdown is the one `beats` heartbeats leave behind. */
    ghost predicate Valid()
      reads this
    {
      timeForNextBroadcast == TimerAfter(interval, beats)
    }

    constructor (interval: int)
      ensures Valid() && this.interval == interval && beats == 0
      ensures timeForNextBroadcast == interval
    {
      this.interval := interval;
      timeForNextBroadcast := interval;
      beats := 0;
    }

    /**
     * One heartbeat, with `pick` the random list index: the countdown drops by
     * one and, when it reaches zero, a message goes out and the countdown
     * restarts from the interval.
     */
    method HandleHeartbeat(pick: nat) returns (sent: Result<Option<string>, MessageError>)
      requires Valid() && pick < |BroadcastIds|
      modifies this`timeForNextBroadcast, this`beats
      ensures Valid() && beats == old(beats) + 1
      ensures BroadcastsAt(interval, beats) ==> sent == Ok(Some(BroadcastText(pick)))
      ensures !BroadcastsAt(interval, beats) ==> sent == Ok(None)
      ensures timeForNextBroadcast == (if BroadcastsAt(interval, beats) then interval else old(timeForNextBroadcast) - 1)
    {
      TimerStep(interval, beats);
      timeForNextBroadcast := timeForNextBroadcast - 1;
      beats := beats + 1;
      sent := Ok(None);
      if timeForNextBroadcast <= 0 {
        sent := SendBroadcast(pick);
        timeForNextBroadcast := interval;
      }
    }
  }
}
