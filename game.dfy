/** A match: its roster, its colour pool and its phase (src/game/Game.ts), and matchmaking (src/game/GameManager.ts). */
module Games {

  import opened Wrappers
  import opened Config
  import opened Colors
  import opened Sessions
  import opened Polls
  import opened Phases
  import opened Messages

  datatype GameError = AlreadyInGame | NoAvailableColors | NotInThisGame | NoColor

  /** The roster without `s` (`filter(session => session !== s)`). */
  function Without(ps: seq<PlayerSession>, s: PlayerSession): (r: seq<PlayerSession>)
    ensures |r| <= |ps|
  {
    if ps == [] then []
    else if ps[0] == s then Without(ps[1..], s)
    else [ps[0]] + Without(ps[1..], s)
  }

  /** `s` with position `k` cut out. */
  function Cut<T>(s: seq<T>, k: nat): (r: seq<T>)
    requires k < |s|
    ensures |r| == |s| - 1
    ensures forall i {:trigger r[i]} :: 0 <= i < |r| ==> r[i] == if i < k then s[i] else s[i + 1]
  {
    s[..k] + s[k + 1..]
  }

  /** In a list without repeats, an element's position is its index. */
  lemma PositionAt<T>(s: seq<T>, k: nat)
    requires Distinct(s) && k < |s|
    ensures Position(s, s[k]) == k
  {
  }

  /** Filtering keeps exactly the other members. */
  lemma {:induction false} WithoutMembers(ps: seq<PlayerSession>, s: PlayerSession, x: PlayerSession)
    ensures x in Without(ps, s) <==> x in ps && x != s
  {
    if ps != [] {
      WithoutMembers(ps[1..], s, x);
      assert ps == [ps[0]] + ps[1..];
    }
  }

  lemma {:induction false} WithoutAbsent(ps: seq<PlayerSession>, s: PlayerSession)
    requires s !in ps
    ensures Without(ps, s) == ps
  {
    if ps != [] {
      assert ps == [ps[0]] + ps[1..];
      WithoutAbsent(ps[1..], s);
    }
  }

  /** In a duplicate-free roster, filtering out the member at `k` cuts position `k` out. */
  lemma {:induction false} WithoutAt(ps: seq<PlayerSession>, k: nat)
    requires Distinct(ps) && k < |ps|
    ensures Without(ps, ps[k]) == Cut(ps, k)
  {
    DistinctCons(ps[0], ps[1..]);
    assert ps == [ps[0]] + ps[1..];
    if k == 0 {
      WithoutAbsent(ps[1..], ps[0]);
      assert Cut(ps, 0) == ps[1..];
    } else {
      assert ps[1..][k - 1] == ps[k];
      WithoutAt(ps[1..], k - 1);
      assert [ps[0]] + Cut(ps[1..], k - 1) == Cut(ps, k);
    }
  }

  /** Cutting a position out of a duplicate-free sequence keeps it duplicate-free. */
  lemma CutDistinct<T>(s: seq<T>, k: nat)
    requires Distinct(s) && k < |s|
    ensures Distinct(Cut(s, k))
  {
    var r := Cut(s, k);
    forall i, j | 0 <= i < j < |r|
      ensures r[i] != r[j]
    {
      var i', j' := if i < k then i else i + 1, if j < k then j else j + 1;
      assert r[i] == s[i'] && r[j] == s[j'];
    }
  }

  /** Cutting out the position of `s` leaves exactly the other members. */
  lemma CutMembers<T>(s: seq<T>, k: nat, x: T)
    requires Distinct(s) && k < |s|
    ensures x in Cut(s, k) <==> x in s && x != s[k]
  {
    if x in s && x != s[k] {
      var j :| 0 <= j < |s| && s[j] == x;
      assert Cut(s, k)[if j < k then j else j - 1] == x;
    }
  }

  /** Removing a member of a duplicate-free roster removes exactly one entry and keeps it duplicate-free. */
  lemma WithoutMember(ps: seq<PlayerSession>, s: PlayerSession)
    requires Distinct(ps) && s in ps
    ensures |Without(ps, s)| == |ps| - 1
    ensures Distinct(Without(ps, s))
  {
    var k :| 0 <= k < |ps| && ps[k] == s;
    WithoutAt(ps, k);
    CutDistinct(ps, k);
  }

  /** Leaving the head of a duplicate-free roster leaves its tail. */
  lemma WithoutHead(ps: seq<PlayerSession>)
    requires Distinct(ps) && ps != []
    ensures Without(ps, ps[0]) == ps[1..]
  {
    WithoutAt(ps, 0);
    assert Cut(ps, 0) == ps[1..];
  }

  /** Seated colours and the pool together hold each factory colour exactly as often as the factory list does. */
  ghost predicate Palette(seated: seq<Color>, pool: seq<Color>)
  {
    multiset(seated) + multiset(pool) == multiset(CreateColors())
  }

  /** Taking the pool's first colour for a new seat keeps the palette. */
  lemma PaletteTake(seated: seq<Color>, pool: seq<Color>)
    requires Palette(seated, pool) && pool != []
    ensures Palette(seated + [pool[0]], pool[1..])
  {
    assert pool == [pool[0]] + pool[1..];
  }

  /** Returning the colour of seat `k` to the end of the pool keeps the palette. */
  lemma PaletteGive(seated: seq<Color>, pool: seq<Color>, k: nat)
    requires Palette(seated, pool) && k < |seated|
    ensures Palette(Cut(seated, k), pool + [seated[k]])
  {
    assert seated == seated[..k] + [seated[k]] + seated[k + 1..];
  }

  /** The palette has room for exactly eight: seats plus pool is the colour count. */
  lemma PaletteSize(seated: seq<Color>, pool: seq<Color>)
    requires Palette(seated, pool)
    ensures |seated| + |pool| == MaxPlayers
  {
    assert |multiset(seated) + multiset(pool)| == |multiset(CreateColors())|;
  }

  /** A duplicate-free sequence holds each value at most once. */
  lemma {:induction false} DistinctCountAtMostOne<T>(s: seq<T>, x: T)
    requires Distinct(s)
    ensures multiset(s)[x] <= 1
  {
    if s != [] {
      DistinctCons(s[0], s[1..]);
      assert s == [s[0]] + s[1..];
      DistinctCountAtMostOne(s[1..], x);
    }
  }

  /** Two positions holding the same value count it twice. */
  lemma RepeatCountsTwice<T>(s: seq<T>, i: nat, j: nat)
    requires i < j < |s|
    ensures s[i] == s[j] ==> multiset(s)[s[i]] >= 2
  {
    assert s == s[..j] + [s[j]] + s[j + 1..];
    assert s[..j][i] == s[i];
  }

  /** A seated colour is not in the pool: no colour is handed out twice. */
  lemma PaletteDisjoint(seated: seq<Color>, pool: seq<Color>, c: Color)
    requires Palette(seated, pool)
    ensures !(c in seated && c in pool)
  {
    DistinctCountAtMostOne(CreateColors(), c);
  }

  /** No two seats share a colour. */
  lemma PaletteSeatsDistinct(seated: seq<Color>, pool: seq<Color>)
    requires Palette(seated, pool)
    ensures Distinct(seated)
  {
    forall i, j | 0 <= i < j < |seated|
      ensures seated[i] != seated[j]
    {
      DistinctCountAtMostOne(CreateColors(), seated[i]);
      RepeatCountsTwice(seated, i, j);
    }
  }

  // ---------------------------------------------------------------------------
  // Pulling waiting players in

  /** For each candidate, whether it has no game. */
  function GameLess(cs: seq<PlayerSession>): (r: seq<bool>)
    reads set i | 0 <= i < |cs| :: cs[i]`game
    ensures |r| == |cs|
    ensures forall i :: 0 <= i < |cs| ==> (r[i] <==> cs[i].game == null)
  {
    if cs == [] then [] else [cs[0].game == null] + GameLess(cs[1..])
  }

  /** The candidates flagged free, in candidate order. */
  function FreeOnes(cs: seq<PlayerSession>, free: seq<bool>): (r: seq<PlayerSession>)
    requires |free| == |cs|
    decreases |cs|
  {
    if cs == [] then []
    else
      var n := |cs| - 1;
      FreeOnes(cs[..n], free[..n]) + (if free[n] then [cs[n]] else [])
  }

  /**
   * The candidates a waiting game admits in one heartbeat: walking the candidates
   * in order, each free one is admitted while seats remain.
   */
  function Admitted(cs: seq<PlayerSession>, free: seq<bool>, room: nat): (r: seq<PlayerSession>)
    requires |free| == |cs|
    ensures |r| <= room
    decreases |cs|
  {
    if cs == [] then []
    else
      var n := |cs| - 1;
      var a := Admitted(cs[..n], free[..n], room);
      if free[n] && |a| < room then a + [cs[n]] else a
  }

  /** The admitted players are the first free candidates, as many as there is room for. */
  lemma {:induction false} AdmittedIsPrefix(cs: seq<PlayerSession>, free: seq<bool>, room: nat)
    requires |free| == |cs|
    ensures var f := FreeOnes(cs, free);
      Admitted(cs, free, room) == f[..if |f| < room then |f| else room]
    decreases |cs|
  {
    if cs != [] {
      var n := |cs| - 1;
      AdmittedIsPrefix(cs[..n], free[..n], room);
      var f := FreeOnes(cs[..n], free[..n]);
      if free[n] && |f| < room {
        assert (f + [cs[n]])[..|f| + 1] == f + [cs[n]];
      } else if free[n] {
        assert (f + [cs[n]])[..room] == f[..room];
      }
    }
  }

  /** Every free candidate is listed, and only free candidates are. */
  lemma {:induction false} FreeOnesMembers(cs: seq<PlayerSession>, free: seq<bool>, x: PlayerSession)
    requires |free| == |cs|
    ensures x in FreeOnes(cs, free) <==> exists i :: 0 <= i < |cs| && cs[i] == x && free[i]
    decreases |cs|
  {
    if cs != [] {
      var n := |cs| - 1;
      FreeOnesMembers(cs[..n], free[..n], x);
      assert forall i :: 0 <= i < n ==> cs[..n][i] == cs[i] && free[..n][i] == free[i];
    }
  }

  /** Admitted players are free candidates. */
  lemma {:induction false} AdmittedMembers(cs: seq<PlayerSession>, free: seq<bool>, room: nat, x: PlayerSession)
    requires |free| == |cs|
    ensures x in Admitted(cs, free, room) ==> exists i :: 0 <= i < |cs| && cs[i] == x && free[i]
    decreases |cs|
  {
    if cs != [] {
      var n := |cs| - 1;
      AdmittedMembers(cs[..n], free[..n], room, x);
      if x in Admitted(cs[..n], free[..n], room) {
        var i :| 0 <= i < n && cs[..n][i] == x && free[..n][i];
        assert cs[i] == x && free[i];
      }
    }
  }

  /** Only candidates without a game are admitted. */
  lemma AdmittedFree(cs: seq<PlayerSession>, room: nat, x: PlayerSession)
    requires x in Admitted(cs, GameLess(cs), room)
    ensures x in cs && x.game == null
  {
    AdmittedMembers(cs, GameLess(cs), room, x);
  }

  /** Admitting along a prefix of the candidates admits a prefix of what the whole list admits. */
  lemma {:induction false} AdmittedGrows(cs: seq<PlayerSession>, free: seq<bool>, room: nat, i: nat)
    requires |free| == |cs| && i <= |cs|
    ensures Admitted(cs[..i], free[..i], room) <= Admitted(cs, free, room)
    decreases |cs|
  {
    if i < |cs| {
      var n := |cs| - 1;
      AdmittedGrows(cs[..n], free[..n], room, i);
      assert cs[..n][..i] == cs[..i] && free[..n][..i] == free[..i];
    } else {
      assert cs[..i] == cs && free[..i] == free;
    }
  }

  /** The next candidate of the heartbeat's walk: the admitted list grows by it or stays, within the final list. */
  lemma AdmitNext(cs: seq<PlayerSession>, free: seq<bool>, room: nat, i: nat,
                  a: seq<PlayerSession>, all: seq<PlayerSession>)
    requires |free| == |cs| && i < |cs|
    requires a == Admitted(cs[..i], free[..i], room) && all == Admitted(cs, free, room)
    ensures var b := if free[i] && |a| < room then a + [cs[i]] else a;
      && b == Admitted(cs[..i + 1], free[..i + 1], room) && b <= all
      && (free[i] && |a| < room ==> cs[i] in all)
  {
    AdmittedSnoc(cs, free, room, i);
    AdmittedGrows(cs, free, room, i + 1);
    if free[i] && |a| < room {
      assert all[|a|] == (a + [cs[i]])[|a|];
    }
  }

  /** Admitting one more candidate from a longer list. */
  lemma AdmittedSnoc(cs: seq<PlayerSession>, free: seq<bool>, room: nat, i: nat)
    requires |free| == |cs| && i < |cs|
    ensures Admitted(cs[..i + 1], free[..i + 1], room) ==
      var a := Admitted(cs[..i], free[..i], room);
      if free[i] && |a| < room then a + [cs[i]] else a
  {
    assert cs[..i + 1][..i] == cs[..i];
    assert free[..i + 1][..i] == free[..i];
  }

  /** `k + 1` joins are `k` joins followed by one more. */
  lemma {:induction false} AfterJoinsSnoc(p: Phase, players: nat, pool: nat, k: nat)
    requires k + 1 <= pool
    ensures AfterJoins(p, players, pool, k + 1) ==
      AfterJoin(AfterJoins(p, players, pool, k), players + k + 1, pool - k - 1)
    decreases k
  {
    if k > 0 {
      AfterJoinsSnoc(AfterJoin(p, players + 1, pool - 1), players + 1, pool - 1, k - 1);
    }
  }

  /** One admission of the heartbeat's loop, stated on the roster, the pool, the seats and the phase. */
  lemma JoinStep(ps0: seq<PlayerSession>, pool0: seq<Color>, seats0: seq<Color>, p0: Phase,
                 a: seq<PlayerSession>, c: PlayerSession, pool: seq<Color>, p: Phase,
                 ps1: seq<PlayerSession>, pool1: seq<Color>, seats1: seq<Color>, p1: Phase)
    requires |a| <= |pool0| && pool == pool0[|a|..] && pool != [] && p == AfterJoins(p0, |ps0|, |pool0|, |a|)
    requires ps1 == ps0 + a + [c] && pool1 == pool[1..] && seats1 == seats0 + pool0[..|a|] + [pool[0]]
    requires p1 == AfterJoin(p, |ps1|, |pool1|)
    ensures |a + [c]| <= |pool0| && ps1 == ps0 + (a + [c]) && pool1 == pool0[|a + [c]|..]
    ensures seats1 == seats0 + pool0[..|a + [c]|] && p1 == AfterJoins(p0, |ps0|, |pool0|, |a + [c]|)
  {
    assert pool0[..|a| + 1] == pool0[..|a|] + [pool0[|a|]];
    AfterJoinsSnoc(p0, |ps0|, |pool0|, |a|);
  }

  // ---------------------------------------------------------------------------
  // Kicking the voted-out colour

  /** The roster members whose colour is not called `name`; `cs` holds their colours. */
  function Kept(ps: seq<PlayerSession>, cs: seq<Color>, name: string): (r: seq<PlayerSession>)
    requires |cs| == |ps|
    decreases |ps|
  {
    if ps == [] then []
    else
      var n := |ps| - 1;
      Kept(ps[..n], cs[..n], name) + (if Name(cs[n].colorType) == name then [] else [ps[n]])
  }

  /** The colours of `Kept`, in the same order. */
  function KeptSeats(cs: seq<Color>, name: string): (r: seq<Color>)
    ensures forall i :: 0 <= i < |r| ==> Name(r[i].colorType) != name
    decreases |cs|
  {
    if cs == [] then []
    else
      var n := |cs| - 1;
      KeptSeats(cs[..n], name) + (if Name(cs[n].colorType) == name then [] else [cs[n]])
  }

  lemma {:induction false} KeptLength(ps: seq<PlayerSession>, cs: seq<Color>, name: string)
    requires |cs| == |ps|
    ensures |Kept(ps, cs, name)| == |KeptSeats(cs, name)|
    decreases |ps|
  {
    if ps != [] {
      KeptLength(ps[..|ps| - 1], cs[..|ps| - 1], name);
    }
  }

  /** Kicking by colour keeps a member exactly when its colour has another name. */
  lemma {:induction false} KeptMembers(ps: seq<PlayerSession>, cs: seq<Color>, name: string, i: nat)
    requires |cs| == |ps| && Distinct(ps) && i < |ps|
    ensures ps[i] in Kept(ps, cs, name) <==> Name(cs[i].colorType) != name
    decreases |ps|
  {
    var n := |ps| - 1;
    assert ps == ps[..n] + [ps[n]];
    KeptSubset(ps[..n], cs[..n], name, ps[i]);
    if i < n {
      assert ps[..n][i] == ps[i] && cs[..n][i] == cs[i];
      DistinctPrefix(ps, n);
      KeptMembers(ps[..n], cs[..n], name, i);
    } else {
      assert ps[n] !in ps[..n] by {
        DistinctLastAbsent(ps);
      }
    }
  }

  /** Every kept member is a member. */
  lemma KeptWithin(ps: seq<PlayerSession>, cs: seq<Color>, name: string)
    requires |cs| == |ps|
    ensures forall x :: x in Kept(ps, cs, name) ==> x in ps
  {
    forall x | x in Kept(ps, cs, name)
      ensures x in ps
    {
      KeptSubset(ps, cs, name, x);
    }
  }

  /** Kept members are members. */
  lemma {:induction false} KeptSubset(ps: seq<PlayerSession>, cs: seq<Color>, name: string, x: PlayerSession)
    requires |cs| == |ps|
    ensures x in Kept(ps, cs, name) ==> x in ps
    decreases |ps|
  {
    if ps != [] {
      var n := |ps| - 1;
      KeptSubset(ps[..n], cs[..n], name, x);
      assert ps == ps[..n] + [ps[n]];
    }
  }

  /** A kick by a colour nobody wears removes nobody. */
  lemma {:induction false} KeptNoneCalled(ps: seq<PlayerSession>, cs: seq<Color>, name: string)
    requires |cs| == |ps| && forall i :: 0 <= i < |cs| ==> Name(cs[i].colorType) != name
    ensures Kept(ps, cs, name) == ps
    decreases |ps|
  {
    if ps != [] {
      var n := |ps| - 1;
      NoneCalledPrefix(cs, name, n);
      KeptNoneCalled(ps[..n], cs[..n], name);
      LastSplit(ps);
    }
  }

  lemma NoneCalledPrefix(cs: seq<Color>, name: string, n: nat)
    requires n <= |cs| && forall i :: 0 <= i < |cs| ==> Name(cs[i].colorType) != name
    ensures forall i :: 0 <= i < n ==> Name(cs[..n][i].colorType) != name
  {
    assert forall i :: 0 <= i < n ==> cs[..n][i] == cs[i];
  }

  lemma LastSplit<T>(s: seq<T>)
    requires s != []
    ensures s == s[..|s| - 1] + [s[|s| - 1]]
  {
  }

  /** With pairwise distinct colours, a kick by colour removes at most one member. */
  lemma {:induction false} KeptRemovesAtMostOne(ps: seq<PlayerSession>, cs: seq<Color>, name: string)
    requires |cs| == |ps| && Distinct(cs)
    ensures |Kept(ps, cs, name)| >= |ps| - 1
    decreases |ps|
  {
    if ps != [] {
      var n := |ps| - 1;
      if Name(cs[n].colorType) == name {
        OthersNotCalled(cs, name, n);
        KeptNoneCalled(ps[..n], cs[..n], name);
      } else {
        DistinctPrefix(cs, n);
        KeptRemovesAtMostOne(ps[..n], cs[..n], name);
      }
    }
  }

  /** With pairwise distinct colours, only the colour at `n` is called `name` when that one is. */
  lemma OthersNotCalled(cs: seq<Color>, name: string, n: nat)
    requires Distinct(cs) && n < |cs| && Name(cs[n].colorType) == name
    ensures forall i :: 0 <= i < n ==> Name(cs[..n][i].colorType) != name
  {
    forall i | 0 <= i < n
      ensures Name(cs[..n][i].colorType) != name
    {
      assert cs[..n][i] == cs[i] != cs[n];
      if Name(cs[i].colorType) == name {
        NameInjective(cs[i].colorType, cs[n].colorType);
      }
    }
  }

  lemma DistinctPrefix<T>(s: seq<T>, n: nat)
    requires Distinct(s) && n <= |s|
    ensures Distinct(s[..n])
  {
  }

  lemma DistinctLastAbsent<T>(s: seq<T>)
    requires Distinct(s) && s != []
    ensures s[|s| - 1] !in s[..|s| - 1]
  {
  }

  /**
   * One member of the kick's walk, seen in the roster `kept + ps[i..]` and the seats
   * `ks + cs[i..]`: a member whose colour is called `name` is cut out of both, any
   * other one moves to the kept part.
   */
  lemma KickStep(ps: seq<PlayerSession>, cs: seq<Color>, name: string, i: nat,
                 kept: seq<PlayerSession>, ks: seq<Color>)
    requires |cs| == |ps| && i < |ps|
    requires kept == Kept(ps[..i], cs[..i], name) && ks == KeptSeats(cs[..i], name)
    ensures |kept| == |ks| && (kept + ps[i..])[|kept|] == ps[i] && (ks + cs[i..])[|kept|] == cs[i]
    ensures Name(cs[i].colorType) == name ==>
      && Kept(ps[..i + 1], cs[..i + 1], name) == kept && KeptSeats(cs[..i + 1], name) == ks
      && Cut(kept + ps[i..], |kept|) == kept + ps[i + 1..] && Cut(ks + cs[i..], |ks|) == ks + cs[i + 1..]
    ensures Name(cs[i].colorType) != name ==>
      && Kept(ps[..i + 1], cs[..i + 1], name) == kept + [ps[i]]
      && KeptSeats(cs[..i + 1], name) == ks + [cs[i]]
  {
    KeptLength(ps[..i], cs[..i], name);
    assert ps[..i + 1][..i] == ps[..i] && cs[..i + 1][..i] == cs[..i];
    CutJoint(kept, ps[i..]);
    CutJoint(ks, cs[i..]);
    assert ps[i..][1..] == ps[i + 1..] && cs[i..][1..] == cs[i + 1..];
    assert ps[i..] == [ps[i]] + ps[i + 1..] && cs[i..] == [cs[i]] + cs[i + 1..];
  }

  /** Moving the element at `i` across the seam of a concatenation. */
  lemma MoveAcross<T>(a: seq<T>, s: seq<T>, i: nat)
    requires i < |s|
    ensures a + s[i..] == (a + [s[i]]) + s[i + 1..]
  {
    assert s[i..] == [s[i]] + s[i + 1..];
  }

  /** Cutting the first element of the second half out of a concatenation. */
  lemma CutJoint<T>(a: seq<T>, b: seq<T>)
    requires b != []
    ensures Cut(a + b, |a|) == a + b[1..]
  {
  }

  /** The colour the meeting votes out: the single non-skip option with strictly the most ballots. */
  /** Whether some seat's colour is called `name`. */
  ghost predicate Worn(cs: seq<Color>, name: string)
  {
    exists i :: 0 <= i < |cs| && Name(cs[i].colorType) == name
  }

  ghost function Winner(bs: seq<Ballot>): (r: Option<string>)
    ensures r.Some? <==> exists o :: StrictWinner(bs, o)
    ensures r.Some? ==> StrictWinner(bs, r.value)
  {
    if exists o :: StrictWinner(bs, o) then Some(var o :| StrictWinner(bs, o); o) else None
  }

  /** The meeting's kick target, computed from the most-voted list, is the strict winner. */
  lemma KickTargetIsWinner(bs: seq<Ballot>, mostVoted: seq<string>)
    requires Distinct(mostVoted)
    requires forall o :: o in mostVoted <==> IsMostVoted(bs, o)
    ensures KickTarget(mostVoted) == Winner(bs)
  {
    KickIsStrictWinner(bs, mostVoted);
    if KickTarget(mostVoted).Some? {
      var o := KickTarget(mostVoted).value;
      StrictWinnerUnique(bs, o, Winner(bs).value);
    }
  }

  /** There is at most one strict winner. */
  lemma StrictWinnerUnique(bs: seq<Ballot>, a: string, b: string)
    requires StrictWinner(bs, a) && StrictWinner(bs, b)
    ensures a == b
  {
    assert a != b ==> Count(bs, b) < Count(bs, a) && Count(bs, a) < Count(bs, b);
  }

  class Game {
    const uniqueId: nat
    var playerSessions: seq<PlayerSession>
    var availableColors: seq<Color>
    var phase: Phase
    /** The colour each roster member wears, in roster order. */
    ghost var seats: seq<Color>
    /** The number of heartbeats this game has handled. */
    ghost var beats: nat

    /** Every roster member sits in this game, wearing the colour `seats` records for it. */
    ghost predicate Placed()
      reads this`playerSessions, this`seats
      reads set i | 0 <= i < |playerSessions| :: playerSessions[i]`game
      reads set i | 0 <= i < |playerSessions| :: playerSessions[i]`color
    {
      && |seats| == |playerSessions|
      && forall i :: 0 <= i < |playerSessions| ==>
           playerSessions[i].game == this && playerSessions[i].color == Some(seats[i])
    }

    /** Every roster member is seated here once. */
    ghost predicate Seated()
      reads this`playerSessions, this`seats
      reads set i | 0 <= i < |playerSessions| :: playerSessions[i]`game
      reads set i | 0 <= i < |playerSessions| :: playerSessions[i]`color
    {
      Distinct(playerSessions) && Placed()
    }

    /**
     * The game invariant: seated roster, roster colours and pool together are the
     * eight factory colours, and the phase agrees with the roster size.
     */
    ghost predicate Valid()
      reads this`playerSessions, this`seats, this`availableColors, this`phase
      reads set i | 0 <= i < |playerSessions| :: playerSessions[i]`game
      reads set i | 0 <= i < |playerSessions| :: playerSessions[i]`color
    {
      && Placed()
      && Palette(seats, availableColors)
      && PhaseConsistent(phase, |playerSessions|)
    }

    /** No one is listed twice in a valid game: two entries for one session would wear one colour twice. */
    lemma ValidSeated()
      requires Valid()
      ensures Seated()
    {
      PaletteSeatsDistinct(seats, availableColors);
      forall i, j | 0 <= i < j < |playerSessions|
        ensures playerSessions[i] != playerSessions[j]
      {
        assert playerSessions[i].color == Some(seats[i]) && playerSessions[j].color == Some(seats[j]);
      }
    }

    /** The invariant depends only on the game's own fields and on its members' game and colour. */
    twostate lemma ValidFrame()
      requires old(Valid()) && unchanged(this)
      requires forall q :: q in old(playerSessions) ==> unchanged(q`game, q`color)
      ensures Valid()
    {
      forall i | 0 <= i < |playerSessions|
        ensures playerSessions[i].game == this && playerSessions[i].color == Some(seats[i])
      {
        var q := playerSessions[i];
        assert q == old(playerSessions)[i] && q in old(playerSessions);
        assert old(q.game) == this && old(q.color) == Some(seats[i]);
      }
    }

    /** A new game has run its restart: empty roster, fresh pool, waiting. */
    constructor (uniqueId: nat)
      ensures this.uniqueId == uniqueId && beats == 0
      ensures playerSessions == [] && availableColors == CreateColors() && phase == WaitingForPlayersPhase
      ensures Valid()
    {
      this.uniqueId := uniqueId;
      playerSessions := [];
      availableColors := [];
      phase := WaitingForPlayersPhase;
      seats := [];
      beats := 0;
      new;
      Restart();
    }

    /** Installs `phase`; its start hook only shows things to players. */
    method SetPhase(phase: Phase)
      modifies this`phase
      ensures this.phase == phase
    {
      this.phase := phase;
    }

    /** Every roster member becomes crew again. */
    method MakeSurePlayersHaveNoKnife()
      modifies (set q | q in playerSessions)`role
      ensures forall q :: q in playerSessions ==> q.role == Crew
    {
      for i := 0 to |playerSessions|
        invariant forall j :: 0 <= j < i ==> playerSessions[j].role == Crew
      {
        playerSessions[i].SetRole(Crew);
      }
    }

    /** The phase's join handler; only waiting and minimum players reached react. */
    method HandleJoin()
      modifies this`phase, (set q | q in playerSessions)`role
      ensures phase == AfterJoin(old(phase), |playerSessions|, |availableColors|)
      ensures old(phase).WaitingForPlayersPhase? || old(phase).MinimumPlayersReachedPhase? ==>
        forall q :: q in playerSessions ==> q.role == Crew
      ensures !(old(phase).WaitingForPlayersPhase? || old(phase).MinimumPlayersReachedPhase?) ==>
        forall q :: q in playerSessions ==> q.role == old(q.role)
    {
      match phase
      case WaitingForPlayersPhase =>
        MakeSurePlayersHaveNoKnife();
        if |playerSessions| >= MinimumPlayersToStartGame {
          SetPhase(NewMinimumPlayersReached());
        }
      case MinimumPlayersReachedPhase(_) =>
        MakeSurePlayersHaveNoKnife();
        if |availableColors| == 0 {
          SetPhase(NewCountdown());
        }
      case _ =>
    }

    /** The phase's leave handler; only minimum players reached and countdown react. */
    method HandleLeave()
      modifies this`phase
      ensures phase == AfterLeave(old(phase), |playerSessions|)
    {
      match phase
      case MinimumPlayersReachedPhase(_) =>
        if |playerSessions| < MinimumPlayersToStartGame {
          SetPhase(WaitingForPlayersPhase);
        }
      case CountdownPhase(_) =>
        if |playerSessions| < MinimumPlayersToStartGame {
          SetPhase(WaitingForPlayersPhase);
        }
      case _ =>
    }

    /**
     * Seats `s`: refused when it already has a game; otherwise it is appended to
     * the roster before the pool is looked at, so an empty pool fails with the
     * session listed but not seated. A seated join takes the pool's first colour.
     */
    method Join(s: PlayerSession) returns (r: Outcome<GameError>)
      modifies this, s, (set q | q in playerSessions)`role
      ensures beats == old(beats)
      ensures old(s.game) != null ==> r == Fail(AlreadyInGame) && unchanged(this, s)
      ensures old(s.game) != null ==> forall q :: q in playerSessions ==> q.role == old(q.role)
      ensures old(s.game) == null ==> playerSessions == old(playerSessions) + [s]
      ensures old(s.game) == null && old(availableColors) == [] ==>
        && r == Fail(NoAvailableColors) && availableColors == [] && phase == old(phase) && unchanged(s)
        && forall q :: q in playerSessions ==> q.role == old(q.role)
      ensures old(s.game) == null && old(availableColors) != [] ==>
        && r == Pass
        && s.game == this && s.color == Some(old(availableColors)[0])
        && availableColors == old(availableColors)[1..]
        && seats == old(seats) + [old(availableColors)[0]]
        && phase == AfterJoin(old(phase), |playerSessions|, |availableColors|)
      ensures r.Pass? && (old(phase).WaitingForPlayersPhase? || old(phase).MinimumPlayersReachedPhase?) ==>
        forall q :: q in playerSessions ==> q.role == Crew
      ensures r.Pass? && !(old(phase).WaitingForPlayersPhase? || old(phase).MinimumPlayersReachedPhase?) ==>
        forall q :: q in playerSessions ==> q.role == old(q.role)
      ensures old(Valid()) && old(s.game) == null && old(availableColors) != [] ==> Valid()
    {
      if s.game != null {
        return Fail(AlreadyInGame);
      }
      ghost var wasValid := Valid();
      ghost var p := phase;
      ghost var pool := availableColors;
      playerSessions := playerSessions + [s];
      if |availableColors| == 0 {
        return Fail(NoAvailableColors);
      }
      Seat(s);
      if wasValid {
        assert Placed();
      }
      HandleJoin();
      if wasValid {
        JoinKeepsValid(old(seats), pool, p);
      }
      return Pass;
    }

    /** Seats `s` in this game with the pool's first colour. */
    method Seat(s: PlayerSession)
      requires availableColors != []
      modifies this`availableColors, this`seats, s`game, s`color
      ensures s.game == this && s.color == Some(old(availableColors)[0])
      ensures availableColors == old(availableColors)[1..] && seats == old(seats) + [old(availableColors)[0]]
    {
      s.SetGame(this);
      var color := availableColors[0];
      availableColors := availableColors[1..];
      s.SetColor(Some(color));
      seats := seats + [color];
    }

    /** The invariant after a seated join, given the pool and phase before it. */
    lemma JoinKeepsValid(seated: seq<Color>, pool: seq<Color>, p: Phase)
      requires Placed() && pool != []
      requires Palette(seated, pool)
      requires seats == seated + [pool[0]] && availableColors == pool[1..]
      requires PhaseConsistent(p, |playerSessions| - 1)
      requires phase == AfterJoin(p, |playerSessions|, |availableColors|)
      ensures Valid()
    {
      PaletteTake(seated, pool);
      JoinConsistent(p, |playerSessions| - 1, |availableColors|);
    }

    /**
     * Unseats `s`: refused when `s` is not seated in this game; otherwise it is
     * filtered out of the roster before its colour is looked at, so a colourless
     * session fails with the roster already filtered. A seated leave returns the
     * colour to the end of the pool and resets the session.
     */
    method Leave(s: PlayerSession) returns (r: Outcome<GameError>)
      modifies this, s
      ensures beats == old(beats) && s.role == old(s.role)
      ensures old(s.game) != this ==> r == Fail(NotInThisGame) && unchanged(this, s)
      ensures old(s.game) == this ==> playerSessions == Without(old(playerSessions), s)
      ensures old(s.game) == this && old(s.color).None? ==>
        r == Fail(NoColor) && availableColors == old(availableColors) && phase == old(phase) && unchanged(s)
      ensures old(s.game) == this && old(s.color).Some? ==>
        && r == Pass
        && availableColors == old(availableColors) + [old(s.color).value]
        && s.game == null && s.color == None
        && phase == AfterLeave(old(phase), |playerSessions|)
      ensures old(Seated()) && old(s in playerSessions) ==> r == Pass && Seated()
      ensures old(Seated()) && old(s in playerSessions) ==> seats == Cut(old(seats), Position(old(playerSessions), s))
      ensures old(Valid()) && old(Seated()) && old(s in playerSessions) ==> Valid()
    {
      if s.game != this {
        return Fail(NotInThisGame);
      }
      ghost var wasSeated := Seated() && s in playerSessions;
      ghost var wasValid := Valid() && wasSeated;
      ghost var k: nat := 0;
      if wasSeated {
        k := Position(playerSessions, s);
        WithoutAt(playerSessions, k);
        CutDistinct(playerSessions, k);
        CutMembers(playerSessions, k, s);
      }
      playerSessions := Without(playerSessions, s);
      if wasSeated {
        seats := Cut(seats, k);
        forall i | 0 <= i < |playerSessions|
          ensures playerSessions[i].game == this && playerSessions[i].color == Some(seats[i])
        {
          var j := if i < k then i else i + 1;
          assert playerSessions[i] == old(playerSessions)[j] && seats[i] == old(seats)[j];
        }
      }
      r := GiveBackColor(s);
      if wasValid {
        PaletteGive(old(seats), old(availableColors), k);
        LeaveConsistent(old(phase), |playerSessions|);
      }
    }

    /**
     * The second half of a leave, once `s` is off the roster: a colourless session
     * fails; otherwise its colour goes to the end of the pool, the session is reset
     * and the phase's leave handler runs.
     */
    method GiveBackColor(s: PlayerSession) returns (r: Outcome<GameError>)
      modifies this`availableColors, this`phase, s`game, s`color
      ensures old(s.color).None? ==> r == Fail(NoColor) && unchanged(this, s)
      ensures old(s.color).Some? ==>
        && r == Pass
        && availableColors == old(availableColors) + [old(s.color).value]
        && s.game == null && s.color == None
        && phase == AfterLeave(old(phase), |playerSessions|)
      ensures old(Placed()) && s !in playerSessions ==> Placed()
    {
      var color := s.color;
      if color.None? {
        return Fail(NoColor);
      }
      availableColors := availableColors + [color.value];
      s.Reset();
      HandleLeave();
      return Pass;
    }

    /** The first member of a seated roster leaves; the others keep their seats. */
    method LeaveFirst()
      requires Seated() && playerSessions != []
      modifies this, playerSessions[0]
      ensures Seated() && beats == old(beats) && playerSessions == old(playerSessions)[1..]
      ensures var s := old(playerSessions)[0]; s.game == null && s.color == None && s.role == old(s.role)
    {
      WithoutHead(playerSessions);
      var r := Leave(playerSessions[0]);
    }

    /**
     * Restart: every player present at the start leaves (each through the phase's
     * leave handler), then the roster is emptied, the pool refilled in factory
     * order and the waiting phase installed.
     */
    method Restart()
      requires Seated()
      modifies this, set q | q in playerSessions
      ensures beats == old(beats)
      ensures playerSessions == [] && availableColors == CreateColors() && phase == WaitingForPlayersPhase
      ensures Valid()
      ensures forall q :: q in old(playerSessions) ==> q.game == null && q.color == None && q.role == old(q.role)
    {
      var leaving := playerSessions;
      var i := 0;
      while i < |leaving|
        invariant 0 <= i <= |leaving|
        invariant playerSessions == leaving[i..]
        invariant Seated()
        invariant beats == old(beats)
        invariant forall j :: 0 <= j < i ==> leaving[j].game == null && leaving[j].color == None
        invariant forall q :: q in leaving ==> q.role == old(q.role)
      {
        LeaveFirst();
        assert leaving[i..][1..] == leaving[i + 1..];
        i := i + 1;
      }
      playerSessions := [];
      seats := [];
      availableColors := CreateColors();
      SetPhase(WaitingForPlayersPhase);
    }

    /**
     * The waiting phase's heartbeat: every candidate without a game is admitted,
     * in candidate order, while the pool has a colour left. Each admission is a
     * join, so the phase moves on at quorum and again once the pool is empty.
     */
    method PullPlayers(candidates: seq<PlayerSession>)
      requires Valid() && Distinct(candidates)
      modifies this, set q | q in Admitted(candidates, GameLess(candidates), |availableColors|)
      modifies (set q | q in playerSessions)`role
      ensures Valid() && beats == old(beats)
      ensures var a := Admitted(candidates, old(GameLess(candidates)), |old(availableColors)|);
        && playerSessions == old(playerSessions) + a
        && availableColors == old(availableColors)[|a|..]
        && seats == old(seats) + old(availableColors)[..|a|]
        && phase == AfterJoins(old(phase), |old(playerSessions)|, |old(availableColors)|, |a|)
      ensures forall q :: q in playerSessions ==> q in old(playerSessions) || q in candidates
    {
      ghost var free := GameLess(candidates);
      ghost var ps0, pool0, seats0, p0 := playerSessions, availableColors, seats, phase;
      ghost var all := Admitted(candidates, free, |pool0|);
      ghost var a: seq<PlayerSession> := [];
      PullingStarts(candidates, free);
      for i := 0 to |candidates|
        invariant Valid() && beats == old(beats)
        invariant Pulling(candidates, free, all, ps0, pool0, seats0, p0, i, a)
      {
        a := PullCandidate(candidates, i, free, all, ps0, pool0, seats0, p0, a);
      }
      PullingEnds(candidates, free, all, ps0, pool0, seats0, p0, a);
      forall q | q in all
        ensures q in candidates
      {
        AdmittedMembers(candidates, free, |pool0|, q);
      }
    }

    lemma PullingStarts(cs: seq<PlayerSession>, free: seq<bool>)
      requires free == GameLess(cs)
      ensures Pulling(cs, free, Admitted(cs, free, |availableColors|), playerSessions, availableColors, seats, phase, 0, [])
    {
      assert cs[..0] == [] && free[..0] == [];
    }

    lemma PullingEnds(cs: seq<PlayerSession>, free: seq<bool>, all: seq<PlayerSession>, ps0: seq<PlayerSession>,
                      pool0: seq<Color>, seats0: seq<Color>, p0: Phase, a: seq<PlayerSession>)
      requires Pulling(cs, free, all, ps0, pool0, seats0, p0, |cs|, a) && all == Admitted(cs, free, |pool0|)
      ensures playerSessions == ps0 + all && availableColors == pool0[|all|..]
      ensures seats == seats0 + pool0[..|all|] && phase == AfterJoins(p0, |ps0|, |pool0|, |all|)
    {
      assert cs[..|cs|] == cs && free[..|free|] == free;
    }

    /** The game has admitted `a` since its roster, pool, seats and phase were `ps0`, `pool0`, `seats0` and `p0`. */
    ghost predicate Admits(ps0: seq<PlayerSession>, pool0: seq<Color>, seats0: seq<Color>, p0: Phase,
                           a: seq<PlayerSession>)
      reads this`playerSessions, this`availableColors, this`seats, this`phase
    {
      && |a| <= |pool0| && playerSessions == ps0 + a && availableColors == pool0[|a|..]
      && seats == seats0 + pool0[..|a|] && phase == AfterJoins(p0, |ps0|, |pool0|, |a|)
    }

    /**
     * The waiting heartbeat has walked the first `i` candidates (`free` says which
     * were outside every game at the start) and admitted `a`, a prefix of `all`.
     */
    ghost predicate Pulling(cs: seq<PlayerSession>, free: seq<bool>, all: seq<PlayerSession>,
                            ps0: seq<PlayerSession>, pool0: seq<Color>, seats0: seq<Color>, p0: Phase,
                            i: nat, a: seq<PlayerSession>)
      reads this`playerSessions, this`availableColors, this`seats, this`phase
      reads set j | 0 <= j < |cs| :: cs[j]`game
    {
      && i <= |cs| == |free|
      && a == Admitted(cs[..i], free[..i], |pool0|) && a <= all
      && Admits(ps0, pool0, seats0, p0, a)
      && (forall j :: i <= j < |cs| ==> (free[j] <==> cs[j].game == null))
      && (forall q :: q in playerSessions ==> q in ps0 || q in all)
    }

    /** One step of the waiting heartbeat: the candidate joins when it is outside every game and a colour remains. */
    method PullCandidate(cs: seq<PlayerSession>, i: nat, ghost free: seq<bool>, ghost all: seq<PlayerSession>,
                         ghost ps0: seq<PlayerSession>, ghost pool0: seq<Color>, ghost seats0: seq<Color>,
                         ghost p0: Phase, ghost a: seq<PlayerSession>)
      returns (ghost b: seq<PlayerSession>)
      requires Valid() && Distinct(cs) && i < |cs| && |free| == |cs| && all == Admitted(cs, free, |pool0|)
      requires Pulling(cs, free, all, ps0, pool0, seats0, p0, i, a)
      modifies this, set q | q in all
      modifies (set q | q in ps0 + all)`role
      ensures Valid() && beats == old(beats)
      ensures Pulling(cs, free, all, ps0, pool0, seats0, p0, i + 1, b)
    {
      var c := cs[i];
      AdmitNext(cs, free, |pool0|, i, a, all);
      b := a;
      if c.game == null && |availableColors| > 0 {
        assert c !in playerSessions;
        ghost var p, pool := phase, availableColors;
        var r := Join(c);
        JoinStep(ps0, pool0, seats0, p0, a, c, pool, p, playerSessions, availableColors, seats, phase);
        b := a + [c];
      }
    }

    /**
     * The kick has walked the first `i` members of `leaving` (whose seats were
     * `worn`): `kept` and `ks` are the members passed over and their seats.
     */
    ghost predicate Kicking(leaving: seq<PlayerSession>, worn: seq<Color>, name: string, i: nat,
                            kept: seq<PlayerSession>, ks: seq<Color>)
      reads this`playerSessions, this`seats
    {
      && i <= |leaving| == |worn|
      && kept == Kept(leaving[..i], worn[..i], name) && ks == KeptSeats(worn[..i], name)
      && playerSessions == kept + leaving[i..] && seats == ks + worn[i..]
    }

    /** One member of the kick's walk leaves when its colour is called `name`. */
    method KickIfCalled(name: string, leaving: seq<PlayerSession>, ghost worn: seq<Color>, i: nat,
                        ghost kept: seq<PlayerSession>, ghost ks: seq<Color>)
      returns (ghost kept': seq<PlayerSession>, ghost ks': seq<Color>)
      requires Valid() && phase.EmergencyMeetingPhase? && i < |leaving|
      requires Kicking(leaving, worn, name, i, kept, ks)
      modifies this, leaving[i]
      ensures Valid() && beats == old(beats) && phase == old(phase)
      ensures Kicking(leaving, worn, name, i + 1, kept', ks')
    {
      var s := leaving[i];
      KickStep(leaving, worn, name, i, kept, ks);
      assert s.color == Some(worn[i]);
      if s.color.Some? && Name(s.color.value.colorType) == name {
        KickMember(s, |kept|);
        kept', ks' := kept, ks;
      } else {
        MoveAcross(kept, leaving, i);
        MoveAcross(ks, worn, i);
        kept', ks' := kept + [s], ks + [worn[i]];
      }
    }

    /** A voted-out member leaves the game; during a meeting the phase stays. */
    method KickMember(s: PlayerSession, ghost k: nat)
      requires Valid() && phase.EmergencyMeetingPhase?
      requires k < |playerSessions| && playerSessions[k] == s
      modifies this, s
      ensures Valid() && beats == old(beats) && phase == old(phase)
      ensures playerSessions == Cut(old(playerSessions), k) && seats == Cut(old(seats), k)
    {
      ValidSeated();
      WithoutAt(playerSessions, k);
      PositionAt(playerSessions, k);
      var r := Leave(s);
    }

    /**
     * The meeting's kick: every member present at the start whose colour is called
     * `name` leaves the game (a voted-out player stays in the world, outside any game).
     */
    method KickVotedOut(name: string)
      requires Valid() && phase.EmergencyMeetingPhase?
      modifies this, set q | q in playerSessions
      ensures Valid() && beats == old(beats)
      ensures playerSessions == Kept(old(playerSessions), old(seats), name)
      ensures seats == KeptSeats(old(seats), name)
      ensures phase == old(phase)
    {
      var leaving := playerSessions;
      ghost var worn := seats;
      ghost var kept, ks := [], [];
      for i := 0 to |leaving|
        invariant leaving == old(playerSessions) && worn == old(seats)
        invariant Valid() && beats == old(beats) && phase == old(phase)
        invariant Kicking(leaving, worn, name, i, kept, ks)
      {
        kept, ks := KickIfCalled(name, leaving, worn, i, kept, ks);
      }
      KickedAll(leaving, worn, name, kept, ks);
    }

    /** Once the kick has walked every member, the roster is the members passed over. */
    lemma KickedAll(leaving: seq<PlayerSession>, worn: seq<Color>, name: string,
                    kept: seq<PlayerSession>, ks: seq<Color>)
      requires Kicking(leaving, worn, name, |leaving|, kept, ks)
      ensures playerSessions == Kept(leaving, worn, name) && seats == KeptSeats(worn, name)
    {
      assert leaving[..|leaving|] == leaving && worn[..|leaving|] == worn;
    }

    /**
     * The meeting's resolution as the code runs it: the poll's most-voted list
     * decides the target, and the walk over the roster stops at the first member
     * wearing the voted-out colour, whose `YOU_WERE_VOTED_OUT` message is missing
     * from the English table and throws before anybody leaves. With no target, or
     * nobody wearing it, the game is in progress again.
     */
    method EndMeeting() returns (r: Outcome<MessageError>)
      requires Valid() && phase.EmergencyMeetingPhase?
      modifies this`phase
      ensures Valid()
      ensures var target := Winner(old(phase.poll.ballots));
        if target.Some? && Worn(seats, target.value)
        then r == Fail(TranslationNotFound(YOU_WERE_VOTED_OUT)) && phase == old(phase)
        else r == Pass && phase == InProgressPhase
    {
      var target := MeetingTarget();
      if target.Some? {
        var worn := Wears(target.value);
        if worn {
          // the wearer is teleported out, then `Message.t` fails on its message
          // (`MissingIdFails`, `PhaseIdsMissing`)
          return Fail(TranslationNotFound(YOU_WERE_VOTED_OUT));
        }
      }
      SetPhase(InProgressPhase);
      r := Pass;
    }

    /** The kick's walk over the roster, up to the first member whose colour is called `name`. */
    method Wears(name: string) returns (found: bool)
      requires Placed()
      ensures found <==> Worn(seats, name)
    {
      for i := 0 to |playerSessions|
        invariant forall j :: 0 <= j < i ==> Name(seats[j].colorType) != name
      {
        var s := playerSessions[i];
        assert s.color == Some(seats[i]);
        if s.color.Some? && Name(s.color.value.colorType) == name {
          return true;
        }
      }
      return false;
    }

    /**
     * The resolution the kick evidently intends: a single non-skip option kicks
     * every member wearing that colour, anything else kicks nobody; then the game
     * is in progress again.
     */
    method EndMeetingAsIntended()
      requires Valid() && phase.EmergencyMeetingPhase?
      modifies this, set q | q in playerSessions
      ensures Valid() && beats == old(beats) && phase == InProgressPhase
      ensures var target := Winner(old(phase.poll.ballots));
        && (target.Some? ==> playerSessions == Kept(old(playerSessions), old(seats), target.value)
                             && seats == KeptSeats(old(seats), target.value))
        && (target.None? ==> playerSessions == old(playerSessions) && seats == old(seats)
                             && availableColors == old(availableColors))
      ensures forall q :: q in playerSessions ==> q in old(playerSessions)
    {
      var target := MeetingTarget();
      KickIfVotedOut(target);
      assert Placed() && Palette(seats, availableColors);
      SetPhase(InProgressPhase);
    }

    /** The kick of a resolved meeting: the members wearing the voted-out colour, if any, leave. */
    method KickIfVotedOut(target: Option<string>)
      requires Valid() && phase.EmergencyMeetingPhase?
      modifies this, set q | q in playerSessions
      ensures Valid() && beats == old(beats) && phase == old(phase)
      ensures target.Some? ==> playerSessions == Kept(old(playerSessions), old(seats), target.value)
                               && seats == KeptSeats(old(seats), target.value)
      ensures target.None? ==> playerSessions == old(playerSessions) && seats == old(seats)
                               && availableColors == old(availableColors)
      ensures forall q :: q in playerSessions ==> q in old(playerSessions)
    {
      if target.Some? {
        ghost var ps0, seats0 := playerSessions, seats;
        KickVotedOut(target.value);
        KeptWithin(ps0, seats0, target.value);
      }
    }

    /** The colour the meeting's poll votes out, read off its most-voted list. */
    method MeetingTarget() returns (target: Option<string>)
      requires phase.EmergencyMeetingPhase?
      ensures target == Winner(phase.poll.ballots)
    {
      var options := phase.poll.MostVotedOptions();
      KickTargetIsWinner(phase.poll.ballots, options);
      target := KickTarget(options);
    }

    /** The first roster member's ballot in a meeting's poll, which picks its running feedback. */
    function FirstVote(): Option<string>
      reads this`playerSessions, this`phase
      reads if phase.EmergencyMeetingPhase? then {phase.poll} else {}
    {
      if phase.EmergencyMeetingPhase? && playerSessions != [] then
        VoteOf(phase.poll.ballots, playerSessions[0].player.username)
      else None
    }

    /**
     * One heartbeat of the current phase, except the ending phase's last one, which
     * needs matchmaking and is run by the game manager. The waiting phase pulls in
     * game-less candidates; a meeting on its last tick resolves its poll; every
     * other phase moves its counters on and then shows its feedback to the roster,
     * whose first message throws when the English table lacks it.
     */
    method Heartbeat(candidates: seq<PlayerSession>) returns (r: Outcome<MessageError>)
      requires Valid() && Distinct(candidates) && !Rotates(phase)
      modifies this, set q | q in Admitted(candidates, GameLess(candidates), |availableColors|)
      modifies set q | q in playerSessions
      ensures Valid() && beats == old(beats) + 1
      ensures old(phase).WaitingForPlayersPhase? ==>
        var a := Admitted(candidates, old(GameLess(candidates)), |old(availableColors)|);
        && r == Pass
        && playerSessions == old(playerSessions) + a
        && availableColors == old(availableColors)[|a|..]
        && phase == AfterJoins(old(phase), |old(playerSessions)|, |old(availableColors)|, |a|)
      ensures Resolves(old(phase)) ==>
        && playerSessions == old(playerSessions) && seats == old(seats) && availableColors == old(availableColors)
        && var target := Winner(old(phase.poll.ballots));
        if target.Some? && Worn(old(seats), target.value)
        then r == Fail(TranslationNotFound(YOU_WERE_VOTED_OUT)) && phase == Counted(old(phase))
        else r == Pass && phase == AfterHeartbeat(old(phase))
      ensures !old(phase).WaitingForPlayersPhase? && !Resolves(old(phase)) ==>
        && phase == AfterHeartbeat(old(phase))
        && playerSessions == old(playerSessions) && availableColors == old(availableColors)
        && r == if old(playerSessions) != [] && FeedbackThrows(old(phase), old(FirstVote()))
                then Fail(TranslationNotFound(Feedback(old(phase), old(FirstVote())).value)) else Pass
      ensures phase.EndingPhase? ==> old(phase).EndingPhase?
      ensures r.Fail? ==> playerSessions != [] && (phase.EmergencyMeetingPhase? || phase.EndingPhase?)
      ensures forall q :: q in playerSessions ==> q in old(playerSessions) || q in candidates
    {
      if phase.WaitingForPlayersPhase? {
        JoinsKeepEnding(phase, |playerSessions|, |availableColors|,
                        |Admitted(candidates, GameLess(candidates), |availableColors|)|);
        PullPlayers(candidates);
        r := Pass;
      } else if Resolves(phase) {
        HeartbeatConsistent(phase, |playerSessions|);
        SetPhase(Counted(phase));
        r := EndMeeting();
      } else {
        var said := Feedback(phase, FirstVote());
        HeartbeatConsistent(phase, |playerSessions|);
        SetPhase(AfterHeartbeat(phase));
        r := Pass;
        if playerSessions != [] && said.Some? && EnEn(said.value).None? {
          // `Message.t` fails on the first member's message, whatever its arguments
          // (`FeedbackTranslation`)
          FeedbackThrowsExactly(old(phase), old(FirstVote()));
          r := Fail(TranslationNotFound(said.value));
        }
      }
      beats := beats + 1;
    }

    /**
     * The rest of the ending phase's last heartbeat, once matchmaking has taken
     * every player elsewhere: the game waits for players again.
     */
    method FinishEnding()
      requires Valid() && playerSessions == [] && Rotates(phase)
      modifies this`phase, this`beats
      ensures Valid() && beats == old(beats) + 1
      ensures phase == AfterHeartbeat(old(phase)) && phase == WaitingForPlayersPhase
    {
      SetPhase(WaitingForPlayersPhase);
      beats := beats + 1;
    }
  }
}
