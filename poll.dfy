/** The ballot box of an emergency meeting (src/utils/Poll.ts). */
module Polls {

  import opened Wrappers
  import opened Sessions

  /** One voter's current choice. */
  datatype Ballot = Ballot(voter: string, option: string)

  datatype PollError = InvalidOption(option: string)

  /** The options of the ballots, in ballot order. */
  function OptionsOf(bs: seq<Ballot>): (r: seq<string>)
    ensures |r| == |bs|
    ensures forall i :: 0 <= i < |bs| ==> r[i] == bs[i].option
  {
    if bs == [] then [] else [bs[0].option] + OptionsOf(bs[1..])
  }

  /** The voters of the ballots, in ballot order. */
  function VotersOf(bs: seq<Ballot>): (r: seq<string>)
    ensures |r| == |bs|
    ensures forall i :: 0 <= i < |bs| ==> r[i] == bs[i].voter
  {
    if bs == [] then [] else [bs[0].voter] + VotersOf(bs[1..])
  }

  /** The option `voter` chose, if any (the ballots hold at most one per voter). */
  function VoteOf(bs: seq<Ballot>, voter: string): (r: Option<string>)
    ensures r.None? <==> voter !in VotersOf(bs)
    ensures r.Some? ==> Ballot(voter, r.value) in bs
  {
    if bs == [] then None
    else if bs[0].voter == voter then Some(bs[0].option)
    else VoteOf(bs[1..], voter)
  }

  /**
   * The ballots after `voter` chooses `option`, as `Map.set` does it: an existing
   * ballot of the voter is overwritten where it stands, otherwise one is appended.
   */
  function SetBallot(bs: seq<Ballot>, voter: string, option: string): seq<Ballot>
  {
    if bs == [] then [Ballot(voter, option)]
    else if bs[0].voter == voter then [Ballot(voter, option)] + bs[1..]
    else [bs[0]] + SetBallot(bs[1..], voter, option)
  }

  /** Number of ballots for `option`; defined from the back so that counting a prefix one more step is one unfolding. */
  function Count(bs: seq<Ballot>, option: string): (n: nat)
    ensures n <= |bs|
  {
    if bs == [] then 0
    else Count(bs[..|bs| - 1], option) + (if bs[|bs| - 1].option == option then 1 else 0)
  }

  /** `option` has a ballot and no option has more. */
  ghost predicate IsMostVoted(bs: seq<Ballot>, option: string)
  {
    option in OptionsOf(bs) && forall p :: Count(bs, p) <= Count(bs, option)
  }

  /** The distinct elements of `s` in order of first occurrence (the key order of a JS `Map` filled from `s`). */
  function Dedup(s: seq<string>): seq<string>
  {
    if s == [] then []
    else
      var d := Dedup(s[..|s| - 1]);
      if s[|s| - 1] in d then d else d + [s[|s| - 1]]
  }

  function Keys(tally: seq<(string, nat)>): (r: seq<string>)
    ensures |r| == |tally|
    ensures forall i :: 0 <= i < |tally| ==> r[i] == tally[i].0
  {
    seq(|tally|, i requires 0 <= i < |tally| => tally[i].0)
  }

  class Poll {
    const options: seq<string>
    /** `_voters`: one ballot per username, in the map's insertion order. */
    var ballots: seq<Ballot>

    ghost predicate Valid()
      reads this
    {
      && Distinct(VotersOf(ballots))
      && (forall i :: 0 <= i < |ballots| ==> ballots[i].option in options)
    }

    constructor (options: seq<string>)
      ensures this.options == options && ballots == [] && Valid()
    {
      this.options := options;
      ballots := [];
    }

    /** Whether the session's username has a ballot. */
    function HasVoted(voter: PlayerSession): (r: bool)
      reads this
      ensures r <==> voter.player.username in VotersOf(ballots)
    {
      VoteOf(ballots, voter.player.username).Some?
    }

    /** The option the session's username chose, if any. */
    function GetVotedOption(voter: PlayerSession): (r: Option<string>)
      reads this
      ensures r.Some? <==> HasVoted(voter)
      ensures r.Some? ==> Ballot(voter.player.username, r.value) in ballots
    {
      VoteOf(ballots, voter.player.username)
    }

    /** Records the choice; an option outside the poll's options is refused and nothing changes. */
    method Vote(voter: PlayerSession, option: string) returns (r: Outcome<PollError>)
      requires Valid()
      modifies this
      ensures Valid()
      ensures r.Fail? <==> option !in options
      ensures r.Fail? ==> r.error == InvalidOption(option) && ballots == old(ballots)
      ensures r.Pass? ==> ballots == SetBallot(old(ballots), voter.player.username, option)
    {
      if option !in options {
        return Fail(InvalidOption(option));
      }
      SetBallotDistinct(ballots, voter.player.username, option);
      SetBallotOptions(ballots, voter.player.username, option, options);
      ballots := SetBallot(ballots, voter.player.username, option);
      return Pass;
    }

    /**
     * Counts the ballots per option. The options come in order of their first
     * ballot and each carries the number of ballots for it.
     */
    method OptionsWithNumberOfVotes() returns (tally: seq<(string, nat)>)
      ensures Keys(tally) == Dedup(OptionsOf(ballots))
      ensures forall i :: 0 <= i < |tally| ==> tally[i].1 == Count(ballots, tally[i].0)
      ensures Total(tally) == |ballots|
    {
      tally := [];
      var i := 0;
      while i < |ballots|
        invariant 0 <= i <= |ballots|
        invariant Keys(tally) == Dedup(OptionsOf(ballots[..i]))
        invariant forall j :: 0 <= j < |tally| ==> tally[j].1 == Count(ballots[..i], tally[j].0)
        invariant Total(tally) == i
      {
        assert ballots[..i + 1] == ballots[..i] + [ballots[i]];
        BumpCounts(tally, ballots[..i], ballots[i]);
        BumpTotal(tally, ballots[i].option);
        tally := Bump(tally, ballots[i].option);
        i := i + 1;
      }
      assert ballots[..i] == ballots;
    }

    /**
     * The options that received the most ballots, in tally order; empty exactly
     * when nobody has voted.
     */
    method MostVotedOptions() returns (r: seq<string>)
      ensures Distinct(r)
      ensures forall o :: o in r <==> IsMostVoted(ballots, o)
      ensures r == [] <==> ballots == []
      ensures Valid() ==> forall o :: o in r ==> o in options
    {
      var tally := OptionsWithNumberOfVotes();
      var maxVotes, top := HighestCount(tally);
      r := KeysWithCount(tally, maxVotes);
      assert Distinct(r) && (r == [] <==> ballots == []) && forall o :: o in r <==> IsMostVoted(ballots, o) by {
        MostVoted(ballots, tally, maxVotes, top);
      }
      if Valid() {
        OptionsListed(ballots, options);
      }
    }
  }

  /** The highest count of the tally, 0 for an empty one; `top` is where it occurs. */
  method HighestCount(tally: seq<(string, nat)>) returns (maxVotes: nat, ghost top: nat)
    ensures forall j :: 0 <= j < |tally| ==> tally[j].1 <= maxVotes
    ensures maxVotes == 0 || (top < |tally| && tally[top].1 == maxVotes)
  {
    maxVotes, top := 0, 0;
    for i := 0 to |tally|
      invariant forall j :: 0 <= j < i ==> tally[j].1 <= maxVotes
      invariant maxVotes == 0 || (top < i && tally[top].1 == maxVotes)
    {
      if tally[i].1 > maxVotes {
        maxVotes, top := tally[i].1, i;
      }
    }
  }

  /** The keys whose count is `max`, in tally order. */
  method KeysWithCount(tally: seq<(string, nat)>, max: nat) returns (r: seq<string>)
    ensures r == MaxKeys(tally, max)
  {
    r := [];
    for i := 0 to |tally|
      invariant r == MaxKeys(tally[..i], max)
    {
      assert tally[..i + 1] == tally[..i] + [tally[i]];
      MaxKeysSnoc(tally[..i], tally[i], max);
      if tally[i].1 == max {
        r := r + [tally[i].0];
      }
    }
    assert tally[..|tally|] == tally;
  }

  lemma OptionsListed(bs: seq<Ballot>, options: seq<string>)
    requires forall i :: 0 <= i < |bs| ==> bs[i].option in options
    ensures forall o :: o in OptionsOf(bs) ==> o in options
  {
    forall o | o in OptionsOf(bs) ensures o in options {
      var k :| 0 <= k < |bs| && OptionsOf(bs)[k] == o;
    }
  }

  /** `voteCounts.set(option, (voteCounts.get(option) || 0) + 1)`. */
  function Bump(tally: seq<(string, nat)>, option: string): seq<(string, nat)>
  {
    var k := Position(Keys(tally), option);
    if k < |tally| then tally[k := (option, tally[k].1 + 1)] else tally + [(option, 1)]
  }

  /** The sum of the tally's counts. */
  function Total(tally: seq<(string, nat)>): nat
  {
    if tally == [] then 0 else Total(tally[..|tally| - 1]) + tally[|tally| - 1].1
  }

  /** The tally the counting loop builds: one `Bump` per ballot, in ballot order. */
  function Tally(bs: seq<Ballot>): seq<(string, nat)>
  {
    if bs == [] then [] else Bump(Tally(bs[..|bs| - 1]), bs[|bs| - 1].option)
  }

  /** Raising one count by one raises the sum by one. */
  lemma {:induction false} TotalUpdate(tally: seq<(string, nat)>, k: nat, o: string)
    requires k < |tally|
    ensures Total(tally[k := (o, tally[k].1 + 1)]) == Total(tally) + 1
    decreases |tally|
  {
    var n := |tally| - 1;
    var t := tally[k := (o, tally[k].1 + 1)];
    if k < n {
      assert t[..n] == tally[..n][k := (o, tally[k].1 + 1)];
      TotalUpdate(tally[..n], k, o);
    } else {
      assert t[..n] == tally[..n];
    }
  }

  /** Each counting step adds exactly one ballot to the sum. */
  lemma BumpTotal(tally: seq<(string, nat)>, option: string)
    ensures Total(Bump(tally, option)) == Total(tally) + 1
  {
    var k := Position(Keys(tally), option);
    if k < |tally| {
      TotalUpdate(tally, k, option);
    } else {
      assert (tally + [(option, 1)])[..|tally|] == tally;
    }
  }

  /** The folded tally is exact and its counts add up to the number of ballots. */
  lemma {:induction false} TallyExact(bs: seq<Ballot>)
    ensures Keys(Tally(bs)) == Dedup(OptionsOf(bs))
    ensures forall i :: 0 <= i < |Tally(bs)| ==> Tally(bs)[i].1 == Count(bs, Tally(bs)[i].0)
    ensures Total(Tally(bs)) == |bs|
    decreases |bs|
  {
    if bs != [] {
      var front, b := bs[..|bs| - 1], bs[|bs| - 1];
      assert bs == front + [b];
      TallyExact(front);
      BumpCounts(Tally(front), front, b);
      BumpTotal(Tally(front), b.option);
    }
  }

  /**
   * The counts of an exact tally add up to the number of ballots, which is the
   * number of distinct voters when every voter has one ballot.
   */
  lemma TallySum(bs: seq<Ballot>, tally: seq<(string, nat)>)
    requires Keys(tally) == Dedup(OptionsOf(bs))
    requires forall i :: 0 <= i < |tally| ==> tally[i].1 == Count(bs, tally[i].0)
    ensures Total(tally) == |bs|
    ensures Distinct(VotersOf(bs)) ==> Total(tally) == |Dedup(VotersOf(bs))|
  {
    TallyExact(bs);
    var t := Tally(bs);
    assert |tally| == |t|;
    forall i | 0 <= i < |tally| ensures tally[i] == t[i] {
      assert Keys(tally)[i] == Keys(t)[i];
    }
    assert tally == t;
    if Distinct(VotersOf(bs)) {
      DedupDistinctSame(VotersOf(bs));
    }
  }

  /** A sequence without repeats is its own `Dedup`. */
  lemma {:induction false} DedupDistinctSame(s: seq<string>)
    requires Distinct(s)
    ensures Dedup(s) == s
    decreases |s|
  {
    if s != [] {
      var n := |s| - 1;
      assert Distinct(s[..n]);
      DedupDistinctSame(s[..n]);
      DedupMembers(s[..n]);
      assert s == s[..n] + [s[n]];
    }
  }

  /** The keys of `tally` whose count is `max`, in tally order. */
  function MaxKeys(tally: seq<(string, nat)>, max: nat): seq<string>
  {
    if tally == [] then []
    else
      var t := tally[|tally| - 1];
      MaxKeys(tally[..|tally| - 1], max) + (if t.1 == max then [t.0] else [])
  }

  lemma MaxKeysSnoc(tally: seq<(string, nat)>, t: (string, nat), max: nat)
    ensures MaxKeys(tally + [t], max) == MaxKeys(tally, max) + (if t.1 == max then [t.0] else [])
  {
    assert (tally + [t])[..|tally|] == tally;
  }

  lemma {:induction false} MaxKeysMembers(tally: seq<(string, nat)>, max: nat)
    ensures forall o :: o in MaxKeys(tally, max) <==> exists j :: 0 <= j < |tally| && tally[j] == (o, max)
    ensures Distinct(Keys(tally)) ==> Distinct(MaxKeys(tally, max))
    decreases |tally|
  {
    if tally != [] {
      var n := |tally| - 1;
      var front := tally[..n];
      MaxKeysMembers(front, max);
      assert forall j :: 0 <= j < n ==> front[j] == tally[j];
      assert Keys(front) == Keys(tally)[..n];
      if Distinct(Keys(tally)) && tally[n].1 == max {
        assert tally[n].0 !in MaxKeys(front, max);
        DistinctSnoc(MaxKeys(front, max), tally[n].0);
      }
    }
  }

  lemma DistinctSnoc<T>(s: seq<T>, x: T)
    requires Distinct(s) && x !in s
    ensures Distinct(s + [x])
  {
  }

  lemma CountSnoc(bs: seq<Ballot>, b: Ballot, option: string)
    ensures Count(bs + [b], option) == Count(bs, option) + (if b.option == option then 1 else 0)
  {
    assert (bs + [b])[..|bs|] == bs;
  }

  lemma DedupSnoc(s: seq<string>, x: string)
    ensures Dedup(s + [x]) == if x in Dedup(s) then Dedup(s) else Dedup(s) + [x]
  {
    assert (s + [x])[..|s|] == s;
  }

  /** One more ballot bumps its option and keeps the tally's keys in first-ballot order. */
  lemma BumpKeys(tally: seq<(string, nat)>, bs: seq<Ballot>, b: Ballot)
    requires Keys(tally) == Dedup(OptionsOf(bs))
    ensures Keys(Bump(tally, b.option)) == Dedup(OptionsOf(bs + [b]))
  {
    assert OptionsOf(bs + [b]) == OptionsOf(bs) + [b.option];
    DedupSnoc(OptionsOf(bs), b.option);
    var k := Position(Keys(tally), b.option);
    if k < |tally| {
      assert Keys(Bump(tally, b.option)) == Keys(tally);
    } else {
      assert Keys(Bump(tally, b.option)) == Keys(tally) + [b.option];
    }
  }

  /** One more ballot bumps its option and keeps every count exact. */
  lemma BumpCounts(tally: seq<(string, nat)>, bs: seq<Ballot>, b: Ballot)
    requires Keys(tally) == Dedup(OptionsOf(bs))
    requires forall j :: 0 <= j < |tally| ==> tally[j].1 == Count(bs, tally[j].0)
    ensures Keys(Bump(tally, b.option)) == Dedup(OptionsOf(bs + [b]))
    ensures forall j :: 0 <= j < |Bump(tally, b.option)| ==> Bump(tally, b.option)[j].1 == Count(bs + [b], Bump(tally, b.option)[j].0)
  {
    BumpKeys(tally, bs, b);
    DedupDistinct(OptionsOf(bs));
    CountAbsentMember(bs, b.option, tally);
    var t := Bump(tally, b.option);
    var k := Position(Keys(tally), b.option);
    forall j | 0 <= j < |t| ensures t[j].1 == Count(bs + [b], t[j].0) {
      CountSnoc(bs, b, t[j].0);
      if j < |tally| && j != k {
        assert k == |tally| || Keys(tally)[j] != Keys(tally)[k];
      }
    }
  }

  /** An option that is not a key of the tally has no ballots yet. */
  lemma CountAbsentMember(bs: seq<Ballot>, option: string, tally: seq<(string, nat)>)
    requires Keys(tally) == Dedup(OptionsOf(bs))
    ensures option !in Keys(tally) ==> Count(bs, option) == 0
  {
    DedupMembers(OptionsOf(bs));
    if option !in Keys(tally) {
      CountAbsent(bs, option);
    }
  }

  /** Every key of an exact tally has at least one ballot. */
  lemma TallyPositive(bs: seq<Ballot>, tally: seq<(string, nat)>)
    requires Keys(tally) == Dedup(OptionsOf(bs))
    requires forall i :: 0 <= i < |tally| ==> tally[i].1 == Count(bs, tally[i].0)
    ensures forall j :: 0 <= j < |tally| ==> tally[j].1 >= 1
  {
    DedupMembers(OptionsOf(bs));
    forall j | 0 <= j < |tally| ensures tally[j].1 >= 1 {
      assert Keys(tally)[j] in OptionsOf(bs);
      CountPresent(bs, tally[j].0);
    }
  }

  /** The tally's maximum bounds the count of every option, listed or not. */
  lemma TallyBounds(bs: seq<Ballot>, tally: seq<(string, nat)>, maxVotes: nat)
    requires Keys(tally) == Dedup(OptionsOf(bs))
    requires forall i :: 0 <= i < |tally| ==> tally[i].1 == Count(bs, tally[i].0)
    requires forall j :: 0 <= j < |tally| ==> tally[j].1 <= maxVotes
    ensures forall p :: Count(bs, p) <= maxVotes
  {
    DedupMembers(OptionsOf(bs));
    forall p ensures Count(bs, p) <= maxVotes {
      if p in OptionsOf(bs) {
        var k := Position(Keys(tally), p);
      } else {
        CountAbsent(bs, p);
      }
    }
  }

  /** From an exact tally and its maximum, the maximal keys are exactly the most voted options. */
  lemma MostVoted(bs: seq<Ballot>, tally: seq<(string, nat)>, maxVotes: nat, top: nat)
    requires Keys(tally) == Dedup(OptionsOf(bs))
    requires forall i :: 0 <= i < |tally| ==> tally[i].1 == Count(bs, tally[i].0)
    requires forall j :: 0 <= j < |tally| ==> tally[j].1 <= maxVotes
    requires maxVotes == 0 || (top < |tally| && tally[top].1 == maxVotes)
    ensures Distinct(MaxKeys(tally, maxVotes))
    ensures forall o :: o in MaxKeys(tally, maxVotes) <==> IsMostVoted(bs, o)
    ensures MaxKeys(tally, maxVotes) == [] <==> bs == []
  {
    var r := MaxKeys(tally, maxVotes);
    DedupMembers(OptionsOf(bs));
    DedupDistinct(OptionsOf(bs));
    MaxKeysMembers(tally, maxVotes);
    TallyBounds(bs, tally, maxVotes);
    TallyPositive(bs, tally);
    forall o | o in r ensures IsMostVoted(bs, o) {
      var j :| 0 <= j < |tally| && tally[j] == (o, maxVotes);
      assert Keys(tally)[j] == o;
    }
    forall o | IsMostVoted(bs, o) ensures o in r {
      MostVotedIsMax(bs, tally, maxVotes, top, o);
    }
    if bs != [] {
      assert OptionsOf(bs)[0] in OptionsOf(bs);
      assert Keys(tally)[0] in OptionsOf(bs);
      assert tally[top] == (tally[top].0, maxVotes);
    }
  }

  lemma MostVotedIsMax(bs: seq<Ballot>, tally: seq<(string, nat)>, maxVotes: nat, top: nat, o: string)
    requires Keys(tally) == Dedup(OptionsOf(bs))
    requires forall i :: 0 <= i < |tally| ==> tally[i].1 == Count(bs, tally[i].0)
    requires maxVotes == 0 || (top < |tally| && tally[top].1 == maxVotes)
    requires forall j :: 0 <= j < |tally| ==> tally[j].1 <= maxVotes
    requires forall j :: 0 <= j < |tally| ==> tally[j].1 >= 1
    requires IsMostVoted(bs, o)
    ensures exists j :: 0 <= j < |tally| && tally[j] == (o, maxVotes)
  {
    DedupMembers(OptionsOf(bs));
    assert o in Keys(tally);
    var k := Position(Keys(tally), o);
    assert Keys(tally)[k] == o;
    var n := tally[k].1;
    assert n == Count(bs, o);
    assert 1 <= n <= maxVotes;
    var p := tally[top].0;
    assert maxVotes == Count(bs, p);
    assert Count(bs, p) <= Count(bs, o);
    assert tally[k] == (o, maxVotes);
  }

  lemma {:induction false} DedupMembers(s: seq<string>)
    ensures forall x :: x in Dedup(s) <==> x in s
    decreases |s|
  {
    if s != [] {
      DedupMembers(s[..|s| - 1]);
      assert s == s[..|s| - 1] + [s[|s| - 1]];
    }
  }

  lemma {:induction false} DedupDistinct(s: seq<string>)
    ensures Distinct(Dedup(s))
    decreases |s|
  {
    if s != [] {
      DedupDistinct(s[..|s| - 1]);
    }
  }

  lemma {:induction false} CountAbsent(bs: seq<Ballot>, option: string)
    requires option !in OptionsOf(bs)
    ensures Count(bs, option) == 0
    decreases |bs|
  {
    if bs != [] {
      assert OptionsOf(bs[..|bs| - 1]) == OptionsOf(bs)[..|bs| - 1];
      CountAbsent(bs[..|bs| - 1], option);
    }
  }

  lemma {:induction false} CountPresent(bs: seq<Ballot>, option: string)
    requires option in OptionsOf(bs)
    ensures Count(bs, option) >= 1
    decreases |bs|
  {
    if bs[|bs| - 1].option != option {
      assert OptionsOf(bs[..|bs| - 1]) == OptionsOf(bs)[..|bs| - 1];
      assert option in OptionsOf(bs[..|bs| - 1]);
      CountPresent(bs[..|bs| - 1], option);
    }
  }

  /** Setting a ballot adds the voter and no one else. */
  lemma {:induction false} SetBallotVoters(bs: seq<Ballot>, voter: string, option: string)
    ensures forall v :: v in VotersOf(SetBallot(bs, voter, option)) <==> v in VotersOf(bs) || v == voter
  {
    if bs != [] && bs[0].voter != voter {
      assert VotersOf(bs) == [bs[0].voter] + VotersOf(bs[1..]);
      SetBallotVoters(bs[1..], voter, option);
      assert VotersOf(SetBallot(bs, voter, option)) == [bs[0].voter] + VotersOf(SetBallot(bs[1..], voter, option));
    } else if bs != [] {
      assert VotersOf(bs) == [bs[0].voter] + VotersOf(bs[1..]);
      assert VotersOf(SetBallot(bs, voter, option)) == [voter] + VotersOf(bs[1..]);
    }
  }

  /** Setting a ballot keeps one ballot per voter. */
  lemma {:induction false} SetBallotDistinct(bs: seq<Ballot>, voter: string, option: string)
    requires Distinct(VotersOf(bs))
    ensures Distinct(VotersOf(SetBallot(bs, voter, option)))
  {
    if bs != [] {
      assert VotersOf(bs) == [bs[0].voter] + VotersOf(bs[1..]);
      DistinctCons(bs[0].voter, VotersOf(bs[1..]));
      if bs[0].voter != voter {
        SetBallotDistinct(bs[1..], voter, option);
        SetBallotVoters(bs[1..], voter, option);
        assert VotersOf(SetBallot(bs, voter, option)) == [bs[0].voter] + VotersOf(SetBallot(bs[1..], voter, option));
        DistinctCons(bs[0].voter, VotersOf(SetBallot(bs[1..], voter, option)));
      } else {
        assert VotersOf(SetBallot(bs, voter, option)) == [voter] + VotersOf(bs[1..]);
      }
    }
  }

  /** Setting a ballot for a listed option keeps every ballot on a listed option. */
  lemma {:induction false} SetBallotOptions(bs: seq<Ballot>, voter: string, option: string, options: seq<string>)
    requires forall i :: 0 <= i < |bs| ==> bs[i].option in options
    requires option in options
    ensures forall b :: b in SetBallot(bs, voter, option) ==> b.option in options
  {
    if bs != [] && bs[0].voter != voter {
      SetBallotOptions(bs[1..], voter, option, options);
    }
  }

  /** After a vote the voter's choice is the new option and every other voter's choice is as before. */
  lemma {:induction false} SetBallotVoteOf(bs: seq<Ballot>, voter: string, option: string, other: string)
    ensures VoteOf(SetBallot(bs, voter, option), voter) == Some(option)
    ensures other != voter ==> VoteOf(SetBallot(bs, voter, option), other) == VoteOf(bs, other)
  {
    if bs != [] && bs[0].voter != voter {
      SetBallotVoteOf(bs[1..], voter, option, other);
    }
  }

  /** A first vote adds one ballot; a changed vote keeps the number of ballots. */
  lemma {:induction false} SetBallotLength(bs: seq<Ballot>, voter: string, option: string)
    ensures |SetBallot(bs, voter, option)| == |bs| + (if VoteOf(bs, voter).None? then 1 else 0)
  {
    if bs != [] && bs[0].voter != voter {
      SetBallotLength(bs[1..], voter, option);
    }
  }

  /** Voting the same way twice is the same as voting once. */
  lemma {:induction false} SetBallotIdempotent(bs: seq<Ballot>, voter: string, option: string)
    ensures SetBallot(SetBallot(bs, voter, option), voter, option) == SetBallot(bs, voter, option)
  {
    if bs != [] && bs[0].voter != voter {
      SetBallotIdempotent(bs[1..], voter, option);
    }
  }
}
