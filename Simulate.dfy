/** The polling-place simulation (simulate.py): voters, the voter generator,
    a precinct whose booths are a bounded priority queue of departure times,
    the day's simulation and the search for a number of booths.  Times are
    minutes, as reals; the random gaps and voting durations of
    util.gen_poisson_voter_parameters are inputs. */
module Simulate {
  import opened Wrappers

  predicate Sorted(q: seq<real>) {
    forall i, j :: 0 <= i < j < |q| ==> q[i] <= q[j]
  }

  /** The queue of departure times after put(x), kept in ascending order:
      get() always returns the earliest. */
  function Insert(q: seq<real>, x: real): (r: seq<real>)
    ensures |r| == |q| + 1
  {
    if |q| == 0 || x <= q[0] then [x] + q
    else [q[0]] + Insert(q[1..], x)
  }

  /** put adds exactly x to the queue. */
  lemma {:induction false} InsertContents(q: seq<real>, x: real)
    ensures multiset(Insert(q, x)) == multiset(q) + multiset{x}
  {
    if |q| > 0 && x > q[0] {
      InsertContents(q[1..], x);
      assert q == [q[0]] + q[1..];
    }
  }

  /** Every element of the queue after put(x) is x or was already queued. */
  lemma InsertFrom(q: seq<real>, x: real, i: nat)
    requires i < |Insert(q, x)|
    ensures Insert(q, x)[i] in q || Insert(q, x)[i] == x
  {
    InsertContents(q, x);
    assert Insert(q, x)[i] in multiset(Insert(q, x));
  }

  /** put keeps the queue in order. */
  lemma {:induction false} InsertSorted(q: seq<real>, x: real)
    requires Sorted(q)
    ensures Sorted(Insert(q, x))
  {
    var r := Insert(q, x);
    if |q| > 0 && x > q[0] {
      var rest := Insert(q[1..], x);
      InsertSorted(q[1..], x);
      assert r == [q[0]] + rest;
      forall i, j | 0 <= i < j < |r|
        ensures r[i] <= r[j]
      {
        if i == 0 {
          InsertFrom(q[1..], x, j - 1);
          if rest[j - 1] != x {
            var k :| 0 <= k < |q[1..]| && q[1..][k] == rest[j - 1];
            assert q[k + 1] == rest[j - 1];
          }
        } else {
          assert r[i] == rest[i - 1] && r[j] == rest[j - 1];
        }
      }
    } else {
      assert r == [x] + q;
      forall i, j | 0 <= i < j < |r|
        ensures r[i] <= r[j]
      {
        assert r[j] == q[j - 1];
        if i > 0 {
          assert r[i] == q[i - 1];
        }
      }
    }
  }

  class Voter {
    const arrival: real
    const duration: real
    var start: Option<real>
    var departure: Option<real>

    /** Voter(arrival_time, voting_duration): start and departure unset. */
    constructor (arrival: real, duration: real)
      ensures this.arrival == arrival && this.duration == duration
      ensures start.None? && departure.None?
    {
      this.arrival := arrival;
      this.duration := duration;
      start := None;
      departure := None;
    }
  }

  class VoterGenerator {
    const numVoters: nat
    var currentTime: real
    var votersGenerated: nat

    constructor (numVoters: nat)
      ensures this.numVoters == numVoters && currentTime == 0.0 && votersGenerated == 0
    {
      this.numVoters := numVoters;
      currentTime := 0.0;
      votersGenerated := 0;
    }

    /** next_voter(), given the gap and voting duration drawn for it: None
        once num_voters voters are out, otherwise a voter arriving gap
        minutes after the previous one. */
    method NextVoter(gap: real, duration: real) returns (v: Voter?)
      modifies this
      ensures old(votersGenerated) >= numVoters ==>
        v == null && currentTime == old(currentTime) && votersGenerated == old(votersGenerated)
      ensures old(votersGenerated) < numVoters ==>
        v != null && fresh(v) && currentTime == old(currentTime) + gap
        && votersGenerated == old(votersGenerated) + 1
        && v.arrival == currentTime && v.duration == duration
        && v.start.None? && v.departure.None?
    {
      if votersGenerated >= numVoters {
        return null;
      }
      currentTime := currentTime + gap;
      v := new Voter(currentTime, duration);
      votersGenerated := votersGenerated + 1;
    }
  }

  class Precinct {
    const name: string
    const numBooths: nat
    const minutesOpen: real
    /** The departure times in the PriorityQueue(num_booths), ascending. */
    var booths: seq<real>

    ghost predicate Valid()
      reads this
    {
      1 <= numBooths && |booths| <= numBooths && Sorted(booths)
    }

    constructor (name: string, hoursOpen: real, numBooths: nat)
      requires numBooths >= 1
      ensures Valid() && booths == []
      ensures this.name == name && this.numBooths == numBooths && minutesOpen == hoursOpen * 60.0
    {
      this.name := name;
      this.numBooths := numBooths;
      minutesOpen := hoursOpen * 60.0;
      booths := [];
    }

    /** add_voter: put the voter's departure time; the queue has room. */
    method AddVoter(voter: Voter)
      requires Valid() && |booths| < numBooths && voter.departure.Some?
      modifies this
      ensures Valid() && booths == Insert(old(booths), voter.departure.value)
    {
      InsertSorted(booths, voter.departure.value);
      booths := Insert(booths, voter.departure.value);
    }

    /** remove_voter: get the earliest departure time. */
    method RemoveVoter() returns (d: real)
      requires Valid() && |booths| > 0
      modifies this
      ensures Valid() && booths == old(booths)[1..] && d == old(booths)[0]
      ensures d in old(booths) && forall x :: x in old(booths) ==> d <= x
      ensures multiset(old(booths)) == multiset(booths) + multiset{d}
    {
      d := booths[0];
      assert booths == [d] + booths[1..];
      booths := booths[1..];
    }

    /** size_check: the number of voters in the booths. */
    function SizeCheck(): nat
      reads this
    {
      |booths|
    }

    /** simulate_precinct(voter).  A missing voter or one arriving after
        closing time is turned away and nothing changes.  Otherwise the voter
        starts as Admit says, and its departure time joins the queue. */
    method SimulatePrecinct(voter: Voter?) returns (accepted: bool)
      requires Valid()
      modifies this, voter
      ensures Valid()
      ensures accepted <==> voter != null && voter.arrival <= minutesOpen
      ensures !accepted ==> booths == old(booths) && (voter != null ==> unchanged(voter))
      ensures accepted ==>
        var start := Admit(old(booths), numBooths, voter.arrival).0;
        voter.start == Some(start) && voter.departure == Some(start + voter.duration)
        && booths == Admitted(old(booths), numBooths, voter.arrival, voter.duration)
    {
      if voter == null {
        return false;
      }
      if voter.arrival <= minutesOpen {
        var start: real;
        if SizeCheck() < numBooths {
          start := voter.arrival;
        } else {
          var departing := RemoveVoter();
          if voter.arrival > departing {
            start := voter.arrival;
          } else {
            start := departing;
          }
        }
        ghost var rest := booths;
        assert Admit(old(booths), numBooths, voter.arrival) == (start, rest);
        var departure := start + voter.duration;
        voter.start := Some(start);
        voter.departure := Some(departure);
        AddVoter(voter);
        assert booths == Insert(rest, departure);
        return true;
      }
      return false;
    }
  }

  /** The start time of a voter arriving at a precinct whose booths hold the
      departure times q, and the queue left before its own departure joins:
      with a free booth it starts on arrival, otherwise the earliest
      departure leaves and it starts at the later of the two. */
  function Admit(q: seq<real>, numBooths: nat, arrival: real): (real, seq<real>)
    requires |q| <= numBooths && 1 <= numBooths
  {
    if |q| < numBooths then (arrival, q)
    else (if arrival > q[0] then arrival else q[0], q[1..])
  }

  /** No voter starts before arriving.  One who finds a free booth starts
      at once.  One who finds them all taken either starts on arrival, a booth
      having been freed by then, or waits exactly until the earliest
      departure; that departure leaves the queue. */
  lemma AdmitStart(q: seq<real>, numBooths: nat, arrival: real)
    requires |q| <= numBooths && 1 <= numBooths && Sorted(q)
    ensures var (start, rest) := Admit(q, numBooths, arrival);
      start >= arrival
      && (|q| < numBooths ==> start == arrival && rest == q)
      && (|q| == numBooths ==>
            (start > arrival ==> start in q && forall x :: x in q ==> start <= x)
            && (start == arrival ==> exists x :: x in q && x <= arrival)
            && multiset(q) == multiset(rest) + multiset{q[0]})
  {
    if |q| == numBooths {
      assert q == [q[0]] + q[1..];
      assert q[0] in q;
    }
  }

  /** The arrival time of voter k (from 0): the sum of the gaps up to it. */
  function ArrivalTime(draws: seq<(real, real)>, k: nat): real
    requires k < |draws|
  {
    if k == 0 then draws[0].0 else ArrivalTime(draws, k - 1) + draws[k].0
  }

  /** The fields of a precinct dictionary that the simulation reads. */
  datatype PrecinctInfo = PrecinctInfo(name: string, hoursOpen: real, numBooths: nat, numVoters: nat)

  /** The booths after a voter arriving at arrival and voting for duration
      minutes is admitted: Admit's queue with its departure put back in. */
  function Admitted(q: seq<real>, numBooths: nat, arrival: real, duration: real): (r: seq<real>)
    requires |q| <= numBooths && 1 <= numBooths
    ensures |r| <= numBooths
  {
    var admitted := Admit(q, numBooths, arrival);
    Insert(admitted.1, admitted.0 + duration)
  }

  /** The departure times in the booths once the first k voters of the
      draws have all been admitted. */
  ghost function QueueAfter(draws: seq<(real, real)>, k: nat, numBooths: nat): (q: seq<real>)
    requires k <= |draws| && 1 <= numBooths
    ensures |q| <= numBooths
  {
    if k == 0 then []
    else Admitted(QueueAfter(draws, k - 1, numBooths), numBooths, ArrivalTime(draws, k - 1), draws[k - 1].1)
  }

  lemma QueueAfterStep(draws: seq<(real, real)>, k: nat, numBooths: nat)
    requires k < |draws| && 1 <= numBooths
    ensures QueueAfter(draws, k + 1, numBooths)
      == Admitted(QueueAfter(draws, k, numBooths), numBooths, ArrivalTime(draws, k), draws[k].1)
  {
  }

  /** Voter k of a precinct with numBooths booths, open for minutesOpen
      minutes, arrived as the draws say, before closing, and voted: it
      started when the booths left by the voters before it let it start, and
      left when it was done. */
  ghost predicate Accepted(voter: Voter, draws: seq<(real, real)>, k: nat, numBooths: nat, minutesOpen: real)
    reads voter
  {
    k < |draws| && 1 <= numBooths
    && voter.arrival == ArrivalTime(draws, k) && voter.duration == draws[k].1
    && voter.arrival <= minutesOpen
    && voter.start == Some(Admit(QueueAfter(draws, k, numBooths), numBooths, voter.arrival).0)
    && voter.departure == Some(voter.start.value + voter.duration)
  }

  /** An accepted voter never starts before arriving, and starts on arrival
      while a booth is free. */
  lemma AcceptedStart(voter: Voter, draws: seq<(real, real)>, k: nat, numBooths: nat, minutesOpen: real)
    requires Accepted(voter, draws, k, numBooths, minutesOpen)
    ensures voter.start.value >= voter.arrival
    ensures |QueueAfter(draws, k, numBooths)| < numBooths ==> voter.start.value == voter.arrival
  {
  }

  /** The voters simulate_election_day lists for one precinct: the first
      ones generated, each accepted, up to the first voter turned away. */
  ghost predicate DayOutcome(p: PrecinctInfo, draws: seq<(real, real)>, voters: seq<Voter>)
    reads set k | 0 <= k < |voters| :: voters[k]
  {
    |voters| <= p.numVoters <= |draws|
    && (forall k :: 0 <= k < |voters| ==> Accepted(voters[k], draws, k, p.numBooths, p.hoursOpen * 60.0))
    && (|voters| < p.numVoters ==> ArrivalTime(draws, |voters|) > p.hoursOpen * 60.0)
  }

  /** The body of simulate_election_day for one precinct: voters are
      generated one per draw and simulated until the first one is turned
      away; the voters who voted are returned in order. */
  method SimulatePrecinctDay(p: PrecinctInfo, draws: seq<(real, real)>) returns (voters: seq<Voter>)
    requires p.numBooths >= 1 && |draws| >= p.numVoters
    ensures forall k :: 0 <= k < |voters| ==> fresh(voters[k])
    ensures DayOutcome(p, draws, voters)
  {
    var pc := new Precinct(p.name, p.hoursOpen, p.numBooths);
    var vg := new VoterGenerator(p.numVoters);
    voters := [];
    var v := 0;
    while v < p.numVoters
      invariant 0 <= v <= p.numVoters && |voters| == v && vg.votersGenerated == v
      invariant fresh(vg) && fresh(pc) && pc.Valid() && pc.minutesOpen == p.hoursOpen * 60.0
      invariant vg.numVoters == p.numVoters
      invariant v > 0 ==> vg.currentTime == ArrivalTime(draws, v - 1)
      invariant v == 0 ==> vg.currentTime == 0.0
      invariant pc.numBooths == p.numBooths && pc.booths == QueueAfter(draws, v, p.numBooths)
      invariant forall k :: 0 <= k < v ==> Accepted(voters[k], draws, k, p.numBooths, pc.minutesOpen)
      invariant forall k :: 0 <= k < v ==> fresh(voters[k])
    {
      var voter, ok := DayVoter(pc, vg, draws, v);
      if !ok {
        return;
      }
      ghost var prev := voters;
      voters := voters + [voter];
      forall k | 0 <= k < v + 1
        ensures Accepted(voters[k], draws, k, p.numBooths, pc.minutesOpen) && fresh(voters[k])
      {
        if k < v {
          assert voters[k] == prev[k];
        }
      }
      v := v + 1;
    }
  }

  /** One pass of the day loop: voter v comes out of the generator and is
      simulated at the precinct; ok says whether it voted. */
  method DayVoter(pc: Precinct, vg: VoterGenerator, draws: seq<(real, real)>, v: nat)
    returns (voter: Voter, ok: bool)
    requires v < |draws| && pc.Valid() && pc.booths == QueueAfter(draws, v, pc.numBooths)
    requires vg.votersGenerated == v < vg.numVoters
    requires v > 0 ==> vg.currentTime == ArrivalTime(draws, v - 1)
    requires v == 0 ==> vg.currentTime == 0.0
    modifies pc, vg
    ensures fresh(voter) && pc.Valid() && vg.votersGenerated == v + 1
    ensures vg.currentTime == ArrivalTime(draws, v)
    ensures ok <==> ArrivalTime(draws, v) <= pc.minutesOpen
    ensures ok ==> Accepted(voter, draws, v, pc.numBooths, pc.minutesOpen)
    ensures ok ==> pc.booths == QueueAfter(draws, v + 1, pc.numBooths)
  {
    var next := vg.NextVoter(draws[v].0, draws[v].1);
    voter := next;
    assert voter.arrival == ArrivalTime(draws, v);
    ok := pc.SimulatePrecinct(voter);
    if ok {
      QueueAfterStep(draws, v, pc.numBooths);
    }
  }

  /** simulate_election_day: every precinct is simulated with its own draws
      (the seed is reset for each), and its list of voters is stored under
      its name; a later precinct of the same name replaces an earlier one. */
  method SimulateElectionDay(precincts: seq<PrecinctInfo>, draws: seq<seq<(real, real)>>)
    returns (voterDict: map<string, seq<Voter>>)
    requires |draws| == |precincts|
    requires forall i :: 0 <= i < |precincts| ==> precincts[i].numBooths >= 1 && |draws[i]| >= precincts[i].numVoters
    ensures voterDict.Keys == set i | 0 <= i < |precincts| :: precincts[i].name
    ensures forall n :: n in voterDict ==>
      exists i :: 0 <= i < |precincts| && precincts[i].name == n
        && (forall j :: i < j < |precincts| ==> precincts[j].name != n)
        && DayOutcome(precincts[i], draws[i], voterDict[n])
  {
    voterDict := map[];
    ghost var owner: map<string, nat> := map[];
    for i := 0 to |precincts|
      invariant voterDict.Keys == owner.Keys
      invariant LastOwners(precincts, owner, i)
      invariant forall n :: n in voterDict ==> owner[n] < |precincts| && DayOutcome(precincts[owner[n]], draws[owner[n]], voterDict[n])
    {
      var vList := SimulatePrecinctDay(precincts[i], draws[i]);
      voterDict := voterDict[precincts[i].name := vList];
      LastOwnersStep(precincts, owner, i);
      owner := owner[precincts[i].name := i];
    }
    forall n | n in voterDict
      ensures exists i ::
        0 <= i < |precincts| && precincts[i].name == n
        && (forall j :: i < j < |precincts| ==> precincts[j].name != n)
        && DayOutcome(precincts[i], draws[i], voterDict[n])
    {
      var i := owner[n];
    }
  }

  /** owner maps the name of each of the first i precincts to the last of
      them with that name. */
  ghost predicate LastOwners(ps: seq<PrecinctInfo>, owner: map<string, nat>, i: nat) {
    i <= |ps|
    && owner.Keys == (set l | 0 <= l < i :: ps[l].name)
    && forall n :: n in owner ==>
      owner[n] < i && ps[owner[n]].name == n && forall j :: owner[n] < j < i ==> ps[j].name != n
  }

  lemma LastOwnersStep(ps: seq<PrecinctInfo>, owner: map<string, nat>, i: nat)
    requires i < |ps| && LastOwners(ps, owner, i)
    ensures LastOwners(ps, owner[ps[i].name := i], i + 1)
  {
    var owner' := owner[ps[i].name := i];
    NamesSnoc(ps, i);
    forall n | n in owner'
      ensures owner'[n] < i + 1 && ps[owner'[n]].name == n
      ensures forall j :: owner'[n] < j < i + 1 ==> ps[j].name != n
    {
      if n != ps[i].name {
        assert owner'[n] == owner[n];
      }
    }
  }

  lemma NamesSnoc(ps: seq<PrecinctInfo>, i: nat)
    requires i < |ps|
    ensures (set l | 0 <= l < i + 1 :: ps[l].name) == (set l | 0 <= l < i :: ps[l].name) + {ps[i].name}
  {
  }

  /** find_number_of_booths, given the simulated average waiting time for
      each number of booths: the first count from 1 to max_num_booths whose
      wait is below the target, with that wait, and (0, None) when there is
      none. */
  method FindNumberOfBooths(wait: nat -> real, target: real, maxNumBooths: nat)
    returns (numBooths: nat, waitingTime: Option<real>)
    ensures numBooths == 0 <==> forall b :: 1 <= b <= maxNumBooths ==> wait(b) >= target
    ensures numBooths == 0 ==> waitingTime.None?
    ensures numBooths > 0 ==>
      numBooths <= maxNumBooths && wait(numBooths) < target && waitingTime == Some(wait(numBooths))
      && forall b :: 1 <= b < numBooths ==> wait(b) >= target
  {
    numBooths := 0;
    var boothCounter := 0;
    waitingTime := None;
    for r := 0 to maxNumBooths
      invariant boothCounter == r
      invariant forall b :: 1 <= b <= boothCounter ==> wait(b) >= target
    {
      boothCounter := boothCounter + 1;
      var checkWaitTime := wait(boothCounter);
      if checkWaitTime < target {
        numBooths := boothCounter;
        waitingTime := Some(checkWaitTime);
        return;
      }
    }
  }
}
