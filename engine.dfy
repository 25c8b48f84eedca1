/**
 * The decision engine: which target, if any, a visitor is sent to, given the
 * fetched targets and the traffic counters, and how the counters change.
 */
module Engine {
  import opened Types
  import opened Decimal
  import opened Ranking

  /**
   * `_isAccepted`: the target still has room under its cap, accepts the
   * visitor's state, and accepts the decimal string of the visitor's UTC hour.
   */
  predicate Eligible(t: Target, visitor: Visitor, traffic: Traffic)
  {
    t.maxAcceptsPerDay > TrafficOf(traffic, t.id) && Matches(t, visitor)
  }

  /** The two rules of `_isAccepted` that do not depend on the counters. */
  predicate Matches(t: Target, visitor: Visitor)
  {
    visitor.geoState in t.geoStates && DecimalString(visitor.hour) in t.hours
  }

  /** The index of the first eligible target of `s`, scanning from the front. */
  function FirstEligible(s: seq<Target>, visitor: Visitor, traffic: Traffic): (r: Option<nat>)
    ensures r.Some? ==> r.value < |s| && Eligible(s[r.value], visitor, traffic)
    ensures r.Some? ==> forall j :: 0 <= j < r.value ==> !Eligible(s[j], visitor, traffic)
    ensures r.None? ==> forall j :: 0 <= j < |s| ==> !Eligible(s[j], visitor, traffic)
    decreases |s|
  {
    if s == [] then None
    else if Eligible(s[0], visitor, traffic) then Some(0)
    else match FirstEligible(s[1..], visitor, traffic)
      case Some(k) => Some(k + 1)
      case None => None
  }

  /** The target a decision accepts: the first eligible one in ranked order. */
  function Choose(fetched: seq<Target>, visitor: Visitor, traffic: Traffic): Option<Target>
  {
    var ranked := SortByValue(fetched);
    match FirstEligible(ranked, visitor, traffic)
    case Some(k) => Some(ranked[k])
    case None => None
  }

  /** The response body of a decision. */
  function DecisionOf(fetched: seq<Target>, visitor: Visitor, traffic: Traffic): (d: Decision)
    ensures d.Accept? <==> exists t :: t in fetched && Eligible(t, visitor, traffic)
  {
    ChooseRejects(fetched, visitor, traffic);
    match Choose(fetched, visitor, traffic)
    case Some(c) => Accept(c.url)
    case None => Reject
  }

  /** The `traffic` hash after a decision: only the chosen target's counter moves, by one. */
  function AfterDecision(fetched: seq<Target>, visitor: Visitor, traffic: Traffic): (r: Traffic)
    ensures Choose(fetched, visitor, traffic).None? ==> r == traffic
    ensures Choose(fetched, visitor, traffic).Some? ==>
              var id := Choose(fetched, visitor, traffic).value.id;
              && TrafficOf(r, id) == TrafficOf(traffic, id) + 1
              && forall other :: other != id ==> TrafficOf(r, other) == TrafficOf(traffic, other)
  {
    match Choose(fetched, visitor, traffic)
    case Some(c) => Increment(traffic, c.id)
    case None => traffic
  }

  /** When the scan of the ranked targets finds nothing, the decision rejects and no counter moves. */
  lemma RejectWhenNoneFirst(fetched: seq<Target>, visitor: Visitor, traffic: Traffic)
    requires FirstEligible(SortByValue(fetched), visitor, traffic).None?
    ensures DecisionOf(fetched, visitor, traffic) == Reject
    ensures AfterDecision(fetched, visitor, traffic) == traffic
  {
  }

  /** When the scan stops at ranked position `k`, that target is accepted and counted. */
  lemma AcceptWhenFirst(fetched: seq<Target>, visitor: Visitor, traffic: Traffic, k: nat)
    requires FirstEligible(SortByValue(fetched), visitor, traffic) == Some(k)
    ensures k < |SortByValue(fetched)|
    ensures DecisionOf(fetched, visitor, traffic) == Accept(SortByValue(fetched)[k].url)
    ensures AfterDecision(fetched, visitor, traffic) == Increment(traffic, SortByValue(fetched)[k].id)
  {
  }

  lemma InSorted(fetched: seq<Target>, t: Target)
    ensures t in SortByValue(fetched) <==> t in fetched
  {
    SortIsPermutation(fetched);
    assert t in SortByValue(fetched) <==> t in multiset(SortByValue(fetched));
  }

  /**
   * An accepted target is one of the fetched targets, it is eligible (so its
   * counter is below its cap), and no eligible fetched target has a higher value.
   */
  lemma ChooseAccepts(fetched: seq<Target>, visitor: Visitor, traffic: Traffic)
    requires Choose(fetched, visitor, traffic).Some?
    ensures var c := Choose(fetched, visitor, traffic).value;
            && c in fetched
            && Eligible(c, visitor, traffic)
            && TrafficOf(traffic, c.id) < c.maxAcceptsPerDay
            && forall t :: t in fetched && Eligible(t, visitor, traffic) ==> t.value <= c.value
  {
    var ranked := SortByValue(fetched);
    var k := FirstEligible(ranked, visitor, traffic).value;
    var c := ranked[k];
    InSorted(fetched, c);
    SortIsDescending(fetched);
    forall t | t in fetched && Eligible(t, visitor, traffic) ensures t.value <= c.value {
      InSorted(fetched, t);
      var j :| 0 <= j < |ranked| && ranked[j] == t;
      assert k <= j;
    }
  }

  /** A decision rejects exactly when no fetched target is eligible. */
  lemma ChooseRejects(fetched: seq<Target>, visitor: Visitor, traffic: Traffic)
    ensures Choose(fetched, visitor, traffic).None? <==>
            forall t :: t in fetched ==> !Eligible(t, visitor, traffic)
  {
    var ranked := SortByValue(fetched);
    if Choose(fetched, visitor, traffic).Some? {
      ChooseAccepts(fetched, visitor, traffic);
    } else {
      forall t | t in fetched ensures !Eligible(t, visitor, traffic) {
        InSorted(fetched, t);
      }
    }
  }

  /**
   * The first eligible target of `s` is also the first eligible one among the
   * targets of its own value.
   */
  lemma {:induction false} FirstEligibleOfItsValue(s: seq<Target>, visitor: Visitor, traffic: Traffic)
    requires FirstEligible(s, visitor, traffic).Some?
    ensures var c := s[FirstEligible(s, visitor, traffic).value];
            var w := WithValue(s, c.value);
            FirstEligible(w, visitor, traffic).Some? && w[FirstEligible(w, visitor, traffic).value] == c
    decreases |s|
  {
    var k := FirstEligible(s, visitor, traffic).value;
    var c := s[k];
    var v := c.value;
    var w := WithValue(s, v);
    var rest := WithValue(s[1..], v);
    if k == 0 {
      assert w == [c] + rest;
      assert w[0] == c;
    } else {
      assert s[1..][k - 1] == c;
      FirstEligibleOfItsValue(s[1..], visitor, traffic);
      var p := FirstEligible(rest, visitor, traffic).value;
      if s[0].value == v {
        assert w == [s[0]] + rest;
        assert w[1..] == rest;
        assert w[p + 1] == c;
      } else {
        assert w == rest;
      }
    }
  }

  /**
   * Ties keep the fetched order: among the fetched targets with the accepted
   * target's value, the accepted one is the first eligible in fetched order.
   */
  lemma ChooseTieBreak(fetched: seq<Target>, visitor: Visitor, traffic: Traffic)
    requires Choose(fetched, visitor, traffic).Some?
    ensures var c := Choose(fetched, visitor, traffic).value;
            var w := WithValue(fetched, c.value);
            FirstEligible(w, visitor, traffic).Some? && w[FirstEligible(w, visitor, traffic).value] == c
  {
    var ranked := SortByValue(fetched);
    var c := Choose(fetched, visitor, traffic).value;
    FirstEligibleOfItsValue(ranked, visitor, traffic);
    SortIsStable(fetched, c.value);
  }

  /**
   * Eligibility with the hour read as a number: some label of the target is a
   * canonical decimal string that denotes the visitor's hour.
   */
  lemma EligibleByNumericHour(t: Target, visitor: Visitor, traffic: Traffic)
    ensures Eligible(t, visitor, traffic) <==>
            && TrafficOf(traffic, t.id) < t.maxAcceptsPerDay
            && visitor.geoState in t.geoStates
            && exists s :: s in t.hours && Canonical(s) && ValueOf(s) == visitor.hour
  {
    HourLabelMatch(visitor.hour, t.hours);
  }

  /** One decision of a sequence: the targets as fetched for it, and the visitor. */
  datatype Round = Round(fetched: seq<Target>, visitor: Visitor)

  /** The `traffic` hash after the rounds are decided one after another. */
  function Replay(rounds: seq<Round>, traffic: Traffic): Traffic
    decreases |rounds|
  {
    if rounds == [] then traffic
    else Replay(rounds[1..], AfterDecision(rounds[0].fetched, rounds[0].visitor, traffic))
  }

  /** Whether a round's decision accepts the target with id `id`. */
  predicate AcceptsId(round: Round, traffic: Traffic, id: string)
  {
    var choice := Choose(round.fetched, round.visitor, traffic);
    choice.Some? && choice.value.id == id
  }

  /** How many of the rounds accept the target with id `id`. */
  function AcceptsOf(rounds: seq<Round>, traffic: Traffic, id: string): nat
    decreases |rounds|
  {
    if rounds == [] then 0
    else
      (if AcceptsId(rounds[0], traffic, id) then 1 else 0)
      + AcceptsOf(rounds[1..], AfterDecision(rounds[0].fetched, rounds[0].visitor, traffic), id)
  }

  /** A target's counter grows by exactly the number of decisions that accept it. */
  lemma {:induction false} CounterCountsAccepts(rounds: seq<Round>, traffic: Traffic, id: string)
    ensures TrafficOf(Replay(rounds, traffic), id) == TrafficOf(traffic, id) + AcceptsOf(rounds, traffic, id)
    decreases |rounds|
  {
    if rounds != [] {
      var next := AfterDecision(rounds[0].fetched, rounds[0].visitor, traffic);
      CounterCountsAccepts(rounds[1..], next, id);
    }
  }

  /**
   * Over decisions taken one after another against the same stored targets, a
   * target with cap N is accepted at most N times, less what its counter held
   * at the start.
   */
  lemma {:induction false} CapBoundsAccepts(rounds: seq<Round>, targets: map<string, Target>, traffic: Traffic, id: string)
    requires forall k :: 0 <= k < |rounds| ==> IsListing(rounds[k].fetched, targets)
    requires id in targets
    ensures var cap := targets[id].maxAcceptsPerDay;
            var start := TrafficOf(traffic, id);
            start + AcceptsOf(rounds, traffic, id) <= if cap > start then cap else start
    decreases |rounds|
  {
    if rounds != [] {
      var round := rounds[0];
      var next := AfterDecision(round.fetched, round.visitor, traffic);
      CapBoundsAccepts(rounds[1..], targets, next, id);
      if AcceptsId(round, traffic, id) {
        ChooseAccepts(round.fetched, round.visitor, traffic);
        var c := Choose(round.fetched, round.visitor, traffic).value;
        var i :| 0 <= i < |round.fetched| && round.fetched[i] == c;
        assert c == targets[id];
      }
    }
  }

  /**
   * One decision where only the target `id` can match the visitor: it
   * accepts that target exactly when its counter is below its cap, and
   * otherwise rejects.
   */
  lemma OnlyMatchRound(round: Round, targets: map<string, Target>, traffic: Traffic, id: string)
    requires IsListing(round.fetched, targets)
    requires id in targets && Matches(targets[id], round.visitor)
    requires forall other :: other in targets && other != id ==> !Matches(targets[other], round.visitor)
    ensures AcceptsId(round, traffic, id) <==> TrafficOf(traffic, id) < targets[id].maxAcceptsPerDay
    ensures !AcceptsId(round, traffic, id) ==> Choose(round.fetched, round.visitor, traffic).None?
  {
    var t := targets[id];
    var choice := Choose(round.fetched, round.visitor, traffic);
    if choice.Some? {
      ChooseAccepts(round.fetched, round.visitor, traffic);
      var c := choice.value;
      var j :| 0 <= j < |round.fetched| && round.fetched[j] == c;
      assert c == targets[c.id];
    } else {
      var i :| 0 <= i < |round.fetched| && round.fetched[i].id == id;
      ChooseRejects(round.fetched, round.visitor, traffic);
      assert !Eligible(round.fetched[i], round.visitor, traffic);
    }
  }

  /**
   * Sequential cap enforcement: when the target `id` matches every visitor
   * and no other stored target matches any of them, the target is accepted
   * for exactly as many decisions as its cap leaves room for (that each
   * decision past the cap rejects is `OnlyMatchRound`).
   */
  lemma {:induction false} CapReachedExactly(rounds: seq<Round>, targets: map<string, Target>, traffic: Traffic, id: string)
    requires forall k :: 0 <= k < |rounds| ==> IsListing(rounds[k].fetched, targets)
    requires id in targets
    requires forall k :: 0 <= k < |rounds| ==> Matches(targets[id], rounds[k].visitor)
    requires forall k, other :: 0 <= k < |rounds| && other in targets && other != id ==>
               !Matches(targets[other], rounds[k].visitor)
    ensures var cap := targets[id].maxAcceptsPerDay;
            var start := TrafficOf(traffic, id);
            var room := if cap > start then cap - start else 0;
            AcceptsOf(rounds, traffic, id) == if |rounds| < room then |rounds| else room
    decreases |rounds|
  {
    if rounds != [] {
      var round := rounds[0];
      var next := AfterDecision(round.fetched, round.visitor, traffic);
      OnlyMatchRound(round, targets, traffic, id);
      var tail := rounds[1..];
      assert forall k :: 0 <= k < |tail| ==> tail[k] == rounds[k + 1];
      CapReachedExactly(tail, targets, next, id);
    }
  }
}
