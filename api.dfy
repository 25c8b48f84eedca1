/**
 * The API over the two hashes of the store: `targets` (id to target record)
 * and `traffic` (id to accepted-decision count). Each call runs to completion
 * before the next one starts.
 */
module Api {
  import opened Types
  import opened Ranking
  import opened Engine

  /**
   * After `upsertTarget(t)` every listing of the store holds `t`, and `t` is
   * the only listed record with its id.
   */
  lemma ListedAfterUpsert(ts: seq<Target>, targets: map<string, Target>, t: Target)
    requires IsListing(ts, targets[t.id := t])
    ensures t in ts
    ensures forall i :: 0 <= i < |ts| && ts[i].id == t.id ==> ts[i] == t
  {
    assert t.id in targets[t.id := t];
    var i :| 0 <= i < |ts| && ts[i].id == t.id;
    assert ts[i] == t;
  }

  /**
   * `ts` lists, once each and under their ids, the records of every key of
   * `targets` not in `pending`.
   */
  ghost predicate ListedSoFar(ts: seq<Target>, targets: map<string, Target>, pending: set<string>)
  {
    && pending <= targets.Keys
    && |ts| + |pending| == |targets|
    && (forall i :: 0 <= i < |ts| ==> ts[i].id in targets && targets[ts[i].id] == ts[i] && ts[i].id !in pending)
    && (forall i, j :: 0 <= i < j < |ts| ==> ts[i].id != ts[j].id)
    && (forall id :: id in targets && id !in pending ==> exists i :: 0 <= i < |ts| && ts[i].id == id)
  }

  /** Listing one more pending key keeps `ListedSoFar`. */
  lemma ListOneMore(ts: seq<Target>, targets: map<string, Target>, pending: set<string>, id: string)
    requires KeyedById(targets)
    requires ListedSoFar(ts, targets, pending) && id in pending
    ensures ListedSoFar(ts + [targets[id]], targets, pending - {id})
  {
    var next := ts + [targets[id]];
    forall k | k in targets && k !in pending - {id}
      ensures exists i :: 0 <= i < |next| && next[i].id == k
    {
      if k == id {
        assert next[|ts|].id == k;
      } else {
        var i :| 0 <= i < |ts| && ts[i].id == k;
        assert next[i].id == k;
      }
    }
  }

  class Store {
    var targets: map<string, Target>
    var traffic: Traffic

    /** Every record is stored under its own id. */
    ghost predicate Valid()
      reads this
    {
      KeyedById(targets)
    }

    /** A store whose two hashes are empty. */
    constructor ()
      ensures Valid()
      ensures targets == map[] && traffic == map[]
    {
      targets := map[];
      traffic := map[];
    }

    /**
     * `getTarget`: the record stored under `id`, or nothing when no target
     * with that id is registered.
     */
    function GetTarget(id: string): (r: Option<Target>)
      requires Valid()
      reads this
      ensures r.Some? ==> r.value in targets.Values && r.value.id == id
      ensures r.None? ==> forall t :: t in targets.Values ==> t.id != id
    {
      if id in targets then Some(targets[id]) else None
    }

    /**
     * `upsertTarget`: writes the whole record under its id, replacing any
     * earlier record with that id; answers code 200.
     */
    method UpsertTarget(target: Target) returns (code: int)
      requires Valid()
      modifies this
      ensures Valid()
      ensures code == 200
      ensures targets == old(targets)[target.id := target]
      ensures traffic == old(traffic)
      ensures GetTarget(target.id) == Some(target)
      ensures forall id :: id != target.id ==> GetTarget(id) == old(GetTarget(id))
    {
      targets := targets[target.id := target];
      code := 200;
    }

    /**
     * `getTargets`: every stored record exactly once, in an order the store
     * does not specify; answers code 200.
     */
    method GetTargets() returns (code: int, ts: seq<Target>)
      requires Valid()
      ensures code == 200
      ensures IsListing(ts, targets)
    {
      var keys := targets.Keys;
      ts := [];
      while keys != {}
        invariant ListedSoFar(ts, targets, keys)
        decreases keys
      {
        var id :| id in keys;
        ListOneMore(ts, targets, keys, id);
        ts := ts + [targets[id]];
        keys := keys - {id};
      }
      code := 200;
    }

    /**
     * The scan of `makeDecision` over the ranked targets: stops after the
     * first eligible one. When it accepts, `index - 1` is the position of the
     * first eligible target; otherwise none is eligible.
     */
    method ScanRanked(sortedTargets: array<Target>, visitor: Visitor) returns (isTargetAccepted: bool, index: nat)
      ensures var first := FirstEligible(sortedTargets[..], visitor, traffic);
              if isTargetAccepted then first == Some(index - 1) else first.None?
    {
      isTargetAccepted := false;
      index := 0;
      while !isTargetAccepted && index < sortedTargets.Length
        invariant 0 <= index <= sortedTargets.Length
        invariant isTargetAccepted ==> 0 < index && Eligible(sortedTargets[index - 1], visitor, traffic)
        invariant forall j :: 0 <= j < index && !(isTargetAccepted && j == index - 1) ==>
                    !Eligible(sortedTargets[j], visitor, traffic)
      {
        isTargetAccepted := Eligible(sortedTargets[index], visitor, traffic);
        index := index + 1;
      }
    }

    /**
     * The writes of `makeDecision` on an accept: the target's counter goes
     * from its stored value (0 when absent) to one more, and the record is
     * written back under its id.
     */
    method RecordAccept(acceptedTarget: Target)
      requires Valid()
      requires acceptedTarget.id in targets && targets[acceptedTarget.id] == acceptedTarget
      modifies this
      ensures Valid()
      ensures traffic == Increment(old(traffic), acceptedTarget.id)
      ensures targets == old(targets)
    {
      var stored := TrafficOf(traffic, acceptedTarget.id);
      traffic := traffic[acceptedTarget.id := stored + 1];
      var _ := UpsertTarget(acceptedTarget);
      assert targets == old(targets)[acceptedTarget.id := acceptedTarget];
    }

    /**
     * `makeDecision`: ranks the fetched targets by value, highest first,
     * accepts the first eligible one, counts the accept in `traffic` and
     * rewrites the accepted record. Answers 200 with the url, or 503 with a
     * reject when there is no target or none is eligible. `fetched` is the
     * order in which the store listed the targets.
     */
    method MakeDecision(visitor: Visitor) returns (code: int, d: Decision, ghost fetched: seq<Target>)
      requires Valid()
      modifies this
      ensures Valid()
      ensures IsListing(fetched, old(targets))
      ensures d == DecisionOf(fetched, visitor, old(traffic))
      ensures code == if d.Accept? then 200 else 503
      ensures traffic == AfterDecision(fetched, visitor, old(traffic))
      ensures targets == old(targets)
    {
      ghost var before := traffic;
      var _, listed := GetTargets();
      fetched := listed;
      if |listed| == 0 {
        RejectWhenNoneFirst(fetched, visitor, before);
        return 503, Reject, fetched;
      }

      var sortedTargets := RankTargets(listed);
      var isTargetAccepted, index := ScanRanked(sortedTargets, visitor);
      if !isTargetAccepted {
        RejectWhenNoneFirst(fetched, visitor, before);
        return 503, Reject, fetched;
      }

      var acceptedTarget := sortedTargets[index - 1];
      AcceptWhenFirst(fetched, visitor, before, index - 1);
      InSorted(fetched, acceptedTarget);
      ghost var i :| 0 <= i < |fetched| && fetched[i] == acceptedTarget;
      assert targets[acceptedTarget.id] == acceptedTarget;
      RecordAccept(acceptedTarget);
      return 200, Accept(acceptedTarget.url), fetched;
    }
  }
}
