/** Values shared by the target store and the decision engine. */
module Types {

  datatype Option<T> = None | Some(value: T)

  /** An hour of the day in UTC, as `Date.prototype.getUTCHours` yields it. */
  type Hour = h: nat | h < 24

  /**
   * A registered target: the record stored, keyed by `id`, in the `targets` hash.
   * `geoStates` is `accept.geoState.$in` and `hours` is `accept.hour.$in`.
   */
  datatype Target = Target(
    id: string,
    url: string,
    value: real,
    maxAcceptsPerDay: int,
    geoStates: seq<string>,
    hours: seq<string>)

  /** The visitor a decision is asked for; `publisher` takes no part in matching. */
  datatype Visitor = Visitor(geoState: string, hour: Hour, publisher: string)

  /** The body of a decision: `{decision: 'accept', url}` or `{decision: 'reject'}`. */
  datatype Decision = Accept(url: string) | Reject

  /** The `traffic` hash: target id to the number of accepted decisions. */
  type Traffic = map<string, nat>

  /** The stored count of a target, an absent entry being read as 0. */
  function TrafficOf(traffic: Traffic, id: string): nat
  {
    if id in traffic then traffic[id] else 0
  }

  /** The counter write made on an accept: the stored count plus one, or 1 when absent. */
  function Increment(traffic: Traffic, id: string): (r: Traffic)
    ensures TrafficOf(r, id) == TrafficOf(traffic, id) + 1
    ensures forall other :: other != id ==> TrafficOf(r, other) == TrafficOf(traffic, other)
    ensures r.Keys == traffic.Keys + {id}
  {
    traffic[id := TrafficOf(traffic, id) + 1]
  }

  /** Every stored record sits under its own id, as `upsertTarget` writes it. */
  ghost predicate KeyedById(targets: map<string, Target>)
  {
    forall id :: id in targets ==> targets[id].id == id
  }

  /**
   * `ts` lists the records of `targets`, each exactly once, in some order
   * (the values an `HVALS` on the hash returns).
   */
  ghost predicate IsListing(ts: seq<Target>, targets: map<string, Target>)
  {
    && |ts| == |targets|
    && (forall i :: 0 <= i < |ts| ==> ts[i].id in targets && targets[ts[i].id] == ts[i])
    && (forall i, j :: 0 <= i < j < |ts| ==> ts[i].id != ts[j].id)
    && (forall id :: id in targets ==> exists i :: 0 <= i < |ts| && ts[i].id == id)
  }
}
