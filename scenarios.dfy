/**
 * The decisions of the endpoint tests, stated for every order in which the
 * store may list the targets.
 */
module Scenarios {
  import opened Types
  import opened Decimal
  import opened Engine

  /** A target accepting "ca" and "ny" at hours 13, 14 and 15, with cap 10. */
  function Sample(id: string, url: string, value: real): Target
  {
    Target(id, url, value, 10, ["ca", "ny"], ["13", "14", "15"])
  }

  /**
   * With targets of value 0.50, 3 and 7 all matching, the value-7 target's url
   * wins whatever the other counters hold, as long as the value-7 target is
   * below its cap of 10.
   */
  lemma HighestValueWins(fetched: seq<Target>, traffic: Traffic)
    requires multiset(fetched) == multiset{
      Sample("0", "http://example.com", 0.5),
      Sample("1", "http://example1.com", 3.0),
      Sample("2", "http://example2.com", 7.0)}
    requires TrafficOf(traffic, "2") < 10
    ensures DecisionOf(fetched, Visitor("ca", 15, "abc"), traffic) == Accept("http://example2.com")
  {
    var visitor := Visitor("ca", 15, "abc");
    var best := Sample("2", "http://example2.com", 7.0);
    assert DecimalString(15) == "15" by {
      assert DecimalString(1) == "1";
    }
    assert best in multiset(fetched);
    assert Eligible(best, visitor, traffic);
    ChooseRejects(fetched, visitor, traffic);
    ChooseAccepts(fetched, visitor, traffic);
    var c := Choose(fetched, visitor, traffic).value;
    assert c in multiset(fetched);
  }

  /** The geo state matches but hour 23 is not among the labels: reject, whatever the counters hold. */
  lemma HourOutsideRejects(fetched: seq<Target>, traffic: Traffic)
    requires fetched == [Sample("0", "http://example.com", 0.5)]
    ensures DecisionOf(fetched, Visitor("ca", 23, "abc"), traffic) == Reject
  {
    assert DecimalString(23) == "23" by {
      assert DecimalString(2) == "2";
    }
    assert !Eligible(fetched[0], Visitor("ca", 23, "abc"), traffic);
  }

  /** The hour matches but state "la" is not accepted: reject, whatever the counters hold. */
  lemma GeoOutsideRejects(fetched: seq<Target>, traffic: Traffic)
    requires fetched == [Sample("0", "http://example.com", 0.5)]
    ensures DecisionOf(fetched, Visitor("la", 13, "abc"), traffic) == Reject
  {
    assert !Eligible(fetched[0], Visitor("la", 13, "abc"), traffic);
  }
}
