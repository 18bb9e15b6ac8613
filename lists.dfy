/** Facts about lists of positions shared by the graph builders. */
module Lists {

  /** No position is listed twice. */
  predicate Distinct(s: seq<nat>)
  {
    forall t, u | 0 <= t < u < |s| :: s[t] != s[u]
  }

  /** The positions a list names. */
  function Elems(s: seq<nat>): set<nat>
  {
    set j | j in s
  }

  /** A repetition-free list has as many elements as its set. */
  lemma {:induction false} DistinctCard(s: seq<nat>)
    requires Distinct(s)
    ensures |Elems(s)| == |s|
  {
    if |s| > 0 {
      var s' := s[..|s| - 1];
      assert Distinct(s');
      DistinctCard(s');
      assert s == s' + [s[|s| - 1]];
      assert Elems(s) == Elems(s') + {s[|s| - 1]};
      assert s[|s| - 1] !in Elems(s');
    }
  }

  /** The positions below n. */
  function Below(n: nat): (b: set<nat>)
    ensures |b| == n
    ensures forall j :: j in b <==> 0 <= j < n
  {
    if n == 0 then {} else Below(n - 1) + {n - 1}
  }

  /** A repetition-free list of positions below n that names each of them
      has length n. */
  lemma CoveringLength(s: seq<nat>, n: nat)
    requires Distinct(s)
    requires forall t | 0 <= t < |s| :: s[t] < n
    requires forall j | 0 <= j < n :: j in s
    ensures |s| == n
  {
    DistinctCard(s);
    assert Elems(s) == Below(n);
  }
}
