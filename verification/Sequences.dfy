/** Sequences without repetitions. */
module Sequences {
  ghost predicate Distinct<T>(s: seq<T>)
  {
    forall i, j :: 0 <= i < j < |s| ==> s[i] != s[j]
  }

  lemma DistinctAppend<T>(a: seq<T>, b: seq<T>)
    requires Distinct(a) && Distinct(b) && forall x :: x in a ==> x !in b
    ensures Distinct(a + b)
  {
    var c := a + b;
    forall i, j | 0 <= i < j < |c|
      ensures c[i] != c[j]
    {
      if i < |a| <= j {
        assert c[i] in a && c[j] in b;
      }
    }
  }

  lemma {:induction false} DistinctSize(s: seq<nat>, elements: set<nat>)
    requires Distinct(s) && forall c :: c in s <==> c in elements
    ensures |s| == |elements|
  {
    if s == [] {
      assert elements == {};
    } else {
      var rest, last := s[..|s| - 1], s[|s| - 1];
      forall c
        ensures c in rest <==> c in elements - {last}
      {
        assert c in s <==> c in rest || c == last;
      }
      DistinctSize(rest, elements - {last});
    }
  }

  ghost function Below(n: nat): (numbers: set<nat>)
    ensures forall i: nat :: i in numbers <==> i < n
  {
    if n == 0 then {} else Below(n - 1) + {n - 1}
  }

  lemma {:induction false} BelowSize(n: nat)
    ensures |Below(n)| == n
  {
    if n > 0 {
      BelowSize(n - 1);
    }
  }

  lemma SubsetSize<T>(a: set<T>, b: set<T>)
    requires a <= b
    ensures |a| <= |b| && (|a| == |b| ==> a == b)
  {
    assert b == a + (b - a);
  }

  // As many numbers below n as there are, all different, are all of them.
  lemma DistinctIsAll(s: seq<nat>, v: nat)
    requires Distinct(s) && v < |s| && forall i :: 0 <= i < |s| ==> s[i] < |s|
    ensures v in s
  {
    var elements := set c | c in s;
    DistinctSize(s, elements);
    BelowSize(|s|);
    SubsetSize(elements, Below(|s|));
    assert v in elements;
  }
}
