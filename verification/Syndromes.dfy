/** Enumerating the error patterns that the access code correction knows. */
module Syndromes {
  import opened Sequences

  // Error patterns leave the top of the 64-bit word, the Barker code, alone.
  const POSITIONS := 58

  // The order in which cycle adds patterns; a word used as a bit set is the set of its one bits.
  ghost function Enumerate(error: set<nat>, start: nat, depth: nat): seq<set<nat>>
    requires depth >= 1
    decreases depth, POSITIONS - start, 1
  {
    if start >= POSITIONS then []
    else Using(error, start, depth) + Enumerate(error, start + 1, depth)
  }

  // The patterns that have the bit `start`.
  ghost function Using(error: set<nat>, start: nat, depth: nat): seq<set<nat>>
    requires depth >= 1 && start < POSITIONS
    decreases depth, POSITIONS - start, 0
  {
    if depth == 1 then [error + {start}] else Enumerate(error + {start}, start + 1, depth - 1)
  }

  ghost function EnumerateUpto(bitErrors: nat): seq<set<nat>>
  {
    if bitErrors == 0 then [] else EnumerateUpto(bitErrors - 1) + Enumerate({}, 0, bitErrors)
  }

  lemma Append<T>(a: seq<T>, b: seq<T>, c: seq<T>)
    ensures a + b + c == a + (b + c)
  {
  }

  // The table of known errors, in the order of insertion.
  class SyndromeMap {
    var errors: seq<set<nat>>

    constructor ()
      ensures errors == []
    {
      errors := [];
    }

    method Cycle(error: set<nat>, start: nat, depth: nat)
      requires depth >= 1
      modifies this
      ensures errors == old(errors) + Enumerate(error, start, depth)
      decreases depth
    {
      ghost var all := Enumerate(error, start, depth);
      ghost var added := [];
      var i := start;
      while i < POSITIONS
        invariant errors == old(errors) + added && added + Enumerate(error, i, depth) == all
        decreases POSITIONS - i
      {
        var newError := error + {i};
        ghost var step := Using(error, i, depth);
        Append(added, step, Enumerate(error, i + 1, depth));
        Append(old(errors), added, step);
        added := added + step;
        if depth - 1 != 0 {
          Cycle(newError, i + 1, depth - 1);
        } else {
          errors := errors + [newError];
        }
        i := i + 1;
      }
      assert added + [] == added;
    }

    method GenSyndromeMap(bitErrors: nat)
      modifies this
      ensures errors == old(errors) + EnumerateUpto(bitErrors)
    {
      ghost var added := [];
      for i := 0 to bitErrors
        invariant added == EnumerateUpto(i) && errors == old(errors) + added
      {
        Append(old(errors), added, Enumerate({}, 0, i + 1));
        Cycle({}, 0, i + 1);
        added := added + Enumerate({}, 0, i + 1);
      }
    }
  }

  ghost predicate Extends(e: set<nat>, error: set<nat>, start: nat, depth: nat)
  {
    error <= e && |e - error| == depth && forall b :: b in e - error ==> start <= b < POSITIONS
  }

  // From a pattern with no bit from `start` on, cycle adds exactly the patterns that have `depth`
  // more bits among the positions from `start` on.
  lemma {:induction false} EnumerateExact(error: set<nat>, start: nat, depth: nat, e: set<nat>)
    requires depth >= 1 && forall b :: b in error ==> b < start
    ensures e in Enumerate(error, start, depth) <==> Extends(e, error, start, depth)
    decreases depth, POSITIONS - start, 1
  {
    if start >= POSITIONS {
      NothingLeft(e, error, start, depth);
    } else {
      UsingExact(error, start, depth, e);
      EnumerateExact(error, start + 1, depth, e);
      ExtendsSplit(e, error, start, depth);
    }
  }

  lemma {:induction false} UsingExact(error: set<nat>, start: nat, depth: nat, e: set<nat>)
    requires depth >= 1 && start < POSITIONS && forall b :: b in error ==> b < start
    ensures e in Using(error, start, depth) <==> start in e && Extends(e, error, start, depth)
    decreases depth, POSITIONS - start, 0
  {
    if depth > 1 {
      EnumerateExact(error + {start}, start + 1, depth - 1, e);
    }
    ExtendsWith(e, error, start, depth);
  }

  lemma NothingLeft(e: set<nat>, error: set<nat>, start: nat, depth: nat)
    requires depth >= 1 && start >= POSITIONS
    ensures !Extends(e, error, start, depth)
  {
    if e - error != {} {
      var b :| b in e - error;
      assert !(start <= b < POSITIONS);
    }
  }

  lemma ExtendsWith(e: set<nat>, error: set<nat>, start: nat, depth: nat)
    requires depth >= 1 && start < POSITIONS && forall b :: b in error ==> b < start
    ensures start in e && Extends(e, error, start, depth)
            <==> if depth == 1 then e == error + {start} else Extends(e, error + {start}, start + 1, depth - 1)
  {
    if start in e {
      assert e - error == (e - (error + {start})) + {start};
      if depth == 1 && Extends(e, error, start, depth) {
        assert |e - (error + {start})| == 0;
        assert e == error + {start};
      }
    }
  }

  lemma ExtendsSplit(e: set<nat>, error: set<nat>, start: nat, depth: nat)
    requires depth >= 1 && start < POSITIONS && forall b :: b in error ==> b < start
    ensures Extends(e, error, start, depth)
            <==> (start in e && Extends(e, error, start, depth)) || Extends(e, error, start + 1, depth)
    ensures Extends(e, error, start + 1, depth) ==> start !in e
  {
    if start in e {
      assert start in e - error;
    }
  }

  // No pattern is added twice.
  lemma {:induction false} EnumerateDistinct(error: set<nat>, start: nat, depth: nat)
    requires depth >= 1 && forall b :: b in error ==> b < start
    ensures Distinct(Enumerate(error, start, depth))
    decreases depth, POSITIONS - start
  {
    if start < POSITIONS {
      var first, second := Using(error, start, depth), Enumerate(error, start + 1, depth);
      EnumerateDistinct(error, start + 1, depth);
      if depth > 1 {
        EnumerateDistinct(error + {start}, start + 1, depth - 1);
      }
      forall e | e in first
        ensures e !in second
      {
        UsingExact(error, start, depth, e);
        EnumerateExact(error, start + 1, depth, e);
        ExtendsSplit(e, error, start, depth);
      }
      DistinctAppend(first, second);
    }
  }

  ghost predicate Pattern(e: set<nat>)
  {
    forall b :: b in e ==> b < 58
  }

  lemma LastRound(bitErrors: nat, e: set<nat>)
    requires bitErrors > 0
    ensures e in Enumerate({}, 0, bitErrors) <==> |e| == bitErrors && Pattern(e)
  {
    EnumerateExact({}, 0, bitErrors, e);
    assert e - {} == e;
  }

  lemma {:induction false} MapContents(bitErrors: nat, e: set<nat>)
    ensures e in EnumerateUpto(bitErrors) <==> 1 <= |e| <= bitErrors && Pattern(e)
  {
    if bitErrors > 0 {
      MapContents(bitErrors - 1, e);
      LastRound(bitErrors, e);
    }
  }

  // The whole table: every non-empty pattern of at most `bitErrors` bits, once.
  lemma {:induction false} MapExact(bitErrors: nat)
    ensures Distinct(EnumerateUpto(bitErrors))
    ensures forall e :: e in EnumerateUpto(bitErrors) <==> 1 <= |e| <= bitErrors && Pattern(e)
  {
    forall e: set<nat>
      ensures e in EnumerateUpto(bitErrors) <==> 1 <= |e| <= bitErrors && Pattern(e)
    {
      MapContents(bitErrors, e);
    }
    if bitErrors > 0 {
      var before, last := EnumerateUpto(bitErrors - 1), Enumerate({}, 0, bitErrors);
      MapExact(bitErrors - 1);
      EnumerateDistinct({}, 0, bitErrors);
      forall e | e in before
        ensures e !in last
      {
        LastRound(bitErrors, e);
      }
      DistinctAppend(before, last);
    }
  }
}
