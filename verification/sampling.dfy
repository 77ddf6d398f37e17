/**
 The surprise-placement loop of the grid generator, with its random number
 source replaced by a sequence of draws supplied by the caller.

 The loop keeps drawing a cell index and keeps it when it was not drawn
 before, until `k` distinct indices are kept. `Picks` is that loop written
 as a function of the draws still to come and the indices kept so far; the
 lemmas below say what the loop ends with and when it ends at all.
 */
module Sampling {

  /** No element occurs twice. */
  predicate Distinct<T(==)>(s: seq<T>) {
    forall p, q :: 0 <= p < q < |s| ==> s[p] != s[q]
  }

  /** The set of elements of a sequence. */
  function Elems<T>(s: seq<T>): (r: set<T>) {
    set x | x in s
  }

  /** The indices `0 .. n-1`. */
  function Range(n: nat): (r: set<int>)
    ensures forall i :: i in r <==> 0 <= i < n
  {
    if n == 0 then {} else Range(n - 1) + {n - 1}
  }

  function Min(a: int, b: int): (r: int) {
    if a <= b then a else b
  }

  /** Every draw indexes one of `n` cells. */
  predicate InRange(draws: seq<int>, n: nat) {
    forall t :: 0 <= t < |draws| ==> 0 <= draws[t] < n
  }

  /**
   What the caller of the placement loop must supply: draws that index one
   of the `n` cells, among which at least `k` distinct cells occur (a random
   source with this property makes the loop end).
   */
  predicate DrawsFit(draws: seq<int>, n: nat, k: nat) {
    InRange(draws, n) && |Elems(draws)| >= k
  }

  /**
   The rejection-sampling loop: while fewer than `k` are kept, take the next
   draw and keep it unless it was kept already.
   */
  function Picks<T(==)>(draws: seq<T>, chosen: seq<T>, k: nat): (r: seq<T>)
    decreases |draws|
  {
    if |chosen| >= k || draws == [] then chosen
    else if draws[0] in chosen then Picks(draws[1..], chosen, k)
    else Picks(draws[1..], chosen + [draws[0]], k)
  }

  /** The loop only appends, and only appends draws. */
  lemma {:induction false} PicksExtends<T>(draws: seq<T>, chosen: seq<T>, k: nat)
    ensures chosen <= Picks(draws, chosen, k)
    ensures forall x :: x in Picks(draws, chosen, k) ==> x in chosen || x in draws
    decreases |draws|
  {
    if |chosen| >= k || draws == [] {
    } else if draws[0] in chosen {
      PicksExtends(draws[1..], chosen, k);
    } else {
      PicksExtends(draws[1..], chosen + [draws[0]], k);
    }
  }

  /** A cell is never kept twice. */
  lemma {:induction false} PicksDistinct<T>(draws: seq<T>, chosen: seq<T>, k: nat)
    requires Distinct(chosen)
    ensures Distinct(Picks(draws, chosen, k))
    decreases |draws|
  {
    if |chosen| >= k || draws == [] {
    } else if draws[0] in chosen {
      PicksDistinct(draws[1..], chosen, k);
    } else {
      var next := chosen + [draws[0]];
      assert Distinct(next) by {
        forall p, q | 0 <= p < q < |next| ensures next[p] != next[q] {
          if q == |chosen| {
            assert next[p] == chosen[p];
          }
        }
      }
      PicksDistinct(draws[1..], next, k);
    }
  }

  /** A sequence without repetitions has as many elements as its set. */
  lemma {:induction false} DistinctCard<T>(s: seq<T>)
    requires Distinct(s)
    ensures |Elems(s)| == |s|
  {
    if s != [] {
      var init := s[..|s| - 1];
      var last := s[|s| - 1];
      assert Distinct(init);
      DistinctCard(init);
      assert last !in Elems(init) by {
        forall p | 0 <= p < |init| ensures init[p] != last {
          assert init[p] == s[p];
        }
      }
      assert s == init + [last];
      assert Elems(s) == Elems(init) + {last};
    }
  }

  /**
   The loop keeps `k` indices, or all the distinct ones it is offered when
   there are fewer than `k`.
   */
  lemma {:induction false} PicksCount<T>(draws: seq<T>, chosen: seq<T>, k: nat)
    requires Distinct(chosen) && |chosen| <= k
    ensures |Picks(draws, chosen, k)| == Min(k, |Elems(chosen) + Elems(draws)|)
    decreases |draws|
  {
    DistinctCard(chosen);
    if |chosen| >= k {
      assert Elems(chosen) <= Elems(chosen) + Elems(draws);
      SubsetCard(Elems(chosen), Elems(chosen) + Elems(draws));
    } else if draws == [] {
      assert Elems(chosen) + Elems(draws) == Elems(chosen);
    } else if draws[0] in chosen {
      assert Elems(chosen) + Elems(draws) == Elems(chosen) + Elems(draws[1..]) by {
        assert draws == [draws[0]] + draws[1..];
      }
      PicksCount(draws[1..], chosen, k);
    } else {
      var next := chosen + [draws[0]];
      assert Elems(next) + Elems(draws[1..]) == Elems(chosen) + Elems(draws) by {
        assert draws == [draws[0]] + draws[1..];
      }
      PicksDistinct([], next, 0);
      PicksCount(draws[1..], next, k);
    }
  }

  lemma {:induction false} SubsetCard<T>(a: set<T>, b: set<T>)
    requires a <= b
    ensures |a| <= |b|
  {
    assert b == a + (b - a);
  }

  /** There are exactly `n` cell indices. */
  lemma {:induction false} RangeCard(n: nat)
    ensures |Range(n)| == n
  {
    if n > 0 {
      var below := Range(n - 1);
      RangeCard(n - 1);
      assert n - 1 !in below;
      assert |below + {n - 1}| == |below| + 1;
    }
  }

  /** In-range draws name at most `n` distinct cells. */
  lemma InRangeBound(draws: seq<int>, n: nat)
    requires InRange(draws, n)
    ensures |Elems(draws)| <= n
  {
    assert Elems(draws) <= Range(n);
    SubsetCard(Elems(draws), Range(n));
    RangeCard(n);
  }

  /**
   On a board with fewer than `k` cells no sequence of in-range draws lets
   the loop keep `k` distinct cells: whatever it is offered, it still wants
   more, so it never ends.
   */
  lemma TooFewCells(draws: seq<int>, n: nat, k: nat)
    requires n < k
    ensures !DrawsFit(draws, n, k)
    ensures InRange(draws, n) ==> |Picks(draws, [], k)| < k
  {
    if InRange(draws, n) {
      InRangeBound(draws, n);
      var none: seq<int> := [];
      assert Elems(none) + Elems(draws) == Elems(draws);
      PicksCount(draws, none, k);
    }
  }

  /**
   From fitting draws the loop, started with nothing kept, ends with exactly
   `k` distinct in-range indices.
   */
  lemma PicksPlace(draws: seq<int>, n: nat, k: nat)
    requires DrawsFit(draws, n, k)
    ensures |Picks(draws, [], k)| == k
    ensures Distinct(Picks(draws, [], k))
    ensures InRange(Picks(draws, [], k), n)
  {
    var none: seq<int> := [];
    assert Elems(none) + Elems(draws) == Elems(draws);
    PicksCount(draws, [], k);
    PicksDistinct(draws, [], k);
    PicksExtends(draws, [], k);
    var r := Picks(draws, [], k);
    forall t | 0 <= t < |r| ensures 0 <= r[t] < n {
      assert r[t] in r;
    }
  }

  /** The elements of `tiles` that `idx` names, in the order of `idx`. */
  function Select<T>(tiles: seq<T>, idx: seq<int>): (r: seq<T>)
    requires InRange(idx, |tiles|)
  {
    seq(|idx|, p requires 0 <= p < |idx| => tiles[idx[p]])
  }

  /** Over distinct elements, an element is selected exactly when its index is. */
  lemma SelectMember<T>(tiles: seq<T>, idx: seq<int>, t: int)
    requires Distinct(tiles) && InRange(idx, |tiles|) && 0 <= t < |tiles|
    ensures tiles[t] in Select(tiles, idx) <==> t in idx
  {
    var sel := Select(tiles, idx);
    if t in idx {
      var p :| 0 <= p < |idx| && idx[p] == t;
      assert sel[p] == tiles[t];
    }
  }

  /** Distinct indices into distinct elements select distinct elements. */
  lemma SelectDistinct<T>(tiles: seq<T>, idx: seq<int>)
    requires Distinct(tiles) && InRange(idx, |tiles|) && Distinct(idx)
    ensures Distinct(Select(tiles, idx))
  {
  }

  /**
   The elements of `tiles` the placement loop marks, given fitting draws:
   exactly `k` of them, none twice.
   */
  function Placement<T>(tiles: seq<T>, draws: seq<int>, k: nat): (r: seq<T>)
    requires Distinct(tiles) && DrawsFit(draws, |tiles|, k)
    ensures |r| == k && Distinct(r)
    ensures forall x :: x in r ==> x in tiles
  {
    PicksPlace(draws, |tiles|, k);
    SelectDistinct(tiles, Picks(draws, [], k));
    Select(tiles, Picks(draws, [], k))
  }
}
