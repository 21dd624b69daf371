/** When a longest-processing-time schedule leaves no bucket empty. */
module FilledBuckets {
  import opened Schedule

  ghost function EmptyBuckets(buckets: seq<Bucket>): set<nat> {
    set b | 0 <= b < |buckets| && buckets[b].files == []
  }

  ghost function Range(m: nat): (r: set<nat>)
    ensures |r| == m && forall b: nat :: b in r <==> b < m
  {
    if m == 0 then {} else Range(m - 1) + {m - 1}
  }

  /** How many items carry a non-negative weight. */
  function NonNegatives(items: seq<Item>): (n: nat)
    ensures n <= |items|
  {
    if items == [] then 0
    else NonNegatives(items[..|items| - 1]) + if items[|items| - 1].weight >= 0.0 then 1 else 0
  }

  lemma {:induction false} AllNonNegative(items: seq<Item>)
    requires forall k | 0 <= k < |items| :: items[k].weight >= 0.0
    ensures NonNegatives(items) == |items|
  {
    if items != [] {
      AllNonNegative(items[..|items| - 1]);
    }
  }

  lemma {:induction false} NegativeCounts(items: seq<Item>, k: nat)
    requires k < |items| && items[k].weight < 0.0
    ensures NonNegatives(items) < |items|
  {
    if k < |items| - 1 {
      NegativeCounts(items[..|items| - 1], k);
    }
  }

  lemma EmptyAfterPut(before: seq<Bucket>, c: nat, item: Item)
    requires c < |before|
    ensures EmptyBuckets(before[c := Put(before[c], item)]) == EmptyBuckets(before) - {c}
  {
  }

  lemma {:induction false} EmptyHasNoSum(items: seq<Item>, choices: seq<nat>, m: nat, b: nat)
    requires |items| == |choices| && (forall k | 0 <= k < |choices| :: choices[k] < m) && b < m
    ensures After(items, choices, m)[b].files == [] ==> After(items, choices, m)[b].sum == 0.0
  {
    if items != [] {
      var k := |items| - 1;
      EmptyHasNoSum(items[..k], choices[..k], m, b);
      assert choices[k] == b ==> |After(items, choices, m)[b].files| > 0;
    }
  }

  /** While no weight is negative and a bucket is empty, a lightest bucket is an empty one. */
  lemma EmptyFirst(items: seq<Item>, choices: seq<nat>, m: nat, b: nat, c: nat)
    requires |items| == |choices| && (forall k | 0 <= k < |choices| :: choices[k] < m)
    requires forall k | 0 <= k < |items| :: items[k].weight >= 0.0
    requires b < m && After(items, choices, m)[b].files == [] && Lightest(After(items, choices, m), c)
    ensures After(items, choices, m)[c].files == []
  {
    hide After;
    SumNonNegative(items, choices, m, c);
    EmptyHasNoSum(items, choices, m, b);
  }

  /** With descending weights, once an item is negative those after it are; a bucket that takes one is lightest for good. */
  lemma {:induction false} SomeBucketNegative(items: seq<Item>, choices: seq<nat>, m: nat) returns (b: nat)
    requires IsGreedy(items, choices, m) && Descending(items)
    requires NonNegatives(items) < |items| && NonNegatives(items) < m
    ensures b < m && After(items, choices, m)[b].sum < 0.0
    decreases |items|, 0
  {
    hide IsGreedy, After, Lightest, Descending, NonNegatives;
    var k := |items| - 1;
    var front := items[..k];
    LastIsNegative(items);
    LastStep(items, choices, m);
    b := choices[k];
    var before := After(front, choices[..k], m);
    if NonNegatives(front) == k {
      EmptyCount(front, choices[..k], m);
      assert EmptyBuckets(before) != {};
      var e :| e in EmptyBuckets(before);
      EmptyHasNoSum(front, choices[..k], m, e);
      LightestSum(before, b, e);
    } else {
      var n := SomeBucketNegative(front, choices[..k], m);
      LightestSum(before, b, n);
    }
  }

  lemma LightestSum(buckets: seq<Bucket>, c: nat, b: nat)
    requires Lightest(buckets, c) && b < |buckets|
    ensures c < |buckets| && buckets[c].sum <= buckets[b].sum
  {
  }

  /** The last placement: into a lightest bucket of what the placements before it left. */
  lemma LastStep(items: seq<Item>, choices: seq<nat>, m: nat)
    requires IsGreedy(items, choices, m) && items != []
    ensures |choices| == |items| && forall k | 0 <= k < |choices| :: choices[k] < m
    ensures var k := |items| - 1;
            var before := After(items[..k], choices[..k], m);
            && IsGreedy(items[..k], choices[..k], m) && Lightest(before, choices[k])
            && After(items, choices, m) == before[choices[k] := Put(before[choices[k]], items[k])]
  {
    GreedyPrefix(items, choices, m, |items| - 1);
  }

  lemma LastIsNegative(items: seq<Item>)
    requires Descending(items) && NonNegatives(items) < |items|
    ensures items[|items| - 1].weight < 0.0
    ensures Descending(items[..|items| - 1]) && NonNegatives(items[..|items| - 1]) == NonNegatives(items)
  {
    if items[|items| - 1].weight >= 0.0 {
      AllNonNegative(items);
    }
  }

  /** The buckets left empty by n placements, p of them non-negative: the first negative item fills one more. */
  function EmptyLeft(n: nat, p: nat, m: nat): nat
    requires p <= n
  {
    if p >= m then 0 else if n > p then m - p - 1 else m - p
  }

  lemma NoneNegative(items: seq<Item>)
    requires NonNegatives(items) == |items|
    ensures forall k | 0 <= k < |items| :: items[k].weight >= 0.0
  {
    forall k | 0 <= k < |items| ensures items[k].weight >= 0.0 {
      if items[k].weight < 0.0 {
        NegativeCounts(items, k);
      }
    }
  }

  /** While no weight is negative, the next item goes to an empty bucket, if there is one. */
  lemma FillsEmpty(items: seq<Item>, choices: seq<nat>, m: nat, c: nat)
    requires IsGreedy(items, choices, m) && NonNegatives(items) == |items|
    requires Lightest(After(items, choices, m), c) && EmptyBuckets(After(items, choices, m)) != {}
    ensures c in EmptyBuckets(After(items, choices, m))
  {
    hide After, IsGreedy;
    assert |items| == |choices| && forall k | 0 <= k < |choices| :: choices[k] < m by { GreedyShape(items, choices, m); }
    NoneNegative(items);
    var e :| e in EmptyBuckets(After(items, choices, m));
    EmptyFirst(items, choices, m, e, c);
  }

  lemma GreedyShape(items: seq<Item>, choices: seq<nat>, m: nat)
    requires IsGreedy(items, choices, m)
    ensures |items| == |choices| && forall k | 0 <= k < |choices| :: choices[k] < m
  {
  }

  /** Once a bucket has a negative sum, the next item goes to a bucket in use. */
  lemma SkipsEmpty(items: seq<Item>, choices: seq<nat>, m: nat, c: nat)
    requires IsGreedy(items, choices, m) && Descending(items)
    requires NonNegatives(items) < |items| && NonNegatives(items) < m && Lightest(After(items, choices, m), c)
    ensures c !in EmptyBuckets(After(items, choices, m))
    decreases |items|, 1
  {
    hide After, IsGreedy, Lightest, Descending, NonNegatives;
    GreedyShape(items, choices, m);
    var b := SomeBucketNegative(items, choices, m);
    LightestSum(After(items, choices, m), c, b);
    EmptyHasNoSum(items, choices, m, c);
  }

  /** After n placements, p of them of non-negative weight: how many buckets are empty. */
  lemma {:induction false} EmptyCount(items: seq<Item>, choices: seq<nat>, m: nat)
    requires IsGreedy(items, choices, m) && Descending(items)
    ensures |EmptyBuckets(After(items, choices, m))| == EmptyLeft(|items|, NonNegatives(items), m)
    decreases |items|, 0
  {
    if items == [] {
      assert EmptyBuckets(After(items, choices, m)) == Range(m);
    } else {
      hide After, IsGreedy, Lightest, EmptyBuckets;
      var k := |items| - 1;
      var front := items[..k];
      LastStep(items, choices, m);
      var before, c := After(front, choices[..k], m), choices[k];
      EmptyCount(front, choices[..k], m);
      EmptyAfterPut(before, c, items[k]);
      if items[k].weight >= 0.0 {
        assert forall j | 0 <= j < k :: items[k].weight <= items[j].weight == front[j].weight;
        AllNonNegative(front);
      }
      if NonNegatives(front) == k {
        if EmptyBuckets(before) != {} {
          FillsEmpty(front, choices[..k], m, c);
        }
      } else if NonNegatives(front) < m {
        SkipsEmpty(front, choices[..k], m, c);
      }
    }
  }

  /** No bucket stays empty exactly when there are as many items as buckets, all but one non-negative. */
  lemma AllFilledIff(items: seq<Item>, choices: seq<nat>, m: nat)
    requires IsGreedy(items, choices, m) && Descending(items)
    ensures (forall b | 0 <= b < m :: After(items, choices, m)[b].files != []) <==>
            |items| >= m && NonNegatives(items) >= m - 1
  {
    hide After;
    var after := After(items, choices, m);
    EmptyCount(items, choices, m);
    if EmptyLeft(|items|, NonNegatives(items), m) > 0 {
      assert EmptyBuckets(after) != {};
      var b :| b in EmptyBuckets(after);
    } else {
      assert EmptyBuckets(after) == {};
      forall b | 0 <= b < m ensures after[b].files != [] {
        assert b !in EmptyBuckets(after);
      }
    }
  }
}
