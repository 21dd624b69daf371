/** Graham's bound: a longest-processing-time schedule is within (4m - 1) / 3m of every other schedule. */
module LptBound {
  import opened Totals
  import opened Schedule

  // ---------------------------------------------------------------- the last item of a bucket

  /** The position of the last item placed in a non-empty bucket. */
  lemma LastPlaced(items: seq<Item>, choices: seq<nat>, m: nat, b: nat) returns (k: nat)
    requires |items| == |choices| && (forall j | 0 <= j < |choices| :: choices[j] < m)
    requires b < m && After(items, choices, m)[b].files != []
    ensures k < |items| && choices[k] == b
    ensures After(items, choices, m)[b] == Put(After(items[..k], choices[..k], m)[b], items[k])
  {
    k := |items| - 1;
    if choices[k] != b {
      var front, chosen := items[..k], choices[..k];
      k := LastPlaced(front, chosen, m, b);
      assert items[..k] == front[..k] && choices[..k] == chosen[..k];
    }
  }

  // ---------------------------------------------------------------- credits

  /**
   * The credit of an item when the deciding item weighs `w` and the other schedule is bounded by `t`:
   * none below `w`, two when the item cannot share a bucket with the deciding item, else one.
   */
  ghost function Credit(x: real, w: real, t: real): real {
    if x < w then 0.0 else if x + w > t then 2.0 else 1.0
  }

  ghost function CreditOf(weights: map<string, real>, w: real, t: real): string -> real {
    file => Credit(WeightOf(weights)(file), w, t)
  }

  lemma TotalOne<T>(f: T -> real, x: T)
    ensures Total(f, [x]) == f(x)
  {
    assert [x][..0] == [];
  }

  lemma TotalTwo<T>(f: T -> real, x: T, y: T)
    ensures Total(f, [x, y]) == f(x) + f(y)
  {
    TotalOne(f, x);
    assert [x, y][..1] == [x];
  }

  /** A bucket of the schedule that the deciding item would overfill carries at least two credits. */
  lemma FullBucketCredit(files: seq<string>, weights: map<string, real>, w: real, t: real)
    requires 0.0 <= w <= t && (forall f | f in files :: WeightOf(weights)(f) >= w)
    requires PartitionWeight(files, weights) > t - w
    ensures Total(CreditOf(weights, w, t), files) >= 2.0
  {
    if |files| == 1 {
      assert files == [files[0]];
      TotalOne(WeightOf(weights), files[0]);
      TotalOne(CreditOf(weights, w, t), files[0]);
    } else if |files| >= 2 {
      TotalAtLeast(CreditOf(weights, w, t), files, 1.0);
    }
  }

  function Heavy(files: seq<string>, weights: map<string, real>, w: real): (heavy: seq<string>)
    ensures forall f | f in heavy :: f in files && WeightOf(weights)(f) >= w
  {
    if files == [] then []
    else
      var last := files[|files| - 1];
      var front := Heavy(files[..|files| - 1], weights, w);
      if WeightOf(weights)(last) >= w then front + [last] else front
  }

  lemma {:induction false} HeavyTotals(files: seq<string>, weights: map<string, real>, w: real, t: real)
    requires forall f | f in files :: WeightOf(weights)(f) >= 0.0
    ensures PartitionWeight(Heavy(files, weights, w), weights) <= PartitionWeight(files, weights)
    ensures Total(CreditOf(weights, w, t), Heavy(files, weights, w)) == Total(CreditOf(weights, w, t), files)
  {
    if files != [] {
      var last, front := files[|files| - 1], files[..|files| - 1];
      assert last in files;
      HeavyTotals(front, weights, w, t);
      if WeightOf(weights)(last) >= w {
        var heavy := Heavy(front, weights, w);
        assert (heavy + [last])[..|heavy|] == heavy;
      }
    }
  }

  lemma FewHeavy(n: nat, w: real, t: real)
    requires n as real * w <= t < 3.0 * w && w >= 0.0
    ensures n <= 2
  {
    assert n >= 3 ==> n as real * w >= 3.0 * w;
  }

  /** When three times the deciding weight exceeds the bound, a bucket within the bound carries at most two credits. */
  lemma BoundedBucketCredit(files: seq<string>, weights: map<string, real>, w: real, t: real)
    requires forall f | f in files :: WeightOf(weights)(f) >= 0.0
    requires 0.0 <= w <= t < 3.0 * w && PartitionWeight(files, weights) <= t
    ensures Total(CreditOf(weights, w, t), files) <= 2.0
  {
    hide Total, CreditOf, WeightOf;
    var heavy := Heavy(files, weights, w);
    HeavyTotals(files, weights, w, t);
    TotalAtLeast(WeightOf(weights), heavy, w);
    FewHeavy(|heavy|, w, t);
    FewCredits(heavy, weights, w, t);
  }

  /** At most two heavy items that fit together carry at most two credits. */
  lemma FewCredits(heavy: seq<string>, weights: map<string, real>, w: real, t: real)
    requires |heavy| <= 2 && (forall f | f in heavy :: WeightOf(weights)(f) >= w)
    requires PartitionWeight(heavy, weights) <= t
    ensures Total(CreditOf(weights, w, t), heavy) <= 2.0
  {
    if |heavy| == 2 {
      assert heavy == [heavy[0], heavy[1]];
      TotalTwo(WeightOf(weights), heavy[0], heavy[1]);
      TotalTwo(CreditOf(weights, w, t), heavy[0], heavy[1]);
      assert heavy[0] in heavy && heavy[1] in heavy;
    } else if |heavy| == 1 {
      assert heavy == [heavy[0]];
      TotalOne(CreditOf(weights, w, t), heavy[0]);
    }
  }

  // ---------------------------------------------------------------- the two cases

  /** Another distribution of the same files over as many buckets, no bucket above `t`. */
  ghost predicate Bounds(other: seq<seq<string>>, items: seq<Item>, m: nat, weights: map<string, real>, t: real) {
    && |other| == m
    && multiset(Concat(other)) == multiset(FilesOf(items))
    && forall j | 0 <= j < m :: PartitionWeight(other[j], weights) <= t
  }

  ghost predicate Sound(items: seq<Item>, choices: seq<nat>, m: nat, weights: map<string, real>) {
    && IsGreedy(items, choices, m)
    && Descending(items) && Weighed(items, weights)
    && forall k | 0 <= k < |items| :: items[k].weight >= 0.0
  }

  lemma FileWeights(items: seq<Item>, weights: map<string, real>, f: string)
    requires Weighed(items, weights) && f in FilesOf(items)
    ensures exists k :: 0 <= k < |items| && items[k].file == f && items[k].weight == WeightOf(weights)(f)
  {
    var k :| 0 <= k < |items| && FilesOf(items)[k] == f;
  }

  lemma OtherFile(other: seq<seq<string>>, items: seq<Item>, m: nat, weights: map<string, real>, t: real, j: nat,
                  f: string)
    requires Bounds(other, items, m, weights, t) && Weighed(items, weights)
    requires forall k | 0 <= k < |items| :: items[k].weight >= 0.0
    requires j < m && f in other[j]
    ensures WeightOf(weights)(f) >= 0.0
  {
    ConcatHas(other, f);
    assert f in multiset(Concat(other));
    assert f in FilesOf(items);
    FileWeights(items, weights, f);
  }

  /** Every single item fits under the bound. */
  lemma ItemFits(other: seq<seq<string>>, items: seq<Item>, m: nat, weights: map<string, real>, t: real, k: nat)
    requires Bounds(other, items, m, weights, t) && Weighed(items, weights)
    requires forall i | 0 <= i < |items| :: items[i].weight >= 0.0
    requires k < |items|
    ensures items[k].weight <= t
  {
    hide Concat, FilesOf, WeightOf;
    var f := items[k].file;
    assert FilesOf(items)[k] == f;
    assert f in multiset(FilesOf(items));
    ConcatHas(other, f);
    var j :| 0 <= j < m && f in other[j];
    forall x | x in other[j] ensures WeightOf(weights)(x) >= 0.0 {
      OtherFile(other, items, m, weights, t, j, x);
    }
    TermWithinTotal(WeightOf(weights), other[j], f);
  }

  lemma TermWithinTotal<T>(f: T -> real, s: seq<T>, x: T)
    requires x in s && forall y | y in s :: f(y) >= 0.0
    ensures f(x) <= Total(f, s)
  {
    hide Total;
    var i :| 0 <= i < |s| && s[i] == x;
    var a, c := s[..i], s[i + 1..];
    assert s == a + [x] + c;
    TotalAround(f, a, x, c);
    TotalAtLeast(f, a + c, 0.0);
  }

  /** The total of a function over all files, split at the deciding item. */
  lemma SplitTotal(f: string -> real, items: seq<Item>, choices: seq<nat>, m: nat, k: nat)
    requires |items| == |choices| && (forall j | 0 <= j < |choices| :: choices[j] < m) && k < |items|
    ensures Total(f, FilesOf(items)) ==
            TotalEach(f, FileLists(After(items[..k], choices[..k], m))) + f(items[k].file) + Total(f,
                FilesOf(items[k + 1..]))
  {
    var lists := FileLists(After(items[..k], choices[..k], m));
    AfterKeepsFiles(items[..k], choices[..k], m);
    TotalPermuted(f, Concat(lists), FilesOf(items[..k]));
    TotalConcat(f, lists);
    assert FilesOf(items) == FilesOf(items[..k]) + [items[k].file] + FilesOf(items[k + 1..]);
    TotalAppend(f, FilesOf(items[..k]), [items[k].file]);
    TotalAppend(f, FilesOf(items[..k]) + [items[k].file], FilesOf(items[k + 1..]));
    TotalOne(f, items[k].file);
  }

  lemma OtherTotal(f: string -> real, items: seq<Item>, other: seq<seq<string>>, m: nat, weights: map<string, real>,
                   t: real)
    requires Bounds(other, items, m, weights, t)
    ensures Total(f, FilesOf(items)) == TotalEach(f, other)
  {
    TotalPermuted(f, Concat(other), FilesOf(items));
    TotalConcat(f, other);
  }

  /** Whatever the deciding item weighs, m times the lightest load before it plus its weight fits m times the bound. */
  lemma LightestLoad(items: seq<Item>, choices: seq<nat>, m: nat, weights: map<string, real>, other: seq<seq<string>>,
                     t: real, k: nat)
    requires Sound(items, choices, m, weights) && Bounds(other, items, m, weights, t) && k < |items|
    ensures m as real * After(items[..k], choices[..k], m)[choices[k]].sum + items[k].weight <= m as real * t
  {
    hide After, Total, TotalEach, Concat, FilesOf, WeightOf, Descending;
    var w := WeightOf(weights);
    var before := After(items[..k], choices[..k], m);
    var lists := FileLists(before);
    var s := before[choices[k]].sum;
    forall b | 0 <= b < m ensures Total(w, lists[b]) >= s {
      assert Lightest(before, choices[k]);
      SumIsWeight(items[..k], choices[..k], m, weights, b);
    }
    EachAtLeast(w, lists, s);
    EachAtMost(w, other, t);
    SplitTotal(w, items, choices, m, k);
    OtherTotal(w, items, other, m, weights, t);
    RestNonNegative(items, weights, k);
  }

  lemma RestNonNegative(items: seq<Item>, weights: map<string, real>, k: nat)
    requires Weighed(items, weights) && k < |items|
    requires forall i | 0 <= i < |items| :: items[i].weight >= 0.0
    ensures Total(WeightOf(weights), FilesOf(items[k + 1..])) >= 0.0
  {
    forall f | f in FilesOf(items[k + 1..]) ensures WeightOf(weights)(f) >= 0.0 {
      FileWeights(items[k + 1..], weights, f);
    }
    TotalAtLeast(WeightOf(weights), FilesOf(items[k + 1..]), 0.0);
  }

  /** With a deciding item above a third of the bound, the schedule stays within the bound itself. */
  lemma HeavyItemFits(items: seq<Item>, choices: seq<nat>, m: nat, weights: map<string, real>, other: seq<seq<string>>,
                      t: real, k: nat)
    requires Sound(items, choices, m, weights) && Bounds(other, items, m, weights, t) && k < |items|
    requires 3.0 * items[k].weight > t
    ensures After(items[..k], choices[..k], m)[choices[k]].sum + items[k].weight <= t
  {
    hide After, Total, TotalEach, Concat, FilesOf, WeightOf, Descending;
    var before := After(items[..k], choices[..k], m);
    var w := items[k].weight;
    ItemFits(other, items, m, weights, t, k);
    if before[choices[k]].sum + w > t {
      var credit := CreditOf(weights, w, t);
      CreditsBefore(items, choices, m, weights, t, k);
      forall j | 0 <= j < m ensures Total(credit, other[j]) <= 2.0 {
        forall f | f in other[j] ensures WeightOf(weights)(f) >= 0.0 {
          OtherFile(other, items, m, weights, t, j, f);
        }
        BoundedBucketCredit(other[j], weights, w, t);
      }
      EachAtMost(credit, other, 2.0);
      SplitTotal(credit, items, choices, m, k);
      OtherTotal(credit, items, other, m, weights, t);
      TotalAtLeast(credit, FilesOf(items[k + 1..]), 0.0);
    }
  }

  lemma CreditsBefore(items: seq<Item>, choices: seq<nat>, m: nat, weights: map<string, real>, t: real, k: nat)
    requires Sound(items, choices, m, weights) && k < |items| && items[k].weight <= t
    requires After(items[..k], choices[..k], m)[choices[k]].sum + items[k].weight > t
    ensures TotalEach(CreditOf(weights, items[k].weight, t), FileLists(After(items[..k], choices[..k],
            m))) >= m as real * 2.0
  {
    hide After, Total, TotalEach, WeightOf, CreditOf;
    var before := After(items[..k], choices[..k], m);
    var lists := FileLists(before);
    var w := items[k].weight;
    forall b | 0 <= b < m ensures Total(CreditOf(weights, w, t), lists[b]) >= 2.0 {
      assert Lightest(before, choices[k]);
      SumIsWeight(items[..k], choices[..k], m, weights, b);
      forall f | f in lists[b] ensures WeightOf(weights)(f) >= w {
        FilesPlaced(items[..k], choices[..k], m, b, f);
      }
      FullBucketCredit(lists[b], weights, w, t);
    }
    EachAtLeast(CreditOf(weights, w, t), lists, 2.0);
  }

  /** Graham's bound on every bucket of the schedule. */
  lemma GrahamBound(items: seq<Item>, choices: seq<nat>, m: nat, weights: map<string, real>, other: seq<seq<string>>,
                    t: real, b: nat)
    requires Sound(items, choices, m, weights) && Bounds(other, items, m, weights, t) && b < m
    ensures 3.0 * m as real * PartitionWeight(After(items, choices, m)[b].files, weights) <= (4.0 * m as real - 1.0) * t
  {
    hide After, Total, PartitionWeight, WeightOf, Bounds;
    SumIsWeight(items, choices, m, weights, b);
    LoadBound(items, choices, m, weights, other, t, b);
  }

  /** Graham's ratio between a load and a bound on `m` buckets. */
  ghost predicate WithinRatio(m: real, load: real, t: real) {
    3.0 * m * load <= (4.0 * m - 1.0) * t
  }

  lemma LoadBound(items: seq<Item>, choices: seq<nat>, m: nat, weights: map<string, real>, other: seq<seq<string>>,
                  t: real, b: nat)
    requires Sound(items, choices, m, weights) && Bounds(other, items, m, weights, t) && b < m
    ensures WithinRatio(m as real, After(items, choices, m)[b].sum, t)
  {
    hide After, Descending, Weighed, Bounds, WeightOf, WithinRatio, Lightest;
    var after := After(items, choices, m);
    BoundNonNegative(items, m, weights, other, t);
    if after[b].files == [] {
      SumNonNegative(items, choices, m, b);
      WithinBound(m as real, 0.0, t);
    } else {
      var k := LastPlaced(items, choices, m, b);
      var s, w := After(items[..k], choices[..k], m)[b].sum, items[k].weight;
      if 3.0 * w > t {
        HeavyItemFits(items, choices, m, weights, other, t, k);
        WithinBound(m as real, s + w, t);
      } else {
        LightestLoad(items, choices, m, weights, other, t, k);
        LightItem(m as real, s, w, t);
      }
    }
  }

  lemma WithinBound(m: real, load: real, t: real)
    requires m >= 1.0 && 0.0 <= t && load <= t
    ensures WithinRatio(m, load, t)
  {
    assert m * load <= m * t;
    assert m * t >= t;
  }

  lemma LightItem(m: real, s: real, w: real, t: real)
    requires m >= 1.0 && m * s + w <= m * t && 3.0 * w <= t
    ensures WithinRatio(m, s + w, t)
  {
    assert (m - 1.0) * (3.0 * w) <= (m - 1.0) * t;
  }

  lemma BoundNonNegative(items: seq<Item>, m: nat, weights: map<string, real>, other: seq<seq<string>>, t: real)
    requires Bounds(other, items, m, weights, t) && Weighed(items, weights) && m > 0
    requires forall k | 0 <= k < |items| :: items[k].weight >= 0.0
    ensures t >= 0.0
  {
    forall f | f in other[0] ensures WeightOf(weights)(f) >= 0.0 {
      OtherFile(other, items, m, weights, t, 0, f);
    }
    TotalAtLeast(WeightOf(weights), other[0], 0.0);
  }

  // ---------------------------------------------------------------- the bound is attained

  const TIGHT_WEIGHTS: map<string, real> := map["a" := 3.0, "b" := 3.0, "c" := 2.0, "d" := 2.0, "e" := 2.0]

  const TIGHT_ITEMS := [Item("a", 3.0), Item("b", 3.0), Item("c", 2.0), Item("d", 2.0), Item("e", 2.0)]
  const TIGHT_CHOICES: seq<nat> := [0, 1, 0, 1, 0]

  /** Five files on two buckets: the schedule ends with 7 and 5 where 6 and 6 is possible. */
  lemma GrahamBoundTight()
    ensures Sound(TIGHT_ITEMS, TIGHT_CHOICES, 2, TIGHT_WEIGHTS)
    ensures Bounds([["a", "b"], ["c", "d", "e"]], TIGHT_ITEMS, 2, TIGHT_WEIGHTS, 6.0)
    ensures 3.0 * 2.0 * After(TIGHT_ITEMS, TIGHT_CHOICES, 2)[0].sum == (4.0 * 2.0 - 1.0) * 6.0
  {
    hide IsGreedy, After, Total, Concat, PartitionWeight, Descending, Weighed;
    TightSchedule();
    TightItems();
    OtherTight();
  }

  lemma TightItems()
    ensures Descending(TIGHT_ITEMS) && Weighed(TIGHT_ITEMS, TIGHT_WEIGHTS)
    ensures FilesOf(TIGHT_ITEMS) == ["a", "b", "c", "d", "e"]
  {
  }

  lemma TightSchedule()
    ensures IsGreedy(TIGHT_ITEMS, TIGHT_CHOICES, 2)
    ensures After(TIGHT_ITEMS, TIGHT_CHOICES, 2) == [Bucket(7.0, ["a", "c", "e"]), Bucket(5.0, ["b", "d"])]
  {
    hide After, IsGreedy;
    NoItems();
    Place(0, Bucket(0.0, []), Bucket(0.0, []));
    assert [] + ["a"] == ["a"] && [] + ["b"] == ["b"] && ["a"] + ["c"] == ["a", "c"] && ["b"] + ["d"] == ["b", "d"];
    assert ["a", "c"] + ["e"] == ["a", "c", "e"];
    Place(1, Bucket(3.0, ["a"]), Bucket(0.0, []));
    Place(2, Bucket(3.0, ["a"]), Bucket(3.0, ["b"]));
    Place(3, Bucket(5.0, ["a", "c"]), Bucket(3.0, ["b"]));
    Place(4, Bucket(5.0, ["a", "c"]), Bucket(5.0, ["b", "d"]));
    assert TIGHT_ITEMS[..5] == TIGHT_ITEMS && TIGHT_CHOICES[..5] == TIGHT_CHOICES;
  }

  /** The next of the five files goes to its chosen bucket. */
  lemma Place(k: nat, left: Bucket, right: Bucket)
    requires k < 5 && IsGreedy(TIGHT_ITEMS[..k], TIGHT_CHOICES[..k], 2)
    requires After(TIGHT_ITEMS[..k], TIGHT_CHOICES[..k], 2) == [left, right]
    requires Lightest([left, right], TIGHT_CHOICES[k])
    ensures IsGreedy(TIGHT_ITEMS[..k + 1], TIGHT_CHOICES[..k + 1], 2)
    ensures After(TIGHT_ITEMS[..k + 1], TIGHT_CHOICES[..k + 1], 2) ==
            if TIGHT_CHOICES[k] == 0 then [Put(left, TIGHT_ITEMS[k]), right] else [left, Put(right, TIGHT_ITEMS[k])]
  {
    hide After, IsGreedy;
    AfterOneMore(TIGHT_ITEMS[..k], TIGHT_CHOICES[..k], 2, TIGHT_ITEMS[k], TIGHT_CHOICES[k]);
    GreedyOneMore(TIGHT_ITEMS[..k], TIGHT_CHOICES[..k], 2, TIGHT_ITEMS[k], TIGHT_CHOICES[k]);
    assert TIGHT_ITEMS[..k + 1] == TIGHT_ITEMS[..k] + [TIGHT_ITEMS[k]];
    assert TIGHT_CHOICES[..k + 1] == TIGHT_CHOICES[..k] + [TIGHT_CHOICES[k]];
  }

  lemma NoItems()
    ensures IsGreedy(TIGHT_ITEMS[..0], TIGHT_CHOICES[..0], 2)
    ensures After(TIGHT_ITEMS[..0], TIGHT_CHOICES[..0], 2) == [Bucket(0.0, []), Bucket(0.0, [])]
  {
  }

  lemma OtherTight()
    ensures PartitionWeight(["a", "b"], TIGHT_WEIGHTS) == 6.0 && PartitionWeight(["c", "d", "e"], TIGHT_WEIGHTS) == 6.0
    ensures Concat([["a", "b"], ["c", "d", "e"]]) == ["a", "b", "c", "d", "e"]
  {
    var w := WeightOf(TIGHT_WEIGHTS);
    TotalTwo(w, "a", "b");
    TotalTwo(w, "c", "d");
    assert ["c", "d", "e"][..2] == ["c", "d"];
    var lists := [["a", "b"], ["c", "d", "e"]];
    assert lists[..1] == [["a", "b"]] && lists[..1][..0] == [];
  }
}
