/** Distribution of test files over coverage partitions and, inside each partition, over the two test projects. */
module Partitions {
  import opened Totals
  import opened Schedule
  import opened LptBound
  import opened FilledBuckets
  import opened BucketHeap
  import opened Sorting
  import opened Collation
  import opened Results

  datatype PartitionError =
    | HeapIndexOutOfBounds
    | EmptyPartition(index: nat)

  // ---------------------------------------------------------------- heaviest file first

  function ByWeight(collate: Collate): Comparator<Item> {
    (a: Item, b: Item) =>
      if b.weight > a.weight then 1 else if b.weight < a.weight then -1 else collate(a.file, b.file)
  }

  function Weigh(files: seq<string>, weights: map<string, real>): (items: seq<Item>)
    ensures FilesOf(items) == files && Weighed(items, weights)
  {
    seq(|files|, i requires 0 <= i < |files| => Item(files[i], WeightOf(weights)(files[i])))
  }

  function Seeded(files: seq<string>, weights: map<string, real>, collate: Collate): seq<Item> {
    Sort(Weigh(files, weights), ByWeight(collate))
  }

  lemma ByWeightIsPreorder(collate: Collate)
    requires IsCollation(collate)
    ensures Preorder(ByWeight(collate))
  {
    hide IsCollation;
    var cmp := ByWeight(collate);
    forall a, b ensures cmp(a, b) <= 0 || cmp(b, a) <= 0 {
      CollationAt(collate, a.file, b.file, a.file);
    }
    forall a, b, c ensures cmp(a, b) <= 0 && cmp(b, c) <= 0 ==> cmp(a, c) <= 0 {
      CollationAt(collate, a.file, b.file, c.file);
    }
  }

  lemma FilesAround(a: seq<Item>, x: Item, c: seq<Item>)
    ensures multiset(FilesOf(a + [x] + c)) == multiset(FilesOf(a + c)) + multiset{x.file}
  {
    assert FilesOf(a + [x] + c) == FilesOf(a) + [x.file] + FilesOf(c);
    assert FilesOf(a + c) == FilesOf(a) + FilesOf(c);
  }

  lemma {:induction false} FilesPermuted(a: seq<Item>, b: seq<Item>)
    requires multiset(a) == multiset(b)
    ensures multiset(FilesOf(a)) == multiset(FilesOf(b))
  {
    hide FilesOf;
    if a == [] {
      assert |multiset(b)| == 0;
    } else {
      var x, front := a[|a| - 1], a[..|a| - 1];
      assert a == front + [x];
      assert x in multiset(b);
      var i :| 0 <= i < |b| && b[i] == x;
      assert b == b[..i] + [x] + b[i + 1..];
      RemoveSame(multiset(front), multiset(b[..i] + b[i + 1..]), x);
      FilesPermuted(front, b[..i] + b[i + 1..]);
      assert front + [x] + [] == a && front + [] == front;
      FilesAround(front, x, []);
      FilesAround(b[..i], x, b[i + 1..]);
    }
  }

  /** Files of equal weight stand in collation order. */
  ghost predicate TiesCollated(items: seq<Item>, collate: Collate) {
    forall i, j | 0 <= i < j < |items| && items[i].weight == items[j].weight ::
      items[i].file == items[j].file || collate(items[i].file, items[j].file) < 0
  }

  /**
   * Seeding keeps the files, weighs them by the duration map or as one, puts heavier ones first, and
   * equally heavy ones in collation order.
   */
  lemma SeededFacts(files: seq<string>, weights: map<string, real>, collate: Collate)
    requires IsCollation(collate)
    ensures multiset(FilesOf(Seeded(files, weights, collate))) == multiset(files)
    ensures Weighed(Seeded(files, weights, collate), weights) && Descending(Seeded(files, weights, collate))
    ensures TiesCollated(Seeded(files, weights, collate), collate)
    ensures forall item | item in Seeded(files, weights, collate) ::
              item.weight == if item.file in weights then weights[item.file] else 1.0
  {
    hide IsCollation, Preorder, Sort;
    var items, seeded := Weigh(files, weights), Seeded(files, weights, collate);
    ByWeightIsPreorder(collate);
    SortSorts(items, ByWeight(collate));
    FilesPermuted(seeded, items);
    SameElements(seeded, items);
    forall i | 0 <= i < |seeded| ensures seeded[i].weight == WeightOf(weights)(seeded[i].file) {
      assert seeded[i] in items;
    }
    forall i, j | 0 <= i < j < |seeded|
      ensures seeded[j].weight <= seeded[i].weight
      ensures seeded[i].weight == seeded[j].weight ==>
                seeded[i].file == seeded[j].file || collate(seeded[i].file, seeded[j].file) < 0
    {
      assert ByWeight(collate)(seeded[i], seeded[j]) <= 0;
      CollationAt(collate, seeded[i].file, seeded[j].file, seeded[i].file);
    }
  }

  /** `lists` is a longest-processing-time schedule of `files` over `m` buckets. */
  ghost predicate IsLptSchedule(files: seq<string>, weights: map<string, real>, m: nat, collate: Collate,
                                lists: seq<seq<string>>) {
    var items := Seeded(files, weights, collate);
    exists choices :: IsGreedy(items, choices, m) && lists == FileLists(After(items, choices, m))
  }

  /** Assign files to partitions, each to the bucket at the root of a min-heap. */
  method AssignWeightedPartitions(files: seq<string>, weights: map<string, real>, partitions: nat, collate: Collate)
    returns (r: Result<seq<seq<string>>, PartitionError>)
    requires IsCollation(collate)
    ensures r == Failure(HeapIndexOutOfBounds) <==> files != [] && partitions == 0
    ensures r.Success? <==> files == [] || partitions > 0
    ensures r.Success? ==> IsLptSchedule(files, weights, partitions, collate, r.value)
  {
    ghost var choices: seq<nat> := [];
    if files == [] {
      assert Seeded(files, weights, collate) == [];
      var none := seq(partitions, i => []);
      assert IsGreedy([], choices, partitions) && none == FileLists(After([], choices, partitions));
      return Success(none);
    }
    if partitions == 0 {
      return Failure(HeapIndexOutOfBounds);
    }
    var weighted := Seeded(files, weights, collate);
    var buckets := new Bucket[partitions](i => Bucket(0.0, []));
    var heap := new nat[partitions](i => i);
    EvenHeap(buckets[..], heap[..]);
    for k := 0 to |weighted|
      invariant fresh(buckets) && fresh(heap) && buckets.Length == heap.Length == partitions
      invariant IsGreedy(weighted[..k], choices, partitions) && buckets[..] == After(weighted[..k], choices, partitions)
      invariant IsPermutation(heap[..]) && IsHeap(buckets[..], heap[..])
    {
      var top := heap[0];
      PlaceFile(buckets, heap, weighted[k]);
      ExtendGreedy(weighted, choices, partitions, k, top);
      choices := choices + [top];
    }
    assert weighted[..|weighted|] == weighted;
    r := Success(FileLists(buckets[..]));
  }

  /** Put one file into the root bucket and restore the heap. */
  method PlaceFile(buckets: array<Bucket>, heap: array<nat>, item: Item)
    requires buckets.Length == heap.Length > 0
    requires IsPermutation(heap[..]) && IsHeap(buckets[..], heap[..])
    modifies buckets, heap
    ensures IsPermutation(heap[..]) && IsHeap(buckets[..], heap[..])
    ensures old(heap[0]) < buckets.Length && Lightest(old(buckets[..]), old(heap[0]))
    ensures forall b | 0 <= b < buckets.Length ::
              && old(buckets[heap[0]].sum) <= old(buckets[b].sum)
              && (old(buckets[heap[0]].sum) == old(buckets[b].sum) ==>
                  |old(buckets[heap[0]].files)| <= |old(buckets[b].files)|)
    ensures buckets[..] == old(buckets[..])[old(heap[0]) := Put(old(buckets[..])[old(heap[0])], item)]
    ensures buckets[old(heap[0])].sum == old(buckets[heap[0]].sum) + item.weight
    ensures buckets[old(heap[0])].files == old(buckets[heap[0]].files) + [item.file]
  {
    var top := heap[0];
    ghost var before := buckets[..];
    RootIsLightestBucket(before, heap[..]);
    buckets[top] := Put(buckets[top], item);
    assert buckets[..] == before[top := Put(before[top], item)];
    RootGrew(before, buckets[..], heap[..]);
    SiftDown(buckets, heap, 0);
  }

  /** The identity arrangement of equal buckets is a heap. */
  lemma EvenHeap(buckets: seq<Bucket>, heap: seq<nat>)
    requires |heap| == |buckets| && (forall i | 0 <= i < |heap| :: heap[i] == i && buckets[i] == Bucket(0.0, []))
    ensures IsPermutation(heap) && IsHeap(buckets, heap) && buckets == After([], [], |buckets|)
  {
    forall b: nat | b < |heap| ensures b in heap {
      assert heap[b] == b;
    }
  }

  lemma ExtendGreedy(items: seq<Item>, choices: seq<nat>, m: nat, k: nat, top: nat)
    requires k < |items| && IsGreedy(items[..k], choices, m) && Lightest(After(items[..k], choices, m), top)
    ensures IsGreedy(items[..k + 1], choices + [top], m)
    ensures After(items[..k + 1], choices + [top], m) ==
            After(items[..k], choices, m)[top := Put(After(items[..k], choices, m)[top], items[k])]
  {
    var more, chosen := items[..k + 1], choices + [top];
    assert more[..k] == items[..k] && chosen[..k] == choices;
    forall j | 0 <= j < k + 1 ensures Lightest(After(more[..j], chosen[..j], m), chosen[j]) {
      if j < k {
        assert more[..j] == items[..k][..j] && chosen[..j] == choices[..j];
      }
    }
  }

  /** A schedule distributes the files over the partitions, losing and repeating none. */
  lemma ScheduleConserves(files: seq<string>, weights: map<string, real>, m: nat, collate: Collate,
                          lists: seq<seq<string>>)
    requires IsCollation(collate) && IsLptSchedule(files, weights, m, collate, lists)
    ensures |lists| == m && multiset(Concat(lists)) == multiset(files)
  {
    var items := Seeded(files, weights, collate);
    var choices :| IsGreedy(items, choices, m) && lists == FileLists(After(items, choices, m));
    SeededFacts(files, weights, collate);
    AfterKeepsFiles(items, choices, m);
  }

  ghost predicate NonNegative(files: seq<string>, weights: map<string, real>) {
    forall f | f in files :: WeightOf(weights)(f) >= 0.0
  }

  lemma SeededSound(files: seq<string>, weights: map<string, real>, m: nat, collate: Collate, choices: seq<nat>)
    requires IsCollation(collate) && NonNegative(files, weights)
    requires IsGreedy(Seeded(files, weights, collate), choices, m)
    ensures Sound(Seeded(files, weights, collate), choices, m, weights)
    ensures |Seeded(files, weights, collate)| == |files|
  {
    hide IsCollation, After, Sort, Lightest;
    var items := Seeded(files, weights, collate);
    SeededFacts(files, weights, collate);
    SameElements(FilesOf(items), files);
    forall k | 0 <= k < |items| ensures items[k].weight >= 0.0 {
      assert FilesOf(items)[k] in files;
    }
  }

  /** The files of non-negative weight. */
  function NonNegativeFiles(files: seq<string>, weights: map<string, real>): seq<string> {
    if files == [] then []
    else
      var last, front := files[|files| - 1], NonNegativeFiles(files[..|files| - 1], weights);
      if WeightOf(weights)(last) >= 0.0 then front + [last] else front
  }

  ghost function NonNegativity(weights: map<string, real>): string -> real {
    file => if WeightOf(weights)(file) >= 0.0 then 1.0 else 0.0
  }

  lemma {:induction false} NonNegativeTotal(files: seq<string>, weights: map<string, real>)
    ensures |NonNegativeFiles(files, weights)| as real == Total(NonNegativity(weights), files)
  {
    if files != [] {
      NonNegativeTotal(files[..|files| - 1], weights);
    }
  }

  lemma {:induction false} NonNegativeItems(items: seq<Item>, weights: map<string, real>)
    requires Weighed(items, weights)
    ensures NonNegatives(items) == |NonNegativeFiles(FilesOf(items), weights)|
  {
    if items != [] {
      var k := |items| - 1;
      NonNegativeItems(items[..k], weights);
      assert FilesOf(items)[..k] == FilesOf(items[..k]);
    }
  }

  lemma SeededNonNegatives(files: seq<string>, weights: map<string, real>, collate: Collate)
    requires IsCollation(collate)
    ensures NonNegatives(Seeded(files, weights, collate)) == |NonNegativeFiles(files, weights)|
    ensures |Seeded(files, weights, collate)| == |files| && Descending(Seeded(files, weights, collate))
  {
    hide IsCollation, Seeded, NonNegatives, NonNegativeFiles, Total, Descending;
    var items := Seeded(files, weights, collate);
    SeededFacts(files, weights, collate);
    SameElements(FilesOf(items), files);
    NonNegativeItems(items, weights);
    NonNegativeTotal(FilesOf(items), weights);
    NonNegativeTotal(files, weights);
    TotalPermuted(NonNegativity(weights), FilesOf(items), files);
  }

  /**
   * Every partition is non-empty exactly when there are at least `m` files and at least `m - 1` of
   * them have a non-negative weight: the first file of negative weight makes its partition the
   * lightest for good, and draws all the later ones.
   */
  lemma PartitionsFilledIff(files: seq<string>, weights: map<string, real>, m: nat, collate: Collate,
                            lists: seq<seq<string>>)
    requires IsCollation(collate) && IsLptSchedule(files, weights, m, collate, lists)
    ensures (forall b | 0 <= b < |lists| :: lists[b] != []) <==>
            |files| >= m && |NonNegativeFiles(files, weights)| >= m - 1
  {
    hide IsCollation, After, Seeded, Lightest, Descending;
    var items := Seeded(files, weights, collate);
    var choices :| IsGreedy(items, choices, m) && lists == FileLists(After(items, choices, m));
    SeededNonNegatives(files, weights, collate);
    AllFilledIff(items, choices, m);
    assert NonNegatives(items) == |NonNegativeFiles(files, weights)|;
    if |files| >= m && |NonNegativeFiles(files, weights)| >= m - 1 {
      forall b | 0 <= b < |lists| ensures lists[b] != [] {
        assert After(items, choices, m)[b].files != [];
      }
    } else {
      var b :| 0 <= b < m && After(items, choices, m)[b].files == [];
      assert lists[b] == [];
    }
  }

  /** With non-negative weights the number of files alone decides. */
  lemma {:induction false} AllFilesNonNegative(files: seq<string>, weights: map<string, real>)
    requires NonNegative(files, weights)
    ensures |NonNegativeFiles(files, weights)| == |files|
  {
    if files != [] {
      AllFilesNonNegative(files[..|files| - 1], weights);
    }
  }

  /** With non-negative weights every partition is non-empty exactly when there are as many files. */
  lemma NonNegativeFilledIff(files: seq<string>, weights: map<string, real>, m: nat, collate: Collate,
                             lists: seq<seq<string>>)
    requires IsCollation(collate) && NonNegative(files, weights) && IsLptSchedule(files, weights, m, collate, lists)
    ensures (forall b | 0 <= b < |lists| :: lists[b] != []) <==> |files| >= m
  {
    hide IsCollation, IsLptSchedule, NonNegative;
    PartitionsFilledIff(files, weights, m, collate, lists);
    AllFilesNonNegative(files, weights);
  }

  /** As many files as partitions are not enough: two files of negative recorded duration share one of two partitions. */
  lemma NegativeWeightStarves(collate: Collate, lists: seq<seq<string>>)
    requires IsCollation(collate) && IsLptSchedule(["a", "b"], map["a" := -1.0, "b" := -1.0], 2, collate, lists)
    ensures exists b :: 0 <= b < |lists| && lists[b] == []
  {
    PartitionsFilledIff(["a", "b"], map["a" := -1.0, "b" := -1.0], 2, collate, lists);
    BothNegative();
  }

  lemma BothNegative()
    ensures NonNegativeFiles(["a", "b"], map["a" := -1.0, "b" := -1.0]) == []
  {
    assert ["a", "b"][..1] == ["a"] && ["a"][..0] == [];
  }

  /** Graham's bound for the heaviest partition against every other distribution of the same files. */
  lemma HeaviestPartition(files: seq<string>, weights: map<string, real>, m: nat, collate: Collate,
                          lists: seq<seq<string>>,
                          other: seq<seq<string>>, b: nat, most: real)
    requires IsCollation(collate) && NonNegative(files, weights) && IsLptSchedule(files, weights, m, collate, lists)
    requires |other| == m && multiset(Concat(other)) == multiset(files) && b < m
    requires forall j | 0 <= j < m :: PartitionWeight(other[j], weights) <= most
    ensures |lists| == m
    ensures 3.0 * m as real * PartitionWeight(lists[b], weights) <= (4.0 * m as real - 1.0) * most
  {
    hide IsCollation, After, Sort, PartitionWeight, Lightest, WeightOf, Descending, Concat, FilesOf, Seeded;
    var items := Seeded(files, weights, collate);
    var choices :| IsGreedy(items, choices, m) && lists == FileLists(After(items, choices, m));
    SeededSound(files, weights, m, collate, choices);
    SeededFacts(files, weights, collate);
    assert Bounds(other, items, m, weights, most);
    hide Bounds;
    GrahamBound(items, choices, m, weights, other, most, b);
  }
}
