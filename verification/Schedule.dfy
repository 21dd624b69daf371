/** Longest-processing-time schedules: every item goes to a currently lightest bucket, heaviest item first. */
module Schedule {
  import opened Totals

  datatype Item = Item(file: string, weight: real)

  datatype Bucket = Bucket(sum: real, files: seq<string>)

  const UNKNOWN_FILE_WEIGHT := 1.0

  function WeightOf(weights: map<string, real>): string -> real {
    file => if file in weights then weights[file] else UNKNOWN_FILE_WEIGHT
  }

  /** The total weight of a file list; a file without a recorded duration counts as one. */
  function PartitionWeight(files: seq<string>, weights: map<string, real>): real {
    Total(WeightOf(weights), files)
  }

  /** Order by total weight, then by file count. */
  predicate BucketLess(left: Bucket, right: Bucket) {
    if left.sum != right.sum then left.sum < right.sum else |left.files| < |right.files|
  }

  function Put(b: Bucket, item: Item): Bucket {
    Bucket(b.sum + item.weight, b.files + [item.file])
  }

  /** The buckets after placing each item in its chosen bucket, in turn. */
  ghost function After(items: seq<Item>, choices: seq<nat>, m: nat): (buckets: seq<Bucket>)
    requires |items| == |choices| && forall k | 0 <= k < |choices| :: choices[k] < m
    ensures |buckets| == m
  {
    if items == [] then
      seq(m, i => Bucket(0.0, []))
    else
      var k := |items| - 1;
      var before := After(items[..k], choices[..k], m);
      before[choices[k] := Put(before[choices[k]], items[k])]
  }

  /** No bucket has a smaller sum, and none of the same sum has fewer files. */
  ghost predicate Lightest(buckets: seq<Bucket>, choice: nat) {
    && choice < |buckets|
    && forall b | 0 <= b < |buckets| ::
         && buckets[choice].sum <= buckets[b].sum
         && (buckets[choice].sum == buckets[b].sum ==> |buckets[choice].files| <= |buckets[b].files|)
  }

  /** Each choice is a lightest bucket at its time. */
  ghost predicate IsGreedy(items: seq<Item>, choices: seq<nat>, m: nat) {
    && |items| == |choices|
    && (forall k | 0 <= k < |choices| :: choices[k] < m)
    && forall k | 0 <= k < |choices| :: Lightest(After(items[..k], choices[..k], m), choices[k])
  }

  ghost predicate Descending(items: seq<Item>) {
    forall i, j | 0 <= i <= j < |items| :: items[j].weight <= items[i].weight
  }

  /** Every item carries the weight its file has in the duration map. */
  ghost predicate Weighed(items: seq<Item>, weights: map<string, real>) {
    forall i | 0 <= i < |items| :: items[i].weight == WeightOf(weights)(items[i].file)
  }

  function FilesOf(items: seq<Item>): (files: seq<string>)
    ensures |files| == |items| && forall i | 0 <= i < |items| :: files[i] == items[i].file
  {
    seq(|items|, i requires 0 <= i < |items| => items[i].file)
  }

  function FileLists(buckets: seq<Bucket>): (lists: seq<seq<string>>)
    ensures |lists| == |buckets| && forall i | 0 <= i < |buckets| :: lists[i] == buckets[i].files
  {
    seq(|buckets|, i requires 0 <= i < |buckets| => buckets[i].files)
  }

  // ---------------------------------------------------------------- conservation

  lemma GreedyPrefix(items: seq<Item>, choices: seq<nat>, m: nat, k: nat)
    requires IsGreedy(items, choices, m) && k <= |items|
    ensures IsGreedy(items[..k], choices[..k], m)
  {
    forall j | 0 <= j < k ensures Lightest(After(items[..k][..j], choices[..k][..j], m), choices[..k][j]) {
      assert items[..k][..j] == items[..j] && choices[..k][..j] == choices[..j];
    }
  }

  lemma ConcatUpdate(lists: seq<seq<string>>, i: nat, file: string)
    requires i < |lists|
    ensures multiset(Concat(lists[i := lists[i] + [file]])) == multiset(Concat(lists)) + multiset{file}
  {
    var k := |lists| - 1;
    var more := lists[i := lists[i] + [file]];
    if i == k {
      assert more[..k] == lists[..k];
    } else {
      ConcatUpdate(lists[..k], i, file);
      assert more[..k] == lists[..k][i := lists[..k][i] + [file]];
    }
  }

  lemma ConcatEmpty(lists: seq<seq<string>>)
    requires forall i | 0 <= i < |lists| :: lists[i] == []
    ensures Concat(lists) == []
  {
    if lists != [] {
      ConcatEmpty(lists[..|lists| - 1]);
    }
  }

  /** Placing keeps every item: the buckets hold exactly the items' files. */
  lemma {:induction false} AfterKeepsFiles(items: seq<Item>, choices: seq<nat>, m: nat)
    requires |items| == |choices| && forall k | 0 <= k < |choices| :: choices[k] < m
    ensures multiset(Concat(FileLists(After(items, choices, m)))) == multiset(FilesOf(items))
  {
    hide Concat;
    if items == [] {
      ConcatEmpty(FileLists(After(items, choices, m)));
    } else {
      var k := |items| - 1;
      var before := After(items[..k], choices[..k], m);
      AfterKeepsFiles(items[..k], choices[..k], m);
      ConcatUpdate(FileLists(before), choices[k], items[k].file);
      assert After(items, choices, m) == before[choices[k] := Put(before[choices[k]], items[k])];
      hide After;
      assert FileLists(After(items, choices, m)) ==
        FileLists(before)[choices[k] := FileLists(before)[choices[k]] + [items[k].file]];
      assert FilesOf(items) == FilesOf(items[..k]) + [items[k].file];
    }
  }

  /** A bucket's running sum is the total weight of its files. */
  lemma {:induction false} SumIsWeight(items: seq<Item>, choices: seq<nat>, m: nat, weights: map<string, real>, b: nat)
    requires |items| == |choices| && (forall k | 0 <= k < |choices| :: choices[k] < m)
    requires Weighed(items, weights) && b < m
    ensures After(items, choices, m)[b].sum == PartitionWeight(After(items, choices, m)[b].files, weights)
  {
    if items != [] {
      var k := |items| - 1;
      var before := After(items[..k], choices[..k], m);
      SumIsWeight(items[..k], choices[..k], m, weights, b);
      var files := before[b].files;
      assert (files + [items[k].file])[..|files|] == files;
    }
  }

  lemma {:induction false} FilesPlaced(items: seq<Item>, choices: seq<nat>, m: nat, b: nat, file: string)
    requires |items| == |choices| && (forall k | 0 <= k < |choices| :: choices[k] < m)
    requires b < m && file in After(items, choices, m)[b].files
    ensures exists k :: 0 <= k < |items| && items[k].file == file
  {
    if items != [] {
      var k := |items| - 1;
      if items[k].file != file {
        FilesPlaced(items[..k], choices[..k], m, b, file);
        var j :| 0 <= j < k && items[..k][j].file == file;
        assert items[j].file == file;
      }
    }
  }

  // ---------------------------------------------------------------- no empty bucket

  lemma {:induction false} SumNonNegative(items: seq<Item>, choices: seq<nat>, m: nat, b: nat)
    requires |items| == |choices| && (forall k | 0 <= k < |choices| :: choices[k] < m)
    requires forall k | 0 <= k < |items| :: items[k].weight >= 0.0
    requires b < m
    ensures After(items, choices, m)[b].sum >= 0.0
    ensures After(items, choices, m)[b].files == [] ==> After(items, choices, m)[b].sum == 0.0
  {
    if items != [] {
      var k := |items| - 1;
      SumNonNegative(items[..k], choices[..k], m, b);
      if choices[k] == b {
        assert |After(items, choices, m)[b].files| > 0;
      }
    }
  }

  // ---------------------------------------------------------------- schedules written out

  lemma AfterOneMore(items: seq<Item>, choices: seq<nat>, m: nat, item: Item, c: nat)
    requires |items| == |choices| && (forall k | 0 <= k < |choices| :: choices[k] < m) && c < m
    ensures var before := After(items, choices, m);
            After(items + [item], choices + [c], m) == before[c := Put(before[c], item)]
  {
    assert (items + [item])[..|items|] == items && (choices + [c])[..|choices|] == choices;
  }

  lemma GreedyOneMore(items: seq<Item>, choices: seq<nat>, m: nat, item: Item, c: nat)
    requires IsGreedy(items, choices, m) && c < m && Lightest(After(items, choices, m), c)
    ensures IsGreedy(items + [item], choices + [c], m)
  {
    var items', choices' := items + [item], choices + [c];
    forall k | 0 <= k < |choices'| ensures Lightest(After(items'[..k], choices'[..k], m), choices'[k]) {
      assert items'[..k] == items[..k] && choices'[..k] == choices[..k];
      if k == |choices| {
        assert items[..k] == items && choices[..k] == choices;
      }
    }
  }
}
