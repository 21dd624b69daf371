/** One coverage run's plan: partitions ordered heaviest first, none empty, and per-project include lists. */
module CoverageRun {
  import opened Totals
  import opened Schedule
  import opened Partitions
  import opened Sorting
  import opened Collation
  import opened Results
  import opened Sequences

  /** Heavier partitions first. */
  function ByTotal(weights: map<string, real>): Comparator<seq<string>> {
    (left: seq<string>, right: seq<string>) =>
      var l, r := PartitionWeight(left, weights), PartitionWeight(right, weights);
      if r > l then 1 else if r < l then -1 else 0
  }

  lemma ByTotalIsPreorder(weights: map<string, real>)
    ensures Preorder(ByTotal(weights))
  {
    hide PartitionWeight;
  }

  // ---------------------------------------------------------------- reordering lists

  lemma ConcatAround(a: seq<seq<string>>, x: seq<string>, c: seq<seq<string>>)
    ensures multiset(Concat(a + [x] + c)) == multiset(Concat(a + c)) + multiset(x)
  {
    hide Concat;
    if c == [] {
      assert a + [x] + c == a + [x] && a + c == a;
      ConcatLast(a, x);
    } else {
      var k := |c| - 1;
      ConcatAround(a, x, c[..k]);
      assert a + [x] + c == (a + [x] + c[..k]) + [c[k]] && a + c == (a + c[..k]) + [c[k]];
      ConcatLast(a + [x] + c[..k], c[k]);
      ConcatLast(a + c[..k], c[k]);
    }
  }

  lemma ConcatLast(lists: seq<seq<string>>, last: seq<string>)
    ensures Concat(lists + [last]) == Concat(lists) + last
  {
    assert (lists + [last])[..|lists|] == lists;
  }

  lemma {:induction false} ConcatPermuted(a: seq<seq<string>>, b: seq<seq<string>>)
    requires multiset(a) == multiset(b)
    ensures multiset(Concat(a)) == multiset(Concat(b))
  {
    if a == [] {
      assert |multiset(b)| == 0;
    } else {
      var x, front := a[|a| - 1], a[..|a| - 1];
      assert a == front + [x];
      assert x in multiset(b);
      var i :| 0 <= i < |b| && b[i] == x;
      assert b == b[..i] + [x] + b[i + 1..];
      RemoveSame(multiset(front), multiset(b[..i] + b[i + 1..]), x);
      ConcatPermuted(front, b[..i] + b[i + 1..]);
      ConcatAround(b[..i], x, b[i + 1..]);
    }
  }

  // ---------------------------------------------------------------- assignment

  ghost predicate HeaviestFirst(lists: seq<seq<string>>, weights: map<string, real>) {
    forall i, j | 0 <= i < j < |lists| :: PartitionWeight(lists[j], weights) <= PartitionWeight(lists[i], weights)
  }

  /** Distribute the files and order the partitions heaviest first; no file is lost, added or repeated. */
  method AssignFiles(files: seq<string>, weights: map<string, real>, partitions: nat, collate: Collate)
    returns (assignments: seq<seq<string>>)
    requires IsCollation(collate) && partitions >= 2
    ensures |assignments| == partitions && multiset(Concat(assignments)) == multiset(files)
    ensures HeaviestFirst(assignments, weights)
    ensures exists lists :: IsLptSchedule(files, weights, partitions, collate, lists) && multiset(lists) ==
            multiset(assignments)
  {
    hide IsCollation, IsLptSchedule, PartitionWeight, Sort, Concat;
    var buckets := AssignWeightedPartitions(files, weights, partitions, collate);
    var lists := buckets.value;
    assignments := Sort(lists, ByTotal(weights));
    ByTotalIsPreorder(weights);
    SortSorts(lists, ByTotal(weights));
    SameElements(lists, assignments);
    ScheduleConserves(files, weights, partitions, collate, lists);
    ConcatPermuted(assignments, lists);
    forall i, j | 0 <= i < j < |assignments|
      ensures PartitionWeight(assignments[j], weights) <= PartitionWeight(assignments[i], weights)
    {
      assert ByTotal(weights)(assignments[i], assignments[j]) <= 0;
    }
  }

  /** Refuse the first empty partition. */
  method AssertNonEmptyAssignments(assignments: seq<seq<string>>) returns (r: Result<(), PartitionError>)
    ensures r.Success? <==> forall i | 0 <= i < |assignments| :: assignments[i] != []
    ensures r.Failure? ==>
              && r.error.EmptyPartition? && r.error.index < |assignments| && assignments[r.error.index] == []
              && forall i | 0 <= i < r.error.index :: assignments[i] != []
  {
    for index := 0 to |assignments|
      invariant forall i | 0 <= i < index :: assignments[i] != []
    {
      if |assignments[index]| == 0 {
        return Failure(EmptyPartition(index));
      }
    }
    r := Success(());
  }

  /** A run is refused exactly when there are fewer files than partitions, or too few of non-negative weight. */
  method Plan(files: seq<string>, weights: map<string, real>, partitions: nat, collate: Collate)
    returns (r: Result<seq<seq<string>>, PartitionError>)
    requires IsCollation(collate) && partitions >= 2
    ensures r.Success? <==> |files| >= partitions && |NonNegativeFiles(files, weights)| >= partitions - 1
    ensures r.Failure? ==> r.error.EmptyPartition? && r.error.index < partitions
    ensures r.Success? ==>
              && |r.value| == partitions && multiset(Concat(r.value)) == multiset(files)
              && HeaviestFirst(r.value, weights)
              && forall i | 0 <= i < partitions :: r.value[i] != []
  {
    hide IsCollation, IsLptSchedule, PartitionWeight, Concat;
    var assignments := AssignFiles(files, weights, partitions, collate);
    var nonEmpty := AssertNonEmptyAssignments(assignments);
    ghost var lists :| IsLptSchedule(files, weights, partitions, collate, lists) && multiset(lists) ==
        multiset(assignments);
    PartitionsFilledIff(files, weights, partitions, collate, lists);
    SameElements(lists, assignments);
    NoneEmptyPermuted(lists, assignments);
    if nonEmpty.Failure? {
      return Failure(nonEmpty.error);
    }
    r := Success(assignments);
  }

  lemma NoneEmptyPermuted(a: seq<seq<string>>, b: seq<seq<string>>)
    requires forall x :: x in a <==> x in b
    ensures (forall i | 0 <= i < |a| :: a[i] != []) <==> (forall i | 0 <= i < |b| :: b[i] != [])
  {
    assert (forall i | 0 <= i < |a| :: a[i] != []) <==> [] !in a;
    assert (forall i | 0 <= i < |b| :: b[i] != []) <==> [] !in b;
  }

  // ---------------------------------------------------------------- include lists per project

  const PROCESS_BOUND := "process-bound"

  /** Windows separators become forward slashes. */
  function Slashes(path: string): (r: string)
    ensures |r| == |path| && forall i | 0 <= i < |path| :: r[i] == if path[i] == '\\' then '/' else path[i]
  {
    seq(|path|, i requires 0 <= i < |path| => if path[i] == '\\' then '/' else path[i])
  }

  function AllSlashes(paths: seq<string>): seq<string> {
    seq(|paths|, i requires 0 <= i < |paths| => Slashes(paths[i]))
  }

  predicate IsProcessBound(file: string, projectOf: map<string, string>) {
    file in projectOf && projectOf[file] == PROCESS_BOUND
  }

  /** The partition's files of one project, in list order. */
  function OfProject(files: seq<string>, projectOf: map<string, string>, bound: bool): seq<string> {
    if files == [] then []
    else
      var k := |files| - 1;
      var front := OfProject(files[..k], projectOf, bound);
      if IsProcessBound(files[k], projectOf) == bound then front + [Slashes(files[k])] else front
  }

  datatype PartitionConfig = PartitionConfig(threadSafe: seq<string>, processBound: seq<string>)

  /** The two include lists a partition's temporary configuration carries. */
  function PartitionConfigOf(files: seq<string>, projectOf: map<string, string>): (c: PartitionConfig)
    ensures multiset(c.threadSafe) + multiset(c.processBound) == multiset(AllSlashes(files))
    ensures forall path :: path in c.processBound <==>
              exists f :: f in files && Slashes(f) == path && f in projectOf && projectOf[f] == "process-bound"
    ensures forall path :: path in c.threadSafe <==>
              exists f :: f in files && Slashes(f) == path && !(f in projectOf && projectOf[f] == "process-bound")
  {
    SplitKeepsAll(files, projectOf);
    OwnProjectOnly(files, projectOf);
    PartitionConfig(OfProject(files, projectOf, false), OfProject(files, projectOf, true))
  }

  lemma {:induction false} SplitKeepsAll(files: seq<string>, projectOf: map<string, string>)
    ensures multiset(OfProject(files, projectOf, false)) + multiset(OfProject(files, projectOf, true))
         == multiset(AllSlashes(files))
  {
    if files != [] {
      var k := |files| - 1;
      SplitKeepsAll(files[..k], projectOf);
      assert AllSlashes(files) == AllSlashes(files[..k]) + [Slashes(files[k])];
    }
  }

  /** Only a project's own files reach its include list. */
  lemma {:induction false} OwnProjectOnly(files: seq<string>, projectOf: map<string, string>)
    ensures forall bound: bool, path :: path in OfProject(files, projectOf, bound) <==>
              exists f :: f in files && Slashes(f) == path && IsProcessBound(f, projectOf) == bound
  {
    if files != [] {
      var k := |files| - 1;
      OwnProjectOnly(files[..k], projectOf);
      assert files == files[..k] + [files[k]];
    }
  }

  /** Every include list of every partition, one after the other. */
  function AllIncludes(assignments: seq<seq<string>>, projectOf: map<string, string>): seq<string> {
    if assignments == [] then []
    else
      var k := |assignments| - 1;
      var config := PartitionConfigOf(assignments[k], projectOf);
      AllIncludes(assignments[..k], projectOf) + config.threadSafe + config.processBound
  }

  lemma SlashesAppend(a: seq<string>, b: seq<string>)
    ensures AllSlashes(a + b) == AllSlashes(a) + AllSlashes(b)
  {
  }

  lemma {:induction false} IncludesKeepAll(assignments: seq<seq<string>>, projectOf: map<string, string>)
    ensures multiset(AllIncludes(assignments, projectOf)) == multiset(AllSlashes(Concat(assignments)))
  {
    if assignments != [] {
      var k := |assignments| - 1;
      IncludesKeepAll(assignments[..k], projectOf);
      SlashesAppend(Concat(assignments[..k]), assignments[k]);
    }
  }

  lemma SlashesPermuted(a: seq<string>, b: seq<string>)
    requires multiset(a) == multiset(b)
    ensures multiset(AllSlashes(a)) == multiset(AllSlashes(b))
  {
    if a == [] {
      assert |multiset(b)| == 0;
    } else {
      var x, front := a[|a| - 1], a[..|a| - 1];
      assert a == front + [x];
      assert x in multiset(b);
      var i :| 0 <= i < |b| && b[i] == x;
      assert b == b[..i] + [x] + b[i + 1..];
      RemoveSame(multiset(front), multiset(b[..i] + b[i + 1..]), x);
      SlashesPermuted(front, b[..i] + b[i + 1..]);
      SlashesAppend(front, [x]);
      SlashesAppend(b[..i], b[i + 1..]);
      SlashesAppend(b[..i], [x]);
      SlashesAppend(b[..i] + [x], b[i + 1..]);
    }
  }

  /** Over all partitions and both projects, every inventory path is listed exactly as often as the inventory holds it. */
  lemma ExactlyOnce(files: seq<string>, assignments: seq<seq<string>>, projectOf: map<string, string>)
    requires multiset(Concat(assignments)) == multiset(files)
    ensures multiset(AllIncludes(assignments, projectOf)) == multiset(AllSlashes(files))
    ensures (forall i, j | 0 <= i < j < |files| :: Slashes(files[i]) != Slashes(files[j])) ==>
              forall f | f in files :: multiset(AllIncludes(assignments, projectOf))[Slashes(f)] == 1
  {
    IncludesKeepAll(assignments, projectOf);
    SlashesPermuted(Concat(assignments), files);
    if forall i, j | 0 <= i < j < |files| :: Slashes(files[i]) != Slashes(files[j]) {
      forall f | f in files ensures multiset(AllSlashes(files))[Slashes(f)] == 1 {
        var i :| 0 <= i < |files| && files[i] == f;
        OnceInMultiset(AllSlashes(files), i);
      }
    }
  }
}
