/**
 * The second intersection program: work items carry a formula, the n it was last applied
 * to and the result. Each iteration reports the current results when they all agree, then
 * sorts the items by result and applies the first item's formula to the next n. The loop
 * runs forever; here it runs a given number of iterations.
 */
module Figurate {
  import opened Wrappers
  import opened Sorting
  import opened Centered

  /** The formulas the program knows, by name: a work item's `fn` is one of them. */
  datatype Formula = Centered4Fn | Centered6Fn | Centered10Fn

  function Apply(f: Formula, n: int): int {
    match f
    case Centered4Fn => Centered4(n)
    case Centered6Fn => Centered6(n)
    case Centered10Fn => Centered10(n)
  }

  /** The module-level list `fns`. */
  function Fns(): seq<Formula> {
    [Centered4Fn, Centered6Fn, Centered10Fn]
  }

  datatype WorkItem = WorkItem(result: int, fn: Formula, n: int)

  /** `WorkItem.__lt__`: items compare by result alone. */
  predicate ItemLess(a: WorkItem, b: WorkItem) {
    a.result < b.result
  }

  /** The sort key the stable sort uses for work items; its second part never breaks a tie. */
  function ItemKey(w: WorkItem): Key {
    (w.result, 0)
  }

  lemma ItemKeyOrders(a: WorkItem, b: WorkItem)
    ensures Less(ItemKey(a), ItemKey(b)) <==> ItemLess(a, b)
  {
  }

  /** `fns.index(f)`, or |fns| when f is not listed (where `index` raises). */
  function IndexOf(fns: seq<Formula>, f: Formula): (i: nat)
    ensures i <= |fns|
    ensures i < |fns| ==> fns[i] == f
    ensures forall j :: 0 <= j < i ==> fns[j] != f
    ensures i == |fns| <==> f !in fns
  {
    if fns == [] then 0
    else if fns[0] == f then 0
    else 1 + IndexOf(fns[1..], f)
  }

  /** The key `lambda w: fns.index(w.fn)`. */
  function FnKey(fns: seq<Formula>): WorkItem -> Key {
    (w: WorkItem) => (IndexOf(fns, w.fn) as int, 0)
  }

  function FnOf(w: WorkItem): Formula {
    w.fn
  }

  function Ns(s: seq<WorkItem>): (ns: seq<int>)
    ensures |ns| == |s|
  {
    if s == [] then [] else [s[0].n] + Ns(s[1..])
  }

  /** Ns keeps each item's n in place. */
  lemma {:induction false} NsAt(s: seq<WorkItem>)
    ensures forall i :: 0 <= i < |s| ==> Ns(s)[i] == s[i].n
  {
    if s != [] {
      NsAt(s[1..]);
      forall i | 0 <= i < |s| ensures Ns(s)[i] == s[i].n {
        if i > 0 {
          assert Ns(s)[i] == Ns(s[1..])[i - 1];
        }
      }
    }
  }

  predicate Listed(fns: seq<Formula>, work: seq<WorkItem>) {
    forall w {:trigger w in work} :: w in work ==> w.fn in fns
  }

  /** n_values: the items' n, in the order of their formulas in fns (before joining them into text). */
  function NValues(fns: seq<Formula>, work: seq<WorkItem>): Result<seq<int>> {
    if Listed(fns, work) then Success(Ns(SortBy(work, FnKey(fns))))
    else Failure("ValueError: not in list")
  }

  /** No formula is listed twice. */
  predicate DistinctFormulas(fns: seq<Formula>) {
    fns == [] || (fns[0] !in fns[1..] && DistinctFormulas(fns[1..]))
  }

  lemma {:induction false} DistinctFormulasPairwise(fns: seq<Formula>)
    requires DistinctFormulas(fns)
    ensures forall i, j :: 0 <= i < j < |fns| ==> fns[i] != fns[j]
  {
    if fns != [] {
      DistinctFormulasPairwise(fns[1..]);
      forall i, j | 0 <= i < j < |fns| ensures fns[i] != fns[j] {
        assert fns[j] == fns[1..][j - 1];
        if i > 0 {
          assert fns[i] == fns[1..][i - 1];
        }
      }
    }
  }

  predicate HasItem(work: seq<WorkItem>, f: Formula) {
    exists w {:trigger w in work} :: w in work && w.fn == f
  }

  /** One item per formula: the items' formulas are exactly the distinct entries of fns. */
  predicate OnePerFormula(fns: seq<Formula>, work: seq<WorkItem>) {
    && |work| == |fns|
    && Listed(fns, work)
    && DistinctBy(work, FnOf)
    && forall i :: 0 <= i < |fns| ==> HasItem(work, fns[i])
  }

  /** A strictly ascending list of m naturals below m is 0, 1, ..., m - 1. */
  lemma {:induction false} AscendingBelowIsIdentity(keys: seq<int>)
    requires forall k :: 0 <= k < |keys| ==> 0 <= keys[k] < |keys|
    requires forall k, l :: 0 <= k < l < |keys| ==> keys[k] < keys[l]
    ensures forall k :: 0 <= k < |keys| ==> keys[k] == k
  {
    var m := |keys|;
    forall k | 0 <= k < m ensures keys[k] >= k {
      AscendingFloor(keys, k);
    }
    forall k | 0 <= k < m ensures keys[k] <= k {
      AscendingCeiling(keys, k);
    }
  }

  lemma {:induction false} AscendingFloor(keys: seq<int>, k: nat)
    requires k < |keys| && forall j :: 0 <= j < |keys| ==> keys[j] >= 0
    requires forall i, j :: 0 <= i < j < |keys| ==> keys[i] < keys[j]
    ensures keys[k] >= k
  {
    if k > 0 {
      AscendingFloor(keys, k - 1);
    }
  }

  lemma {:induction false} AscendingCeiling(keys: seq<int>, k: nat)
    requires k < |keys| && forall j :: 0 <= j < |keys| ==> keys[j] < |keys|
    requires forall i, j :: 0 <= i < j < |keys| ==> keys[i] < keys[j]
    ensures keys[k] <= k
    decreases |keys| - k
  {
    if k < |keys| - 1 {
      AscendingCeiling(keys, k + 1);
    }
  }

  /** Sorting one item per formula by the formula's position puts the item for fns[i] at position i. */
  lemma SortByFnPlacesItems(fns: seq<Formula>, work: seq<WorkItem>)
    requires OnePerFormula(fns, work)
    ensures var s := SortBy(work, FnKey(fns));
      |s| == |fns| && forall i :: 0 <= i < |s| ==> s[i].fn == fns[i] && s[i] in work
  {
    var key := FnKey(fns);
    var s := SortBy(work, key);
    var pos := (w: WorkItem) => IndexOf(fns, w.fn);
    SortByPerm(work, key);
    SortBySorted(work, key);
    assert DistinctBy(work, pos) by {
      forall i, j | 0 <= i < j < |work| ensures pos(work[i]) != pos(work[j]) {
        assert work[i] in work && work[j] in work;
        assert FnOf(work[i]) != FnOf(work[j]);
      }
    }
    SortByDistinct(work, key, pos);
    var keys := seq(|s|, k requires 0 <= k < |s| => pos(s[k]) as int);
    forall k | 0 <= k < |s| ensures s[k] in work && 0 <= keys[k] < |s| {
      assert s[k] in s;
    }
    forall k, l | 0 <= k < l < |s| ensures keys[k] < keys[l] {
      assert !Less(key(s[l]), key(s[k]));
    }
    AscendingBelowIsIdentity(keys);
    forall i | 0 <= i < |s| ensures s[i].fn == fns[i] {
      assert keys[i] == i;
    }
  }

  /** n_values lists, for each formula of fns in turn, the n of the item holding that formula. */
  lemma NValuesInFnOrder(fns: seq<Formula>, work: seq<WorkItem>)
    requires OnePerFormula(fns, work)
    ensures NValues(fns, work).Success?
    ensures var ns := NValues(fns, work).value;
      |ns| == |fns| && forall i, j :: 0 <= i < |fns| && 0 <= j < |work| && work[j].fn == fns[i] ==> ns[i] == work[j].n
  {
    var s := SortBy(work, FnKey(fns));
    SortByFnPlacesItems(fns, work);
    NsAt(s);
    forall i, j | 0 <= i < |fns| && 0 <= j < |work| && work[j].fn == fns[i] ensures s[i].n == work[j].n {
      assert s[i] in work && work[j] in work;
      var k :| 0 <= k < |work| && work[k] == s[i];
      assert FnOf(work[k]) == FnOf(work[j]);
    }
  }

  /** Every result is its formula applied to its n, and every formula is one of fns. */
  predicate Consistent(fns: seq<Formula>, work: seq<WorkItem>) {
    forall w {:trigger w in work} :: w in work ==> w.fn in fns && w.result == Apply(w.fn, w.n)
  }

  /** `work[0].n = next_n = work[0].n + 1; work[0].result = work[0].fn(next_n)` */
  function Advance(w: WorkItem): (w': WorkItem)
    ensures w'.fn == w.fn && w'.n == w.n + 1 && w'.result == Apply(w.fn, w.n + 1)
  {
    WorkItem(Apply(w.fn, w.n + 1), w.fn, w.n + 1)
  }

  /** One iteration's update: sort the work by result, then advance the first item. */
  function Step(work: seq<WorkItem>): (w: seq<WorkItem>)
    requires |work| > 0
    ensures |w| == |work|
  {
    var s := SortBy(work, ItemKey);
    s[0 := Advance(s[0])]
  }

  /** The step advances the earliest of the items with the smallest result and keeps every other item. */
  lemma StepAdvancesSmallest(work: seq<WorkItem>, k: nat)
    requires k < |work|
    requires forall j :: 0 <= j < |work| ==> work[j].result >= work[k].result
    requires forall j :: 0 <= j < k ==> work[j].result > work[k].result
    ensures Step(work)[0] == Advance(work[k])
    ensures multiset(Step(work)) == multiset(work) - multiset{work[k]} + multiset{Advance(work[k])}
  {
    var s := SortBy(work, ItemKey);
    SortByFirst(work, ItemKey, k);
    SortByPerm(work, ItemKey);
    assert s == [s[0]] + s[1..];
    assert Step(work) == [Advance(s[0])] + s[1..];
  }

  /** Which items a step keeps: all but the first after sorting, which it replaces by its advance. */
  lemma StepMembers(work: seq<WorkItem>)
    requires |work| > 0
    ensures SortBy(work, ItemKey)[0] in work
    ensures Advance(SortBy(work, ItemKey)[0]) in Step(work)
    ensures forall w :: w in Step(work) ==> w in work || w == Advance(SortBy(work, ItemKey)[0])
    ensures forall w :: w in work ==> w in Step(work) || w == SortBy(work, ItemKey)[0]
  {
    var s := SortBy(work, ItemKey);
    SortByPerm(work, ItemKey);
    assert s[0] in s;
    UpdateMembers(s, 0, Advance(s[0]));
  }

  lemma StepConsistent(fns: seq<Formula>, work: seq<WorkItem>)
    requires |work| > 0 && Consistent(fns, work)
    ensures Consistent(fns, Step(work))
  {
    StepMembers(work);
  }

  lemma StepOnePerFormula(fns: seq<Formula>, work: seq<WorkItem>)
    requires |work| > 0 && OnePerFormula(fns, work)
    ensures OnePerFormula(fns, Step(work))
  {
    var s := SortBy(work, ItemKey);
    var w := Step(work);
    StepMembers(work);
    SortByDistinct(work, ItemKey, FnOf);
    assert DistinctBy(w, FnOf) by {
      forall i, j | 0 <= i < j < |w| ensures FnOf(w[i]) != FnOf(w[j]) {
        assert FnOf(w[i]) == FnOf(s[i]) && FnOf(w[j]) == FnOf(s[j]);
      }
    }
    forall i | 0 <= i < |fns| ensures HasItem(w, fns[i]) {
      assert HasItem(work, fns[i]);
      var x :| x in work && x.fn == fns[i];
      if x == s[0] {
        assert Advance(s[0]) in w;
      } else {
        assert x in w;
      }
    }
  }

  /** `result0 == work[1].result and all(w.result == result0 for w in work)` */
  predicate ShouldReport(work: seq<WorkItem>, result0: int)
    requires |work| >= 2
  {
    result0 == work[1].result && forall w {:trigger w in work} :: w in work ==> w.result == result0
  }

  /** The comparison with work[1] adds nothing: a line is reported exactly when all results agree. */
  lemma ShouldReportIffAllAgree(work: seq<WorkItem>, result0: int)
    requires |work| >= 2
    ensures ShouldReport(work, result0) <==> forall w {:trigger w in work} :: w in work ==> w.result == result0
  {
    assert work[1] in work;
  }

  /** One printed line: the common result and the n of each formula, in the order of fns. */
  datatype Report = Report(value: int, ns: seq<int>)

  /** What one iteration prints, or the exception it raises. */
  function Found(fns: seq<Formula>, work: seq<WorkItem>): Result<seq<Report>>
    requires |work| >= 2
  {
    if ShouldReport(work, work[0].result) then
      match NValues(fns, work)
      case Success(ns) => Success([Report(work[0].result, ns)])
      case Failure(e) => Failure(e)
    else Success([])
  }

  /** Lines printed before a later outcome. */
  function Prepend(lines: seq<Report>, r: Result<seq<Report>>): Result<seq<Report>> {
    match r
    case Success(more) => Success(lines + more)
    case Failure(e) => Failure(e)
  }

  /** The lines that `steps` iterations print from the given work, or the exception that ends them. */
  function Run(fns: seq<Formula>, work: seq<WorkItem>, steps: nat): Result<seq<Report>>
    requires |work| > 0
    decreases steps
  {
    if steps == 0 then Success([])
    else if |work| < 2 then Failure("IndexError: list index out of range")
    else
      match Found(fns, work)
      case Failure(e) => Failure(e)
      case Success(found) => Prepend(found, Run(fns, Step(work), steps - 1))
  }

  /** The items `WorkItem(fn(start), fn, start) for start, fn in zip(starts, fns)`, before sorting. */
  function ZipItems(starts: seq<int>, fns: seq<Formula>): (items: seq<WorkItem>)
    ensures |items| == if |starts| < |fns| then |starts| else |fns|
  {
    if starts == [] || fns == [] then []
    else [WorkItem(Apply(fns[0], starts[0]), fns[0], starts[0])] + ZipItems(starts[1..], fns[1..])
  }

  /** Item i of the zip pairs start i with formula i. */
  lemma {:induction false} ZipItemsAt(starts: seq<int>, fns: seq<Formula>)
    ensures forall i :: 0 <= i < |ZipItems(starts, fns)| ==>
      ZipItems(starts, fns)[i] == WorkItem(Apply(fns[i], starts[i]), fns[i], starts[i])
  {
    if starts != [] && fns != [] {
      var items := ZipItems(starts, fns);
      ZipItemsAt(starts[1..], fns[1..]);
      forall i | 0 <= i < |items| ensures items[i] == WorkItem(Apply(fns[i], starts[i]), fns[i], starts[i]) {
        if i > 0 {
          assert items[i] == ZipItems(starts[1..], fns[1..])[i - 1];
        }
      }
    }
  }

  /** The sorted initial work list. */
  function InitialWork(starts: seq<int>, fns: seq<Formula>): (work: seq<WorkItem>)
    ensures |work| == |ZipItems(starts, fns)|
  {
    SortBy(ZipItems(starts, fns), ItemKey)
  }

  /** The initial work is a permutation of the zipped items, sorted by result. */
  lemma InitialWorkSorted(starts: seq<int>, fns: seq<Formula>)
    ensures multiset(InitialWork(starts, fns)) == multiset(ZipItems(starts, fns))
    ensures SortedBy(InitialWork(starts, fns), ItemKey)
  {
    SortByPerm(ZipItems(starts, fns), ItemKey);
    SortBySorted(ZipItems(starts, fns), ItemKey);
  }

  /** intersect_monotonic_sequences, run for `steps` iterations; with no items `work[0]` raises. */
  function Intersect(starts: seq<int>, fns: seq<Formula>, steps: nat): Result<seq<Report>> {
    var work := InitialWork(starts, fns);
    if |work| == 0 then Failure("IndexError: list index out of range")
    else Run(fns, work, steps)
  }

  /** The starts taken from the command line, which must give one per formula, or all 1 by default. */
  function Starts(args: seq<int>, fns: seq<Formula>): Result<seq<int>> {
    if |args| > 0 then
      if |args| == |fns| then Success(args) else Failure("AssertionError")
    else Success(seq(|fns|, _ => 1))
  }

  /** The module-level run: the starts from the arguments, then the loop over the three formulas. */
  function Program(args: seq<int>, steps: nat): Result<seq<Report>> {
    match Starts(args, Fns())
    case Failure(e) => Failure(e)
    case Success(starts) => Intersect(starts, Fns(), steps)
  }

  /** intersect_monotonic_sequences, run for `steps` iterations of its loop. */
  method IntersectMonotonicSequences(starts: seq<int>, fns: seq<Formula>, steps: nat) returns (r: Result<seq<Report>>)
    ensures r == Intersect(starts, fns, steps)
  {
    var work := InitialWork(starts, fns);
    if |work| == 0 {
      return Failure("IndexError: list index out of range");
    }
    r := Iterate(fns, work, steps);
  }

  /** On a single item an iteration raises at work[1]. */
  lemma RunShort(fns: seq<Formula>, work: seq<WorkItem>, steps: nat, lines: seq<Report>)
    requires 0 < |work| < 2 && steps > 0
    ensures Prepend(lines, Run(fns, work, steps)) == Failure("IndexError: list index out of range")
  {
  }

  /** An iteration whose printing raises ends the run with that exception. */
  lemma RunFoundFails(fns: seq<Formula>, work: seq<WorkItem>, steps: nat, lines: seq<Report>)
    requires |work| >= 2 && steps > 0 && Found(fns, work).Failure?
    ensures Prepend(lines, Run(fns, work, steps)) == Failure(Found(fns, work).error)
  {
  }

  /** An iteration that raises nothing adds its lines and leaves the rest to the next work. */
  lemma RunStep(fns: seq<Formula>, work: seq<WorkItem>, steps: nat, lines: seq<Report>)
    requires |work| >= 2 && steps > 0 && Found(fns, work).Success?
    ensures Prepend(lines, Run(fns, work, steps))
      == Prepend(lines + Found(fns, work).value, Run(fns, Step(work), steps - 1))
  {
    var rest := Run(fns, Step(work), steps - 1);
    if rest.Success? {
      assert (lines + Found(fns, work).value) + rest.value == lines + (Found(fns, work).value + rest.value);
    }
  }

  /** No lines before an outcome leave it as it is. */
  lemma PrependNothing(r: Result<seq<Report>>)
    ensures Prepend([], r) == r
  {
    if r.Success? {
      assert [] + r.value == r.value;
    }
  }

  /** Once no iterations remain, the lines printed so far are the outcome. */
  lemma RunDone(fns: seq<Formula>, work: seq<WorkItem>, lines: seq<Report>)
    requires |work| > 0
    ensures Prepend(lines, Run(fns, work, 0)) == Success(lines)
  {
    assert lines + [] == lines;
  }

  /** The `while True` loop, stopped after `steps` iterations or at the exception it raises. */
  method Iterate(fns: seq<Formula>, work0: seq<WorkItem>, steps: nat) returns (r: Result<seq<Report>>)
    requires |work0| > 0
    ensures r == Run(fns, work0, steps)
  {
    var work := work0;
    var result0 := work[0].result;
    var lines: seq<Report> := [];
    var t := 0;
    PrependNothing(Run(fns, work0, steps));
    while t < steps
      invariant 0 <= t <= steps
      invariant |work| > 0 && result0 == work[0].result
      invariant Prepend(lines, Run(fns, work, steps - t)) == Run(fns, work0, steps)
    {
      var raised;
      raised, work, result0, lines := Iteration(fns, work, result0, lines, steps - t);
      if raised.Some? {
        return Failure(raised.value);
      }
      t := t + 1;
    }
    RunDone(fns, work, lines);
    r := Success(lines);
  }

  /**
   * One pass of the loop body: test and print, sort, then advance the first item. It either
   * raises, or leaves what the remaining iterations print unchanged once its own lines are counted.
   */
  method Iteration(fns: seq<Formula>, work: seq<WorkItem>, result0: int, lines: seq<Report>, ghost remaining: nat)
    returns (raised: Option<string>, work': seq<WorkItem>, result0': int, lines': seq<Report>)
    requires |work| > 0 && result0 == work[0].result && remaining > 0
    ensures raised.Some? ==> Prepend(lines, Run(fns, work, remaining)) == Failure(raised.value)
    ensures raised.None? ==> |work'| > 0 && result0' == work'[0].result
    ensures raised.None? ==>
      Prepend(lines', Run(fns, work', remaining - 1)) == Prepend(lines, Run(fns, work, remaining))
  {
    work', result0', lines' := work, result0, lines;
    if |work| < 2 {
      RunShort(fns, work, remaining, lines);
      return Some("IndexError: list index out of range"), work', result0', lines';
    }
    if ShouldReport(work, result0) {
      var ns := NValues(fns, work);
      if ns.Failure? {
        RunFoundFails(fns, work, remaining, lines);
        return Some(ns.error), work', result0', lines';
      }
      RunStep(fns, work, remaining, lines);
      lines' := lines + [Report(result0, ns.value)];
    } else {
      RunStep(fns, work, remaining, lines);
      assert lines + [] == lines;
    }
    work' := SortBy(work, ItemKey);
    var nextN := work'[0].n + 1;
    var item := WorkItem(Apply(work'[0].fn, nextN), work'[0].fn, nextN);
    work' := work'[0 := item];
    result0' := item.result;
    raised := None;
    assert work' == Step(work);
  }

  /** The zipped items hold their formula applied to their start, and only formulas of fns. */
  lemma InitialConsistent(starts: seq<int>, fns: seq<Formula>)
    ensures Consistent(fns, InitialWork(starts, fns))
  {
    var items := ZipItems(starts, fns);
    ZipItemsAt(starts, fns);
    SortByPerm(items, ItemKey);
    forall w | w in InitialWork(starts, fns) ensures w.fn in fns && w.result == Apply(w.fn, w.n) {
      var i :| 0 <= i < |items| && items[i] == w;
    }
  }

  /** With one start per formula and no formula listed twice, the initial work holds one item per formula. */
  lemma InitialOnePerFormula(starts: seq<int>, fns: seq<Formula>)
    requires DistinctFormulas(fns) && |starts| == |fns|
    ensures OnePerFormula(fns, InitialWork(starts, fns))
  {
    var items := ZipItems(starts, fns);
    ZipItemsAt(starts, fns);
    var work := InitialWork(starts, fns);
    SortByPerm(items, ItemKey);
    InitialConsistent(starts, fns);
    assert DistinctBy(items, FnOf) by {
      DistinctFormulasPairwise(fns);
    }
    SortByDistinct(items, ItemKey, FnOf);
    forall i | 0 <= i < |fns| ensures HasItem(work, fns[i]) {
      assert items[i] in work;
    }
  }

  /** The item holding formula f, when the work has one. */
  lemma ItemFor(work: seq<WorkItem>, f: Formula) returns (j: nat)
    requires HasItem(work, f)
    ensures j < |work| && work[j].fn == f
  {
    var w :| w in work && w.fn == f;
    j :| 0 <= j < |work| && work[j] == w;
  }

  /** A printed line: applying each formula of fns to its n gives the printed value. */
  predicate Satisfies(fns: seq<Formula>, r: Report) {
    |r.ns| == |fns| && forall i :: 0 <= i < |fns| ==> Apply(fns[i], r.ns[i]) == r.value
  }

  /** One iteration raises nothing and whatever it prints is a common value with the n of each formula. */
  lemma FoundSatisfies(fns: seq<Formula>, work: seq<WorkItem>)
    requires |work| >= 2 && Consistent(fns, work) && OnePerFormula(fns, work)
    ensures Found(fns, work).Success?
    ensures forall r :: r in Found(fns, work).value ==> Satisfies(fns, r)
  {
    if ShouldReport(work, work[0].result) {
      NValuesInFnOrder(fns, work);
      var ns := NValues(fns, work).value;
      forall i | 0 <= i < |fns| ensures Apply(fns[i], ns[i]) == work[0].result {
        var j := ItemFor(work, fns[i]);
        assert work[j] in work;
      }
    }
  }

  /** One iteration fails only on work[1] when the work holds a single item. */
  lemma FoundListed(fns: seq<Formula>, work: seq<WorkItem>)
    requires |work| >= 2 && Consistent(fns, work)
    ensures Found(fns, work).Success?
  {
  }

  lemma PrependMembers(found: seq<Report>, rest: Result<seq<Report>>)
    ensures Prepend(found, rest).Success? <==> rest.Success?
    ensures Prepend(found, rest).Success? ==>
      forall r :: r in Prepend(found, rest).value ==> r in found || r in rest.value
  {
  }

  /** With every formula among fns, the loop raises only when it indexes work[1] of a single item. */
  lemma {:induction false} RunFailure(fns: seq<Formula>, work: seq<WorkItem>, steps: nat)
    requires |work| > 0 && Consistent(fns, work)
    ensures Run(fns, work, steps).Failure? <==> steps > 0 && |work| < 2
    decreases steps
  {
    if steps > 0 && |work| >= 2 {
      FoundListed(fns, work);
      StepConsistent(fns, work);
      RunFailure(fns, Step(work), steps - 1);
      PrependMembers(Found(fns, work).value, Run(fns, Step(work), steps - 1));
    }
  }

  /** Every printed line, over any number of iterations, is a common value with the n of each formula. */
  lemma {:induction false} RunSatisfies(fns: seq<Formula>, work: seq<WorkItem>, steps: nat)
    requires |work| > 0 && Consistent(fns, work) && OnePerFormula(fns, work)
    ensures Run(fns, work, steps).Success? ==> forall r :: r in Run(fns, work, steps).value ==> Satisfies(fns, r)
    decreases steps
  {
    if steps > 0 && |work| >= 2 {
      FoundSatisfies(fns, work);
      StepConsistent(fns, work);
      StepOnePerFormula(fns, work);
      RunSatisfies(fns, Step(work), steps - 1);
      PrependMembers(Found(fns, work).value, Run(fns, Step(work), steps - 1));
    }
  }

  /**
   * What the program promises: it raises at once on no items and at the first iteration on one item,
   * and with one start per distinct formula each printed line gives every formula's n for a common value.
   */
  lemma IntersectSpec(starts: seq<int>, fns: seq<Formula>, steps: nat)
    ensures var m := if |starts| < |fns| then |starts| else |fns|;
      Intersect(starts, fns, steps).Failure? <==> m == 0 || (m == 1 && steps > 0)
    ensures Intersect(starts, fns, steps).Success? && DistinctFormulas(fns) && |starts| == |fns| ==>
      forall r :: r in Intersect(starts, fns, steps).value ==> Satisfies(fns, r)
  {
    var work := InitialWork(starts, fns);
    if |work| > 0 {
      InitialConsistent(starts, fns);
      RunFailure(fns, work, steps);
      if DistinctFormulas(fns) && |starts| == |fns| {
        InitialOnePerFormula(starts, fns);
        RunSatisfies(fns, work, steps);
      }
    }
  }

  /** When every formula gives v at its start, every initial result is v. */
  lemma InitialAllAt(starts: seq<int>, fns: seq<Formula>, v: int)
    requires |starts| == |fns|
    requires forall i :: 0 <= i < |fns| ==> Apply(fns[i], starts[i]) == v
    ensures forall w {:trigger w in InitialWork(starts, fns)} :: w in InitialWork(starts, fns) ==> w.result == v
  {
    var items := ZipItems(starts, fns);
    ZipItemsAt(starts, fns);
    SortByPerm(items, ItemKey);
    forall w | w in InitialWork(starts, fns) ensures w.result == v {
      var i :| 0 <= i < |items| && items[i] == w;
    }
  }

  /** On the initial work, n_values gives back the starts. */
  lemma InitialNValues(starts: seq<int>, fns: seq<Formula>)
    requires DistinctFormulas(fns) && |starts| == |fns|
    ensures NValues(fns, InitialWork(starts, fns)) == Success(starts)
  {
    var items := ZipItems(starts, fns);
    ZipItemsAt(starts, fns);
    var work := InitialWork(starts, fns);
    assert NValues(fns, work).Success? && |NValues(fns, work).value| == |fns| &&
      forall i, j :: 0 <= i < |fns| && 0 <= j < |work| && work[j].fn == fns[i] ==> NValues(fns, work).value[i] == work[j].n
    by {
      InitialOnePerFormula(starts, fns);
      NValuesInFnOrder(fns, work);
    }
    var ns := NValues(fns, work).value;
    forall i | 0 <= i < |fns| ensures ns[i] == starts[i] {
      assert items[i] in work by {
        SortByPerm(items, ItemKey);
      }
      var j :| 0 <= j < |work| && work[j] == items[i];
    }
    assert ns == starts;
  }

  /** When every formula gives v at its start, the first iteration prints v with the starts. */
  lemma CommonStartFound(starts: seq<int>, fns: seq<Formula>, v: int)
    requires DistinctFormulas(fns) && |starts| == |fns| >= 2
    requires forall i :: 0 <= i < |fns| ==> Apply(fns[i], starts[i]) == v
    ensures |InitialWork(starts, fns)| >= 2
    ensures Found(fns, InitialWork(starts, fns)) == Success([Report(v, starts)])
  {
    var work := InitialWork(starts, fns);
    assert ShouldReport(work, work[0].result) && work[0].result == v by {
      InitialAllAt(starts, fns, v);
      assert work[0] in work && work[1] in work;
    }
    InitialNValues(starts, fns);
  }

  /** From the initial work, the iterations after the first raise nothing. */
  lemma InitialStepRaisesNothing(starts: seq<int>, fns: seq<Formula>, steps: nat)
    requires |InitialWork(starts, fns)| >= 2
    ensures Run(fns, Step(InitialWork(starts, fns)), steps).Success?
  {
    InitialConsistent(starts, fns);
    StepConsistent(fns, InitialWork(starts, fns));
    RunFailure(fns, Step(InitialWork(starts, fns)), steps);
  }

  /** A line printed by the first iteration comes first, when the later iterations raise nothing. */
  lemma IntersectFirstLine(starts: seq<int>, fns: seq<Formula>, steps: nat, line: Report)
    requires steps >= 1 && |InitialWork(starts, fns)| >= 2
    requires Found(fns, InitialWork(starts, fns)) == Success([line])
    requires Run(fns, Step(InitialWork(starts, fns)), steps - 1).Success?
    ensures Intersect(starts, fns, steps).Success? && |Intersect(starts, fns, steps).value| > 0
    ensures Intersect(starts, fns, steps).value[0] == line
  {
  }

  /** When every formula gives the same value at its start, the first printed line is that value with the starts. */
  lemma IntersectReportsCommonStart(starts: seq<int>, fns: seq<Formula>, steps: nat, v: int)
    requires DistinctFormulas(fns) && |starts| == |fns| >= 2 && steps >= 1
    requires forall i :: 0 <= i < |fns| ==> Apply(fns[i], starts[i]) == v
    ensures Intersect(starts, fns, steps).Success? && |Intersect(starts, fns, steps).value| > 0
    ensures Intersect(starts, fns, steps).value[0] == Report(v, starts)
  {
    CommonStartFound(starts, fns, v);
    InitialStepRaisesNothing(starts, fns, steps - 1);
    IntersectFirstLine(starts, fns, steps, Report(v, starts));
  }

  /** By default every start is 1; arguments must give exactly one start per formula. */
  lemma StartsSpec(args: seq<int>, fns: seq<Formula>)
    ensures Starts(args, fns).Success? <==> |args| == 0 || |args| == |fns|
    ensures Starts(args, fns).Success? ==> |Starts(args, fns).value| == |fns|
    ensures |args| == 0 ==> forall i :: 0 <= i < |fns| ==> Starts(args, fns).value[i] == 1
    ensures |args| > 0 && Starts(args, fns).Success? ==> Starts(args, fns).value == args
  {
  }

  /** The default run: the three formulas are distinct and all give 1 at the default start 1. */
  lemma DefaultRunAgreesAtOne()
    ensures DistinctFormulas(Fns()) && |Fns()| == 3
    ensures forall i :: 0 <= i < 3 ==> Apply(Fns()[i], 1) == 1
  {
  }

  /** The module-level run raises only on a wrong number of arguments, and each line it prints satisfies all three formulas. */
  lemma ProgramSpec(args: seq<int>, steps: nat)
    ensures Program(args, steps).Failure? <==> |args| > 0 && |args| != 3
    ensures Program(args, steps).Success? ==> forall r :: r in Program(args, steps).value ==> Satisfies(Fns(), r)
  {
    StartsSpec(args, Fns());
    DefaultRunAgreesAtOne();
    if Starts(args, Fns()).Success? {
      IntersectSpec(Starts(args, Fns()).value, Fns(), steps);
    }
  }
}
