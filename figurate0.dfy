/**
 * The first intersection program: k monotonic integer sequences are merged by always
 * drawing the next value from the sequence whose latest value is smallest (ties going to
 * the sequence listed first), and a value is reported whenever every sequence's latest
 * value equals it. The loop runs forever; here it runs a given number of iterations.
 */
module Figurate0 {
  import opened Wrappers
  import opened Sorting
  import opened Centered

  /** An endless integer sequence, as the values it yields: the k-th value drawn is s(k). */
  type Sequence = nat -> int

  /**
   * One work entry: the latest value drawn from a sequence, that sequence's position in the
   * argument list (the tie-breaker), and how many values have been drawn from it so far,
   * which stands for the iterator's state.
   */
  datatype Entry = Entry(value: int, index: nat, drawn: nat)

  /** Entries compare as the lists [value, index, iterator] do: by value, then by index. */
  function EntryKey(e: Entry): Key {
    (e.value, e.index)
  }

  ghost predicate StrictlyIncreasing(s: Sequence) {
    forall j: nat, k: nat :: j < k ==> s(j) < s(k)
  }

  ghost predicate Occurs(s: Sequence, v: int) {
    exists k: nat :: s(k) == v
  }

  predicate Indexed(seqs: seq<Sequence>, work: seq<Entry>) {
    forall e {:trigger e in work} :: e in work ==> e.index < |seqs|
  }

  /** The entry stands for its sequence after e.drawn values have been drawn. */
  predicate EntryOk(seqs: seq<Sequence>, e: Entry) {
    e.index < |seqs| && e.drawn >= 1 && e.value == seqs[e.index](e.drawn - 1)
  }

  /** What the loop keeps: every entry is faithful to its sequence and every sequence has an entry. */
  predicate WorkInv(seqs: seq<Sequence>, work: seq<Entry>) {
    && |work| > 0
    && Indexed(seqs, work)
    && (forall e {:trigger e in work} :: e in work ==> EntryOk(seqs, e))
    && (forall i :: 0 <= i < |seqs| ==> HasEntry(work, i))
  }

  predicate HasEntry(work: seq<Entry>, i: nat) {
    exists e {:trigger e in work} :: e in work && e.index == i
  }

  /** The work list before the first sort: the first value of each sequence, in argument order. */
  function InitialWork(seqs: seq<Sequence>): (work: seq<Entry>)
    ensures |work| == |seqs|
    ensures forall i :: 0 <= i < |seqs| ==> work[i] == Entry(seqs[i](0), i, 1)
  {
    seq(|seqs|, i requires 0 <= i < |seqs| => Entry(seqs[i](0), i, 1))
  }

  /** `next()` on the entry's iterator. */
  function Advance(seqs: seq<Sequence>, e: Entry): Entry
    requires e.index < |seqs|
  {
    Entry(seqs[e.index](e.drawn), e.index, e.drawn + 1)
  }

  /** `all(item[0] == v0 for item in work)` */
  predicate AllAt(work: seq<Entry>, v0: int) {
    forall e {:trigger e in work} :: e in work ==> e.value == v0
  }

  /** One iteration's update: sort the work, then draw the next value of the first entry. */
  function Step(seqs: seq<Sequence>, work: seq<Entry>): (w: seq<Entry>)
    requires |work| > 0 && Indexed(seqs, work)
    ensures |w| == |work| && Indexed(seqs, w)
  {
    var s := SortBy(work, EntryKey);
    SortByPerm(work, EntryKey);
    assert s[0] in s;
    var w := s[0 := Advance(seqs, s[0])];
    assert Indexed(seqs, w) by {
      UpdateMembers(s, 0, Advance(seqs, s[0]));
      forall e | e in w ensures e.index < |seqs| {
        if e != Advance(seqs, s[0]) {
          assert e in s;
        }
      }
    }
    w
  }

  /**
   * The values that `steps` iterations report, from a work list whose first entry holds v0
   * (true after the first sort and after every draw).
   */
  function Reported(seqs: seq<Sequence>, work: seq<Entry>, steps: nat): seq<int>
    requires |work| > 0 && Indexed(seqs, work)
    decreases steps
  {
    if steps == 0 then []
    else
      (if AllAt(work, work[0].value) then [work[0].value] else [])
      + Reported(seqs, Step(seqs, work), steps - 1)
  }

  lemma ConcatAssoc(a: seq<int>, b: seq<int>, c: seq<int>)
    ensures (a + b) + c == a + (b + c)
  {
  }

  lemma ReportedUnfold(seqs: seq<Sequence>, work: seq<Entry>, steps: nat)
    requires |work| > 0 && Indexed(seqs, work) && steps > 0
    ensures Reported(seqs, work, steps)
      == (if AllAt(work, work[0].value) then [work[0].value] else []) + Reported(seqs, Step(seqs, work), steps - 1)
  {
  }

  /** The order in which the program looks at the sequences after the initial sort. */
  function StartWork(seqs: seq<Sequence>): (work: seq<Entry>)
    ensures |work| == |seqs| && Indexed(seqs, work)
  {
    var w := SortBy(InitialWork(seqs), EntryKey);
    SortByPerm(InitialWork(seqs), EntryKey);
    w
  }

  /** The values reported by `steps` iterations; with no sequences, `work[0]` raises. */
  function Intersect(seqs: seq<Sequence>, steps: nat): Result<seq<int>> {
    if |seqs| == 0 then Failure("IndexError: list index out of range")
    else Success(Reported(seqs, StartWork(seqs), steps))
  }

  /** intersect_monotonic_sequences, run for `steps` iterations of its loop. */
  method IntersectMonotonicSequences(seqs: seq<Sequence>, steps: nat) returns (r: Result<seq<int>>)
    ensures r == Intersect(seqs, steps)
  {
    if |seqs| == 0 {
      return Failure("IndexError: list index out of range");
    }
    var work := StartWork(seqs);
    var reported := Iterate(seqs, work, steps);
    r := Success(reported);
  }

  /** The `while True` loop, stopped after `steps` iterations. */
  method Iterate(seqs: seq<Sequence>, work0: seq<Entry>, steps: nat) returns (reported: seq<int>)
    requires |work0| > 0 && Indexed(seqs, work0)
    ensures reported == Reported(seqs, work0, steps)
  {
    var work := work0;
    var v0 := work[0].value;
    reported := [];
    var t := 0;
    assert reported + Reported(seqs, work, steps) == Reported(seqs, work0, steps);
    while t < steps
      invariant 0 <= t <= steps
      invariant |work| == |work0| && Indexed(seqs, work) && v0 == work[0].value
      invariant reported + Reported(seqs, work, steps - t) == Reported(seqs, work0, steps)
    {
      ghost var before := work;
      ghost var found := if AllAt(work, v0) then [v0] else [];
      ghost var rest := Reported(seqs, Step(seqs, work), steps - t - 1);
      ReportedUnfold(seqs, work, steps - t);
      ghost var earlier := reported;
      if AllAt(work, v0) {
        reported := reported + [v0];
      }
      assert reported == earlier + found;
      ConcatAssoc(earlier, found, rest);
      StepMembers(seqs, work);
      work := SortBy(work, EntryKey);
      var next := Advance(seqs, work[0]);
      work := work[0 := next];
      v0 := next.value;
      t := t + 1;
      assert work == Step(seqs, before);
      assert Reported(seqs, work, steps - t) == rest;
    }
  }

  /**
   * A step sorts the work and draws from the entry with the smallest value, the lowest
   * index among equal values; the other entries are left as the sort placed them.
   */
  lemma StepSpec(seqs: seq<Sequence>, work: seq<Entry>)
    requires |work| > 0 && Indexed(seqs, work)
    ensures var s := SortBy(work, EntryKey);
      && multiset(s) == multiset(work)
      && s[0] in work
      && (forall e {:trigger e in work} :: e in work ==> e.value > s[0].value || (e.value == s[0].value && e.index >= s[0].index))
      && Step(seqs, work)[0] == Advance(seqs, s[0])
      && Step(seqs, work)[1..] == s[1..]
  {
    SortByFirstMinimal(work, EntryKey);
    SortByPerm(work, EntryKey);
  }

  /** A draw moves a strictly increasing sequence's head up. */
  lemma AdvanceGrows(seqs: seq<Sequence>, e: Entry)
    requires EntryOk(seqs, e) && StrictlyIncreasing(seqs[e.index])
    ensures EntryOk(seqs, Advance(seqs, e)) && Advance(seqs, e).value > e.value
  {
    assert e.drawn - 1 < e.drawn;
  }

  lemma StartWorkInv(seqs: seq<Sequence>)
    requires |seqs| > 0
    ensures WorkInv(seqs, StartWork(seqs))
  {
    var init := InitialWork(seqs);
    var w := StartWork(seqs);
    SortByPerm(init, EntryKey);
    forall e | e in w ensures EntryOk(seqs, e) {
      var i :| 0 <= i < |init| && init[i] == e;
    }
    forall i | 0 <= i < |seqs| ensures HasEntry(w, i) {
      assert init[i] in w;
    }
  }

  /** Which entries a step keeps: all but the first after sorting, which it replaces by its draw. */
  lemma StepMembers(seqs: seq<Sequence>, work: seq<Entry>)
    requires |work| > 0 && Indexed(seqs, work)
    ensures SortBy(work, EntryKey)[0] in work
    ensures Advance(seqs, SortBy(work, EntryKey)[0]) in Step(seqs, work)
    ensures forall e :: e in Step(seqs, work) ==> e in work || e == Advance(seqs, SortBy(work, EntryKey)[0])
    ensures forall e :: e in work ==> e in Step(seqs, work) || e == SortBy(work, EntryKey)[0]
  {
    var s := SortBy(work, EntryKey);
    SortByPerm(work, EntryKey);
    assert s[0] in s;
    UpdateMembers(s, 0, Advance(seqs, s[0]));
  }

  lemma StepInv(seqs: seq<Sequence>, work: seq<Entry>)
    requires WorkInv(seqs, work)
    ensures WorkInv(seqs, Step(seqs, work))
  {
    var head := SortBy(work, EntryKey)[0];
    var w := Step(seqs, work);
    StepMembers(seqs, work);
    assert EntryOk(seqs, head);
    forall i | 0 <= i < |seqs| ensures HasEntry(w, i) {
      assert HasEntry(work, i);
      var e :| e in work && e.index == i;
      if e == head {
        assert Advance(seqs, head) in w;
      }
    }
  }

  /** Every reported value occurs in every sequence. */
  lemma {:induction false} ReportedOccursInAll(seqs: seq<Sequence>, work: seq<Entry>, steps: nat)
    requires WorkInv(seqs, work)
    ensures forall v, i :: v in Reported(seqs, work, steps) && 0 <= i < |seqs| ==> Occurs(seqs[i], v)
    decreases steps
  {
    if steps > 0 {
      var v0 := work[0].value;
      var w := Step(seqs, work);
      ReportedUnfold(seqs, work, steps);
      StepInv(seqs, work);
      ReportedOccursInAll(seqs, w, steps - 1);
      if AllAt(work, v0) {
        forall i | 0 <= i < |seqs| ensures Occurs(seqs[i], v0) {
          assert HasEntry(work, i);
          var e :| e in work && e.index == i;
          assert seqs[i](e.drawn - 1) == v0;
        }
      }
    }
  }

  /** Each value is below the next. */
  predicate Ascending(s: seq<int>) {
    |s| < 2 || (s[0] < s[1] && Ascending(s[1..]))
  }

  lemma PrependAscending(v: int, s: seq<int>)
    requires Ascending(s) && forall x :: x in s ==> x > v
    ensures Ascending([v] + s)
  {
    assert ([v] + s)[1..] == s;
    if |s| > 0 {
      assert s[0] in s;
    }
  }

  /** An ascending sequence is strictly increasing between any two positions, so it has no repeats. */
  lemma {:induction false} AscendingPairwise(s: seq<int>)
    requires Ascending(s)
    ensures forall i, j :: 0 <= i < j < |s| ==> s[i] < s[j]
  {
    if |s| >= 2 {
      AscendingPairwise(s[1..]);
      forall i, j | 0 <= i < j < |s| ensures s[i] < s[j] {
        if i > 0 {
          assert s[i] == s[1..][i - 1] && s[j] == s[1..][j - 1];
        } else if j > 1 {
          assert s[1] == s[1..][0] && s[j] == s[1..][j - 1];
        }
      }
    }
  }

  ghost predicate Increasing(seqs: seq<Sequence>) {
    forall i :: 0 <= i < |seqs| ==> StrictlyIncreasing(seqs[i])
  }

  /** Every head is at least lo and one of them is above it. */
  predicate Above(work: seq<Entry>, lo: int) {
    (forall e {:trigger e in work} :: e in work ==> e.value >= lo) && exists e {:trigger e in work} :: e in work && e.value > lo
  }

  /** After a step the heads are still at least lo, with one above it. */
  lemma StepAbove(seqs: seq<Sequence>, work: seq<Entry>, lo: int)
    requires WorkInv(seqs, work) && Increasing(seqs) && Above(work, lo)
    ensures Above(Step(seqs, work), lo)
  {
    var head := SortBy(work, EntryKey)[0];
    var w := Step(seqs, work);
    StepMembers(seqs, work);
    AdvanceGrows(seqs, head);
    var e :| e in work && e.value > lo;
    if e == head {
      assert Advance(seqs, head) in w;
    } else {
      assert e in w;
    }
  }

  /** When every head equals v0, the step leaves every head at least v0 and one above it. */
  lemma StepPastCommon(seqs: seq<Sequence>, work: seq<Entry>, v0: int)
    requires WorkInv(seqs, work) && Increasing(seqs) && AllAt(work, v0)
    ensures Above(Step(seqs, work), v0)
  {
    var head := SortBy(work, EntryKey)[0];
    StepMembers(seqs, work);
    AdvanceGrows(seqs, head);
    assert Advance(seqs, head) in Step(seqs, work);
  }

  /** If all heads share a value while one is above lo, that value is above lo. */
  lemma CommonAbove(work: seq<Entry>, v0: int, lo: int)
    requires AllAt(work, v0) && Above(work, lo)
    ensures v0 > lo
  {
    var e :| e in work && e.value > lo;
  }

  lemma PrependAbove(v0: int, lo: int, rest: seq<int>)
    requires v0 > lo && Ascending(rest) && forall v :: v in rest ==> v > v0
    ensures Ascending([v0] + rest) && forall v :: v in [v0] + rest ==> v > lo
  {
    PrependAscending(v0, rest);
  }

  /** The two ways one iteration contributes to the reports. */
  lemma ReportedCommon(seqs: seq<Sequence>, work: seq<Entry>, steps: nat)
    requires |work| > 0 && Indexed(seqs, work) && steps > 0 && AllAt(work, work[0].value)
    ensures Reported(seqs, work, steps) == [work[0].value] + Reported(seqs, Step(seqs, work), steps - 1)
  {
    ReportedUnfold(seqs, work, steps);
  }

  lemma ReportedSkip(seqs: seq<Sequence>, work: seq<Entry>, steps: nat)
    requires |work| > 0 && Indexed(seqs, work) && steps > 0 && !AllAt(work, work[0].value)
    ensures Reported(seqs, work, steps) == Reported(seqs, Step(seqs, work), steps - 1)
  {
    ReportedUnfold(seqs, work, steps);
    assert [] + Reported(seqs, Step(seqs, work), steps - 1) == Reported(seqs, Step(seqs, work), steps - 1);
  }

  /** The case where every head agrees on v0: v0 is reported, above lo, and before every later report. */
  lemma AboveCommonCase(seqs: seq<Sequence>, work: seq<Entry>, steps: nat, lo: int)
    requires WorkInv(seqs, work) && Above(work, lo) && steps > 0 && AllAt(work, work[0].value)
    requires var rest := Reported(seqs, Step(seqs, work), steps - 1);
      Ascending(rest) && forall v :: v in rest ==> v > work[0].value
    ensures Ascending(Reported(seqs, work, steps))
    ensures forall v :: v in Reported(seqs, work, steps) ==> v > lo
  {
    ReportedCommon(seqs, work, steps);
    CommonAbove(work, work[0].value, lo);
    PrependAbove(work[0].value, lo, Reported(seqs, Step(seqs, work), steps - 1));
  }

  /** The case where the heads disagree: the reports are those of the later iterations. */
  lemma AboveSkipCase(seqs: seq<Sequence>, work: seq<Entry>, steps: nat, lo: int)
    requires WorkInv(seqs, work) && steps > 0 && !AllAt(work, work[0].value)
    requires var rest := Reported(seqs, Step(seqs, work), steps - 1);
      Ascending(rest) && forall v :: v in rest ==> v > lo
    ensures Ascending(Reported(seqs, work, steps))
    ensures forall v :: v in Reported(seqs, work, steps) ==> v > lo
  {
    ReportedSkip(seqs, work, steps);
  }

  /** Once the heads are at least lo with one above it, every later report is above lo, in ascending order. */
  lemma {:induction false} ReportedAbove(seqs: seq<Sequence>, work: seq<Entry>, steps: nat, lo: int)
    requires WorkInv(seqs, work) && Increasing(seqs) && Above(work, lo)
    ensures Ascending(Reported(seqs, work, steps))
    ensures forall v :: v in Reported(seqs, work, steps) ==> v > lo
    decreases steps
  {
    if steps > 0 {
      StepInv(seqs, work);
      if AllAt(work, work[0].value) {
        StepPastCommon(seqs, work, work[0].value);
        ReportedAbove(seqs, Step(seqs, work), steps - 1, work[0].value);
        AboveCommonCase(seqs, work, steps, lo);
      } else {
        StepAbove(seqs, work, lo);
        ReportedAbove(seqs, Step(seqs, work), steps - 1, lo);
        AboveSkipCase(seqs, work, steps, lo);
      }
    }
  }

  /** A bound strictly below every head. */
  lemma {:induction false} BelowAll(work: seq<Entry>) returns (lo: int)
    ensures forall e {:trigger e in work} :: e in work ==> e.value > lo
  {
    if work == [] {
      lo := 0;
    } else {
      var l := BelowAll(work[1..]);
      lo := if work[0].value <= l then work[0].value - 1 else l;
      forall e | e in work ensures e.value > lo {
        if e != work[0] {
          assert e in work[1..];
        }
      }
    }
  }

  /** For strictly increasing sequences the reports ascend, so no common value is reported twice. */
  lemma ReportedAscending(seqs: seq<Sequence>, work: seq<Entry>, steps: nat)
    requires WorkInv(seqs, work) && Increasing(seqs)
    ensures Ascending(Reported(seqs, work, steps))
  {
    var lo := BelowAll(work);
    assert work[0] in work;
    ReportedAbove(seqs, work, steps, lo);
  }

  /** What the program promises: its reports are common to all sequences and, for strictly increasing sequences, ascend. */
  lemma IntersectSpec(seqs: seq<Sequence>, steps: nat)
    ensures Intersect(seqs, steps).Failure? <==> |seqs| == 0
    ensures Intersect(seqs, steps).Success? ==>
      forall v, i :: v in Intersect(seqs, steps).value && 0 <= i < |seqs| ==> Occurs(seqs[i], v)
    ensures Intersect(seqs, steps).Success? && Increasing(seqs) ==>
      forall i, j :: 0 <= i < j < |Intersect(seqs, steps).value| ==>
        Intersect(seqs, steps).value[i] < Intersect(seqs, steps).value[j]
  {
    if |seqs| > 0 {
      StartWorkInv(seqs);
      ReportedOccursInAll(seqs, StartWork(seqs), steps);
      if Increasing(seqs) {
        ReportedAscending(seqs, StartWork(seqs), steps);
        AscendingPairwise(Reported(seqs, StartWork(seqs), steps));
      }
    }
  }

  /** centered_4 over itertools.count(1) */
  function Centered4From1(k: nat): int {
    Centered4(k + 1)
  }

  /** centered_6 over itertools.count(1) */
  function Centered6From1(k: nat): int {
    Centered6(k + 1)
  }

  /** centered_10 over itertools.count(1) */
  function Centered10From1(k: nat): int {
    Centered10(k + 1)
  }

  /** The module-level run: the three centered sequences, each counted from n = 1. */
  function CenteredSequences(): seq<Sequence> {
    [Centered4From1, Centered6From1, Centered10From1]
  }

  lemma CenteredSequencesIncreasing()
    ensures Increasing(CenteredSequences())
  {
    assert StrictlyIncreasing(Centered4From1) by {
      forall j: nat, k: nat | j < k ensures Centered4From1(j) < Centered4From1(k) {
        Centered4Increasing(j + 1, k + 1);
      }
    }
    assert StrictlyIncreasing(Centered6From1) by {
      forall j: nat, k: nat | j < k ensures Centered6From1(j) < Centered6From1(k) {
        Centered6Increasing(j + 1, k + 1);
      }
    }
    assert StrictlyIncreasing(Centered10From1) by {
      forall j: nat, k: nat | j < k ensures Centered10From1(j) < Centered10From1(k) {
        Centered10Increasing(j + 1, k + 1);
      }
    }
  }

  /** All three sequences of the run start at 1, so by IntersectReportsCommonStart the run first reports 1. */
  lemma CenteredSequencesStart()
    ensures |CenteredSequences()| == 3
    ensures CenteredSequences()[0](0) == 1 && CenteredSequences()[1](0) == 1 && CenteredSequences()[2](0) == 1
  {
  }

  /** When every sequence starts at v, every head is v after the initial sort. */
  lemma StartAllAt(seqs: seq<Sequence>, v: int)
    requires forall i :: 0 <= i < |seqs| ==> seqs[i](0) == v
    ensures AllAt(StartWork(seqs), v)
  {
    var init := InitialWork(seqs);
    assert AllAt(init, v) by {
      forall e | e in init ensures e.value == v {
        var j :| 0 <= j < |init| && init[j] == e;
      }
    }
    SortByPerm(init, EntryKey);
  }

  /** When every head holds the same value, the first iteration reports it. */
  lemma ReportsCommonFirst(seqs: seq<Sequence>, work: seq<Entry>, steps: nat, v: int)
    requires |work| > 0 && Indexed(seqs, work) && steps >= 1 && AllAt(work, v)
    ensures |Reported(seqs, work, steps)| > 0 && Reported(seqs, work, steps)[0] == v
  {
    assert work[0] in work;
    ReportedCommon(seqs, work, steps);
  }

  /** When every sequence starts at the same value, the first report is that value. */
  lemma IntersectReportsCommonStart(seqs: seq<Sequence>, steps: nat, v: int)
    requires |seqs| > 0 && steps >= 1
    requires forall i :: 0 <= i < |seqs| ==> seqs[i](0) == v
    ensures var r := Intersect(seqs, steps);
      r.Success? && |r.value| > 0 && r.value[0] == v
  {
    StartAllAt(seqs, v);
    ReportsCommonFirst(seqs, StartWork(seqs), steps, v);
  }
}
