/** Batch planning and 413 bisection for brain asset pushes (lib/brain/asset-transport.js).
    An item is left abstract; what matters of it is the number of bytes that a slice of items
    encodes to, given by a function. */
module AssetTransport {
  const BODY_SAFE_CEILING: nat := 9 * 1024 * 1024
  const MAX_FILES: nat := 500

  type Size<!T> = seq<T> -> nat

  datatype Batch<T> = Batch(items: seq<T>, encodedBytes: nat)
  datatype Oversized<T> = Oversized(item: T, encodedBytes: nat, budget: int)
  datatype Plan<T> = Plan(batches: seq<Batch<T>>, oversized: seq<Oversized<T>>)
  datatype Outcome<T> = Planned(plan: Plan<T>) | BadMaxFiles | BadBudget

  function Serialize<T>(size: Size<T>, items: seq<T>): Batch<T> {
    Batch(items, size(items))
  }

  /** A longer body never encodes to fewer bytes than a contiguous part of it. */
  ghost predicate Monotone<T(!new)>(size: Size<T>) {
    forall items: seq<T>, lo, hi :: 0 <= lo <= hi <= |items| ==> size(items[lo..hi]) <= size(items)
  }

  predicate ValidLimits(maxFiles: int, budget: int) {
    0 < maxFiles <= MAX_FILES && 0 < budget <= BODY_SAFE_CEILING
  }

  // ---- The reference plan: a linear scan ----

  /** The longest prefix that fits, looking at every length up to `limit`. */
  function LongestFit<T>(size: Size<T>, items: seq<T>, budget: int, limit: nat): (n: nat)
    requires limit <= |items|
    ensures n <= limit
  {
    if limit == 0 || size(items[..limit]) <= budget then limit else LongestFit(size, items, budget, limit - 1)
  }

  function Min(a: nat, b: nat): nat {
    if a < b then a else b
  }

  function Greedy<T>(size: Size<T>, items: seq<T>, budget: int, maxFiles: nat): Plan<T>
    requires maxFiles > 0
    decreases |items|
  {
    if items == [] then Plan([], [])
    else if size(items[..1]) > budget then
      var rest := Greedy(size, items[1..], budget, maxFiles);
      Plan(rest.batches, [Oversized(items[0], size(items[..1]), budget)] + rest.oversized)
    else
      var n := LongestFit(size, items, budget, Min(maxFiles, |items|));
      if n == 0 then Plan([], [])
      else
        var rest := Greedy(size, items[n..], budget, maxFiles);
        Plan([Serialize(size, items[..n])] + rest.batches, rest.oversized)
  }

  lemma {:induction false} LongestFitIsLongest<T>(size: Size<T>, items: seq<T>, budget: int, limit: nat)
    requires limit <= |items|
    ensures var n := LongestFit(size, items, budget, limit);
            && (n > 0 ==> size(items[..n]) <= budget)
            && (forall k :: n < k <= limit ==> size(items[..k]) > budget)
  {
    if limit > 0 && size(items[..limit]) > budget {
      LongestFitIsLongest(size, items, budget, limit - 1);
    }
  }

  lemma PrefixMonotone<T(!new)>(size: Size<T>, items: seq<T>, j: nat, k: nat)
    requires Monotone(size) && j <= k <= |items|
    ensures size(items[..j]) <= size(items[..k])
  {
    assert items[..k][0..j] == items[..j];
  }

  // ---- The planner as it runs ----

  /** Binary search for the largest fitting prefix of at least one item. */
  method SearchFit<T(!new)>(size: Size<T>, items: seq<T>, budget: int, limit: nat) returns (best: Batch<T>)
    requires 0 < limit <= |items| && size(items[..1]) <= budget
    ensures 0 < |best.items| <= limit
    ensures best == Serialize(size, items[..|best.items|]) && best.encodedBytes <= budget
    ensures Monotone(size) ==> |best.items| == LongestFit(size, items, budget, limit)
  {
    best := Serialize(size, items[..1]);
    var low, high: int := 2, limit;
    while low <= high
      invariant 2 <= low <= limit + 1 && high <= limit && low <= high + 1
      invariant best == Serialize(size, items[..low - 1]) && best.encodedBytes <= budget
      invariant high < limit ==> size(items[..high + 1]) > budget
      decreases high - low
    {
      var count := (low + high) / 2;
      var candidate := Serialize(size, items[..count]);
      if candidate.encodedBytes <= budget {
        best := candidate;
        low := count + 1;
      } else {
        high := count - 1;
      }
    }
    if Monotone(size) {
      SearchMeetsScan(size, items, budget, limit, |best.items|);
    }
  }

  lemma SearchMeetsScan<T(!new)>(size: Size<T>, items: seq<T>, budget: int, limit: nat, n: nat)
    requires Monotone(size)
    requires 0 < n <= limit <= |items| && size(items[..n]) <= budget
    requires n < limit ==> size(items[..n + 1]) > budget
    ensures LongestFit(size, items, budget, limit) == n
  {
    LongestFitIsLongest(size, items, budget, limit);
    var m := LongestFit(size, items, budget, limit);
    if m > n {
      PrefixMonotone(size, items, n + 1, m);
    }
  }

  /** All items in input order, taken from the batches and the oversized list. */
  ghost predicate Splits<T(!new)>(items: seq<T>, plan: Plan<T>) {
    exists parts: seq<seq<T>> :: Interleaves(parts, plan) && Concat(parts) == items
  }

  /** `parts` is an in-order merge of the batches' items and of the oversized singletons. */
  ghost predicate Interleaves<T>(parts: seq<seq<T>>, plan: Plan<T>)
    decreases |parts|
  {
    if parts == [] then plan.batches == [] && plan.oversized == []
    else
      || (plan.batches != [] && parts[0] == plan.batches[0].items
          && Interleaves(parts[1..], plan.(batches := plan.batches[1..])))
      || (plan.oversized != [] && parts[0] == [plan.oversized[0].item]
          && Interleaves(parts[1..], plan.(oversized := plan.oversized[1..])))
  }

  function Concat<T>(parts: seq<seq<T>>): seq<T> {
    if parts == [] then [] else parts[0] + Concat(parts[1..])
  }

  predicate BatchOk<T>(size: Size<T>, b: Batch<T>, budget: int, maxFiles: int) {
    0 < |b.items| <= maxFiles && b.encodedBytes == size(b.items) && b.encodedBytes <= budget
  }

  predicate IsOversized<T>(size: Size<T>, o: Oversized<T>, budget: int) {
    o.encodedBytes == size([o.item]) && o.encodedBytes > budget && o.budget == budget
  }

  function Prepend<T>(plan: Plan<T>, rest: Plan<T>): Plan<T> {
    Plan(plan.batches + rest.batches, plan.oversized + rest.oversized)
  }

  /** One turn of the planner's loop, seen from the reference plan. */
  lemma GreedyStep<T>(size: Size<T>, items: seq<T>, budget: int, maxFiles: nat, done: Plan<T>)
    requires maxFiles > 0 && items != []
    ensures size(items[..1]) > budget ==>
              Prepend(done, Greedy(size, items, budget, maxFiles)) ==
              Prepend(done.(oversized := done.oversized + [Oversized(items[0], size(items[..1]), budget)]),
                      Greedy(size, items[1..], budget, maxFiles))
    ensures size(items[..1]) <= budget ==>
              var n := LongestFit(size, items, budget, Min(maxFiles, |items|));
              Prepend(done, Greedy(size, items, budget, maxFiles)) ==
              Prepend(done.(batches := done.batches + [Serialize(size, items[..n])]),
                      Greedy(size, items[n..], budget, maxFiles))
  {
    if size(items[..1]) <= budget {
      FitIsPositive(size, items, budget, maxFiles);
    }
  }

  lemma {:induction false} InterleavesBatch<T>(parts: seq<seq<T>>, plan: Plan<T>, b: Batch<T>)
    requires Interleaves(parts, plan)
    ensures Interleaves(parts + [b.items], plan.(batches := plan.batches + [b]))
    decreases |parts|
  {
    var more := plan.(batches := plan.batches + [b]);
    if parts == [] {
      assert more.batches[1..] == [];
      assert Interleaves([], more.(batches := more.batches[1..]));
      assert (parts + [b.items])[1..] == [];
    } else {
      assert (parts + [b.items])[1..] == parts[1..] + [b.items];
      if plan.batches != [] && parts[0] == plan.batches[0].items
         && Interleaves(parts[1..], plan.(batches := plan.batches[1..])) {
        InterleavesBatch(parts[1..], plan.(batches := plan.batches[1..]), b);
        assert more.batches[1..] == plan.batches[1..] + [b];
      } else {
        InterleavesBatch(parts[1..], plan.(oversized := plan.oversized[1..]), b);
      }
    }
  }

  lemma {:induction false} InterleavesOversized<T>(parts: seq<seq<T>>, plan: Plan<T>, o: Oversized<T>)
    requires Interleaves(parts, plan)
    ensures Interleaves(parts + [[o.item]], plan.(oversized := plan.oversized + [o]))
    decreases |parts|
  {
    var more := plan.(oversized := plan.oversized + [o]);
    if parts == [] {
      assert more.oversized[1..] == [];
      assert Interleaves([], more.(oversized := more.oversized[1..]));
      assert (parts + [[o.item]])[1..] == [];
    } else {
      assert (parts + [[o.item]])[1..] == parts[1..] + [[o.item]];
      if plan.batches != [] && parts[0] == plan.batches[0].items
         && Interleaves(parts[1..], plan.(batches := plan.batches[1..])) {
        InterleavesOversized(parts[1..], plan.(batches := plan.batches[1..]), o);
      } else {
        InterleavesOversized(parts[1..], plan.(oversized := plan.oversized[1..]), o);
        assert more.oversized[1..] == plan.oversized[1..] + [o];
      }
    }
  }

  lemma {:induction false} ConcatSnoc<T>(parts: seq<seq<T>>, last: seq<T>)
    ensures Concat(parts + [last]) == Concat(parts) + last
  {
    if parts == [] {
      assert [last][1..] == [];
    } else {
      assert (parts + [last])[1..] == parts[1..] + [last];
      ConcatSnoc(parts[1..], last);
    }
  }

  lemma SplitsBatch<T(!new)>(done: seq<T>, plan: Plan<T>, b: Batch<T>)
    requires Splits(done, plan)
    ensures Splits(done + b.items, plan.(batches := plan.batches + [b]))
  {
    var parts :| Interleaves(parts, plan) && Concat(parts) == done;
    InterleavesBatch(parts, plan, b);
    ConcatSnoc(parts, b.items);
  }

  lemma SplitsOversized<T(!new)>(done: seq<T>, plan: Plan<T>, o: Oversized<T>)
    requires Splits(done, plan)
    ensures Splits(done + [o.item], plan.(oversized := plan.oversized + [o]))
  {
    var parts :| Interleaves(parts, plan) && Concat(parts) == done;
    InterleavesOversized(parts, plan, o);
    ConcatSnoc(parts, [o.item]);
  }

  lemma NothingSplits<T(!new)>()
    ensures Splits<T>([], Plan([], []))
  {
    assert Interleaves<T>([], Plan([], [])) && Concat<T>([]) == [];
  }

  /** The plan after some of the items: well-formed, lossless, and on the way to the linear scan's. */
  ghost predicate PlannedTo<T(!new)>(size: Size<T>, items: seq<T>, budget: int, maxFiles: nat, plan: Plan<T>,
                                     cursor: nat)
    requires maxFiles > 0 && cursor <= |items|
  {
    && (forall b :: b in plan.batches ==> BatchOk(size, b, budget, maxFiles))
    && (forall o :: o in plan.oversized ==> IsOversized(size, o, budget))
    && Splits(items[..cursor], plan)
    && (Monotone(size) ==>
          Greedy(size, items, budget, maxFiles) ==
          Prepend(plan, Greedy(size, items[cursor..], budget, maxFiles)))
  }

  /** One turn of the loop: the next item is set aside, or a batch is cut off. */
  method PlanNext<T(!new)>(size: Size<T>, items: seq<T>, budget: int, maxFiles: nat, plan: Plan<T>, cursor: nat)
    returns (after: Plan<T>, next: nat)
    requires maxFiles > 0 && cursor < |items| && PlannedTo(size, items, budget, maxFiles, plan, cursor)
    ensures cursor < next <= |items| && PlannedTo(size, items, budget, maxFiles, after, next)
  {
    var rest := items[cursor..];
    assert rest[..1] == [items[cursor]];
    GreedyStep(size, rest, budget, maxFiles, plan);
    var singleton := Serialize(size, rest[..1]);
    if singleton.encodedBytes > budget {
      var o := Oversized(items[cursor], singleton.encodedBytes, budget);
      after, next := plan.(oversized := plan.oversized + [o]), cursor + 1;
      SplitsOversized(items[..cursor], plan, o);
      assert items[..next] == items[..cursor] + [o.item];
      assert rest[1..] == items[next..];
    } else {
      var best := SearchFit(size, rest, budget, Min(maxFiles, |rest|));
      after, next := plan.(batches := plan.batches + [best]), cursor + |best.items|;
      SplitsBatch(items[..cursor], plan, best);
      assert items[..next] == items[..cursor] + best.items;
      assert rest[|best.items|..] == items[next..];
    }
  }

  /** Whatever the size function does, the plan is made of well-formed batches and loses no item; for a monotone one it
      is the linear scan's. */
  method PlanBatches<T(!new)>(size: Size<T>, items: seq<T>, maxFiles: int, budget: int) returns (r: Outcome<T>)
    ensures r.BadMaxFiles? <==> !(0 < maxFiles <= MAX_FILES)
    ensures r.Planned? <==> ValidLimits(maxFiles, budget)
    ensures r.Planned? ==> forall b :: b in r.plan.batches ==> BatchOk(size, b, budget, maxFiles)
    ensures r.Planned? ==>
              forall o :: o in r.plan.oversized ==> IsOversized(size, o, budget)
    ensures r.Planned? ==> Splits(items, r.plan)
    ensures r.Planned? && Monotone(size) ==> r.plan == Greedy(size, items, budget, maxFiles)
  {
    if !(0 < maxFiles <= MAX_FILES) {
      return BadMaxFiles;
    }
    if !(0 < budget <= BODY_SAFE_CEILING) {
      return BadBudget;
    }
    var plan: Plan<T>, cursor: nat := Plan([], []), 0;
    NothingSplits<T>();
    assert items[..0] == [] && items[0..] == items;
    while cursor < |items|
      invariant cursor <= |items| && PlannedTo(size, items, budget, maxFiles, plan, cursor)
      decreases |items| - cursor
    {
      plan, cursor := PlanNext(size, items, budget, maxFiles, plan, cursor);
    }
    assert items[..cursor] == items && items[cursor..] == [];
    return Planned(plan);
  }

  // ---- The reference plan loses nothing ----

  lemma FitIsPositive<T>(size: Size<T>, items: seq<T>, budget: int, maxFiles: nat)
    requires maxFiles > 0 && items != [] && size(items[..1]) <= budget
    ensures LongestFit(size, items, budget, Min(maxFiles, |items|)) > 0
  {
    LongestFitIsLongest(size, items, budget, Min(maxFiles, |items|));
  }

  /** Every item lands once, in input order, in a batch or among the oversized. */
  lemma {:induction false} GreedySplits<T(!new)>(size: Size<T>, items: seq<T>, budget: int, maxFiles: nat)
    requires maxFiles > 0
    ensures Splits(items, Greedy(size, items, budget, maxFiles))
    decreases |items|
  {
    var plan := Greedy(size, items, budget, maxFiles);
    if items == [] {
      assert Interleaves([], plan) && Concat<T>([]) == items;
    } else {
      var n := 1;
      if size(items[..1]) <= budget {
        FitIsPositive(size, items, budget, maxFiles);
        n := LongestFit(size, items, budget, Min(maxFiles, |items|));
      }
      GreedySplits(size, items[n..], budget, maxFiles);
      var rest := Greedy(size, items[n..], budget, maxFiles);
      var tail :| Interleaves(tail, rest) && Concat(tail) == items[n..];
      var parts := [items[..n]] + tail;
      assert parts[1..] == tail;
      if size(items[..1]) <= budget {
        assert plan.(batches := plan.batches[1..]) == rest;
      } else {
        assert items[..1] == [items[0]];
        assert plan.(oversized := plan.oversized[1..]) == rest;
      }
      assert Interleaves(parts, plan);
      assert Concat(parts) == items[..n] + items[n..];
    }
  }

  /** An item is set aside exactly when it alone exceeds the budget. */
  lemma {:induction false} OversizedExactly<T(!new)>(size: Size<T>, items: seq<T>, budget: int, maxFiles: nat, item: T)
    requires maxFiles > 0 && Monotone(size)
    ensures (exists o :: o in Greedy(size, items, budget, maxFiles).oversized && o.item == item) <==>
            item in items && size([item]) > budget
    decreases |items|
  {
    var plan := Greedy(size, items, budget, maxFiles);
    if items != [] {
      assert items[..1] == [items[0]];
      if size(items[..1]) > budget {
        OversizedExactly(size, items[1..], budget, maxFiles, item);
        var rest := Greedy(size, items[1..], budget, maxFiles);
        assert items == [items[0]] + items[1..];
        if item == items[0] {
          assert plan.oversized[0] in plan.oversized;
        }
        if o :| o in rest.oversized && o.item == item {
          assert o in plan.oversized;
        }
      } else {
        FitIsPositive(size, items, budget, maxFiles);
        var n := LongestFit(size, items, budget, Min(maxFiles, |items|));
        LongestFitIsLongest(size, items, budget, Min(maxFiles, |items|));
        OversizedExactly(size, items[n..], budget, maxFiles, item);
        assert items == items[..n] + items[n..];
        if item in items[..n] {
          var k :| 0 <= k < n && items[..n][k] == item;
          assert items[..n][k..k + 1] == [item];
        }
      }
    }
  }

  // ---- Optimality ----

  /** A stretch `items[lo..hi]` of the input. */
  datatype Slice = Slice(lo: nat, hi: nat)

  predicate Feasible<T>(size: Size<T>, items: seq<T>, budget: int, maxFiles: nat, s: Slice) {
    s.lo <= s.hi <= |items| && s.hi - s.lo <= maxFiles && size(items[s.lo..s.hi]) <= budget
  }

  predicate Eligible<T>(size: Size<T>, items: seq<T>, budget: int, i: nat)
    requires i < |items|
  {
    size(items[i..i + 1]) <= budget
  }

  /** Every eligible item lies in some slice. */
  predicate Covers<T>(size: Size<T>, items: seq<T>, budget: int, slices: seq<Slice>) {
    forall i :: 0 <= i < |items| && Eligible(size, items, budget, i) ==>
      exists j :: 0 <= j < |slices| && slices[j].lo <= i < slices[j].hi
  }

  /** Where each batch of the reference plan starts in the input. */
  function Starts<T>(size: Size<T>, items: seq<T>, budget: int, maxFiles: nat, from: nat): seq<nat>
    requires maxFiles > 0 && from <= |items|
    decreases |items| - from
  {
    if from == |items| then []
    else if size(items[from..][..1]) > budget then Starts(size, items, budget, maxFiles, from + 1)
    else
      var n := LongestFit(size, items[from..], budget, Min(maxFiles, |items| - from));
      if n == 0 then [] else [from] + Starts(size, items, budget, maxFiles, from + n)
  }

  lemma {:induction false} OneStartPerBatch<T>(size: Size<T>, items: seq<T>, budget: int, maxFiles: nat, from: nat)
    requires maxFiles > 0 && from <= |items|
    ensures |Starts(size, items, budget, maxFiles, from)| == |Greedy(size, items[from..], budget, maxFiles).batches|
    decreases |items| - from
  {
    if from < |items| {
      var rest := items[from..];
      if size(rest[..1]) > budget {
        assert rest[1..] == items[from + 1..];
        OneStartPerBatch(size, items, budget, maxFiles, from + 1);
      } else {
        FitIsPositive(size, rest, budget, maxFiles);
        var n := LongestFit(size, rest, budget, Min(maxFiles, |rest|));
        assert rest[n..] == items[from + n..];
        OneStartPerBatch(size, items, budget, maxFiles, from + n);
      }
    }
  }

  /** Every start lies at or after `from` and is eligible. */
  predicate EligibleFrom<T>(size: Size<T>, items: seq<T>, budget: int, from: nat, starts: seq<nat>) {
    forall j :: 0 <= j < |starts| ==> from <= starts[j] < |items| && Eligible(size, items, budget, starts[j])
  }

  lemma {:induction false} StartsAreEligible<T>(size: Size<T>, items: seq<T>, budget: int, maxFiles: nat, from: nat)
    requires maxFiles > 0 && from <= |items|
    ensures EligibleFrom(size, items, budget, from, Starts(size, items, budget, maxFiles, from))
    decreases |items| - from
  {
    if from < |items| {
      var rest := items[from..];
      assert rest[..1] == items[from..from + 1];
      if size(rest[..1]) > budget {
        StartsAreEligible(size, items, budget, maxFiles, from + 1);
      } else {
        FitIsPositive(size, rest, budget, maxFiles);
        StartsAreEligible(size, items, budget, maxFiles,
                          from + LongestFit(size, rest, budget, Min(maxFiles, |rest|)));
      }
    }
  }

  /** The slice does not hold two of the starts. */
  predicate FarApart(starts: seq<nat>, s: Slice) {
    forall j, k :: 0 <= j < k < |starts| ==> !(s.lo <= starts[j] && starts[k] < s.hi)
  }

  /** No feasible slice holds two starts. */
  lemma {:induction false} StartsAreFarApart<T(!new)>(size: Size<T>, items: seq<T>, budget: int, maxFiles: nat,
                                                      from: nat, s: Slice)
    requires maxFiles > 0 && from <= |items| && Monotone(size)
    requires Feasible(size, items, budget, maxFiles, s)
    ensures FarApart(Starts(size, items, budget, maxFiles, from), s)
    decreases |items| - from
  {
    if from < |items| {
      var rest := items[from..];
      if size(rest[..1]) > budget {
        StartsAreFarApart(size, items, budget, maxFiles, from + 1, s);
      } else {
        FitIsPositive(size, rest, budget, maxFiles);
        var n := LongestFit(size, rest, budget, Min(maxFiles, |rest|));
        StartsAreFarApart(size, items, budget, maxFiles, from + n, s);
        StartsAreEligible(size, items, budget, maxFiles, from + n);
        if s.lo <= from {
          NothingLongerFits(size, items, budget, maxFiles, from, s);
        }
      }
    }
  }

  /** A slice that starts no later than a batch and ends beyond it is not feasible. */
  lemma NothingLongerFits<T(!new)>(size: Size<T>, items: seq<T>, budget: int, maxFiles: nat, from: nat, s: Slice)
    requires maxFiles > 0 && from < |items| && Monotone(size)
    requires Feasible(size, items, budget, maxFiles, s) && s.lo <= from
    ensures s.hi <= from + LongestFit(size, items[from..], budget, Min(maxFiles, |items| - from))
  {
    if s.hi > from {
      var limit, k := Min(maxFiles, |items| - from), s.hi - from;
      LongestFitIsLongest(size, items[from..], budget, limit);
      assert items[from..][..k] == items[s.lo..s.hi][from - s.lo..|items[s.lo..s.hi]|];
      assert size(items[from..][..k]) <= budget;
    }
  }

  /** Pigeons and holes: an injection of n things into m slots needs n <= m. */
  lemma {:induction false} Pigeonhole(at: seq<nat>, m: nat)
    requires forall j :: 0 <= j < |at| ==> at[j] < m
    requires forall j, k :: 0 <= j < k < |at| ==> at[j] != at[k]
    ensures |at| <= m
    decreases |at|
  {
    if at != [] {
      var n := |at| - 1;
      var squeezed := seq(n, j requires 0 <= j < n => if at[j] == m - 1 then at[n] else at[j]);
      Pigeonhole(squeezed, m - 1);
    }
  }

  lemma {:induction false} ChooseSlices<T>(size: Size<T>, items: seq<T>, budget: int, starts: seq<nat>,
                                           slices: seq<Slice>)
    returns (at: seq<nat>)
    requires Covers(size, items, budget, slices)
    requires forall j :: 0 <= j < |starts| ==> starts[j] < |items| && Eligible(size, items, budget, starts[j])
    ensures |at| == |starts|
    ensures forall j :: 0 <= j < |at| ==> at[j] < |slices| && slices[at[j]].lo <= starts[j] < slices[at[j]].hi
  {
    at := [];
    while |at| < |starts|
      invariant |at| <= |starts|
      invariant forall j :: 0 <= j < |at| ==> at[j] < |slices| && slices[at[j]].lo <= starts[j] < slices[at[j]].hi
    {
      var i := starts[|at|];
      var j :| 0 <= j < |slices| && slices[j].lo <= i < slices[j].hi;
      at := at + [j];
    }
  }

  /** The greedy plan is optimal: any feasible slices of the input that cover the eligible items, disjoint
      or not, are at least as many as its batches. */
  lemma GreedyIsOptimal<T(!new)>(size: Size<T>, items: seq<T>, budget: int, maxFiles: nat, slices: seq<Slice>)
    requires maxFiles > 0 && Monotone(size)
    requires forall s :: s in slices ==> Feasible(size, items, budget, maxFiles, s)
    requires Covers(size, items, budget, slices)
    ensures |Greedy(size, items, budget, maxFiles).batches| <= |slices|
  {
    OneStartPerBatch(size, items, budget, maxFiles, 0);
    assert items[0..] == items;
    StartsAreEligible(size, items, budget, maxFiles, 0);
    var starts := Starts(size, items, budget, maxFiles, 0);
    var at := ChooseSlices(size, items, budget, starts, slices);
    forall j, k | 0 <= j < k < |at| ensures at[j] != at[k] {
      assert slices[at[j]] in slices;
      StartsAreFarApart(size, items, budget, maxFiles, 0, slices[at[j]]);
    }
    Pigeonhole(at, |slices|);
  }

  // ---- The payload that the clients build ----

  function Sum(sizes: seq<nat>): nat {
    if sizes == [] then 0 else sizes[0] + Sum(sizes[1..])
  }

  /** A JSON body: a fixed envelope around an array of encoded entries and the commas between them. */
  function PayloadBytes(overhead: nat, sizes: seq<nat>): nat {
    overhead + Sum(sizes) + if sizes == [] then 0 else |sizes| - 1
  }

  lemma {:induction false} SumSplit(a: seq<nat>, b: seq<nat>)
    ensures Sum(a + b) == Sum(a) + Sum(b)
  {
    if a == [] {
      assert a + b == b;
    } else {
      assert (a + b)[1..] == a[1..] + b;
      SumSplit(a[1..], b);
    }
  }

  /** That payload meets the planner's one assumption. */
  lemma PayloadIsMonotone(overhead: nat)
    ensures Monotone((sizes: seq<nat>) => PayloadBytes(overhead, sizes))
  {
    forall sizes: seq<nat>, lo, hi | 0 <= lo <= hi <= |sizes|
      ensures PayloadBytes(overhead, sizes[lo..hi]) <= PayloadBytes(overhead, sizes)
    {
      assert sizes == sizes[..lo] + sizes[lo..hi] + sizes[hi..];
      SumSplit(sizes[..lo] + sizes[lo..hi], sizes[hi..]);
      SumSplit(sizes[..lo], sizes[lo..hi]);
    }
  }
}
