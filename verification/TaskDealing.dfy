/** Dealing the planned partitions out to worker tasks, padded to a uniform length. */
module TaskDealing {
  import opened Arithmetic
  import opened Partition

  function Padding(n: nat): (r: seq<PartitionSpec>)
    ensures |r| == n && forall i :: 0 <= i < n ==> r[i] == EMPTY_SPEC
  {
    seq(n, _ => EMPTY_SPEC)
  }

  function GroupSize(t: nat, base: nat, rem: nat): nat {
    base + if t < rem then 1 else 0
  }

  /** How many specifications tasks `t`, `t + 1`, … still receive. */
  function Owed(t: nat, tasks: nat, base: nat, rem: nat): nat
    decreases tasks - t
  {
    if t >= tasks then 0 else GroupSize(t, base, rem) + Owed(t + 1, tasks, base, rem)
  }

  lemma {:induction false} OwedIs(t: nat, tasks: nat, base: nat, rem: nat)
    requires t <= tasks && rem <= tasks
    ensures Owed(t, tasks, base, rem) == (tasks - t) * base + Max(0, rem - t)
    decreases tasks - t
  {
    if t < tasks {
      OwedIs(t + 1, tasks, base, rem);
      assert (tasks - t) * base == (tasks - (t + 1)) * base + base;
    }
  }

  function DealFrom(specs: seq<PartitionSpec>, t: nat, tasks: nat, base: nat, rem: nat, k: nat): seq<seq<PartitionSpec>>
    requires |specs| == Owed(t, tasks, base, rem) && base <= k && (rem > 0 ==> base < k)
    decreases tasks - t
  {
    if t >= tasks then []
    else
      var size := GroupSize(t, base, rem);
      [specs[..size] + Padding(k - size)] + DealFrom(specs[size..], t + 1, tasks, base, rem, k)
  }

  /** The uniform group length, `ceil(count / tasks)`. */
  function GroupLength(count: nat, tasks: nat): nat
    requires tasks > 0
  {
    if count % tasks > 0 then count / tasks + 1 else count / tasks
  }

  lemma DealOwes(count: nat, tasks: nat)
    requires tasks > 0
    ensures count == Owed(0, tasks, count / tasks, count % tasks)
  {
    OwedIs(0, tasks, count / tasks, count % tasks);
  }

  function Deal(specs: seq<PartitionSpec>, taskCount: nat): seq<seq<PartitionSpec>> {
    var tasks := Max(1, taskCount);
    DealOwes(|specs|, tasks);
    DealFrom(specs, 0, tasks, |specs| / tasks, |specs| % tasks, GroupLength(|specs|, tasks))
  }

  function FlattenSpecs(groups: seq<seq<PartitionSpec>>): seq<PartitionSpec> {
    if groups == [] then [] else groups[0] + FlattenSpecs(groups[1..])
  }

  function FilterSpecs(specs: seq<PartitionSpec>, keep: PartitionSpec -> bool): seq<PartitionSpec> {
    if specs == [] then []
    else (if keep(specs[0]) then [specs[0]] else []) + FilterSpecs(specs[1..], keep)
  }

  lemma {:induction false} FilterConcat(a: seq<PartitionSpec>, b: seq<PartitionSpec>, keep: PartitionSpec -> bool)
    ensures FilterSpecs(a + b, keep) == FilterSpecs(a, keep) + FilterSpecs(b, keep)
  {
    if a == [] {
      assert a + b == b;
    } else {
      FilterConcat(a[1..], b, keep);
      assert (a + b)[1..] == a[1..] + b && (a + b)[0] == a[0];
      var head := if keep(a[0]) then [a[0]] else [];
      var x, y := FilterSpecs(a[1..], keep), FilterSpecs(b, keep);
      assert head + (x + y) == head + x + y;
    }
  }

  lemma {:induction false} FilterPadding(n: nat, keep: PartitionSpec -> bool)
    requires !keep(EMPTY_SPEC)
    ensures FilterSpecs(Padding(n), keep) == []
  {
    if n > 0 {
      FilterPadding(n - 1, keep);
      assert Padding(n)[1..] == Padding(n - 1);
    }
  }

  lemma {:induction false} DealFromShape(specs: seq<PartitionSpec>, t: nat, tasks: nat, base: nat, rem: nat, k: nat)
    requires |specs| == Owed(t, tasks, base, rem) && base <= k && (rem > 0 ==> base < k) && t <= tasks
    ensures |DealFrom(specs, t, tasks, base, rem, k)| == tasks - t
    ensures forall g :: g in DealFrom(specs, t, tasks, base, rem, k) ==> |g| == k
    decreases tasks - t
  {
    if t < tasks {
      DealFromShape(specs[GroupSize(t, base, rem)..], t + 1, tasks, base, rem, k);
    }
  }

  lemma {:induction false} FilterGroup(specs: seq<PartitionSpec>, size: nat, pad: nat, rest: seq<seq<PartitionSpec>>, keep: PartitionSpec -> bool)
    requires size <= |specs| && !keep(EMPTY_SPEC)
    requires FilterSpecs(FlattenSpecs(rest), keep) == FilterSpecs(specs[size..], keep)
    ensures FilterSpecs(FlattenSpecs([specs[..size] + Padding(pad)] + rest), keep) == FilterSpecs(specs, keep)
  {
    var front, back := specs[..size], specs[size..];
    FilterPadded(front, pad, keep);
    FilterFirst(front + Padding(pad), rest, keep);
    FilterConcat(front, back, keep);
    assert front + back == specs;
  }

  lemma {:induction false} FilterPadded(front: seq<PartitionSpec>, pad: nat, keep: PartitionSpec -> bool)
    requires !keep(EMPTY_SPEC)
    ensures FilterSpecs(front + Padding(pad), keep) == FilterSpecs(front, keep)
  {
    FilterConcat(front, Padding(pad), keep);
    FilterPadding(pad, keep);
  }

  lemma {:induction false} FilterFirst(group: seq<PartitionSpec>, rest: seq<seq<PartitionSpec>>, keep: PartitionSpec -> bool)
    ensures FilterSpecs(FlattenSpecs([group] + rest), keep) == FilterSpecs(group, keep) + FilterSpecs(FlattenSpecs(rest), keep)
  {
    assert ([group] + rest)[1..] == rest;
    FilterConcat(group, FlattenSpecs(rest), keep);
  }

  lemma DealUnfold(specs: seq<PartitionSpec>, t: nat, tasks: nat, base: nat, rem: nat, k: nat)
    requires t < tasks && |specs| == Owed(t, tasks, base, rem) && base <= k && (rem > 0 ==> base < k)
    ensures var size := GroupSize(t, base, rem);
            && size <= |specs| && size <= k && |specs[size..]| == Owed(t + 1, tasks, base, rem)
            && DealFrom(specs, t, tasks, base, rem, k)
               == [specs[..size] + Padding(k - size)] + DealFrom(specs[size..], t + 1, tasks, base, rem, k)
  {
  }

  lemma {:induction false} DealFromConserves(specs: seq<PartitionSpec>, t: nat, tasks: nat, base: nat, rem: nat, k: nat, keep: PartitionSpec -> bool)
    requires |specs| == Owed(t, tasks, base, rem) && base <= k && (rem > 0 ==> base < k) && t <= tasks
    requires !keep(EMPTY_SPEC)
    ensures FilterSpecs(FlattenSpecs(DealFrom(specs, t, tasks, base, rem, k)), keep) == FilterSpecs(specs, keep)
    decreases tasks - t
  {
    if t < tasks {
      var size := GroupSize(t, base, rem);
      DealUnfold(specs, t, tasks, base, rem, k);
      var rest := DealFrom(specs[size..], t + 1, tasks, base, rem, k);
      DealFromConserves(specs[size..], t + 1, tasks, base, rem, k, keep);
      FilterGroup(specs, size, k - size, rest, keep);
    } else {
      assert specs == [];
    }
  }

  /**
   Exactly one group per task, all of one length; and whatever property padding lacks, the
   dealt-out specifications with that property are the input's, in order: nothing is dropped,
   duplicated or reordered.
   */
  lemma DealConserves(specs: seq<PartitionSpec>, taskCount: nat, keep: PartitionSpec -> bool)
    requires !keep(EMPTY_SPEC)
    ensures |Deal(specs, taskCount)| == Max(1, taskCount)
    ensures forall g :: g in Deal(specs, taskCount) ==> |g| == GroupLength(|specs|, Max(1, taskCount))
    ensures FilterSpecs(FlattenSpecs(Deal(specs, taskCount)), keep) == FilterSpecs(specs, keep)
  {
    var tasks := Max(1, taskCount);
    DealOwes(|specs|, tasks);
    DealFromShape(specs, 0, tasks, |specs| / tasks, |specs| % tasks, GroupLength(|specs|, tasks));
    DealFromConserves(specs, 0, tasks, |specs| / tasks, |specs| % tasks, GroupLength(|specs|, tasks), keep);
  }

  /** How many specifications tasks `t`, …, `g - 1` receive. */
  ghost function Before(t: nat, g: nat, base: nat, rem: nat): nat
    decreases g - t
  {
    if t >= g then 0 else GroupSize(t, base, rem) + Before(t + 1, g, base, rem)
  }

  lemma {:induction false} BeforeIs(t: nat, g: nat, base: nat, rem: nat)
    requires t <= g
    ensures Before(t, g, base, rem) == (g - t) * base + Min(g, rem) - Min(t, rem)
    decreases g - t
  {
    if t < g {
      BeforeIs(t + 1, g, base, rem);
      assert (g - t) * base == (g - (t + 1)) * base + base;
    }
  }

  lemma {:induction false} DealFromAt(specs: seq<PartitionSpec>, t: nat, tasks: nat, base: nat, rem: nat, k: nat, g: nat)
    requires |specs| == Owed(t, tasks, base, rem) && base <= k && (rem > 0 ==> base < k)
    requires t <= g < tasks && g - t < |DealFrom(specs, t, tasks, base, rem, k)|
    ensures Share(DealFrom(specs, t, tasks, base, rem, k)[g - t], specs, Before(t, g, base, rem), GroupSize(g, base, rem), k)
    decreases g - t
  {
    DealStarts(specs, t, tasks, base, rem, k);
    var own := GroupSize(t, base, rem);
    if t == g {
      ShareFirst(specs, own, k);
    } else {
      var deal, rest := DealFrom(specs, t, tasks, base, rem, k), DealFrom(specs[own..], t + 1, tasks, base, rem, k);
      assert deal[g - t] == rest[g - (t + 1)];
      DealFromAt(specs[own..], t + 1, tasks, base, rem, k, g);
      BeforeStep(t, g, base, rem);
      ShareLater(deal[g - t], specs, own, Before(t + 1, g, base, rem), GroupSize(g, base, rem), k);
    }
  }

  lemma BeforeStep(t: nat, g: nat, base: nat, rem: nat)
    requires t < g
    ensures Before(t, g, base, rem) == GroupSize(t, base, rem) + Before(t + 1, g, base, rem)
  {
  }

  lemma ShareFirst(specs: seq<PartitionSpec>, size: nat, k: nat)
    requires size <= |specs| && size <= k
    ensures Share(specs[..size] + Padding(k - size), specs, 0, size, k)
  {
  }

  /** `DealUnfold` with the first group and the rest told apart. */
  lemma DealStarts(specs: seq<PartitionSpec>, t: nat, tasks: nat, base: nat, rem: nat, k: nat)
    requires t < tasks && |specs| == Owed(t, tasks, base, rem) && base <= k && (rem > 0 ==> base < k)
    ensures var size, deal := GroupSize(t, base, rem), DealFrom(specs, t, tasks, base, rem, k);
            && size <= |specs| && size <= k && |specs[size..]| == Owed(t + 1, tasks, base, rem)
            && deal[0] == specs[..size] + Padding(k - size)
            && deal[1..] == DealFrom(specs[size..], t + 1, tasks, base, rem, k)
  {
    DealUnfold(specs, t, tasks, base, rem, k);
  }

  lemma ShareLater(group: seq<PartitionSpec>, specs: seq<PartitionSpec>, own: nat, from: nat, size: nat, k: nat)
    requires own <= |specs| && Share(group, specs[own..], from, size, k)
    ensures Share(group, specs, own + from, size, k)
  {
    assert specs[own..][from..from + size] == specs[own + from..own + from + size];
  }

  /** `group` is `size` specifications from `from` on, and then padding, `k` slots in all. */
  ghost predicate Share(group: seq<PartitionSpec>, specs: seq<PartitionSpec>, from: nat, size: nat, k: nat) {
    && from + size <= |specs| && size <= k == |group|
    && group[..size] == specs[from..from + size]
    && forall i :: size <= i < k ==> group[i] == EMPTY_SPEC
  }

  /** The dealing in closed form: one group per task, each of them its share. */
  lemma DealIs(specs: seq<PartitionSpec>, taskCount: nat, t: nat)
    requires t < Max(1, taskCount)
    ensures |Deal(specs, taskCount)| == Max(1, taskCount)
    ensures GetsShare(Deal(specs, taskCount)[t], specs, t, Max(1, taskCount))
  {
    var tasks := Max(1, taskCount);
    DealOwes(|specs|, tasks);
    UniformLength(|specs|, tasks);
    DealShares(specs, tasks, |specs| / tasks, |specs| % tasks, GroupLength(|specs|, tasks), t);
  }

  /**
   Of `n` specifications task `t` receives `n / tasks` consecutive ones, and one more if it is among
   the first `n % tasks` tasks; they follow those of the tasks before it, and padding fills them up
   to `ceil(n / tasks)` slots.
   */
  ghost predicate GetsShare(group: seq<PartitionSpec>, specs: seq<PartitionSpec>, t: nat, tasks: nat)
    requires tasks > 0
  {
    var base, rem := |specs| / tasks, |specs| % tasks;
    Share(group, specs, Times(t, base) + Min(t, rem), base + (if t < rem then 1 else 0), CeilDiv(|specs|, tasks))
  }

  lemma DealShares(specs: seq<PartitionSpec>, tasks: nat, base: nat, rem: nat, k: nat, t: nat)
    requires |specs| == Owed(0, tasks, base, rem) && base <= k && (rem > 0 ==> base < k) && t < tasks
    ensures |DealFrom(specs, 0, tasks, base, rem, k)| == tasks
    ensures Share(DealFrom(specs, 0, tasks, base, rem, k)[t], specs, Times(t, base) + Min(t, rem), base + (if t < rem then 1 else 0), k)
  {
    DealFromShape(specs, 0, tasks, base, rem, k);
    DealFromAt(specs, 0, tasks, base, rem, k, t);
    assert Before(0, t, base, rem) == Times(t, base) + Min(t, rem) by { BeforeIs(0, t, base, rem); }
  }

  lemma UniformLength(count: nat, tasks: nat)
    requires tasks > 0
    ensures GroupLength(count, tasks) == CeilDiv(count, tasks)
  {
    var q, r := count / tasks, count % tasks;
    assert count == q * tasks + r && (q + 1) * tasks == q * tasks + tasks && (q - 1) * tasks == q * tasks - tasks;
    if r == 0 { CeilDivUnique(count, tasks, q); } else { CeilDivUnique(count, tasks, q + 1); }
  }

  // ---------------------------------------------------------------------------------------------
  // The slots that run, and how many of them are padding
  // ---------------------------------------------------------------------------------------------

  /** The slots of all tasks: fewer than two partitions, or a single task, are not dealt at all. */
  function Slots(specs: seq<PartitionSpec>, tasks: nat): seq<PartitionSpec> {
    if |specs| < 2 || tasks <= 1 then specs else FlattenSpecs(Deal(specs, tasks))
  }

  /** How many padding slots tasks `t`, `t + 1`, … receive. */
  function PadFrom(t: nat, tasks: nat, base: nat, rem: nat, k: nat): nat
    requires base <= k && (rem > 0 ==> base < k)
    decreases tasks - t
  {
    if t >= tasks then 0 else k - GroupSize(t, base, rem) + PadFrom(t + 1, tasks, base, rem, k)
  }

  function PaddedSlots(count: nat, tasks: nat): nat {
    if count < 2 || tasks <= 1 then 0 else PadFrom(0, tasks, count / tasks, count % tasks, GroupLength(count, tasks))
  }

  lemma {:induction false} PadAndOwed(t: nat, tasks: nat, base: nat, rem: nat, k: nat)
    requires base <= k && (rem > 0 ==> base < k) && t <= tasks
    ensures PadFrom(t, tasks, base, rem, k) + Owed(t, tasks, base, rem) == (tasks - t) * k
    decreases tasks - t
  {
    if t < tasks {
      PadAndOwed(t + 1, tasks, base, rem, k);
      assert (tasks - t) * k == (tasks - (t + 1)) * k + k;
    }
  }

  /**
   Partitions and padding together fill every task to the uniform length; fewer than two partitions,
   or a single task, need no padding.
   */
  lemma PaddedSlotsFill(count: nat, tasks: nat)
    ensures PaddedSlots(count, tasks) == if count < 2 || tasks < 2 then 0 else tasks * CeilDiv(count, tasks) - count
  {
    if count >= 2 && tasks >= 2 {
      UniformLength(count, tasks);
      DealOwes(count, tasks);
      PadAndOwed(0, tasks, count / tasks, count % tasks, GroupLength(count, tasks));
    }
  }

  lemma {:induction false} FilterAllPadding(n: nat, keep: PartitionSpec -> bool)
    requires keep(EMPTY_SPEC)
    ensures |FilterSpecs(Padding(n), keep)| == n
  {
    if n > 0 {
      FilterAllPadding(n - 1, keep);
      assert Padding(n)[1..] == Padding(n - 1);
    }
  }

  lemma GroupCounts(specs: seq<PartitionSpec>, size: nat, pad: nat, rest: seq<seq<PartitionSpec>>, keep: PartitionSpec -> bool)
    requires size <= |specs| && keep(EMPTY_SPEC)
    ensures |FilterSpecs(FlattenSpecs([specs[..size] + Padding(pad)] + rest), keep)|
            == |FilterSpecs(specs, keep)| - |FilterSpecs(specs[size..], keep)| + pad + |FilterSpecs(FlattenSpecs(rest), keep)|
  {
    var group := specs[..size] + Padding(pad);
    assert ([group] + rest)[1..] == rest;
    FilterConcat(group, FlattenSpecs(rest), keep);
    FilterConcat(specs[..size], Padding(pad), keep);
    FilterAllPadding(pad, keep);
    FilterConcat(specs[..size], specs[size..], keep);
    assert specs[..size] + specs[size..] == specs;
  }

  lemma {:induction false} DealFromCounts(specs: seq<PartitionSpec>, t: nat, tasks: nat, base: nat, rem: nat, k: nat, keep: PartitionSpec -> bool)
    requires |specs| == Owed(t, tasks, base, rem) && base <= k && (rem > 0 ==> base < k) && t <= tasks && keep(EMPTY_SPEC)
    ensures |FilterSpecs(FlattenSpecs(DealFrom(specs, t, tasks, base, rem, k)), keep)|
            == |FilterSpecs(specs, keep)| + PadFrom(t, tasks, base, rem, k)
    decreases tasks - t
  {
    if t < tasks {
      var size := GroupSize(t, base, rem);
      DealUnfold(specs, t, tasks, base, rem, k);
      var rest := DealFrom(specs[size..], t + 1, tasks, base, rem, k);
      DealFromCounts(specs[size..], t + 1, tasks, base, rem, k, keep);
      GroupCounts(specs, size, k - size, rest, keep);
    } else {
      assert specs == [];
    }
  }

  /** A property that padding has is had by the input's specifications that have it, and by every padding slot. */
  lemma SlotsCount(specs: seq<PartitionSpec>, tasks: nat, keep: PartitionSpec -> bool)
    ensures |FilterSpecs(Slots(specs, tasks), keep)|
            == |FilterSpecs(specs, keep)| + if keep(EMPTY_SPEC) then PaddedSlots(|specs|, tasks) else 0
  {
    if |specs| >= 2 && tasks >= 2 {
      if keep(EMPTY_SPEC) {
        DealOwes(|specs|, tasks);
        DealFromCounts(specs, 0, tasks, |specs| / tasks, |specs| % tasks, GroupLength(|specs|, tasks), keep);
      } else {
        DealConserves(specs, tasks, keep);
      }
    }
  }

  /** The loop of `distribute_specs_across_tasks`. */
  method DistributeSpecs(specs: seq<PartitionSpec>, taskCount: nat) returns (groups: seq<seq<PartitionSpec>>)
    ensures groups == Deal(specs, taskCount)
    ensures |groups| == Max(1, taskCount)
  {
    var tasks := Max(1, taskCount);
    DealConserves(specs, taskCount, _ => false);
    DealOwes(|specs|, tasks);
    groups := DealLoop(specs, tasks, |specs| / tasks, |specs| % tasks, GroupLength(|specs|, tasks));
  }

  method DealLoop(specs: seq<PartitionSpec>, tasks: nat, base: nat, rem: nat, k: nat) returns (groups: seq<seq<PartitionSpec>>)
    requires |specs| == Owed(0, tasks, base, rem) && base <= k && (rem > 0 ==> base < k)
    ensures groups == DealFrom(specs, 0, tasks, base, rem, k)
  {
    groups := [];
    var cursor: nat := 0;
    ghost var all := DealFrom(specs, 0, tasks, base, rem, k);
    ghost var rest := all;
    assert specs[0..] == specs;
    for t := 0 to tasks
      invariant cursor <= |specs| && |specs| - cursor == Owed(t, tasks, base, rem)
      invariant rest == DealFrom(specs[cursor..], t, tasks, base, rem, k) && groups + rest == all
    {
      var size := GroupSize(t, base, rem);
      DealStep(specs, cursor, t, tasks, base, rem, k);
      var group := specs[cursor..cursor + size] + Padding(k - size);
      ghost var later := DealFrom(specs[cursor + size..], t + 1, tasks, base, rem, k);
      assert groups + ([group] + later) == groups + [group] + later;
      groups, cursor, rest := groups + [group], cursor + size, later;
    }
  }

  lemma DealStep(specs: seq<PartitionSpec>, cursor: nat, t: nat, tasks: nat, base: nat, rem: nat, k: nat)
    requires t < tasks && base <= k && (rem > 0 ==> base < k) && cursor <= |specs| && |specs| - cursor == Owed(t, tasks, base, rem)
    ensures var size := GroupSize(t, base, rem);
            && cursor + size <= |specs| && |specs[cursor + size..]| == Owed(t + 1, tasks, base, rem)
            && DealFrom(specs[cursor..], t, tasks, base, rem, k)
               == [specs[cursor..cursor + size] + Padding(k - size)] + DealFrom(specs[cursor + size..], t + 1, tasks, base, rem, k)
  {
    var size := GroupSize(t, base, rem);
    DealUnfold(specs[cursor..], t, tasks, base, rem, k);
    assert specs[cursor..][..size] == specs[cursor..cursor + size] && specs[cursor..][size..] == specs[cursor + size..];
  }
}
