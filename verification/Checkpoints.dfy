/** Checkpoint arithmetic of a history archive, in 32-bit arithmetic, and the directory prefixes
    that cover a range of checkpoints. */
module Checkpoints {
  import opened Common

  type uint32 = x: int | 0 <= x < 0x1_0000_0000

  /** A CheckpointManager: the number of ledgers from one checkpoint to the next. */
  type Freq = x: int | 1 <= x < 0x1_0000_0000 witness 64

  datatype Range = Range(low: uint32, high: uint32)

  function Wrap(n: int): (u: uint32) {
    n % TWO32
  }

  function MinOf(a: int, b: int): (m: int) {
    if a <= b then a else b
  }

  function MaxOf(a: int, b: int): (m: int) {
    if a <= b then b else a
  }

  function IsCheckpoint(f: Freq, i: uint32): bool {
    Wrap(i + 1) % f == 0
  }

  function PrevCheckpoint(f: Freq, i: uint32): (p: uint32) {
    if i < f then f - 1
    else
      var q := Wrap(i + 1) / f;
      Wrap(Wrap(q * f) - 1)
  }

  function NextCheckpoint(f: Freq, i: uint32): (n: uint32)
  {
    if i == 0 then f - 1
    else
      Spacing(f, i + f);
      MinOf((i + f) / f * f - 1, MAX_UINT32)
  }

  /** GetCheckpoint. */
  function GetCheckpoint(f: Freq, i: uint32): (n: uint32) {
    NextCheckpoint(f, i)
  }

  function GetCheckpointRange(f: Freq, i: uint32): (r: Range) {
    var checkpoint := GetCheckpoint(f, i);
    var low := Wrap(Wrap(checkpoint - f) + 1);
    Range(if low == 0 then 1 else low, checkpoint)
  }

  function MakeRange(f: Freq, low: uint32, high: uint32): (r: Range) {
    Range(PrevCheckpoint(f, low), NextCheckpoint(f, MaxOf(high, low)))
  }

  function Clamp(f: Freq, r: Range, other: Range): (c: Range) {
    MakeRange(f, MaxOf(r.low, other.low), MinOf(r.high, other.high))
  }

  function SizeInCheckPoints(f: Freq, r: Range): (n: int) {
    1 + Wrap(r.high - r.low) / f
  }

  // ---------------------------------------------------------------- the grid

  /** A checkpoint: ledgers f - 1, 2f - 1, 3f - 1, ... */
  predicate OnGrid(f: Freq, i: int) {
    i >= 0 && (i + 1) % f == 0
  }

  /** The multiple of `f` at or below `v`. */
  lemma Spacing(f: Freq, v: int)
    ensures v / f * f <= v < v / f * f + f
    ensures (v / f * f) % f == 0
    ensures v >= f ==> v / f * f >= f
  {
    assert v == v / f * f + v % f;
    var q := v / f;
    MultipleMod(f, q);
    if v >= f && q < 1 { MulMono(q, 0, f); }
    if q >= 1 { MulMono(1, q, f); }
  }

  lemma MultipleMod(f: Freq, q: int)
    ensures q * f % f == 0
  {
    var r, k := q * f % f, q * f / f;
    assert q * f == k * f + r;
    assert r == (q - k) * f;
    if q - k >= 1 { MulMono(1, q - k, f); }
    if q - k <= -1 { MulMono(q - k, -1, f); }
  }

  /** Two multiples less than `f` apart are equal. */
  lemma GridGap(f: Freq, a: int, b: int)
    requires a % f == 0 && b % f == 0 && a <= b < a + f
    ensures a == b
  {
    var x, y := a / f, b / f;
    assert a == x * f && b == y * f;
    if y >= x + 1 { MulMono(x + 1, y, f); }
    if y <= x { MulMono(y, x, f); }
  }

  lemma GridSum(f: Freq, a: int, b: int)
    requires a % f == 0
    ensures (a + b) % f == b % f
  {
    var x := a / f;
    var s := (a + b) % f;
    assert a == x * f;
    Spacing(f, a + b);
    Spacing(f, b);
    var m, n := (a + b) / f, b / f;
    assert a + b == m * f + s && b == n * f + b % f;
    assert s - b % f == (x + n - m) * f by { assert (x + n - m) * f == x * f + n * f - m * f; }
    if x + n - m >= 1 { MulMono(1, x + n - m, f); }
    if x + n - m <= -1 { MulMono(x + n - m, -1, f); }
  }

  /** IsCheckpoint is right but at the last ledger number, which it always takes for one: it is
      right there exactly when the frequency divides 2^32. */
  lemma IsCheckpointExact(f: Freq, i: uint32)
    ensures i < MAX_UINT32 ==> (IsCheckpoint(f, i) <==> OnGrid(f, i))
    ensures i == MAX_UINT32 ==> IsCheckpoint(f, i) && (OnGrid(f, i) <==> TWO32 % f == 0)
  {
    if i == MAX_UINT32 { assert Wrap(i + 1) == 0; MultipleMod(f, 0); }
  }

  /** Every third ledger: the last ledger number is taken for a checkpoint and is none, the checkpoint
      before it is said to be itself, and its range overlaps the one before. */
  lemma WrongAtTheEnd()
    ensures IsCheckpoint(3, MAX_UINT32) && !OnGrid(3, MAX_UINT32) && PrevCheckpoint(3, MAX_UINT32) == MAX_UINT32
    ensures GetCheckpoint(3, MAX_UINT32) == MAX_UINT32
    ensures var last := MAX_UINT32 - 1;
            && GetCheckpoint(3, last) == last
            && GetCheckpointRange(3, MAX_UINT32).low <= last <= GetCheckpointRange(3, MAX_UINT32).high
  {
  }

  /** The checkpoint at or before `i`; before the first checkpoint, the first one. At the last
      ledger number it is that number, a checkpoint only when the frequency divides 2^32. */
  lemma PrevCheckpointExact(f: Freq, i: uint32)
    ensures i < f ==> PrevCheckpoint(f, i) == f - 1
    ensures f <= i < MAX_UINT32 ==> PrevCheckpoint(f, i) <= i < PrevCheckpoint(f, i) + f
    ensures i < MAX_UINT32 ==> OnGrid(f, PrevCheckpoint(f, i))
    ensures i == MAX_UINT32 && f <= i ==> PrevCheckpoint(f, i) == MAX_UINT32
  {
    FirstOnGrid(f);
    if f <= i < MAX_UINT32 {
      PrevInside(f, i);
    }
    if i == MAX_UINT32 && f <= i {
      assert Wrap(i + 1) == 0;
      ZeroQuotient(f);
    }
  }

  lemma FirstOnGrid(f: Freq)
    ensures OnGrid(f, f - 1)
  {
    MultipleMod(f, 1);
  }

  lemma ZeroQuotient(f: Freq)
    ensures 0 / f * f == 0
  {
  }

  lemma PrevInside(f: Freq, i: uint32)
    requires f <= i < MAX_UINT32
    ensures PrevCheckpoint(f, i) <= i < PrevCheckpoint(f, i) + f && OnGrid(f, PrevCheckpoint(f, i))
  {
    Spacing(f, i + 1);
    var m := (i + 1) / f * f;
    assert Wrap(i + 1) == i + 1;
    assert f <= m <= i + 1;
    assert Wrap(m) == m && Wrap(m - 1) == m - 1;
  }

  /** The checkpoint at or after `i`, or the last ledger number when there is none. */
  lemma NextCheckpointExact(f: Freq, i: uint32)
    ensures i <= NextCheckpoint(f, i)
    ensures OnGrid(f, NextCheckpoint(f, i)) ==> NextCheckpoint(f, i) < i + f
    ensures !OnGrid(f, NextCheckpoint(f, i)) ==>
              NextCheckpoint(f, i) == MAX_UINT32 && forall c :: i <= c <= MAX_UINT32 ==> !OnGrid(f, c)
  {
    MultipleMod(f, 1);
    Spacing(f, i + f);
    var n := (i + f) / f * f - 1;
    if i == 0 { DivSelf(f); }
    assert i <= n < i + f;
    assert OnGrid(f, n);
    if n > MAX_UINT32 {
      forall c | i <= c <= MAX_UINT32 ensures !OnGrid(f, c) {
        if OnGrid(f, c) { GridGap(f, c + 1, n + 1); }
      }
    }
  }

  lemma DivSelf(f: Freq)
    ensures (0 + f) / f * f - 1 == f - 1
  {
    Spacing(f, f);
    GridGap(f, f / f * f, f);
  }

  /** The range of a ledger's checkpoint holds the ledger; ledger 0 does not exist. */
  lemma CheckpointRangeHolds(f: Freq, i: uint32)
    ensures var r := GetCheckpointRange(f, i);
            r.high == GetCheckpoint(f, i) && r.low == MaxOf(r.high - f + 1, 1) && (i >= 1 ==> r.low <= i <= r.high)
  {
    NextCheckpointExact(f, i);
    NextAtLeastFirst(f, i);
  }

  lemma NextAtLeastFirst(f: Freq, i: uint32)
    ensures NextCheckpoint(f, i) >= f - 1
  {
    Spacing(f, i + f);
  }

  /** The checkpoint of `j` is the checkpoint `c` just when `j` is among the last `f` ledgers up to it. */
  lemma SameCheckpoint(f: Freq, c: uint32, j: uint32)
    requires OnGrid(f, c)
    ensures GetCheckpoint(f, j) == c <==> c - f < j <= c
  {
    hide NextCheckpoint, OnGrid;
    NextCheckpointExact(f, j);
    var n := NextCheckpoint(f, j);
    if c - f < j <= c && OnGrid(f, n) {
      OnGridGap(f, MinOf(c, n), MaxOf(c, n));
    }
  }

  lemma OnGridGap(f: Freq, a: int, b: int)
    requires OnGrid(f, a) && OnGrid(f, b) && a <= b < a + f
    ensures a == b
  {
    GridGap(f, a + 1, b + 1);
  }

  ghost predicate SameRange(f: Freq, i: uint32, j: uint32) {
    var r := GetCheckpointRange(f, i);
    r.low <= j <= r.high <==> GetCheckpoint(f, j) == GetCheckpoint(f, i)
  }

  /** GetCheckpointRange cuts the ledgers into the groups that share a checkpoint, exactly when the
      ledger's checkpoint was not cut short by the last ledger number. */
  lemma CheckpointRangesPartition(f: Freq, i: uint32)
    requires i >= 1
    ensures OnGrid(f, GetCheckpoint(f, i)) <==> forall j: uint32 :: j >= 1 ==> SameRange(f, i, j)
  {
    var c := GetCheckpoint(f, i);
    CheckpointRangeHolds(f, i);
    NextCheckpointExact(f, i);
    if OnGrid(f, c) {
      forall j: uint32 | j >= 1 ensures SameRange(f, i, j) {
        SameCheckpoint(f, c, j);
      }
    } else {
      var g := LastOnGrid(f, MAX_UINT32);
      SameCheckpoint(f, g, g);
      assert !SameRange(f, i, g);
    }
  }

  /** The last checkpoint at or before `v`. */
  lemma LastOnGrid(f: Freq, v: int) returns (g: int)
    requires v >= f - 1
    ensures OnGrid(f, g) && g <= v < g + f
  {
    Spacing(f, v + 1);
    g := (v + 1) / f * f - 1;
  }

  // ---------------------------------------------------------------- the checkpoints of a range

  /** Every f-th number from `low` up to `high`. */
  function Grid(f: Freq, low: int, high: int): (s: seq<int>)
    ensures forall i, j :: 0 <= i < j < |s| ==> s[i] < s[j]
    ensures forall i :: 0 <= i < |s| ==> low <= s[i] <= high
    decreases high - low
  {
    if low > high then [] else [low] + Grid(f, low + f, high)
  }

  /** GenerateCheckpoints: the numbers sent on the channel, with a 64-bit counter. */
  method GenerateCheckpoints(f: Freq, r: Range) returns (s: seq<uint32>)
    ensures s == Grid(f, r.low, r.high)
  {
    s := [];
    var i := r.low;
    while i <= r.high
      invariant i >= 0 && s + Grid(f, i, r.high) == Grid(f, r.low, r.high)
      decreases r.high - i
    {
      ghost var rest := Grid(f, i + f, r.high);
      assert s + ([i] + rest) == (s + [i]) + rest;
      s := s + [i];
      i := i + f;
    }
    assert s + [] == s;
  }

  lemma {:induction false} GridHas(f: Freq, low: int, high: int, c: int)
    ensures c in Grid(f, low, high) <==> low <= c <= high && (c - low) % f == 0
    decreases high - low
  {
    if low <= high {
      GridHas(f, low + f, high, c);
      MultipleMod(f, 1);
      GridSum(f, f, c - (low + f));
      assert c in Grid(f, low, high) <==> c == low || c in Grid(f, low + f, high);
      if c != low && low <= c < low + f && (c - low) % f == 0 {
        MultipleMod(f, 0);
        GridGap(f, 0, c - low);
      }
      if c == low { MultipleMod(f, 0); }
    }
  }

  /** SizeInCheckPoints counts them. */
  lemma {:induction false} GridSize(f: Freq, low: int, high: int)
    requires low <= high
    ensures |Grid(f, low, high)| == 1 + (high - low) / f
    decreases high - low
  {
    if low + f <= high {
      GridSize(f, low + f, high);
      OneLess(f, high - low);
    } else {
      assert Grid(f, low + f, high) == [];
      Spacing(f, high - low);
      var q := (high - low) / f;
      if q >= 1 { MulMono(1, q, f); }
      if q <= -1 { MulMono(q, -1, f); }
    }
  }

  lemma OneLess(f: Freq, v: int)
    ensures v / f == 1 + (v - f) / f
  {
    Spacing(f, v);
    Spacing(f, v - f);
    var x, y := v / f, (v - f) / f;
    if x >= y + 2 { MulMono(y + 2, x, f); }
    if x <= y { MulMono(x, y, f); }
  }

  /** A range from a checkpoint generates exactly the checkpoints in it. */
  lemma GridIsCheckpoints(f: Freq, r: Range)
    requires OnGrid(f, r.low)
    ensures forall c :: c in Grid(f, r.low, r.high) <==> r.low <= c <= r.high && OnGrid(f, c)
    ensures r.low <= r.high ==> |Grid(f, r.low, r.high)| == SizeInCheckPoints(f, r)
  {
    forall c ensures c in Grid(f, r.low, r.high) <==> r.low <= c <= r.high && OnGrid(f, c) {
      GridHas(f, r.low, r.high, c);
      GridSum(f, r.low + 1, c - r.low);
    }
    if r.low <= r.high { GridSize(f, r.low, r.high); }
  }

  /** MakeRange starts at a checkpoint and generates the checkpoint of every ledger asked for. */
  lemma MakeRangeCovers(f: Freq, low: uint32, high: uint32)
    ensures OnGrid(f, MakeRange(f, low, high).low) <==> low < MAX_UINT32 || TWO32 % f == 0
    ensures MakeRange(f, low, high).low <= MakeRange(f, low, high).high
    ensures forall i: uint32 :: low <= i <= high && OnGrid(f, GetCheckpoint(f, i)) ==>
              GetCheckpoint(f, i) in Grid(f, MakeRange(f, low, high).low, MakeRange(f, low, high).high)
  {
    var r := MakeRange(f, low, high);
    PrevCheckpointExact(f, low);
    NextCheckpointExact(f, MaxOf(high, low));
    NextAtLeastFirst(f, MaxOf(high, low));
    IsCheckpointExact(f, MAX_UINT32);
    forall i: uint32 | low <= i <= high && OnGrid(f, GetCheckpoint(f, i))
      ensures GetCheckpoint(f, i) in Grid(f, r.low, r.high)
    {
      NextCheckpointExact(f, i);
      NextAtLeastFirst(f, i);
      NextMonotone(f, i, high);
      if low == MAX_UINT32 {
        GridHas(f, r.low, r.high, MAX_UINT32);
        MultipleMod(f, 0);
      } else {
        GridIsCheckpoints(f, r);
      }
    }
  }

  /** From there on it generates no more than the checkpoints less than one frequency around what was
      asked for; a range asked for backwards stands for its low end. */
  lemma MakeRangeExact(f: Freq, low: uint32, high: uint32, c: int)
    requires low < MAX_UINT32 || TWO32 % f == 0
    ensures c in Grid(f, MakeRange(f, low, high).low, MakeRange(f, low, high).high)
       <==> OnGrid(f, c) && low - f < c <= MAX_UINT32 && c < (if high < low then low else high) + f
  {
    hide PrevCheckpoint, NextCheckpoint, OnGrid;
    var r, hi: uint32 := MakeRange(f, low, high), MaxOf(high, low);
    PrevCheckpointExact(f, low);
    NextCheckpointExact(f, hi);
    IsCheckpointExact(f, MAX_UINT32);
    MakeRangeCovers(f, low, high);
    GridIsCheckpoints(f, r);
    if OnGrid(f, c) {
      NextAtLeastFirst(f, hi);
      OnGridBounds(f, c);
      if r.high < c < hi + f && OnGrid(f, r.high) { OnGridGap(f, r.high, c); }
      if low - f < c < r.low { OnGridGap(f, c, r.low); }
    }
  }

  lemma OnGridBounds(f: Freq, c: int)
    requires OnGrid(f, c)
    ensures c >= f - 1
  {
    Spacing(f, c + 1);
    if (c + 1) / f < 1 { MulMono((c + 1) / f, 0, f); }
  }

  /** A clamped range generates the checkpoints around what both ranges have in common. */
  lemma ClampExact(f: Freq, r: Range, other: Range, c: int)
    requires r.low < MAX_UINT32 && other.low < MAX_UINT32
    ensures var low := if r.low < other.low then other.low else r.low;
            var high := if r.high < other.high then r.high else other.high;
            c in Grid(f, Clamp(f, r, other).low, Clamp(f, r, other).high)
            <==> OnGrid(f, c) && low - f < c <= MAX_UINT32 && c < (if high < low then low else high) + f
  {
    MakeRangeExact(f, MaxOf(r.low, other.low), MinOf(r.high, other.high), c);
  }

  lemma NextMonotone(f: Freq, i: uint32, j: uint32)
    requires i <= j
    ensures NextCheckpoint(f, i) <= NextCheckpoint(f, j)
  {
    hide NextCheckpoint, OnGrid;
    NextCheckpointExact(f, i);
    NextCheckpointExact(f, j);
    var m, n := NextCheckpoint(f, i), NextCheckpoint(f, j);
    if n < m && OnGrid(f, m) {
      OnGridGap(f, n, m);
    }
  }

  // ---------------------------------------------------------------- lists of ranges

  /** The numbers a list of collapsed ranges stands for. */
  function Expand(f: Freq, rs: seq<Range>): (s: seq<int>) {
    if rs == [] then [] else Expand(f, rs[..|rs| - 1]) + Grid(f, rs[|rs| - 1].low, rs[|rs| - 1].high)
  }

  predicate Aligned(f: Freq, r: Range) {
    r.low <= r.high && (r.high - r.low) % f == 0
  }

  lemma {:induction false} GridExtends(f: Freq, low: int, high: int)
    requires low <= high && (high - low) % f == 0
    ensures Grid(f, low, high + f) == Grid(f, low, high) + [high + f]
    ensures (high + f - low) % f == 0
    decreases high - low
  {
    MultipleMod(f, 1);
    GridSum(f, f, high - low);
    if low + f <= high {
      GridSum(f, f, high - (low + f));
      GridExtends(f, low + f, high);
      assert Grid(f, low, high + f) == [low] + Grid(f, low + f, high + f);
    } else {
      MultipleMod(f, 0);
      GridGap(f, 0, high - low);
      assert Grid(f, low + f, high) == [] && Grid(f, low + f + f, high + f) == [];
      assert Grid(f, low + f, high + f) == [low + f];
    }
  }

  lemma ExpandSnoc(f: Freq, rs: seq<Range>, r: Range)
    ensures Expand(f, rs + [r]) == Expand(f, rs) + Grid(f, r.low, r.high)
  {
    assert (rs + [r])[..|rs|] == rs;
  }

  /** No two neighbouring ranges could be joined. */
  predicate Apart(f: Freq, s: seq<Range>) {
    forall k :: 0 < k < |s| ==> s[k].low != s[k - 1].high + f
  }

  /** The state of the loop: closed ranges and the open one, for the numbers seen. */
  ghost predicate Collapsed(f: Freq, s: seq<Range>, curr: Range, seen: seq<uint32>) {
    && seen != [] && curr.high == seen[|seen| - 1] && Aligned(f, curr)
    && Expand(f, s + [curr]) == seen && Apart(f, s + [curr])
  }

  lemma CollapseFirst(f: Freq, t: uint32)
    ensures Collapsed(f, [], Range(t, t), [t])
  {
    OneNumber(f, t);
    ExpandSnoc(f, [], Range(t, t));
    assert [] + [Range(t, t)] == [Range(t, t)];
  }

  lemma CollapseNext(f: Freq, s: seq<Range>, curr: Range, seen: seq<uint32>, t: uint32)
    requires Collapsed(f, s, curr, seen) && curr.high <= t
    ensures Wrap(curr.high + f) == t ==> Collapsed(f, s, curr.(high := t), seen + [t])
    ensures Wrap(curr.high + f) != t ==> Collapsed(f, s + [curr], Range(t, t), seen + [t])
  {
    hide Expand, Grid, Aligned;
    ExpandSnoc(f, s, curr);
    if Wrap(curr.high + f) == t {
      RangeExtends(f, curr, t);
      ExpandSnoc(f, s, curr.(high := t));
      assert (Expand(f, s) + Grid(f, curr.low, curr.high)) + [t] == Expand(f, s) + (Grid(f, curr.low, curr.high) + [t]);
      var a, b := s + [curr], s + [curr.(high := t)];
      assert forall k :: 0 <= k < |a| ==> a[k].low == b[k].low && (k < |s| ==> a[k] == b[k]);
    } else {
      OneNumber(f, t);
      ExpandSnoc(f, s + [curr], Range(t, t));
    }
  }

  /** fmtRangeList on a sorted list, before printing: runs of consecutive checkpoints are collapsed,
      nothing is lost, and no two neighbouring ranges could be joined. */
  method CollapseRanges(f: Freq, vs: seq<uint32>) returns (s: seq<Range>)
    requires forall i, j :: 0 <= i < j < |vs| ==> vs[i] <= vs[j]
    ensures Expand(f, s) == vs && Apart(f, s)
  {
    s := [];
    if vs == [] { return; }
    hide Expand, Grid, Aligned, Apart;
    var curr := Range(vs[0], vs[0]);
    CollapseFirst(f, vs[0]);
    assert vs[..1] == [vs[0]];
    for i := 1 to |vs|
      invariant Collapsed(f, s, curr, vs[..i])
    {
      var t := vs[i];
      CollapseNext(f, s, curr, vs[..i], t);
      assert vs[..i + 1] == vs[..i] + [t];
      if Wrap(curr.high + f) == t {
        curr := curr.(high := t);
      } else {
        s := s + [curr];
        curr := Range(t, t);
      }
    }
    assert vs[..|vs|] == vs;
    s := s + [curr];
  }

  lemma RangeExtends(f: Freq, r: Range, t: uint32)
    requires Aligned(f, r) && r.high <= t && Wrap(r.high + f) == t
    ensures Aligned(f, r.(high := t)) && Grid(f, r.low, t) == Grid(f, r.low, r.high) + [t]
  {
    NoWrap(f, r.high, t);
    GridExtends(f, r.low, r.high);
  }

  lemma OneNumber(f: Freq, t: uint32)
    ensures Grid(f, t, t) == [t] && Aligned(f, Range(t, t))
  {
    MultipleMod(f, 0);
    assert Grid(f, t + f, t) == [];
  }

  /** A sum that wrapped is below its first term, so it is never the next number of a sorted list. */
  lemma NoWrap(f: Freq, high: uint32, t: uint32)
    requires high <= t && Wrap(high + f) == t
    ensures high + f == t
  {
  }
}
