/**
 The arithmetic of `increaseTotal` and the index selection of `increaseTotals`
 in debugme/deadlock/main.go, with the per-element mutexes and the random
 source taken out.

 `increaseTotal(amount, indices...)` sums the selected entries; if `amount`
 exceeds that total it splits the difference evenly over the selected entries
 and adds the remainder of the division to one entry. The source picks that
 entry by comparing the entry's data index with `len(indices) - 1`, not the
 loop position, so the remainder is added only when data index n - 1 is among
 the selected ones. Both the rule as written and the corrected rule (the last
 listed entry receives the remainder) are modelled here.
 */
module Redistribution {

  /** The outcome of one call: the updated entries, or the run-time panic of
      an integer division by zero when no index is given and `amount` is
      positive. */
  datatype Outcome = Updated(data: seq<int>) | DivideByZero

  /** Every index selects an entry of an array of `size` entries. */
  predicate InRange(indices: seq<int>, size: nat)
  {
    forall p :: 0 <= p < |indices| ==> 0 <= indices[p] < size
  }

  /** No entry is selected twice. */
  predicate Distinct(indices: seq<int>)
  {
    forall p, q :: 0 <= p < q < |indices| ==> indices[p] != indices[q]
  }

  /** What `increaseTotal` relies on: distinct indices into the array. A
      repeated index would make the call lock the same mutex twice and hang,
      an index out of range would panic, both before any arithmetic. */
  predicate ValidIndices(indices: seq<int>, size: nat)
  {
    InRange(indices, size) && Distinct(indices)
  }

  /** The sum of the selected entries, accumulated in listing order. */
  function Total(data: seq<int>, indices: seq<int>): int
    requires InRange(indices, |data|)
    decreases |indices|
  {
    if |indices| == 0 then 0
    else Total(data, indices[..|indices| - 1]) + data[indices[|indices| - 1]]
  }

  /** The even split of `delta` over `n` entries: a share for each and the
      remainder. Both operands are positive here, so Go's truncating `/` and
      `%` agree with Dafny's Euclidean ones. */
  function Split(delta: int, n: int): (r: (int, int))
    requires delta > 0 && n > 0
    ensures r.0 * n + r.1 == delta
    ensures 0 <= r.1 < n
    ensures r.0 >= 0
  {
    (delta / n, delta % n)
  }

  /** The amount added to the entry at data index `j`: nothing if it is not
      selected, otherwise `each`, plus `rem` if it is the entry `lucky` that
      receives the remainder. */
  function Share(j: int, indices: seq<int>, each: int, rem: int, lucky: int): int
  {
    if j in indices then each + (if j == lucky then rem else 0) else 0
  }

  /** The effect of one call in which the entry at data index `lucky` receives
      the remainder. If `amount` does not exceed the selected total nothing
      changes; otherwise every selected entry grows by the even share (and the
      lucky one by the remainder too) and no other entry changes. */
  function Redistribute(data: seq<int>, amount: int, indices: seq<int>, lucky: int): (out: Outcome)
    requires ValidIndices(indices, |data|)
    ensures amount <= Total(data, indices) ==> out == Updated(data)
    ensures out.DivideByZero? <==> amount > Total(data, indices) && |indices| == 0
    ensures out.Updated? ==> |out.data| == |data|
    ensures out.Updated? ==> forall j :: 0 <= j < |data| && j !in indices ==> out.data[j] == data[j]
    ensures out.Updated? ==> forall j :: 0 <= j < |data| ==> data[j] <= out.data[j]
    ensures out.Updated? && amount > Total(data, indices) ==>
      forall j :: 0 <= j < |data| && j in indices ==>
        out.data[j] == data[j] + Split(amount - Total(data, indices), |indices|).0
                       + (if j == lucky then Split(amount - Total(data, indices), |indices|).1 else 0)
  {
    var delta := amount - Total(data, indices);
    if delta <= 0 then Updated(data)
    else if |indices| == 0 then DivideByZero
    else
      var (each, rem) := Split(delta, |indices|);
      Updated(seq(|data|, j requires 0 <= j < |data| => data[j] + Share(j, indices, each, rem, lucky)))
  }

  /** Adding the shares to the selected entries raises their total by one
      share per entry, plus the remainder if the lucky entry is selected. */
  lemma {:induction false} TotalOfShares(data: seq<int>, d: seq<int>, indices: seq<int>,
                                        each: int, rem: int, lucky: int)
    requires |d| == |data| && ValidIndices(indices, |data|)
    requires forall p :: 0 <= p < |indices| ==>
      d[indices[p]] == data[indices[p]] + each + (if indices[p] == lucky then rem else 0)
    ensures Total(d, indices) == Total(data, indices) + |indices| * each + (if lucky in indices then rem else 0)
    decreases |indices|
  {
    if |indices| > 0 {
      var m := |indices| - 1;
      var init := indices[..m];
      assert ValidIndices(init, |data|);
      TotalOfShares(data, d, init, each, rem, lucky);
      assert lucky in indices <==> lucky in init || indices[m] == lucky;
      if indices[m] == lucky {
        assert lucky !in init;
      }
      assert (m + 1) * each == m * each + each;
    }
  }

  /** When the call does redistribute, the new selected total is `amount`
      exactly if the lucky entry is selected; if it is not, the remainder is
      lost and the total falls short of `amount` by it. */
  lemma RedistributedTotal(data: seq<int>, amount: int, indices: seq<int>, lucky: int)
    requires ValidIndices(indices, |data|)
    requires amount > Total(data, indices) && |indices| > 0
    ensures Redistribute(data, amount, indices, lucky).Updated?
    ensures Total(Redistribute(data, amount, indices, lucky).data, indices)
      == amount - (if lucky in indices then 0 else Split(amount - Total(data, indices), |indices|).1)
  {
    var out := Redistribute(data, amount, indices, lucky);
    var (each, rem) := Split(amount - Total(data, indices), |indices|);
    TotalOfShares(data, out.data, indices, each, rem, lucky);
  }

  /** The first loop of `increaseTotal`: the sum of the selected entries. */
  method SumSelected(data: seq<int>, indices: seq<int>) returns (total: int)
    requires InRange(indices, |data|)
    ensures total == Total(data, indices)
  {
    total := 0;
    var p := 0;
    while p < |indices|
      invariant 0 <= p <= |indices|
      invariant total == Total(data, indices[..p])
    {
      assert indices[..p + 1][..p] == indices[..p];
      total := total + data[indices[p]];
      p := p + 1;
    }
    assert indices[..|indices|] == indices;
  }

  /** The second loop of `increaseTotal` as written: every selected entry
      gains `each`, and the one whose data index equals `len(indices) - 1`
      also gains `remainder`. */
  method AddSharesByIndex(data: seq<int>, indices: seq<int>, each: int, remainder: int)
    returns (d: seq<int>)
    requires ValidIndices(indices, |data|)
    ensures |d| == |data|
    ensures forall j :: 0 <= j < |data| ==> d[j] == data[j] + Share(j, indices, each, remainder, |indices| - 1)
  {
    var n := |indices|;
    d := data;
    var lucky := n - 1;
    var p := 0;
    while p < n
      invariant 0 <= p <= n && |d| == |data|
      invariant forall j :: 0 <= j < |data| ==> d[j] == data[j] + Share(j, indices[..p], each, remainder, lucky)
    {
      var i := indices[p];
      assert i !in indices[..p];
      d := d[i := d[i] + each];
      if i == n - 1 {
        d := d[i := d[i] + remainder];
      }
      assert indices[..p + 1] == indices[..p] + [i];
      p := p + 1;
    }
    assert indices[..n] == indices;
  }

  /** The second loop with the remainder given by loop position: the last
      listed entry gains `remainder` on top of its share. */
  method AddSharesByPosition(data: seq<int>, indices: seq<int>, each: int, remainder: int)
    returns (d: seq<int>)
    requires ValidIndices(indices, |data|)
    ensures |d| == |data|
    ensures forall j :: 0 <= j < |data| ==>
      d[j] == data[j] + Share(j, indices, each, remainder, LastListed(indices))
  {
    var n := |indices|;
    d := data;
    var p := 0;
    while p < n
      invariant 0 <= p <= n && |d| == |data|
      invariant forall j :: 0 <= j < |data| ==>
        d[j] == data[j] + Share(j, indices[..p], each, remainder, LastListed(indices))
    {
      var i := indices[p];
      assert i !in indices[..p];
      assert i == LastListed(indices) <==> p == n - 1;
      d := d[i := d[i] + each];
      if p == n - 1 {
        d := d[i := d[i] + remainder];
      }
      assert indices[..p + 1] == indices[..p] + [i];
      p := p + 1;
    }
    assert indices[..n] == indices;
  }

  /** `increaseTotal` as written. The selected total reaches `amount` exactly
      when data index `len(indices) - 1` is selected or nothing remains after
      the even split; otherwise it falls short by the remainder. */
  method IncreaseTotal(data: seq<int>, amount: int, indices: seq<int>) returns (out: Outcome)
    requires ValidIndices(indices, |data|)
    ensures out == Redistribute(data, amount, indices, |indices| - 1)
    ensures out.Updated? && amount > Total(data, indices) ==>
      Total(out.data, indices)
        == (if |indices| - 1 in indices || Split(amount - Total(data, indices), |indices|).1 == 0
            then amount
            else amount - Split(amount - Total(data, indices), |indices|).1)
  {
    var total := SumSelected(data, indices);
    var delta := amount - total;
    if delta <= 0 {
      return Updated(data);
    }
    if |indices| == 0 {
      return DivideByZero;
    }
    var n := |indices|;
    var each, remainder := delta / n, delta % n;
    var d := AddSharesByIndex(data, indices, each, remainder);
    assert d == Redistribute(data, amount, indices, n - 1).data;
    out := Updated(d);
    RedistributedTotal(data, amount, indices, n - 1);
  }

  /** The entry that should receive the remainder: the last one listed. */
  function LastListed(indices: seq<int>): int
  {
    if |indices| == 0 then -1 else indices[|indices| - 1]
  }

  /** `increaseTotal` with the remainder given to the last listed entry,
      compared by loop position. After the call the selected entries add up
      to `amount` whenever they were below it, and are untouched otherwise. */
  method IncreaseTotalToAmount(data: seq<int>, amount: int, indices: seq<int>) returns (out: Outcome)
    requires ValidIndices(indices, |data|)
    ensures out == Redistribute(data, amount, indices, LastListed(indices))
    ensures out.Updated? && amount > Total(data, indices) ==> Total(out.data, indices) == amount
  {
    var total := SumSelected(data, indices);
    var delta := amount - total;
    if delta <= 0 {
      return Updated(data);
    }
    if |indices| == 0 {
      return DivideByZero;
    }
    var n := |indices|;
    var each, remainder := delta / n, delta % n;
    var d := AddSharesByPosition(data, indices, each, remainder);
    assert d == Redistribute(data, amount, indices, LastListed(indices)).data;
    out := Updated(d);
    RedistributedTotal(data, amount, indices, LastListed(indices));
  }

  /** The rule as written loses the remainder: with entries [0, 0, 0],
      indices 0 and 2 and amount 3, each gets 1, the remainder 1 would go to
      data index 1, which is not selected, and the selected total ends at 2. */
  lemma AsWrittenMissesAmount()
    ensures ValidIndices([0, 2], 3)
    ensures Redistribute([0, 0, 0], 3, [0, 2], 1) == Updated([1, 0, 1])
    ensures Total([1, 0, 1], [0, 2]) == 2
    ensures Redistribute([0, 0, 0], 3, [0, 2], LastListed([0, 2])) == Updated([1, 0, 2])
  {
    assert Total([0, 0, 0], [0, 2]) == 0 by {
      assert [0, 2][..1] == [0];
      assert [0][..0] == [];
    }
    assert Total([1, 0, 1], [0, 2]) == 2 by {
      assert [0, 2][..1] == [0];
      assert [0][..0] == [];
    }
    assert Split(3, 2) == (1, 1);
  }

  /** The selection loop of `increaseTotals`: for each of `count` positions
      it takes draws of `rand.Intn(size)` until one has not been taken yet.
      The random source is the sequence `draws`; `used` is how many of them
      were consumed. The chosen indices are distinct and in range, each was
      drawn, every consumed draw was chosen (or repeated a chosen one), and
      fewer than `count` are chosen only if the draws ran out. */
  method ChooseIndices(draws: seq<int>, count: nat, size: nat) returns (indices: seq<int>, used: nat)
    requires forall q :: 0 <= q < |draws| ==> 0 <= draws[q] < size
    ensures ValidIndices(indices, size)
    ensures |indices| <= count && used <= |draws|
    ensures forall p :: 0 <= p < |indices| ==> indices[p] in draws[..used]
    ensures forall q :: 0 <= q < used ==> draws[q] in indices
    ensures |indices| < count ==> used == |draws|
  {
    indices := [];
    used := 0;
    var seen: set<int> := {};
    while |indices| < count && used < |draws|
      invariant ValidIndices(indices, size)
      invariant |indices| <= count && used <= |draws|
      invariant forall x :: x in seen <==> x in indices
      invariant forall p :: 0 <= p < |indices| ==> indices[p] in draws[..used]
      invariant forall q :: 0 <= q < used ==> draws[q] in seen
      decreases |draws| - used
    {
      var n := draws[used];
      used := used + 1;
      if n !in seen {
        indices := indices + [n];
        seen := seen + {n};
      }
    }
  }
}
