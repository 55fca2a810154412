/** Leaf selection: the exact search (single match, then greedy on all leaves, then greedy on the
    powers of two), the exact-denomination search and the minimum-amount prefix. */
module LeafSelection {
  import opened Base
  import opened TreeTables

  /** The (id, value) pair a selection works on. */
  datatype SlimLeaf = SlimLeaf(id: Id, value: nat)

  datatype TargetAmounts =
    | AmountAndFee(amount: U64, fee: Option<U64>)
    | ExactDenominations(denominations: seq<U64>)

  datatype SelectError = InvalidAmount | InsufficientFunds | UnselectableAmount

  /** Amount leaves, then fee leaves. */
  datatype TargetLeaves = TargetLeaves(amountLeaves: seq<SlimLeaf>, feeLeaves: Option<seq<SlimLeaf>>)
  {
    function All(): seq<SlimLeaf> { amountLeaves + (if feeLeaves.Some? then feeLeaves.value else []) }
  }

  function Total(s: seq<SlimLeaf>): (r: nat)
  {
    if s == [] then 0 else s[0].value + Total(s[1..])
  }

  function SeqTotal(s: seq<U64>): nat
  {
    if s == [] then 0 else s[0] + SeqTotal(s[1..])
  }

  function FeeOf(fee: Option<U64>): U64 { if fee.Some? then fee.value else 0 }

  const TWO64: nat := 0x1_0000_0000_0000_0000
  const I64_MAX: nat := 0x7FFF_FFFF_FFFF_FFFF

  /** `total_sats`: unchecked u64 arithmetic, which wraps in release builds. */
  function TotalSats(target: Option<TargetAmounts>): U64
  {
    match target
    case None => 0
    case Some(AmountAndFee(a, f)) => (a + FeeOf(f)) % TWO64
    case Some(ExactDenominations(ds)) => SeqTotal(ds) % TWO64
  }

  /** `slim_max_target`, then the clamp to a signed column value. */
  function SlimMaxTarget(target: Option<TargetAmounts>): (m: U64)
  {
    match target
    case None => TWO64 - 1
    case Some(AmountAndFee(a, f)) => if a + FeeOf(f) < TWO64 then a + FeeOf(f) else TWO64 - 1
    case Some(ExactDenominations(ds)) => if SeqTotal(ds) < TWO64 then SeqTotal(ds) else TWO64 - 1
  }

  function SlimBound(target: Option<TargetAmounts>): nat
  {
    if SlimMaxTarget(target) <= I64_MAX then SlimMaxTarget(target) else I64_MAX
  }

  // ----- exact amount --------------------------------------------------------------------------

  predicate IsPowerOfTwo(v: nat)
  {
    v == 1 || (v > 1 && v % 2 == 0 && IsPowerOfTwo(v / 2))
  }

  function PowersOfTwo(s: seq<SlimLeaf>): seq<SlimLeaf>
  {
    if s == [] then []
    else if IsPowerOfTwo(s[0].value) then Prepend(s[0], PowersOfTwo(s[1..])) else PowersOfTwo(s[1..])
  }

  /** Stable insertion, larger values first. */
  function InsertDescending(x: SlimLeaf, s: seq<SlimLeaf>): seq<SlimLeaf>
  {
    if s == [] then [x]
    else if s[0].value <= x.value then Prepend(x, s)
    else Prepend(s[0], InsertDescending(x, s[1..]))
  }

  /** `sort_by_key(Reverse(value))`, a stable sort. */
  function SortDescending(s: seq<SlimLeaf>): seq<SlimLeaf>
  {
    if s == [] then [] else InsertDescending(s[0], SortDescending(s[1..]))
  }

  /** Takes each leaf that still fits. */
  function Greedy(sorted: seq<SlimLeaf>, remaining: nat): Option<seq<SlimLeaf>>
  {
    if sorted == [] then None
    else if sorted[0].value > remaining then Greedy(sorted[1..], remaining)
    else if sorted[0].value == remaining then Some([sorted[0]])
    else
      var rest := Greedy(sorted[1..], remaining - sorted[0].value);
      if rest.Some? then Some(Prepend(sorted[0], rest.value)) else None
  }

  function FindSingle(s: seq<SlimLeaf>, target: nat): Option<SlimLeaf>
  {
    if s == [] then None
    else if s[0].value == target then Some(s[0])
    else FindSingle(s[1..], target)
  }

  function FindMultiple(s: seq<SlimLeaf>, target: nat): Option<seq<SlimLeaf>>
  {
    if s == [] then None
    else if Greedy(SortDescending(s), target).Some? then Greedy(SortDescending(s), target)
    else if |PowersOfTwo(s)| == |s| then None
    else Greedy(SortDescending(PowersOfTwo(s)), target)
  }

  function ExactAmount(s: seq<SlimLeaf>, target: nat): Result<seq<SlimLeaf>, SelectError>
  {
    if target == 0 then Err(InvalidAmount)
    else if Total(s) < target then Err(InsufficientFunds)
    else if FindSingle(s, target).Some? then Ok([FindSingle(s, target).value])
    else if FindMultiple(s, target).Some? then Ok(FindMultiple(s, target).value)
    else Err(UnselectableAmount)
  }

  // ----- exact denominations -------------------------------------------------------------------

  function Position(s: seq<SlimLeaf>, value: nat): (i: nat)
    ensures i <= |s|
    ensures i < |s| ==> s[i].value == value
    ensures forall j :: 0 <= j < i ==> s[j].value != value
  {
    if s == [] || s[0].value == value then 0 else 1 + Position(s[1..], value)
  }

  /** `swap_remove`: the last element takes the removed one's place. */
  function SwapRemove(s: seq<SlimLeaf>, i: nat): seq<SlimLeaf>
    requires i < |s|
  {
    s[i := s[|s| - 1]][..|s| - 1]
  }

  function Denominations(s: seq<SlimLeaf>, ds: seq<U64>): Result<seq<SlimLeaf>, SelectError>
    decreases ds
  {
    if ds == [] then Ok([])
    else
      var i := Position(s, ds[0]);
      if i == |s| then Err(UnselectableAmount)
      else
        var rest := Denominations(SwapRemove(s, i), ds[1..]);
        if rest.Ok? then Ok(Prepend(s[i], rest.value)) else rest
  }

  // ----- by target -----------------------------------------------------------------------------

  function Dropping(s: seq<SlimLeaf>, ids: set<Id>): seq<SlimLeaf>
  {
    if s == [] then []
    else if s[0].id in ids then Dropping(s[1..], ids) else Prepend(s[0], Dropping(s[1..], ids))
  }

  function SlimIds(s: seq<SlimLeaf>): set<Id> { set l | l in s :: l.id }

  function SelectByTargets(s: seq<SlimLeaf>, target: Option<TargetAmounts>): Result<TargetLeaves, SelectError>
  {
    match target
    case None => Ok(TargetLeaves(s, None))
    case Some(AmountAndFee(amount, fee)) =>
      var a := ExactAmount(s, amount);
      if a.Err? then Err(a.error)
      else if fee.None? then Ok(TargetLeaves(a.value, None))
      else
        var f := ExactAmount(Dropping(s, SlimIds(a.value)), fee.value);
        if f.Err? then Err(f.error) else Ok(TargetLeaves(a.value, Some(f.value)))
    case Some(ExactDenominations(ds)) =>
      var d := Denominations(s, ds);
      if d.Err? then Err(d.error) else Ok(TargetLeaves(d.value, None))
  }

  // ----- minimum amount ------------------------------------------------------------------------

  /** The shortest prefix that reaches the target. */
  function MinPrefix(s: seq<SlimLeaf>, target: nat): (r: seq<SlimLeaf>)
    requires 0 < target <= Total(s)
  {
    if s[0].value >= target then [s[0]] else Prepend(s[0], MinPrefix(s[1..], target - s[0].value))
  }

  function ByMinimum(s: seq<SlimLeaf>, target: nat): Option<seq<SlimLeaf>>
  {
    if target == 0 || Total(s) < target then None else Some(MinPrefix(s, target))
  }
}
