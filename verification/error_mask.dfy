/**
 The per-position error mask (`errorMap`) and the reconciliation loop of
 `handleInput` that flags each position the first time it is mistyped.

 In the source the mask is a JavaScript array. Writing `newErrorMap[i] = true`
 past its end grows it, leaving holes that read as `undefined`; every read of
 the mask is a truthiness test, so a hole, an index past the end and `false`
 all behave alike. Holes are therefore stored as `false` here.
 */
module ErrorMask {

  /** `errorMap[i]` read in a boolean context. */
  function FlagOf(mask: seq<bool>, i: nat): bool {
    i < |mask| && mask[i]
  }

  /** `Array(n).fill(false)`. */
  function AllClear(n: nat): (mask: seq<bool>)
    ensures |mask| == n
    ensures forall i: nat :: !FlagOf(mask, i)
  {
    seq(n, _ => false)
  }

  /** `newErrorMap[i] = true`, growing the array when `i` is past its end. */
  function SetFlag(mask: seq<bool>, i: nat): (r: seq<bool>)
    ensures |r| == if i < |mask| then |mask| else i + 1
    ensures forall j: nat :: FlagOf(r, j) == (j == i || FlagOf(mask, j))
  {
    if i < |mask| then mask[i := true] else mask + AllClear(i - |mask|) + [true]
  }

  /** The number of flagged positions. */
  function CountTrue(mask: seq<bool>): nat {
    if |mask| == 0 then 0 else (if mask[0] then 1 else 0) + CountTrue(mask[1..])
  }

  function Max(a: nat, b: nat): nat {
    if a < b then b else a
  }

  /** `value[i] !== textToType[i]`: an index past the end of the target reads
      `undefined` there and so always counts as a mismatch. */
  predicate Mismatch(value: string, target: string, i: nat)
    requires i < |value|
  {
    i >= |target| || value[i] != target[i]
  }

  lemma {:induction false} CountTrueAppend(a: seq<bool>, b: seq<bool>)
    ensures CountTrue(a + b) == CountTrue(a) + CountTrue(b)
  {
    if |a| == 0 {
      assert a + b == b;
    } else {
      assert (a + b)[0] == a[0];
      assert (a + b)[1..] == a[1..] + b;
      CountTrueAppend(a[1..], b);
    }
  }

  /** A mask with no flag set counts zero. */
  lemma {:induction false} CountTrueNoFlags(mask: seq<bool>)
    requires forall i: nat :: !FlagOf(mask, i)
    ensures CountTrue(mask) == 0
  {
    if |mask| > 0 {
      assert !FlagOf(mask, 0);
      assert forall i: nat :: FlagOf(mask[1..], i) ==> FlagOf(mask, i + 1);
      CountTrueNoFlags(mask[1..]);
    }
  }

  lemma {:induction false} CountTrueUpdate(mask: seq<bool>, i: nat)
    requires i < |mask| && !mask[i]
    ensures CountTrue(mask[i := true]) == CountTrue(mask) + 1
  {
    if i > 0 {
      assert mask[i := true][1..] == mask[1..][i - 1 := true];
      CountTrueUpdate(mask[1..], i - 1);
    }
  }

  /** Setting a flag that was clear adds exactly one to the count. */
  lemma CountTrueSetFlag(mask: seq<bool>, i: nat)
    requires !FlagOf(mask, i)
    ensures CountTrue(SetFlag(mask, i)) == CountTrue(mask) + 1
  {
    if i < |mask| {
      CountTrueUpdate(mask, i);
    } else {
      var pad := AllClear(i - |mask|);
      CountTrueAppend(mask + pad, [true]);
      CountTrueAppend(mask, pad);
      CountTrueNoFlags(pad);
    }
  }

  /** The loop `for (i = from; i < value.length; i++)` of `handleInput`:
      the resulting mask and the number of new errors it counted. Each position
      from `from` on that mismatches the target ends up flagged; nothing else
      changes; the count grows by exactly the number of flags newly set. */
  function Scan(value: string, target: string, mask: seq<bool>, from: nat): (res: (seq<bool>, nat))
    requires from <= |value|
    ensures |mask| <= |res.0| <= Max(|mask|, |value|)
    ensures forall j: nat :: FlagOf(res.0, j) == (FlagOf(mask, j) || (from <= j < |value| && Mismatch(value, target, j)))
    ensures CountTrue(res.0) == CountTrue(mask) + res.1
    decreases |value| - from
  {
    if from == |value| then (mask, 0)
    else if Mismatch(value, target, from) && !FlagOf(mask, from) then
      CountTrueSetFlag(mask, from);
      var (m, n) := Scan(value, target, SetFlag(mask, from), from + 1);
      (m, n + 1)
    else
      Scan(value, target, mask, from + 1)
  }

  /** The whole reconciliation of one input value against the target. */
  function Reconcile(value: string, target: string, mask: seq<bool>): (seq<bool>, nat) {
    Scan(value, target, mask, 0)
  }

  /** True when every mismatching position of `value` is already flagged. */
  predicate Covers(mask: seq<bool>, value: string, target: string) {
    forall j: nat :: j < |value| && Mismatch(value, target, j) ==> FlagOf(mask, j)
  }

  /** A mask that already flags every mismatch is left as it is and no error is
      counted: errors are counted on their first occurrence only. */
  lemma {:induction false} ScanCovered(value: string, target: string, mask: seq<bool>, from: nat)
    requires from <= |value|
    requires Covers(mask, value, target)
    ensures Scan(value, target, mask, from) == (mask, 0)
    decreases |value| - from
  {
    if from < |value| {
      ScanCovered(value, target, mask, from + 1);
    }
  }
}
