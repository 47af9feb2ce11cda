/** Overflow-checked arithmetic on unsigned words (number_operation.h). `max` is the largest word. */
module SafeArithmetic {
  import opened Arithmetic
  import opened Common

  function OverFlowReturnValue(returnValue: bool, max: nat): nat {
    if !returnValue then 0 else max
  }

  function SafeAdd(num1: nat, num2: nat, max: nat, returnValue: bool): (r: nat)
    requires num1 <= max && num2 <= max
    ensures r <= max
    ensures num1 + num2 <= max ==> r == num1 + num2
    ensures num1 + num2 > max ==> r == OverFlowReturnValue(returnValue, max)
  {
    if num1 > max - num2 then OverFlowReturnValue(returnValue, max) else num1 + num2
  }

  function SafeSub(num1: nat, num2: nat, max: nat, returnValue: bool): (r: nat)
    requires num1 <= max && num2 <= max
    ensures r <= max
    ensures num1 < num2 ==> r == OverFlowReturnValue(returnValue, max)
    ensures num1 >= num2 ==> r == num1 - num2
  {
    if num1 < num2 then OverFlowReturnValue(returnValue, max) else num1 - num2
  }

  /** The machine's product. */
  function Wrapped(num1: nat, num2: nat, max: nat): (r: nat)
    ensures r <= max
  {
    (num1 * num2) % (max + 1)
  }

  function SafeMul(num1: nat, num2: nat, max: nat, returnValue: bool): nat {
    if num1 == 0 || num2 == 0 then 0
    else if Wrapped(num1, num2, max) / num1 != num2 then OverFlowReturnValue(returnValue, max)
    else Wrapped(num1, num2, max)
  }

  /** Dividing the wrapped product back finds an overflow if and only if there is one. */
  lemma DivideBackIsExact(num1: nat, num2: nat, max: nat)
    requires 0 < num1 <= max && num2 <= max
    ensures Wrapped(num1, num2, max) / num1 == num2 <==> num1 * num2 <= max
  {
    var product, m := num1 * num2, max + 1;
    if product <= max {
      DivMod(product, m, 0, product);
      DivMod(product, num1, num2, 0);
    } else {
      WrappedIsSmaller(product, m);
      BelowProduct(product % m, num1, num2);
    }
  }

  lemma WrappedIsSmaller(product: nat, m: nat)
    requires 0 < m <= product
    ensures product % m < product
  {
  }

  lemma BelowProduct(n: nat, x: nat, y: nat)
    requires x > 0 && n < x * y
    ensures n / x != y
  {
    assert n >= x * (n / x);
  }

  lemma SafeMulIsExact(num1: nat, num2: nat, max: nat, returnValue: bool)
    requires num1 <= max && num2 <= max
    ensures SafeMul(num1, num2, max, returnValue) ==
            if num1 * num2 <= max then num1 * num2 else OverFlowReturnValue(returnValue, max)
  {
    if num1 != 0 && num2 != 0 {
      DivideBackIsExact(num1, num2, max);
      if num1 * num2 <= max { DivMod(num1 * num2, max + 1, 0, num1 * num2); }
    }
  }

  // ---------------------------------------------------------------------------------------
  // Sums and products of lists
  // ---------------------------------------------------------------------------------------

  predicate Words(nums: seq<nat>, max: nat) {
    forall k | 0 <= k < |nums| :: nums[k] <= max
  }

  function Sum(nums: seq<nat>): nat {
    if nums == [] then 0 else Sum(nums[..|nums| - 1]) + nums[|nums| - 1]
  }

  function Product(nums: seq<nat>): nat {
    if nums == [] then 1 else Product(nums[..|nums| - 1]) * nums[|nums| - 1]
  }

  /** Sums and products of one number, and of lists put together. */
  lemma {:induction false} PartsTogether(a: seq<nat>, b: seq<nat>, x: nat)
    ensures Sum([]) == 0 && Sum([x]) == x && Sum(a + b) == Sum(a) + Sum(b)
    ensures Product([]) == 1 && Product([x]) == x && Product(a + b) == Product(a) * Product(b)
    decreases |b|
  {
    var none: seq<nat> := [];
    assert [x][..0] == none;
    if b == [] {
      assert a + b == a;
    } else {
      var front, last := b[..|b| - 1], b[|b| - 1];
      assert (a + b)[..|a + b| - 1] == a + front;
      PartsTogether(a, front, x);
      assert (Product(a) * Product(front)) * last == Product(a) * (Product(front) * last);
    }
  }

  lemma SumStep(nums: seq<nat>, k: nat)
    requires k < |nums|
    ensures Sum(nums[..k + 1]) == Sum(nums[..k]) + nums[k]
    ensures Product(nums[..k + 1]) == Product(nums[..k]) * nums[k]
  {
    assert nums[..k + 1][..k] == nums[..k];
  }

  lemma {:induction false} PrefixSum(nums: seq<nat>, k: nat)
    requires k <= |nums|
    ensures Sum(nums[..k]) <= Sum(nums)
    decreases |nums| - k
  {
    if k < |nums| {
      SumStep(nums, k);
      PrefixSum(nums, k + 1);
    } else {
      assert nums[..k] == nums;
    }
  }

  predicate NoZeros(nums: seq<nat>, from: nat, to: nat) {
    forall k | from <= k < to && k < |nums| :: nums[k] != 0
  }

  lemma {:induction false} PrefixProduct(nums: seq<nat>, k: nat)
    requires k <= |nums|
    ensures NoZeros(nums, k, |nums|) ==> Product(nums[..k]) <= Product(nums)
    ensures Product(nums[..k]) == 0 ==> Product(nums) == 0
    decreases |nums| - k
  {
    if k < |nums| {
      SumStep(nums, k);
      hide Product;
      PrefixProduct(nums, k + 1);
      Grows(Product(nums[..k]), nums[k]);
    } else {
      assert nums[..k] == nums;
    }
  }

  lemma Grows(a: nat, b: nat)
    ensures b > 0 ==> a * b >= a
    ensures a == 0 || b == 0 ==> a * b == 0
  {
  }

  /** The place behind the last overflow, when every overflow starts the sum anew. */
  function Restart(nums: seq<nat>, max: nat): (r: nat)
    ensures r <= |nums|
  {
    if nums == [] then 0
    else
      var front := nums[..|nums| - 1];
      if Sum(front[Restart(front, max)..]) + nums[|nums| - 1] > max then |nums| else Restart(front, max)
  }

  /** The sum of what comes behind the last overflow. */
  function Remainder(nums: seq<nat>, max: nat): nat {
    Sum(nums[Restart(nums, max)..])
  }

  lemma RemainderStep(nums: seq<nat>, k: nat, max: nat)
    requires k < |nums|
    ensures Remainder(nums[..k + 1], max) ==
            if Remainder(nums[..k], max) + nums[k] > max then 0 else Remainder(nums[..k], max) + nums[k]
  {
    var front, all := nums[..k], nums[..k + 1];
    assert all[..k] == front;
    var r := Restart(front, max);
    if Remainder(front, max) + nums[k] > max {
      assert all[|all|..] == [];
    } else {
      assert all[r..] == front[r..] + [nums[k]];
      Snoc(front[r..], nums[k]);
    }
  }

  /** With returnValue on, the saturated sum. With it off, the loop goes on from 0 after an overflow, so the result is
      the remainder of the first n numbers: all of them, or those up to the first remainder that is the largest word. */
  method SafeAddAll(nums: seq<nat>, max: nat, returnValue: bool) returns (sum: nat, ghost n: nat)
    requires Words(nums, max)
    ensures returnValue ==> sum == Min(Sum(nums), max)
    ensures Sum(nums) <= max ==> sum == Sum(nums)
    ensures !returnValue ==>
              && n <= |nums| && sum == Remainder(nums[..n], max) && (n == |nums| || sum == max)
              && forall m | 0 < m < n :: Remainder(nums[..m], max) != max
  {
    hide Remainder, Restart, Sum;
    sum, n := 0, 0;
    NothingAdded(max);
    assert nums[..0] == [];
    for k := 0 to |nums|
      invariant sum <= max && n == k
      invariant returnValue ==> sum == Min(Sum(nums[..k]), max)
      invariant Sum(nums[..k]) <= max ==> sum == Sum(nums[..k])
      invariant !returnValue ==> sum == Remainder(nums[..k], max)
      invariant !returnValue ==> forall m | 0 < m <= k :: Remainder(nums[..m], max) != max
    {
      SumStep(nums, k);
      RemainderStep(nums, k, max);
      sum := SafeAdd(sum, nums[k], max, returnValue);
      n := k + 1;
      PrefixSum(nums, k + 1);
      if sum == max {
        return;
      }
    }
    assert nums[..|nums|] == nums;
  }

  lemma NothingAdded(max: nat)
    ensures Sum([]) == 0 && Remainder([], max) == 0
  {
  }

  /** The index of the first zero, or the length of the list. */
  function FirstZero(nums: seq<nat>): (z: nat)
    ensures z <= |nums| && NoZeros(nums, 0, z) && (z < |nums| ==> nums[z] == 0)
  {
    if nums == [] || nums[0] == 0 then 0
    else
      var z := 1 + FirstZero(nums[1..]);
      assert forall k | 1 <= k < |nums| :: nums[k] == nums[1..][k - 1];
      z
  }

  lemma FirstZeroIs(nums: seq<nat>, z: nat)
    requires z <= |nums| && NoZeros(nums, 0, z) && (z < |nums| ==> nums[z] == 0)
    ensures FirstZero(nums) == z
  {
  }

  /** What the product loop returns: a zero is noticed only if no overflow came before it. */
  function MulAllSpec(nums: seq<nat>, max: nat, returnValue: bool): nat {
    var z := FirstZero(nums);
    if Product(nums[..z]) >= max then OverFlowReturnValue(returnValue, max)
    else if z < |nums| then 0
    else Product(nums)
  }

  method SafeMulAll(nums: seq<nat>, max: nat, returnValue: bool) returns (res: nat)
    requires max > 1 && Words(nums, max)
    ensures res == MulAllSpec(nums, max, returnValue)
  {
    res := 1;
    for k := 0 to |nums|
      invariant NoZeros(nums, 0, k) && res < max
      invariant res == if Product(nums[..k]) < max then Product(nums[..k]) else 0
      invariant returnValue ==> Product(nums[..k]) < max
    {
      if nums[k] == 0 {
        FirstZeroIs(nums, k);
        return 0;
      }
      ghost var before := Product(nums[..k]);
      SumStep(nums, k);
      SafeMulIsExact(res, nums[k], max, returnValue);
      Grows(before, nums[k]);
      res := SafeMul(res, nums[k], max, returnValue);
      if res == max {
        FirstZeroBeyond(nums, k + 1);
        res := OverFlowReturnValue(returnValue, max);
        return;
      }
    }
    assert nums[..|nums|] == nums;
    FirstZeroIs(nums, |nums|);
  }

  lemma FirstZeroBeyond(nums: seq<nat>, k: nat)
    requires k <= |nums| && NoZeros(nums, 0, k)
    ensures FirstZero(nums) >= k && Product(nums[..FirstZero(nums)]) >= Product(nums[..k])
  {
    hide Product;
    var head := nums[..FirstZero(nums)];
    assert head[..k] == nums[..k];
    PrefixProduct(head, k);
  }

  /** With returnValue off, the result is the product below the largest word, and 0 from there on. */
  lemma MulAllOrZero(nums: seq<nat>, max: nat)
    requires max > 1
    ensures MulAllSpec(nums, max, false) == if Product(nums) < max then Product(nums) else 0
  {
    ZeroDecides(nums);
  }

  lemma ZeroDecides(nums: seq<nat>)
    ensures var z := FirstZero(nums);
            if z < |nums| then Product(nums) == 0 else Product(nums) == Product(nums[..z])
  {
    var z := FirstZero(nums);
    if z < |nums| {
      SumStep(nums, z);
      PrefixProduct(nums, z + 1);
    } else {
      assert nums[..z] == nums;
    }
  }

  /** With returnValue on, the result is the saturated product exactly when no zero follows an overflow. */
  lemma MulAllSaturates(nums: seq<nat>, max: nat)
    requires max > 1
    ensures MulAllSpec(nums, max, true) == Min(Product(nums), max)
            <==> FirstZero(nums) == |nums| || Product(nums[..FirstZero(nums)]) < max
  {
    ZeroDecides(nums);
  }

  /** The same numbers in another order can give another result. */
  lemma MulAllDependsOnOrder(max: nat)
    requires max > 1
    ensures multiset([max, 0]) == multiset([0, max])
    ensures MulAllSpec([max, 0], max, true) == max && MulAllSpec([0, max], max, true) == 0
  {
    FirstZeroIs([max, 0], 1);
    FirstZeroIs([0, max], 0);
    SumStep([max, 0], 0);
    var none: seq<nat> := [];
    assert [max, 0][..0] == none && [0, max][..0] == none;
    assert Product(none) == 1;
  }

  /** Sum and product do not depend on the order, so neither do the saturated sum and the zeroing product. */
  lemma {:induction false} OrderDoesNotMatter(a: seq<nat>, b: seq<nat>)
    requires multiset(a) == multiset(b)
    ensures Sum(a) == Sum(b) && Product(a) == Product(b)
    decreases |a|
  {
    if a == [] {
      assert |multiset(b)| == |b|;
    } else {
      var front, x := a[..|a| - 1], a[|a| - 1];
      var k := PlaceOf(a, b, x);
      var rest := b[..k] + b[k + 1..];
      assert b == b[..k] + [x] + b[k + 1..];
      Removed(b[..k], x, b[k + 1..]);
      SumStep(a, |front|);
      assert a[..|a|] == a;
      hide Sum, Product;
      OrderDoesNotMatter(front, rest);
    }
  }

  function NonZeros(nums: seq<nat>): (r: seq<nat>)
    ensures 0 !in r
  {
    if nums == [] then []
    else NonZeros(nums[..|nums| - 1]) + if nums[|nums| - 1] == 0 then [] else [nums[|nums| - 1]]
  }

  lemma {:induction false} NonZerosCount(nums: seq<nat>)
    ensures multiset(NonZeros(nums)) == multiset(nums)[0 := 0]
  {
    if nums != [] {
      var front, last := nums[..|nums| - 1], nums[|nums| - 1];
      assert nums == front + [last];
      NonZerosCount(front);
    }
  }

  /** A zero-free beginning of a list is a beginning of its nonzero numbers. */
  lemma {:induction false} NonZerosPrefix(nums: seq<nat>, k: nat)
    requires k <= |nums| && NoZeros(nums, 0, k)
    ensures k <= |NonZeros(nums)| && NonZeros(nums)[..k] == nums[..k]
    decreases |nums|
  {
    if nums != [] {
      var n := |nums| - 1;
      var front := nums[..n];
      if k <= n {
        NonZerosPrefix(front, k);
        assert front[..k] == nums[..k];
        assert NonZeros(nums)[..k] == NonZeros(front)[..k];
      } else {
        NonZerosPrefix(front, n);
        assert front[..n] == front && NonZeros(front)[..n] == front;
        NonZerosShort(front);
        assert nums[..k] == front + [nums[n]];
      }
    }
  }

  lemma {:induction false} NonZerosShort(nums: seq<nat>)
    ensures |NonZeros(nums)| <= |nums|
  {
    if nums != [] { NonZerosShort(nums[..|nums| - 1]); }
  }

  /** The product the loop has before its first zero never exceeds the product of all nonzero numbers. */
  lemma BeforeFirstZero(nums: seq<nat>)
    ensures Product(nums[..FirstZero(nums)]) <= Product(NonZeros(nums))
  {
    hide Product, NonZeros;
    var z := FirstZero(nums);
    NonZerosPrefix(nums, z);
    PrefixProduct(NonZeros(nums), z);
  }

  lemma {:induction false} NothingToDrop(nums: seq<nat>)
    requires 0 !in nums
    ensures NonZeros(nums) == nums
  {
    if nums != [] {
      assert nums == nums[..|nums| - 1] + [nums[|nums| - 1]];
      assert nums[|nums| - 1] in nums;
      NothingToDrop(nums[..|nums| - 1]);
    }
  }

  lemma ZeroFound(nums: seq<nat>)
    ensures FirstZero(nums) < |nums| <==> 0 in nums
  {
  }

  /** The nonzero numbers first, then the zeros. */
  lemma ZerosLast(nums: seq<nat>) returns (b: seq<nat>)
    requires 0 in nums
    ensures multiset(b) == multiset(nums) && |NonZeros(nums)| < |b|
    ensures FirstZero(b) == |NonZeros(nums)| && b[..FirstZero(b)] == NonZeros(nums)
  {
    var count := multiset(nums)[0];
    b := NonZeros(nums) + Repeat(0, count);
    NonZerosCount(nums);
    ZerosCount(count);
    FirstZeroIs(b, |NonZeros(nums)|);
  }

  lemma {:induction false} ZerosCount(n: nat)
    ensures multiset(Repeat<nat>(0, n)) == multiset{}[0 := n]
  {
    if n > 0 { ZerosCount(n - 1); }
  }

  /** A zero first. */
  lemma ZeroFirst(nums: seq<nat>) returns (b: seq<nat>)
    requires 0 in nums
    ensures multiset(b) == multiset(nums) && b != [] && FirstZero(b) == 0
  {
    var k :| 0 <= k < |nums| && nums[k] == 0;
    assert nums == nums[..k] + [0] + nums[k + 1..];
    b := [0] + nums[..k] + nums[k + 1..];
  }

  ghost predicate AnyOrder(nums: seq<nat>, max: nat) {
    forall b: seq<nat> | multiset(b) == multiset(nums) :: MulAllSpec(b, max, true) == MulAllSpec(nums, max, true)
  }

  lemma SameInBothOrders(nums: seq<nat>, b: seq<nat>, max: nat)
    requires max > 1 && multiset(b) == multiset(nums) && (0 !in nums || Product(NonZeros(nums)) < max)
    ensures MulAllSpec(b, max, true) == MulAllSpec(nums, max, true)
  {
    hide *;
    OrderDoesNotMatter(b, nums);
    assert 0 in b <==> 0 in multiset(b);
    assert 0 in nums <==> 0 in multiset(nums);
    NonZerosCount(nums);
    NonZerosCount(b);
    OrderDoesNotMatter(NonZeros(b), NonZeros(nums));
    OneResult(nums, max);
    OneResult(b, max);
  }

  lemma TwoOrdersDiffer(nums: seq<nat>, max: nat) returns (first: seq<nat>, last: seq<nat>)
    requires max > 1 && 0 in nums && Product(NonZeros(nums)) >= max
    ensures multiset(first) == multiset(nums) && MulAllSpec(first, max, true) == 0
    ensures multiset(last) == multiset(nums) && MulAllSpec(last, max, true) == max
  {
    hide Product, NonZeros;
    last := ZerosLast(nums);
    first := ZeroFirst(nums);
    NoProduct(first);
  }

  /** With returnValue on, all orders of the numbers give one result if and only if there is no zero among them or the
      product of the others stays below the largest word. */
  lemma OrderMattersExactly(nums: seq<nat>, max: nat)
    requires max > 1
    ensures AnyOrder(nums, max) <==> 0 !in nums || Product(NonZeros(nums)) < max
  {
    hide Product, NonZeros, MulAllSpec;
    if 0 !in nums || Product(NonZeros(nums)) < max {
      forall b: seq<nat> | multiset(b) == multiset(nums)
        ensures MulAllSpec(b, max, true) == MulAllSpec(nums, max, true)
      {
        SameInBothOrders(nums, b, max);
      }
    } else {
      var first, last := TwoOrdersDiffer(nums, max);
    }
  }

  lemma NoProduct(nums: seq<nat>)
    ensures Product(nums[..0]) == 1
  {
  }

  /** The result where the order cannot matter. */
  lemma OneResult(nums: seq<nat>, max: nat)
    requires max > 1 && (0 !in nums || Product(NonZeros(nums)) < max)
    ensures MulAllSpec(nums, max, true) == if 0 in nums then 0 else Min(Product(nums), max)
  {
    hide Product, NonZeros;
    ZeroFound(nums);
    BeforeFirstZero(nums);
    assert FirstZero(nums) == |nums| ==> nums[..FirstZero(nums)] == nums;
  }

  lemma PlaceOf(a: seq<nat>, b: seq<nat>, x: nat) returns (k: nat)
    requires multiset(a) == multiset(b) && a != [] && x == a[|a| - 1]
    ensures k < |b| && b[k] == x && multiset(a[..|a| - 1]) == multiset(b[..k] + b[k + 1..])
  {
    assert a == a[..|a| - 1] + [x];
    assert x in multiset(b);
    k :| 0 <= k < |b| && b[k] == x;
    assert b == b[..k] + [x] + b[k + 1..];
    assert multiset(a) == multiset(a[..|a| - 1]) + multiset{x};
    assert multiset(b) == multiset(b[..k] + b[k + 1..]) + multiset{x};
    assert multiset(a[..|a| - 1]) == multiset(a) - multiset{x};
  }

  lemma Snoc(nums: seq<nat>, x: nat)
    ensures Sum(nums + [x]) == Sum(nums) + x
    ensures Product(nums + [x]) == Product(nums) * x
  {
    assert (nums + [x])[..|nums|] == nums;
  }

  lemma {:induction false} Removed(a: seq<nat>, x: nat, b: seq<nat>)
    ensures Sum(a + [x] + b) == Sum(a + b) + x
    ensures Product(a + [x] + b) == Product(a + b) * x
    decreases |b|
  {
    hide Sum, Product;
    if b == [] {
      assert a + [x] + b == a + [x] && a + b == a;
      Snoc(a, x);
    } else {
      var front, last := b[..|b| - 1], b[|b| - 1];
      Removed(a, x, front);
      assert a + [x] + b == (a + [x] + front) + [last];
      assert a + b == (a + front) + [last];
      Snoc(a + [x] + front, last);
      Snoc(a + front, last);
      Swap(Product(a + front), x, last);
    }
  }

  lemma Swap(a: nat, b: nat, c: nat)
    ensures (a * b) * c == (a * c) * b
  {
  }
}
