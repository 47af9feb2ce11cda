/** Small notions shared by the components. */
module Common {

  type byte = b: int | 0 <= b < 256

  datatype Option<+T> = None | Some(value: T)

  function Min(a: nat, b: nat): nat { if a <= b then a else b }

  function Repeat<T>(x: T, n: nat): (s: seq<T>)
    ensures |s| == n && forall k | 0 <= k < n :: s[k] == x
  {
    if n == 0 then [] else Repeat(x, n - 1) + [x]
  }
}
