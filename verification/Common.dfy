/** Shared by the other modules. */
module Common {
  datatype Option<T> = None | Some(value: T)

  /** `std::lower_bound` on the indices of [lo, hi): the first one that is not below. */
  method LowerBound(lo: nat, hi: nat, below: nat -> bool) returns (r: nat)
    requires lo <= hi
    requires forall i, j :: lo <= i < j < hi && below(j) ==> below(i)
    ensures lo <= r <= hi
    ensures forall i :: lo <= i < r ==> below(i)
    ensures forall i :: r <= i < hi ==> !below(i)
  {
    var left, right := lo, hi;
    while left < right
      invariant lo <= left <= right <= hi
      invariant forall i :: lo <= i < left ==> below(i)
      invariant forall i :: right <= i < hi ==> !below(i)
    {
      var mid := left + (right - left) / 2;
      if below(mid) {
        left := mid + 1;
      } else {
        right := mid;
      }
    }
    r := left;
  }
}
