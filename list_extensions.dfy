/**
 * `ListExtensions.Percentage`: what share of `total` the number of items is, in whole percent,
 * with C#'s truncating integer division and a guard for a zero total. Arithmetic is unbounded
 * (the 32-bit overflow of `count * 100` is not modelled).
 */
module ListExtensions {
  import opened Common

  /**
   * `0` for a zero total; otherwise `count * 100 / total` truncated toward zero, that is: the
   * magnitude is the largest whole number of `|total|`s in `count * 100`, and the sign is that of
   * `total`.
   */
  function Percentage<T>(items: seq<T>, total: int): (r: int)
    ensures total == 0 ==> r == 0
    ensures total != 0 ==> Abs(r) * Abs(total) <= |items| * 100 < (Abs(r) + 1) * Abs(total)
    ensures total > 0 ==> r >= 0
    ensures total < 0 ==> r <= 0
  {
    if total == 0 then 0 else TruncDiv(|items| * 100, total)
  }

  /** Nothing counted is zero percent, whatever the (nonzero) total. */
  lemma EmptyIsZero<T>(items: seq<T>, total: int)
    requires |items| == 0
    ensures Percentage(items, total) == 0
  {
    if total != 0 {
      var r := Percentage(items, total);
      if r != 0 {
        MultiplyAtLeast(Abs(r), Abs(total));
      }
    }
  }

  /** All of the total is a hundred percent. */
  lemma AllIsHundred<T>(items: seq<T>, total: int)
    requires |items| == total != 0
    ensures Percentage(items, total) == 100
  {
    var r := Percentage(items, total);
    if r < 100 {
      MultiplyMonotonic(r + 1, 100, total);
    } else if r > 100 {
      MultiplyMonotonic(101, r, total);
    }
  }

  /** A count between zero and a positive total gives a percentage between 0 and 100. */
  lemma InRange<T>(items: seq<T>, total: int)
    requires 0 < total && |items| <= total
    ensures 0 <= Percentage(items, total) <= 100
  {
    var r := Percentage(items, total);
    if r > 100 {
      MultiplyMonotonic(101, r, total);
    }
  }

  /** More items never give a smaller percentage of the same positive total. */
  lemma Monotonic<T>(fewer: seq<T>, more: seq<T>, total: int)
    requires 0 < total && |fewer| <= |more|
    ensures Percentage(fewer, total) <= Percentage(more, total)
  {
    var a, b := Percentage(fewer, total), Percentage(more, total);
    if a > b {
      MultiplyMonotonic(b + 1, a, total);
    }
  }

  lemma MultiplyMonotonic(x: int, y: int, z: nat)
    requires x <= y
    ensures x * z <= y * z
  {
  }

  lemma MultiplyAtLeast(x: nat, y: nat)
    requires x >= 1
    ensures x * y >= y
  {
  }
}
