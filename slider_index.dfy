/** Index arithmetic of the carousel's previous/next buttons.

    JavaScript's `%` truncates toward zero, so its remainder takes the sign of
    the dividend; Dafny's `%` is Euclidean. `JsRem` writes the JavaScript
    operator out for the positive divisors the controller uses (the item count).
 */
module SliderIndex {

  /** JavaScript's `a % b` for a positive `b`: the remainder keeps the sign of `a`. */
  function JsRem(a: int, b: int): (r: int)
    requires b > 0
    ensures a >= 0 ==> 0 <= r < b
    ensures a < 0 ==> -b < r <= 0
  {
    if a >= 0 then a % b else -((-a) % b)
  }

  /** Within one period either side of zero the remainder is the dividend itself,
      and a full period leaves nothing. */
  lemma JsRemSmall(a: int, b: int)
    requires b > 0
    ensures -b < a < b ==> JsRem(a, b) == a
    ensures JsRem(b, b) == 0
  {
    if 0 <= a < b {
      ModBelow(a, b);
    } else if -b < a < 0 {
      ModBelow(-a, b);
    }
    ModBelow(0, b);
    assert b % b == 0 by { assert b == b * 1 + 0; }
  }

  /** Euclidean `%` leaves a number below the divisor as it is. */
  lemma ModBelow(x: int, b: int)
    requires 0 <= x < b
    ensures x % b == x
  {
  }

  /** The index `onClickNext` moves to: `(itemIndex + 1) % items.length`. */
  function NextIndex(i: int, n: int): (r: int)
    requires n > 0
    ensures 0 <= i < n ==> 0 <= r < n
    ensures 0 <= i < n ==> r == if i == n - 1 then 0 else i + 1
  {
    JsRemSmall(i + 1, n);
    JsRem(i + 1, n)
  }

  /** The index `onClickPrev` moves to: `(itemIndex - 1) % items.length`,
      replaced by the last index (MAX_INDEX) when it falls below zero (MIN_ELEMENTS). */
  function PrevIndex(i: int, n: int): (r: int)
    requires n > 0
    ensures 0 <= r < n
    ensures 0 <= i < n ==> r == if i == 0 then n - 1 else i - 1
  {
    JsRemSmall(i - 1, n);
    var p := JsRem(i - 1, n);
    if p < 0 then n - 1 else p
  }

  /** The two buttons undo each other on every index in range. */
  lemma NextPrevInverse(i: int, n: int)
    requires 0 <= i < n
    ensures PrevIndex(NextIndex(i, n), n) == i
    ensures NextIndex(PrevIndex(i, n), n) == i
  {
  }

  /** How many forward steps lead from item `i` to item `k` on a ring of `n`
      items: the place of item `k` in a window of `n` slots that starts at item `i`. */
  function Slot(k: int, i: int, n: int): (r: int)
    requires 0 <= k < n && 0 <= i < n
    ensures 0 <= r < n
    ensures r == 0 <==> k == i
    ensures i + r == k || i + r == k + n
  {
    if k >= i then k - i else k - i + n
  }
}
