/**
 * The loading placeholder of a chat row (`MessagePlaceholder`): skeleton
 * blocks whose visibility and widths are a pure function of the row's index
 * in the list, so that a placeholder looks the same every time it is drawn.
 */
module MessagePlaceholder {

  /**
   * JavaScript's `a % n` on integers: the remainder of division truncated
   * toward zero, which takes the sign of `a` (Dafny's `%` never goes negative).
   */
  function JsRemainder(a: int, n: int): (r: int)
    requires n > 0
    ensures -n < r < n
    ensures a >= 0 ==> r == a % n
    ensures a <= 0 ==> r <= 0
  {
    if a >= 0 then a % n else -((-a) % n)
  }

  /** The skeleton of a placeholder row. */
  datatype Skeleton = Skeleton(
    avatarVisible: bool,      // the round avatar block
    headerVisible: bool,      // the author/timestamp header blocks
    shortBarEm: int,          // width of the short header bar, in em
    longBarPercent: int)      // width of the body bar, in percent

  /** `index % 5 == 0`: one placeholder in five shows an avatar and a header. */
  predicate SkeletonVisible(index: int)
  {
    JsRemainder(index, 5) == 0
  }

  /** `((index % 3) + 1) * 3`, the width of the short header bar in em. */
  function ShortBarEm(index: int): (em: int)
    ensures index >= 0 ==> em in {3, 6, 9}
    ensures em in {-3, 0, 3, 6, 9}
  {
    (JsRemainder(index, 3) + 1) * 3
  }

  /** `(index % 5) * 20`, the width of the body bar in percent. */
  function LongBarPercent(index: int): (pct: int)
    ensures index >= 0 ==> pct in {0, 20, 40, 60, 80}
    ensures -80 <= pct <= 80 && pct % 20 == 0
  {
    JsRemainder(index, 5) * 20
  }

  /** `MessagePlaceholder` for the row at `index`. */
  function Placeholder(index: int): (s: Skeleton)
    ensures s.avatarVisible == s.headerVisible
    ensures s.avatarVisible <==> index % 5 == 0
    ensures index >= 0 ==> s.shortBarEm in {3, 6, 9} && s.longBarPercent in {0, 20, 40, 60, 80}
    // A visible header goes with an empty body bar.
    ensures s.headerVisible <==> s.longBarPercent == 0
  {
    VisibleIffDivisible(index);
    Skeleton(SkeletonVisible(index), SkeletonVisible(index), ShortBarEm(index), LongBarPercent(index))
  }

  /** `r` is the remainder of `a` by 3 once `a` is written as `3 * q + r`. */
  lemma RemainderOfThree(a: int, q: int, r: int)
    requires a == 3 * q + r && 0 <= r < 3
    ensures a % 3 == r
  {
  }

  /** `r` is the remainder of `a` by 5 once `a` is written as `5 * q + r`. */
  lemma RemainderOfFive(a: int, q: int, r: int)
    requires a == 5 * q + r && 0 <= r < 5
    ensures a % 5 == r
  {
  }

  /**
   * The JavaScript remainder differs from the index by a multiple of the
   * modulus, for both moduli the placeholder uses, negative indices included.
   */
  lemma {:induction false} JsRemainderCongruent(a: int)
    ensures (a - JsRemainder(a, 3)) % 3 == 0
    ensures (a - JsRemainder(a, 5)) % 5 == 0
  {
    if a >= 0 {
      RemainderOfThree(a - a % 3, a / 3, 0);
      RemainderOfFive(a - a % 5, a / 5, 0);
    } else {
      var b := -a;
      RemainderOfThree(a + b % 3, -(b / 3), 0);
      RemainderOfFive(a + b % 5, -(b / 5), 0);
    }
  }

  /** Truncated and Euclidean remainder agree on whether 5 divides the index. */
  lemma VisibleIffDivisible(index: int)
    ensures SkeletonVisible(index) <==> index % 5 == 0
  {
    if index < 0 {
      var q, r := (-index) / 5, (-index) % 5;
      assert -index == 5 * q + r;
      if r == 0 {
        RemainderOfFive(index, -q, 0);
      } else {
        RemainderOfFive(index, -q - 1, 5 - r);
      }
    }
  }

  /** Placeholders repeat every fifteen rows (the least common multiple of 3 and 5). */
  lemma {:induction false} PlaceholderPeriodic(index: nat)
    ensures Placeholder(index + 15) == Placeholder(index)
  {
    RemainderOfThree(index + 15, index / 3 + 5, index % 3);
    RemainderOfFive(index + 15, index / 5 + 3, index % 5);
  }

  /**
   * The short bar's width takes every value of {3, 6, 9} and the body bar's
   * every value of {0, 20, 40, 60, 80} among any fifteen consecutive rows.
   */
  lemma {:induction false} PlaceholderWidthsCover(start: nat, em: int, pct: int)
    requires em in {3, 6, 9} && pct in {0, 20, 40, 60, 80}
    ensures exists i :: start <= i < start + 15 && Placeholder(i).shortBarEm == em
    ensures exists i :: start <= i < start + 15 && Placeholder(i).longBarPercent == pct
  {
    var t3, q3, s3 := em / 3 - 1, start / 3, start % 3;
    var i3 := if t3 >= s3 then start + t3 - s3 else start + t3 - s3 + 3;
    RemainderOfThree(i3, if t3 >= s3 then q3 else q3 + 1, t3);
    assert Placeholder(i3).shortBarEm == em;
    var t5, q5, s5 := pct / 20, start / 5, start % 5;
    var i5 := if t5 >= s5 then start + t5 - s5 else start + t5 - s5 + 5;
    RemainderOfFive(i5, if t5 >= s5 then q5 else q5 + 1, t5);
    assert Placeholder(i5).longBarPercent == pct;
  }
}
