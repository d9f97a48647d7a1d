/** The `autoScroll` helper (apply.js lines 40-51): scroll by most of a
    viewport, read the document height, and stop at the first reading equal
    to the previous one, or after 40 readings.  The page is an oracle:
    `height(i)` is the value of `document.body.scrollHeight` at the i-th
    reading of this call. */
module Scroll {

  const MaxReadings: nat := 40

  /** The value `prev` holds when the i-th reading is compared: 0 before the
      first reading, then the reading before. */
  function Previous(height: nat -> int, i: nat): int {
    if i == 0 then 0 else height(i - 1)
  }

  /** Reading i found the page unchanged. */
  predicate Repeats(height: nat -> int, i: nat) {
    height(i) == Previous(height, i)
  }

  /** `n` readings is where the loop stops: none of the first n-1 readings
      repeated, and either the n-th did or the budget is spent. */
  predicate IsStop(height: nat -> int, n: nat) {
    && 1 <= n <= MaxReadings
    && (forall j: nat :: j < n - 1 ==> !Repeats(height, j))
    && (Repeats(height, n - 1) || n == MaxReadings)
  }

  /** Runs the loop and returns how many readings it took and whether it
      stopped because the height did not change. */
  method AutoScroll(height: nat -> int) returns (readings: nat, stable: bool)
    ensures IsStop(height, readings)
    ensures stable <==> Repeats(height, readings - 1)
  {
    var prev := 0;
    var i := 0;
    readings := 0;
    stable := false;
    while i < MaxReadings
      invariant 0 <= i <= MaxReadings
      invariant prev == Previous(height, i)
      invariant forall j: nat :: j < i ==> !Repeats(height, j)
      invariant readings == i && !stable
    {
      var loaded := height(i);
      if loaded == prev {
        readings := i + 1;
        stable := true;
        return;
      }
      prev := loaded;
      i := i + 1;
      readings := i;
    }
  }

  /** At most one reading count meets the stopping rule, so the contract of
      `AutoScroll` fixes its result. */
  lemma StopIsUnique(height: nat -> int, m: nat, n: nat)
    requires IsStop(height, m) && IsStop(height, n)
    ensures m == n
  {
    var lastM: nat, lastN: nat := m - 1, n - 1;
    assert m < n ==> !Repeats(height, lastM);
    assert n < m ==> !Repeats(height, lastN);
  }

  /** Because `prev` starts at 0, a page whose first height reading is 0
      stops after that single reading. */
  lemma ZeroFirstReadingStops(height: nat -> int, n: nat)
    requires height(0) == 0
    requires IsStop(height, n)
    ensures n == 1
  {
    assert n > 1 ==> !Repeats(height, 0);
  }

  /** A page that keeps growing is read exactly 40 times. */
  lemma GrowingPageExhaustsBudget(height: nat -> int, n: nat)
    requires forall i: nat :: height(i) > Previous(height, i)
    requires IsStop(height, n)
    ensures n == MaxReadings
  {
    assert !Repeats(height, n - 1);
  }
}
