/** Round-robin choice of the event loop that will own a new connection. */
module EventLoopPools {
  import opened Common

  /** nextIndex_, i calls after it was c: a size_t, so it wraps at 2^64. */
  function Counter(c: nat, i: nat): nat { (c + i) % TWO64 }

  /** The helper loop chosen by the i-th call after the counter was c. */
  function Choice(c: nat, i: nat, n: nat): nat
    requires n > 0
  {
    Counter(c, i) % n
  }

  /** How often loop j is chosen in k consecutive calls that start with the counter at c. */
  function Share(c: nat, k: nat, n: nat, j: nat): nat
    requires n > 0
  {
    if k == 0 then 0 else Share(c, k - 1, n, j) + (if Choice(c, k - 1, n) == j then 1 else 0)
  }

  /** Each of the n loops gets floor(k/n) or ceil(k/n) of the k calls. */
  ghost predicate FairWindow(c: nat, k: nat, n: nat)
    requires n > 0
  {
    forall j :: 0 <= j < n ==> k / n <= Share(c, k, n, j) <= (k + n - 1) / n
  }

  /** The multiples of n in (0, m]. */
  lemma DivStep(m: nat, n: nat)
    requires n > 0
    ensures (m + 1) / n == m / n + (if (m + 1) % n == 0 then 1 else 0)
  {
    var q, r := m / n, m % n;
    assert m == n * q + r;
    if r + 1 == n {
      assert m + 1 == n * (q + 1);
      DivUnique(m + 1, n, q + 1, 0);
    } else {
      DivUnique(m + 1, n, q, r + 1);
    }
  }

  lemma MulAtLeast(n: nat, d: int)
    requires d >= 1
    ensures n * d >= n
  {
    assert n * d == n + n * (d - 1);
  }

  lemma DivUnique(a: nat, n: nat, q: nat, r: nat)
    requires n > 0 && r < n && a == n * q + r
    ensures a / n == q && a % n == r
  {
    var p := a / n;
    assert n * (q - p) == n * q - n * p;
    if q > p {
      MulAtLeast(n, q - p);
    } else if q < p {
      assert n * (p - q) == n * p - n * q;
      MulAtLeast(n, p - q);
    }
  }

  lemma SameResidue(x: nat, n: nat, j: nat)
    requires n > 0 && j < n
    ensures x % n == j <==> (x + n - j) % n == 0
  {
    var q, r := x / n, x % n;
    assert x == n * q + r;
    if r >= j {
      if r == j {
        DivUnique(x + n - j, n, q + 1, 0);
      } else {
        DivUnique(x + n - j, n, q + 1, r - j);
      }
    } else {
      DivUnique(x + n - j, n, q, n + r - j);
    }
  }

  /** k choices in sequence, as if the counter never wrapped. */
  ghost predicate InSequence(c: nat, k: nat, n: nat)
    requires n > 0
  {
    forall i: nat | i < k :: Choice(c, i, n) == (c + i) % n
  }

  lemma LastInSequence(c: nat, k: nat, n: nat)
    requires n > 0 && k > 0 && InSequence(c, k, n)
    ensures InSequence(c, k - 1, n) && Choice(c, k - 1, n) == (c + k - 1) % n
  {
    assert c + (k - 1) == c + k - 1;
  }

  /** While choices follow (c + i) mod n, shares have a closed form. */
  lemma {:induction false} ShareFormula(c: nat, k: nat, n: nat, j: nat)
    requires n > 0 && j < n
    requires InSequence(c, k, n)
    ensures Share(c, k, n, j) == (c + k + n - 1 - j) / n - (c + n - 1 - j) / n
  {
    hide InSequence, Choice;
    if k > 0 {
      LastInSequence(c, k, n);
      ShareFormula(c, k - 1, n, j);
      DivStep(c + k + n - 2 - j, n);
      SameResidue(c + k - 1, n, j);
    }
  }

  /** (b + k)/n - b/n is floor(k/n) or ceil(k/n). */
  lemma DivSpread(b: nat, k: nat, n: nat)
    requires n > 0
    ensures k / n <= (b + k) / n - b / n <= (k + n - 1) / n
  {
    Euclid(k, n);
    Euclid(b, n);
    CarrySum(n, b / n, b % n, k / n, k % n);
    Ceiling(n, k / n, k % n);
  }

  lemma Euclid(x: nat, n: nat)
    requires n > 0
    ensures x == n * (x / n) + x % n && 0 <= x % n < n && x / n >= 0
  {
  }

  lemma Ceiling(n: nat, q: nat, r: nat)
    requires r < n
    ensures n * q + r >= 0
    ensures (n * q + r + n - 1) / n == if r == 0 then q else q + 1
  {
    if r == 0 {
      DivUnique(n * q + r + n - 1, n, q, n - 1);
    } else {
      assert n * (q + 1) == n * q + n;
      DivUnique(n * q + r + n - 1, n, q + 1, r - 1);
    }
  }

  lemma CarrySum(n: nat, p: nat, s: nat, q: nat, r: nat)
    requires s < n && r < n
    ensures n * p + s + (n * q + r) >= 0
    ensures (n * p + s + (n * q + r)) / n == if r + s < n then p + q else p + q + 1
  {
    var sum := n * p + s + (n * q + r);
    if r + s < n {
      assert n * (p + q) == n * p + n * q;
      DivUnique(sum, n, p + q, r + s);
    } else {
      assert n * (p + q + 1) == n * p + n * q + n;
      DivUnique(sum, n, p + q + 1, r + s - n);
    }
  }

  lemma FollowsCounter(c: nat, k: nat, n: nat)
    requires n > 0
    requires InSequence(c, k, n)
    ensures FairWindow(c, k, n)
  {
    hide InSequence, Share;
    forall j | 0 <= j < n ensures k / n <= Share(c, k, n, j) <= (k + n - 1) / n {
      ShareWithin(c, k, n, j);
    }
  }

  lemma ShareWithin(c: nat, k: nat, n: nat, j: nat)
    requires n > 0 && j < n && InSequence(c, k, n)
    ensures k / n <= Share(c, k, n, j) <= (k + n - 1) / n
  {
    hide InSequence, Share;
    ShareFormula(c, k, n, j);
    DivSpread(c + n - 1 - j, k, n);
    assert c + k + n - 1 - j == c + n - 1 - j + k;
  }

  /** Until the counter wraps, every window of calls is fair. */
  lemma FairUntilWrap(c: nat, k: nat, n: nat)
    requires n > 0 && c + k <= TWO64
    ensures FairWindow(c, k, n)
  {
    forall i: nat | i < k ensures Choice(c, i, n) == (c + i) % n {
      assert (c + i) % TWO64 == c + i;
    }
    FollowsCounter(c, k, n);
  }

  lemma ModOfMultiple(x: nat, m: nat, n: nat)
    requires n > 0 && m > 0 && m % n == 0
    ensures (x % m) % n == x % n
  {
    Euclid(x, m);
    Euclid(x % m, n);
    Euclid(m, n);
    ModOfSum(n, m / n, x / m, (x % m) / n, (x % m) % n);
  }

  lemma ModOfSum(n: nat, d: nat, q: nat, a: nat, b: nat)
    requires b < n
    ensures (n * d) * q + (n * a + b) >= 0
    ensures ((n * d) * q + (n * a + b)) % n == b
  {
    MulAssoc(n, d, q);
    MulDistributes(n, d * q, a);
    DivUnique((n * d) * q + (n * a + b), n, d * q + a, b);
  }

  lemma MulAssoc(x: int, y: int, z: int)
    ensures (x * y) * z == x * (y * z)
  {
  }

  lemma MulDistributes(x: int, y: int, z: int)
    ensures x * (y + z) == x * y + x * z
  {
  }

  lemma {:induction false} ShareAtLeast(c: nat, k: nat, n: nat, j: nat, first: nat, second: nat)
    requires n > 0 && first < second < k
    requires Choice(c, first, n) == j == Choice(c, second, n)
    ensures Share(c, k, n, j) >= 2
    decreases k
  {
    if second < k - 1 {
      ShareAtLeast(c, k - 1, n, j, first, second);
    } else {
      ShareAtLeastOne(c, k - 1, n, j, first);
    }
  }

  lemma {:induction false} ShareAtLeastOne(c: nat, k: nat, n: nat, j: nat, first: nat)
    requires n > 0 && first < k && Choice(c, first, n) == j
    ensures Share(c, k, n, j) >= 1
    decreases k
  {
    if first < k - 1 {
      ShareAtLeastOne(c, k - 1, n, j, first);
    }
  }

  /** Across the wrap, every window is fair exactly when n divides 2^64. */
  lemma FairAcrossWrapExactlyWhen(n: nat)
    requires 0 < n <= TWO64
    ensures (forall c: nat, k: nat :: FairWindow(c, k, n)) <==> TWO64 % n == 0
  {
    if TWO64 % n == 0 {
      forall c: nat, k: nat ensures FairWindow(c, k, n) {
        forall i: nat | i < k ensures Choice(c, i, n) == (c + i) % n {
          ModOfMultiple(c + i, TWO64, n);
        }
        FollowsCounter(c, k, n);
      }
    } else {
      UnfairAtWrap(n);
    }
  }

  lemma ZeroAtWrap(n: nat, r: nat, c: nat)
    requires 0 < n <= TWO64 && r == TWO64 % n != 0 && c == TWO64 - r
    ensures Choice(c, 0, n) == 0 && Choice(c, r, n) == 0
  {
    assert Choice(c, 0, n) == 0 by {
      DivUnique(c, n, TWO64 / n, 0);
      assert c % TWO64 == c;
    }
    assert Choice(c, r, n) == 0 by {
      assert (c + r) % TWO64 == 0;
    }
  }

  /** The last r = 2^64 mod n calls before the wrap use loops 0..r-1, and the wrap starts at 0 again. */
  lemma UnfairAtWrap(n: nat)
    requires 0 < n <= TWO64 && TWO64 % n != 0
    ensures !FairWindow(TWO64 - TWO64 % n, TWO64 % n + 1, n)
  {
    hide Choice;
    var r := TWO64 % n;
    var c := TWO64 - r;
    ZeroAtWrap(n, r, c);
    ShareAtLeast(c, r + 1, n, 0, 0, r);
    if r + 1 == n {
      DivUnique(r + 1 + n - 1, n, 1, n - 1);
    } else {
      DivUnique(r + 1 + n - 1, n, 1, r);
    }
  }

  /** ++ on a size_t. */
  function Incremented(x: nat): (r: nat)
    ensures r < TWO64
  {
    (x + 1) % TWO64
  }

  lemma CounterNext(c: nat, i: nat)
    ensures Incremented(Counter(c, i)) == Counter(c, i + 1)
  {
    var x := c + i;
    assert x == TWO64 * (x / TWO64) + x % TWO64;
    if x % TWO64 + 1 < TWO64 {
      DivUnique(x + 1, TWO64, x / TWO64, x % TWO64 + 1);
    } else {
      DivUnique(x + 1, TWO64, x / TWO64 + 1, 0);
    }
  }

  /** A pool of n helper loops; n == 0 means that the main loop serves everything itself. */
  class EventLoopPool {
    var nextIndex: nat
    const realSize: nat

    constructor (nums: nat)
      ensures nextIndex == 0 && realSize == nums
    {
      nextIndex, realSize := 0, nums;
    }

    /** None is the main loop, Some(i) the i-th helper loop. */
    method GetNextPool() returns (r: Option<nat>)
      requires nextIndex < TWO64
      modifies this`nextIndex
      ensures realSize == 0 ==> r.None? && nextIndex == old(nextIndex)
      ensures nextIndex < TWO64 && (r.Some? ==> r.value < realSize)
      // call after call, from whatever value the counter started
      ensures realSize > 0 ==> forall c: nat, i: nat :: old(nextIndex) == Counter(c, i) ==>
                  r == Some(Choice(c, i, realSize)) && nextIndex == Counter(c, i + 1)
    {
      hide Counter;
      if realSize == 0 {
        return None;
      }
      var index := nextIndex % realSize;
      ghost var was := nextIndex;
      nextIndex := Incremented(nextIndex);
      r := Some(index);
      forall c: nat, i: nat | was == Counter(c, i) ensures nextIndex == Counter(c, i + 1) {
        CounterNext(c, i);
      }
    }
  }
}
