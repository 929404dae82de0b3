/** Scanning text with a pointer: what both parsers are made of. */
module Scans {
  /** The first index at or after p whose byte is in stop; |cells| if there is none. */
  function Until(cells: string, p: nat, stop: set<char>): (r: nat)
    ensures p <= |cells| ==> p <= r <= |cells|
    ensures r < |cells| ==> cells[r] in stop
    ensures forall k :: p <= k < r && k < |cells| ==> cells[k] !in stop
    decreases |cells| - p
  {
    if p >= |cells| then |cells| else if cells[p] in stop then p else Until(cells, p + 1, stop)
  }

  /** The first index at or after p whose byte is not ch; |cells| if there is none. */
  function Past(cells: string, p: nat, ch: char): (r: nat)
    ensures p <= |cells| ==> p <= r <= |cells|
    ensures r < |cells| ==> cells[r] != ch
    ensures forall k :: p <= k < r && k < |cells| ==> cells[k] == ch
    decreases |cells| - p
  {
    if p >= |cells| then |cells| else if cells[p] != ch then p else Past(cells, p + 1, ch)
  }

  /** None of chars occurs in s. */
  predicate Lacks(s: string, chars: set<char>) {
    forall k :: 0 <= k < |s| ==> s[k] !in chars
  }

  /** t stands in cells at p. */
  predicate At(cells: string, p: nat, t: string) {
    p + |t| <= |cells| && forall k :: 0 <= k < |t| ==> t[k] == cells[p + k]
  }

  lemma AtSplit(cells: string, p: nat, a: string, b: string)
    ensures At(cells, p, a + b) <==> At(cells, p, a) && At(cells, p + |a|, b)
  {
    if At(cells, p, a + b) {
      forall k | 0 <= k < |a| ensures a[k] == cells[p + k] {
        assert (a + b)[k] == a[k];
      }
      forall k | 0 <= k < |b| ensures b[k] == cells[p + |a| + k] {
        assert (a + b)[|a| + k] == b[k];
      }
    }
  }

  lemma AtChar(cells: string, p: nat, t: string, k: nat)
    requires At(cells, p, t) && k < |t|
    ensures cells[p + k] == t[k]
  {
  }

  /** A scan over text without stops ends at the stop behind it. */
  lemma UntilAt(cells: string, p: nat, t: string, stop: set<char>)
    requires At(cells, p, t) && Lacks(t, stop)
    requires p + |t| < |cells| && cells[p + |t|] in stop
    ensures Until(cells, p, stop) == p + |t|
  {
    forall k | p <= k < p + |t| ensures cells[k] !in stop {
      AtChar(cells, p, t, k - p);
    }
  }
}
