/** Small shared vocabulary: optional values, byte strings cut into pieces, powers of two. */
module Common {

  datatype Option<+T> = None | Some(value: T)

  /** The NUL byte that ends a C string. */
  const NUL: char := '\0'

  const TWO32: nat := 0x1_0000_0000
  const TWO64: nat := 0x1_0000_0000_0000_0000

  function Max(a: int, b: int): int {
    if a < b then b else a
  }

  const CRLF := "\r\n"

  /** TcpConnection::State. */
  datatype State = BLANK | ESTABLISHED | WILL_CLOSED | CLOSED

  function Repeat<T>(x: T, n: nat): seq<T> { seq(n, _ => x) }

  lemma RepeatFirst<T>(x: T, n: nat, rest: seq<T>)
    requires n > 0
    ensures |Repeat(x, n)| == n && (Repeat(x, n) + rest)[0] == x && (Repeat(x, n) + rest)[1..] == Repeat(x, n - 1) + rest
  {
    assert Repeat(x, n)[1..] == Repeat(x, n - 1);
  }

  /** The bytes of the pieces, in order. */
  function Concat(pieces: seq<string>): string {
    if pieces == [] then "" else pieces[0] + Concat(pieces[1..])
  }

  lemma {:induction false} ConcatAppend(a: seq<string>, b: seq<string>)
    ensures Concat(a + b) == Concat(a) + Concat(b)
  {
    if a == [] {
      assert a + b == b;
    } else {
      assert (a + b)[1..] == a[1..] + b;
      calc {
        Concat(a + b);
        a[0] + Concat(a[1..] + b);
        { ConcatAppend(a[1..], b); }
        a[0] + (Concat(a[1..]) + Concat(b));
        Concat(a) + Concat(b);
      }
    }
  }

  lemma ConcatSnoc(a: seq<string>, s: string)
    ensures Concat(a + [s]) == Concat(a) + s
  {
    ConcatAppend(a, [s]);
    assert Concat([s]) == s + Concat([]);
  }

  function Pow2(n: nat): (r: nat)
    ensures r >= 1
  {
    if n == 0 then 1 else 2 * Pow2(n - 1)
  }
}
