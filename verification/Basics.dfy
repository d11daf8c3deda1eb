/** What several components share: bytes, words of memory, C strings. */
module Basics {
  type byte = x: int | 0 <= x < 256

  const U32: nat := 0x1_0000_0000
  const U64: nat := 0x1_0000_0000_0000_0000

  datatype Option<T> = None | Some(value: T)

  function Min(a: nat, b: nat): nat {
    if a < b then a else b
  }

  /** Memory `d` with `s` written at `at`. */
  function Over<T>(d: seq<T>, at: nat, s: seq<T>): (r: seq<T>)
    requires at + |s| <= |d|
    ensures |r| == |d|
  {
    d[..at] + s + d[at + |s|..]
  }

  lemma Assoc<T>(a: seq<T>, b: seq<T>, c: seq<T>)
    ensures (a + b) + c == a + (b + c)
  {
  }

  /** A multiple is zero or at least as large as what it is of. */
  lemma MultipleBelow(d: int, n: nat)
    ensures d != 0 ==> d * n >= n || d * n <= -(n as int)
  {
    if d > 0 {
      assert (d - 1) * n >= 0;
    } else if d < 0 {
      assert (-d - 1) * n >= 0;
    }
  }

  lemma AddPeriod(i: nat, n: nat)
    requires n > 0
    ensures (i + n) % n == i % n
  {
    var d := (i + n) / n - i / n - 1;
    assert d * n == i % n - (i + n) % n;
    MultipleBelow(d, n);
  }

  lemma SmallRemainder(i: nat, n: nat)
    requires i < n
    ensures i % n == i
  {
    assert i / n * n == i - i % n;
    MultipleBelow(i / n, n);
  }

  // ---- C strings

  const NUL: char := '\0'

  predicate IsSpace(c: char) {
    c == ' ' || '\t' <= c <= '\r'
  }

  predicate NulFree(s: string) {
    forall i :: 0 <= i < |s| ==> s[i] != NUL
  }

  /** strnlen */
  function FirstNul(s: string): (k: nat)
    ensures k <= |s| && (k < |s| ==> s[k] == NUL)
    ensures forall i :: 0 <= i < k ==> s[i] != NUL
  {
    if s == "" || s[0] == NUL then 0 else 1 + FirstNul(s[1..])
  }
}
