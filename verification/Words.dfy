/** Machine words, and the option type shared by every layer. */
module Words {

  datatype Option<+T> = None | Some(value: T)

  /** An unsigned 32-bit word: `uint32_t`, `uintptr_t` and `size_t` of the i686 target. */
  type Word = x: int | 0 <= x < 0x1_0000_0000

  /** Reduction modulo 2^32: what an unsigned addition, subtraction or product keeps. */
  function Wrap(x: int): Word {
    x % 0x1_0000_0000
  }

  /** `ROUNDUP(v, 4)` of spike.h on an unsigned word, wrap-around included. */
  function RoundUp4(x: Word): Word {
    var t := Wrap(x + 3);
    t - t % 4
  }

  /** `PG_ALIGN`: the address of the page that holds x. */
  function PgAlign(x: Word): Word {
    x - x % 4096
  }

  lemma Div4096(q: int, r: int)
    requires 0 <= r < 4096
    ensures (4096 * q + r) / 4096 == q && (4096 * q + r) % 4096 == r
  {
  }

  lemma Div1024(q: int, r: int)
    requires 0 <= r < 1024
    ensures (1024 * q + r) / 1024 == q && (1024 * q + r) % 1024 == r
  {
  }

  lemma Div4M(q: int, r: int)
    requires 0 <= r < 0x40_0000
    ensures (0x40_0000 * q + r) / 0x40_0000 == q
  {
  }

  lemma Div2(q: int, r: int)
    requires 0 <= r < 2
    ensures (2 * q + r) % 2 == r
  {
  }

  /** Quotient and remainder are what rebuilds the number. */
  lemma Quotient(v: nat, d: nat, q: nat, r: nat)
    requires v == q * d + r && r < d
    ensures v / d == q && v % d == r
  {
    var k := v / d - q;
    assert v == v / d * d + v % d;
    assert k * d == r - v % d;
    if k >= 1 {
      AtLeastOnce(k, d);
    } else if k <= -1 {
      AtLeastOnce(-k, d);
    }
  }

  lemma AtLeastOnce(k: int, d: nat)
    requires k >= 1
    ensures k * d >= d && -k * d <= 0 - d
  {
  }

  // ---------------------------------------------------------------- sequences without repetition

  predicate Distinct(s: seq<nat>) {
    forall j, k | 0 <= j < k < |s| :: s[j] != s[k]
  }

  /** A sequence without its k-th element. */
  lemma WithoutAt<T>(s: seq<T>, k: nat)
    requires k < |s|
    ensures var r := s[..k] + s[k + 1..];
      |r| == |s| - 1 && forall a | 0 <= a < |r| :: r[a] == s[if a < k then a else a + 1]
  {
  }

  lemma DistinctMore(s: seq<nat>, x: nat)
    requires Distinct(s) && x !in s
    ensures Distinct(s + [x]) && forall y :: y in s + [x] <==> y in s || y == x
  {
  }

  lemma DistinctLess(s: seq<nat>, k: nat)
    requires Distinct(s) && k < |s|
    ensures var r := s[..k] + s[k + 1..]; Distinct(r) && forall y :: y in r <==> y in s && y != s[k]
  {
    var r := s[..k] + s[k + 1..];
    WithoutAt(s, k);
    forall y | y in s && y != s[k]
      ensures y in r
    {
      var a: nat :| a < |s| && s[a] == y;
      assert r[if a < k then a else a - 1] == y;
    }
  }
}
