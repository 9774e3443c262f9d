/** The file-server hit counter, a Go `atomic.Int32`.

Requests are taken one at a time, so the atomic operations become plain
reads and writes of a 32-bit signed integer. Go's signed addition wraps
around in two's complement, and so does `Increment`.
 */
module HitCounter {

  newtype Int32 = x: int | -0x8000_0000 <= x < 0x8000_0000

  const MinInt32: Int32 := -0x8000_0000
  const MaxInt32: Int32 := 0x7fff_ffff

  /** The two's-complement reading of an unbounded integer in 32 bits. */
  function Wrap(x: int): Int32 {
    ((x + 0x8000_0000) % 0x1_0000_0000 - 0x8000_0000) as Int32
  }

  /** `Add(1)`: one more hit, wrapping from the largest value to the smallest. */
  function Increment(h: Int32): (r: Int32)
    ensures r == Wrap(h as int + 1)
    ensures h < MaxInt32 ==> r as int == h as int + 1
  {
    if h == MaxInt32 then MinInt32 else h + 1
  }

  lemma WrapStep(x: int)
    ensures Wrap(Wrap(x) as int + 1) == Wrap(x + 1)
  {
  }

  /** `n` hits in a row, starting from `h`; while the sum fits, exactly `n`
      is added. */
  function IncrementBy(h: Int32, n: nat): (r: Int32)
    ensures h as int + n <= MaxInt32 as int ==> r as int == h as int + n
  {
    if n == 0 then h else Increment(IncrementBy(h, n - 1))
  }

  /** One hit followed by `n` more is `n + 1` hits. */
  lemma {:induction false} IncrementByShift(h: Int32, n: nat)
    ensures IncrementBy(Increment(h), n) == IncrementBy(h, n + 1)
  {
    if n > 0 {
      IncrementByShift(h, n - 1);
    }
  }

  /** `n` increments add `n` modulo 2^32; below the maximum, exactly `n`. */
  lemma {:induction false} IncrementByAdds(h: Int32, n: nat)
    ensures IncrementBy(h, n) == Wrap(h as int + n)
    ensures h as int + n <= MaxInt32 as int ==> IncrementBy(h, n) as int == h as int + n
  {
    if n == 0 {
      assert Wrap(h as int) == h;
    } else {
      IncrementByAdds(h, n - 1);
      WrapStep(h as int + (n - 1));
    }
  }
}
