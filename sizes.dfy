/**
 * Table sizes: the minimum size, the usable fraction of a table, how a size is
 * chosen for a rebuild or a pre-sized map, and the width in bytes of one slot of
 * the index table.
 */
module Sizes {
  import opened Probing

  /** The smallest table, and the size every new or cleared map starts with. */
  const MAP_MINSIZE: int := 8

  /** The largest value of the signed, pointer-sized `map_ssize_t` on a 64-bit platform. */
  const MAX_SSIZE: int := 0x7fff_ffff_ffff_ffff

  /** How many entries a table of `size` slots may hold: two thirds of it, rounded down. */
  function UsableFraction(size: int): int
  {
    (2 * size) / 3
  }

  /** The table size a pre-sized map asks for to hold `n` entries: one and a half times `n`. */
  function EstimateSize(n: int): int
  {
    (3 * n + 1) / 2
  }

  /** The smallest size a rebuild asks for: three times the live entries. */
  function GrowthRate(used: int): int
  {
    3 * used
  }

  /** A table of a usable size leaves at least one slot empty. */
  lemma UsableBelowSize(size: int)
    requires size > 0
    ensures 0 <= UsableFraction(size) < size
  {
  }

  /** A table of at least `EstimateSize(n)` slots has room for `n` entries. */
  lemma EstimateSizeFits(n: int, size: int)
    requires size >= EstimateSize(n)
    ensures UsableFraction(size) >= n
  {
  }

  /** A table of at least `GrowthRate(used)` slots, and of the minimum size, has room for one entry more than `used`. */
  lemma GrowthRateFits(used: nat, size: int)
    requires size >= GrowthRate(used) && size >= MAP_MINSIZE
    ensures UsableFraction(size) > used
  {
  }

  /**
   * Doubles `start` until it reaches `minsize`: the smallest power of two that is
   * at least `start` and at least `minsize`.
   */
  method RoundUpSize(start: int, minsize: int) returns (size: int)
    requires IsPowerOfTwo(start)
    ensures IsPowerOfTwo(size) && size >= start && size >= minsize
    ensures size == start || size / 2 < minsize
  {
    size := start;
    while size < minsize
      invariant IsPowerOfTwo(size) && size >= start
      invariant size == start || size / 2 < minsize
      decreases minsize - size
    {
      size := size * 2;
    }
  }

  /**
   * The size of the table a rebuild goes into, asked for `minsize` slots with
   * `used` live entries: the smallest power of two from MAP_MINSIZE on that is
   * at least `minsize`; it has room for one entry more than `used`.
   */
  method GrowthSize(used: nat, minsize: int) returns (size: int)
    requires minsize >= GrowthRate(used)
    ensures IsPowerOfTwo(size) && size >= MAP_MINSIZE && size >= minsize
    ensures size == MAP_MINSIZE || size / 2 < minsize
    ensures UsableFraction(size) > used
  {
    size := RoundUpSize(MAP_MINSIZE, minsize);
    GrowthRateFits(used, size);
  }

  /**
   * The size of a map created to hold `minused` entries: the minimum size if that
   * holds them, otherwise the smallest power of two from 16 on that is at least
   * `EstimateSize(minused)`.
   */
  method PresizedSize(minused: int) returns (size: int)
    ensures IsPowerOfTwo(size) && size >= MAP_MINSIZE
    ensures UsableFraction(size) >= minused
    ensures minused <= UsableFraction(MAP_MINSIZE) ==> size == MAP_MINSIZE
    ensures minused > UsableFraction(MAP_MINSIZE) ==> size == 2 * MAP_MINSIZE || size / 2 < EstimateSize(minused)
  {
    if minused <= UsableFraction(MAP_MINSIZE) {
      return MAP_MINSIZE;
    }
    size := RoundUpSize(2 * MAP_MINSIZE, EstimateSize(minused));
    EstimateSizeFits(minused, size);
  }

  /**
   * The width in bytes of one slot of the index table of `size` slots: the
   * narrowest of 1, 2, 4 and 8 bytes selected by the size.
   */
  function IndexBytes(size: int): (w: int)
  {
    if size <= 0xff then 1
    else if size <= 0xffff then 2
    else if size <= 0xffff_ffff then 4
    else 8
  }

  /** The first value that a signed integer of `w` bytes cannot hold. */
  function SignedLimit(w: int): int
  {
    if w == 1 then 0x80
    else if w == 2 then 0x8000
    else if w == 4 then 0x8000_0000
    else 0x8000_0000_0000_0000
  }

  /** A larger table never has narrower slots. */
  lemma IndexBytesMonotone(a: int, b: int)
    requires a <= b
    ensures IndexBytes(a) <= IndexBytes(b)
  {
  }

  /** A power of two below twice the power of two `b` is at most `b`. */
  lemma {:induction false} PowerOfTwoBelow(n: int, b: int)
    requires IsPowerOfTwo(n) && IsPowerOfTwo(b) && n < 2 * b
    ensures n <= b
    decreases if n > 0 then n else 0
  {
    if n > 1 && b > 1 {
      PowerOfTwoBelow(n / 2, b / 2);
    }
  }

  /** The product of two powers of two is one. */
  lemma {:induction false} PowerOfTwoMul(a: int, b: int)
    requires IsPowerOfTwo(a) && IsPowerOfTwo(b)
    ensures IsPowerOfTwo(a * b)
    decreases if a > 0 then a else 0
  {
    if a > 1 {
      var h := a / 2;
      assert a == 2 * h;
      PowerOfTwoMul(h, b);
      var c := h * b;
      assert a * b == 2 * c;
      PowerOfTwoDouble(c);
    }
  }

  /** Twice a power of two is one. */
  lemma PowerOfTwoDouble(c: int)
    requires IsPowerOfTwo(c)
    ensures IsPowerOfTwo(2 * c)
  {
    assert (2 * c) % 2 == 0 && (2 * c) / 2 == c;
  }

  /**
   * Every value a slot can hold, an entry index below the usable fraction or one
   * of the negative sentinels down to -3, fits in a signed integer of the slot's
   * width.
   */
  lemma IndexFitsWidth(size: int, ix: int)
    requires IsPowerOfTwo(size) && size <= MAX_SSIZE
    requires -3 <= ix < UsableFraction(size)
    ensures -SignedLimit(IndexBytes(size)) <= ix < SignedLimit(IndexBytes(size))
  {
    assert IsPowerOfTwo(0x80) && IsPowerOfTwo(0x100);
    PowerOfTwoMul(0x80, 0x100);
    PowerOfTwoMul(0x100, 0x100);
    PowerOfTwoMul(0x8000, 0x1_0000);
    if size <= 0xff {
      PowerOfTwoBelow(size, 0x80);
    } else if size <= 0xffff {
      PowerOfTwoBelow(size, 0x8000);
    } else if size <= 0xffff_ffff {
      PowerOfTwoBelow(size, 0x8000_0000);
    }
  }
}
