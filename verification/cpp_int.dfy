/**
 * The fixed-width C++ integers the source relies on: a 32-bit `int` and a
 * 64-bit `size_t`, with their limits and the conversions that wrap.
 */
module CppInt {

  /** `std::numeric_limits<int>::max()` and `::min()` for a 32-bit int. */
  const IntMax: int := 0x7fff_ffff
  const IntMin: int := -0x8000_0000

  /** 2^64: `size_t` arithmetic is modulo this. */
  const SizeModulus: int := 0x1_0000_0000_0000_0000
  /** `std::numeric_limits<size_t>::max()`. */
  const SizeMax: nat := 0xffff_ffff_ffff_ffff

  /** Conversion of a mathematical integer to `size_t`: wrap modulo 2^64. */
  function ToSize(x: int): (r: nat)
    ensures r < SizeModulus
    ensures (r - x) % SizeModulus == 0
    ensures 0 <= x < SizeModulus ==> r == x
  {
    x % SizeModulus
  }

  /** `(int)k` for a `size_t` k: the low 32 bits read as a signed int. */
  function ToInt32(k: nat): (r: int)
    ensures IntMin <= r <= IntMax
    ensures k <= IntMax ==> r == k
    ensures (r - k) % 0x1_0000_0000 == 0
  {
    var t := k % 0x1_0000_0000;
    if t <= IntMax then t else t - 0x1_0000_0000
  }

  /** An untouched `SIZE_MAX` key reads as -1 once cast to int. */
  lemma SizeMaxAsInt()
    ensures ToInt32(SizeMax) == -1
  {
    assert SizeMax % 0x1_0000_0000 == 0xffff_ffff;
  }
}
