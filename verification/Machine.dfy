/** The 32-bit `unsigned int` and `int` of the program, written out on mathematical integers. */
module Machine {
  const UINT_MAX: nat := 0xFFFF_FFFF
  const INT_MAX: nat := 0x7FFF_FFFF
  const INT_MIN: int := -0x8000_0000

  predicate IsUnsigned(x: int) { 0 <= x <= UINT_MAX }

  predicate IsSigned(x: int) { INT_MIN <= x <= INT_MAX }

  /** The cast to `unsigned int`, which also is what unsigned arithmetic does with its results. */
  function Unsigned(x: int): (r: nat)
    ensures IsUnsigned(r)
    ensures IsUnsigned(x) ==> r == x
    ensures -(UINT_MAX as int) - 1 <= x < 0 ==> r as int == x + UINT_MAX + 1
  {
    x % (UINT_MAX + 1)
  }

  /** The cast from `unsigned int` to `int`. */
  function Signed(x: nat): (r: int)
    requires IsUnsigned(x)
    ensures x <= INT_MAX ==> r == x
    ensures Unsigned(r) == x
  {
    if x <= INT_MAX then x else x - UINT_MAX - 1
  }

  /** Both types have 32 bits, and the casts keep all of them. */
  lemma CastsAreModular(x: int)
    ensures IsUnsigned(x) <==> 0 <= x < 0x1_0000_0000
    ensures IsSigned(x) <==> -0x8000_0000 <= x < 0x8000_0000
    ensures (Unsigned(x) - x) % 0x1_0000_0000 == 0
    ensures IsUnsigned(x) ==> IsSigned(Signed(x)) && (Signed(x) - x) % 0x1_0000_0000 == 0
  {
  }

  /** A result of `int` arithmetic: overflow is undefined, so the value has to fit. */
  function Int(x: int): (r: int)
    requires IsSigned(x)
  {
    x
  }
}
