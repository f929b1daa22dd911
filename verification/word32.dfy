/** The ESP8266's `unsigned long`: a 32-bit unsigned integer. `millis()`
    returns one, and every deadline the firmware stores is one, so sums of
    a clock reading and a duration wrap modulo 2^32. */
module Word32 {

  /** 2^32, the number of distinct `unsigned long` values. */
  const MODULUS: int := 0x1_0000_0000

  /** Half the range: the largest distance that a signed difference of two
      readings can still order correctly. */
  const HALF: int := 0x8000_0000

  newtype u32 = x: int | 0 <= x < 0x1_0000_0000

  /** `a + b` computed in `unsigned long` arithmetic. */
  function Add(a: u32, b: u32): (r: u32)
    ensures a as int + b as int < MODULUS ==> r as int == a as int + b as int
    ensures a as int + b as int >= MODULUS ==> r as int == a as int + b as int - MODULUS
  {
    ((a as int + b as int) % MODULUS) as u32
  }

  /** `a - b` computed in `unsigned long` arithmetic: the number of
      milliseconds from reading `b` to reading `a`, modulo 2^32. */
  function Sub(a: u32, b: u32): (r: u32)
    ensures b <= a ==> r as int == a as int - b as int
    ensures a < b ==> r as int == a as int - b as int + MODULUS
  {
    ((a as int - b as int) % MODULUS) as u32
  }

  /** Subtraction undoes addition for every pair of values, wrapped or not. */
  lemma SubAddCancel(a: u32, b: u32)
    ensures Sub(Add(a, b), a) == b
  {
  }
}
