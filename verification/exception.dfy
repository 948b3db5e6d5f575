/** The out-of-range error the list operations return, and the unsigned
    arithmetic that produces its upper bound. */
module Exception {

  /** Go's `uint` is 64 bits wide; arithmetic on it wraps modulo this. */
  const UintModulus: nat := 0x1_0000_0000_0000_0000

  /** `IndexOutOfBound{Start, End}`: the valid index range was
      `[start, end]`. */
  datatype IndexOutOfBound = IndexOutOfBound(start: nat, end: nat)

  /** The unsigned subtraction `n - 1`, which wraps to the largest `uint`
      when `n` is zero. */
  function UintPred(n: nat): (r: nat)
    ensures r < UintModulus
    ensures 0 < n <= UintModulus ==> r == n - 1
    ensures n == 0 ==> r == UintModulus - 1
  {
    (n - 1) % UintModulus
  }

  /** The error reported for a position outside a list of `size` elements:
      the range always starts at zero and ends at `size - 1` in unsigned
      arithmetic. */
  function OutOfRange(size: nat): (e: IndexOutOfBound)
    ensures e.start == 0
    ensures 0 < size <= UintModulus ==> e.end == size - 1
    ensures size == 0 ==> e.end == UintModulus - 1
  {
    IndexOutOfBound(0, UintPred(size))
  }
}
