/** Values shared by the whole model: bytes, and the outcome of a Python call
    that either returns a value or raises one of the exceptions the core raises. */
module Values {

  /** One byte of a C64 program file. */
  newtype byte = x: int | 0 <= x < 256

  /** The exceptions raised by the modelled functions. */
  datatype Exception =
    | TypeError          // decode_text was handed something that is not `bytes`
    | ZeroDivisionError  // decode_text divided by the length of an empty decoding
    | ValueError         // list.index did not find the file in the folder listing

  /** A call that returns a value or raises. */
  datatype Result<+T> = Ok(value: T) | Err(error: Exception)

  datatype Option<+T> = None | Some(value: T)

  /** The share `a / n` of a part in a non-empty whole lies in [0, 1]; it is
      positive for a non-empty part and 1 exactly for the whole. */
  lemma Ratio(a: nat, n: nat)
    requires a <= n && n > 0
    ensures 0.0 <= a as real / n as real <= 1.0
    ensures a > 0 ==> a as real / n as real > 0.0
    ensures a as real / n as real == 1.0 <==> a == n
  {
    var q := a as real / n as real;
    assert q * n as real == a as real;
  }
}
