/** Bytes, buffer contents and the result types shared by every module. */
module Values {

  newtype Byte = b: int | 0 <= b < 256

  /** What a device buffer holds. */
  type Value = seq<Byte>

  const TWO_TO_THE_32: int := 0x1_0000_0000
  const TWO_TO_THE_64: int := 0x1_0000_0000_0000_0000

  datatype Option<+T> = None | Some(value: T)

  /** A C++ exception becomes `Err`; the message names the throw site. */
  datatype Result<+T> = Ok(value: T) | Err(message: string)

  function Max(a: int, b: int): int {
    if a < b then b else a
  }

  function Min(a: int, b: int): int {
    if a < b then a else b
  }

  /** What a memset to 0 writes. */
  function Zeros(n: nat): (r: seq<Byte>)
    ensures |r| == n && forall i :: 0 <= i < n ==> r[i] == 0
  {
    seq(n, _ => 0)
  }

  /** A stage, seen from the host: input values and an output port give that port's value. */
  type StageSem = (int, seq<Value>, int) -> Value

  /** One step of iterating an unordered container: any remaining key. */
  method AnyOf<T>(s: set<T>) returns (x: T)
    requires s != {}
    ensures x in s
  {
    x :| x in s;
  }
}
