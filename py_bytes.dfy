/** Python value semantics the two scripts rely on: bytes and bytearray
    values, their index and slice operations, the `bytes(list)` conversion,
    and the exceptions those raise. */
module PyBytes {

  /** One element of a Python `bytes` or `bytearray`. */
  newtype byte = x: int | 0 <= x < 0x100

  /** The Python exceptions the modelled code can raise. */
  datatype Error = IndexError | ValueError

  datatype Result<+T> = Ok(value: T) | Err(error: Error) {
    predicate IsFailure() { Err? }

    function PropagateFailure<U>(): Result<U>
      requires Err?
    {
      Err(error)
    }

    function Extract(): T
      requires Ok?
    {
      value
    }
  }

  /** How a statement without a value (a property setter) ended. */
  datatype Outcome = Done | Raised(error: Error)

  datatype Option<+T> = None | Some(value: T)

  function Min(a: int, b: int): (r: int) { if a <= b then a else b }

  /** `s[i]` for a non-negative index: IndexError past the end. */
  function At(s: seq<byte>, i: nat): (r: Result<byte>) {
    if i < |s| then Ok(s[i]) else Err(IndexError)
  }

  /** `s[i] = v` on a bytearray for a non-negative index: the new contents,
      or IndexError (the buffer is then left as it was). */
  function Store(s: seq<byte>, i: nat, v: byte): (r: Result<seq<byte>>) {
    if i < |s| then Ok(s[i := v]) else Err(IndexError)
  }

  /** `s[lo:hi] = v` on a bytearray for `0 <= lo <= hi`. Python clamps both
      bounds to the length and never raises; when `v` is not as long as the
      clamped slice, the buffer grows or shrinks. */
  function StoreSlice(s: seq<byte>, lo: nat, hi: nat, v: seq<byte>): (r: seq<byte>)
    requires lo <= hi
    ensures |r| == |s| - (Min(hi, |s|) - Min(lo, |s|)) + |v|
    ensures hi <= |s| && |v| == hi - lo ==>
              |r| == |s|
              && (forall j | 0 <= j < |s| && !(lo <= j < hi) :: r[j] == s[j])
              && r[lo..hi] == v
  {
    s[..Min(lo, |s|)] + v + s[Min(hi, |s|)..]
  }

  /** `bytes(xs)` for a list of Python ints: ValueError unless every element
      lies in range(0, 256), otherwise the same values in the same order. */
  function FromInts(xs: seq<int>): (r: Result<seq<byte>>)
    ensures r.Ok? <==> forall i | 0 <= i < |xs| :: 0 <= xs[i] < 0x100
    ensures r.Ok? ==> |r.value| == |xs| && forall i | 0 <= i < |xs| :: r.value[i] as int == xs[i]
    ensures r.Err? ==> r.error == ValueError
  {
    if xs == [] then Ok([])
    else if 0 <= xs[0] < 0x100 then
      var rest :- FromInts(xs[1..]);
      Ok([xs[0] as byte] + rest)
    else Err(ValueError)
  }

  /** `x & 0xFF` on a Python int. Python ints behave as infinite two's
      complement, so this is the residue modulo 256 for negative `x` too. */
  function Low8(x: int): (b: byte)
    ensures (b as int - x) % 0x100 == 0
  {
    (x % 0x100) as byte
  }
}
