/**
 The .NET primitives the Bloom filter relies on, modelled over Dafny's
 unbounded integers: 32-bit signed integers, the exceptions of these calls,
 BitConverter.ToInt32 (on a little-endian machine), Math.Abs and
 the unchecked `++` on an int.
 */
module Runtime {

  const Int32Min: int := -0x8000_0000
  const Int32Max: int := 0x7fff_ffff

  /** Two to the power 32: the modulus of 32-bit two's-complement arithmetic. */
  const TwoTo32: int := 0x1_0000_0000

  type int32 = x: int | Int32Min <= x <= Int32Max
  type byte = b: int | 0 <= b < 0x100

  /**
   The exceptions of the modelled .NET calls. BloomFilter.cs itself can meet
   only three of them: ArgumentOutOfRange from `new BitArray`, Overflow and
   DivideByZero; it reads offsets 0 to 4 of a 32-byte digest, so ToInt32's
   argument checks never fire there. A null key (ArgumentNullException from the
   UTF-8 encoder) is outside the model, since a Dafny string is never null.
   */
  datatype Exception =
    | ArgumentOutOfRange  // new BitArray(n) with n < 0; ToInt32 with a start index outside the array
    | Argument            // ToInt32 with fewer than four bytes after the start index
    | Overflow            // Math.Abs(int.MinValue)
    | DivideByZero        // x % 0

  /** The outcome of a call that may throw. */
  datatype Result<+T> = Ok(value: T) | Err(error: Exception)

  /** The four bytes whose little-endian reading is int.MinValue. */
  const MinValueBytes: seq<byte> := [0, 0, 0, 0x80]

  /** The unsigned value of four bytes, least significant byte first. */
  function LittleEndian(w: seq<byte>): (n: nat)
    requires |w| == 4
    ensures n < TwoTo32
  {
    var b0, b1, b2, b3 := w[0] as int, w[1] as int, w[2] as int, w[3] as int;
    b0 + 0x100 * (b1 + 0x100 * (b2 + 0x100 * b3))
  }

  /** The two's-complement reading of a 32-bit pattern. */
  function ToSigned(u: nat): (x: int32)
    requires u < TwoTo32
    ensures (x - u) % TwoTo32 == 0
  {
    if u <= Int32Max then u else u - TwoTo32
  }

  /** The 32-bit pattern of a signed value: the inverse of ToSigned. */
  function ToUnsigned(x: int32): (u: nat)
    ensures u < TwoTo32 && ToSigned(u) == x
  {
    if x < 0 then x + TwoTo32 else x
  }

  /**
   BitConverter.ToInt32(value, startIndex): reads value[startIndex..startIndex + 4]
   as a signed 32-bit integer in the machine's byte order, taken here to be
   little-endian.
   */
  function ToInt32(value: seq<byte>, startIndex: int): (r: Result<int32>)
    ensures r.Ok? <==> 0 <= startIndex && startIndex + 4 <= |value|
    ensures (startIndex < 0 || |value| <= startIndex) ==> r == Err(ArgumentOutOfRange)
    ensures 0 <= startIndex < |value| < startIndex + 4 ==> r == Err(Argument)
  {
    if startIndex < 0 || startIndex >= |value| then Err(ArgumentOutOfRange)
    else if startIndex > |value| - 4 then Err(Argument)
    else Ok(ToSigned(LittleEndian(value[startIndex..startIndex + 4])))
  }

  /**
   BitConverter.GetBytes(int) on a little-endian machine. BloomFilter.cs never
   calls it; it is the reference inverse that pins down what ToInt32 reads.
   */
  function GetBytes(x: int32): (w: seq<byte>)
    ensures |w| == 4
  {
    var u := ToUnsigned(x);
    [u % 0x100, u / 0x100 % 0x100, u / 0x1_0000 % 0x100, u / 0x100_0000]
  }

  /** Decoding the bytes of any int32 gives it back. */
  lemma ToInt32OfGetBytes(x: int32)
    ensures ToInt32(GetBytes(x), 0) == Ok(x)
  {
    var u := ToUnsigned(x);
    var w := GetBytes(x);
    assert w[0..4] == w;
    var q1 := u / 0x100;
    var q2 := q1 / 0x100;
    assert u == w[0] + 0x100 * q1;
    assert q1 == w[1] + 0x100 * q2;
    assert u / 0x1_0000 == q2;
    assert q2 == w[2] as int + 0x100 * w[3] as int by {
      assert u / 0x100_0000 == q2 / 0x100;
    }
    assert LittleEndian(w) == u;
  }

  /** Encoding the value read from any four bytes gives the bytes back. */
  lemma GetBytesOfToInt32(value: seq<byte>, startIndex: int)
    requires 0 <= startIndex && startIndex + 4 <= |value|
    ensures ToInt32(value, startIndex).Ok?
    ensures GetBytes(ToInt32(value, startIndex).value) == value[startIndex..startIndex + 4]
  {
  }

  /** Exactly one window of four bytes reads as int.MinValue. */
  lemma ToInt32IsMinValue(value: seq<byte>, startIndex: int)
    requires 0 <= startIndex && startIndex + 4 <= |value|
    ensures ToInt32(value, startIndex) == Ok(Int32Min)
        <==> value[startIndex..startIndex + 4] == MinValueBytes
  {
  }

  /**
   Math.Abs(int): the magnitude of its argument, throwing OverflowException
   for int.MinValue, whose magnitude is not an int32.
   */
  function Abs(x: int32): (r: Result<int32>)
    ensures r.Err? <==> x == Int32Min
    ensures r.Err? ==> r.error == Overflow
    ensures r.Ok? ==> 0 <= r.value && (r.value == x || r.value == -x)
  {
    if x == Int32Min then Err(Overflow)
    else if x < 0 then Ok(-x)
    else Ok(x)
  }

  /** `x++` on an int in C#'s default unchecked context: addition modulo two to the 32. */
  function UncheckedIncrement(x: int32): (r: int32)
    ensures (r - (x + 1)) % TwoTo32 == 0
    ensures x < Int32Max ==> r == x + 1
  {
    if x == Int32Max then Int32Min else x + 1
  }
}
