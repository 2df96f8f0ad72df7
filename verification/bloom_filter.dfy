/**
 The Bloom filter: a fixed-length bit array and a counter of insertions that
 changed it. A key is mapped to K bit positions read from one SHA-256 digest of
 the key; Put sets those bits and MightContain tests them.

 Each operation is a pure function from the filter's state to its next state
 (or to an answer). The `async`/`await` and the `lock` around the bit array are
 not modelled: every call is one atomic, sequential step. A call that throws in
 the source returns `Err` here and leaves the filter as it was.
 */
module Bloom {
  import opened Runtime

  /** The number of hash functions, i.e. of bit positions per key. */
  const K: nat := 5

  /** The length in bytes of a SHA-256 digest. */
  const DigestLength: nat := 32

  type Digest = d: seq<byte> | |d| == DigestLength witness seq(32, _ => 0)

  /**
   SHA-256 of the UTF-8 encoding of a key. The filter only needs it to be a
   deterministic function of the key, so it is a parameter of every operation.
   */
  type Hasher = string -> Digest

  /** The filter's state: `capacity` bits and the insertion counter `size`. */
  datatype Filter = Filter(capacity: int32, bits: seq<bool>, size: int32)

  /** The shape every constructed filter has: one bit per unit of capacity. */
  predicate WellFormed(f: Filter) {
    0 <= f.capacity && |f.bits| == f.capacity as int
  }

  /** The number of set bits. */
  function CountSet(bits: seq<bool>): (n: nat)
    ensures n <= |bits|
  {
    if bits == [] then 0 else (if bits[0] then 1 else 0) + CountSet(bits[1..])
  }

  /**
   The invariant every reachable filter keeps: each counted insertion set at
   least one bit no earlier insertion had set, so `size` never exceeds the
   number of set bits (and hence never exceeds `capacity`).
   */
  predicate Valid(f: Filter) {
    WellFormed(f) && 0 <= f.size as int <= CountSet(f.bits)
  }

  /**
   The constructor `BloomFilter(int capacity)`: `new BitArray(capacity)` throws
   for a negative capacity and otherwise gives `capacity` cleared bits.
   A capacity of zero is accepted here; it is Put and MightContain that then
   fail, dividing by zero, or with Overflow when the key's first window reads
   int.MinValue, since Hash runs before the `% capacity`.
   */
  function New(capacity: int32): (r: Result<Filter>)
    ensures r.Err? <==> capacity < 0
    ensures r.Err? ==> r.error == ArgumentOutOfRange
    ensures r.Ok? ==> Valid(r.value) && r.value.capacity == capacity && r.value.size == 0
    ensures r.Ok? ==> forall i :: 0 <= i < |r.value.bits| ==> !r.value.bits[i]
  {
    if capacity < 0 then Err(ArgumentOutOfRange)
    else Ok(Filter(capacity, seq(capacity, _ => false), 0))
  }

  /** The four digest bytes hash function `k` reads, when they exist. */
  function Window(d: Digest, k: nat): seq<byte>
    requires k + 4 <= DigestLength
  {
    d[k..k + 4]
  }

  /** Whether hash function `k` hits Math.Abs(int.MinValue) on this digest. */
  predicate AbsOverflows(d: Digest, k: nat)
    requires k + 4 <= DigestLength
  {
    Window(d, k) == MinValueBytes
  }

  /** Whether all K hash functions of the key avoid Math.Abs(int.MinValue). */
  predicate Hashable(h: Hasher, key: string) {
    forall k: nat :: k < K ==> !AbsOverflows(h(key), k)
  }

  /** The magnitude of the signed little-endian number in window `k`, as plain arithmetic. */
  function WindowMagnitude(d: Digest, k: nat): (n: nat)
    requires k + 4 <= DigestLength
  {
    var x: int := ToSigned(LittleEndian(Window(d, k)));
    if x < 0 then -x else x
  }

  /**
   `Hash(key, hashFuncIndex)`: the absolute value of the int32 read from the
   key's digest at byte offset `hashFuncIndex`. The K windows overlap.
   */
  function Hash(h: Hasher, key: string, hashFuncIndex: int): (r: Result<int32>)
    ensures r.Ok? <==> 0 <= hashFuncIndex && hashFuncIndex + 4 <= DigestLength
                       && !AbsOverflows(h(key), hashFuncIndex)
    ensures (0 <= hashFuncIndex && hashFuncIndex + 4 <= DigestLength
             && AbsOverflows(h(key), hashFuncIndex)) ==> r == Err(Overflow)
    ensures r.Ok? ==> 0 <= r.value && r.value as int == WindowMagnitude(h(key), hashFuncIndex)
  {
    var digest := h(key);
    match ToInt32(digest, hashFuncIndex)
    case Err(e) => Err(e)
    case Ok(x) =>
      ToInt32IsMinValue(digest, hashFuncIndex);
      Abs(x)
  }

  /** The bit position hash function `k` picks: its window's magnitude reduced modulo the capacity. */
  function BitIndex(d: Digest, k: nat, capacity: int): (i: nat)
    requires k + 4 <= DigestLength && capacity > 0
    ensures i < capacity
  {
    WindowMagnitude(d, k) % capacity
  }

  /** Whether none of hash functions `k` to K - 1 hits Math.Abs(int.MinValue). */
  predicate HashableFrom(d: Digest, k: nat)
    requires k <= K
  {
    forall j: nat :: k <= j < K ==> !AbsOverflows(d, j)
  }

  /**
   The loop of GetHashIndices from hash function `k` on: each index is
   `Hash(key, k) % capacity`, and the first exception ends the loop.
   With a non-negative `Hash` and a positive capacity, C#'s `%` and Dafny's
   agree.
   */
  function IndicesFrom(h: Hasher, key: string, capacity: int32, k: nat): (r: Result<seq<int>>)
    requires 0 <= capacity && k <= K
    ensures r.Ok? <==> (k == K || capacity > 0) && HashableFrom(h(key), k)
    ensures r.Ok? ==> |r.value| == K - k
    ensures r.Ok? ==> forall j :: 0 <= j < |r.value| ==>
                        r.value[j] == BitIndex(h(key), k + j, capacity as int)
    ensures r.Err? ==> r.error == Overflow || r.error == DivideByZero
    decreases K - k
  {
    if k == K then Ok([])
    else
      assert HashableFrom(h(key), k) <==> !AbsOverflows(h(key), k) && HashableFrom(h(key), k + 1);
      match Hash(h, key, k)
      case Err(e) => Err(e)
      case Ok(n) =>
        if capacity == 0 then Err(DivideByZero)
        else match IndicesFrom(h, key, capacity, k + 1)
          case Err(e) => Err(e)
          case Ok(rest) =>
            var indices := [n % capacity] + rest;
            assert indices[0] == BitIndex(h(key), k, capacity as int);
            assert forall j :: 1 <= j < |indices| ==> indices[j] == rest[j - 1];
            Ok(indices)
  }

  /**
   `GetHashIndices(key)`: the key's K bit positions, each in [0, capacity),
   index `k` read from digest bytes k..k+3. It throws OverflowException when
   some window reads int.MinValue, and DivideByZeroException for a zero
   capacity (unless window 0 overflows first).
   */
  function GetHashIndices(h: Hasher, key: string, capacity: int32): (r: Result<seq<int>>)
    requires 0 <= capacity
    ensures r.Ok? <==> capacity > 0 && Hashable(h, key)
    ensures r.Ok? ==> |r.value| == K
    ensures r.Ok? ==> forall j :: 0 <= j < K ==> 0 <= r.value[j] < capacity as int
    ensures r.Ok? ==> forall j :: 0 <= j < K ==> r.value[j] == BitIndex(h(key), j, capacity as int)
    ensures r.Err? && capacity > 0 ==> r.error == Overflow
    ensures capacity == 0 ==> r == Err(if AbsOverflows(h(key), 0) then Overflow else DivideByZero)
  {
    IndicesFrom(h, key, capacity, 0)
  }

  /** Whether every bit at the given positions is set. */
  predicate AllSet(bits: seq<bool>, indices: seq<int>)
    requires forall j :: 0 <= j < |indices| ==> 0 <= indices[j] < |bits|
  {
    forall j :: 0 <= j < |indices| ==> bits[indices[j]]
  }

  /**
   The `foreach` of Put from some point on: sets each bit in turn and records
   whether any of them was clear when it was read.
   */
  function SetBits(bits: seq<bool>, indices: seq<int>, changed: bool): (r: (seq<bool>, bool))
    requires forall j :: 0 <= j < |indices| ==> 0 <= indices[j] < |bits|
    ensures |r.0| == |bits|
    ensures forall i :: 0 <= i < |bits| ==> r.0[i] == (bits[i] || i in indices)
    ensures r.1 == (changed || !AllSet(bits, indices))
    decreases |indices|
  {
    if indices == [] then (bits, changed)
    else
      var i := indices[0];
      var r := SetBits(bits[i := true], indices[1..], changed || !bits[i]);
      assert forall p :: p in indices <==> p == i || p in indices[1..];
      assert AllSet(bits, indices) <==> bits[i] && AllSet(bits[i := true], indices[1..]);
      r
  }

  /**
   `Put(key)`: sets the key's K bits and increments `size` (unchecked) once,
   and only if at least one of those bits was clear.
   */
  function Put(f: Filter, h: Hasher, key: string): (r: Result<Filter>)
    requires WellFormed(f)
    ensures r.Ok? <==> f.capacity > 0 && Hashable(h, key)
    ensures r.Err? ==> r.error == GetHashIndices(h, key, f.capacity).error
    ensures r.Ok? ==> WellFormed(r.value) && r.value.capacity == f.capacity
    ensures r.Ok? ==> var indices := GetHashIndices(h, key, f.capacity).value;
      && (forall i :: 0 <= i < |f.bits| ==> r.value.bits[i] == (f.bits[i] || i in indices))
      && r.value.size == if AllSet(f.bits, indices) then f.size else UncheckedIncrement(f.size)
  {
    match GetHashIndices(h, key, f.capacity)
    case Err(e) => Err(e)
    case Ok(indices) =>
      var (bits, changed) := SetBits(f.bits, indices, false);
      Ok(f.(bits := bits, size := if changed then UncheckedIncrement(f.size) else f.size))
  }

  /** The short-circuiting `foreach` of MightContain: false at the first clear bit. */
  function Probe(bits: seq<bool>, indices: seq<int>): (r: bool)
    requires forall j :: 0 <= j < |indices| ==> 0 <= indices[j] < |bits|
    ensures r <==> AllSet(bits, indices)
    decreases |indices|
  {
    if indices == [] then true
    else if !bits[indices[0]] then false
    else
      var r := Probe(bits, indices[1..]);
      assert AllSet(bits, indices) <==> AllSet(bits, indices[1..]);
      r
  }

  /**
   `MightContain(key)`: false exactly when one of the key's K bits is clear.
   It throws where Put does.
   */
  function MightContain(f: Filter, h: Hasher, key: string): (r: Result<bool>)
    requires WellFormed(f)
    ensures r.Ok? <==> f.capacity > 0 && Hashable(h, key)
    ensures r.Err? ==> r.error == GetHashIndices(h, key, f.capacity).error
    ensures r.Ok? ==> var indices := GetHashIndices(h, key, f.capacity).value;
      (r.value <==> forall j :: 0 <= j < K ==> f.bits[indices[j]])
  {
    match GetHashIndices(h, key, f.capacity)
    case Err(e) => Err(e)
    case Ok(indices) => Ok(Probe(f.bits, indices))
  }
}
