# Bloom filter model

A Dafny model of the Bloom filter in `BloomFilter.cs` (namespace `Bloom`). The
filter is a fixed-length bit array plus an insertion counter `size`. A key is
mapped to K = 5 bit positions. The positions come from one SHA-256 digest of the
key's UTF-8 bytes. Position `k` reads digest bytes `k..k+3` as a little-endian
signed 32-bit integer, takes `Math.Abs` and reduces it modulo `capacity`.
`Put` sets the key's bits. It increments `size` once, and only if one of those
bits was clear. `MightContain` answers false as soon as one of the key's bits is
clear.

The model has three modules:

- `Runtime` (`runtime.dfy`) covers the .NET pieces the filter leans on. These are
  `int` as a 32-bit range, the exceptions, `BitConverter.ToInt32` with its two
  argument checks, `Math.Abs` and the unchecked `++`.
- `Bloom` (`bloom_filter.dfy`) holds the filter state and its operations. Each
  operation is a pure function that returns a `Result`. An exception in the source
  is an `Err`, and the filter is left as it was.
- `BloomProperties` (`bloom_properties.dfy`) holds properties of sequences of
  calls. `PutAll` is a run of `Put` calls that stops at the first exception.

SHA-256 over UTF-8 is a parameter `h: Hasher` of every operation. It is any
deterministic function from a key to 32 bytes. Every proof holds for all such
functions.

On two points the model follows the code rather than a textbook Bloom filter:

- A capacity of zero is accepted by the constructor, because `new BitArray(0)`
  is legal. Only `Put` and `MightContain` then fail: with `DivideByZeroException`,
  or with `OverflowException` when the key's first window reads int.MinValue,
  since `Hash` runs before the `% capacity`.
  A negative capacity throws `ArgumentOutOfRangeException` in the constructor.
- A key is not always hashable. If any of its five overlapping windows holds the
  bytes `00 00 00 80` (that is, `int.MinValue`), then `Math.Abs` throws
  `OverflowException`. Both `Put` and `MightContain` then fail for that key.

## Model

| member | source | states |
|---|---|---|
| Runtime.ToInt32 | BloomFilter.cs:92 | `BitConverter.ToInt32` succeeds exactly when four bytes follow the start index. Otherwise it throws ArgumentOutOfRange for a start outside the array, or Argument for a short tail |
| Runtime.ToInt32OfGetBytes | BloomFilter.cs:92 | Reading back the little-endian bytes of any int32 gives the same int32 |
| Runtime.GetBytesOfToInt32 | BloomFilter.cs:92 | Any four-byte window decodes without error, and re-encoding the result gives the window back. So the decoding is a bijection |
| Runtime.ToInt32IsMinValue | BloomFilter.cs:92 | A window decodes to int.MinValue if and only if it is the bytes 00 00 00 80 |
| Runtime.Abs | BloomFilter.cs:92 | `Math.Abs` throws Overflow exactly for int.MinValue. Otherwise the result is non-negative and equal to x or -x |
| Runtime.UncheckedIncrement | BloomFilter.cs:47-48 | The unchecked `size++` is addition modulo 2^32, and it is plain +1 below int.MaxValue |
| Bloom.New | BloomFilter.cs:22-26 | The constructor fails with ArgumentOutOfRange exactly for a negative capacity. Otherwise it gives `capacity` cleared bits, `size == 0`, and a filter satisfying the invariant |
| Bloom.Hash | BloomFilter.cs:88-94 | `Hash(key, k)` succeeds exactly when bytes k..k+3 exist and are not 00 00 00 80. In that last case it throws Overflow. On success the result is the non-negative magnitude of the signed window |
| Bloom.BitIndex | BloomFilter.cs:83 | The position hash function k picks, its magnitude modulo the capacity, lies below the capacity |
| Bloom.IndicesFrom | BloomFilter.cs:80-84 | The loop from hash function k on yields K - k indices, the j-th being the position of hash function k + j. It succeeds iff no remaining window overflows and (when any remain) the capacity is positive. It fails only with Overflow or DivideByZero |
| Bloom.GetHashIndices | BloomFilter.cs:78-86 | There are exactly K = 5 indices, each in [0, capacity), index k coming from window k. Success holds iff capacity > 0 and no window is int.MinValue. A zero capacity gives DivideByZero unless window 0 overflows first |
| Bloom.SetBits | BloomFilter.cs:40-45 | After the loop, a bit is set iff it was set before or is one of the indices. The `changed` flag is true iff some index bit was clear beforehand |
| Bloom.Put | BloomFilter.cs:34-49 | Put fails exactly when hashing fails, with the same exception. On success the capacity is kept, the key's bits are set, all other bits are unchanged, and `size` is incremented once iff some key bit was clear |
| Bloom.Probe | BloomFilter.cs:62-66 | The short-circuiting loop returns true iff every index bit is set |
| Bloom.MightContain | BloomFilter.cs:59-67 | MightContain fails exactly when hashing fails. Otherwise it returns false iff some bit at the key's indices is clear |
| BloomProperties.CountSetGrows | BloomFilter.cs:37-48 | Setting bits never lowers the count of set bits. Setting a clear bit raises it, which is what lets a counted Put grow `size` |
| BloomProperties.PutKeepsValid | BloomFilter.cs:37-48 | Put keeps `size <= set bits <= capacity` and never clears a bit. `size` grows by exactly 1 when the key was not yet reported present and by 0 otherwise, so `size++` never wraps |
| BloomProperties.PutThenContains | BloomFilter.cs:40-66 | With a positive capacity and a hashable key, Put succeeds, and right after it MightContain of the same key returns true |
| BloomProperties.ContainsMonotone | BloomFilter.cs:59-67 | If a filter has at least the bits of another, a true answer in the smaller one stays true in the larger one |
| BloomProperties.PutUnchangedIff | BloomFilter.cs:37-48 | Put returns the filter unchanged (bits and `size`) iff MightContain already answered true |
| BloomProperties.PutIdempotent | BloomFilter.cs:37-48 | Putting the same key a second time changes neither bits nor `size` |
| BloomProperties.PutAll | BloomFilter.cs:34-49 | A run of puts succeeds iff the capacity is positive (or the run is empty) and every key is hashable. It keeps the shape and only sets bits |
| BloomProperties.PutAllBits | BloomFilter.cs:40-45 | After a run of puts, a bit is set iff it was set before or is an index of some key that was put |
| BloomProperties.NoFalseNegatives | BloomFilter.cs:40-66 | Every key of a successful run of puts is reported present afterwards, whatever came after it |
| BloomProperties.InsertionOrderIrrelevant | BloomFilter.cs:40-45 | Two runs over the same set of keys, in any order and with any repeats, both fail or leave identical bits |
| BloomProperties.PutAllKeepsValid | BloomFilter.cs:37-48 | Over a run of puts the invariant holds, and `size` grows by at most one per call |
| BloomProperties.ZeroCapacityFails | BloomFilter.cs:22-92 | A capacity-0 filter is constructed, but Put and MightContain on it both throw: DivideByZero, or Overflow when the key's first window reads int.MinValue, because `Hash` runs before the `% capacity` |
| BloomProperties.NewContainsNothing | BloomFilter.cs:22-26 | A freshly constructed filter never answers true |
| BloomProperties.CapacityOneSaturates | BloomFilter.cs:40-66 | With capacity 1, one successful Put makes every hashable key reported present |
| BloomProperties.DemoScenario | Program.cs:11-20 | With each Put completing before the next call, in the driver's four puts into a capacity-50 filter "first ke" is reported present, the repeated "first key" changes nothing, and `1 <= size <= 3`, the first put into the empty filter always being counted. This holds whenever the three keys are hashable |

## Left out

- `ExpectedFdr` (BloomFilter.cs:73-76) is left out because it is `Math.Pow` over doubles, i.e. floating-point numerics.
- SHA-256 and `Encoding.UTF8.GetBytes` (BloomFilter.cs:91) are foreign library calls. They are abstracted as the deterministic parameter `h`. Failures of the hash primitive itself are not modelled.
- `async`/`await`, `Task.Run` and `lock (bits)` are left out, and so is the race between concurrent unguarded `size++` (BloomFilter.cs:36-48, 61-66). Every call is one atomic sequential step.
- `Put` is `async void` (BloomFilter.cs:34) and the driver never waits for it (Program.cs:13-16). Each `Put` returns to its caller at its first `await`, before any bit is written, so in the source the driver's calls can overlap and a later `MightContain` can finish before an earlier `Put` has set its bits. The model, and `DemoScenario` with it, assumes each `Put` completes before the next call.
- A null key makes `Encoding.UTF8.GetBytes` throw `ArgumentNullException` (BloomFilter.cs:91), so `Put` and `MightContain` throw; and a C# string may hold lone UTF-16 surrogates, which the encoder replaces with U+FFFD. Neither is representable as a Dafny `string`, so both kinds of key are outside the model. No property depends on how such keys hash, since every proof holds for every `Hasher`.
- `async void Put` lets an exception escape to the runtime rather than to the caller. The model returns it as `Err`, and the filter state is unchanged. The state really is unchanged in the source too, since all indices are computed before any bit is written.
- `BitConverter.ToInt32` is modelled for a little-endian machine. A big-endian runtime would read the windows in the other byte order.
- `OutOfMemoryException` for huge capacities in `new BitArray` is not modelled.
- `Program.cs` console output is left out. The driver's calls appear only as `DemoScenario`, and its later `Put("first keys")` and queries are not modelled because their answers depend on the concrete SHA-256.
- BloomProperties.DemoScenario: it proves `1 <= size <= 3` rather than `size == 3`. Whether "ok next key" and "first ke" each set a new bit depends on the concrete SHA-256 values of all three keys, which are abstracted.
