/**
 Properties of sequences of Bloom filter operations: the counter never wraps,
 bits are never cleared, insertion is idempotent, and there are no false
 negatives whatever the order of insertion.
 */
module BloomProperties {
  import opened Runtime
  import opened Bloom

  /** `g` has the same shape as `f` and every bit set in `f` is set in `g`. */
  predicate Extends(f: Filter, g: Filter) {
    && f.capacity == g.capacity
    && |f.bits| == |g.bits|
    && forall i :: 0 <= i < |f.bits| ==> f.bits[i] ==> g.bits[i]
  }

  /** Whether bit `i` is one of the key's K positions in a filter of this capacity. */
  predicate Covers(h: Hasher, key: string, capacity: int32, i: int)
    requires 0 <= capacity
  {
    var indices := GetHashIndices(h, key, capacity);
    indices.Ok? && i in indices.value
  }

  /** Whether every key of the sequence avoids Math.Abs(int.MinValue) in all K hash functions. */
  predicate AllHashable(h: Hasher, keys: seq<string>) {
    forall k :: k in keys ==> Hashable(h, k)
  }

  /** Setting bits never lowers the number of set bits, and setting a clear one raises it. */
  lemma {:induction false} CountSetGrows(a: seq<bool>, b: seq<bool>)
    requires |a| == |b|
    requires forall i :: 0 <= i < |a| ==> a[i] ==> b[i]
    ensures CountSet(a) <= CountSet(b)
    ensures (exists i :: 0 <= i < |a| && !a[i] && b[i]) ==> CountSet(a) < CountSet(b)
    decreases |a|
  {
    if a != [] {
      CountSetGrows(a[1..], b[1..]);
      if exists i :: 0 <= i < |a| && !a[i] && b[i] {
        var i :| 0 <= i < |a| && !a[i] && b[i];
        if i > 0 {
          assert !a[1..][i - 1] && b[1..][i - 1];
        }
      }
    }
  }

  /**
   Put keeps the invariant, never clears a bit, and raises `size` by exactly
   one when some bit of the key was clear and leaves it alone otherwise; in
   particular the unchecked `size++` never wraps around.
   */
  lemma PutKeepsValid(f: Filter, h: Hasher, key: string)
    requires Valid(f) && f.capacity > 0 && Hashable(h, key)
    ensures Put(f, h, key).Ok?
    ensures var g := Put(f, h, key).value;
      && Valid(g)
      && Extends(f, g)
      && g.size as int == f.size as int + (if MightContain(f, h, key) == Ok(true) then 0 else 1)
  {
    var g := Put(f, h, key).value;
    var indices := GetHashIndices(h, key, f.capacity).value;
    CountSetGrows(f.bits, g.bits);
    if !AllSet(f.bits, indices) {
      var j :| 0 <= j < K && !f.bits[indices[j]];
      assert !f.bits[indices[j]] && g.bits[indices[j]];
      assert g.size == UncheckedIncrement(f.size);
    }
  }

  /** A key just put is reported as possibly contained. */
  lemma PutThenContains(f: Filter, h: Hasher, key: string)
    requires WellFormed(f) && f.capacity > 0 && Hashable(h, key)
    ensures Put(f, h, key).Ok?
    ensures MightContain(Put(f, h, key).value, h, key) == Ok(true)
  {
  }

  /** Setting more bits never turns a positive answer into a negative one. */
  lemma ContainsMonotone(f: Filter, g: Filter, h: Hasher, key: string)
    requires WellFormed(f) && WellFormed(g) && Extends(f, g)
    ensures MightContain(f, h, key) == Ok(true) ==> MightContain(g, h, key) == Ok(true)
  {
  }

  /** Put changes nothing, bits or counter, exactly when the key is already reported present. */
  lemma PutUnchangedIff(f: Filter, h: Hasher, key: string)
    requires WellFormed(f)
    ensures Put(f, h, key) == Ok(f) <==> MightContain(f, h, key) == Ok(true)
  {
    if Put(f, h, key) == Ok(f) {
      PutThenContains(f, h, key);
    }
    if MightContain(f, h, key) == Ok(true) {
      var g := Put(f, h, key).value;
      var indices := GetHashIndices(h, key, f.capacity).value;
      forall i | 0 <= i < |f.bits|
        ensures g.bits[i] == f.bits[i]
      {
        if i in indices {
          var j :| 0 <= j < K && indices[j] == i;
        }
      }
      assert g.bits == f.bits;
    }
  }

  /** Putting the same key twice is the same as putting it once. */
  lemma PutIdempotent(f: Filter, h: Hasher, key: string)
    requires WellFormed(f) && f.capacity > 0 && Hashable(h, key)
    ensures Put(f, h, key).Ok?
    ensures Put(Put(f, h, key).value, h, key) == Put(f, h, key)
  {
    var g := Put(f, h, key).value;
    PutThenContains(f, h, key);
    PutUnchangedIff(g, h, key);
  }

  /** A sequence of Put calls, stopping at the first exception. */
  function PutAll(f: Filter, h: Hasher, keys: seq<string>): (r: Result<Filter>)
    requires WellFormed(f)
    ensures r.Ok? <==> (keys == [] || f.capacity > 0) && AllHashable(h, keys)
    ensures r.Ok? ==> WellFormed(r.value) && Extends(f, r.value)
    decreases |keys|
  {
    if keys == [] then Ok(f)
    else match Put(f, h, keys[0])
      case Err(e) => Err(e)
      case Ok(g) =>
        var r := PutAll(g, h, keys[1..]);
        assert forall k :: k in keys <==> k == keys[0] || k in keys[1..];
        r
  }

  /**
   After a sequence of puts, a bit is set exactly when it was set before or is
   one of the positions of some key put, so the bits depend only on the set of
   keys, not on their order or repetitions.
   */
  lemma {:induction false} PutAllBits(f: Filter, h: Hasher, keys: seq<string>, i: int)
    requires WellFormed(f) && f.capacity > 0 && AllHashable(h, keys) && 0 <= i < |f.bits|
    ensures PutAll(f, h, keys).Ok?
    ensures PutAll(f, h, keys).value.bits[i]
        <==> f.bits[i] || exists key :: key in keys && Covers(h, key, f.capacity, i)
    decreases |keys|
  {
    if keys != [] {
      var g := Put(f, h, keys[0]).value;
      PutAllBits(g, h, keys[1..], i);
      assert g.bits[i] <==> f.bits[i] || Covers(h, keys[0], f.capacity, i);
      if exists key :: key in keys[1..] && Covers(h, key, f.capacity, i) {
        var key :| key in keys[1..] && Covers(h, key, f.capacity, i);
        assert key in keys;
      }
      if exists key :: key in keys && Covers(h, key, f.capacity, i) {
        var key :| key in keys && Covers(h, key, f.capacity, i);
        assert key == keys[0] || key in keys[1..];
      }
    }
  }

  /** No false negatives: every key of a successful sequence of puts is reported present. */
  lemma {:induction false} NoFalseNegatives(f: Filter, h: Hasher, keys: seq<string>, key: string)
    requires WellFormed(f) && f.capacity > 0 && AllHashable(h, keys)
    requires key in keys
    ensures PutAll(f, h, keys).Ok?
    ensures MightContain(PutAll(f, h, keys).value, h, key) == Ok(true)
    decreases |keys|
  {
    var g := Put(f, h, keys[0]).value;
    if key == keys[0] {
      PutThenContains(f, h, key);
      ContainsMonotone(g, PutAll(g, h, keys[1..]).value, h, key);
      assert PutAll(f, h, keys) == PutAll(g, h, keys[1..]);
    } else {
      NoFalseNegatives(g, h, keys[1..], key);
    }
  }

  /**
   Two sequences holding the same keys, in any order and with any repetitions,
   either both fail or leave the same bits, so every query answers alike.
   */
  lemma InsertionOrderIrrelevant(f: Filter, h: Hasher, keys1: seq<string>, keys2: seq<string>)
    requires WellFormed(f)
    requires forall k :: k in keys1 <==> k in keys2
    ensures PutAll(f, h, keys1).Ok? <==> PutAll(f, h, keys2).Ok?
    ensures PutAll(f, h, keys1).Ok? ==> PutAll(f, h, keys1).value.bits == PutAll(f, h, keys2).value.bits
  {
    assert keys1 == [] <==> keys2 == [] by {
      if keys1 != [] {
        assert keys1[0] in keys2;
      }
      if keys2 != [] {
        assert keys2[0] in keys1;
      }
    }
    assert AllHashable(h, keys1) <==> AllHashable(h, keys2);
    if keys1 != [] && f.capacity > 0 && AllHashable(h, keys1) {
      var b1, b2 := PutAll(f, h, keys1).value.bits, PutAll(f, h, keys2).value.bits;
      forall i | 0 <= i < |f.bits|
        ensures b1[i] == b2[i]
      {
        PutAllBits(f, h, keys1, i);
        PutAllBits(f, h, keys2, i);
      }
      assert b1 == b2;
    }
  }

  /** Over a sequence of puts the invariant holds and `size` grows by at most one per call. */
  lemma {:induction false} PutAllKeepsValid(f: Filter, h: Hasher, keys: seq<string>)
    requires Valid(f) && f.capacity > 0 && AllHashable(h, keys)
    ensures PutAll(f, h, keys).Ok?
    ensures var g := PutAll(f, h, keys).value;
      Valid(g) && f.size <= g.size && g.size as int <= f.size as int + |keys|
    decreases |keys|
  {
    if keys != [] {
      PutKeepsValid(f, h, keys[0]);
      PutAllKeepsValid(Put(f, h, keys[0]).value, h, keys[1..]);
    }
  }

  /** A fresh filter reports no key as present. */
  lemma NewContainsNothing(capacity: int32, h: Hasher, key: string)
    requires New(capacity).Ok?
    ensures MightContain(New(capacity).value, h, key) != Ok(true)
  {
  }

  /**
   A filter of capacity zero is constructed, but every Put and MightContain on
   it throws: DivideByZero, or Overflow when the key's first window reads
   int.MinValue, because the hash is taken before the `% capacity`.
   */
  lemma ZeroCapacityFails(h: Hasher, key: string)
    ensures New(0).Ok?
    ensures var e := if AbsOverflows(h(key), 0) then Overflow else DivideByZero;
      && Put(New(0).value, h, key) == Err(e)
      && MightContain(New(0).value, h, key) == Err(e)
  {
  }

  /** With a single bit, one put saturates the filter: every hashable key is then reported present. */
  lemma CapacityOneSaturates(f: Filter, h: Hasher, key: string, other: string)
    requires WellFormed(f) && f.capacity == 1 && Hashable(h, key) && Hashable(h, other)
    ensures Put(f, h, key).Ok?
    ensures MightContain(Put(f, h, key).value, h, other) == Ok(true)
  {
  }

  /**
   The demonstration driver's four puts into a filter of capacity 50, each
   taken to complete before the next call: when no key's digest hits
   Math.Abs(int.MinValue), "first ke" is reported present, the repeated
   "first key" is not counted a second time, and the first put into the empty
   filter is always counted.
   */
  lemma DemoScenario(h: Hasher)
    requires Hashable(h, "first key") && Hashable(h, "ok next key") && Hashable(h, "first ke")
    ensures New(50).Ok?
    ensures var f0 := New(50).value;
      && Put(f0, h, "first key").Ok?
      && var f1 := Put(f0, h, "first key").value;
      && Put(f1, h, "ok next key").Ok?
      && var f2 := Put(f1, h, "ok next key").value;
      && Put(f2, h, "first ke").Ok?
      && var f3 := Put(f2, h, "first ke").value;
      && Put(f3, h, "first key") == Ok(f3)
      && MightContain(f3, h, "first ke") == Ok(true)
      && 1 <= f3.size <= 3
  {
    var f0 := New(50).value;
    var f1 := Put(f0, h, "first key").value;
    var f2 := Put(f1, h, "ok next key").value;
    var f3 := Put(f2, h, "first ke").value;
    NewContainsNothing(50, h, "first key");
    PutKeepsValid(f0, h, "first key");
    PutKeepsValid(f1, h, "ok next key");
    PutKeepsValid(f2, h, "first ke");
    PutThenContains(f0, h, "first key");
    ContainsMonotone(f1, f2, h, "first key");
    ContainsMonotone(f2, f3, h, "first key");
    PutUnchangedIff(f3, h, "first key");
    PutThenContains(f2, h, "first ke");
  }
}
