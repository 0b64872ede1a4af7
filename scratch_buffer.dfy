/** The growable output buffer the writer appends to. It rents an array from a
    shared pool, keeps a count of the bytes written so far, and on growth rents
    a larger array, copies the old contents across and returns the old array
    to the pool. `Span()` is the written prefix. */
module ScratchBuffers {
  import opened Bytes
  import opened Results

  /** The capacity of the first array rented when nothing has been rented yet. */
  const DefaultCapacity: nat := 64

  /** The pool's Rent: some array at least as long as requested (a pool may
      hand out a longer one), not in use by anyone else. */
  method Rent(size: nat) returns (a: array<byte>)
    ensures fresh(a) && a.Length >= size
  {
    a := new byte[size];
  }

  /** The capacity growth asks for when `capacity` does not fit, in C# `int`
      arithmetic: double the current capacity (or the default when empty),
      unless that is still too small as a `uint`, in which case exactly what
      was asked for. From 2^30 bytes on the doubling wraps to a negative `int`,
      which as a `uint` is never too small, so the negative value is returned. */
  function GetNewCapacity(current: nat, capacity: int): (r: int)
    requires current < capacity < 0x8000_0000
    ensures current < 0x4000_0000 ==> r >= capacity
    ensures current == 0 ==> r >= DefaultCapacity
    ensures 0 < current < 0x4000_0000 ==> r >= 2 * current
    ensures current < 0x4000_0000 ==> r == capacity || r == (if current == 0 then DefaultCapacity else 2 * current)
    ensures 0x4000_0000 <= current ==> r < 0
  {
    Pow256Values();
    var newCapacity := if current == 0 then DefaultCapacity as int else WrapInt32(current * 2);
    if ToUnsigned(newCapacity, 4) < ToUnsigned(capacity, 4) then capacity else newCapacity
  }

  /** A buffer of 2^30 bytes cannot grow by one more: the doubled capacity
      wraps to `int.MinValue`, which the pool refuses. */
  lemma GrowthWrapsAtOneGiB()
    ensures GetNewCapacity(0x4000_0000, 0x4000_0001) == -0x8000_0000
  {
    Pow256Values();
    assert WrapInt32(0x8000_0000) == -0x8000_0000;
  }

  class ScratchBuffer {
    var rented: array?<byte>
    var count: int
    /** Arrays handed back to the pool; the buffer never writes to them again. */
    ghost var released: set<array<byte>>

    ghost predicate Valid()
      reads this
    {
      && (rented == null ==> count == 0)
      && (rented != null ==> 0 <= count <= rented.Length && rented !in released)
    }

    function Capacity(): (c: nat)
      reads this
      ensures rented != null ==> c == rented.Length
      ensures rented == null ==> c == 0
    {
      if rented == null then 0 else rented.Length
    }

    /** The bytes written so far. */
    function Span(): (s: seq<byte>)
      reads this, rented
      requires Valid()
      ensures |s| == count
      ensures rented != null ==> s == rented[..count]
    {
      if count == 0 then [] else rented[..count]
    }

    /** An empty buffer that has rented nothing yet. */
    constructor ()
      ensures Valid() && rented == null && count == 0 && released == {}
      ensures Span() == [] && Capacity() == 0
    {
      rented := null;
      count := 0;
      released := {};
    }

    /** An empty buffer over a rented array of at least `capacity` bytes. */
    constructor WithCapacity(capacity: nat)
      ensures Valid() && fresh(rented) && Capacity() >= capacity
      ensures count == 0 && Span() == [] && released == {}
    {
      var a := Rent(capacity);
      rented := a;
      count := 0;
      released := {};
    }

    /** The Count setter: it may only move forward, up to the capacity, and
      refuses (ArgumentOutOfRange) otherwise. Moving it forward commits the
      bytes already stored past the old count. */
    method SetCount(value: int) returns (ok: bool)
      requires Valid()
      modifies this`count
      ensures Valid()
      ensures ok <==> rented != null && old(count) <= value <= rented.Length
      ensures count == if ok then value else old(count)
      ensures ok ==> Span() == old(Span()) + rented[old(count)..value]
    {
      ok := rented != null && count <= value <= rented.Length;
      if ok {
        count := value;
      }
    }

    /** Append one byte, growing when full. */
    method Add(value: byte)
      requires Valid()
      modifies this, rented
      ensures Valid() && Span() == old(Span()) + [value]
      ensures rented == old(rented) || fresh(rented)
      ensures Capacity() >= old(Capacity())
      ensures released >= old(released)
    {
      var c := count;
      if c < Capacity() {
        var ok := SetCount(c + 1);
        rented[c] := value;
      } else {
        AddSlow(value);
      }
    }

    method AddSlow(value: byte)
      requires Valid()
      modifies this, rented
      ensures Valid() && Span() == old(Span()) + [value]
      ensures rented == old(rented) || fresh(rented)
      ensures Capacity() >= old(Capacity())
      ensures released >= old(released)
    {
      EnsureCapacity(count + 1);
      var c := count;
      var ok := SetCount(c + 1);
      rented[c] := value;
    }

    /** Append a run of bytes, growing at most once. */
    method AddRange(span: seq<byte>)
      requires Valid()
      modifies this, rented
      ensures Valid() && Span() == old(Span()) + span
      ensures rented == old(rented) || fresh(rented)
      ensures released >= old(released)
    {
      var start := GetAppendSpan(|span|);
      forall i | 0 <= i < |span| {
        rented[start + i] := span[i];
      }
      assert rented != null ==> rented[..start] == old(Span()) && rented[start..start + |span|] == span;
      var ok := SetCount(count + |span|);
    }

    /** Make room for `size` more bytes and give the position where they go;
      the caller stores them and then advances the count. Nothing written is
      disturbed. */
    method GetAppendSpan(size: nat) returns (start: nat)
      requires Valid()
      modifies this
      ensures Valid() && start == count == old(count) && start + size <= Capacity()
      ensures Span() == old(Span())
      ensures rented == old(rented) || fresh(rented)
      ensures Capacity() >= old(Capacity())
      ensures released >= old(released)
    {
      EnsureCapacity(count + size);
      start := count;
    }

    /** Grow until at least `capacity` bytes fit; an array that already fits
      is kept, and a growth rents what GetNewCapacity asks for. Where the
      source's growth fails (the doubling wrapped negative, or the request is
      beyond an `int`) the model rents exactly the requested size. */
    method EnsureCapacity(capacity: int)
      requires Valid()
      modifies this
      ensures Valid() && count == old(count) && Span() == old(Span())
      ensures Capacity() >= capacity && Capacity() >= old(Capacity())
      ensures old(Capacity()) >= capacity ==> rented == old(rented)
      ensures old(Capacity()) < capacity < 0x8000_0000 && old(Capacity()) < 0x4000_0000 ==>
        Capacity() >= GetNewCapacity(old(Capacity()), capacity)
      ensures rented == old(rented) || fresh(rented)
      ensures released >= old(released)
    {
      if Capacity() < capacity {
        var newSize := capacity;
        if capacity < 0x8000_0000 {
          var n := GetNewCapacity(Capacity(), capacity);
          if n >= capacity {
            newSize := n;
          }
        }
        Grow(newSize);
      }
    }

    /** Rent an array of at least `newSize` bytes, copy the whole old array
      into it and return the old one to the pool. */
    method Grow(newSize: nat)
      requires Valid() && newSize >= Capacity()
      modifies this
      ensures Valid() && fresh(rented) && rented.Length >= newSize
      ensures count == old(count) && Span() == old(Span())
      ensures old(rented) != null ==> rented[..old(rented.Length)] == old(rented[..])
      ensures released == old(released) + (if old(rented) == null then {} else {old(rented)})
    {
      var newArray := Rent(newSize);
      if rented != null {
        forall i | 0 <= i < rented.Length {
          newArray[i] := rented[i];
        }
        released := released + {rented};
      }
      rented := newArray;
    }

    /** Forget the contents, keeping the rented array. */
    method Clear()
      requires Valid()
      modifies this`count
      ensures Valid() && Span() == [] && count == 0
    {
      count := 0;
    }

    /** Return the rented array to the pool and become empty. A second
      Dispose returns nothing more. */
    method Dispose()
      requires Valid()
      modifies this
      ensures Valid() && rented == null && count == 0 && Span() == []
      ensures released == old(released) + (if old(rented) == null then {} else {old(rented)})
    {
      if rented != null {
        released := released + {rented};
      }
      rented := null;
      count := 0;
    }
  }

  /** Across one call the buffer stayed valid and only grew at its end: the
      bytes written before are still its prefix, and any array it now holds
      is either the same one or newly rented. */
  twostate predicate Extended(b: ScratchBuffer)
    reads b, b.rented
  {
    && old(b.Valid()) && b.Valid()
    && old(b.Span()) <= b.Span()
    && (b.rented == old(b.rented) || fresh(b.rented))
  }

  /** One call appended exactly `bytes` to the buffer. */
  twostate predicate Appended(b: ScratchBuffer, bytes: seq<byte>)
    reads b, b.rented
  {
    Extended(b) && b.Span() == old(b.Span()) + bytes
  }

  /** The contents `after` a write that started from `before`, returned `r`
      and was meant to produce `expected`: on success exactly the expected
      bytes were appended; on failure the write raised the expected error,
      possibly after appending part of its output. */
  predicate Wrote(before: seq<byte>, after: seq<byte>, r: Result<()>, expected: Result<seq<byte>>)
  {
    && before <= after
    && (r.Ok? <==> expected.Ok?)
    && (expected.Ok? ==> after == before + expected.value)
    && (expected.Err? ==> r == Err(expected.error))
  }

  /** Two writes in a row: the first succeeded, so together they wrote what
      both meant to, or failed as the second did. */
  lemma WroteBoth(s0: seq<byte>, s1: seq<byte>, s2: seq<byte>, first: seq<byte>,
                  r: Result<()>, second: Result<seq<byte>>)
    requires Wrote(s0, s1, Ok(()), Ok(first)) && Wrote(s1, s2, r, second)
    ensures Wrote(s0, s2, r, if second.Ok? then Ok(first + second.value) else second)
  {
  }

  /** A write, through the buffer, that returned `r` and was meant to produce
      `expected` (see Wrote). */
  twostate predicate Emitted(b: ScratchBuffer, new r: Result<()>, new expected: Result<seq<byte>>)
    reads b, b.rented
  {
    && old(b.Valid()) && b.Valid()
    && (b.rented == old(b.rented) || fresh(b.rented))
    && Wrote(old(b.Span()), b.Span(), r, expected)
  }
}
