/** Byte-level vocabulary shared by the writer and the reader: the ranges of the
    C# integer types, big-endian byte strings, and the reinterpretations that the
    C# casts between signed and unsigned integers perform. */
module Bytes {

  type byte = x: int | 0 <= x < 0x100
  type u16 = x: int | 0 <= x < 0x1_0000
  type u32 = x: int | 0 <= x < 0x1_0000_0000
  type u64 = x: int | 0 <= x < 0x1_0000_0000_0000_0000
  type i8 = x: int | -0x80 <= x < 0x80
  type i16 = x: int | -0x8000 <= x < 0x8000
  type i32 = x: int | -0x8000_0000 <= x < 0x8000_0000
  type i64 = x: int | -0x8000_0000_0000_0000 <= x < 0x8000_0000_0000_0000

  /** A length or count that a non-negative C# `int` can hold. */
  type len32 = x: int | 0 <= x < 0x8000_0000

  /** 256 to the power n: the number of values an n-byte field can hold. */
  function Pow256(n: nat): (r: nat)
    ensures r >= 1
    ensures n >= 1 ==> r >= 256
  {
    if n == 0 then 1 else 256 * Pow256(n - 1)
  }

  /** The widths the codec uses, spelled out. */
  lemma Pow256Values()
    ensures Pow256(0) == 1 && Pow256(1) == 0x100 && Pow256(2) == 0x1_0000
    ensures Pow256(4) == 0x1_0000_0000 && Pow256(8) == 0x1_0000_0000_0000_0000
  {
    assert Pow256(3) == 0x100_0000;
    assert Pow256(5) == 0x100_0000_0000;
    assert Pow256(6) == 0x1_0000_0000_0000;
    assert Pow256(7) == 0x100_0000_0000_0000;
  }

  /** `v >> (8 * k)` for a non-negative v: k whole-byte right shifts. */
  function ShiftRightBytes(v: nat, k: nat): nat
  {
    if k == 0 then v else ShiftRightBytes(v / 256, k - 1)
  }

  /** The n-byte big-endian representation of v, most significant byte first
      (what BinaryPrimitives.WriteUIntNBigEndian stores). */
  function BigEndian(v: nat, n: nat): (r: seq<byte>)
    requires v < Pow256(n)
    ensures |r| == n
  {
    if n == 0 then []
    else
      assert v / 256 < Pow256(n - 1) by { DivBound(v, Pow256(n - 1)); }
      BigEndian(v / 256, n - 1) + [v % 256]
  }

  /** The number a big-endian byte string stands for (BinaryPrimitives.ReadUIntNBigEndian). */
  function FromBigEndian(s: seq<byte>): (r: nat)
    ensures r < Pow256(|s|)
  {
    if s == [] then 0
    else
      var hi := FromBigEndian(s[..|s| - 1]);
      assert hi * 256 + s[|s| - 1] < Pow256(|s|) by { MulBound(hi, Pow256(|s| - 1)); }
      hi * 256 + s[|s| - 1]
  }

  lemma DivBound(v: nat, p: nat)
    requires v < 256 * p
    ensures v / 256 < p
  {
  }

  lemma MulBound(hi: nat, p: nat)
    requires hi < p
    ensures hi * 256 + 255 < 256 * p
  {
  }

  /** Reading back a big-endian field yields the number that was stored. */
  lemma {:induction false} FromBigEndianOfBigEndian(v: nat, n: nat)
    requires v < Pow256(n)
    ensures FromBigEndian(BigEndian(v, n)) == v
  {
    if n > 0 {
      DivBound(v, Pow256(n - 1));
      var s := BigEndian(v, n);
      assert s[..|s| - 1] == BigEndian(v / 256, n - 1);
      FromBigEndianOfBigEndian(v / 256, n - 1);
    }
  }

  /** Storing the number a byte string stands for gives back the same bytes:
      big-endian representation is a bijection between n-byte strings and [0, 256^n). */
  lemma {:induction false} BigEndianOfFromBigEndian(s: seq<byte>)
    ensures BigEndian(FromBigEndian(s), |s|) == s
  {
    if s != [] {
      var init := s[..|s| - 1];
      BigEndianOfFromBigEndian(init);
      var v := FromBigEndian(s);
      assert v / 256 == FromBigEndian(init) && v % 256 == s[|s| - 1];
      assert s == init + [s[|s| - 1]];
    }
  }

  /** Byte i of the big-endian form is the low byte of v shifted right by the
      bytes that follow it: the shift-and-truncate sequence
      `(byte)(v >> 8 * (n - 1 - i))` produces the same string. */
  lemma {:induction false} BigEndianByte(v: nat, n: nat, i: nat)
    requires v < Pow256(n) && i < n
    ensures BigEndian(v, n)[i] == ShiftRightBytes(v, n - 1 - i) % 256
  {
    DivBound(v, Pow256(n - 1));
    if i < n - 1 {
      BigEndianByte(v / 256, n - 1, i);
    }
  }

  /** The unsigned reinterpretation of a signed n-byte value: the C# casts
      `(ushort)short`, `(uint)int`, `(ulong)long` and `(byte)sbyte`. */
  function ToUnsigned(v: int, n: nat): (r: nat)
    requires -(Pow256(n) as int) / 2 <= v < Pow256(n) / 2
    ensures r < Pow256(n)
    ensures v >= 0 ==> r == v
  {
    if v >= 0 then v else v + Pow256(n)
  }

  /** The signed reinterpretation of an unsigned n-byte value: the C# casts
      `(short)ushort`, `(int)uint`, `(long)ulong` and `(sbyte)byte`. */
  function ToSigned(u: nat, n: nat): (r: int)
    requires u < Pow256(n)
    ensures -(Pow256(n) as int) / 2 <= r < Pow256(n) / 2
    ensures 0 <= r ==> r == u
  {
    if u < Pow256(n) / 2 then u else u - Pow256(n)
  }

  /** The two reinterpretations are mutually inverse. */
  lemma SignedUnsignedInverse(v: int, n: nat)
    requires -(Pow256(n) as int) / 2 <= v < Pow256(n) / 2
    ensures ToSigned(ToUnsigned(v, n), n) == v
  {
  }

  /** Wrap-around of a 32-bit C# `int` computation (unchecked arithmetic). */
  function WrapInt32(x: int): (r: i32)
    ensures (r - x) % 0x1_0000_0000 == 0
    ensures -0x8000_0000 <= x < 0x8000_0000 ==> r == x
  {
    (x + 0x8000_0000) % 0x1_0000_0000 - 0x8000_0000
  }

  /** C# integer division by two, which truncates toward zero (Dafny's `/` is Euclidean). */
  function HalfTowardZero(x: int): (r: int)
    ensures x >= 0 ==> 2 * r <= x < 2 * r + 2
    ensures x < 0 ==> 2 * r - 2 < x <= 2 * r
  {
    if x >= 0 then x / 2 else -((-x) / 2)
  }

  /** a with the bytes at [at, at + |x|) replaced by x: what storing x into
      an array at position `at` does to its contents. */
  function Splice(a: seq<byte>, at: nat, x: seq<byte>): (r: seq<byte>)
    requires at + |x| <= |a|
    ensures |r| == |a|
    ensures r[..at] == a[..at] && r[at..at + |x|] == x && r[at + |x|..] == a[at + |x|..]
  {
    a[..at] + x + a[at + |x|..]
  }

  /** One byte of a store: x inside [at, at + |x|), a outside it. */
  lemma SpliceIndex(a: seq<byte>, at: nat, x: seq<byte>, j: nat)
    requires at + |x| <= |a| && j < |a|
    ensures Splice(a, at, x)[j] == if at <= j < at + |x| then x[j - at] else a[j]
  {
    var r := Splice(a, at, x);
    if j < at {
      assert r[j] == r[..at][j];
    } else if j < at + |x| {
      assert r[j] == r[at..at + |x|][j - at];
    } else {
      assert r[j] == r[at + |x|..][j - at - |x|];
    }
  }

  /** Storing y behind where x then goes is one store of x then y. */
  lemma SpliceBehind(a: seq<byte>, at: nat, x: seq<byte>, y: seq<byte>)
    requires at + |x| + |y| <= |a|
    ensures Splice(Splice(a, at + |x|, y), at, x) == Splice(a, at, x + y)
  {
    var b := Splice(a, at + |x|, y);
    var l := Splice(b, at, x);
    var r := Splice(a, at, x + y);
    forall j | 0 <= j < |a|
      ensures l[j] == r[j]
    {
      SpliceIndex(b, at, x, j);
      SpliceIndex(a, at + |x|, y, j);
      SpliceIndex(a, at, x + y, j);
    }
  }

  /** A store that is entirely overwritten by a later, wider one leaves no trace. */
  lemma SpliceCovered(a: seq<byte>, at: nat, y: seq<byte>, lo: nat, x: seq<byte>)
    requires lo <= at && at + |y| <= lo + |x| <= |a|
    ensures Splice(Splice(a, at, y), lo, x) == Splice(a, lo, x)
  {
    var b := Splice(a, at, y);
    var l := Splice(b, lo, x);
    var r := Splice(a, lo, x);
    forall j | 0 <= j < |a|
      ensures l[j] == r[j]
    {
      SpliceIndex(b, lo, x, j);
      SpliceIndex(a, at, y, j);
      SpliceIndex(a, lo, x, j);
    }
  }

  /** Two adjacent stores are one store of both. */
  lemma SpliceAdjacent(a: seq<byte>, at: nat, x: seq<byte>, y: seq<byte>)
    requires at + |x| + |y| <= |a|
    ensures Splice(Splice(a, at, x), at + |x|, y) == Splice(a, at, x + y)
  {
    var l := Splice(Splice(a, at, x), at + |x|, y);
    var r := Splice(a, at, x + y);
    forall j | 0 <= j < |a|
      ensures l[j] == r[j]
    {
      if j < at {
        assert l[j] == l[..at][j] && r[j] == r[..at][j];
      } else if j < at + |x| {
        assert l[j] == Splice(a, at, x)[j];
      }
    }
  }

  /** A store covering an earlier store replaces it. */
  lemma SpliceOver(a: seq<byte>, at: nat, x: seq<byte>, y: seq<byte>)
    requires at + |x| <= |a| && |y| == |x|
    ensures Splice(Splice(a, at, x), at, y) == Splice(a, at, y)
  {
  }

  /** What a store leaves before its end: the old bytes before it, then x. */
  lemma SpliceHead(a: seq<byte>, at: nat, x: seq<byte>, k: nat)
    requires at + |x| <= |a| && k <= at
    ensures Splice(a, at, x)[..k] == a[..k]
    ensures Splice(a, at, x)[..at + |x|] == a[..at] + x
  {
    var r := Splice(a, at, x);
    assert r[..k] == r[..at][..k];
    assert r[..at + |x|] == r[..at] + r[at..at + |x|];
  }

  /** A store seen through a window [lo, hi) that contains it. */
  lemma SpliceWindow(a: seq<byte>, lo: nat, hi: nat, at: nat, x: seq<byte>)
    requires lo <= at && at + |x| <= hi <= |a|
    ensures Splice(a, at, x)[lo..hi] == Splice(a[lo..hi], at - lo, x)
  {
    var l := Splice(a, at, x)[lo..hi];
    var r := Splice(a[lo..hi], at - lo, x);
    forall j | 0 <= j < hi - lo
      ensures l[j] == r[j]
    {
      var full := Splice(a, at, x);
      if lo + j < at {
        assert full[lo + j] == full[..at][lo + j];
        assert r[j] == r[..at - lo][j];
      } else if lo + j < at + |x| {
        assert full[lo + j] == full[at..at + |x|][lo + j - at];
        assert r[j] == r[at - lo..at - lo + |x|][j - (at - lo)];
      } else {
        assert full[lo + j] == full[at + |x|..][lo + j - at - |x|];
        assert r[j] == r[at - lo + |x|..][j - (at - lo) - |x|];
      }
    }
  }

  /** What a window holds after y was stored at `at` inside it and then x,
      at least as long as `at` and reaching into y, was stored at its start:
      x, the rest of y, and the window's old bytes from behind y up to
      |x| + |y|. */
  function ShiftedBody(x: seq<byte>, at: nat, y: seq<byte>, window: seq<byte>): (r: seq<byte>)
    requires at <= |x| <= at + |y| && |x| + |y| <= |window|
    ensures |r| == |x| + |y|
  {
    x + y[|x| - at..] + window[at + |y|..|x| + |y|]
  }

  /** y stored at lo + at, then x stored at lo over its start: the same as
      storing ShiftedBody at lo, where the window is the `size` bytes at lo. */
  lemma SpliceShiftedBody(a: seq<byte>, lo: nat, size: nat, at: nat, y: seq<byte>, x: seq<byte>)
    requires at <= |x| <= at + |y| && |x| + |y| <= size && lo + size <= |a|
    ensures Splice(Splice(a, lo + at, y), lo, x) == Splice(a, lo, ShiftedBody(x, at, y, a[lo..lo + size]))
  {
    var a1 := Splice(a, lo + at, y);
    var l := Splice(a1, lo, x);
    var w := a[lo..lo + size];
    var e := ShiftedBody(x, at, y, w);
    var r := Splice(a, lo, e);
    forall j | 0 <= j < |a|
      ensures l[j] == r[j]
    {
      SpliceIndex(a1, lo, x, j);
      SpliceIndex(a, lo + at, y, j);
      SpliceIndex(a, lo, e, j);
      if lo <= j < lo + |x| + |y| {
        ShiftedBodyIndex(x, at, y, w, j - lo);
      }
    }
  }

  /** Byte k of ShiftedBody: from x, then from y shifted by `at`, then from the window. */
  lemma ShiftedBodyIndex(x: seq<byte>, at: nat, y: seq<byte>, window: seq<byte>, k: nat)
    requires at <= |x| <= at + |y| && |x| + |y| <= |window| && k < |x| + |y|
    ensures ShiftedBody(x, at, y, window)[k]
         == if k < |x| then x[k] else if k < at + |y| then y[k - at] else window[k]
  {
    var e := ShiftedBody(x, at, y, window);
    if |x| <= k < at + |y| {
      assert e[k] == y[|x| - at..][k - |x|];
    } else if at + |y| <= k {
      assert e[k] == window[at + |y|..|x| + |y|][k - at - |y|];
    }
  }

  /** y stored at lo + at and, unless at is already |x|, copied on to
      lo + |x|; then x stored at lo. Together the same as storing x + y at
      lo, since the first copy of y lies under x + y. */
  lemma SpliceMovedBehind(a: seq<byte>, a2: seq<byte>, lo: nat, at: nat, x: seq<byte>, y: seq<byte>)
    requires at <= |x| && lo + |x| + |y| <= |a|
    requires || a2 == Splice(Splice(a, lo + at, y), lo + |x|, y)
             || (at == |x| && a2 == Splice(a, lo + at, y))
    ensures Splice(a2, lo, x) == Splice(a, lo, x + y)
  {
    SpliceBehind(Splice(a, lo + at, y), lo, x, y);
    SpliceCovered(a, lo + at, y, lo, x + y);
    SpliceBehind(a, lo, x, y);
  }

  /** Storing x in front of bytes that already hold y gives x then y. */
  lemma SpliceBefore(a: seq<byte>, at: nat, x: seq<byte>, y: seq<byte>)
    requires at + |x| + |y| <= |a| && a[at + |x|..at + |x| + |y|] == y
    ensures Splice(a, at, x)[at..at + |x| + |y|] == x + y
  {
    var r := Splice(a, at, x);
    assert r[at + |x|..][..|y|] == a[at + |x|..][..|y|];
    assert r[at..at + |x| + |y|] == r[at..at + |x|] + r[at + |x|..][..|y|];
  }

}
