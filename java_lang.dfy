/** Java's primitive integer conversions and the two JDK array routines the
    transfer code relies on, stated over unbounded Dafny integers. */
module JavaLang {

  /** A Java `byte`: a two's-complement value in [-128, 127]. */
  type SByte = b: int | -128 <= b < 128

  /** A Java `short`: a two's-complement value in [-32768, 32767]. */
  type Short = s: int | -32768 <= s < 32768

  /** The narrowing cast `(byte) x`: keep the low 8 bits, read them as signed. */
  function ToByte(x: int): (r: SByte)
    ensures (r - x) % 256 == 0
  {
    var m := x % 256;
    if m < 128 then m else m - 256
  }

  /** The narrowing cast `(short) x`: keep the low 16 bits, read them as signed. */
  function ToShort(x: int): (r: Short)
    ensures (r - x) % 65536 == 0
  {
    var m := x % 65536;
    if m < 32768 then m else m - 65536
  }

  /** Two integers congruent modulo 2^16 narrow to the same `short`. */
  lemma ToShortCongruent(x: int, y: int)
    requires (x - y) % 65536 == 0
    ensures ToShort(x) == ToShort(y)
  {
    assert x % 65536 == y % 65536 by {
      var q := (x - y) / 65536;
      assert x == y + 65536 * q;
    }
  }

  /** Narrowing to a `short` moves a value by a whole number of 2^16. */
  lemma ToShortQuotient(x: int) returns (q: int)
    ensures ToShort(x) == x + 65536 * q
  {
    q := (ToShort(x) - x) / 65536;
  }

  /** A compound `short` assignment `s += b` narrows after every step; the
      result is the same as narrowing once at the end. */
  lemma ToShortAbsorbs(a: int, b: int)
    ensures ToShort(ToShort(a) + b) == ToShort(a + b)
  {
    ToShortCongruent(ToShort(a) + b, a + b);
  }

  /** Java's `%` on `int`: the remainder of division truncated toward zero,
      so it takes the sign of the dividend. */
  function JavaRem(a: int, b: int): (r: int)
    requires b > 0
    ensures -b < r < b
    ensures a >= 0 ==> r == a % b
    ensures a <= 0 ==> r <= 0
  {
    if a >= 0 then a % b else -((-a) % b)
  }

  /** Java's `(int)` cast of a real value: truncation toward zero. */
  function Truncate(x: real): (r: int)
    ensures x >= 0.0 ==> r as real <= x < r as real + 1.0
    ensures x <= 0.0 ==> r as real - 1.0 < x <= r as real
  {
    if x >= 0.0 then x.Floor else -((-x).Floor)
  }

  /** No element occurs twice. */
  predicate Distinct<T(==)>(s: seq<T>)
  {
    forall i, j :: 0 <= i < j < |s| ==> s[i] != s[j]
  }

  /** A sequence without repetitions has as many distinct elements as
      positions. */
  lemma {:induction false} DistinctCard<T>(s: seq<T>)
    requires Distinct(s)
    ensures |set x | x in s| == |s|
  {
    if s != [] {
      var init := s[..|s| - 1];
      var last := s[|s| - 1];
      DistinctCard(init);
      assert (set x | x in s) == (set x | x in init) + {last};
      assert last !in (set x | x in init);
    }
  }

  /** Position of the first occurrence of `x` in `s`. */
  function IndexOf<T(==)>(s: seq<T>, x: T): (i: nat)
    requires x in s
    ensures i < |s| && s[i] == x && x !in s[..i]
  {
    if s[0] == x then 0 else IndexOf(s[1..], x) + 1
  }

  /** `ArrayList.remove(Object)` for a class whose `equals` is identity:
      drop the first occurrence of `x`, if any. */
  function RemoveFirst<T(==)>(s: seq<T>, x: T): (r: seq<T>)
    ensures x !in s ==> r == s
    ensures x in s ==> r == s[..IndexOf(s, x)] + s[IndexOf(s, x) + 1..]
    ensures multiset(r) == multiset(s) - multiset{x}
  {
    if x !in s then s
    else
      var i := IndexOf(s, x);
      assert s == s[..i] + [x] + s[i + 1..];
      assert x !in multiset(s[..i]);
      s[..i] + s[i + 1..]
  }

  /** The plain (unbounded) sum of a run of signed bytes. */
  function SignedSum(s: seq<SByte>): int
  {
    if s == [] then 0 else SignedSum(s[..|s| - 1]) + s[|s| - 1]
  }

  /** The sum of a concatenation is the sum of its parts. */
  lemma {:induction false} SignedSumAppend(a: seq<SByte>, b: seq<SByte>)
    ensures SignedSum(a + b) == SignedSum(a) + SignedSum(b)
  {
    if b == [] {
      assert a + b == a;
    } else {
      assert (a + b)[..|a + b| - 1] == a + b[..|b| - 1];
      SignedSumAppend(a, b[..|b| - 1]);
    }
  }

  /** Replacing one byte changes the sum by exactly the difference. */
  lemma SignedSumUpdate(s: seq<SByte>, i: int, v: SByte)
    requires 0 <= i < |s|
    ensures SignedSum(s[i := v]) == SignedSum(s) - s[i] + v
  {
    assert s == s[..i] + [s[i]] + s[i + 1..];
    assert s[i := v] == s[..i] + [v] + s[i + 1..];
    SignedSumAppend(s[..i] + [s[i]], s[i + 1..]);
    SignedSumAppend(s[..i], [s[i]]);
    SignedSumAppend(s[..i] + [v], s[i + 1..]);
    SignedSumAppend(s[..i], [v]);
  }

  /** The sum does not depend on the order of the bytes: any permutation of a
      run of bytes has the same sum. */
  lemma {:induction false} SignedSumPermutation(a: seq<SByte>, b: seq<SByte>)
    requires multiset(a) == multiset(b)
    ensures SignedSum(a) == SignedSum(b)
  {
    if a != [] {
      var x := a[|a| - 1];
      assert x in multiset(b);
      var j :| 0 <= j < |b| && b[j] == x;
      var a' := a[..|a| - 1];
      var b' := b[..j] + b[j + 1..];
      assert a == a' + [x];
      assert b == b[..j] + [x] + b[j + 1..];
      assert multiset(a') == multiset(b') by {
        assert multiset(a) == multiset(a') + multiset{x};
        assert multiset(b) == multiset(b[..j]) + multiset{x} + multiset(b[j + 1..]);
        assert multiset(b') == multiset(b[..j]) + multiset(b[j + 1..]);
        assert multiset(a') + multiset{x} == multiset(b') + multiset{x};
        forall e ensures multiset(a')[e] == multiset(b')[e] {
          assert (multiset(a') + multiset{x})[e] == (multiset(b') + multiset{x})[e];
        }
      }
      SignedSumPermutation(a', b');
      SignedSumAppend(b[..j] + [x], b[j + 1..]);
      SignedSumAppend(b[..j], [x]);
      SignedSumAppend(b[..j], b[j + 1..]);
    } else {
      assert |b| == |multiset(b)| == 0;
    }
  }

  /** `System.arraycopy(src, srcPos, dst, dstPos, length)` for two distinct
      arrays: the bounds it checks and the copy it makes. */
  method ArrayCopy(src: array<SByte>, srcPos: int, dst: array<SByte>, dstPos: int, length: int)
    requires src != dst
    requires 0 <= srcPos && 0 <= dstPos && 0 <= length
    requires srcPos + length <= src.Length && dstPos + length <= dst.Length
    modifies dst
    ensures dst[..] == old(dst[..dstPos]) + src[srcPos..srcPos + length] + old(dst[dstPos + length..])
  {
    var k := 0;
    while k < length
      invariant 0 <= k <= length
      invariant forall i :: 0 <= i < dst.Length && !(dstPos <= i < dstPos + k) ==> dst[i] == old(dst[i])
      invariant forall i :: dstPos <= i < dstPos + k ==> dst[i] == src[srcPos + (i - dstPos)]
    {
      dst[dstPos + k] := src[srcPos + k];
      k := k + 1;
    }
    assert dst[..] == old(dst[..dstPos]) + src[srcPos..srcPos + length] + old(dst[dstPos + length..]) by {
      var rhs := old(dst[..dstPos]) + src[srcPos..srcPos + length] + old(dst[dstPos + length..]);
      assert |rhs| == dst.Length;
      forall i | 0 <= i < dst.Length ensures dst[i] == rhs[i] {
        if i < dstPos {
        } else if i < dstPos + length {
        } else {
        }
      }
    }
  }

  /** `Arrays.copyOfRange(original, from, to)`: a new array of `to - from`
      elements holding the elements of `original` from `from` on, padded with
      zeros where `to` runs past the end of `original`. The source throws
      when `from` lies outside `original` or `to < from`. */
  method CopyOfRange(original: array<SByte>, from: int, to: int) returns (r: array<SByte>)
    requires 0 <= from <= original.Length && from <= to
    ensures fresh(r) && r.Length == to - from
    ensures forall i :: 0 <= i < r.Length ==>
      r[i] == if from + i < original.Length then original[from + i] else 0
    ensures to <= original.Length ==> r[..] == original[from..to]
  {
    r := new SByte[to - from](_ => 0);
    var n := if to <= original.Length then to - from else original.Length - from;
    var k := 0;
    while k < n
      invariant 0 <= k <= n
      invariant forall i :: 0 <= i < k ==> r[i] == original[from + i]
      invariant forall i :: k <= i < r.Length ==> r[i] == 0
    {
      r[k] := original[from + k];
      k := k + 1;
    }
  }
}
