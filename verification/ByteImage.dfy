/** Byte regions as little-endian numbers, and the probe's carrying add. */
module ByteImage {
  import opened Bits

  type Byte = b: nat | b < 256

  function Pow256(n: nat): (r: nat)
    ensures r > 0
  {
    if n == 0 then 1 else 256 * Pow256(n - 1)
  }

  function Value(r: seq<Byte>): nat {
    if r == [] then 0 else r[0] + 256 * Value(r[1..])
  }

  /** The w low bytes of v. */
  function LowBytes(v: nat, w: nat): (r: seq<Byte>)
    ensures |r| == w
  {
    if w == 0 then [] else [v % 256] + LowBytes(v / 256, w - 1)
  }

  lemma {:induction false} Pow256IsPow2(n: nat)
    ensures Pow256(n) == Pow2(8 * n)
  {
    if n > 0 {
      hide Pow2;
      Pow256IsPow2(n - 1);
      Pow2Add(8 * (n - 1), 8);
      Eight();
    }
  }

  lemma Eight()
    ensures Pow2(8) == 256
  {
    assert Pow2(4) == 16;
  }

  lemma {:induction false} Pow256Add(a: nat, b: nat)
    ensures Pow256(a + b) == Pow256(a) * Pow256(b)
  {
    if a > 0 {
      Pow256Add(a - 1, b);
      MulAssoc(256, Pow256(a - 1), Pow256(b));
    }
  }

  lemma MulAssoc(a: int, b: int, c: int)
    ensures a * (b * c) == (a * b) * c
  {
  }

  lemma MulAdd(a: int, b: int, c: int)
    ensures a * (b + c) == a * b + a * c
  {
  }

  lemma {:induction false} ValueBound(r: seq<Byte>)
    ensures Value(r) < Pow256(|r|)
  {
    if r != [] {
      ValueBound(r[1..]);
    }
  }

  lemma {:induction false} ValueSplit(a: seq<Byte>, b: seq<Byte>)
    ensures Value(a + b) == Value(a) + Pow256(|a|) * Value(b)
  {
    if a == [] {
      assert a + b == b;
    } else {
      assert (a + b)[1..] == a[1..] + b;
      ValueSplit(a[1..], b);
      MulAssoc(256, Pow256(|a| - 1), Value(b));
    }
  }

  /** A region is determined by its length and its value. */
  lemma {:induction false} ValueInjective(a: seq<Byte>, b: seq<Byte>)
    requires |a| == |b| && Value(a) == Value(b)
    ensures a == b
  {
    if a != [] {
      ValueInjective(a[1..], b[1..]);
      assert a == [a[0]] + a[1..] && b == [b[0]] + b[1..];
    }
  }

  lemma {:induction false} LowBytesValue(v: nat, w: nat)
    requires v < Pow256(w)
    ensures Value(LowBytes(v, w)) == v
  {
    if w > 0 {
      LowBytesValue(v / 256, w - 1);
      assert LowBytes(v, w)[1..] == LowBytes(v / 256, w - 1);
    }
  }

  lemma {:induction false} ValueUpdate(r: seq<Byte>, i: nat, b: Byte)
    requires i < |r|
    ensures Value(r[i := b]) == Value(r) + Pow256(i) * (b - r[i])
  {
    if i == 0 {
      assert r[i := b][1..] == r[1..];
    } else {
      assert r[i := b][1..] == r[1..][i - 1 := b];
      ValueUpdate(r[1..], i - 1, b);
      MulAssoc(256, Pow256(i - 1), b - r[i]);
    }
  }

  lemma {:induction false} ZeroValue(r: seq<Byte>)
    requires forall i :: 0 <= i < |r| ==> r[i] == 0
    ensures Value(r) == 0
  {
    if r != [] {
      ZeroValue(r[1..]);
    }
  }

  /** One byte of the carrying add: what is stored and what is still to add make
      up what was there and was to add. */
  lemma CarryStep(p: nat, was: nat, v: nat, carry: nat)
    ensures var s := was + v % 256 + carry;
            p * (s % 256 - was) + (256 * p) * (v / 256 + s / 256) == p * (v + carry)
  {
    var s := was + v % 256 + carry;
    assert s % 256 - was + 256 * (v / 256 + s / 256) == v + carry;
    MulAssoc(p, 256, v / 256 + s / 256);
    MulAdd(p, s % 256 - was, 256 * (v / 256 + s / 256));
  }

  lemma ModAbove(sum: int, image: int, rest: int, size: int)
    requires 0 <= image < size && sum == image + size * rest
    ensures image == sum % size
  {
    DivUnique(sum, size, rest, image);
  }

  /** What is past the end of the region is dropped. */
  lemma AddedPastEnd(r: seq<Byte>, off: nat, v: nat)
    requires off >= |r|
    ensures Value(r) == (Value(r) + Pow256(off) * v) % Pow256(|r|)
  {
    hide Value, Pow256;
    Pow256Add(|r|, off - |r|);
    MulAssoc(Pow256(|r|), Pow256(off - |r|), v);
    ValueBound(r);
    ModAbove(Value(r) + Pow256(off) * v, Value(r), Pow256(off - |r|) * v, Pow256(|r|));
  }

  /** Adds v at a byte offset in place, byte by byte with a carry: the whole region,
      read as one number, grows by v at that offset, modulo its size. */
  method AddAt(r: array<Byte>, off: nat, v: nat)
    modifies r
    ensures Value(r[..]) == (Value(old(r[..])) + Pow256(off) * v) % Pow256(r.Length)
  {
    var left, carry, i := v, 0, off;
    ghost var sum := Value(r[..]) + Pow256(off) * v;
    while i < r.Length && (left != 0 || carry != 0)
      invariant off <= i && carry <= 1
      invariant i <= r.Length || (i == off && left == v && carry == 0 && r[..] == old(r[..]))
      invariant Value(r[..]) + Pow256(i) * (left + carry) == sum
    {
      hide Value, Pow256;
      ghost var before := r[..];
      var s := r[i] + left % 256 + carry;
      CarryStep(Pow256(i), r[i], left, carry);
      Pow256Step(i);
      r[i] := s % 256;
      assert r[..] == before[i := s % 256];
      ValueUpdate(before, i, s % 256);
      carry := s / 256;
      left := left / 256;
      i := i + 1;
    }
    ValueBound(r[..]);
    if i > r.Length {
      AddedPastEnd(r[..], off, v);
    } else if i < r.Length {
      ModAbove(sum, Value(r[..]), 0, Pow256(r.Length));
    } else {
      ModAbove(sum, Value(r[..]), left + carry, Pow256(r.Length));
    }
  }

  lemma Pow256Step(i: nat)
    ensures Pow256(i + 1) == 256 * Pow256(i)
  {
  }
}
