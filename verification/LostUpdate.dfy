/** The lost-update probe: two threads add their units, each with an atomic add of
    its own offset and width, into one shared byte region whose operands may
    overlap. The lane check decides that the final bytes are known in advance. */
module LostUpdate {
  import opened Bits
  import opened ByteImage

  const TWO64: nat := 0x1_0000_0000_0000_0000

  /** One thread's operand: its offset and width in bytes, and the amount added. */
  datatype Op = Op(off: nat, bytes: nat, unit: nat)

  /** One atomic add: the operand grows by the unit modulo its width, and nothing
      else changes. */
  function LockAdd(r: seq<Byte>, op: Op): seq<Byte>
    requires op.off + op.bytes <= |r|
  {
    var end := op.off + op.bytes;
    r[..op.off] + LowBytes(Value(r[op.off..end]) + op.unit, op.bytes) + r[end..]
  }

  datatype State = State(region: seq<Byte>, done0: nat, done1: nat)

  function Init(size: nat): State { State(seq(size, _ => 0), 0, 0) }

  predicate Inside(op: Op, size: nat) { op.off + op.bytes <= size }

  /** The next add of the first or the second thread, if it has one left. */
  function Next(s: State, a: Op, b: Op, iters: nat, second: bool): State
    requires Inside(a, |s.region|) && Inside(b, |s.region|)
  {
    if !second && s.done0 < iters then s.(region := LockAdd(s.region, a), done0 := s.done0 + 1)
    else if second && s.done1 < iters then s.(region := LockAdd(s.region, b), done1 := s.done1 + 1)
    else s
  }

  function After(size: nat, a: Op, b: Op, iters: nat, moves: seq<bool>): (s: State)
    requires Inside(a, size) && Inside(b, size)
    ensures |s.region| == size
    decreases |moves|
  {
    if moves == [] then Init(size)
    else Next(After(size, a, b, iters, moves[..|moves| - 1]), a, b, iters, moves[|moves| - 1])
  }

  /** Index of the highest bit set, zero for zero. */
  function Highest(v: nat): nat { if v < 2 then 0 else 1 + Highest(v / 2) }

  /** Number of trailing zero bits, zero for zero. */
  function Lowest(v: nat): nat { if v == 0 || v % 2 == 1 then 0 else 1 + Lowest(v / 2) }

  lemma {:induction false} HighestBounds(v: nat)
    ensures v < Pow2(Highest(v) + 1)
    ensures v > 0 ==> Pow2(Highest(v)) <= v
  {
    if v >= 2 {
      HighestBounds(v / 2);
    }
  }

  lemma {:induction false} LowestDivides(v: nat) returns (q: nat)
    ensures v == Pow2(Lowest(v)) * q
    ensures v > 0 ==> q % 2 == 1
  {
    if v == 0 || v % 2 == 1 {
      q := v;
    } else {
      q := LowestDivides(v / 2);
      MulAssoc(2, Pow2(Lowest(v / 2)), q);
    }
  }

  method HighestBit(v: nat) returns (b: nat)
    ensures b == Highest(v)
  {
    var rest: nat := v / 2;
    b := 0;
    while rest != 0
      invariant Highest(v) == if rest == 0 then b else b + 1 + Highest(rest)
    {
      rest := rest / 2;
      b := b + 1;
    }
  }

  method LowestBit(v: nat) returns (b: nat)
    ensures b == Lowest(v)
  {
    var rest: nat := v;
    b := 0;
    while rest != 0 && rest % 2 == 0
      invariant Lowest(v) == b + Lowest(rest)
    {
      rest := rest / 2;
      b := b + 1;
    }
  }

  /** What a thread adds in all, as the probe computes it in 64 bits. */
  function Sum(op: Op, iters: nat): nat { (iters * op.unit) % TWO64 }

  function Lo(op: Op): nat { op.off * 8 + Lowest(op.unit) }

  function Hi(op: Op, iters: nat): nat { op.off * 8 + Highest(Sum(op, iters)) }

  /** The lane check: neither sum overflows its operand, and the lanes are apart. */
  predicate LanesPass(a: Op, b: Op, iters: nat) {
    && Highest(Sum(a, iters)) < a.bytes * 8
    && Highest(Sum(b, iters)) < b.bytes * 8
    && (Hi(a, iters) < Lo(b) || Hi(b, iters) < Lo(a))
  }

  method CheckLanes(a: Op, b: Op, iters: nat) returns (ok: bool)
    ensures ok <==> LanesPass(a, b, iters)
    ensures var sumA, sumB := iters * a.unit % 0x1_0000_0000_0000_0000, iters * b.unit % 0x1_0000_0000_0000_0000;
            ok <==> && Positive(sumA) < Pow256(a.bytes) && Positive(sumB) < Pow256(b.bytes)
                    && (Under(a.off, sumA, b.off, b.unit) || Under(b.off, sumB, a.off, a.unit))
  {
    LanesPassIffApart(a, b, iters);
    var topA := HighestBit((iters * a.unit) % TWO64);
    var topB := HighestBit((iters * b.unit) % TWO64);
    if topA >= a.bytes * 8 || topB >= b.bytes * 8 {
      return false;
    }
    var lowA := LowestBit(a.unit);
    var lowB := LowestBit(b.unit);
    ok := a.off * 8 + topA < b.off * 8 + lowB || b.off * 8 + topB < a.off * 8 + lowA;
  }

  /** Zero counts as one: it still takes up the lowest bit of its lane. */
  function Positive(x: nat): (r: nat)
    ensures r > 0
  {
    if x == 0 then 1 else x
  }

  /** Some power of two separates two lanes: the sum at the first offset is below it,
      and the unit at the second is a multiple of it. */
  ghost predicate Under(at: nat, sum: nat, at': nat, unit: nat) {
    exists h: nat :: Pow256(at) * Positive(sum) < Pow2(h) && Pow256(at') * Positive(unit) % Pow2(h) == 0
  }

  lemma HighestOfZero(v: nat)
    ensures Highest(v) == Highest(Positive(v)) && Lowest(v) == Lowest(Positive(v))
  {
  }

  lemma HighestBelow(v: nat, n: nat)
    ensures Highest(v) < n <==> Positive(v) < Pow2(n)
  {
    hide Pow2, Highest;
    HighestOfZero(v);
    HighestBounds(Positive(v));
    var h := Highest(Positive(v));
    if h < n {
      Pow2Monotone(h + 1, n);
    } else {
      Pow2Monotone(n, h);
    }
  }

  lemma HighestScaled(v: nat, off: nat, h: nat)
    ensures Pow256(off) * Positive(v) < Pow2(h) <==> off * 8 + Highest(v) < h
  {
    hide Pow2, Highest, Pow256, Positive;
    var p, top := Pow256(off), Highest(v);
    HighestOfZero(v);
    HighestBounds(Positive(v));
    Pow256IsPow2(off);
    Pow2Add(8 * off, top);
    Pow2Add(8 * off, top + 1);
    MulMonotone(p, Pow2(top), Positive(v));
    MulStrict(p, Positive(v), Pow2(top + 1));
    if off * 8 + top < h {
      Pow2Monotone(8 * off + (top + 1), h);
    } else {
      Pow2Monotone(h, 8 * off + top);
    }
  }

  lemma EvenProduct(m: int, c: int)
    ensures 2 * m * c % 2 == 0
  {
    MulAssoc(2, m, c);
  }

  lemma LowestScaled(v: nat, off: nat, h: nat)
    ensures Pow256(off) * Positive(v) % Pow2(h) == 0 <==> h <= off * 8 + Lowest(v)
  {
    hide Pow2, Lowest, Pow256, Positive;
    HighestOfZero(v);
    var low := 8 * off + Lowest(v);
    var q := LowestDivides(Positive(v));
    Pow256IsPow2(off);
    Pow2Add(8 * off, Lowest(v));
    MulAssoc(Pow256(off), Pow2(Lowest(v)), q);
    var n := Pow256(off) * Positive(v);
    assert n == Pow2(low) * q;
    if h <= low {
      Pow2Add(h, low - h);
      MulAssoc(Pow2(h), Pow2(low - h), q);
      DivUnique(n, Pow2(h), Pow2(low - h) * q, 0);
    } else if n % Pow2(h) == 0 {
      PowerTooHigh(low, q, h, n);
    }
  }

  lemma PowerTooHigh(low: nat, q: nat, h: nat, n: nat)
    requires n == Pow2(low) * q && q % 2 == 1 && low < h
    ensures n % Pow2(h) != 0
  {
    hide Pow2;
    if n % Pow2(h) == 0 {
      var c, m := n / Pow2(h), Pow2(h - low - 1);
      Pow2Add(low, h - low);
      DoublePow(h - low - 1);
      assert n == Pow2(h) * c;
      MulAssoc(Pow2(low), 2 * m, c);
      CancelLeft(Pow2(low), q, 2 * m * c);
      EvenProduct(m, c);
    }
  }

  lemma DoublePow(n: nat)
    ensures Pow2(n + 1) == 2 * Pow2(n)
  {
  }

  lemma CancelLeft(p: int, x: int, y: int)
    requires p > 0 && p * x == p * y
    ensures x == y
  {
    if x < y {
      MulSub(p, y, x);
      MulAtLeast(p, y - x);
    } else if y < x {
      MulSub(p, x, y);
      MulAtLeast(p, x - y);
    }
  }

  lemma UnderIff(a: Op, b: Op, iters: nat)
    ensures Under(a.off, Sum(a, iters), b.off, b.unit) <==> Hi(a, iters) < Lo(b)
  {
    hide Highest, Lowest, Pow2, Pow256, Sum, Positive;
    if Hi(a, iters) < Lo(b) {
      HighestScaled(Sum(a, iters), a.off, Lo(b));
      LowestScaled(b.unit, b.off, Lo(b));
    }
    if Under(a.off, Sum(a, iters), b.off, b.unit) {
      var h: nat :|
        Pow256(a.off) * Positive(Sum(a, iters)) < Pow2(h) && Pow256(b.off) * Positive(b.unit) % Pow2(h) == 0;
      HighestScaled(Sum(a, iters), a.off, h);
      LowestScaled(b.unit, b.off, h);
    }
  }

  /** What the lane check decides, without a word about bits: neither sum overflows
      its operand, and a power of two separates the lanes. */
  lemma LanesPassIffApart(a: Op, b: Op, iters: nat)
    ensures LanesPass(a, b, iters) <==>
            && Positive(Sum(a, iters)) < Pow256(a.bytes) && Positive(Sum(b, iters)) < Pow256(b.bytes)
            && (Under(a.off, Sum(a, iters), b.off, b.unit) || Under(b.off, Sum(b, iters), a.off, a.unit))
  {
    hide Highest, Lowest, Pow2, Pow256, Sum, Hi, Lo, Under, Positive;
    Pow256IsPow2(a.bytes);
    Pow256IsPow2(b.bytes);
    HighestBelow(Sum(a, iters), 8 * a.bytes);
    HighestBelow(Sum(b, iters), 8 * b.bytes);
    UnderIff(a, b, iters);
    UnderIff(b, a, iters);
  }

  /** What k adds of one thread contribute to the region as a number. */
  function Lane(op: Op, k: nat): nat { Pow256(op.off) * (k * op.unit) }

  /** No 64-bit wrap in the lane check. */
  predicate NoWrap(op: Op, iters: nat) { iters * op.unit < TWO64 }

  lemma MulMonotone(p: nat, x: nat, y: nat)
    requires x <= y
    ensures p * x <= p * y
  {
  }

  lemma MulStrict(p: nat, x: nat, y: nat)
    requires p > 0 && x < y
    ensures p * x < p * y
  {
  }

  /** A lane stays below the bit above its highest. */
  lemma LaneBelow(op: Op, k: nat, iters: nat)
    requires k <= iters && NoWrap(op, iters)
    ensures Lane(op, k) < Pow2(Hi(op, iters) + 1)
  {
    hide Pow2, Pow256, Highest;
    var sum := Sum(op, iters);
    HighestBounds(sum);
    MulMonotone(op.unit, k, iters);
    Pow256IsPow2(op.off);
    MulStrict(Pow256(op.off), k * op.unit, Pow2(Highest(sum) + 1));
    Pow2Add(8 * op.off, Highest(sum) + 1);
  }

  /** A lane is a multiple of every power of two up to its lowest bit. */
  lemma LaneMultiple(op: Op, k: nat, h: nat) returns (c: nat)
    requires h <= Lo(op)
    ensures Lane(op, k) == Pow2(h) * c
  {
    hide Pow2, Pow256, Lowest;
    var q := LowestDivides(op.unit);
    Pow256IsPow2(op.off);
    Pow2Add(8 * op.off, Lowest(op.unit));
    Pow2Add(h, Lo(op) - h);
    c := Pow2(Lo(op) - h) * (k * q);
    Regroup(Pow256(op.off), k, Pow2(Lowest(op.unit)), q);
    MulAssoc(Pow2(h), Pow2(Lo(op) - h), k * q);
  }

  lemma Regroup(p: int, k: int, u: int, q: int)
    ensures p * (k * (u * q)) == (p * u) * (k * q)
  {
    MulAssoc(k, u, q);
    MulAssoc(u, k, q);
    MulAssoc(p, u, k * q);
    assert k * u == u * k;
  }

  /** Dividing by p*w drops anything below p. */
  lemma DivDrops(lo: nat, p: nat, c: nat, w: nat)
    requires lo < p && w > 0
    ensures p * w > 0 && (lo + p * c) / (p * w) == c / w
  {
    var q, r := c / w, c % w;
    assert p * w > 0 by { MulStrict(p, 0, w); }
    assert p * c == (p * w) * q + p * r by {
      assert c == w * q + r;
      MulAdd(p, w * q, r);
      MulAssoc(p, w, q);
    }
    assert p * r + p <= p * w by {
      MulMonotone(p, r + 1, w);
      MulAdd(p, r, 1);
    }
    assert 0 <= p * r by { MulMonotone(p, 0, r); }
    DivUnique(lo + p * c, p * w, q, lo + p * r);
  }

  /** The part of a number from bit e upwards does not see what is below bit h. */
  lemma AboveIgnoresLow(lo: nat, h: nat, c: nat, e: nat)
    requires lo < Pow2(h) && h <= e
    ensures (lo + Pow2(h) * c) / Pow2(e) == (Pow2(h) * c) / Pow2(e)
  {
    hide Pow2;
    Pow2Add(h, e - h);
    DivDrops(lo, Pow2(h), c, Pow2(e - h));
    DivDrops(0, Pow2(h), c, Pow2(e - h));
  }

  lemma SmallQuotient(x: nat, y: nat)
    requires x < y
    ensures x / y == 0
  {
  }

  /** Below lane: however many adds it has made, nothing above its operand moves. */
  lemma LowerLaneStays(a: Op, b: Op, iters: nat, k: nat, j: nat)
    requires k <= iters && NoWrap(a, iters) && Highest(Sum(a, iters)) < a.bytes * 8 && Hi(a, iters) < Lo(b)
    ensures (Lane(a, k) + Lane(b, j)) / Pow2(8 * (a.off + a.bytes)) == Lane(b, j) / Pow2(8 * (a.off + a.bytes))
  {
    hide Pow2, Pow256, Highest, Lowest, Lane;
    var h := Hi(a, iters) + 1;
    LaneBelow(a, k, iters);
    var c := LaneMultiple(b, j, h);
    AboveIgnoresLow(Lane(a, k), h, c, 8 * (a.off + a.bytes));
  }

  /** Above lane: it carries over the other, and never past its operand. */
  lemma UpperLaneStays(a: Op, b: Op, iters: nat, k: nat, j: nat)
    requires k <= iters && j <= iters && NoWrap(a, iters) && NoWrap(b, iters)
    requires Highest(Sum(a, iters)) < a.bytes * 8 && Hi(b, iters) < Lo(a)
    ensures (Lane(a, k) + Lane(b, j)) / Pow2(8 * (a.off + a.bytes))
            == if Lo(a) <= 8 * (a.off + a.bytes) then 0 else Lane(b, j) / Pow2(8 * (a.off + a.bytes))
  {
    hide Pow2, Pow256, Highest, Lowest, Lane;
    var h, e := Lo(a), 8 * (a.off + a.bytes);
    LaneBelow(a, k, iters);
    LaneBelow(b, j, iters);
    Pow2Monotone(Hi(b, iters) + 1, h);
    Pow2Monotone(Hi(a, iters) + 1, e);
    var c := LaneMultiple(a, k, h);
    if h <= e {
      AboveIgnoresLow(Lane(b, j), h, c, e);
      SmallQuotient(Lane(a, k), Pow2(e));
    } else {
      Pow2Monotone(e, h);
      if c > 0 {
        MulAtLeast(Pow2(h), c);
        assert false;
      }
    }
  }

  /** An add that leaves everything above its operand alone did not carry out. */
  lemma NoCarryOut(r: seq<Byte>, op: Op)
    requires Inside(op, |r|)
    requires (Value(r) + Pow256(op.off) * op.unit) / Pow256(op.off + op.bytes) == Value(r) / Pow256(op.off + op.bytes)
    ensures Value(r[op.off..op.off + op.bytes]) + op.unit < Pow256(op.bytes)
  {
    hide Value, Pow256;
    var end := op.off + op.bytes;
    ThreeParts(r, op);
    Pow256Add(op.off, op.bytes);
    ValueBound(r[..op.off]);
    ValueBound(r[op.off..end]);
    PartsNoCarry(Value(r[..op.off]), Value(r[op.off..end]), Value(r[end..]), Pow256(op.off), Pow256(op.bytes), op.unit);
  }

  /** The same for a number in three parts: below p, a middle below w, and above. */
  lemma PartsNoCarry(low: nat, mid: nat, high: nat, p: nat, w: nat, unit: nat)
    requires low < p && mid < w && p * w > 0
    requires (low + p * (mid + w * high) + p * unit) / (p * w) == (low + p * (mid + w * high)) / (p * w)
    ensures mid + unit < w
  {
    var sum := mid + unit;
    assert p * (mid + w * high) + p * unit == p * (sum + w * high) by {
      MulAdd(p, mid + w * high, unit);
    }
    assert w * high >= 0 by { MulMonotone(w, 0, high); }
    DivDrops(low, p, mid + w * high, w);
    DivDrops(low, p, sum + w * high, w);
    DivUnique(mid + w * high, w, high, mid);
    CarryRaises(sum, w, high);
  }

  lemma CarryRaises(sum: nat, w: nat, high: nat)
    requires w > 0 && (sum + w * high) / w == high
    ensures sum < w
  {
    var n := sum + w * high;
    assert n == w * (n / w) + n % w;
  }

  lemma ThreeParts(r: seq<Byte>, op: Op)
    requires Inside(op, |r|)
    ensures var end := op.off + op.bytes;
            Value(r) == Value(r[..op.off])
                        + Pow256(op.off) * (Value(r[op.off..end]) + Pow256(op.bytes) * Value(r[end..]))
  {
    hide Value, Pow256;
    var end := op.off + op.bytes;
    assert r == r[..op.off] + (r[op.off..end] + r[end..]);
    ValueSplit(r[..op.off], r[op.off..end] + r[end..]);
    ValueSplit(r[op.off..end], r[end..]);
  }

  lemma PartsAdd(mid: int, high: int, p: int, w: int, unit: int)
    ensures p * ((mid + unit) + w * high) == p * (mid + w * high) + p * unit
  {
    MulAdd(p, mid + w * high, unit);
  }

  /** Without a carry out, one atomic add is the addition of its unit at its offset. */
  lemma LockAddValue(r: seq<Byte>, op: Op)
    requires Inside(op, |r|) && Value(r[op.off..op.off + op.bytes]) + op.unit < Pow256(op.bytes)
    ensures Value(LockAdd(r, op)) == Value(r) + Pow256(op.off) * op.unit
  {
    hide Value, Pow256, LowBytes;
    var end := op.off + op.bytes;
    var r' := LockAdd(r, op);
    ThreeParts(r, op);
    ThreeParts(r', op);
    LowBytesValue(Value(r[op.off..end]) + op.unit, op.bytes);
    assert r'[..op.off] == r[..op.off];
    assert r'[op.off..end] == LowBytes(Value(r[op.off..end]) + op.unit, op.bytes);
    assert r'[end..] == r[end..];
    PartsAdd(Value(r[op.off..end]), Value(r[end..]), Pow256(op.off), Pow256(op.bytes), op.unit);
  }

  lemma LaneStep(op: Op, k: nat)
    ensures Lane(op, k + 1) == Lane(op, k) + Pow256(op.off) * op.unit
  {
    hide Pow256;
    assert (k + 1) * op.unit == k * op.unit + op.unit;
    MulAdd(Pow256(op.off), k * op.unit, op.unit);
  }

  /** The lane check pays off: an add made while the region holds the two lanes
      exactly does not carry out of its operand and adds to its own lane only. */
  lemma AddStaysInLane(r: seq<Byte>, a: Op, b: Op, iters: nat, k: nat, j: nat)
    requires Inside(a, |r|) && Value(r) == Lane(a, k) + Lane(b, j)
    requires k < iters && j <= iters && NoWrap(a, iters) && NoWrap(b, iters) && LanesPass(a, b, iters)
    ensures Value(r[a.off..a.off + a.bytes]) + a.unit < Pow256(a.bytes)
    ensures Value(LockAdd(r, a)) == Lane(a, k + 1) + Lane(b, j)
  {
    hide Pow2, Pow256, Highest, Lowest, Hi, Lo, Sum, Lane, Value, LockAdd, NoWrap;
    if Hi(a, iters) < Lo(b) {
      LowerLaneStays(a, b, iters, k, j);
      LowerLaneStays(a, b, iters, k + 1, j);
    } else {
      UpperLaneStays(a, b, iters, k, j);
      UpperLaneStays(a, b, iters, k + 1, j);
    }
    Pow256IsPow2(a.off + a.bytes);
    LaneStep(a, k);
    NoCarryOut(r, a);
    LockAddValue(r, a);
  }

  ghost predicate Inv(s: State, a: Op, b: Op, iters: nat) {
    s.done0 <= iters && s.done1 <= iters && Value(s.region) == Lane(a, s.done0) + Lane(b, s.done1)
  }

  lemma LanesSymmetric(a: Op, b: Op, iters: nat)
    ensures LanesPass(a, b, iters) == LanesPass(b, a, iters)
  {
  }

  lemma {:induction false} RunKeepsLanes(size: nat, a: Op, b: Op, iters: nat, moves: seq<bool>)
    requires Inside(a, size) && Inside(b, size)
    requires NoWrap(a, iters) && NoWrap(b, iters) && LanesPass(a, b, iters)
    ensures Inv(After(size, a, b, iters, moves), a, b, iters)
    decreases |moves|
  {
    hide Pow256, LanesPass, NoWrap, Value, LockAdd;
    if moves == [] {
      ZeroValue(Init(size).region);
    } else {
      var s := After(size, a, b, iters, moves[..|moves| - 1]);
      RunKeepsLanes(size, a, b, iters, moves[..|moves| - 1]);
      LanesSymmetric(a, b, iters);
      if !moves[|moves| - 1] && s.done0 < iters {
        AddStaysInLane(s.region, a, b, iters, s.done0, s.done1);
      }
      if moves[|moves| - 1] && s.done1 < iters {
        AddStaysInLane(s.region, b, a, iters, s.done1, s.done0);
      }
    }
  }

  /** In every run of an arm that passes the lane check, no add ever carries out of
      its operand, whichever thread makes it and whenever. */
  lemma NeverCarriesOut(size: nat, a: Op, b: Op, iters: nat, moves: seq<bool>)
    requires Inside(a, size) && Inside(b, size)
    requires NoWrap(a, iters) && NoWrap(b, iters) && LanesPass(a, b, iters)
    ensures var s := After(size, a, b, iters, moves);
            && (s.done0 < iters ==> Value(s.region[a.off..a.off + a.bytes]) + a.unit < Pow256(a.bytes))
            && (s.done1 < iters ==> Value(s.region[b.off..b.off + b.bytes]) + b.unit < Pow256(b.bytes))
  {
    hide Pow256, LanesPass, NoWrap, Value, LockAdd;
    var s := After(size, a, b, iters, moves);
    RunKeepsLanes(size, a, b, iters, moves);
    LanesSymmetric(a, b, iters);
    if s.done0 < iters {
      AddStaysInLane(s.region, a, b, iters, s.done0, s.done1);
    }
    if s.done1 < iters {
      AddStaysInLane(s.region, b, a, iters, s.done1, s.done0);
    }
  }

  predicate Finished(s: State, iters: nat) { s.done0 == iters && s.done1 == iters }

  /** The image that two carrying adds build is the final region of every run. */
  lemma ImageIsFinal(size: nat, a: Op, b: Op, iters: nat, moves: seq<bool>, image: seq<Byte>)
    requires Inside(a, size) && Inside(b, size)
    requires NoWrap(a, iters) && NoWrap(b, iters) && LanesPass(a, b, iters)
    requires Finished(After(size, a, b, iters, moves), iters)
    requires |image| == size
    requires Value(image) == (Lane(a, iters) % Pow256(size) + Lane(b, iters)) % Pow256(size)
    ensures After(size, a, b, iters, moves).region == image
  {
    hide Pow256, LanesPass, NoWrap, Value, LockAdd, After, Lane;
    var s := After(size, a, b, iters, moves);
    RunKeepsLanes(size, a, b, iters, moves);
    ValueBound(s.region);
    ModSmall(Lane(a, iters), Pow256(size));
    ModSmall(Lane(a, iters) + Lane(b, iters), Pow256(size));
    ValueInjective(s.region, image);
  }

  lemma ModSmall(x: nat, y: nat)
    requires x < y
    ensures x % y == x
  {
  }

  lemma SumExact(op: Op, iters: nat)
    requires NoWrap(op, iters)
    ensures Pow256(op.off) * Sum(op, iters) == Lane(op, iters)
  {
    hide Pow256;
    ModSmall(iters * op.unit, TWO64);
  }

  /** The two carrying adds into a cleared image. */
  method BuildImage(size: nat, a: Op, b: Op, iters: nat) returns (image: array<Byte>)
    requires NoWrap(a, iters) && NoWrap(b, iters)
    ensures fresh(image) && image.Length == size
    ensures Value(image[..]) == (Lane(a, iters) % Pow256(size) + Lane(b, iters)) % Pow256(size)
  {
    hide Pow256, Value, Sum, Lane, NoWrap;
    image := new Byte[size](_ => 0);
    ZeroValue(image[..]);
    SumExact(a, iters);
    SumExact(b, iters);
    AddAt(image, a.off, Sum(a, iters));
    AddAt(image, b.off, Sum(b, iters));
  }

  /** Builds the expected image and promises it: every interleaving of the two
      threads' adds, run to the end, leaves exactly these bytes. */
  method ExpectedImage(size: nat, a: Op, b: Op, iters: nat) returns (image: array<Byte>)
    requires Inside(a, size) && Inside(b, size)
    requires NoWrap(a, iters) && NoWrap(b, iters) && LanesPass(a, b, iters)
    ensures fresh(image) && image.Length == size
    ensures forall moves :: Finished(After(size, a, b, iters, moves), iters) ==>
              After(size, a, b, iters, moves).region == image[..]
  {
    hide *;
    image := BuildImage(size, a, b, iters);
    ghost var bytes := image[..];
    forall moves | Finished(After(size, a, b, iters, moves), iters)
      ensures After(size, a, b, iters, moves).region == bytes
    {
      ImageIsFinal(size, a, b, iters, moves, bytes);
    }
  }
}
