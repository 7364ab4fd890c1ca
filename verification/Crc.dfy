// Cyclic redundancy checks of the firmware: CRC-16 of the fieldbus frames and CRC-32 of the
// persistent history image. Both shift right, so a register is a natural number whose least
// significant bit leaves first. Exclusive or is defined on naturals, bit by bit.
module Crc {
  import opened Words

  function Xor(a: nat, b: nat): nat {
    if a == 0 && b == 0 then 0
    else (if a % 2 == b % 2 then 0 else 1) + 2 * Xor(a / 2, b / 2)
  }

  function Pow2(n: nat): (p: nat)
    ensures p >= 1
  {
    if n == 0 then 1 else 2 * Pow2(n - 1)
  }

  // One bit of the division: shift right, and subtract the polynomial when a one leaves.
  function Step(poly: nat, c: nat): nat {
    if c % 2 == 1 then Xor(c / 2, poly) else c / 2
  }

  function Steps(poly: nat, c: nat, k: nat): nat
    decreases k
  {
    if k == 0 then c else Steps(poly, Step(poly, c), k - 1)
  }

  // The register after a byte string, starting from register c.
  function Register(poly: nat, c: nat, s: seq<byte>): nat
    decreases |s|
  {
    if s == [] then c else Register(poly, Steps(poly, Xor(c, s[0]), 8), s[1..])
  }

  // A polynomial of `width` bits: its leading coefficient is the top bit of the register.
  predicate Polynomial(poly: nat, width: nat) {
    width > 0 && Pow2(width - 1) <= poly < Pow2(width)
  }

  // ---- exclusive or ----

  lemma {:induction false} XorCommutes(a: nat, b: nat)
    ensures Xor(a, b) == Xor(b, a)
  {
    if a == 0 && b == 0 {
    } else {
      XorCommutes(a / 2, b / 2);
    }
  }

  lemma {:induction false} XorAssociates(a: nat, b: nat, c: nat)
    ensures Xor(Xor(a, b), c) == Xor(a, Xor(b, c))
  {
    if a == 0 && b == 0 && c == 0 {
    } else {
      XorAssociates(a / 2, b / 2, c / 2);
    }
  }

  lemma {:induction false} XorZero(a: nat)
    ensures Xor(a, 0) == a
  {
    if a == 0 {
    } else {
      XorZero(a / 2);
    }
  }

  lemma {:induction false} XorSelf(a: nat)
    ensures Xor(a, a) == 0
  {
    if a == 0 {
    } else {
      XorSelf(a / 2);
    }
  }

  lemma {:induction false} XorBound(a: nat, b: nat, n: nat)
    requires a < Pow2(n) && b < Pow2(n)
    ensures Xor(a, b) < Pow2(n)
  {
    if n > 0 && (a != 0 || b != 0) { XorBound(a / 2, b / 2, n - 1); }
  }

  lemma {:induction false} XorTopBit(a: nat, b: nat, n: nat)
    requires a < Pow2(n) <= b < Pow2(n + 1)
    ensures Pow2(n) <= Xor(a, b) < Pow2(n + 1)
  {
    if n > 0 {
      XorTopBit(a / 2, b / 2, n - 1);
    } else {
      assert Pow2(0) == 1 && Pow2(1) == 2;
    }
  }

  // Exclusive or with a fixed value is injective.
  lemma XorCancels(a: nat, b: nat, c: nat)
    requires Xor(a, c) == Xor(b, c)
    ensures a == b
  {
    XorAssociates(a, c, c); XorAssociates(b, c, c);
    XorSelf(c); XorZero(a); XorZero(b);
  }

  lemma DoubleHalf(p: nat, b: nat)
    ensures (2 * p) * b == 2 * (p * b)
  {
  }

  lemma XorDouble(a: nat, y: nat)
    ensures Xor(a, 2 * y) == a % 2 + 2 * Xor(a / 2, y)
  {
  }

  // Values with disjoint bits add.
  lemma {:induction false} XorDisjoint(a: nat, b: nat, n: nat)
    requires a < Pow2(n)
    ensures Xor(a, Pow2(n) * b) == a + Pow2(n) * b
  {
    if n == 0 {
      XorCommutes(0, b); XorZero(b);
    } else {
      XorDisjoint(a / 2, b, n - 1);
      DoubleHalf(Pow2(n - 1), b);
      XorDouble(a, Pow2(n - 1) * b);
    }
  }

  // ---- the bit step is injective and linear ----

  lemma StepBound(poly: nat, width: nat, c: nat)
    requires Polynomial(poly, width) && c < Pow2(width)
    ensures Step(poly, c) < Pow2(width)
  {
    XorBound(c / 2, poly, width);
  }

  lemma StepInjective(poly: nat, width: nat, c: nat, d: nat)
    requires Polynomial(poly, width) && c < Pow2(width) && d < Pow2(width)
    requires Step(poly, c) == Step(poly, d)
    ensures c == d
  {
    // The top bit of the new register tells which bit left.
    if c % 2 == 1 { XorTopBit(c / 2, poly, width - 1); }
    if d % 2 == 1 { XorTopBit(d / 2, poly, width - 1); }
    if c % 2 == 1 && d % 2 == 1 { XorCancels(c / 2, d / 2, poly); }
  }

  lemma {:induction false} StepsInjective(poly: nat, width: nat, c: nat, d: nat, k: nat)
    requires Polynomial(poly, width) && c < Pow2(width) && d < Pow2(width)
    requires Steps(poly, c, k) == Steps(poly, d, k)
    ensures c == d
    decreases k
  {
    if k == 0 {
    } else {
      StepBound(poly, width, c); StepBound(poly, width, d);
      StepsInjective(poly, width, Step(poly, c), Step(poly, d), k - 1);
      StepInjective(poly, width, c, d);
    }
  }

  lemma {:induction false} StepsBound(poly: nat, width: nat, c: nat, k: nat)
    requires Polynomial(poly, width) && c < Pow2(width)
    ensures Steps(poly, c, k) < Pow2(width)
    decreases k
  {
    if k == 0 {
    } else {
      StepBound(poly, width, c);
      StepsBound(poly, width, Step(poly, c), k - 1);
    }
  }

  lemma StepLinear(poly: nat, a: nat, b: nat)
    ensures Step(poly, Xor(a, b)) == Xor(Step(poly, a), Step(poly, b))
  {
    var x, y := a / 2, b / 2;
    assert Xor(a, b) / 2 == Xor(x, y);
    XorAssociates(x, y, poly);
    XorAssociates(x, poly, y);
    XorCommutes(y, poly);
    if a % 2 == 1 && b % 2 == 1 {
      XorAssociates(Xor(x, poly), y, poly);
      XorAssociates(x, poly, Xor(y, poly));
      XorAssociates(poly, y, poly);
      XorAssociates(y, poly, poly);
      XorSelf(poly); XorZero(y);
    }
  }

  lemma {:induction false} StepsLinear(poly: nat, a: nat, b: nat, k: nat)
    ensures Steps(poly, Xor(a, b), k) == Xor(Steps(poly, a, k), Steps(poly, b, k))
    decreases k
  {
    if k == 0 {
    } else {
      StepLinear(poly, a, b);
      StepsLinear(poly, Step(poly, a), Step(poly, b), k - 1);
    }
  }

  lemma {:induction false} StepsShift(poly: nat, z: nat, k: nat)
    ensures Steps(poly, Pow2(k) * z, k) == z
  {
    if k == 0 {
    } else {
      DoubleHalf(Pow2(k - 1), z);
      StepsShift(poly, z, k - 1);
    }
  }

  lemma {:induction false} StepsCompose(poly: nat, c: nat, j: nat, k: nat)
    ensures Steps(poly, Steps(poly, c, j), k) == Steps(poly, c, j + k)
    decreases j
  {
    if j == 0 {
    } else {
      StepsCompose(poly, Step(poly, c), j - 1, k);
    }
  }

  // ---- byte strings ----

  // Bits above the ones shifted out may be added before the shift or after it.
  lemma ShiftInLater(poly: nat, c: nat, b: nat, r: nat, k: nat, n: nat)
    requires b < Pow2(k)
    ensures Steps(poly, Xor(Steps(poly, Xor(c, b), k), r), n) == Steps(poly, Xor(c, b + Pow2(k) * r), k + n)
  {
    hide Xor, Steps, Pow2;
    var high := Pow2(k) * r;
    StepsShift(poly, r, k);
    StepsLinear(poly, Xor(c, b), high, k);
    XorAssociates(c, b, high);
    XorDisjoint(b, r, k);
    StepsCompose(poly, Xor(c, b + high), k, n);
  }

  // A whole byte string enters the register as one little-endian number.
  lemma {:induction false} CrcOfNumber(poly: nat, c: nat, s: seq<byte>)
    ensures Register(poly, c, s) == Steps(poly, Xor(c, FromLe(s)), 8 * |s|)
    decreases |s|
  {
    if s == [] {
      XorZero(c);
    } else {
      hide Xor, Steps;
      CrcOfNumber(poly, Steps(poly, Xor(c, s[0]), 8), s[1..]);
      Pow2Of8();
      hide Pow2;
      ShiftInLater(poly, c, s[0], FromLe(s[1..]), 8, 8 * |s[1..]|);
    }
  }

  lemma Pow2Of8()
    ensures Pow2(8) == 256
  {
    assert Pow2(4) == 16;
  }

  lemma {:induction false} CrcConcat(poly: nat, c: nat, s: seq<byte>, t: seq<byte>)
    ensures Register(poly, c, s + t) == Register(poly, Register(poly, c, s), t)
    decreases |s|
  {
    if s == [] {
      assert s + t == t;
    } else {
      assert (s + t)[1..] == s[1..] + t;
      CrcConcat(poly, Steps(poly, Xor(c, s[0]), 8), s[1..], t);
    }
  }

  lemma {:induction false} Pow256IsPow2(n: nat)
    ensures Pow256(n) == Pow2(8 * n)
  {
    if n == 0 {
    } else {
      Pow256IsPow2(n - 1);
      var m := 8 * n;
      assert Pow2(m) == 2 * Pow2(m - 1) && Pow2(m - 1) == 2 * Pow2(m - 2) && Pow2(m - 2) == 2 * Pow2(m - 3)
          && Pow2(m - 3) == 2 * Pow2(m - 4) && Pow2(m - 4) == 2 * Pow2(m - 5) && Pow2(m - 5) == 2 * Pow2(m - 6)
          && Pow2(m - 6) == 2 * Pow2(m - 7) && Pow2(m - 7) == 2 * Pow2(m - 8);
    }
  }

  lemma {:induction false} CrcBound(poly: nat, width: nat, c: nat, s: seq<byte>)
    requires Polynomial(poly, width) && width >= 8 && c < Pow2(width)
    ensures Register(poly, c, s) < Pow2(width)
    decreases |s|
  {
    if s == [] {
    } else {
      Pow2Monotone(8, width);
      assert Pow2(8) == 256;
      XorBound(c, s[0], width);
      StepsBound(poly, width, Xor(c, s[0]), 8);
      CrcBound(poly, width, Steps(poly, Xor(c, s[0]), 8), s[1..]);
    }
  }

  lemma {:induction false} Pow2Monotone(a: nat, b: nat)
    requires a <= b
    ensures Pow2(a) <= Pow2(b)
  {
    if a == b {
    } else {
      Pow2Monotone(a, b - 1);
    }
  }

  // Distinct registers stay distinct under the same bytes.
  lemma {:induction false} CrcTailInjective(poly: nat, width: nat, c: nat, d: nat, t: seq<byte>)
    requires Polynomial(poly, width) && width >= 8 && c < Pow2(width) && d < Pow2(width)
    requires Register(poly, c, t) == Register(poly, d, t)
    ensures c == d
    decreases |t|
  {
    if t == [] {
    } else {
      Pow2Monotone(8, width);
      assert Pow2(8) == 256;
      var x, y := Xor(c, t[0]), Xor(d, t[0]);
      XorBound(c, t[0], width); XorBound(d, t[0], width);
      StepsBound(poly, width, x, 8); StepsBound(poly, width, y, 8);
      CrcTailInjective(poly, width, Steps(poly, x, 8), Steps(poly, y, 8), t[1..]);
      StepsInjective(poly, width, x, y, 8);
      XorCancels(c, d, t[0]);
    }
  }

  // From one register, distinct strings no longer than the register give distinct registers.
  lemma CrcWindowInjective(poly: nat, width: nat, c: nat, s: seq<byte>, t: seq<byte>)
    requires Polynomial(poly, width) && c < Pow2(width)
    requires |s| == |t| && 8 * |s| <= width
    requires Register(poly, c, s) == Register(poly, c, t)
    ensures s == t
  {
    var x, y := FromLe(s), FromLe(t);
    CrcOfNumber(poly, c, s); CrcOfNumber(poly, c, t);
    FromLeBound(s); FromLeBound(t);
    Pow256IsPow2(|s|);
    Pow2Monotone(8 * |s|, width);
    XorBound(c, x, width); XorBound(c, y, width);
    StepsInjective(poly, width, Xor(c, x), Xor(c, y), 8 * |s|);
    XorCommutes(c, x); XorCommutes(c, y);
    XorCancels(x, y, c);
    ToLeFromLe(s); ToLeFromLe(t);
  }

  // Two strings of one length that agree outside the window [at, at + size).
  predicate DifferOnlyIn(s: seq<byte>, t: seq<byte>, at: nat, size: nat) {
    |s| == |t| && at + size <= |s| && s[..at] == t[..at] && s[at + size..] == t[at + size..]
  }

  // Burst detection: a change confined to as many consecutive bytes as the register holds
  // always changes the register, wherever the burst lies.
  lemma BurstChangesCrc(poly: nat, width: nat, c: nat, s: seq<byte>, t: seq<byte>, at: nat, size: nat)
    requires Polynomial(poly, width) && width >= 8 && c < Pow2(width)
    requires DifferOnlyIn(s, t, at, size) && 8 * size <= width && s != t
    ensures Register(poly, c, s) != Register(poly, c, t)
  {
    var head, tail := s[..at], s[at + size..];
    var p, q := s[at..at + size], t[at..at + size];
    assert s == head + (p + tail) && t == head + (q + tail);
    var r := Register(poly, c, head);
    CrcConcat(poly, c, head, p + tail); CrcConcat(poly, c, head, q + tail);
    CrcConcat(poly, r, p, tail); CrcConcat(poly, r, q, tail);
    CrcBound(poly, width, c, head);
    CrcBound(poly, width, r, p); CrcBound(poly, width, r, q);
    if Register(poly, c, s) == Register(poly, c, t) {
      CrcTailInjective(poly, width, Register(poly, r, p), Register(poly, r, q), tail);
      CrcWindowInjective(poly, width, r, p, q);
      assert false;
    }
  }

  // A string followed by its own register, least significant byte first, leaves the register
  // of `mask`; any other trailer leaves something else. With mask 0 this is the fieldbus rule.
  lemma ResidueIffTrailerMatches(poly: nat, width: nat, c: nat, s: seq<byte>, trailer: seq<byte>, mask: nat)
    requires Polynomial(poly, width) && width >= 8 && width == 8 * |trailer|
    requires c < Pow2(width) && mask < Pow2(width)
    ensures Register(poly, c, s + trailer) == Steps(poly, mask, width) <==> FromLe(trailer) == Xor(Register(poly, c, s), mask)
  {
    var r, v := Register(poly, c, s), FromLe(trailer);
    CrcConcat(poly, c, s, trailer);
    CrcOfNumber(poly, r, trailer);
    CrcBound(poly, width, c, s);
    FromLeBound(trailer); Pow256IsPow2(|trailer|);
    XorBound(r, v, width);
    if Steps(poly, Xor(r, v), width) == Steps(poly, mask, width) {
      StepsInjective(poly, width, Xor(r, v), mask, width);
    }
    // Xor(r, v) == mask  <==>  v == Xor(r, mask)
    XorAssociates(r, r, v); XorSelf(r); XorCommutes(0, v); XorZero(v);
    XorAssociates(r, r, mask); XorCommutes(0, mask); XorZero(mask);
  }

  // Hence a burst that may reach into the trailer is detected too.
  lemma BurstBreaksCodeword(poly: nat, width: nat, c: nat, mask: nat,
                            s: seq<byte>, trailer: seq<byte>, s': seq<byte>, trailer': seq<byte>, at: nat, size: nat)
    requires Polynomial(poly, width) && width >= 8 && width == 8 * |trailer| == 8 * |trailer'|
    requires c < Pow2(width) && mask < Pow2(width)
    requires DifferOnlyIn(s + trailer, s' + trailer', at, size) && 8 * size <= width
    requires s + trailer != s' + trailer'
    requires FromLe(trailer) == Xor(Register(poly, c, s), mask)
    ensures FromLe(trailer') != Xor(Register(poly, c, s'), mask)
  {
    ResidueIffTrailerMatches(poly, width, c, s, trailer, mask);
    ResidueIffTrailerMatches(poly, width, c, s', trailer', mask);
    BurstChangesCrc(poly, width, c, s + trailer, s' + trailer', at, size);
  }

  // ---- the two checks of the firmware ----

  const POLY_16: nat := 0xA001
  const INIT_16: nat := 0xFFFF
  const POLY_32: nat := 0xedb88320
  const INIT_32: nat := 0xffffffff

  lemma {:induction false} FirmwarePolynomials()
    ensures Pow2(16) == TWO_16 && Pow2(32) == TWO_32
    ensures Polynomial(POLY_16, 16) && Polynomial(POLY_32, 32)
  {
    assert Pow2(8) == 256;
    assert Pow2(12) == 4096;
    assert Pow2(16) == 65536;
    assert Pow2(20) == 0x10_0000;
    assert Pow2(24) == 0x100_0000;
    assert Pow2(28) == 0x1000_0000;
    assert Pow2(32) == 0x1_0000_0000;
  }

  function Crc16Of(s: seq<byte>): nat {
    Register(POLY_16, INIT_16, s)
  }

  // The final complement is exclusive or with all ones.
  function Crc32Of(s: seq<byte>): nat {
    Xor(Register(POLY_32, INIT_32, s), 0xffffffff)
  }

  lemma Crc16Range(s: seq<byte>)
    ensures Crc16Of(s) < TWO_16
  {
    FirmwarePolynomials();
    CrcBound(POLY_16, 16, INIT_16, s);
  }

  lemma Crc32Range(s: seq<byte>)
    ensures Crc32Of(s) < TWO_32
  {
    FirmwarePolynomials();
    CrcBound(POLY_32, 32, INIT_32, s);
    XorBound(Register(POLY_32, INIT_32, s), 0xffffffff, 32);
  }

  // The byte and bit loops of crc16.
  method Crc16(data: array<byte>, length: nat) returns (crc: nat)
    requires length <= data.Length
    ensures crc == Crc16Of(data[..length])
  {
    crc := 0xFFFF;
    assert data[..length][0..] == data[..length];
    for i := 0 to length
      invariant Register(POLY_16, crc, data[..length][i..]) == Crc16Of(data[..length])
    {
      ghost var rest := data[..length][i..];
      assert rest[1..] == data[..length][i + 1..];
      crc := Xor(crc, data[i]);
      ghost var start := crc;
      for bit := 0 to 8
        invariant Steps(POLY_16, crc, 8 - bit) == Steps(POLY_16, start, 8)
      {
        var lsb := crc % 2 != 0;
        crc := crc / 2;
        if lsb { crc := Xor(crc, 0xA001); }
      }
    }
  }

  // The byte and bit loops of crc32, with the polynomial selected by a mask.
  method Crc32(data: array<byte>, length: nat) returns (crc: nat)
    requires length <= data.Length
    ensures crc == Crc32Of(data[..length])
  {
    crc := 0xffffffff;
    assert data[..length][0..] == data[..length];
    for i := 0 to length
      invariant Register(POLY_32, crc, data[..length][i..]) == Register(POLY_32, INIT_32, data[..length])
    {
      ghost var rest := data[..length][i..];
      assert rest[1..] == data[..length][i + 1..];
      crc := Xor(crc, data[i]);
      ghost var start := crc;
      for bit := 0 to 8
        invariant Steps(POLY_32, crc, 8 - bit) == Steps(POLY_32, start, 8)
      {
        XorZero(crc / 2);
        var selected := if crc % 2 == 1 then 0xedb88320 else 0;
        crc := Xor(crc / 2, selected);
      }
    }
    crc := Xor(crc, 0xffffffff);
  }
}
