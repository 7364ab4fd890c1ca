// Machine words. Every fixed-width integer of the firmware is an `int` with an explicit range,
// and every wrap-around is written out.
module Words {
  const TWO_8: int := 0x100
  const TWO_16: int := 0x1_0000
  const TWO_31: int := 0x8000_0000
  const TWO_32: int := 0x1_0000_0000
  const TWO_63: int := 0x8000_0000_0000_0000
  const TWO_64: int := 0x1_0000_0000_0000_0000

  type byte = x: int | 0 <= x < 0x100
  type u16 = x: int | 0 <= x < 0x1_0000
  type u32 = x: int | 0 <= x < 0x1_0000_0000
  type u64 = x: int | 0 <= x < 0x1_0000_0000_0000_0000
  type i64 = x: int | -0x8000_0000_0000_0000 <= x < 0x8000_0000_0000_0000

  datatype Option<+T> = None | Some(value: T)

  function Wrap32(x: int): u32 {
    x % 0x1_0000_0000
  }

  // static_cast<int32_t>(a - b) on uint32_t operands.
  function SignedDistance(a: u32, b: u32): int {
    var d := Wrap32(a - b);
    if d < 0x8000_0000 then d else d - 0x1_0000_0000
  }

  // Times less than 2^31 ms apart compare on the wrapped clock as they do unwrapped.
  lemma DistanceOf(a: nat, b: nat)
    requires -TWO_31 <= a - b < TWO_31
    ensures SignedDistance(Wrap32(a), Wrap32(b)) == a - b
  {
    WrapDistance(a, b);
    assert Wrap32(a - b) == if a >= b then a - b else a - b + TWO_32;
  }

  lemma WrapDistance(a: int, b: int)
    ensures Wrap32(Wrap32(a) - Wrap32(b)) == Wrap32(a - b)
  {
    var k := a / TWO_32 - b / TWO_32;
    assert a - b == Wrap32(a) - Wrap32(b) + TWO_32 * k;
  }

  function Min(a: int, b: int): int {
    if a <= b then a else b
  }

  // Little-endian words out of single bytes.
  function Le16(b0: int, b1: int): int {
    b0 + 256 * b1
  }

  function Le32(b0: int, b1: int, b2: int, b3: int): int {
    b0 + 256 * b1 + 65536 * b2 + 16777216 * b3
  }

  // 256^n: the number of values of n bytes.
  function Pow256(n: nat): (p: int)
    ensures p >= 1
  {
    if n == 0 then 1 else 256 * Pow256(n - 1)
  }

  // Value of a little-endian byte string.
  function FromLe(s: seq<byte>): nat {
    if s == [] then 0 else s[0] + 256 * FromLe(s[1..])
  }

  // The low n bytes of v, least significant first.
  function ToLe(v: nat, n: nat): (s: seq<byte>)
    ensures |s| == n
  {
    if n == 0 then [] else [v % 256] + ToLe(v / 256, n - 1)
  }

  // Value of a big-endian byte string.
  function FromBe(s: seq<byte>): nat {
    if s == [] then 0 else 256 * FromBe(s[..|s| - 1]) + s[|s| - 1]
  }

  // The low n bytes of v, most significant first.
  function ToBe(v: nat, n: nat): (s: seq<byte>)
    ensures |s| == n
  {
    if n == 0 then [] else ToBe(v / 256, n - 1) + [v % 256]
  }

  lemma {:induction false} FromLeBound(s: seq<byte>)
    ensures FromLe(s) < Pow256(|s|)
  {
    if s == [] {
    } else {
      FromLeBound(s[1..]);
    }
  }

  lemma {:induction false} FromLeToLe(v: nat, n: nat)
    requires v < Pow256(n)
    ensures FromLe(ToLe(v, n)) == v
  {
    if n == 0 {
    } else {
      FromLeToLe(v / 256, n - 1);
      assert ToLe(v, n)[1..] == ToLe(v / 256, n - 1);
    }
  }

  lemma {:induction false} ToLeFromLe(s: seq<byte>)
    ensures ToLe(FromLe(s), |s|) == s
  {
    if s == [] {
    } else {
      ToLeFromLe(s[1..]);
      assert s == [s[0]] + s[1..];
    }
  }

  // Only the value modulo 256^n reaches an n-byte field.
  lemma {:induction false} ToLeTruncates(v: nat, k: nat, n: nat)
    ensures ToLe(v + k * Pow256(n), n) == ToLe(v, n)
  {
    if n == 0 {
    } else {
      var p := k * Pow256(n - 1);
      assert k * Pow256(n) == 256 * p;
      ToLeTruncates(v / 256, k, n - 1);
    }
  }

  lemma FromLeOf2(s: seq<byte>)
    requires |s| == 2
    ensures FromLe(s) == Le16(s[0], s[1])
  {
    assert s[1..][1..] == [];
    assert FromLe(s[1..]) == s[1];
  }

  lemma FromLeOf4(s: seq<byte>)
    requires |s| == 4
    ensures FromLe(s) == Le32(s[0], s[1], s[2], s[3])
  {
    FromLeOf2(s[2..]);
    assert s[1..][1..] == s[2..];
    assert FromLe(s[1..]) == s[1] as int + 256 * FromLe(s[2..]);
  }

  lemma {:induction false} FromBeBound(s: seq<byte>)
    ensures FromBe(s) < Pow256(|s|)
  {
    if s == [] {
    } else {
      FromBeBound(s[..|s| - 1]);
    }
  }

  lemma {:induction false} FromBeToBe(v: nat, n: nat)
    requires v < Pow256(n)
    ensures FromBe(ToBe(v, n)) == v
  {
    if n == 0 {
    } else {
      FromBeToBe(v / 256, n - 1);
      assert ToBe(v, n)[..n - 1] == ToBe(v / 256, n - 1);
    }
  }

  lemma {:induction false} ToBeFromBe(s: seq<byte>)
    ensures ToBe(FromBe(s), |s|) == s
  {
    if s == [] {
    } else {
      ToBeFromBe(s[..|s| - 1]);
      assert s == s[..|s| - 1] + [s[|s| - 1]];
    }
  }

  lemma Pow256Values()
    ensures Pow256(1) == TWO_8 && Pow256(2) == TWO_16 && Pow256(4) == TWO_32 && Pow256(8) == TWO_64
  {
    assert Pow256(3) == 256 * Pow256(2);
    assert Pow256(5) == 256 * Pow256(4);
    assert Pow256(6) == 256 * Pow256(5);
    assert Pow256(7) == 256 * Pow256(6);
  }

  lemma SliceOfSlice<T>(s: seq<T>, from: nat, size: nat, at: nat, n: nat)
    requires from + size <= |s| && at + n <= size
    ensures s[from..from + size][at..at + n] == s[from + at..from + at + n]
  {
    var whole := s[from..from + size];
    var left, right := whole[at..at + n], s[from + at..from + at + n];
    forall i | 0 <= i < n
      ensures left[i] == right[i]
    {
      assert left[i] == whole[at + i];
    }
  }

  // Byte strings one after the other.
  function Concat(words: seq<seq<byte>>): seq<byte> {
    if words == [] then [] else words[0] + Concat(words[1..])
  }

  lemma {:induction false} ConcatAppend(words: seq<seq<byte>>, word: seq<byte>)
    ensures Concat(words + [word]) == Concat(words) + word
  {
    if words == [] {
      assert Concat([word]) == word + Concat([word][1..]);
    } else {
      ConcatAppend(words[1..], word);
      assert (words + [word])[1..] == words[1..] + [word];
    }
  }
}
