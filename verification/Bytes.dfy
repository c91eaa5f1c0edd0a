/** Bytes as integers 0..255, with the bitwise operators defined bit by bit. */
module Bytes {

  type Byte = b: int | 0 <= b < 256

  /** An IPv4 address. */
  type Addr = s: seq<Byte> | |s| == 4 witness [0, 0, 0, 0]

  function Zeros(n: nat): (z: seq<Byte>)
    ensures |z| == n && forall i | 0 <= i < n :: z[i] == 0
  {
    seq(n, _ => 0)
  }

  function Pow2(n: nat): (p: nat)
    ensures p >= 1
  {
    if n == 0 then 1 else 2 * Pow2(n - 1)
  }

  /** Bit `i` of `a`, counted from the least significant end. */
  function Bit(a: nat, i: nat): nat
  {
    if i == 0 then a % 2 else Bit(a / 2, i - 1)
  }

  function And(a: nat, b: nat): nat
    decreases a
  {
    if a == 0 then 0 else 2 * And(a / 2, b / 2) + (a % 2) * (b % 2)
  }

  function Xor(a: nat, b: nat): nat
    decreases a + b
  {
    if a == 0 && b == 0 then 0 else 2 * Xor(a / 2, b / 2) + (a + b) % 2
  }

  lemma {:induction false} AndBound(a: nat, b: nat)
    ensures And(a, b) <= a
    decreases a
  {
    if a == 0 {
    } else {
      AndBound(a / 2, b / 2);
      assert a % 2 == 0 ==> (a % 2) * (b % 2) == 0;
      assert a % 2 == 1 ==> (a % 2) * (b % 2) <= 1;
      assert And(a, b) <= 2 * (a / 2) + a % 2;
    }
  }

  function AndByte(a: Byte, b: Byte): (r: Byte)
  {
    AndBound(a, b);
    And(a, b)
  }

  lemma {:induction false} ZeroBit(i: nat)
    ensures Bit(0, i) == 0
  {
    if i == 0 {
    } else {
      ZeroBit(i - 1);
    }
  }

  lemma {:induction false} AndBits(a: nat, b: nat, i: nat)
    ensures Bit(And(a, b), i) == Bit(a, i) * Bit(b, i)
    decreases i
  {
    if a == 0 {
      ZeroBit(i);
    } else if i == 0 {
      assert (a % 2) * (b % 2) == 0 || (a % 2) * (b % 2) == 1;
    } else {
      assert (a % 2) * (b % 2) == 0 || (a % 2) * (b % 2) == 1;
      assert And(a, b) / 2 == And(a / 2, b / 2);
      AndBits(a / 2, b / 2, i - 1);
    }
  }

  /** Numbers below 2^n are determined by their n low bits. */
  lemma {:induction false} BitsDetermine(a: nat, b: nat, n: nat)
    requires a < Pow2(n) && b < Pow2(n)
    requires forall i: nat | i < n :: Bit(a, i) == Bit(b, i)
    ensures a == b
    decreases n
  {
    if n == 0 {
    } else {
      assert Bit(a, 0) == Bit(b, 0);
      forall i: nat | i < n - 1
        ensures Bit(a / 2, i) == Bit(b / 2, i)
      {
        assert Bit(a, i + 1) == Bit(b, i + 1);
      }
      BitsDetermine(a / 2, b / 2, n - 1);
    }
  }

  lemma XorStep(a: nat, c: nat)
    ensures Xor(a, c) / 2 == Xor(a / 2, c / 2) && Xor(a, c) % 2 == (a + c) % 2
  {
  }

  /** The arithmetic of one bit of a double XOR. */
  lemma SameHalves(a: nat, c: nat, x: nat, z: nat)
    requires x % 2 == (a + c) % 2 && z % 2 == (x + c) % 2 && z / 2 == a / 2
    ensures z == a
  {
  }

  lemma {:induction false} XorInvolutive(a: nat, c: nat)
    ensures Xor(Xor(a, c), c) == a
    decreases a + c
  {
    if a != 0 || c != 0 {
      var x := Xor(a, c);
      var h := Xor(a / 2, c / 2);
      XorInvolutive(a / 2, c / 2);
      assert Xor(h, c / 2) == a / 2;
      XorStep(a, c);
      assert x / 2 == h;
      XorStep(x, c);
      SameHalves(a, c, x, Xor(x, c));
    }
  }

  lemma {:induction false} XorBound(a: nat, c: nat, n: nat)
    requires a < Pow2(n) && c < Pow2(n)
    ensures Xor(a, c) < Pow2(n)
    decreases n
  {
    if n == 0 {
    } else {
      XorBound(a / 2, c / 2, n - 1);
    }
  }

  lemma Pow2Values()
    ensures Pow2(8) == 256 && Pow2(16) == 65536
  {
    assert Pow2(4) == 16;
    assert Pow2(8) == 256;
    assert Pow2(12) == 4096;
  }

  function XorByte(a: Byte, b: Byte): (r: Byte)
  {
    Pow2Values();
    XorBound(a, b, 8);
    Xor(a, b)
  }

  /** `binary.BigEndian.Uint16` and its inverse. */
  function Uint16(s: seq<Byte>): (r: nat)
    requires |s| == 2
    ensures r < 65536
  {
    var hi: int, lo: int := s[0], s[1];
    256 * hi + lo
  }

  function PutUint16(v: nat): (s: seq<Byte>)
    requires v < 65536
    ensures |s| == 2 && Uint16(s) == v
  {
    [v / 256, v % 256]
  }
}
