/**
 The C++ operators on unsigned integers that the register paths use, defined on
 the binary digits of a number so that the arithmetic they amount to is a result
 and not an assumption.
 */
module Bits {
  import opened Bytes

  function Pow2(k: nat): (p: nat)
    ensures p > 0
  {
    if k == 0 then 1 else 2 * Pow2(k - 1)
  }

  /** x << k on a uint64: bits moved past the top are lost. */
  function ShiftLeft(x: uint64, k: nat): uint64 { (x * Pow2(k)) % TWO_64 }

  /** x >> k, one place at a time. */
  function ShiftRight(x: uint64, k: nat): uint64
    decreases k
  {
    if k == 0 then x else ShiftRight(x / 2, k - 1)
  }

  /** x | y, bit by bit. */
  function Or(x: nat, y: nat): nat
    decreases x + y
  {
    if x == 0 then y
    else if y == 0 then x
    else (if x % 2 == 1 || y % 2 == 1 then 1 else 0) + 2 * Or(x / 2, y / 2)
  }

  /** x & y, bit by bit. */
  function And(x: nat, y: nat): nat
    decreases x
  {
    if x == 0 || y == 0 then 0
    else (if x % 2 == 1 && y % 2 == 1 then 1 else 0) + 2 * And(x / 2, y / 2)
  }

  /** Binary digit k. */
  predicate Bit(x: nat, k: nat)
    decreases k
  {
    if k == 0 then x % 2 == 1 else Bit(x / 2, k - 1)
  }

  lemma OrHalves(x: nat, y: nat)
    ensures Or(x, y) / 2 == Or(x / 2, y / 2)
    ensures Or(x, y) % 2 == 1 <==> x % 2 == 1 || y % 2 == 1
  {
    if x > 0 && y > 0 {
      var rest := Or(x / 2, y / 2);
      assert Or(x, y) == (if x % 2 == 1 || y % 2 == 1 then 1 else 0) + 2 * rest;
    }
  }

  /** Every digit of x | y is set exactly when it is in one of them. */
  lemma {:induction false} OrBits(x: nat, y: nat, k: nat)
    ensures Bit(Or(x, y), k) <==> Bit(x, k) || Bit(y, k)
    decreases k
  {
    OrHalves(x, y);
    if k > 0 {
      OrBits(x / 2, y / 2, k - 1);
    }
  }

  lemma AndHalves(x: nat, y: nat)
    ensures And(x, y) / 2 == And(x / 2, y / 2)
    ensures And(x, y) % 2 == 1 <==> x % 2 == 1 && y % 2 == 1
  {
    if x > 0 && y > 0 {
      var rest := And(x / 2, y / 2);
      assert And(x, y) == (if x % 2 == 1 && y % 2 == 1 then 1 else 0) + 2 * rest;
    }
  }

  /** Every digit of x & y is set exactly when it is in both. */
  lemma {:induction false} AndBits(x: nat, y: nat, k: nat)
    ensures Bit(And(x, y), k) <==> Bit(x, k) && Bit(y, k)
    decreases k
  {
    AndHalves(x, y);
    if k > 0 {
      AndBits(x / 2, y / 2, k - 1);
    }
  }

  /** Every digit of x >> n is one of x, n places up. */
  lemma {:induction false} ShiftRightBits(x: uint64, n: nat, k: nat)
    ensures Bit(ShiftRight(x, n), k) <==> Bit(x, n + k)
    decreases n
  {
    if n > 0 {
      ShiftRightBits(x / 2, n - 1, k);
    }
  }

  lemma {:induction false} OrBelow(x: nat, y: nat, k: nat)
    requires y < Pow2(k)
    ensures Or(x * Pow2(k), y) == x * Pow2(k) + y
  {
    if k > 0 && x > 0 && y > 0 {
      var h := x * Pow2(k - 1);
      assert x * Pow2(k) == 2 * h;
      assert h > 0;
      OrBelow(x, y / 2, k - 1);
    } else if k == 0 {
      assert y == 0;
    }
  }

  lemma AndStep(x: nat, m: nat)
    requires x > 0 && m > 0
    requires And(x / 2, m - 1) == (x / 2) % m
    ensures And(x, 2 * m - 1) == x % (2 * m)
  {
    var y := 2 * m - 1;
    assert y / 2 == m - 1 && y % 2 == 1;
    assert And(x, y) == x % 2 + 2 * And(x / 2, y / 2);
    SplitModulus(x, 2, m, 2 * m);
  }

  lemma {:induction false} AndMask(x: nat, k: nat)
    ensures And(x, Pow2(k) - 1) == x % Pow2(k)
  {
    if x == 0 {
      DivisionIsUnique(0, Pow2(k), 0, 0);
    } else if k > 0 {
      var m := Pow2(k - 1);
      assert And(x / 2, m - 1) == (x / 2) % m by { AndMask(x / 2, k - 1); }
      AndStep(x, m);
      assert Pow2(k) == 2 * m;
    }
  }

  lemma EightBits()
    ensures Pow2(8) == 256
  {
    assert Pow2(4) == 16;
  }

  /** data << 8 loses nothing while data has at most 56 bits. */
  lemma ShiftLeftByte(data: uint64)
    requires data < Pow256(7)
    ensures ShiftLeft(data, 8) == data * 256 <= TWO_64 - 256
  {
    EightBits();
    Pow256Eight();
    assert Pow256(8) == 256 * Pow256(7);
  }

  lemma OrByte(x: nat, b: byte)
    ensures Or(x * 256, b) == x * 256 + b
  {
    EightBits();
    OrBelow(x, b, 8);
  }

  /** (data << 8) | b keeps every bit of data while data has at most 56 of them. */
  lemma AppendByte(data: uint64, b: byte)
    requires data < Pow256(7)
    ensures Or(ShiftLeft(data, 8), b) == data * 256 + b < TWO_64
  {
    ShiftLeftByte(data);
    OrByte(data, b);
  }

  lemma ShiftByte(x: uint64)
    ensures ShiftRight(x, 8) == x / 256
  {
    var h := x / 16;
    assert ShiftRight(x, 8) == ShiftRight(x / 2, 7) == ShiftRight(x / 2 / 2, 6)
        == ShiftRight(x / 2 / 2 / 2, 5) == ShiftRight(x / 2 / 2 / 2 / 2, 4);
    assert x / 2 / 2 / 2 / 2 == h;
    assert ShiftRight(h, 4) == ShiftRight(h / 2, 3) == ShiftRight(h / 2 / 2, 2)
        == ShiftRight(h / 2 / 2 / 2, 1) == h / 2 / 2 / 2 / 2;
  }

  /** Masking the low byte off and shifting it out takes one byte off a little-endian encoding. */
  lemma EmitByte(data: uint64, k: nat)
    requires k > 0
    ensures And(data, 0xff) < 256
    ensures ToLE(data, k) == [And(data, 0xff)] + ToLE(ShiftRight(data, 8), k - 1)
  {
    EightBits();
    AndMask(data, 8);
    ShiftByte(data);
  }
}
