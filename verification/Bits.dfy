/** The C bit operators on unsigned values, and the few laws of them the codec relies on. */
module Bits {
  function And(a: nat, b: nat): (r: nat) {
    if a == 0 || b == 0 then 0
    else 2 * And(a / 2, b / 2) + (if a % 2 == 1 && b % 2 == 1 then 1 else 0)
  }

  lemma {:induction false} AndBound(a: nat, b: nat)
    ensures And(a, b) <= b
  {
    if a > 0 && b > 0 { AndBound(a / 2, b / 2); }
  }

  function Or(a: nat, b: nat): (r: nat) {
    if a == 0 then b
    else if b == 0 then a
    else 2 * Or(a / 2, b / 2) + (if a % 2 == 1 || b % 2 == 1 then 1 else 0)
  }

  function ShiftLeft(a: nat, k: nat): nat {
    if k == 0 then a else 2 * ShiftLeft(a, k - 1)
  }

  function ShiftRight(a: nat, k: nat): nat {
    if k == 0 then a else ShiftRight(a / 2, k - 1)
  }

  /** `k` one bits. */
  function Ones(k: nat): nat {
    if k == 0 then 0 else 2 * Ones(k - 1) + 1
  }

  /** One step down of `a & m` where the mask `m` is odd. */
  lemma MaskStep(a: nat, m: nat)
    ensures And(a, 2 * m + 1) == a % 2 + 2 * And(a / 2, m)
  {
    if m == 0 {
      assert And(a / 2, 0) == 0;
    } else if a == 0 {
      assert And(0, m) == 0;
    }
  }

  lemma MaskByThree(a: nat, m: nat)
    ensures And(a, 8 * m + 7) == a % 8 + 8 * And(a / 8, m)
  {
    hide And, Or;
    MaskStep(a, 4 * m + 3);
    MaskStep(a / 2, 2 * m + 1);
    MaskStep(a / 2 / 2, m);
    assert a / 2 / 2 / 2 == a / 8;
  }

  lemma MaskOne(a: nat)
    ensures And(a, 1) == a % 2
  {
    MaskStep(a, 0);
    assert And(a / 2, 0) == 0;
  }

  lemma MaskTwo(a: nat)
    ensures And(a, 3) == a % 4
  {
    hide And;
    MaskStep(a, 1);
    MaskOne(a / 2);
    Split4(a);
  }

  lemma MaskFour(a: nat)
    ensures And(a, 15) == a % 16
  {
    hide And;
    MaskByThree(a, 1);
    MaskOne(a / 8);
    Split16(a);
  }

  lemma MaskFive(a: nat)
    ensures And(a, 31) == a % 32
  {
    hide And;
    MaskByThree(a, 3);
    MaskTwo(a / 8);
    Split32(a);
  }

  lemma MaskSeven(a: nat)
    ensures And(a, 127) == a % 128
  {
    hide And;
    MaskByThree(a, 15);
    MaskFour(a / 8);
    Split128(a);
  }

  lemma MaskEight(a: nat)
    ensures And(a, 255) == a % 256
  {
    hide And;
    MaskByThree(a, 31);
    MaskFive(a / 8);
    Split256(a);
  }

  lemma MaskTen(a: nat)
    ensures And(a, 1023) == a % 1024
  {
    hide And;
    MaskByThree(a, 127);
    MaskSeven(a / 8);
    Split1024(a);
  }

  lemma Split4(a: nat)
    ensures a % 4 == a % 2 + 2 * (a / 2 % 2)
  {
  }

  lemma Split16(a: nat)
    ensures a % 16 == a % 8 + 8 * (a / 8 % 2)
  {
  }

  lemma Split32(a: nat)
    ensures a % 32 == a % 8 + 8 * (a / 8 % 4)
  {
  }

  lemma Split128(a: nat)
    ensures a % 128 == a % 8 + 8 * (a / 8 % 16)
  {
  }

  lemma Split256(a: nat)
    ensures a % 256 == a % 8 + 8 * (a / 8 % 32)
  {
  }

  lemma Split1024(a: nat)
    ensures a % 1024 == a % 8 + 8 * (a / 8 % 128)
  {
  }

  /** Or-ing in a number below the lowest set bit adds it. */
  lemma {:induction false} OrDisjoint(a: nat, b: nat, k: nat)
    requires b <= Ones(k)
    ensures Or(ShiftLeft(a, k), b) == ShiftLeft(a, k) + b
  {
    if k > 0 && ShiftLeft(a, k) > 0 && b > 0 {
      var h := ShiftLeft(a, k - 1);
      OrDisjoint(a, b / 2, k - 1);
      assert Or(2 * h, b) == 2 * Or(h, b / 2) + b % 2;
    }
  }

  lemma ShiftByTen(a: nat)
    ensures ShiftLeft(a, 10) == 1024 * a && Ones(10) == 1023
  {
    assert ShiftLeft(a, 10) == 2 * ShiftLeft(a, 9) == 4 * ShiftLeft(a, 8) == 8 * ShiftLeft(a, 7);
    assert ShiftLeft(a, 7) == 2 * ShiftLeft(a, 6);
    assert ShiftLeft(a, 6) == 2 * ShiftLeft(a, 5) == 4 * ShiftLeft(a, 4) == 8 * ShiftLeft(a, 3);
    assert ShiftLeft(a, 3) == 2 * ShiftLeft(a, 2) == 4 * ShiftLeft(a, 1) == 8 * a;
    assert Ones(10) == 2 * Ones(9) + 1 == 4 * Ones(8) + 3 == 8 * Ones(7) + 7;
    assert Ones(7) == 2 * Ones(6) + 1 == 4 * Ones(5) + 3;
  }

  lemma ShiftBySix(a: nat)
    ensures ShiftRight(a, 6) == a / 64
  {
    var b := a / 2;
    var c := b / 2;
    var d := c / 2;
    assert ShiftRight(a, 6) == ShiftRight(b, 5) == ShiftRight(c, 4) == ShiftRight(d, 3);
    assert ShiftRight(d, 3) == ShiftRight(d / 2, 2) == ShiftRight(d / 2 / 2, 1) == d / 2 / 2 / 2;
    assert d == a / 8;
  }

  /** One step down of `(a | b) & m` where the mark `b` is even and the mask `m` is odd. */
  lemma MarkStep(a: nat, b: nat, m: nat)
    requires b > 0 && m > 0
    ensures And(Or(a, 2 * b), 2 * m + 1) == a % 2 + 2 * And(Or(a / 2, b), m)
  {
    hide And;
    assert Or(a, 2 * b) == 2 * Or(a / 2, b) + a % 2 by {
      assert 2 * b / 2 == b;
    }
    hide Or;
    OddMask(a % 2, Or(a / 2, b), m);
  }

  lemma OddMask(low: nat, high: nat, m: nat)
    requires low < 2
    ensures And(2 * high + low, 2 * m + 1) == low + 2 * And(high, m)
  {
    hide And;
    MaskStep(2 * high + low, m);
    assert (2 * high + low) / 2 == high && (2 * high + low) % 2 == low;
  }

  /** Three steps down. */
  lemma MarkByThree(a: nat, b: nat, m: nat)
    requires b > 0 && m > 0
    ensures And(Or(a, 8 * b), 8 * m + 7) == a % 8 + 8 * And(Or(a / 8, b), m)
  {
    hide And, Or;
    MarkStep(a, 4 * b, 4 * m + 3);
    MarkStep(a / 2, 2 * b, 2 * m + 1);
    MarkStep(a / 2 / 2, b, m);
    assert a / 2 / 2 / 2 == a / 8;
  }

  /** The continuation byte of UTF-8: the low six bits under the mark 10xxxxxx. */
  lemma Continuation(a: nat)
    ensures And(Or(a, 0x80), 0xBF) == 0x80 + a % 64
  {
    hide And, Or;
    MarkBySix(a, 2, 2);
    TopBit(a / 64);
  }

  lemma MarkBySix(a: nat, b: nat, m: nat)
    requires b > 0 && m > 0
    ensures And(Or(a, 64 * b), 64 * m + 63) == a % 64 + 64 * And(Or(a / 64, b), m)
  {
    hide And, Or;
    MarkByThree(a, 8 * b, 8 * m + 7);
    MarkByThree(a / 8, b, m);
    assert a / 8 / 8 == a / 64;
    assert a % 64 == a % 8 + 8 * (a / 8 % 8);
  }

  lemma TopBit(a: nat)
    ensures And(Or(a, 2), 2) == 2
  {
    var r := Or(a / 2, 1);
    assert Or(a, 2) == if a == 0 then 2 else 2 * r + a % 2;
    assert r % 2 == 1;
    assert And(r, 1) == 1 by { assert And(r / 2, 0) == 0; }
  }

  /** A mark whose low `k` bits are clear, over a number that fits them. */
  lemma Marked(a: nat, high: nat, k: nat, mark: nat)
    requires ShiftLeft(high, k) == mark && a <= Ones(k) && mark + a < 256
    ensures And(Or(a, mark), 0xFF) == mark + a
  {
    hide And, Or;
    OrCommutes(a, mark);
    OrDisjoint(high, a, k);
    MaskEight(mark + a);
  }

  /** The first byte of a multi-byte UTF-8 form: `a` below the mark, cut to a byte. */
  lemma Leading(a: nat, mark: nat)
    requires (mark == 0xC0 && a < 32) || (mark == 0xE0 && a < 16) || (mark == 0xF0 && a < 8)
    ensures And(Or(a, mark), 0xFF) == mark + a < 256
  {
    hide And, Or;
    assert Ones(3) == 7 && Ones(4) == 15 && Ones(5) == 31;
    assert ShiftLeft(6, 5) == 0xC0 && ShiftLeft(14, 4) == 0xE0 && ShiftLeft(30, 3) == 0xF0;
    if mark == 0xC0 {
      Marked(a, 6, 5, mark);
    } else if mark == 0xE0 {
      Marked(a, 14, 4, mark);
    } else {
      Marked(a, 30, 3, mark);
    }
  }

  lemma {:induction false} OrCommutes(a: nat, b: nat)
    ensures Or(a, b) == Or(b, a)
  {
    if a > 0 && b > 0 { OrCommutes(a / 2, b / 2); }
  }
}
