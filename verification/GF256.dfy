// The field GF(2^8) of section 4 of FIPS 197: byte addition, the shift-and-add
// product of section 4.2, the logarithm tables the program multiplies with, and
// the field laws that every later module uses.

module Galois {
  import opened Wrappers

  datatype GF256 = GF256(value: bv8)

  const Zero := GF256(0)
  const One := GF256(1)

  function Add(a: GF256, b: GF256): GF256 {
    GF256(a.value ^ b.value)
  }

  // Multiplication by x modulo x^8 + x^4 + x^3 + x + 1.
  function XTime(a: GF256): GF256 {
    GF256((a.value << 1) ^ (if a.value & 0x80 == 0 then 0 else 0x1b))
  }

  function When(bit: bool, a: GF256): GF256 {
    if bit then a else Zero
  }

  // The first n steps of shift-and-add multiplication.
  function ShiftAndAdd(a: GF256, b: bv8, n: nat): GF256
    decreases n
  {
    if n == 0 then Zero
    else Add(When(b & 1 == 1, a), ShiftAndAdd(XTime(a), b >> 1, n - 1))
  }

  // The reference product.
  function Mul(a: GF256, b: GF256): GF256 {
    ShiftAndAdd(a, b.value, 8)
  }

  // The multiplicative inverse by Fermat: a^254, six square-and-multiply steps and a squaring.
  function Inverse(a: GF256): GF256 {
    var a3 := Mul(Mul(a, a), a);
    var a7 := Mul(Mul(a3, a3), a);
    var a15 := Mul(Mul(a7, a7), a);
    var a31 := Mul(Mul(a15, a15), a);
    var a63 := Mul(Mul(a31, a31), a);
    var a127 := Mul(Mul(a63, a63), a);
    Mul(a127, a127)
  }

  function Div(a: GF256, b: GF256): GF256 {
    Mul(a, Inverse(b))
  }

  // ---------- Addition ----------

  lemma AddComm(a: GF256, b: GF256)
    ensures Add(a, b) == Add(b, a)
  {
  }

  lemma AddAssoc(a: GF256, b: GF256, c: GF256)
    ensures Add(Add(a, b), c) == Add(a, Add(b, c))
  {
  }

  lemma AddZero(a: GF256)
    ensures Add(a, Zero) == a == Add(Zero, a)
    ensures Add(a, a) == Zero
  {
  }

  lemma AddSwap(a: GF256, b: GF256, c: GF256, d: GF256)
    ensures Add(Add(a, b), Add(c, d)) == Add(Add(a, c), Add(b, d))
  {
  }

  lemma AddCancel(a: GF256, b: GF256)
    ensures Add(Add(a, b), b) == a
    ensures Add(a, b) == Zero <==> a == b
  {
  }

  // ---------- Shift-and-add is linear in its first argument ----------

  lemma XTimeLinear(a: GF256, b: GF256)
    ensures XTime(Add(a, b)) == Add(XTime(a), XTime(b))
  {
  }

  lemma XTimeZero()
    ensures XTime(Zero) == Zero
  {
  }

  lemma {:induction false} ShiftAndAddLinear(a: GF256, b: GF256, c: bv8, n: nat)
    ensures ShiftAndAdd(Add(a, b), c, n) == Add(ShiftAndAdd(a, c, n), ShiftAndAdd(b, c, n))
    ensures ShiftAndAdd(Zero, c, n) == Zero
    decreases n
  {
    hide Add, XTime;
    AddZero(Zero);
    if n > 0 {
      XTimeLinear(a, b);
      XTimeZero();
      ShiftAndAddLinear(XTime(a), XTime(b), c >> 1, n - 1);
      var bit := c & 1 == 1;
      AddSwap(When(bit, a), When(bit, b),
              ShiftAndAdd(XTime(a), c >> 1, n - 1), ShiftAndAdd(XTime(b), c >> 1, n - 1));
    }
  }

  lemma {:induction false} ShiftAndAddXTime(a: GF256, c: bv8, n: nat)
    ensures ShiftAndAdd(XTime(a), c, n) == XTime(ShiftAndAdd(a, c, n))
    decreases n
  {
    hide Add, XTime;
    XTimeZero();
    if n > 0 {
      ShiftAndAddXTime(XTime(a), c >> 1, n - 1);
      XTimeLinear(When(c & 1 == 1, a), ShiftAndAdd(XTime(a), c >> 1, n - 1));
    }
  }

  // The bits of v from k up, shifted back into place.
  function Tail(v: bv8, k: bv4): GF256
    requires k <= 8
  {
    GF256((v >> k) << k)
  }

  lemma TailStep(v: bv8, k: bv4)
    requires k < 8
    ensures (v >> k) >> 1 == v >> (k + 1)
    ensures Tail(v, k) == Add(When((v >> k) & 1 == 1, GF256(1 << k)), Tail(v, k + 1))
    ensures k < 7 ==> XTime(GF256(1 << k)) == GF256(1 << (k + 1))
  {
  }

  lemma TailEnds(v: bv8)
    ensures Tail(v, 0) == GF256(v)
    ensures Tail(v, 8) == Zero
    ensures GF256(1 << (0 as bv4)) == One
    ensures v >> (0 as bv4) == v
  {
  }

  // One * v built from its top bit down; n counts the bits done so far.
  lemma OneMulStep(v: bv8, k: bv4, n: nat)
    requires k < 8
    requires ShiftAndAdd(XTime(GF256(1 << k)), v >> (k + 1), n) == Tail(v, k + 1)
    ensures ShiftAndAdd(GF256(1 << k), v >> k, n + 1) == Tail(v, k)
    ensures 0 < k ==> XTime(GF256(1 << (k - 1))) == GF256(1 << k)
  {
    TailStep(v, k);
    if 0 < k {
      TailStep(v, k - 1);
    }
    hide XTime, Add, Tail;
  }

  lemma OneMulTop(v: bv8)
    ensures ShiftAndAdd(GF256(1 << (4 as bv4)), v >> (4 as bv4), 4) == Tail(v, 4)
    ensures XTime(GF256(1 << (3 as bv4))) == GF256(1 << (4 as bv4))
  {
    TailEnds(v);
    assert ShiftAndAdd(XTime(GF256(1 << (7 as bv4))), v >> (8 as bv4), 0) == Zero;
    hide *;
    OneMulStep(v, 7, 0);
    OneMulStep(v, 6, 1);
    OneMulStep(v, 5, 2);
    OneMulStep(v, 4, 3);
  }

  lemma OneMulEnd(b: GF256)
    requires ShiftAndAdd(GF256(1 << (0 as bv4)), b.value >> (0 as bv4), 8) == Tail(b.value, 0)
    ensures Mul(One, b) == b
  {
    TailEnds(b.value);
    hide ShiftAndAdd;
  }

  lemma OneMul(b: GF256)
    ensures Mul(One, b) == b
  {
    hide *;
    OneMulTop(b.value);
    OneMulStep(b.value, 3, 4);
    OneMulStep(b.value, 2, 5);
    OneMulStep(b.value, 1, 6);
    OneMulStep(b.value, 0, 7);
    OneMulEnd(b);
  }

  // ---------- The tables, in the sixteen rows of the source ----------

  const EXP_0: seq<bv8> := [
    0x01, 0x03, 0x05, 0x0f, 0x11, 0x33, 0x55, 0xff, 0x1a, 0x2e, 0x72, 0x96, 0xa1, 0xf8, 0x13, 0x35]
  const EXP_1: seq<bv8> := [
    0x5f, 0xe1, 0x38, 0x48, 0xd8, 0x73, 0x95, 0xa4, 0xf7, 0x02, 0x06, 0x0a, 0x1e, 0x22, 0x66, 0xaa]
  const EXP_2: seq<bv8> := [
    0xe5, 0x34, 0x5c, 0xe4, 0x37, 0x59, 0xeb, 0x26, 0x6a, 0xbe, 0xd9, 0x70, 0x90, 0xab, 0xe6, 0x31]
  const EXP_3: seq<bv8> := [
    0x53, 0xf5, 0x04, 0x0c, 0x14, 0x3c, 0x44, 0xcc, 0x4f, 0xd1, 0x68, 0xb8, 0xd3, 0x6e, 0xb2, 0xcd]
  const EXP_4: seq<bv8> := [
    0x4c, 0xd4, 0x67, 0xa9, 0xe0, 0x3b, 0x4d, 0xd7, 0x62, 0xa6, 0xf1, 0x08, 0x18, 0x28, 0x78, 0x88]
  const EXP_5: seq<bv8> := [
    0x83, 0x9e, 0xb9, 0xd0, 0x6b, 0xbd, 0xdc, 0x7f, 0x81, 0x98, 0xb3, 0xce, 0x49, 0xdb, 0x76, 0x9a]
  const EXP_6: seq<bv8> := [
    0xb5, 0xc4, 0x57, 0xf9, 0x10, 0x30, 0x50, 0xf0, 0x0b, 0x1d, 0x27, 0x69, 0xbb, 0xd6, 0x61, 0xa3]
  const EXP_7: seq<bv8> := [
    0xfe, 0x19, 0x2b, 0x7d, 0x87, 0x92, 0xad, 0xec, 0x2f, 0x71, 0x93, 0xae, 0xe9, 0x20, 0x60, 0xa0]
  const EXP_8: seq<bv8> := [
    0xfb, 0x16, 0x3a, 0x4e, 0xd2, 0x6d, 0xb7, 0xc2, 0x5d, 0xe7, 0x32, 0x56, 0xfa, 0x15, 0x3f, 0x41]
  const EXP_9: seq<bv8> := [
    0xc3, 0x5e, 0xe2, 0x3d, 0x47, 0xc9, 0x40, 0xc0, 0x5b, 0xed, 0x2c, 0x74, 0x9c, 0xbf, 0xda, 0x75]
  const EXP_A: seq<bv8> := [
    0x9f, 0xba, 0xd5, 0x64, 0xac, 0xef, 0x2a, 0x7e, 0x82, 0x9d, 0xbc, 0xdf, 0x7a, 0x8e, 0x89, 0x80]
  const EXP_B: seq<bv8> := [
    0x9b, 0xb6, 0xc1, 0x58, 0xe8, 0x23, 0x65, 0xaf, 0xea, 0x25, 0x6f, 0xb1, 0xc8, 0x43, 0xc5, 0x54]
  const EXP_C: seq<bv8> := [
    0xfc, 0x1f, 0x21, 0x63, 0xa5, 0xf4, 0x07, 0x09, 0x1b, 0x2d, 0x77, 0x99, 0xb0, 0xcb, 0x46, 0xca]
  const EXP_D: seq<bv8> := [
    0x45, 0xcf, 0x4a, 0xde, 0x79, 0x8b, 0x86, 0x91, 0xa8, 0xe3, 0x3e, 0x42, 0xc6, 0x51, 0xf3, 0x0e]
  const EXP_E: seq<bv8> := [
    0x12, 0x36, 0x5a, 0xee, 0x29, 0x7b, 0x8d, 0x8c, 0x8f, 0x8a, 0x85, 0x94, 0xa7, 0xf2, 0x0d, 0x17]
  const EXP_F: seq<bv8> := [
    0x39, 0x4b, 0xdd, 0x7c, 0x84, 0x97, 0xa2, 0xfd, 0x1c, 0x24, 0x6c, 0xb4, 0xc7, 0x52, 0xf6]

  const LOG_0: seq<nat> := [
    0x00, 0x19, 0x01, 0x32, 0x02, 0x1a, 0xc6, 0x4b, 0xc7, 0x1b, 0x68, 0x33, 0xee, 0xdf, 0x03, 0x64]
  const LOG_1: seq<nat> := [
    0x04, 0xe0, 0x0e, 0x34, 0x8d, 0x81, 0xef, 0x4c, 0x71, 0x08, 0xc8, 0xf8, 0x69, 0x1c, 0xc1, 0x7d]
  const LOG_2: seq<nat> := [
    0xc2, 0x1d, 0xb5, 0xf9, 0xb9, 0x27, 0x6a, 0x4d, 0xe4, 0xa6, 0x72, 0x9a, 0xc9, 0x09, 0x78, 0x65]
  const LOG_3: seq<nat> := [
    0x2f, 0x8a, 0x05, 0x21, 0x0f, 0xe1, 0x24, 0x12, 0xf0, 0x82, 0x45, 0x35, 0x93, 0xda, 0x8e, 0x96]
  const LOG_4: seq<nat> := [
    0x8f, 0xdb, 0xbd, 0x36, 0xd0, 0xce, 0x94, 0x13, 0x5c, 0xd2, 0xf1, 0x40, 0x46, 0x83, 0x38, 0x66]
  const LOG_5: seq<nat> := [
    0xdd, 0xfd, 0x30, 0xbf, 0x06, 0x8b, 0x62, 0xb3, 0x25, 0xe2, 0x98, 0x22, 0x88, 0x91, 0x10, 0x7e]
  const LOG_6: seq<nat> := [
    0x6e, 0x48, 0xc3, 0xa3, 0xb6, 0x1e, 0x42, 0x3a, 0x6b, 0x28, 0x54, 0xfa, 0x85, 0x3d, 0xba, 0x2b]
  const LOG_7: seq<nat> := [
    0x79, 0x0a, 0x15, 0x9b, 0x9f, 0x5e, 0xca, 0x4e, 0xd4, 0xac, 0xe5, 0xf3, 0x73, 0xa7, 0x57, 0xaf]
  const LOG_8: seq<nat> := [
    0x58, 0xa8, 0x50, 0xf4, 0xea, 0xd6, 0x74, 0x4f, 0xae, 0xe9, 0xd5, 0xe7, 0xe6, 0xad, 0xe8, 0x2c]
  const LOG_9: seq<nat> := [
    0xd7, 0x75, 0x7a, 0xeb, 0x16, 0x0b, 0xf5, 0x59, 0xcb, 0x5f, 0xb0, 0x9c, 0xa9, 0x51, 0xa0, 0x7f]
  const LOG_A: seq<nat> := [
    0x0c, 0xf6, 0x6f, 0x17, 0xc4, 0x49, 0xec, 0xd8, 0x43, 0x1f, 0x2d, 0xa4, 0x76, 0x7b, 0xb7, 0xcc]
  const LOG_B: seq<nat> := [
    0xbb, 0x3e, 0x5a, 0xfb, 0x60, 0xb1, 0x86, 0x3b, 0x52, 0xa1, 0x6c, 0xaa, 0x55, 0x29, 0x9d, 0x97]
  const LOG_C: seq<nat> := [
    0xb2, 0x87, 0x90, 0x61, 0xbe, 0xdc, 0xfc, 0xbc, 0x95, 0xcf, 0xcd, 0x37, 0x3f, 0x5b, 0xd1, 0x53]
  const LOG_D: seq<nat> := [
    0x39, 0x84, 0x3c, 0x41, 0xa2, 0x6d, 0x47, 0x14, 0x2a, 0x9e, 0x5d, 0x56, 0xf2, 0xd3, 0xab, 0x44]
  const LOG_E: seq<nat> := [
    0x11, 0x92, 0xd9, 0x23, 0x20, 0x2e, 0x89, 0xb4, 0x7c, 0xb8, 0x26, 0x77, 0x99, 0xe3, 0xa5, 0x67]
  const LOG_F: seq<nat> := [
    0x4a, 0xed, 0xde, 0xc5, 0x31, 0xfe, 0x18, 0x0d, 0x63, 0x8c, 0x80, 0xc0, 0xf7, 0x70, 0x07]

  function ExpRow(r: nat): (row: seq<bv8>)
    requires r < 16
    ensures |row| == if r < 15 then 16 else 15
  {
    match r
    case 0 => EXP_0
    case 1 => EXP_1
    case 2 => EXP_2
    case 3 => EXP_3
    case 4 => EXP_4
    case 5 => EXP_5
    case 6 => EXP_6
    case 7 => EXP_7
    case 8 => EXP_8
    case 9 => EXP_9
    case 10 => EXP_A
    case 11 => EXP_B
    case 12 => EXP_C
    case 13 => EXP_D
    case 14 => EXP_E
    case _ => EXP_F
  }

  function LogRow(r: nat): (row: seq<nat>)
    requires r < 16
    ensures |row| == if r < 15 then 16 else 15
  {
    match r
    case 0 => LOG_0
    case 1 => LOG_1
    case 2 => LOG_2
    case 3 => LOG_3
    case 4 => LOG_4
    case 5 => LOG_5
    case 6 => LOG_6
    case 7 => LOG_7
    case 8 => LOG_8
    case 9 => LOG_9
    case 10 => LOG_A
    case 11 => LOG_B
    case 12 => LOG_C
    case 13 => LOG_D
    case 14 => LOG_E
    case _ => LOG_F
  }

  // EXP[i] of the flat table.
  function ExpAt(i: nat): bv8
    requires i < 255
  {
    ExpRow(i / 16)[i % 16]
  }

  // ---------- EXP lists the powers of 3 ----------

  // Multiplication by the generator 3 = x + 1.
  function Triple(a: GF256): GF256 {
    Add(a, XTime(a))
  }

  function Power(n: nat): GF256 {
    if n == 0 then One else Triple(Power(n - 1))
  }

  // Each entry of a table row is three times the one before; last is the sixteenth entry
  // (the seventeenth power's cycle restart for the short row) and next the one after it.
  predicate Climbs(row: seq<bv8>, last: bv8, next: bv8)
    requires |row| >= 15
  {
    && GF256(row[1]) == Triple(GF256(row[0]))
    && GF256(row[2]) == Triple(GF256(row[1]))
    && GF256(row[3]) == Triple(GF256(row[2]))
    && GF256(row[4]) == Triple(GF256(row[3]))
    && GF256(row[5]) == Triple(GF256(row[4]))
    && GF256(row[6]) == Triple(GF256(row[5]))
    && GF256(row[7]) == Triple(GF256(row[6]))
    && GF256(row[8]) == Triple(GF256(row[7]))
    && GF256(row[9]) == Triple(GF256(row[8]))
    && GF256(row[10]) == Triple(GF256(row[9]))
    && GF256(row[11]) == Triple(GF256(row[10]))
    && GF256(row[12]) == Triple(GF256(row[11]))
    && GF256(row[13]) == Triple(GF256(row[12]))
    && GF256(row[14]) == Triple(GF256(row[13]))
    && GF256(last) == Triple(GF256(row[14]))
    && GF256(next) == Triple(GF256(last))
  }

  lemma ExpRow0() ensures Climbs(EXP_0, EXP_0[15], EXP_1[0]) {}
  lemma ExpRow1() ensures Climbs(EXP_1, EXP_1[15], EXP_2[0]) {}
  lemma ExpRow2() ensures Climbs(EXP_2, EXP_2[15], EXP_3[0]) {}
  lemma ExpRow3() ensures Climbs(EXP_3, EXP_3[15], EXP_4[0]) {}
  lemma ExpRow4() ensures Climbs(EXP_4, EXP_4[15], EXP_5[0]) {}
  lemma ExpRow5() ensures Climbs(EXP_5, EXP_5[15], EXP_6[0]) {}
  lemma ExpRow6() ensures Climbs(EXP_6, EXP_6[15], EXP_7[0]) {}
  lemma ExpRow7() ensures Climbs(EXP_7, EXP_7[15], EXP_8[0]) {}
  lemma ExpRow8() ensures Climbs(EXP_8, EXP_8[15], EXP_9[0]) {}
  lemma ExpRow9() ensures Climbs(EXP_9, EXP_9[15], EXP_A[0]) {}
  lemma ExpRowA() ensures Climbs(EXP_A, EXP_A[15], EXP_B[0]) {}
  lemma ExpRowB() ensures Climbs(EXP_B, EXP_B[15], EXP_C[0]) {}
  lemma ExpRowC() ensures Climbs(EXP_C, EXP_C[15], EXP_D[0]) {}
  lemma ExpRowD() ensures Climbs(EXP_D, EXP_D[15], EXP_E[0]) {}
  lemma ExpRowE() ensures Climbs(EXP_E, EXP_E[15], EXP_F[0]) {}
  // 3^255 = 1 closes the cycle.
  lemma ExpRowF() ensures Climbs(EXP_F, 0x01, 0x03) {}

  lemma RowPowers(row: seq<bv8>, last: bv8, next: bv8, i: nat)
    requires |row| >= 15 && Climbs(row, last, next) && GF256(row[0]) == Power(i)
    ensures forall c | 0 <= c < 15 :: GF256(row[c]) == Power(i + c)
    ensures GF256(last) == Power(i + 15)
    ensures GF256(next) == Power(i + 16)
  {
    hide Triple;
    assert GF256(row[1]) == Power(i + 1);
    assert GF256(row[2]) == Power(i + 2);
    assert GF256(row[3]) == Power(i + 3);
    assert GF256(row[4]) == Power(i + 4);
    assert GF256(row[5]) == Power(i + 5);
    assert GF256(row[6]) == Power(i + 6);
    assert GF256(row[7]) == Power(i + 7);
    assert GF256(row[8]) == Power(i + 8);
    assert GF256(row[9]) == Power(i + 9);
    assert GF256(row[10]) == Power(i + 10);
    assert GF256(row[11]) == Power(i + 11);
    assert GF256(row[12]) == Power(i + 12);
    assert GF256(row[13]) == Power(i + 13);
    assert GF256(row[14]) == Power(i + 14);
    assert GF256(last) == Power(i + 15);
  }

  lemma RowClimbs(r: nat)
    requires r < 15
    ensures Climbs(ExpRow(r), ExpRow(r)[15], ExpRow(r + 1)[0])
  {
    hide Climbs;
    match r {
      case 0 => ExpRow0();
      case 1 => ExpRow1();
      case 2 => ExpRow2();
      case 3 => ExpRow3();
      case 4 => ExpRow4();
      case 5 => ExpRow5();
      case 6 => ExpRow6();
      case 7 => ExpRow7();
      case 8 => ExpRow8();
      case 9 => ExpRow9();
      case 10 => ExpRowA();
      case 11 => ExpRowB();
      case 12 => ExpRowC();
      case 13 => ExpRowD();
      case _ => ExpRowE();
    }
  }

  lemma FirstAndLastRow()
    ensures GF256(ExpRow(0)[0]) == One && ExpRow(15) == EXP_F
  {
    assert ExpRow(0) == EXP_0;
    assert EXP_0[0] == 0x01;
  }

  lemma {:induction false} RowStart(r: nat)
    requires r < 16
    ensures GF256(ExpRow(r)[0]) == Power(16 * r)
  {
    if r == 0 {
      FirstAndLastRow();
      assert Power(0) == One;
      hide *;
    } else {
      hide *;
      RowStart(r - 1);
      RowClimbs(r - 1);
      RowPowers(ExpRow(r - 1), ExpRow(r - 1)[15], ExpRow(r)[0], 16 * r - 16);
    }
  }

  lemma RowEntry(r: nat, c: nat)
    requires r < 16 && c < if r < 15 then 16 else 15
    ensures GF256(ExpRow(r)[c]) == Power(16 * r + c)
  {
    hide *;
    RowStart(r);
    if r < 15 {
      RowClimbs(r);
      RowPowers(ExpRow(r), ExpRow(r)[15], ExpRow(r + 1)[0], 16 * r);
    } else {
      FirstAndLastRow();
      ExpRowF();
      RowPowers(ExpRow(r), 0x01, 0x03, 16 * r);
    }
  }

  lemma ExpIsPower(i: nat)
    requires i < 255
    ensures GF256(ExpAt(i)) == Power(i)
  {
    hide ExpRow, Power;
    RowEntry(i / 16, i % 16);
  }

  lemma PowerCycle()
    ensures Power(255) == One
  {
    assert One == GF256(0x01);
    hide *;
    var r := 15;
    RowStart(r);
    FirstAndLastRow();
    ExpRowF();
    RowPowers(ExpRow(r), 0x01, 0x03, 16 * r);
  }

  // ---------- LOG inverts EXP ----------

  lemma ExpPlace(r: nat, c: nat)
    requires r < 16 && c < if r < 15 then 16 else 15
    ensures ExpAt(16 * r + c) == ExpRow(r)[c]
  {
    hide ExpRow;
    assert (16 * r + c) / 16 == r;
  }

  lemma RowNames()
    ensures ExpRow(0) == EXP_0 && ExpRow(1) == EXP_1
    ensures ExpRow(2) == EXP_2 && ExpRow(3) == EXP_3
    ensures ExpRow(4) == EXP_4 && ExpRow(5) == EXP_5
    ensures ExpRow(6) == EXP_6 && ExpRow(7) == EXP_7
    ensures ExpRow(8) == EXP_8 && ExpRow(9) == EXP_9
    ensures ExpRow(10) == EXP_A && ExpRow(11) == EXP_B
    ensures ExpRow(12) == EXP_C && ExpRow(13) == EXP_D
    ensures ExpRow(14) == EXP_E && ExpRow(15) == EXP_F
  {
  }

  lemma Exp0(c: nat) requires c < 16 ensures ExpAt(0 + c) == EXP_0[c] { hide *; RowNames(); ExpPlace(0, c); }
  lemma Exp1(c: nat) requires c < 16 ensures ExpAt(16 + c) == EXP_1[c] { hide *; RowNames(); ExpPlace(1, c); }
  lemma Exp2(c: nat) requires c < 16 ensures ExpAt(32 + c) == EXP_2[c] { hide *; RowNames(); ExpPlace(2, c); }
  lemma Exp3(c: nat) requires c < 16 ensures ExpAt(48 + c) == EXP_3[c] { hide *; RowNames(); ExpPlace(3, c); }
  lemma Exp4(c: nat) requires c < 16 ensures ExpAt(64 + c) == EXP_4[c] { hide *; RowNames(); ExpPlace(4, c); }
  lemma Exp5(c: nat) requires c < 16 ensures ExpAt(80 + c) == EXP_5[c] { hide *; RowNames(); ExpPlace(5, c); }
  lemma Exp6(c: nat) requires c < 16 ensures ExpAt(96 + c) == EXP_6[c] { hide *; RowNames(); ExpPlace(6, c); }
  lemma Exp7(c: nat) requires c < 16 ensures ExpAt(112 + c) == EXP_7[c] { hide *; RowNames(); ExpPlace(7, c); }
  lemma Exp8(c: nat) requires c < 16 ensures ExpAt(128 + c) == EXP_8[c] { hide *; RowNames(); ExpPlace(8, c); }
  lemma Exp9(c: nat) requires c < 16 ensures ExpAt(144 + c) == EXP_9[c] { hide *; RowNames(); ExpPlace(9, c); }
  lemma ExpA(c: nat) requires c < 16 ensures ExpAt(160 + c) == EXP_A[c] { hide *; RowNames(); ExpPlace(10, c); }
  lemma ExpB(c: nat) requires c < 16 ensures ExpAt(176 + c) == EXP_B[c] { hide *; RowNames(); ExpPlace(11, c); }
  lemma ExpC(c: nat) requires c < 16 ensures ExpAt(192 + c) == EXP_C[c] { hide *; RowNames(); ExpPlace(12, c); }
  lemma ExpD(c: nat) requires c < 16 ensures ExpAt(208 + c) == EXP_D[c] { hide *; RowNames(); ExpPlace(13, c); }
  lemma ExpE(c: nat) requires c < 16 ensures ExpAt(224 + c) == EXP_E[c] { hide *; RowNames(); ExpPlace(14, c); }
  lemma ExpF(c: nat) requires c < 15 ensures ExpAt(240 + c) == EXP_F[c] { hide *; RowNames(); ExpPlace(15, c); }

  // Each row of LOG sends 16r + 1, 16r + 2, ... to the place of that byte in EXP.

  lemma LogRow0a()
    ensures LOG_0[0] < 255 && LOG_0[1] < 255 && LOG_0[2] < 255 && LOG_0[3] < 255
    ensures LOG_0[4] < 255 && LOG_0[5] < 255 && LOG_0[6] < 255 && LOG_0[7] < 255
    ensures ExpAt(LOG_0[0]) == 1 && ExpAt(LOG_0[1]) == 2 && ExpAt(LOG_0[2]) == 3 && ExpAt(LOG_0[3]) == 4
    ensures ExpAt(LOG_0[4]) == 5 && ExpAt(LOG_0[5]) == 6 && ExpAt(LOG_0[6]) == 7 && ExpAt(LOG_0[7]) == 8
  {
    hide ExpAt;
    Exp0(0); Exp1(9); Exp0(1); Exp3(2); Exp0(2); Exp1(10); ExpC(6); Exp4(11);
  }

  lemma LogRow0b()
    ensures LOG_0[8] < 255 && LOG_0[9] < 255 && LOG_0[10] < 255 && LOG_0[11] < 255
    ensures LOG_0[12] < 255 && LOG_0[13] < 255 && LOG_0[14] < 255 && LOG_0[15] < 255
    ensures ExpAt(LOG_0[8]) == 9 && ExpAt(LOG_0[9]) == 10 && ExpAt(LOG_0[10]) == 11 && ExpAt(LOG_0[11]) == 12
    ensures ExpAt(LOG_0[12]) == 13 && ExpAt(LOG_0[13]) == 14 && ExpAt(LOG_0[14]) == 15 && ExpAt(LOG_0[15]) == 16
  {
    hide ExpAt;
    ExpC(7); Exp1(11); Exp6(8); Exp3(3); ExpE(14); ExpD(15); Exp0(3); Exp6(4);
  }

  lemma LogRow1a()
    ensures LOG_1[0] < 255 && LOG_1[1] < 255 && LOG_1[2] < 255 && LOG_1[3] < 255
    ensures LOG_1[4] < 255 && LOG_1[5] < 255 && LOG_1[6] < 255 && LOG_1[7] < 255
    ensures ExpAt(LOG_1[0]) == 17 && ExpAt(LOG_1[1]) == 18 && ExpAt(LOG_1[2]) == 19 && ExpAt(LOG_1[3]) == 20
    ensures ExpAt(LOG_1[4]) == 21 && ExpAt(LOG_1[5]) == 22 && ExpAt(LOG_1[6]) == 23 && ExpAt(LOG_1[7]) == 24
  {
    hide ExpAt;
    Exp0(4); ExpE(0); Exp0(14); Exp3(4); Exp8(13); Exp8(1); ExpE(15); Exp4(12);
  }

  lemma LogRow1b()
    ensures LOG_1[8] < 255 && LOG_1[9] < 255 && LOG_1[10] < 255 && LOG_1[11] < 255
    ensures LOG_1[12] < 255 && LOG_1[13] < 255 && LOG_1[14] < 255 && LOG_1[15] < 255
    ensures ExpAt(LOG_1[8]) == 25 && ExpAt(LOG_1[9]) == 26 && ExpAt(LOG_1[10]) == 27 && ExpAt(LOG_1[11]) == 28
    ensures ExpAt(LOG_1[12]) == 29 && ExpAt(LOG_1[13]) == 30 && ExpAt(LOG_1[14]) == 31 && ExpAt(LOG_1[15]) == 32
  {
    hide ExpAt;
    Exp7(1); Exp0(8); ExpC(8); ExpF(8); Exp6(9); Exp1(12); ExpC(1); Exp7(13);
  }

  lemma LogRow2a()
    ensures LOG_2[0] < 255 && LOG_2[1] < 255 && LOG_2[2] < 255 && LOG_2[3] < 255
    ensures LOG_2[4] < 255 && LOG_2[5] < 255 && LOG_2[6] < 255 && LOG_2[7] < 255
    ensures ExpAt(LOG_2[0]) == 33 && ExpAt(LOG_2[1]) == 34 && ExpAt(LOG_2[2]) == 35 && ExpAt(LOG_2[3]) == 36
    ensures ExpAt(LOG_2[4]) == 37 && ExpAt(LOG_2[5]) == 38 && ExpAt(LOG_2[6]) == 39 && ExpAt(LOG_2[7]) == 40
  {
    hide ExpAt;
    ExpC(2); Exp1(13); ExpB(5); ExpF(9); ExpB(9); Exp2(7); Exp6(10); Exp4(13);
  }

  lemma LogRow2b()
    ensures LOG_2[8] < 255 && LOG_2[9] < 255 && LOG_2[10] < 255 && LOG_2[11] < 255
    ensures LOG_2[12] < 255 && LOG_2[13] < 255 && LOG_2[14] < 255 && LOG_2[15] < 255
    ensures ExpAt(LOG_2[8]) == 41 && ExpAt(LOG_2[9]) == 42 && ExpAt(LOG_2[10]) == 43 && ExpAt(LOG_2[11]) == 44
    ensures ExpAt(LOG_2[12]) == 45 && ExpAt(LOG_2[13]) == 46 && ExpAt(LOG_2[14]) == 47 && ExpAt(LOG_2[15]) == 48
  {
    hide ExpAt;
    ExpE(4); ExpA(6); Exp7(2); Exp9(10); ExpC(9); Exp0(9); Exp7(8); Exp6(5);
  }

  lemma LogRow3a()
    ensures LOG_3[0] < 255 && LOG_3[1] < 255 && LOG_3[2] < 255 && LOG_3[3] < 255
    ensures LOG_3[4] < 255 && LOG_3[5] < 255 && LOG_3[6] < 255 && LOG_3[7] < 255
    ensures ExpAt(LOG_3[0]) == 49 && ExpAt(LOG_3[1]) == 50 && ExpAt(LOG_3[2]) == 51 && ExpAt(LOG_3[3]) == 52
    ensures ExpAt(LOG_3[4]) == 53 && ExpAt(LOG_3[5]) == 54 && ExpAt(LOG_3[6]) == 55 && ExpAt(LOG_3[7]) == 56
  {
    hide ExpAt;
    Exp2(15); Exp8(10); Exp0(5); Exp2(1); Exp0(15); ExpE(1); Exp2(4); Exp1(2);
  }

  lemma LogRow3b()
    ensures LOG_3[8] < 255 && LOG_3[9] < 255 && LOG_3[10] < 255 && LOG_3[11] < 255
    ensures LOG_3[12] < 255 && LOG_3[13] < 255 && LOG_3[14] < 255 && LOG_3[15] < 255
    ensures ExpAt(LOG_3[8]) == 57 && ExpAt(LOG_3[9]) == 58 && ExpAt(LOG_3[10]) == 59 && ExpAt(LOG_3[11]) == 60
    ensures ExpAt(LOG_3[12]) == 61 && ExpAt(LOG_3[13]) == 62 && ExpAt(LOG_3[14]) == 63 && ExpAt(LOG_3[15]) == 64
  {
    hide ExpAt;
    ExpF(0); Exp8(2); Exp4(5); Exp3(5); Exp9(3); ExpD(10); Exp8(14); Exp9(6);
  }

  lemma LogRow4a()
    ensures LOG_4[0] < 255 && LOG_4[1] < 255 && LOG_4[2] < 255 && LOG_4[3] < 255
    ensures LOG_4[4] < 255 && LOG_4[5] < 255 && LOG_4[6] < 255 && LOG_4[7] < 255
    ensures ExpAt(LOG_4[0]) == 65 && ExpAt(LOG_4[1]) == 66 && ExpAt(LOG_4[2]) == 67 && ExpAt(LOG_4[3]) == 68
    ensures ExpAt(LOG_4[4]) == 69 && ExpAt(LOG_4[5]) == 70 && ExpAt(LOG_4[6]) == 71 && ExpAt(LOG_4[7]) == 72
  {
    hide ExpAt;
    Exp8(15); ExpD(11); ExpB(13); Exp3(6); ExpD(0); ExpC(14); Exp9(4); Exp1(3);
  }

  lemma LogRow4b()
    ensures LOG_4[8] < 255 && LOG_4[9] < 255 && LOG_4[10] < 255 && LOG_4[11] < 255
    ensures LOG_4[12] < 255 && LOG_4[13] < 255 && LOG_4[14] < 255 && LOG_4[15] < 255
    ensures ExpAt(LOG_4[8]) == 73 && ExpAt(LOG_4[9]) == 74 && ExpAt(LOG_4[10]) == 75 && ExpAt(LOG_4[11]) == 76
    ensures ExpAt(LOG_4[12]) == 77 && ExpAt(LOG_4[13]) == 78 && ExpAt(LOG_4[14]) == 79 && ExpAt(LOG_4[15]) == 80
  {
    hide ExpAt;
    Exp5(12); ExpD(2); ExpF(1); Exp4(0); Exp4(6); Exp8(3); Exp3(8); Exp6(6);
  }

  lemma LogRow5a()
    ensures LOG_5[0] < 255 && LOG_5[1] < 255 && LOG_5[2] < 255 && LOG_5[3] < 255
    ensures LOG_5[4] < 255 && LOG_5[5] < 255 && LOG_5[6] < 255 && LOG_5[7] < 255
    ensures ExpAt(LOG_5[0]) == 81 && ExpAt(LOG_5[1]) == 82 && ExpAt(LOG_5[2]) == 83 && ExpAt(LOG_5[3]) == 84
    ensures ExpAt(LOG_5[4]) == 85 && ExpAt(LOG_5[5]) == 86 && ExpAt(LOG_5[6]) == 87 && ExpAt(LOG_5[7]) == 88
  {
    hide ExpAt;
    ExpD(13); ExpF(13); Exp3(0); ExpB(15); Exp0(6); Exp8(11); Exp6(2); ExpB(3);
  }

  lemma LogRow5b()
    ensures LOG_5[8] < 255 && LOG_5[9] < 255 && LOG_5[10] < 255 && LOG_5[11] < 255
    ensures LOG_5[12] < 255 && LOG_5[13] < 255 && LOG_5[14] < 255 && LOG_5[15] < 255
    ensures ExpAt(LOG_5[8]) == 89 && ExpAt(LOG_5[9]) == 90 && ExpAt(LOG_5[10]) == 91 && ExpAt(LOG_5[11]) == 92
    ensures ExpAt(LOG_5[12]) == 93 && ExpAt(LOG_5[13]) == 94 && ExpAt(LOG_5[14]) == 95 && ExpAt(LOG_5[15]) == 96
  {
    hide ExpAt;
    Exp2(5); ExpE(2); Exp9(8); Exp2(2); Exp8(8); Exp9(1); Exp1(0); Exp7(14);
  }

  lemma LogRow6a()
    ensures LOG_6[0] < 255 && LOG_6[1] < 255 && LOG_6[2] < 255 && LOG_6[3] < 255
    ensures LOG_6[4] < 255 && LOG_6[5] < 255 && LOG_6[6] < 255 && LOG_6[7] < 255
    ensures ExpAt(LOG_6[0]) == 97 && ExpAt(LOG_6[1]) == 98 && ExpAt(LOG_6[2]) == 99 && ExpAt(LOG_6[3]) == 100
    ensures ExpAt(LOG_6[4]) == 101 && ExpAt(LOG_6[5]) == 102 && ExpAt(LOG_6[6]) == 103 && ExpAt(LOG_6[7]) == 104
  {
    hide ExpAt;
    Exp6(14); Exp4(8); ExpC(3); ExpA(3); ExpB(6); Exp1(14); Exp4(2); Exp3(10);
  }

  lemma LogRow6b()
    ensures LOG_6[8] < 255 && LOG_6[9] < 255 && LOG_6[10] < 255 && LOG_6[11] < 255
    ensures LOG_6[12] < 255 && LOG_6[13] < 255 && LOG_6[14] < 255 && LOG_6[15] < 255
    ensures ExpAt(LOG_6[8]) == 105 && ExpAt(LOG_6[9]) == 106 && ExpAt(LOG_6[10]) == 107 && ExpAt(LOG_6[11]) == 108
    ensures ExpAt(LOG_6[12]) == 109 && ExpAt(LOG_6[13]) == 110 && ExpAt(LOG_6[14]) == 111 && ExpAt(LOG_6[15]) == 112
  {
    hide ExpAt;
    Exp6(11); Exp2(8); Exp5(4); ExpF(10); Exp8(5); Exp3(13); ExpB(10); Exp2(11);
  }

  lemma LogRow7a()
    ensures LOG_7[0] < 255 && LOG_7[1] < 255 && LOG_7[2] < 255 && LOG_7[3] < 255
    ensures LOG_7[4] < 255 && LOG_7[5] < 255 && LOG_7[6] < 255 && LOG_7[7] < 255
    ensures ExpAt(LOG_7[0]) == 113 && ExpAt(LOG_7[1]) == 114 && ExpAt(LOG_7[2]) == 115 && ExpAt(LOG_7[3]) == 116
    ensures ExpAt(LOG_7[4]) == 117 && ExpAt(LOG_7[5]) == 118 && ExpAt(LOG_7[6]) == 119 && ExpAt(LOG_7[7]) == 120
  {
    hide ExpAt;
    Exp7(9); Exp0(10); Exp1(5); Exp9(11); Exp9(15); Exp5(14); ExpC(10); Exp4(14);
  }

  lemma LogRow7b()
    ensures LOG_7[8] < 255 && LOG_7[9] < 255 && LOG_7[10] < 255 && LOG_7[11] < 255
    ensures LOG_7[12] < 255 && LOG_7[13] < 255 && LOG_7[14] < 255 && LOG_7[15] < 255
    ensures ExpAt(LOG_7[8]) == 121 && ExpAt(LOG_7[9]) == 122 && ExpAt(LOG_7[10]) == 123 && ExpAt(LOG_7[11]) == 124
    ensures ExpAt(LOG_7[12]) == 125 && ExpAt(LOG_7[13]) == 126 && ExpAt(LOG_7[14]) == 127 && ExpAt(LOG_7[15]) == 128
  {
    hide ExpAt;
    ExpD(4); ExpA(12); ExpE(5); ExpF(3); Exp7(3); ExpA(7); Exp5(7); ExpA(15);
  }

  lemma LogRow8a()
    ensures LOG_8[0] < 255 && LOG_8[1] < 255 && LOG_8[2] < 255 && LOG_8[3] < 255
    ensures LOG_8[4] < 255 && LOG_8[5] < 255 && LOG_8[6] < 255 && LOG_8[7] < 255
    ensures ExpAt(LOG_8[0]) == 129 && ExpAt(LOG_8[1]) == 130 && ExpAt(LOG_8[2]) == 131 && ExpAt(LOG_8[3]) == 132
    ensures ExpAt(LOG_8[4]) == 133 && ExpAt(LOG_8[5]) == 134 && ExpAt(LOG_8[6]) == 135 && ExpAt(LOG_8[7]) == 136
  {
    hide ExpAt;
    Exp5(8); ExpA(8); Exp5(0); ExpF(4); ExpE(10); ExpD(6); Exp7(4); Exp4(15);
  }

  lemma LogRow8b()
    ensures LOG_8[8] < 255 && LOG_8[9] < 255 && LOG_8[10] < 255 && LOG_8[11] < 255
    ensures LOG_8[12] < 255 && LOG_8[13] < 255 && LOG_8[14] < 255 && LOG_8[15] < 255
    ensures ExpAt(LOG_8[8]) == 137 && ExpAt(LOG_8[9]) == 138 && ExpAt(LOG_8[10]) == 139 && ExpAt(LOG_8[11]) == 140
    ensures ExpAt(LOG_8[12]) == 141 && ExpAt(LOG_8[13]) == 142 && ExpAt(LOG_8[14]) == 143 && ExpAt(LOG_8[15]) == 144
  {
    hide ExpAt;
    ExpA(14); ExpE(9); ExpD(5); ExpE(7); ExpE(6); ExpA(13); ExpE(8); Exp2(12);
  }

  lemma LogRow9a()
    ensures LOG_9[0] < 255 && LOG_9[1] < 255 && LOG_9[2] < 255 && LOG_9[3] < 255
    ensures LOG_9[4] < 255 && LOG_9[5] < 255 && LOG_9[6] < 255 && LOG_9[7] < 255
    ensures ExpAt(LOG_9[0]) == 145 && ExpAt(LOG_9[1]) == 146 && ExpAt(LOG_9[2]) == 147 && ExpAt(LOG_9[3]) == 148
    ensures ExpAt(LOG_9[4]) == 149 && ExpAt(LOG_9[5]) == 150 && ExpAt(LOG_9[6]) == 151 && ExpAt(LOG_9[7]) == 152
  {
    hide ExpAt;
    ExpD(7); Exp7(5); Exp7(10); ExpE(11); Exp1(6); Exp0(11); ExpF(5); Exp5(9);
  }

  lemma LogRow9b()
    ensures LOG_9[8] < 255 && LOG_9[9] < 255 && LOG_9[10] < 255 && LOG_9[11] < 255
    ensures LOG_9[12] < 255 && LOG_9[13] < 255 && LOG_9[14] < 255 && LOG_9[15] < 255
    ensures ExpAt(LOG_9[8]) == 153 && ExpAt(LOG_9[9]) == 154 && ExpAt(LOG_9[10]) == 155 && ExpAt(LOG_9[11]) == 156
    ensures ExpAt(LOG_9[12]) == 157 && ExpAt(LOG_9[13]) == 158 && ExpAt(LOG_9[14]) == 159 && ExpAt(LOG_9[15]) == 160
  {
    hide ExpAt;
    ExpC(11); Exp5(15); ExpB(0); Exp9(12); ExpA(9); Exp5(1); ExpA(0); Exp7(15);
  }

  lemma LogRowAa()
    ensures LOG_A[0] < 255 && LOG_A[1] < 255 && LOG_A[2] < 255 && LOG_A[3] < 255
    ensures LOG_A[4] < 255 && LOG_A[5] < 255 && LOG_A[6] < 255 && LOG_A[7] < 255
    ensures ExpAt(LOG_A[0]) == 161 && ExpAt(LOG_A[1]) == 162 && ExpAt(LOG_A[2]) == 163 && ExpAt(LOG_A[3]) == 164
    ensures ExpAt(LOG_A[4]) == 165 && ExpAt(LOG_A[5]) == 166 && ExpAt(LOG_A[6]) == 167 && ExpAt(LOG_A[7]) == 168
  {
    hide ExpAt;
    Exp0(12); ExpF(6); Exp6(15); Exp1(7); ExpC(4); Exp4(9); ExpE(12); ExpD(8);
  }

  lemma LogRowAb()
    ensures LOG_A[8] < 255 && LOG_A[9] < 255 && LOG_A[10] < 255 && LOG_A[11] < 255
    ensures LOG_A[12] < 255 && LOG_A[13] < 255 && LOG_A[14] < 255 && LOG_A[15] < 255
    ensures ExpAt(LOG_A[8]) == 169 && ExpAt(LOG_A[9]) == 170 && ExpAt(LOG_A[10]) == 171 && ExpAt(LOG_A[11]) == 172
    ensures ExpAt(LOG_A[12]) == 173 && ExpAt(LOG_A[13]) == 174 && ExpAt(LOG_A[14]) == 175 && ExpAt(LOG_A[15]) == 176
  {
    hide ExpAt;
    Exp4(3); Exp1(15); Exp2(13); ExpA(4); Exp7(6); Exp7(11); ExpB(7); ExpC(12);
  }

  lemma LogRowBa()
    ensures LOG_B[0] < 255 && LOG_B[1] < 255 && LOG_B[2] < 255 && LOG_B[3] < 255
    ensures LOG_B[4] < 255 && LOG_B[5] < 255 && LOG_B[6] < 255 && LOG_B[7] < 255
    ensures ExpAt(LOG_B[0]) == 177 && ExpAt(LOG_B[1]) == 178 && ExpAt(LOG_B[2]) == 179 && ExpAt(LOG_B[3]) == 180
    ensures ExpAt(LOG_B[4]) == 181 && ExpAt(LOG_B[5]) == 182 && ExpAt(LOG_B[6]) == 183 && ExpAt(LOG_B[7]) == 184
  {
    hide ExpAt;
    ExpB(11); Exp3(14); Exp5(10); ExpF(11); Exp6(0); ExpB(1); Exp8(6); Exp3(11);
  }

  lemma LogRowBb()
    ensures LOG_B[8] < 255 && LOG_B[9] < 255 && LOG_B[10] < 255 && LOG_B[11] < 255
    ensures LOG_B[12] < 255 && LOG_B[13] < 255 && LOG_B[14] < 255 && LOG_B[15] < 255
    ensures ExpAt(LOG_B[8]) == 185 && ExpAt(LOG_B[9]) == 186 && ExpAt(LOG_B[10]) == 187 && ExpAt(LOG_B[11]) == 188
    ensures ExpAt(LOG_B[12]) == 189 && ExpAt(LOG_B[13]) == 190 && ExpAt(LOG_B[14]) == 191 && ExpAt(LOG_B[15]) == 192
  {
    hide ExpAt;
    Exp5(2); ExpA(1); Exp6(12); ExpA(10); Exp5(5); Exp2(9); Exp9(13); Exp9(7);
  }

  lemma LogRowCa()
    ensures LOG_C[0] < 255 && LOG_C[1] < 255 && LOG_C[2] < 255 && LOG_C[3] < 255
    ensures LOG_C[4] < 255 && LOG_C[5] < 255 && LOG_C[6] < 255 && LOG_C[7] < 255
    ensures ExpAt(LOG_C[0]) == 193 && ExpAt(LOG_C[1]) == 194 && ExpAt(LOG_C[2]) == 195 && ExpAt(LOG_C[3]) == 196
    ensures ExpAt(LOG_C[4]) == 197 && ExpAt(LOG_C[5]) == 198 && ExpAt(LOG_C[6]) == 199 && ExpAt(LOG_C[7]) == 200
  {
    hide ExpAt;
    ExpB(2); Exp8(7); Exp9(0); Exp6(1); ExpB(14); ExpD(12); ExpF(12); ExpB(12);
  }

  lemma LogRowCb()
    ensures LOG_C[8] < 255 && LOG_C[9] < 255 && LOG_C[10] < 255 && LOG_C[11] < 255
    ensures LOG_C[12] < 255 && LOG_C[13] < 255 && LOG_C[14] < 255 && LOG_C[15] < 255
    ensures ExpAt(LOG_C[8]) == 201 && ExpAt(LOG_C[9]) == 202 && ExpAt(LOG_C[10]) == 203 && ExpAt(LOG_C[11]) == 204
    ensures ExpAt(LOG_C[12]) == 205 && ExpAt(LOG_C[13]) == 206 && ExpAt(LOG_C[14]) == 207 && ExpAt(LOG_C[15]) == 208
  {
    hide ExpAt;
    Exp9(5); ExpC(15); ExpC(13); Exp3(7); Exp3(15); Exp5(11); ExpD(1); Exp5(3);
  }

  lemma LogRowDa()
    ensures LOG_D[0] < 255 && LOG_D[1] < 255 && LOG_D[2] < 255 && LOG_D[3] < 255
    ensures LOG_D[4] < 255 && LOG_D[5] < 255 && LOG_D[6] < 255 && LOG_D[7] < 255
    ensures ExpAt(LOG_D[0]) == 209 && ExpAt(LOG_D[1]) == 210 && ExpAt(LOG_D[2]) == 211 && ExpAt(LOG_D[3]) == 212
    ensures ExpAt(LOG_D[4]) == 213 && ExpAt(LOG_D[5]) == 214 && ExpAt(LOG_D[6]) == 215 && ExpAt(LOG_D[7]) == 216
  {
    hide ExpAt;
    Exp3(9); Exp8(4); Exp3(12); Exp4(1); ExpA(2); Exp6(13); Exp4(7); Exp1(4);
  }

  lemma LogRowDb()
    ensures LOG_D[8] < 255 && LOG_D[9] < 255 && LOG_D[10] < 255 && LOG_D[11] < 255
    ensures LOG_D[12] < 255 && LOG_D[13] < 255 && LOG_D[14] < 255 && LOG_D[15] < 255
    ensures ExpAt(LOG_D[8]) == 217 && ExpAt(LOG_D[9]) == 218 && ExpAt(LOG_D[10]) == 219 && ExpAt(LOG_D[11]) == 220
    ensures ExpAt(LOG_D[12]) == 221 && ExpAt(LOG_D[13]) == 222 && ExpAt(LOG_D[14]) == 223 && ExpAt(LOG_D[15]) == 224
  {
    hide ExpAt;
    Exp2(10); Exp9(14); Exp5(13); Exp5(6); ExpF(2); ExpD(3); ExpA(11); Exp4(4);
  }

  lemma LogRowEa()
    ensures LOG_E[0] < 255 && LOG_E[1] < 255 && LOG_E[2] < 255 && LOG_E[3] < 255
    ensures LOG_E[4] < 255 && LOG_E[5] < 255 && LOG_E[6] < 255 && LOG_E[7] < 255
    ensures ExpAt(LOG_E[0]) == 225 && ExpAt(LOG_E[1]) == 226 && ExpAt(LOG_E[2]) == 227 && ExpAt(LOG_E[3]) == 228
    ensures ExpAt(LOG_E[4]) == 229 && ExpAt(LOG_E[5]) == 230 && ExpAt(LOG_E[6]) == 231 && ExpAt(LOG_E[7]) == 232
  {
    hide ExpAt;
    Exp1(1); Exp9(2); ExpD(9); Exp2(3); Exp2(0); Exp2(14); Exp8(9); ExpB(4);
  }

  lemma LogRowEb()
    ensures LOG_E[8] < 255 && LOG_E[9] < 255 && LOG_E[10] < 255 && LOG_E[11] < 255
    ensures LOG_E[12] < 255 && LOG_E[13] < 255 && LOG_E[14] < 255 && LOG_E[15] < 255
    ensures ExpAt(LOG_E[8]) == 233 && ExpAt(LOG_E[9]) == 234 && ExpAt(LOG_E[10]) == 235 && ExpAt(LOG_E[11]) == 236
    ensures ExpAt(LOG_E[12]) == 237 && ExpAt(LOG_E[13]) == 238 && ExpAt(LOG_E[14]) == 239 && ExpAt(LOG_E[15]) == 240
  {
    hide ExpAt;
    Exp7(12); ExpB(8); Exp2(6); Exp7(7); Exp9(9); ExpE(3); ExpA(5); Exp6(7);
  }

  lemma LogRowFa()
    ensures LOG_F[0] < 255 && LOG_F[1] < 255 && LOG_F[2] < 255 && LOG_F[3] < 255
    ensures LOG_F[4] < 255 && LOG_F[5] < 255 && LOG_F[6] < 255 && LOG_F[7] < 255
    ensures ExpAt(LOG_F[0]) == 241 && ExpAt(LOG_F[1]) == 242 && ExpAt(LOG_F[2]) == 243 && ExpAt(LOG_F[3]) == 244
    ensures ExpAt(LOG_F[4]) == 245 && ExpAt(LOG_F[5]) == 246 && ExpAt(LOG_F[6]) == 247 && ExpAt(LOG_F[7]) == 248
  {
    hide ExpAt;
    Exp4(10); ExpE(13); ExpD(14); ExpC(5); Exp3(1); ExpF(14); Exp1(8); Exp0(13);
  }

  lemma LogRowFb()
    ensures LOG_F[8] < 255 && LOG_F[9] < 255 && LOG_F[10] < 255 && LOG_F[11] < 255
    ensures LOG_F[12] < 255 && LOG_F[13] < 255 && LOG_F[14] < 255
    ensures ExpAt(LOG_F[8]) == 249 && ExpAt(LOG_F[9]) == 250 && ExpAt(LOG_F[10]) == 251 && ExpAt(LOG_F[11]) == 252
    ensures ExpAt(LOG_F[12]) == 253 && ExpAt(LOG_F[13]) == 254 && ExpAt(LOG_F[14]) == 255
  {
    hide ExpAt;
    Exp6(3); Exp8(12); Exp8(0); ExpC(0); ExpF(7); Exp7(0); Exp0(7);
  }

  predicate LogEntry(r: nat, c: nat)
    requires r < 16 && c < if r < 15 then 16 else 15
  {
    var l := LogRow(r)[c];
    && l < 255
    && ExpAt(l) == (16 * r + c + 1) as bv8
  }

  lemma LogEntry0(c: nat)
    requires c < 16
    ensures LogEntry(0, c)
  {
    LogRow0a();
    LogRow0b();
    hide ExpAt;
  }

  lemma LogEntry1(c: nat)
    requires c < 16
    ensures LogEntry(1, c)
  {
    LogRow1a();
    LogRow1b();
    hide ExpAt;
  }

  lemma LogEntry2(c: nat)
    requires c < 16
    ensures LogEntry(2, c)
  {
    LogRow2a();
    LogRow2b();
    hide ExpAt;
  }

  lemma LogEntry3(c: nat)
    requires c < 16
    ensures LogEntry(3, c)
  {
    LogRow3a();
    LogRow3b();
    hide ExpAt;
  }

  lemma LogEntry4(c: nat)
    requires c < 16
    ensures LogEntry(4, c)
  {
    LogRow4a();
    LogRow4b();
    hide ExpAt;
  }

  lemma LogEntry5(c: nat)
    requires c < 16
    ensures LogEntry(5, c)
  {
    LogRow5a();
    LogRow5b();
    hide ExpAt;
  }

  lemma LogEntry6(c: nat)
    requires c < 16
    ensures LogEntry(6, c)
  {
    LogRow6a();
    LogRow6b();
    hide ExpAt;
  }

  lemma LogEntry7(c: nat)
    requires c < 16
    ensures LogEntry(7, c)
  {
    LogRow7a();
    LogRow7b();
    hide ExpAt;
  }

  lemma LogEntry8(c: nat)
    requires c < 16
    ensures LogEntry(8, c)
  {
    LogRow8a();
    LogRow8b();
    hide ExpAt;
  }

  lemma LogEntry9(c: nat)
    requires c < 16
    ensures LogEntry(9, c)
  {
    LogRow9a();
    LogRow9b();
    hide ExpAt;
  }

  lemma LogEntryA(c: nat)
    requires c < 16
    ensures LogEntry(10, c)
  {
    LogRowAa();
    LogRowAb();
    hide ExpAt;
  }

  lemma LogEntryB(c: nat)
    requires c < 16
    ensures LogEntry(11, c)
  {
    LogRowBa();
    LogRowBb();
    hide ExpAt;
  }

  lemma LogEntryC(c: nat)
    requires c < 16
    ensures LogEntry(12, c)
  {
    LogRowCa();
    LogRowCb();
    hide ExpAt;
  }

  lemma LogEntryD(c: nat)
    requires c < 16
    ensures LogEntry(13, c)
  {
    LogRowDa();
    LogRowDb();
    hide ExpAt;
  }

  lemma LogEntryE(c: nat)
    requires c < 16
    ensures LogEntry(14, c)
  {
    LogRowEa();
    LogRowEb();
    hide ExpAt;
  }

  lemma LogEntryF(c: nat)
    requires c < 15
    ensures LogEntry(15, c)
  {
    LogRowFa();
    LogRowFb();
    hide ExpAt;
  }

  lemma LogEntryAt(r: nat, c: nat)
    requires r < 16 && c < if r < 15 then 16 else 15
    ensures LogEntry(r, c)
  {
    hide *;
    if r == 0 { LogEntry0(c); } else if r == 1 { LogEntry1(c); }
    else if r == 2 { LogEntry2(c); } else if r == 3 { LogEntry3(c); }
    else if r == 4 { LogEntry4(c); } else if r == 5 { LogEntry5(c); }
    else if r == 6 { LogEntry6(c); } else if r == 7 { LogEntry7(c); }
    else if r == 8 { LogEntry8(c); } else if r == 9 { LogEntry9(c); }
    else if r == 10 { LogEntryA(c); } else if r == 11 { LogEntryB(c); }
    else if r == 12 { LogEntryC(c); } else if r == 13 { LogEntryD(c); }
    else if r == 14 { LogEntryE(c); } else { LogEntryF(c); }
  }

  // LOG[i] of the flat table.
  function LogAt(i: nat): (l: nat)
    requires i < 255
    ensures l < 255
  {
    LogEntryAt(i / 16, i % 16);
    LogRow(i / 16)[i % 16]
  }

  lemma LogAtInverts(i: nat)
    requires i < 255
    ensures ExpAt(LogAt(i)) == (i + 1) as bv8
  {
    LogEntryAt(i / 16, i % 16);
    hide ExpAt, LogRow;
  }

  // ---------- The program's multiplication and division ----------

  datatype FieldError = LogOfZero

  // GF256.log, which throws on zero.
  function Log(a: GF256): (r: Result<nat, FieldError>)
    ensures r.Ok? ==> r.value < 255
  {
    if a == Zero then Err(LogOfZero) else Ok(LogAt(a.value as nat - 1))
  }

  // GF256.exp.
  function Exp(x: nat): GF256 {
    GF256(ExpAt(x % 255))
  }

  // GF256.mul.
  function TableMul(a: GF256, b: GF256): GF256 {
    if a == Zero || b == Zero then Zero
    else Exp(Log(a).value + Log(b).value)
  }

  // GF256.div: the logarithm of a zero divisor throws.
  function TableDiv(a: GF256, b: GF256): Result<GF256, FieldError> {
    match Log(b)
    case Err(e) => Err(e)
    case Ok(l) => Ok(TableMul(a, Exp(256 - l - 1)))
  }

  lemma ByteRoundTrip(b: bv8)
    ensures (b as nat) as bv8 == b
    ensures b != 0 ==> b as nat > 0
  {
  }

  lemma LogIsLog(a: GF256)
    requires a != Zero
    ensures Log(a).Ok? && Power(Log(a).value) == a
  {
    ByteRoundTrip(a.value);
    var i := a.value as nat - 1;
    hide LogAt, ExpAt, Power;
    LogAtInverts(i);
    ExpIsPower(LogAt(i));
  }

  // ---------- Products of powers ----------

  lemma {:induction false} PowerMul(i: nat, b: GF256)
    ensures Mul(Power(i + 1), b) == Triple(Mul(Power(i), b))
  {
    var a := Power(i);
    assert Power(i + 1) == Add(a, XTime(a));
    hide Power, Add, XTime, ShiftAndAdd;
    ShiftAndAddLinear(a, XTime(a), b.value, 8);
    ShiftAndAddXTime(a, b.value, 8);
  }

  lemma {:induction false} PowerAdd(i: nat, j: nat)
    ensures Mul(Power(i), Power(j)) == Power(i + j)
  {
    if i == 0 {
      assert Power(0) == One;
      hide *;
      OneMul(Power(j));
    } else {
      assert Power(i + j) == Triple(Power(i - 1 + j));
      hide *;
      PowerAdd(i - 1, j);
      PowerMul(i - 1, Power(j));
    }
  }

  lemma {:induction false} PowerMod(n: nat)
    ensures Power(n) == Power(n % 255)
  {
    hide *;
    if n >= 255 {
      PowerMod(n - 255);
      PowerAdd(255, n - 255);
      PowerCycle();
      OneMul(Power(n - 255));
    }
  }

  lemma PowerNonZero(n: nat)
    ensures Power(n) != Zero
  {
    hide *;
    PowerMod(n);
    var m := n % 255;
    PowerAdd(255 - m, m);
    PowerCycle();
    assert Power(m) != Zero by {
      if Power(m) == Zero {
        MulZero(Power(255 - m));
        OneIsNotZero();
      }
    }
  }

  lemma OneIsNotZero()
    ensures One != Zero
  {
  }

  lemma {:induction false} ShiftAndAddNone(a: GF256, n: nat)
    ensures ShiftAndAdd(a, 0, n) == Zero
    decreases n
  {
    if n > 0 {
      ShiftAndAddNone(XTime(a), n - 1);
      AddZero(Zero);
      hide XTime, Add;
    }
  }

  lemma MulZero(a: GF256)
    ensures Mul(a, Zero) == Zero == Mul(Zero, a)
  {
    ShiftAndAddNone(a, 8);
    ShiftAndAddLinear(Zero, Zero, a.value, 8);
    hide ShiftAndAdd, Add;
  }

  // ---------- The tables compute the reference product ----------

  lemma ExpPower(n: nat)
    ensures Exp(n) == Power(n)
  {
    ExpIsPower(n % 255);
    hide ExpAt, Power;
    PowerMod(n);
  }

  lemma TableMulIsMul(a: GF256, b: GF256)
    ensures TableMul(a, b) == Mul(a, b)
  {
    hide Mul, Exp, Log, Power;
    if a == Zero || b == Zero {
      MulZero(a);
      MulZero(b);
    } else {
      LogIsLog(a);
      LogIsLog(b);
      ExpPower(Log(a).value + Log(b).value);
      PowerAdd(Log(a).value, Log(b).value);
    }
  }

  // ---------- The field laws ----------

  lemma MulComm(a: GF256, b: GF256)
    ensures Mul(a, b) == Mul(b, a)
  {
    hide *;
    if a == Zero || b == Zero {
      MulZero(a);
      MulZero(b);
    } else {
      LogIsLog(a);
      LogIsLog(b);
      PowerAdd(Log(a).value, Log(b).value);
      PowerAdd(Log(b).value, Log(a).value);
    }
  }

  lemma MulAssoc(a: GF256, b: GF256, c: GF256)
    ensures Mul(Mul(a, b), c) == Mul(a, Mul(b, c))
  {
    hide *;
    MulZero(a);
    MulZero(b);
    MulZero(c);
    MulZero(Mul(a, b));
    MulZero(Mul(b, c));
    if a != Zero && b != Zero && c != Zero {
      LogIsLog(a);
      LogIsLog(b);
      LogIsLog(c);
      var i, j, k := Log(a).value, Log(b).value, Log(c).value;
      PowerAdd(i, j);
      PowerAdd(i + j, k);
      PowerAdd(j, k);
      PowerAdd(i, j + k);
    }
  }

  lemma MulOne(a: GF256)
    ensures Mul(a, One) == a == Mul(One, a)
  {
    hide *;
    OneMul(a);
    MulComm(a, One);
  }

  lemma MulAdd(a: GF256, b: GF256, c: GF256)
    ensures Mul(Add(a, b), c) == Add(Mul(a, c), Mul(b, c))
    ensures Mul(c, Add(a, b)) == Add(Mul(c, a), Mul(c, b))
  {
    ShiftAndAddLinear(a, b, c.value, 8);
    hide ShiftAndAdd, Add;
    assert Mul(Add(a, b), c) == Add(Mul(a, c), Mul(b, c));
    hide Mul;
    MulComm(Add(a, b), c);
    MulComm(a, c);
    MulComm(b, c);
  }

  lemma MulNonZero(a: GF256, b: GF256)
    ensures Mul(a, b) == Zero <==> a == Zero || b == Zero
  {
    hide *;
    MulZero(a);
    MulZero(b);
    if a != Zero && b != Zero {
      LogIsLog(a);
      LogIsLog(b);
      PowerAdd(Log(a).value, Log(b).value);
      PowerNonZero(Log(a).value + Log(b).value);
    }
  }

  // Fermat's exponent 254 inverts every power of the generator.
  lemma InversePower(i: nat)
    ensures Inverse(Power(i)) == Power(254 * i)
  {
    hide Mul, Power;
    PowerAdd(i, i);
    PowerAdd(2 * i, i);
    PowerAdd(3 * i, 3 * i);
    PowerAdd(6 * i, i);
    PowerAdd(7 * i, 7 * i);
    PowerAdd(14 * i, i);
    PowerAdd(15 * i, 15 * i);
    PowerAdd(30 * i, i);
    PowerAdd(31 * i, 31 * i);
    PowerAdd(62 * i, i);
    PowerAdd(63 * i, 63 * i);
    PowerAdd(126 * i, i);
    PowerAdd(127 * i, 127 * i);
  }

  lemma MulInverse(a: GF256)
    requires a != Zero
    ensures Mul(a, Inverse(a)) == One
  {
    hide *;
    LogIsLog(a);
    var i := Log(a).value;
    InversePower(i);
    PowerAdd(i, 254 * i);
    PowerMod(255 * i);
    PowerZero();
  }

  lemma PowerZero()
    ensures Power(0) == One
  {
  }

  // Division undoes multiplication.
  lemma DivMul(a: GF256, b: GF256)
    requires b != Zero
    ensures Mul(Div(a, b), b) == a
    ensures Div(Mul(a, b), b) == a
  {
    hide Mul, Inverse;
    MulAssoc(a, Inverse(b), b);
    MulAssoc(a, b, Inverse(b));
    MulComm(Inverse(b), b);
    MulInverse(b);
    MulOne(a);
  }

  lemma DivUnique(a: GF256, b: GF256, q: GF256)
    requires b != Zero
    ensures Mul(q, b) == a <==> q == Div(a, b)
  {
    hide *;
    DivMul(q, b);
    DivMul(a, b);
  }

  lemma DivByPower(a: GF256, l: nat)
    requires l <= 255
    ensures Power(l) != Zero && Mul(a, Power(255 - l)) == Div(a, Power(l))
  {
    hide *;
    var b, e := Power(l), Power(255 - l);
    PowerNonZero(l);
    PowerAdd(255 - l, l);
    PowerCycle();
    MulAssoc(a, e, b);
    MulOne(a);
    DivUnique(a, b, Mul(a, e));
  }

  // A zero divisor is the only error; otherwise the result is the field quotient.
  lemma TableDivIsDiv(a: GF256, b: GF256)
    ensures TableDiv(a, b) == if b == Zero then Err(LogOfZero) else Ok(Div(a, b))
  {
    if b != Zero {
      LogIsLog(b);
      hide Log, TableMul, Exp, Div;
      var l := Log(b).value;
      DivByPower(a, l);
      ExpPower(256 - l - 1);
      TableMulIsMul(a, Exp(256 - l - 1));
      hide Mul, Power;
    }
  }
}
