/** The (72,64) error-correcting code of the storage engine: eight check bits for each
    64-bit word. A word is the sequence of its bits, least significant first. */
module Ecc {

  const WORD_BITS: nat := 64
  const CHECK_BITS: nat := 8

  type Word = w: seq<bool> | |w| == 64 witness seq(64, _ => false)
  type Check = c: seq<bool> | |c| == 8 witness seq(8, _ => false)

  // ---------------------------------------------------------------- bit vectors

  function Zeros(n: nat): (z: seq<bool>)
    ensures |z| == n
  {
    seq(n, _ => false)
  }

  function Xor(a: seq<bool>, b: seq<bool>): (x: seq<bool>)
    requires |a| == |b|
    ensures |x| == |a|
  {
    seq(|a|, i requires 0 <= i < |a| => a[i] != b[i])
  }

  function And(a: seq<bool>, b: seq<bool>): (x: seq<bool>)
    requires |a| == |b|
    ensures |x| == |a|
  {
    seq(|a|, i requires 0 <= i < |a| => a[i] && b[i])
  }

  function Flip(a: seq<bool>, k: nat): (x: seq<bool>)
    requires k < |a|
    ensures |x| == |a|
  {
    a[k := !a[k]]
  }

  /** The compiler's parity builtin. */
  function Parity(s: seq<bool>): bool {
    if s == [] then false else s[|s| - 1] != Parity(s[..|s| - 1])
  }

  /** The number of ones. */
  function Weight(s: seq<bool>): nat {
    if s == [] then 0 else (if s[|s| - 1] then 1 else 0) + Weight(s[..|s| - 1])
  }

  lemma {:induction false} ParityXor(a: seq<bool>, b: seq<bool>)
    requires |a| == |b|
    ensures Parity(Xor(a, b)) == (Parity(a) != Parity(b))
  {
    if a != [] {
      var n := |a| - 1;
      ParityXor(a[..n], b[..n]);
      assert Xor(a, b)[..n] == Xor(a[..n], b[..n]);
    }
  }

  lemma {:induction false} ParityIsOddWeight(s: seq<bool>)
    ensures Parity(s) == (Weight(s) % 2 == 1)
  {
    if s != [] {
      ParityIsOddWeight(s[..|s| - 1]);
    }
  }

  lemma {:induction false} WeightZero(s: seq<bool>)
    ensures Weight(s) == 0 <==> s == Zeros(|s|)
  {
    if s != [] {
      var n := |s| - 1;
      WeightZero(s[..n]);
      assert Zeros(|s|)[..n] == Zeros(n);
      assert s == s[..n] + [s[n]];
    }
  }

  lemma XorBasics(a: seq<bool>, b: seq<bool>)
    requires |a| == |b|
    ensures Xor(Xor(a, b), b) == a
    ensures Xor(a, Xor(a, b)) == b
    ensures Xor(a, b) == Xor(b, a)
    ensures Xor(a, b) == Zeros(|a|) <==> a == b
  {
  }

  // ---------------------------------------------------------------- code positions

  /** The position of data bit d in the code: the running index steps over 1, 2, 4, ..., 64. */
  function CodePosition(d: nat): nat {
    var c := d + 1;
    var c := if c >= 1 then c + 1 else c;
    var c := if c >= 2 then c + 1 else c;
    var c := if c >= 4 then c + 1 else c;
    var c := if c >= 8 then c + 1 else c;
    var c := if c >= 16 then c + 1 else c;
    var c := if c >= 32 then c + 1 else c;
    if c >= 64 then c + 1 else c
  }

  predicate IsPowerOfTwo(p: nat) {
    p == 1 || p == 2 || p == 4 || p == 8 || p == 16 || p == 32 || p == 64
  }

  /** The seven low bits of a position, least significant first. */
  function Bits7(p: nat): (b: seq<bool>)
    ensures |b| == 7
  {
    var q1 := p / 2; var q2 := q1 / 2; var q3 := q2 / 2;
    var q4 := q3 / 2; var q5 := q4 / 2; var q6 := q5 / 2;
    [p % 2 == 1, q1 % 2 == 1, q2 % 2 == 1, q3 % 2 == 1, q4 % 2 == 1, q5 % 2 == 1, q6 % 2 == 1]
  }

  function Digit(b: bool): nat {
    if b then 1 else 0
  }

  function Value7(b: seq<bool>): (v: nat)
    requires |b| == 7
    ensures v < 128
  {
    Digit(b[0]) + 2 * (Digit(b[1]) + 2 * (Digit(b[2]) + 2 * (Digit(b[3])
      + 2 * (Digit(b[4]) + 2 * (Digit(b[5]) + 2 * Digit(b[6]))))))
  }

  lemma Halve(p: nat)
    ensures p == Digit(p % 2 == 1) + 2 * (p / 2)
  {
  }

  /** Reading digits from the lowest up. */
  lemma Horner(b: seq<bool>, p: nat, q1: nat, q2: nat, q3: nat, q4: nat, q5: nat, q6: nat)
    requires |b| == 7 && p == Digit(b[0]) + 2 * q1 && q1 == Digit(b[1]) + 2 * q2 && q2 == Digit(b[2]) + 2 * q3
    requires q3 == Digit(b[3]) + 2 * q4 && q4 == Digit(b[4]) + 2 * q5 && q5 == Digit(b[5]) + 2 * q6
    requires q6 == Digit(b[6])
    ensures Value7(b) == p
  {
    hide Digit;
  }

  lemma Value7Bits7(p: nat)
    requires p < 128
    ensures Value7(Bits7(p)) == p
  {
    var q1 := p / 2; var q2 := q1 / 2; var q3 := q2 / 2;
    var q4 := q3 / 2; var q5 := q4 / 2; var q6 := q5 / 2;
    assert q1 < 64; assert q2 < 32; assert q3 < 16; assert q4 < 8; assert q5 < 4; assert q6 < 2;
    hide Value7;
    Halve(p); Halve(q1); Halve(q2); Halve(q3); Halve(q4); Halve(q5);
    assert Digit(q6 % 2 == 1) == q6;
    Horner(Bits7(p), p, q1, q2, q3, q4, q5, q6);
  }

  /** The data bit stored at position p, for the positions that carry data. */
  function DataBitAt(p: nat): nat
    requires 3 <= p && !IsPowerOfTwo(p)
  {
    if p < 4 then p - 3 else if p < 8 then p - 4 else if p < 16 then p - 5
    else if p < 32 then p - 6 else if p < 64 then p - 7 else p - 8
  }

  /** Data bits occupy, in increasing order, exactly the positions 3..71 that are not powers of two. */
  lemma PositionsSkipPowersOfTwo()
    ensures forall d, e :: 0 <= d < e < WORD_BITS ==> CodePosition(d) < CodePosition(e)
    ensures CodePosition(0) == 3 && CodePosition(WORD_BITS - 1) == 71
    ensures forall p :: 3 <= p <= 71 ==>
              ((exists d :: 0 <= d < WORD_BITS && CodePosition(d) == p) <==> !IsPowerOfTwo(p))
  {
    forall p | 3 <= p <= 71
      ensures (exists d :: 0 <= d < WORD_BITS && CodePosition(d) == p) <==> !IsPowerOfTwo(p)
    {
      if !IsPowerOfTwo(p) {
        assert 0 <= DataBitAt(p) < WORD_BITS && CodePosition(DataBitAt(p)) == p;
      }
    }
  }

  lemma Weight7(b: seq<bool>)
    requires |b| == 7
    ensures Weight(b) == (if b[0] then 1 else 0) + (if b[1] then 1 else 0) + (if b[2] then 1 else 0)
      + (if b[3] then 1 else 0) + (if b[4] then 1 else 0) + (if b[5] then 1 else 0) + (if b[6] then 1 else 0)
  {
    assert Weight(b[..6]) == (if b[5] then 1 else 0) + Weight(b[..6][..5]);
    assert b[..6][..5] == b[..5];
    assert Weight(b[..5]) == (if b[4] then 1 else 0) + Weight(b[..5][..4]);
    assert b[..5][..4] == b[..4];
    assert Weight(b[..4]) == (if b[3] then 1 else 0) + Weight(b[..4][..3]);
    assert b[..4][..3] == b[..3];
    assert Weight(b[..3]) == (if b[2] then 1 else 0) + Weight(b[..3][..2]);
    assert b[..3][..2] == b[..2];
    assert Weight(b[..2]) == (if b[1] then 1 else 0) + Weight(b[..2][..1]);
    assert b[..2][..1] == b[..1];
    assert Weight(b[..1]) == (if b[0] then 1 else 0) + Weight(b[..1][..0]);
  }

  /** No data position is a power of two, so each has at least two ones. */
  lemma PositionHasTwoOnes(d: nat)
    requires d < WORD_BITS
    ensures Weight(Bits7(CodePosition(d))) >= 2
  {
    var p := CodePosition(d);
    assert 3 <= p <= 71 && !IsPowerOfTwo(p);
    Value7Bits7(p);
    if Weight(Bits7(p)) <= 1 {
      FewOnes(Bits7(p));
      assert false;
    }
  }

  /** Numbers of at most one binary one are 0 and the powers of two. */
  lemma FewOnes(b: seq<bool>)
    requires |b| == 7 && Weight(b) <= 1
    ensures Value7(b) == 0 || IsPowerOfTwo(Value7(b))
  {
    Weight7(b);
    hide Weight;
  }

  // ---------------------------------------------------------------- encoder

  /** The reference syndrome: the exclusive-or of the positions of the ones. */
  function PositionSum(w: seq<bool>): (s: seq<bool>)
    requires |w| <= WORD_BITS
    ensures |s| == 7
  {
    if w == [] then Zeros(7)
    else
      var n := |w| - 1;
      if w[n] then Xor(PositionSum(w[..n]), Bits7(CodePosition(n))) else PositionSum(w[..n])
  }

  /** The reference code: position sum, then the bit that makes the 72-bit codeword even. */
  function Encode(w: Word): (c: Check) {
    PositionSum(w) + [Parity(w) != Parity(PositionSum(w))]
  }

  /** Row i of the check matrix, cut to n columns. */
  function MaskRow(i: nat, n: nat): (m: seq<bool>)
    requires i < 7
    ensures |m| == n
  {
    seq(n, d requires 0 <= d => Bits7(CodePosition(d))[i])
  }

  lemma {:induction false} RowParity(w: seq<bool>, i: nat)
    requires |w| <= WORD_BITS && i < 7
    ensures Parity(And(w, MaskRow(i, |w|))) == PositionSum(w)[i]
  {
    if w != [] {
      var n := |w| - 1;
      RowParity(w[..n], i);
      assert And(w, MaskRow(i, |w|))[..n] == And(w[..n], MaskRow(i, n));
    }
  }

  /** The mask of check bit i: the data bits whose position has bit i set. */
  method Mask(i: nat) returns (mask: Word)
    requires i < 7
    ensures mask == MaskRow(i, WORD_BITS)
  {
    hide CodePosition;
    hide Bits7;
    mask := Zeros(WORD_BITS);
    for d := 0 to WORD_BITS
      invariant forall k :: 0 <= k < d ==> mask[k] == Bits7(CodePosition(k))[i]
      invariant forall k :: d <= k < WORD_BITS ==> !mask[k]
    {
      var codeIdx := CodePosition(d);
      if Bits7(codeIdx)[i] {
        mask := mask[d := true];
      }
    }
  }

  method CalculateECC(data: Word) returns (ecc: Check)
    ensures ecc == Encode(data)
  {
    ecc := Zeros(CHECK_BITS);
    for i := 0 to 7
      invariant forall k :: 0 <= k < i ==> ecc[k] == PositionSum(data)[k]
      invariant forall k :: i <= k < CHECK_BITS ==> !ecc[k]
    {
      var mask := Mask(i);
      var val := And(data, mask);
      RowParity(data, i);
      ecc := ecc[i := Parity(val)];
    }
    assert ecc[..7] == PositionSum(data);
    assert Parity(ecc) == Parity(ecc[..7]);
    var overall := Parity(data) != Parity(ecc);
    ecc := ecc[7 := overall];
    assert ecc == Encode(data);
  }

  // ---------------------------------------------------------------- the code is linear, of distance four

  lemma {:induction false} PositionSumLinear(a: seq<bool>, b: seq<bool>)
    requires |a| == |b| <= WORD_BITS
    ensures PositionSum(Xor(a, b)) == Xor(PositionSum(a), PositionSum(b))
  {
    hide Bits7;
    hide CodePosition;
    if a == [] {
      assert Xor(a, b) == [];
      assert Xor(Zeros(7), Zeros(7)) == Zeros(7);
    } else {
      var n := |a| - 1;
      PositionSumLinear(a[..n], b[..n]);
      assert Xor(a, b)[..n] == Xor(a[..n], b[..n]);
      XorRegroups(PositionSum(a[..n]), PositionSum(b[..n]), Bits7(CodePosition(n)));
    }
  }

  lemma XorRegroups(a: seq<bool>, b: seq<bool>, c: seq<bool>)
    requires |a| == |b| == |c|
    ensures Xor(Xor(a, c), b) == Xor(Xor(a, b), c) == Xor(a, Xor(b, c))
    ensures Xor(Xor(a, c), Xor(b, c)) == Xor(a, b)
  {
  }

  /** The encoder is linear over exclusive-or. */
  lemma EncodeLinear(a: Word, b: Word)
    ensures Encode(Xor(a, b)) == Xor(Encode(a), Encode(b))
  {
    PositionSumLinear(a, b);
    ParityXor(a, b);
    ParityXor(PositionSum(a), PositionSum(b));
  }

  lemma {:induction false} PositionSumSparse(w: seq<bool>)
    requires |w| <= WORD_BITS
    ensures Weight(w) == 0 ==> PositionSum(w) == Zeros(7)
    ensures Weight(w) == 1 ==> exists k :: 0 <= k < |w| && PositionSum(w) == Bits7(CodePosition(k))
    ensures Weight(w) == 2 ==>
              (exists j, k :: 0 <= j < k < |w|
                && PositionSum(w) == Xor(Bits7(CodePosition(j)), Bits7(CodePosition(k))))
  {
    if w != [] {
      var n := |w| - 1;
      var v := w[..n];
      PositionSumSparse(v);
      if w[n] && Weight(v) == 0 {
        assert Xor(Zeros(7), Bits7(CodePosition(n))) == Bits7(CodePosition(n));
      } else if w[n] && Weight(v) == 1 {
        var j :| 0 <= j < n && PositionSum(v) == Bits7(CodePosition(j));
        assert PositionSum(w) == Xor(Bits7(CodePosition(j)), Bits7(CodePosition(n)));
      }
    }
  }

  lemma DistinctPositionsDiffer(j: nat, k: nat)
    requires j < k < WORD_BITS
    ensures Weight(Xor(Bits7(CodePosition(j)), Bits7(CodePosition(k)))) >= 1
  {
    var a, b := Bits7(CodePosition(j)), Bits7(CodePosition(k));
    Value7Bits7(CodePosition(j));
    Value7Bits7(CodePosition(k));
    assert CodePosition(j) < CodePosition(k) <= 71;
    XorBasics(a, b);
    WeightZero(Xor(a, b));
  }

  lemma EncodeWeight(w: Word)
    ensures Weight(Encode(w)) == Weight(PositionSum(w)) + (if Parity(w) != Parity(PositionSum(w)) then 1 else 0)
    ensures (Weight(w) + Weight(Encode(w))) % 2 == 0
  {
    assert Encode(w)[..7] == PositionSum(w);
    ParityIsOddWeight(w);
    ParityIsOddWeight(PositionSum(w));
  }

  /** Every codeword other than zero has at least four ones. */
  lemma MinimumWeight(w: Word)
    requires w != Zeros(WORD_BITS)
    ensures Weight(w) + Weight(Encode(w)) >= 4
  {
    hide Bits7;
    hide CodePosition;
    hide PositionSum;
    hide Parity;
    hide Encode;
    WeightZero(w);
    EncodeWeight(w);
    PositionSumSparse(w);
    if Weight(w) == 1 {
      var k :| 0 <= k < WORD_BITS && PositionSum(w) == Bits7(CodePosition(k));
      PositionHasTwoOnes(k);
    } else if Weight(w) == 2 {
      var j, k :| 0 <= j < k < WORD_BITS
        && PositionSum(w) == Xor(Bits7(CodePosition(j)), Bits7(CodePosition(k)));
      DistinctPositionsDiffer(j, k);
    }
  }

  /** The number of the 72 bits in which two stored (data, ecc) pairs differ. */
  function Distance(d1: Word, c1: Check, d2: Word, c2: Check): nat {
    Weight(Xor(d1, d2)) + Weight(Xor(c1, c2))
  }

  /** Any two different codewords differ in at least four of 72 bits. */
  lemma CodeDistanceFour(a: Word, b: Word)
    requires a != b
    ensures Distance(a, Encode(a), b, Encode(b)) >= 4
  {
    XorBasics(a, b);
    EncodeLinear(a, b);
    MinimumWeight(Xor(a, b));
  }

  // ---------------------------------------------------------------- decoder

  /** What a decode reports: no error, a correction, or an uncorrectable word. */
  datatype Verdict = Clean | Corrected | Uncorrectable

  /** The reference decoder, on the difference between recomputed and stored check bits. */
  function Decode(data: Word, stored: Check): (r: (Verdict, Word)) {
    var diff := Xor(Encode(data), stored);
    var p := Value7(diff[..7]);
    if diff == Zeros(CHECK_BITS) then (Clean, data)
    else if !diff[7] then (Uncorrectable, data)
    else if 3 <= p <= 71 && !IsPowerOfTwo(p) then (Corrected, Flip(data, DataBitAt(p)))
    else (Corrected, data)
  }

  /** The search for the data bit at a position. */
  method FindBit(errorPos: nat) returns (dataBit: int)
    ensures dataBit == if 3 <= errorPos <= 71 && !IsPowerOfTwo(errorPos) then DataBitAt(errorPos) else -1
  {
    dataBit := -1;
    PositionsSkipPowersOfTwo();
    var d := 0;
    while d < WORD_BITS
      invariant 0 <= d <= WORD_BITS
      invariant dataBit == -1 && forall k :: 0 <= k < d ==> CodePosition(k) != errorPos
    {
      if CodePosition(d) == errorPos {
        dataBit := d;
        break;
      }
      d := d + 1;
    }
  }

  method DecodeAndCorrect(data: Word, stored: Check) returns (verdict: Verdict, fixed: Word)
    ensures (verdict, fixed) == Decode(data, stored)
  {
    hide Encode;
    hide Bits7;
    var calculated := CalculateECC(data);
    var diff := Xor(calculated, stored);
    var syndrome := diff[..7];
    var overall := diff[7];
    assert diff == syndrome + [overall];
    if syndrome == Zeros(7) && !overall {
      assert diff == Zeros(8);
      return Clean, data;
    }
    assert diff != Zeros(8) by {
      assert Zeros(8)[..7] == Zeros(7);
    }
    if overall {
      var errorPos := Value7(syndrome);
      var dataBit := FindBit(errorPos);
      if dataBit != -1 {
        return Corrected, Flip(data, dataBit);
      }
      return Corrected, data;
    } else {
      return Uncorrectable, data;
    }
  }

  /** The decoder accepts exactly the codewords. */
  lemma CleanExactlyOnCodewords(data: Word, stored: Check)
    ensures Decode(data, stored).0 == Clean <==> stored == Encode(data)
    ensures Decode(data, Encode(data)) == (Clean, data)
  {
    XorBasics(Encode(data), stored);
    XorBasics(Encode(data), Encode(data));
  }

  /** One, two or three flipped bits, anywhere in the 72, are never taken for a clean word. */
  lemma FewFlipsNeverClean(data: Word, received: Word, stored: Check)
    requires 1 <= Distance(data, Encode(data), received, stored) <= 3
    ensures Decode(received, stored).0 != Clean
  {
    CleanExactlyOnCodewords(received, stored);
    if stored == Encode(received) {
      if data == received {
        XorBasics(data, data);
        XorBasics(stored, stored);
        WeightZero(Xor(data, data));
        WeightZero(Xor(stored, stored));
        assert false;
      }
      CodeDistanceFour(data, received);
    }
  }

  /** Decoding sees only the error: the word that was stored does not matter. */
  lemma DecodeSeesOnlyTheError(data: Word, error: Word, checkError: Check)
    ensures var r := Decode(Xor(data, error), Xor(Encode(data), checkError));
            r == (Decode(error, checkError).0, Xor(data, Decode(error, checkError).1))
  {
    EncodeLinear(data, error);
    var e, f := Encode(data), Encode(error);
    assert Xor(Xor(e, f), Xor(e, checkError)) == Xor(f, checkError);
    var diff := Xor(f, checkError);
    var p := Value7(diff[..7]);
    if 3 <= p <= 71 && !IsPowerOfTwo(p) {
      assert Flip(Xor(data, error), DataBitAt(p)) == Xor(data, Flip(error, DataBitAt(p)));
    }
  }

  // ---------------------------------------------------------------- exact behaviour on any input

  lemma Bits7Value7(b: seq<bool>)
    requires |b| == 7
    ensures Bits7(Value7(b)) == b
  {
    hide Digit;
    hide Bits7;
    var v6 := Digit(b[6]);
    var v5 := Digit(b[5]) + 2 * v6;
    var v4 := Digit(b[4]) + 2 * v5;
    var v3 := Digit(b[3]) + 2 * v4;
    var v2 := Digit(b[2]) + 2 * v3;
    var v1 := Digit(b[1]) + 2 * v2;
    DigitsOf(b, v1, v2, v3, v4, v5, v6);
  }

  lemma DigitsOf(b: seq<bool>, v1: nat, v2: nat, v3: nat, v4: nat, v5: nat, v6: nat)
    requires |b| == 7 && v1 == Digit(b[1]) + 2 * v2 && v2 == Digit(b[2]) + 2 * v3 && v3 == Digit(b[3]) + 2 * v4
    requires v4 == Digit(b[4]) + 2 * v5 && v5 == Digit(b[5]) + 2 * v6 && v6 == Digit(b[6])
    ensures Bits7(Digit(b[0]) + 2 * v1) == b
  {
    hide Digit;
    hide Bits7;
    var v0 := Digit(b[0]) + 2 * v1;
    Digits(v0, b[0], v1);
    Digits(v1, b[1], v2);
    Digits(v2, b[2], v3);
    Digits(v3, b[3], v4);
    Digits(v4, b[4], v5);
    Digits(v5, b[5], v6);
    Digits(v6, b[6], 0);
    Bits7Of(b, v0, v1, v2, v3, v4, v5, v6);
  }

  lemma Digits(v: nat, low: bool, high: nat)
    requires v == Digit(low) + 2 * high
    ensures (v % 2 == 1) == low && v / 2 == high
  {
  }

  lemma Bits7Of(b: seq<bool>, p: nat, v1: nat, v2: nat, v3: nat, v4: nat, v5: nat, v6: nat)
    requires p / 2 == v1 && v1 / 2 == v2 && v2 / 2 == v3 && v3 / 2 == v4 && v4 / 2 == v5 && v5 / 2 == v6
    requires |b| == 7 && (p % 2 == 1) == b[0] && (v1 % 2 == 1) == b[1] && (v2 % 2 == 1) == b[2]
    requires (v3 % 2 == 1) == b[3] && (v4 % 2 == 1) == b[4] && (v5 % 2 == 1) == b[5] && (v6 % 2 == 1) == b[6]
    ensures Bits7(p) == b
  {
  }

  /** Flipping data bit k gives the stored sum exactly when the difference is that bit's position. */
  lemma FlipExplains(data: Word, low: seq<bool>, k: nat)
    requires |low| == 7 && k < WORD_BITS
    ensures PositionSum(Flip(data, k)) == low <==> Value7(Xor(PositionSum(data), low)) == CodePosition(k)
  {
    hide CodePosition;
    hide Bits7;
    hide Value7;
    var sum, pos := PositionSum(data), Bits7(CodePosition(k));
    FlipIsXorUnit(data, k);
    PositionSumUnit(WORD_BITS, k);
    PositionSumLinear(data, Unit(WORD_BITS, k));
    XorBasics(sum, pos);
    XorBasics(sum, low);
    PositionInSeven(k);
    Value7Bits7(CodePosition(k));
    Bits7Value7(Xor(sum, low));
  }

  lemma PositionInSeven(k: nat)
    requires k < WORD_BITS
    ensures 3 <= CodePosition(k) <= 71 && !IsPowerOfTwo(CodePosition(k)) && DataBitAt(CodePosition(k)) == k
  {
  }

  /** For any word and any check byte: the pair is uncorrectable exactly when it is no codeword though its parity bit
      is right. A word called corrected is the one that differs in one data bit and has the stored sum, if there is
      such a bit, and else the word itself. */
  lemma DecodeExactly(data: Word, stored: Check)
    ensures var (verdict, fixed) := Decode(data, stored);
            && (verdict == Uncorrectable <==> stored != Encode(data) && stored[7] == Encode(data)[7])
            && (verdict != Corrected ==> fixed == data)
            && (verdict == Corrected ==>
                  && (forall k: nat :: k < 64 && PositionSum(Flip(data, k)) == stored[..7] ==> fixed == Flip(data, k))
                  && (fixed == data <==> forall k: nat :: k < 64 ==> PositionSum(Flip(data, k)) != stored[..7]))
  {
    hide CodePosition;
    hide Bits7;
    hide Value7;
    hide Parity;
    XorBasics(Encode(data), stored);
    var diff := Xor(Encode(data), stored);
    var p := Value7(diff[..7]);
    assert diff[..7] == Xor(PositionSum(data), stored[..7]);
    forall k: nat | k < 64 ensures PositionSum(Flip(data, k)) == stored[..7] <==> p == CodePosition(k) {
      FlipExplains(data, stored[..7], k);
    }
    forall k: nat | k < 64 && p == CodePosition(k) ensures 3 <= p <= 71 && !IsPowerOfTwo(p) && DataBitAt(p) == k {
      PositionInSeven(k);
    }
    if 3 <= p <= 71 && !IsPowerOfTwo(p) {
      BitAtPosition(p);
    }
  }

  lemma BitAtPosition(p: nat)
    requires 3 <= p <= 71 && !IsPowerOfTwo(p)
    ensures DataBitAt(p) < 64 && CodePosition(DataBitAt(p)) == p
  {
  }

  // ---------------------------------------------------------------- exact behaviour on flips

  function Unit(n: nat, k: nat): (u: seq<bool>)
    requires k < n
    ensures |u| == n
  {
    Flip(Zeros(n), k)
  }

  lemma FlipIsXorUnit(a: seq<bool>, k: nat)
    requires k < |a|
    ensures Flip(a, k) == Xor(a, Unit(|a|, k))
  {
  }

  lemma {:induction false} PositionSumUnit(n: nat, k: nat)
    requires k < n <= WORD_BITS
    ensures PositionSum(Unit(n, k)) == Bits7(CodePosition(k))
    ensures Parity(Unit(n, k))
  {
    hide CodePosition;
    hide Bits7;
    var u := Unit(n, k);
    if k == n - 1 {
      assert u[..k] == Zeros(k);
      WeightZero(Zeros(k));
      PositionSumSparse(Zeros(k));
      ParityIsOddWeight(Zeros(k));
      assert Xor(Zeros(7), Bits7(CodePosition(k))) == Bits7(CodePosition(k));
    } else {
      assert u[..n - 1] == Unit(n - 1, k);
      PositionSumUnit(n - 1, k);
    }
  }

  /** The check byte of a word with one data bit spells that bit's position, lowest digit first. */
  lemma CodeOfOneBit(k: nat)
    requires k < WORD_BITS
    ensures var c := Encode(Unit(WORD_BITS, k));
            Digit(c[0]) + 2 * Digit(c[1]) + 4 * Digit(c[2]) + 8 * Digit(c[3]) + 16 * Digit(c[4]) + 32 * Digit(c[5])
              + 64 * Digit(c[6])
            == CodePosition(k)
  {
    hide Bits7;
    hide CodePosition;
    hide Parity;
    PositionSumUnit(WORD_BITS, k);
    PositionInSeven(k);
    Value7Bits7(CodePosition(k));
  }

  lemma EncodeZero()
    ensures Encode(Zeros(WORD_BITS)) == Zeros(CHECK_BITS)
  {
    WeightZero(Zeros(WORD_BITS));
    PositionSumSparse(Zeros(WORD_BITS));
    ParityIsOddWeight(Zeros(WORD_BITS));
    WeightZero(Zeros(7));
    ParityIsOddWeight(Zeros(7));
  }

  predicate EvenOnes(b: seq<bool>) {
    Weight(b) % 2 == 0
  }

  lemma DecodeOneBit(k: nat)
    requires k < WORD_BITS
    ensures Decode(Unit(WORD_BITS, k), Zeros(CHECK_BITS)) ==
            if EvenOnes(Bits7(CodePosition(k))) then (Corrected, Zeros(WORD_BITS))
            else (Uncorrectable, Unit(WORD_BITS, k))
  {
    var u := Unit(WORD_BITS, k);
    var b := Bits7(CodePosition(k));
    PositionSumUnit(WORD_BITS, k);
    ParityIsOddWeight(b);
    var diff := Xor(Encode(u), Zeros(CHECK_BITS));
    assert diff == Encode(u);
    assert diff[..7] == b;
    PositionHasTwoOnes(k);
    WeightZero(b);
    assert Zeros(CHECK_BITS)[..7] == Zeros(7);
    Value7Bits7(CodePosition(k));
    assert DataBitAt(CodePosition(k)) == k;
    assert Flip(u, k) == Zeros(WORD_BITS);
  }

  /** One flipped data bit is repaired exactly when its position has an even number of ones;
      otherwise the word is reported uncorrectable. */
  lemma OneDataFlip(data: Word, k: nat)
    requires k < WORD_BITS
    ensures Decode(Flip(data, k), Encode(data)) ==
            if EvenOnes(Bits7(CodePosition(k))) then (Corrected, data) else (Uncorrectable, Flip(data, k))
  {
    var u, z := Unit(WORD_BITS, k), Zeros(CHECK_BITS);
    FlipIsXorUnit(data, k);
    assert Xor(Encode(data), z) == Encode(data);
    DecodeSeesOnlyTheError(data, u, z);
    DecodeOneBit(k);
    assert Xor(data, Zeros(WORD_BITS)) == data;
  }

  /** One flipped check bit is reported uncorrectable, unless it is the parity bit. */
  lemma OneCheckFlip(data: Word, i: nat)
    requires i < CHECK_BITS
    ensures Decode(data, Flip(Encode(data), i)) == (if i == 7 then Corrected else Uncorrectable, data)
  {
    var diff := Xor(Encode(data), Flip(Encode(data), i));
    assert diff == Unit(CHECK_BITS, i);
    assert diff[i] && !Zeros(CHECK_BITS)[i];
    if i == 7 {
      assert diff[..7] == Zeros(7);
      assert Value7(diff[..7]) == 0;
    }
  }

  /** Whatever single bit is flipped, a word reported corrected is the original word. */
  lemma OneFlipNeverMiscorrects(data: Word, received: Word, stored: Check)
    requires Distance(data, Encode(data), received, stored) == 1
    ensures Decode(received, stored).0 == Corrected ==> Decode(received, stored).1 == data
  {
    XorBasics(data, received);
    XorBasics(Encode(data), stored);
    WeightZero(Xor(data, received));
    WeightZero(Xor(Encode(data), stored));
    if data == received {
      var i := OnlyOne(Xor(Encode(data), stored));
      FlipIsXorUnit(Encode(data), i);
      OneCheckFlip(data, i);
    } else {
      var k := OnlyOne(Xor(data, received));
      FlipIsXorUnit(data, k);
      OneDataFlip(data, k);
    }
  }

  lemma {:induction false} OnlyOne(s: seq<bool>) returns (k: nat)
    requires Weight(s) == 1
    ensures k < |s| && s == Unit(|s|, k)
  {
    var n := |s| - 1;
    if s[n] {
      WeightZero(s[..n]);
      k := n;
      assert s == s[..n] + [true];
    } else {
      k := OnlyOne(s[..n]);
      assert s == s[..n] + [false];
    }
  }

  // ---------------------------------------------------------------- two flips, anywhere

  lemma {:induction false} WeightFlip(s: seq<bool>, k: nat)
    requires k < |s|
    ensures Weight(Flip(s, k)) == if s[k] then Weight(s) - 1 else Weight(s) + 1
  {
    var n := |s| - 1;
    if k == n {
      assert Flip(s, k)[..n] == s[..n];
    } else {
      WeightFlip(s[..n], k);
      assert Flip(s, k)[..n] == Flip(s[..n], k);
    }
  }

  lemma UnitWeight(n: nat, k: nat)
    requires k < n
    ensures Weight(Unit(n, k)) == 1
  {
    WeightZero(Zeros(n));
    WeightFlip(Zeros(n), k);
  }

  /** The two parts of the decoder's difference, from an error pattern alone. */
  lemma DiffParts(e: Word, ce: Check)
    ensures Xor(Encode(e), ce)[..7] == Xor(PositionSum(e), ce[..7])
    ensures Xor(Encode(e), ce)[7] == (((Weight(e) % 2 == 1) == EvenOnes(PositionSum(e))) != ce[7])
  {
    ParityIsOddWeight(e);
    ParityIsOddWeight(PositionSum(e));
  }

  /** What the decoder announces of two flips: both in the data, one in each, or both in the check byte. */
  predicate Announced(e: Word, ce: Check) {
    if Weight(e) == 2 then EvenOnes(PositionSum(e))
    else if Weight(e) == 1 then EvenOnes(PositionSum(e)) == ce[7]
    else !ce[7]
  }

  lemma TwoErrorVerdict(e: Word, ce: Check)
    requires Weight(e) + Weight(ce) == 2
    ensures Decode(e, ce).0 != Clean
    ensures Decode(e, ce).0 == Uncorrectable <==> Announced(e, ce)
  {
    hide Bits7;
    hide CodePosition;
    hide Value7;
    var z, zc := Zeros(WORD_BITS), Zeros(CHECK_BITS);
    EncodeZero();
    assert Xor(z, e) == e && Xor(zc, ce) == ce;
    FewFlipsNeverClean(z, e, ce);
    DiffParts(e, ce);
    WeightZero(e);
    WeightZero(ce);
    WeightZero(z);
    PositionSumSparse(z);
    WeightZero(Zeros(7));
  }

  lemma FlipValue(b: seq<bool>, i: nat)
    requires |b| == 7 && i < 7
    ensures Value7(Flip(b, i)) != Value7(b)
  {
    var c := Flip(b, i);
    assert Digit(c[i]) != Digit(b[i]);
    hide Digit;
    assert forall j :: 0 <= j < 7 && j != i ==> Digit(c[j]) == Digit(b[j]);
  }

  /** A syndrome of one bit points at a check bit, not at a data bit. */
  lemma UnitSyndrome(b: seq<bool>, i: nat)
    requires i < 7 && |b| == 7 && b == Unit(7, i)
    ensures IsPowerOfTwo(Value7(b))
  {
  }

  /** A data position off by one syndrome bit is no longer that position. */
  lemma OffByOneBit(k: nat, i: nat)
    requires k < WORD_BITS && i < 7
    ensures var p := Value7(Flip(Bits7(CodePosition(k)), i));
            3 <= p && !IsPowerOfTwo(p) && p <= 71 ==> DataBitAt(p) != k
  {
    FlipValue(Bits7(CodePosition(k)), i);
    Value7Bits7(CodePosition(k));
    hide Value7;
    hide Bits7;
  }

  /** One data bit and one check bit: the data comes back right exactly when the check bit is bit 7. */
  lemma DataAndCheckOut(k: nat, i: nat)
    requires k < WORD_BITS && i < CHECK_BITS
    ensures var r := Decode(Unit(WORD_BITS, k), Unit(CHECK_BITS, i));
            r.0 == Corrected ==> (r.1 == Zeros(WORD_BITS) <==> i == 7)
  {
    hide Weight;
    hide Parity;
    var e, ce := Unit(WORD_BITS, k), Unit(CHECK_BITS, i);
    var diff := Xor(Encode(e), ce);
    DiffParts(e, ce);
    PositionSumUnit(WORD_BITS, k);
    var b, pos := diff[..7], Bits7(CodePosition(k));
    assert b == Xor(pos, ce[..7]);
    Value7Bits7(CodePosition(k));
    if i == 7 {
      assert b == pos;
      assert Flip(e, k) == Zeros(WORD_BITS);
    } else {
      assert b == Flip(pos, i);
      assert e[k] && !Zeros(WORD_BITS)[k];
      OffByOneBit(k, i);
    }
  }

  /** Two check bits: the data comes back as it was. */
  lemma TwoChecksOut(ce: Check)
    requires Weight(ce) == 2
    ensures Decode(Zeros(WORD_BITS), ce).1 == Zeros(WORD_BITS)
  {
    EncodeZero();
    var diff := Xor(Zeros(CHECK_BITS), ce);
    assert diff == ce;
    if ce[7] {
      WeightFlip(ce, 7);
      var i := OnlyOne(Flip(ce, 7));
      assert ce[..7] == Unit(7, i);
      UnitSyndrome(ce[..7], i);
    }
  }

  /** Two data bits: whatever the decoder flips, a wrong bit stays. */
  lemma TwoDataOut(e: Word, ce: Check)
    requires Weight(e) == 2
    ensures Decode(e, ce).1 != Zeros(WORD_BITS)
  {
    var r := Decode(e, ce).1;
    WeightZero(r);
    var p := Value7(Xor(Encode(e), ce)[..7]);
    if 3 <= p <= 71 && !IsPowerOfTwo(p) {
      WeightFlip(e, DataBitAt(p));
    }
  }

  /** Every pair of flips among the 72 bits: it is announced as uncorrectable exactly as Announced says, is never
      taken for clean, and when it is called corrected the word is right exactly if no data bit was hit or the
      other flip was check bit 7. */
  lemma TwoFlipsExactly(data: Word, received: Word, stored: Check)
    requires Distance(data, Encode(data), received, stored) == 2
    ensures var r := Decode(received, stored);
            var e, ce := Xor(data, received), Xor(Encode(data), stored);
            && r.0 != Clean
            && (r.0 == Uncorrectable <==> Announced(e, ce))
            && (r.0 == Uncorrectable ==> r.1 == received)
            && (r.0 == Corrected ==> (r.1 == data <==> Weight(e) == 0 || (Weight(e) == 1 && ce[7])))
  {
    var e, ce := Xor(data, received), Xor(Encode(data), stored);
    XorBasics(data, received);
    XorBasics(Encode(data), stored);
    DecodeSeesOnlyTheError(data, e, ce);
    TwoErrorVerdict(e, ce);
    assert Decode(received, stored).0 == Uncorrectable ==> Decode(received, stored).1 == received;
    var out := Decode(e, ce).1;
    XorBasics(data, out);
    assert Xor(data, Zeros(WORD_BITS)) == data;
    hide Decode;
    hide Announced;
    assert Xor(data, out) == data <==> out == Zeros(WORD_BITS) by {
      if Xor(data, out) == data {
        XorBasics(data, data);
      }
    }
    if Weight(e) == 2 {
      TwoDataOut(e, ce);
    } else if Weight(e) == 1 {
      var k := OnlyOne(e);
      var i := OnlyOne(ce);
      DataAndCheckOut(k, i);
    } else {
      WeightZero(e);
      TwoChecksOut(ce);
    }
  }

  /** Two flipped data bits are reported uncorrectable exactly when the exclusive-or of their
      positions has an even number of ones; otherwise a wrong word is reported corrected. */
  lemma TwoDataFlips(data: Word, j: nat, k: nat)
    requires j < k < WORD_BITS
    ensures var r := Decode(Flip(Flip(data, j), k), Encode(data));
            && (r.0 == Uncorrectable <==> EvenOnes(Xor(Bits7(CodePosition(j)), Bits7(CodePosition(k)))))
            && r.0 != Clean
            && r.1 != data
  {
    hide Decode;
    hide Encode;
    var received, e := Flip(Flip(data, j), k), Flip(Unit(WORD_BITS, j), k);
    assert Xor(data, received) == e;
    XorBasics(Encode(data), Encode(data));
    WeightZero(Zeros(CHECK_BITS));
    UnitWeight(WORD_BITS, j);
    WeightFlip(Unit(WORD_BITS, j), k);
    TwoFlipsExactly(data, received, Encode(data));
    FlipIsXorUnit(Unit(WORD_BITS, j), k);
    PositionSumLinear(Unit(WORD_BITS, j), Unit(WORD_BITS, k));
    PositionSumUnit(WORD_BITS, j);
    PositionSumUnit(WORD_BITS, k);
  }

  /** A flipped data bit and a flipped check bit. With check bit 7 the pair is announced exactly when the data bit's
      position has an even number of ones, and the word is otherwise right; with any other check bit it is announced
      exactly when that number is odd, and the word is otherwise wrong. */
  lemma DataAndCheckFlips(data: Word, k: nat, i: nat)
    requires k < WORD_BITS && i < CHECK_BITS
    ensures var r := Decode(Flip(data, k), Flip(Encode(data), i));
            && r.0 != Clean
            && (r.0 == Uncorrectable <==> EvenOnes(Bits7(CodePosition(k))) == (i == 7))
            && (r.0 == Corrected ==> (r.1 == data <==> i == 7))
  {
    hide Decode;
    hide Encode;
    assert Xor(data, Flip(data, k)) == Unit(WORD_BITS, k);
    assert Xor(Encode(data), Flip(Encode(data), i)) == Unit(CHECK_BITS, i);
    UnitWeight(WORD_BITS, k);
    UnitWeight(CHECK_BITS, i);
    PositionSumUnit(WORD_BITS, k);
    TwoFlipsExactly(data, Flip(data, k), Flip(Encode(data), i));
  }

  /** The documented guarantee fails both ways. Data bit 3 sits at position 7, which has three ones, so its flip
      alone is reported uncorrectable. Flips of data bits 0 and 3, and of data bit 0 with check bit 0, are
      reported corrected with a wrong word. */
  lemma SecdedFails(data: Word)
    ensures Decode(Flip(data, 3), Encode(data)).0 == Uncorrectable
    ensures var r := Decode(Flip(Flip(data, 0), 3), Encode(data)); r.0 == Corrected && r.1 != data
    ensures var r := Decode(Flip(data, 0), Flip(Encode(data), 0)); r.0 == Corrected && r.1 != data
  {
    hide Decode;
    hide Encode;
    assert CodePosition(3) == 7 && CodePosition(0) == 3;
    Weight7(Bits7(7));
    Weight7(Bits7(3));
    OneDataFlip(data, 3);
    Weight7(Xor(Bits7(3), Bits7(7)));
    TwoDataFlips(data, 0, 3);
    DataAndCheckFlips(data, 0, 0);
  }
}
