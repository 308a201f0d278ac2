/**
 * The Bilibili video identifier codec: an AV number (an integer) and the 12-character
 * BV string that names the same video, and the clean-up of a resolved b23.tv short link.
 */
module Bilibili {
  import opened Wrappers
  import opened PyStrings

  /**
   * `_ab_table`: the 58 digit characters, digit 0 first
   * ("fZodR9XQDSUm21yCkr6zBqiveYah8bt4xsWpHnJE7jL5VG3guMTKNPAwcF"). It is written here
   * as a concatenation of short pieces only so that the verifier can index into it.
   */
  const Table: string := "fZodR9XQ" + "DSUm21yC" + "kr6zBqiv" + "eYah8bt4" + "xsWpHnJE" + "7jL5VG3g" + "uMTKNPAw" + "cF"

  /** `_ab_s`: the template position that receives base-58 digit `i` of the scrambled number. */
  const Slots: seq<nat> := [11, 10, 3, 8, 4, 6]

  /** `_ab_xor` and `_ab_add`. */
  const XorMask: nat := 177451812
  const AddOffset: nat := 8728348608

  /** The literal that `av2bv` turns into a list before filling in the six digits. */
  const Template: string := "BV1  4 1 7  "

  /** Number of digits a BV string carries. */
  const DigitCount: nat := 6

  // ---------------------------------------------------------------------------
  // Arithmetic as Python does it
  // ---------------------------------------------------------------------------

  /** `58 ** i`. */
  function Pow58(i: nat): (r: nat)
    ensures r > 0
  {
    if i == 0 then 1 else 58 * Pow58(i - 1)
  }

  /** Python's `a ^ b` for non-negative integers, one bit at a time from the least significant. */
  function XorNat(a: nat, b: nat): (r: nat)
  {
    if a == 0 && b == 0 then 0
    else (if a % 2 == b % 2 then 0 else 1) + 2 * XorNat(a / 2, b / 2)
  }

  /**
   * Python's `a ^ mask` for any integer `a` and a non-negative `mask`. Python treats a
   * negative `a` as an infinite two's-complement bit string, so `a ^ mask == ~(~a ^ mask)`
   * with `~a == -a - 1`.
   */
  function XorInt(a: int, mask: nat): (r: int)
    ensures r < 0 <==> a < 0
    ensures r % 2 == if a % 2 == mask % 2 then 0 else 1
  {
    if a >= 0 then XorNat(a, mask) else -1 - XorNat(-a - 1, mask)
  }

  /**
   * Bit by bit: above the lowest bit, `a ^ mask` is `(a >> 1) ^ (mask >> 1)`, shifted back.
   * With the lowest bit given by `XorInt`'s contract, this pins down Python's `^` on all integers.
   */
  lemma XorIntShift(a: int, mask: nat)
    ensures XorInt(a, mask) / 2 == XorInt(a / 2, mask / 2)
  {
    if a < 0 {
      assert a / 2 == -1 - (-a - 1) / 2;
    }
  }

  lemma {:induction false} XorNatInvolutive(a: nat, b: nat)
    ensures XorNat(XorNat(a, b), b) == a
  {
    if a == 0 && b == 0 {
    } else {
      var z := XorNat(a / 2, b / 2);
      var x := XorNat(a, b);
      assert x / 2 == z && x % 2 == (if a % 2 == b % 2 then 0 else 1);
      XorNatInvolutive(a / 2, b / 2);
    }
  }

  /** XOR with a fixed mask undoes itself, for negative integers too. */
  lemma XorInvolutive(a: int, mask: nat)
    ensures XorInt(XorInt(a, mask), mask) == a
  {
    if a >= 0 {
      XorNatInvolutive(a, mask);
    } else {
      XorNatInvolutive(-a - 1, mask);
    }
  }

  lemma MulAtLeast(a: int, m: int)
    requires a >= 1 && m > 0
    ensures a * m >= m
  {
  }

  lemma MulMonotone(a: int, b: int, m: int)
    requires a <= b && m > 0
    ensures a * m <= b * m
  {
  }

  /** Quotient and remainder are determined by `y == q * m + r` with `0 <= r < m`. */
  lemma DivModUnique(y: int, m: int, q: int, r: int)
    requires m > 0 && 0 <= r < m && y == q * m + r
    ensures y / m == q && y % m == r
  {
    var q', r' := y / m, y % m;
    assert (q - q') * m == r' - r;
    if q > q' {
      MulAtLeast(q - q', m);
    } else if q < q' {
      MulAtLeast(q' - q, m);
    }
  }

  /** Base-58 digit `i` of `y`, as `y // 58 ** i % 58` computes it (floor division). */
  function Digit(y: int, i: nat): (d: nat)
    ensures d < |Table|
  {
    y / Pow58(i) % 58
  }

  /** Taking one more digit: the remainder modulo `58 ** (k + 1)` adds digit `k`. */
  lemma ModPowStep(y: int, k: nat)
    ensures y % Pow58(k + 1) == y % Pow58(k) + Digit(y, k) * Pow58(k)
  {
    var p := Pow58(k);
    var q, r := y / p, y % p;
    var q2, d := q / 58, q % 58;
    assert q * p == q2 * (58 * p) + d * p by {
      assert q == q2 * 58 + d;
    }
    MulMonotone(d, 57, p);
    DivModUnique(y, 58 * p, q2, d * p + r);
  }

  // ---------------------------------------------------------------------------
  // The digit table and its inverse
  // ---------------------------------------------------------------------------

  /** The position of each table character: a ghost witness that the table has no repeats. */
  ghost function TablePosition(c: char): int
  {
    match c
    case 'f' => 0
    case 'Z' => 1
    case 'o' => 2
    case 'd' => 3
    case 'R' => 4
    case '9' => 5
    case 'X' => 6
    case 'Q' => 7
    case 'D' => 8
    case 'S' => 9
    case 'U' => 10
    case 'm' => 11
    case '2' => 12
    case '1' => 13
    case 'y' => 14
    case 'C' => 15
    case 'k' => 16
    case 'r' => 17
    case '6' => 18
    case 'z' => 19
    case 'B' => 20
    case 'q' => 21
    case 'i' => 22
    case 'v' => 23
    case 'e' => 24
    case 'Y' => 25
    case 'a' => 26
    case 'h' => 27
    case '8' => 28
    case 'b' => 29
    case 't' => 30
    case '4' => 31
    case 'x' => 32
    case 's' => 33
    case 'W' => 34
    case 'p' => 35
    case 'H' => 36
    case 'n' => 37
    case 'J' => 38
    case 'E' => 39
    case '7' => 40
    case 'j' => 41
    case 'L' => 42
    case '5' => 43
    case 'V' => 44
    case 'G' => 45
    case '3' => 46
    case 'g' => 47
    case 'u' => 48
    case 'M' => 49
    case 'T' => 50
    case 'K' => 51
    case 'N' => 52
    case 'P' => 53
    case 'A' => 54
    case 'w' => 55
    case 'c' => 56
    case 'F' => 57
    case _ => -1
  }

  // One lemma per eight-character chunk of the table keeps each proof small.
  lemma TablePositionsChunk0()
    ensures forall i :: 0 <= i < 8 ==> TablePosition(Table[i]) == i
  {
  }

  lemma TablePositionsChunk1()
    ensures forall i :: 8 <= i < 16 ==> TablePosition(Table[i]) == i
  {
  }

  lemma TablePositionsChunk2()
    ensures forall i :: 16 <= i < 24 ==> TablePosition(Table[i]) == i
  {
  }

  lemma TablePositionsChunk3()
    ensures forall i :: 24 <= i < 32 ==> TablePosition(Table[i]) == i
  {
  }

  lemma TablePositionsChunk4()
    ensures forall i :: 32 <= i < 40 ==> TablePosition(Table[i]) == i
  {
  }

  lemma TablePositionsChunk5()
    ensures forall i :: 40 <= i < 48 ==> TablePosition(Table[i]) == i
  {
  }

  lemma TablePositionsChunk6()
    ensures forall i :: 48 <= i < 56 ==> TablePosition(Table[i]) == i
  {
  }

  lemma TablePositionsChunk7()
    ensures forall i :: 56 <= i < 58 ==> TablePosition(Table[i]) == i
  {
  }

  /** The 58 table characters are pairwise distinct. */
  lemma TableDistinct()
    ensures |Table| == 58
    ensures forall i, j :: 0 <= i < |Table| && 0 <= j < |Table| && Table[i] == Table[j] ==> i == j
  {
    TablePositionsChunk0();
    TablePositionsChunk1();
    TablePositionsChunk2();
    TablePositionsChunk3();
    TablePositionsChunk4();
    TablePositionsChunk5();
    TablePositionsChunk6();
    TablePositionsChunk7();
    assert forall i :: 0 <= i < |Table| ==> TablePosition(Table[i]) == i;
  }

  /**
   * `_ab_tr`: each table character mapped to its index. It really inverts `_ab_table`,
   * in both directions, because the table has no repeated character.
   */
  function Inverse(): (tr: map<char, nat>)
    ensures forall i :: 0 <= i < |Table| ==> Table[i] in tr && tr[Table[i]] == i
    ensures forall c :: c in tr ==> tr[c] < |Table| && Table[tr[c]] == c
  {
    TableDistinct();
    map i | 0 <= i < |Table| :: Table[i] := i
  }

  /** The module-level loop that fills `_ab_tr`. */
  method BuildInverse() returns (tr: map<char, nat>)
    ensures tr == Inverse()
  {
    TableDistinct();
    tr := map[];
    var i := 0;
    while i < 58
      invariant 0 <= i <= 58
      invariant forall j :: 0 <= j < i ==> Table[j] in tr && tr[Table[j]] == j
      invariant forall c :: c in tr ==> tr[c] < i && Table[tr[c]] == c
    {
      tr := tr[Table[i] := i];
      i := i + 1;
    }
    var inv := Inverse();
    assert tr.Keys == inv.Keys by {
      forall c | c in inv ensures c in tr {
        assert Table[inv[c]] == c;
      }
    }
    forall c | c in tr ensures tr[c] == inv[c] {
      assert Table[tr[c]] == Table[inv[c]];
    }
  }

  /** The six slots are distinct positions inside the template. */
  lemma SlotsDistinct()
    ensures |Template| == 12 && |Slots| == DigitCount
    ensures forall i :: 0 <= i < DigitCount ==> Slots[i] < |Template|
    ensures forall i, j :: 0 <= i < j < DigitCount ==> Slots[i] != Slots[j]
  {
  }

  /** The slots are exactly the blanks of the template. */
  lemma SlotsAreBlanks()
    ensures |Template| == 12
    ensures forall p :: 0 <= p < |Template| ==> (Template[p] == ' ' <==> p in Slots)
  {
  }

  // ---------------------------------------------------------------------------
  // av2bv
  // ---------------------------------------------------------------------------

  /** The number whose digits `av2bv` writes out: `(x ^ _ab_xor) + _ab_add`. */
  function Scrambled(x: int): (y: int)
    ensures XorInt(y - AddOffset, XorMask) == x
  {
    XorInvolutive(x, XorMask);
    XorInt(x, XorMask) + AddOffset
  }

  /** The template after digits `0 .. k - 1` of `y` have been written into their slots. */
  function Filled(y: int, k: nat): (r: string)
    requires k <= DigitCount
    ensures |r| == |Template|
  {
    if k == 0 then Template
    else Filled(y, k - 1)[Slots[k - 1] := Table[Digit(y, k - 1)]]
  }

  /** What `av2bv(x)` returns. */
  function EncodeAv(x: int): (r: string)
    ensures |r| == |Template|
    ensures forall i {:trigger r[Slots[i]]} :: 0 <= i < DigitCount ==> r[Slots[i]] == Table[Digit(Scrambled(x), i)]
  {
    FilledSlots(Scrambled(x), DigitCount);
    Filled(Scrambled(x), DigitCount)
  }

  /** `av2bv`: scramble the number, then write its six low base-58 digits into the template. */
  method Av2Bv(x: int) returns (bv: string)
    ensures bv == EncodeAv(x)
  {
    var y := XorInt(x, XorMask) + AddOffset;
    var r := new char[|Template|](p requires 0 <= p < |Template| => Template[p]);
    assert r[..] == Filled(y, 0);
    var i := 0;
    while i < DigitCount
      invariant 0 <= i <= DigitCount
      invariant r[..] == Filled(y, i)
    {
      ghost var before := r[..];
      SlotsDistinct();
      var c := Table[y / Pow58(i) % 58];
      assert c == Table[Digit(y, i)];
      r[Slots[i]] := c;
      assert r[..] == before[Slots[i] := c];
      i := i + 1;
    }
    bv := r[..];
    assert bv == Filled(Scrambled(x), DigitCount);
  }

  /** A filled template holds digit `i` in slot `i` and the template's letters everywhere else. */
  lemma FilledContents(y: int, k: nat)
    requires k <= DigitCount
    ensures forall i :: 0 <= i < k ==> Filled(y, k)[Slots[i]] == Table[Digit(y, i)]
    ensures forall p :: 0 <= p < |Template| && p !in Slots[..k] ==> Filled(y, k)[p] == Template[p]
  {
    FilledSlots(y, k);
    FilledBlanks(y, k);
  }

  lemma {:induction false} FilledSlots(y: int, k: nat)
    requires k <= DigitCount
    ensures forall i :: 0 <= i < k ==> Filled(y, k)[Slots[i]] == Table[Digit(y, i)]
  {
    if k > 0 {
      FilledSlots(y, k - 1);
      SlotsDistinct();
    }
  }

  lemma {:induction false} FilledBlanks(y: int, k: nat)
    requires k <= DigitCount
    ensures forall p :: 0 <= p < |Template| && p !in Slots[..k] ==> Filled(y, k)[p] == Template[p]
  {
    if k > 0 {
      FilledBlanks(y, k - 1);
      assert Slots[..k] == Slots[..k - 1] + [Slots[k - 1]];
    }
  }

  /**
   * A string of the shape `av2bv` produces: 12 characters, the template's letters where the
   * template has one, and a table character in each slot.
   */
  ghost predicate IsBv(s: string)
  {
    && |s| == |Template|
    && (forall p :: 0 <= p < |Template| && Template[p] != ' ' ==> s[p] == Template[p])
    && (forall i :: 0 <= i < DigitCount ==> s[Slots[i]] in Inverse())
  }

  /**
   * `av2bv` always returns 12 characters reading `BV1..4.1.7..`, with base-58 digit `i` of
   * the scrambled number, as a table character, in slot `i`.
   */
  lemma EncodeShape(x: int)
    ensures var s := EncodeAv(x);
      && |s| == 12
      && s[0] == 'B' && s[1] == 'V' && s[2] == '1' && s[5] == '4' && s[7] == '1' && s[9] == '7'
      && (forall i :: 0 <= i < DigitCount ==> s[Slots[i]] == Table[Digit(Scrambled(x), i)])
      && IsBv(s)
  {
    var y := Scrambled(x);
    FilledContents(y, DigitCount);
    SlotsAreBlanks();
    SlotsDistinct();
    assert Slots[..DigitCount] == Slots;
  }

  // ---------------------------------------------------------------------------
  // bv2av
  // ---------------------------------------------------------------------------

  /** The exceptions `bv2av` raises: `IndexError` for a short string, `KeyError` for a non-digit. */
  datatype DecodeError = IndexOutOfRange | UnknownDigit(c: char)

  /**
   * The accumulator `r` after the first `k` rounds of `bv2av`'s loop, or the `KeyError` of
   * the first slot whose character is not a table digit.
   */
  function SlotSum(s: string, k: nat): (r: Result<int, DecodeError>)
    requires k <= DigitCount && |s| >= |Template|
    ensures r.Success? <==> forall i :: 0 <= i < k ==> s[Slots[i]] in Inverse()
    ensures r.Success? ==> 0 <= r.value < Pow58(k)
    ensures r.Failure? ==> r.error.UnknownDigit?
  {
    if k == 0 then Success(0)
    else
      match SlotSum(s, k - 1)
      case Failure(e) => Failure(e)
      case Success(acc) =>
        var c := s[Slots[k - 1]];
        if c in Inverse() then
          var d := Inverse()[c];
          MulMonotone(d, 57, Pow58(k - 1));
          Success(acc + d * Pow58(k - 1))
        else Failure(UnknownDigit(c))
  }

  /** What `bv2av(s)` returns, or the exception it raises. */
  function DecodeBv(s: string): (r: Result<int, DecodeError>)
    ensures r == Failure(IndexOutOfRange) <==> |s| < |Template|
    ensures r.Success? <==>
      |s| >= |Template| && forall i :: 0 <= i < DigitCount ==> s[Slots[i]] in Inverse()
  {
    // The loop reads slot 11, the largest, first: a shorter string fails there.
    if |s| < |Template| then Failure(IndexOutOfRange)
    else
      match SlotSum(s, DigitCount)
      case Failure(e) => Failure(e)
      case Success(r) => Success(XorInt(r - AddOffset, XorMask))
  }

  /** A failed read names the first slot, in reading order, whose character is not in the table. */
  lemma {:induction false} SlotSumFirstBad(s: string, k: nat)
    requires k <= DigitCount && |s| >= |Template|
    requires SlotSum(s, k).Failure?
    ensures exists i :: (0 <= i < k && SlotSum(s, k).error == UnknownDigit(s[Slots[i]])
      && s[Slots[i]] !in Inverse() && forall j :: 0 <= j < i ==> s[Slots[j]] in Inverse())
  {
    if SlotSum(s, k - 1).Failure? {
      SlotSumFirstBad(s, k - 1);
    } else {
      assert s[Slots[k - 1]] !in Inverse();
    }
  }

  /** One more slot past a successful sum fails when its character is not in the table. */
  lemma SlotSumFails(s: string, k: nat)
    requires 0 < k <= DigitCount && |s| >= |Template|
    requires SlotSum(s, k - 1).Success? && s[Slots[k - 1]] !in Inverse()
    ensures SlotSum(s, k) == Failure(UnknownDigit(s[Slots[k - 1]]))
  {
  }

  /** Once reading the slots has failed, reading further ones keeps the same failure. */
  lemma {:induction false} SlotSumStops(s: string, i: nat, k: nat)
    requires i <= k <= DigitCount && |s| >= |Template|
    requires SlotSum(s, i).Failure?
    ensures SlotSum(s, k) == SlotSum(s, i)
  {
    if k > i {
      SlotSumStops(s, i, k - 1);
    }
  }

  /** `bv2av`: read the six slots back through `_ab_tr`, subtract the offset, XOR again. */
  method Bv2Av(s: string) returns (av: Result<int, DecodeError>)
    ensures av == DecodeBv(s)
  {
    var tr := Inverse();
    var r := 0;
    var i := 0;
    while i < DigitCount
      invariant 0 <= i <= DigitCount
      invariant i > 0 ==> |s| >= |Template|
      invariant |s| >= |Template| ==> SlotSum(s, i) == Success(r)
    {
      var p := Slots[i];
      if p >= |s| {
        return Failure(IndexOutOfRange);
      }
      var c := s[p];
      if c !in tr {
        SlotSumFails(s, i + 1);
        SlotSumStops(s, i + 1, DigitCount);
        return Failure(UnknownDigit(c));
      }
      assert tr[c] < |Table| && Table[tr[c]] == c;
      SlotSumStep(s, i + 1, r, tr[c]);
      r := r + tr[c] * Pow58(i);
      i := i + 1;
    }
    assert SlotSum(s, DigitCount) == Success(r);
    av := Success(XorInt(r - AddOffset, XorMask));
  }

  // ---------------------------------------------------------------------------
  // What the codec promises
  // ---------------------------------------------------------------------------

  lemma {:induction false} SlotSumDependsOnSlots(s: string, t: string, k: nat)
    requires k <= DigitCount && |s| >= |Template| && |t| >= |Template|
    requires forall i :: 0 <= i < k ==> s[Slots[i]] == t[Slots[i]]
    ensures SlotSum(s, k) == SlotSum(t, k)
  {
    if k > 0 {
      SlotSumDependsOnSlots(s, t, k - 1);
      assert s[Slots[k - 1]] == t[Slots[k - 1]];
    }
  }

  /** `bv2av` looks at the characters in positions 11, 10, 3, 8, 4 and 6 and nowhere else. */
  lemma DecodeDependsOnlyOnSlots(s: string, t: string)
    requires |s| >= |Template| && |t| >= |Template|
    requires forall i :: 0 <= i < DigitCount ==> s[Slots[i]] == t[Slots[i]]
    ensures DecodeBv(s) == DecodeBv(t)
  {
    SlotSumDependsOnSlots(s, t, DigitCount);
  }

  /** One more slot of a successful sum adds its digit times its power of 58. */
  lemma SlotSumStep(s: string, k: nat, acc: int, d: nat)
    requires 0 < k <= DigitCount && |s| >= |Template|
    requires SlotSum(s, k - 1) == Success(acc)
    requires d < |Table| && s[Slots[k - 1]] == Table[d]
    ensures SlotSum(s, k) == Success(acc + d * Pow58(k - 1))
  {
    assert Table[d] in Inverse() && Inverse()[Table[d]] == d;
  }

  /** Slot `i` of the filled template holds the table character of digit `i`. */
  lemma FilledSlot(y: int, i: nat)
    requires i < DigitCount
    ensures Filled(y, DigitCount)[Slots[i]] == Table[Digit(y, i)]
  {
    FilledContents(y, DigitCount);
  }

  /** Reading back the slots of a filled template yields the number modulo `58 ** k`. */
  lemma {:induction false} EncodedSlotSum(y: int, k: nat)
    requires k <= DigitCount
    ensures SlotSum(Filled(y, DigitCount), k) == Success(y % Pow58(k))
  {
    if k > 0 {
      EncodedSlotSum(y, k - 1);
      FilledSlot(y, k - 1);
      SlotSumStep(Filled(y, DigitCount), k, y % Pow58(k - 1), Digit(y, k - 1));
      ModPowStep(y, k - 1);
    }
  }

  /** `r + d * p` with `0 <= r < p` determines both `r` and `d`. */
  lemma TopDigitUnique(r: int, d: int, r': int, d': int, p: int)
    requires 0 <= r < p && 0 <= r' < p && r + d * p == r' + d' * p
    ensures r == r' && d == d'
  {
    DivModUnique(r + d * p, p, d, r);
    DivModUnique(r' + d' * p, p, d', r');
  }

  /** Different slot digits give different sums: base-58 representations are unique. */
  lemma {:induction false} SlotSumInjective(s: string, t: string, k: nat)
    requires k <= DigitCount && |s| >= |Template| && |t| >= |Template|
    requires SlotSum(s, k).Success? && SlotSum(s, k) == SlotSum(t, k)
    ensures forall i :: 0 <= i < k ==> s[Slots[i]] == t[Slots[i]]
  {
    if k > 0 {
      var p := Pow58(k - 1);
      var rs, rt := SlotSum(s, k - 1).value, SlotSum(t, k - 1).value;
      var cs, ct := s[Slots[k - 1]], t[Slots[k - 1]];
      var ds, dt := Inverse()[cs], Inverse()[ct];
      assert rs + ds * p == rt + dt * p;
      TopDigitUnique(rs, ds, rt, dt, p);
      SlotSumInjective(s, t, k - 1);
      assert cs == Table[ds] && ct == Table[dt];
    }
  }

  /** A string of the BV shape is exactly the filled template of its own slot sum. */
  lemma ReEncode(s: string)
    requires IsBv(s)
    ensures SlotSum(s, DigitCount).Success?
    ensures Filled(SlotSum(s, DigitCount).value, DigitCount) == s
  {
    var r := SlotSum(s, DigitCount).value;
    var t := Filled(r, DigitCount);
    EncodedSlotSum(r, DigitCount);
    DivModUnique(r, Pow58(DigitCount), 0, r);
    SlotSumInjective(s, t, DigitCount);
    FilledContents(r, DigitCount);
    SlotsAreBlanks();
    SlotsDistinct();
    assert Slots[..DigitCount] == Slots;
    forall p | 0 <= p < |Template|
      ensures t[p] == s[p]
    {
      if p in Slots {
        var i :| 0 <= i < DigitCount && Slots[i] == p;
      }
    }
  }

  /** Decoding a filled template recovers the scrambled number modulo `58 ** 6`, unscrambled. */
  lemma DecodeEncoded(x: int)
    ensures DecodeBv(EncodeAv(x)) ==
      Success(XorInt(Scrambled(x) % Pow58(DigitCount) - AddOffset, XorMask))
  {
    EncodedSlotSum(Scrambled(x), DigitCount);
  }

  /** Unscrambling the reduced number gives `x` back exactly when reducing changed nothing. */
  lemma UnscrambleReduced(x: int)
    ensures XorInt(Scrambled(x) % Pow58(DigitCount) - AddOffset, XorMask) == x <==>
      0 <= Scrambled(x) < Pow58(DigitCount)
  {
    var y, p := Scrambled(x), Pow58(DigitCount);
    XorInvolutive(x, XorMask);
    XorInvolutive(y % p - AddOffset, XorMask);
    if 0 <= y < p {
      DivModUnique(y, p, 0, y);
    }
  }

  /**
   * `bv2av(av2bv(x)) == x` exactly when the scrambled number `(x ^ _ab_xor) + _ab_add`
   * lies in `0 .. 58 ** 6 - 1`; outside that range the digits above the sixth are lost.
   */
  lemma RoundTrip(x: int)
    ensures DecodeBv(EncodeAv(x)) == Success(x) <==> 0 <= Scrambled(x) < Pow58(DigitCount)
  {
    DecodeEncoded(x);
    UnscrambleReduced(x);
  }

  /** Every BV-shaped string comes back unchanged from `av2bv(bv2av(s))`. */
  lemma ReverseRoundTrip(s: string)
    requires IsBv(s)
    ensures DecodeBv(s).Success? && EncodeAv(DecodeBv(s).value) == s
  {
    ReEncode(s);
    var r := SlotSum(s, DigitCount).value;
    assert DecodeBv(s) == Success(XorInt(r - AddOffset, XorMask));
    XorInvolutive(r - AddOffset, XorMask);
    assert Scrambled(XorInt(r - AddOffset, XorMask)) == r;
  }

  /**
   * `av2bv` keeps only the low six base-58 digits: two numbers get the same BV string
   * exactly when their scrambled values agree modulo `58 ** 6`.
   */
  lemma EncodeModulo(x: int, x': int)
    ensures EncodeAv(x) == EncodeAv(x') <==>
      Scrambled(x) % Pow58(DigitCount) == Scrambled(x') % Pow58(DigitCount)
  {
    EncodeShape(x);
    EncodeShape(x');
    EncodedSlotSum(Scrambled(x), DigitCount);
    EncodedSlotSum(Scrambled(x'), DigitCount);
    ReEncode(EncodeAv(x));
    ReEncode(EncodeAv(x'));
  }

  // ---------------------------------------------------------------------------
  // b23_to_full_clear, without the HTTP request
  // ---------------------------------------------------------------------------

  const ShortLinkHost: string := "b23.tv/"
  const ShortLinkPrefix: string := "https://b23.tv/"

  /** The URL `b23_to_full_clear(b23)` requests: `b23` itself, or `b23` behind the short-link prefix. */
  function ShortLinkUrl(b23: string): (url: string)
    ensures Contains(url, ShortLinkHost)
    ensures url == b23 <==> Contains(b23, ShortLinkHost)
    ensures url != b23 ==> url == ShortLinkPrefix + b23
  {
    if Contains(b23, ShortLinkHost) then b23
    else
      var url := ShortLinkPrefix + b23;
      assert OccursAt(url, ShortLinkHost, 8) by {
        assert url[8..15] == ShortLinkPrefix[8..15];
      }
      url
  }

  /** The exceptions of the string part: `ValueError` from the two `index` calls, or `bv2av`'s own. */
  datatype LinkError = NoQueryString | NoBvId | BadBvId(cause: DecodeError)

  /**
   * What `b23_to_full_clear` does with the redirect's `location` header: cut it before the
   * first `?`, and with `toAv` replace the text from the first `BV` on by `av` and the
   * number `bv2av` reads from that text.
   */
  function ClearLink(location: string, toAv: bool := true): (r: Result<string, LinkError>)
    ensures r == Failure(NoQueryString) <==> !Contains(location, "?")
    ensures !toAv ==> r.Success? || r == Failure(NoQueryString)
  {
    match Find(location, "?")
    case None => Failure(NoQueryString)
    case Some(q) =>
      var full := location[..q];
      if !toAv then Success(full)
      else
        match Find(full, "BV")
        case None => Failure(NoBvId)
        case Some(k) =>
          var bv := full[k..];
          match DecodeBv(bv)
          case Failure(e) => Failure(BadBvId(e))
          case Success(av) => Success(ReplaceAll(full, bv, "av" + IntToString(av)))
  }

  /**
   * Without `toAv` the result is the location up to, not including, its first `?`; the
   * call fails exactly when the location has no `?`.
   */
  lemma ClearLinkCutsQuery(location: string)
    ensures ClearLink(location, false).Success? <==> Contains(location, "?")
    ensures ClearLink(location, false).Success? ==>
      var full := ClearLink(location, false).value;
      && |full| < |location| && full == location[..|full|] && location[|full|] == '?'
      && '?' !in full
  {
    match Find(location, "?")
    case None =>
    case Some(q) =>
      forall j | 0 <= j < q
        ensures location[j] != '?'
      {
        assert !OccursAt(location, "?", j);
        assert location[j..j + 1] == [location[j]];
      }
      assert location[q..q + 1] == "?";
  }

  /**
   * With `toAv`, a successful result is the cut location up to its first `BV`, followed by
   * `av` and the decimal form of `bv2av` of the rest; the `replace` touches nothing else.
   */
  lemma ClearLinkToAv(location: string)
    requires ClearLink(location, true).Success?
    ensures ClearLink(location, false).Success?
    ensures var full := ClearLink(location, false).value;
      exists k :: 0 <= k <= |full| && Find(full, "BV") == Some(k)
        && DecodeBv(full[k..]).Success?
        && ClearLink(location, true).value == full[..k] + "av" + IntToString(DecodeBv(full[k..]).value)
  {
    var q := Find(location, "?").value;
    var full := location[..q];
    var k := Find(full, "BV").value;
    var bv := full[k..];
    assert bv[..2] == "BV";
    forall j | 0 <= j < k
      ensures !OccursAt(full, bv, j)
    {
      OccursPrefix(full, bv, j, 2);
    }
    ReplaceFinalOccurrence(full, bv, "av" + IntToString(DecodeBv(bv).value), k);
  }

  /**
   * The failure side of `toAv`: once there is a query string, the only errors are a cut
   * location without `BV`, or a `BV` suffix that `bv2av` rejects.
   */
  lemma ClearLinkToAvOutcome(location: string)
    requires Contains(location, "?")
    ensures var full := location[..Find(location, "?").value];
      && (ClearLink(location, true) == Failure(NoBvId) <==> !Contains(full, "BV"))
      && (Contains(full, "BV") ==>
            (ClearLink(location, true).Success? <==> DecodeBv(full[Find(full, "BV").value..]).Success?))
      && (Contains(full, "BV") && DecodeBv(full[Find(full, "BV").value..]).Failure? ==>
            ClearLink(location, true) == Failure(BadBvId(DecodeBv(full[Find(full, "BV").value..]).error)))
  {
  }

  /** Whatever it does, a successful `b23_to_full_clear` returns a link without a `?`. */
  lemma ClearLinkHasNoQuery(location: string, toAv: bool)
    requires ClearLink(location, toAv).Success?
    ensures '?' !in ClearLink(location, toAv).value
  {
    ClearLinkCutsQuery(location);
    if toAv {
      ClearLinkToAv(location);
      var full := ClearLink(location, false).value;
      var k := Find(full, "BV").value;
      var n := IntToString(DecodeBv(full[k..]).value);
      assert '?' !in full[..k];
      assert '?' !in n;
      assert ClearLink(location, toAv).value == full[..k] + "av" + n;
    }
  }

  /** No character of the table is a `?`. */
  lemma TableHasNoQuestionMark()
    ensures '?' !in Table
  {
    TablePositionsChunk0();
    TablePositionsChunk1();
    TablePositionsChunk2();
    TablePositionsChunk3();
    TablePositionsChunk4();
    TablePositionsChunk5();
    TablePositionsChunk6();
    TablePositionsChunk7();
    assert forall i :: 0 <= i < |Table| ==> TablePosition(Table[i]) == i;
    assert TablePosition('?') == -1;
  }

  /** A BV-shaped string has no `?`, so the query string of a video link begins after it. */
  lemma BvHasNoQuestionMark(s: string)
    requires IsBv(s)
    ensures '?' !in s
  {
    TableHasNoQuestionMark();
    SlotsAreBlanks();
    forall p | 0 <= p < |s|
      ensures s[p] != '?'
    {
      if Template[p] == ' ' {
        var i :| 0 <= i < |Slots| && Slots[i] == p;
        assert s[p] == Table[Inverse()[s[p]]];
      }
    }
  }

  /**
   * The use the bot makes of it: a video link whose path ends in the BV identifier of `x`
   * comes back, query string dropped, ending in `av` and the decimal form of `x`, provided
   * `x` is inside the range where the codec round-trips.
   */
  lemma ClearLinkVideo(prefix: string, x: int, query: string)
    requires '?' !in prefix && !Contains(prefix, "BV")
    requires 0 <= Scrambled(x) < Pow58(DigitCount)
    ensures ClearLink(prefix + EncodeAv(x) + "?" + query, true) == Success(prefix + "av" + IntToString(x))
  {
    var bv := EncodeAv(x);
    var location := prefix + bv + "?" + query;
    var n := |prefix| + |bv|;
    EncodeShape(x);
    BvHasNoQuestionMark(bv);
    forall j | 0 <= j < n
      ensures !OccursAt(location, "?", j)
    {
      assert location[j..j + 1] == [location[j]];
      if j < |prefix| {
        assert location[j] == prefix[j];
      } else {
        assert location[j] == bv[j - |prefix|];
      }
    }
    assert location[n..n + 1] == "?";
    FindFirst(location, "?", n);
    var full := location[..n];
    assert full == prefix + bv;
    forall j | 0 <= j < |prefix|
      ensures !OccursAt(full, "BV", j)
    {
      if j + 2 <= |prefix| {
        assert full[j..j + 2] == prefix[j..j + 2];
        assert !OccursAt(prefix, "BV", j);
      } else {
        assert full[j + 1] == bv[0] == 'B';
      }
    }
    assert full[|prefix|..|prefix| + 2] == bv[..2] == "BV";
    FindFirst(full, "BV", |prefix|);
    assert full[|prefix|..] == bv;
    RoundTrip(x);
    ClearLinkToAv(location);
    assert full[..|prefix|] == prefix;
  }
}
