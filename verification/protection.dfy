/**
 * The protection word of the status frame and the label it is reduced to. The word is
 * rendered with `format(w, '016b')`, most significant bit first, and position p of that
 * string (0 = MSB) is what the classifiers test. liontron_battery.py reports the lowest
 * set position (an `if`/`elif` chain); battery.py overwrites the label once per set
 * position, so the highest set position wins.
 */
module Protection {
  import opened Wrappers

  /** A value read from two bytes unsigned. */
  type Word = w: int | 0 <= w < 0x10000

  /** The number of leading positions the classifiers examine; positions 13..15 are never read. */
  const Examined: nat := 13

  predicate IsBinary(s: string) {
    forall i :: 0 <= i < |s| ==> s[i] == '0' || s[i] == '1'
  }

  /** The low `n` bits of `v` in binary, most significant first. */
  function Bits(v: nat, n: nat): (s: string)
    ensures |s| == n && IsBinary(s)
  {
    if n == 0 then "" else Bits(v / 2, n - 1) + [if v % 2 == 1 then '1' else '0']
  }

  /** `format(w, '016b')`. */
  function Format016b(w: Word): (s: string)
    ensures |s| == 16 && IsBinary(s)
  {
    Bits(w, 16)
  }

  /** The labels, spelled as the source stores them in `ProtectStateText`. */
  datatype ProtectionState =
    | Normal
    | CellBlockOverVolt | CellBlockUnderVol | BatteryOverVol | BatteryUnderVol
    | ChargingOverTemp | ChargingLowTemp | DischargingOverTemp | DischargingLowTemp
    | ChargingOverCurrent | DischargingOverCurrent | ShortCircuit | ForeEndICError
    | MOSSoftwareLockIn
  {
    function Text(): string {
      match this
      case Normal => "ok"
      case CellBlockOverVolt => "CellBlockOverVolt"
      case CellBlockUnderVol => "CellBlockUnderVol"
      case BatteryOverVol => "BatteryOverVol"
      case BatteryUnderVol => "BatteryUnderVol"
      case ChargingOverTemp => "ChargingOverTemp"
      case ChargingLowTemp => "ChargingLowTemp"
      case DischargingOverTemp => "DischargingOverTemp"
      case DischargingLowTemp => "DischargingLowTemp"
      case ChargingOverCurrent => "ChargingOverCurrent"
      case DischargingOverCurrent => "DischargingOverCurrent"
      case ShortCircuit => "ShortCircuit"
      case ForeEndICError => "ForeEndICError"
      case MOSSoftwareLockIn => "MOSSoftwareLockIn"
    }
  }

  /** Different labels are spelled differently. */
  lemma TextInjective(a: ProtectionState, b: ProtectionState)
    ensures a.Text() == b.Text() ==> a == b
  {
  }

  /** The label attached to position `p` of the binary string. */
  function FaultAt(p: nat): (f: ProtectionState)
    requires p < Examined
    ensures f != Normal
  {
    [CellBlockOverVolt, CellBlockUnderVol, BatteryOverVol, BatteryUnderVol,
     ChargingOverTemp, ChargingLowTemp, DischargingOverTemp, DischargingLowTemp,
     ChargingOverCurrent, DischargingOverCurrent, ShortCircuit, ForeEndICError,
     MOSSoftwareLockIn][p]
  }

  /** The position a fault label belongs to: the inverse of `FaultAt`. */
  function Position(f: ProtectionState): (p: nat)
    requires f != Normal
    ensures p < Examined && FaultAt(p) == f
  {
    match f
    case CellBlockOverVolt => 0
    case CellBlockUnderVol => 1
    case BatteryOverVol => 2
    case BatteryUnderVol => 3
    case ChargingOverTemp => 4
    case ChargingLowTemp => 5
    case DischargingOverTemp => 6
    case DischargingLowTemp => 7
    case ChargingOverCurrent => 8
    case DischargingOverCurrent => 9
    case ShortCircuit => 10
    case ForeEndICError => 11
    case MOSSoftwareLockIn => 12
  }

  /** Distinct positions carry distinct labels. */
  lemma FaultAtInjective(p: nat, q: nat)
    requires p < Examined && q < Examined && p != q
    ensures FaultAt(p) != FaultAt(q)
  {
  }

  /** None of the examined positions is set. */
  predicate NoFault(psb: string)
    requires |psb| >= Examined
  {
    forall p :: 0 <= p < Examined ==> psb[p] != '1'
  }

  /** Position `p` is set and no examined position before it is. */
  predicate IsLowestSet(psb: string, p: nat)
    requires |psb| >= Examined
  {
    p < Examined && psb[p] == '1' && forall q :: 0 <= q < p ==> psb[q] != '1'
  }

  /** Position `p` is set and no examined position after it is. */
  predicate IsHighestSet(psb: string, p: nat)
    requires |psb| >= Examined
  {
    p < Examined && psb[p] == '1' && forall q :: p < q < Examined ==> psb[q] != '1'
  }

  /**
   * The classifier of liontron_battery.py: `ok` when the string starts with thirteen zeros,
   * otherwise the first position of an `elif` chain over positions 0..12 that holds a one.
   */
  function ClassifyFirst(psb: string): (r: ProtectionState)
    requires |psb| == 16 && IsBinary(psb)
    ensures r == Normal <==> NoFault(psb)
    ensures forall p :: IsLowestSet(psb, p) ==> r == FaultAt(p)
  {
    if psb[..13] == "0000000000000" then Normal
    else if psb[0] == '1' then CellBlockOverVolt
    else if psb[1] == '1' then CellBlockUnderVol
    else if psb[2] == '1' then BatteryOverVol
    else if psb[3] == '1' then BatteryUnderVol
    else if psb[4] == '1' then ChargingOverTemp
    else if psb[5] == '1' then ChargingLowTemp
    else if psb[6] == '1' then DischargingOverTemp
    else if psb[7] == '1' then DischargingLowTemp
    else if psb[8] == '1' then ChargingOverCurrent
    else if psb[9] == '1' then DischargingOverCurrent
    else if psb[10] == '1' then ShortCircuit
    else if psb[11] == '1' then ForeEndICError
    else if psb[12] == '1' then MOSSoftwareLockIn
    else assert false; Normal
  }

  /** The highest set position below `n`, if any. */
  function HighestSetBelow(psb: string, n: nat): (r: Option<nat>)
    requires n <= Examined <= |psb|
    ensures r.None? <==> forall q :: 0 <= q < n ==> psb[q] != '1'
    ensures r.Some? ==> r.value < n && psb[r.value] == '1' && forall q :: r.value < q < n ==> psb[q] != '1'
  {
    if n == 0 then None
    else if psb[n - 1] == '1' then Some(n - 1)
    else HighestSetBelow(psb, n - 1)
  }

  /**
   * The label battery.py leaves behind after its thirteen independent `if`s: `ok` when
   * no examined position is set, otherwise the label of the highest set position.
   */
  function ClassifyLast(psb: string): (r: ProtectionState)
    requires |psb| == 16 && IsBinary(psb)
    ensures r == Normal <==> NoFault(psb)
    ensures forall p :: IsHighestSet(psb, p) ==> r == FaultAt(p)
  {
    match HighestSetBelow(psb, Examined)
    case None => Normal
    case Some(p) => FaultAt(p)
  }

  /** The number of set positions below `n`. */
  function CountSetBelow(psb: string, n: nat): (c: nat)
    requires n <= Examined <= |psb|
    ensures c <= n
  {
    if n == 0 then 0 else CountSetBelow(psb, n - 1) + (if psb[n - 1] == '1' then 1 else 0)
  }

  /** No position below `n` is set exactly when the count below `n` is zero. */
  lemma {:induction false} CountZero(psb: string, n: nat)
    requires n <= Examined <= |psb|
    ensures CountSetBelow(psb, n) == 0 <==> forall q :: 0 <= q < n ==> psb[q] != '1'
  {
    if n > 0 {
      CountZero(psb, n - 1);
    }
  }

  /** Nothing above the highest set position counts. */
  lemma {:induction false} CountAboveHighest(psb: string, n: nat, h: nat)
    requires n <= Examined <= |psb|
    requires h < n && psb[h] == '1' && forall q :: h < q < n ==> psb[q] != '1'
    ensures CountSetBelow(psb, n) == CountSetBelow(psb, h) + 1
  {
    if n > h + 1 {
      CountAboveHighest(psb, n - 1, h);
    }
  }

  /**
   * The two classifiers give the same label exactly when at most one of positions 0..12
   * is set; with two or more set, the first reports the lowest and the last the highest.
   */
  lemma ClassifiersAgreeIffAtMostOneFault(psb: string)
    requires |psb| == 16 && IsBinary(psb)
    ensures ClassifyFirst(psb) == ClassifyLast(psb) <==> CountSetBelow(psb, Examined) <= 1
  {
    match HighestSetBelow(psb, Examined)
    case None =>
      CountZero(psb, Examined);
    case Some(h) =>
      CountAboveHighest(psb, Examined, h);
      CountZero(psb, h);
      assert IsHighestSet(psb, h);
      if CountSetBelow(psb, h) == 0 {
        assert IsLowestSet(psb, h);
      } else {
        var lo :| 0 <= lo < h && psb[lo] == '1';
        LowestExists(psb, lo);
        var p: nat :| IsLowestSet(psb, p);
        assert p <= lo < h;
        FaultAtInjective(p, h);
      }
  }

  /** If some examined position is set, there is a lowest one. */
  lemma {:induction false} LowestExists(psb: string, s: nat)
    requires |psb| >= Examined && s < Examined && psb[s] == '1'
    ensures exists p: nat :: IsLowestSet(psb, p)
    decreases s
  {
    if forall q :: 0 <= q < s ==> psb[q] != '1' {
      assert IsLowestSet(psb, s);
    } else {
      var q :| 0 <= q < s && psb[q] == '1';
      LowestExists(psb, q);
    }
  }

  // ---------------------------------------------------------------- the word behind the string

  function Pow2(n: nat): (p: nat)
    ensures p >= 1
  {
    if n == 0 then 1 else 2 * Pow2(n - 1)
  }

  /** The first 13 characters of `format(w, '016b')` are the bits of `w // 8`. */
  lemma ExaminedPrefix(w: Word)
    ensures Format016b(w)[..Examined] == Bits(w / 8, Examined)
  {
    var s16, s15, s14 := Bits(w, 16), Bits(w / 2, 15), Bits(w / 2 / 2, 14);
    assert s16[..15] == s15;
    assert s15[..14] == s14;
    assert s14[..13] == Bits(w / 2 / 2 / 2, 13);
    assert s16[..13] == s15[..13] == s14[..13];
    assert w / 2 / 2 / 2 == w / 8;
  }

  /** No character of `s` is a one. */
  predicate NoOne(s: string) {
    forall i :: 0 <= i < |s| ==> s[i] != '1'
  }

  /** For `v < 2^n`, the `n`-bit string of `v` is all zeros exactly when `v` is zero. */
  lemma {:induction false} BitsZero(v: nat, n: nat)
    requires v < Pow2(n)
    ensures NoOne(Bits(v, n)) <==> v == 0
  {
    if n > 0 {
      var s, t := Bits(v, n), Bits(v / 2, n - 1);
      assert s == t + [if v % 2 == 1 then '1' else '0'];
      BitsZero(v / 2, n - 1);
      assert forall i :: 0 <= i < n - 1 ==> s[i] == t[i];
      if v % 2 == 1 {
        assert s[n - 1] == '1';
      } else if v != 0 {
        var i :| 0 <= i < n - 1 && t[i] == '1';
        assert s[i] == '1';
      }
    }
  }

  /** A value below `2^k` has no one in the first `n - k` characters of its `n`-bit string. */
  lemma {:induction false} LeadingZeros(v: nat, n: nat, k: nat)
    requires k <= n && v < Pow2(k)
    ensures forall i :: 0 <= i < n - k ==> Bits(v, n)[i] != '1'
  {
    if k == 0 {
      BitsZero(v, n);
    } else if n > k {
      LeadingZeros(v / 2, n - 1, k - 1);
      var s, t := Bits(v, n), Bits(v / 2, n - 1);
      assert forall i :: 0 <= i < n - 1 ==> s[i] == t[i];
    }
  }

  /** Both classifiers report `ok` exactly when the word is below 8, i.e. only reserved bits may be set. */
  lemma NormalIffOnlyReservedBits(w: Word)
    ensures ClassifyFirst(Format016b(w)) == Normal <==> w < 8
    ensures ClassifyLast(Format016b(w)) == Normal <==> w < 8
  {
    ExaminedPrefix(w);
    BitsZero(w / 8, Examined);
    var s := Format016b(w);
    assert forall i :: 0 <= i < Examined ==> s[i] == s[..Examined][i];
    assert NoFault(s) <==> NoOne(s[..Examined]);
  }

  /** The highest set position below `n` depends only on the first `n` characters. */
  lemma {:induction false} HighestSetSamePrefix(a: string, b: string, n: nat)
    requires n <= Examined <= |a| && Examined <= |b|
    requires forall i :: 0 <= i < n ==> a[i] == b[i]
    ensures HighestSetBelow(a, n) == HighestSetBelow(b, n)
  {
    if n > 0 {
      HighestSetSamePrefix(a, b, n - 1);
    }
  }

  /** Neither classifier reads positions 13..15: strings that agree on 0..12 get the same label. */
  lemma ClassifiersReadOnlyExamined(a: string, b: string)
    requires |a| == 16 && IsBinary(a) && |b| == 16 && IsBinary(b)
    requires a[..Examined] == b[..Examined]
    ensures ClassifyFirst(a) == ClassifyFirst(b)
    ensures ClassifyLast(a) == ClassifyLast(b)
  {
    assert forall i :: 0 <= i < Examined ==> a[i] == a[..Examined][i] == b[..Examined][i] == b[i];
    HighestSetSamePrefix(a, b, Examined);
    if !NoFault(a) {
      var s: nat :| s < Examined && a[s] == '1';
      LowestExists(a, s);
      var p: nat :| IsLowestSet(a, p);
      assert IsLowestSet(b, p);
    }
  }

  /** The three least significant bits of the word (positions 13..15) never change the label. */
  lemma ReservedBitsIgnored(w: Word)
    ensures ClassifyFirst(Format016b(w)) == ClassifyFirst(Format016b(w - w % 8))
    ensures ClassifyLast(Format016b(w)) == ClassifyLast(Format016b(w - w % 8))
  {
    ExaminedPrefix(w);
    ExaminedPrefix(w - w % 8);
    assert (w - w % 8) / 8 == w / 8;
    ClassifiersReadOnlyExamined(Format016b(w), Format016b(w - w % 8));
  }

  lemma MulAtLeast(b: int, k: int)
    requires b > 0 && k >= 1
    ensures b * k >= b
  {
  }

  /** Integer division is determined by quotient and remainder. */
  lemma DivUnique(a: int, b: int, q: int, r: int)
    requires b > 0 && a == b * q + r && 0 <= r < b
    ensures a / b == q
  {
    var q', r' := a / b, a % b;
    assert a == b * q' + r';
    if q' > q {
      MulAtLeast(b, q' - q);
    } else if q' < q {
      MulAtLeast(b, q - q');
    }
  }

  lemma DivTwice(a: nat, c: nat)
    requires c >= 1
    ensures a / 2 / c == a / (2 * c)
  {
    var q, r := a / (2 * c), a % (2 * c);
    assert a == (2 * c) * q + r;
    assert 2 * c * q == 2 * (c * q);
    DivUnique(a, 2, c * q + r / 2, r % 2);
    DivUnique(a / 2, c, q, r / 2);
  }

  /** Character `i` of the `n`-bit string of `v` is bit `n - 1 - i` of `v`. */
  lemma {:induction false} BitAt(v: nat, n: nat, i: nat)
    requires i < n
    ensures Bits(v, n)[i] == '1' <==> (v / Pow2(n - 1 - i)) % 2 == 1
  {
    if i < n - 1 {
      BitAt(v / 2, n - 1, i);
      DivTwice(v, Pow2(n - 2 - i));
    }
  }

  /** Position `p` of `format(w, '016b')` (0 = leftmost) holds bit `15 - p` of the word. */
  lemma PositionIsBit(w: Word, p: nat)
    requires p < 16
    ensures Format016b(w)[p] == '1' <==> (w / Pow2(15 - p)) % 2 == 1
  {
    BitAt(w, 16, p);
  }

  /** The examined positions of a word's string are the 13-bit string of `w // 8`. */
  lemma ExaminedChars(w: Word, prefix: string)
    requires Bits(w / 8, Examined) == prefix
    ensures forall q :: 0 <= q < Examined ==> Format016b(w)[q] == prefix[q]
  {
    ExaminedPrefix(w);
    var s := Format016b(w);
    assert forall q :: 0 <= q < Examined ==> s[q] == s[..Examined][q];
  }

  /** 0x0003 sets only positions 14 and 15, both reserved, and reads `ok`. */
  lemma ReservedOnlyWord(w: Word)
    requires w == 0x0003
    ensures ClassifyFirst(Format016b(w)) == ClassifyLast(Format016b(w)) == Normal
  {
    NormalIffOnlyReservedBits(w);
  }

  /**
   * 0x0018 sets positions 11 and 12: the `elif` chain reports the front-end IC error, the `if`
   * sequence the MOS lock-in.
   */
  lemma TwoFaultWord(w: Word)
    requires w == 0x0018
    ensures ClassifyFirst(Format016b(w)) == ForeEndICError
    ensures ClassifyLast(Format016b(w)) == MOSSoftwareLockIn
  {
    var v := w / 8;
    assert v == 3 && Pow2(2) == 4 && Pow2(1) == 2 && Pow2(0) == 1;
    LeadingZeros(v, Examined, 2);
    BitAt(v, Examined, 11);
    BitAt(v, Examined, 12);
    ExaminedChars(w, Bits(v, Examined));
    ExaminedLabels(Format016b(w), 11, 12);
  }

  /** 0x0008 sets position 12 alone, the MOS lock-in flag, and both variants report it. */
  lemma SingleFaultWord(w: Word)
    requires w == 0x0008
    ensures ClassifyFirst(Format016b(w)) == ClassifyLast(Format016b(w)) == MOSSoftwareLockIn
  {
    var v := w / 8;
    assert v == 1 && Pow2(1) == 2 && Pow2(0) == 1;
    LeadingZeros(v, Examined, 1);
    BitAt(v, Examined, 12);
    ExaminedChars(w, Bits(v, Examined));
    ExaminedLabels(Format016b(w), 12, 12);
  }

  /** A string whose examined ones are exactly the positions `lo` and `hi`. */
  lemma ExaminedLabels(s: string, lo: nat, hi: nat)
    requires |s| == 16 && IsBinary(s) && lo <= hi < Examined
    requires s[lo] == '1' && s[hi] == '1'
    requires forall q :: 0 <= q < Examined && q != lo && q != hi ==> s[q] != '1'
    ensures ClassifyFirst(s) == FaultAt(lo) && ClassifyLast(s) == FaultAt(hi)
  {
    assert IsLowestSet(s, lo);
    assert IsHighestSet(s, hi);
  }
}
