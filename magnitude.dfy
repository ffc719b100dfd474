/** SI magnitude prefixes: `valueToMagnitude`, `valueToSmallMagnitude` and
    `hzToHuman`. A value is split into sign and absolute value, a prefix is
    chosen from a fixed table of (exponent, prefix) entries by a scan from
    the last entry down, the absolute value is divided by 10^exponent, the
    sign is put back and the label "<number> <prefix><unit>" is built.
    Numbers are exact reals; turning a number into text is host code
    (`toString`, `toFixed`) and is passed in as a `NumberFormat`. */
module Magnitude {
  import opened Powers

  datatype Option<T> = None | Some(value: T)

  /** One row of a magnitude table: the threshold is 10^exponent. */
  datatype Unit = Unit(exponent: int, prefix: string)

  /** A value scaled to its prefix: `number` times 10^exponent of the prefix is the value. */
  datatype Scaled = Scaled(number: real, prefix: string)

  /** The host's rendering of numbers: `Number.prototype.toString` and `toFixed`. */
  datatype NumberFormat = NumberFormat(toText: real -> string, toFixed: (real, nat) -> string)

  /** The table of `valueToMagnitude`, kilo to yotta, in ascending exponent order. */
  const LargeUnits: seq<Unit> := [
    Unit(0, ""), Unit(3, "k"), Unit(6, "M"), Unit(9, "G"),
    Unit(12, "T"), Unit(15, "P"), Unit(18, "E"), Unit(21, "Y")
  ]

  /** The table of `valueToSmallMagnitude` as the source has it: descending
      exponents, and the prefix "n" at both -9 and -15. */
  const SmallUnits: seq<Unit> := [
    Unit(0, ""), Unit(-3, "m"), Unit(-6, "µ"), Unit(-9, "n"), Unit(-12, "p"),
    Unit(-15, "n"), Unit(-18, "a"), Unit(-21, "z"), Unit(-24, "y")
  ]

  /** The small table with femto at -15, as the prefix sequence evidently intends. */
  const SmallUnitsIntended: seq<Unit> := [
    Unit(0, ""), Unit(-3, "m"), Unit(-6, "µ"), Unit(-9, "n"), Unit(-12, "p"),
    Unit(-15, "f"), Unit(-18, "a"), Unit(-21, "z"), Unit(-24, "y")
  ]

  function Abs(x: real): (r: real)
    ensures r >= 0.0 && (r == x || r == -x)
  {
    if x < 0.0 then -x else x
  }

  /** The source's `sign`: -1 for a negative value, 1 otherwise (zero counts as positive). */
  function Sign(x: real): (r: real)
    ensures r * Abs(x) == x
    ensures r == 1.0 || r == -1.0
    ensures r == 1.0 <==> x >= 0.0
  {
    if x < 0.0 then -1.0 else 1.0
  }

  /** The test of the scan: the entry's threshold 10^exponent is at most `v`. */
  predicate Meets(u: Unit, v: real)
  {
    Pow10(u.exponent) <= v
  }

  /** The index the source's downward scan stops at: the highest index whose
      threshold `v` meets, or 0 when no threshold is met. */
  function LastMet(table: seq<Unit>, v: real): (idx: nat)
    requires |table| > 0
    ensures idx < |table|
    ensures forall j :: idx < j < |table| ==> !Meets(table[j], v)
    ensures Meets(table[idx], v) || (idx == 0 && forall j :: 0 <= j < |table| ==> !Meets(table[j], v))
  {
    if |table| == 1 || Meets(table[|table| - 1], v) then |table| - 1
    else LastMet(table[..|table| - 1], v)
  }

  /** The lowest index from `i` on whose threshold `v` meets, or 0 when none is met. */
  function FirstMetFrom(table: seq<Unit>, v: real, i: nat): (idx: nat)
    requires 0 < |table| && i <= |table|
    ensures idx < |table|
    ensures (i <= idx && Meets(table[idx], v) && forall j :: i <= j < idx ==> !Meets(table[j], v))
            || (idx == 0 && forall j :: i <= j < |table| ==> !Meets(table[j], v))
    decreases |table| - i
  {
    if i == |table| then 0
    else if Meets(table[i], v) then i
    else FirstMetFrom(table, v, i + 1)
  }

  /** The lowest index whose threshold `v` meets, or 0 when none is met. */
  function FirstMet(table: seq<Unit>, v: real): (idx: nat)
    requires |table| > 0
    ensures idx < |table|
    ensures forall j :: 0 <= j < idx ==> !Meets(table[j], v)
    ensures Meets(table[idx], v) || (idx == 0 && forall j :: 0 <= j < |table| ==> !Meets(table[j], v))
  {
    FirstMetFrom(table, v, 0)
  }

  /** `value` scaled to the entry at `idx`: |value| / 10^exponent with the sign put back. */
  function ScaleAt(table: seq<Unit>, value: real, idx: nat): Scaled
    requires idx < |table|
  {
    Scaled((Abs(value) / Pow10(table[idx].exponent)) * Sign(value), table[idx].prefix)
  }

  /** What the source computes before rendering: the entry found by the downward scan. */
  function Scale(table: seq<Unit>, value: real): Scaled
    requires |table| > 0
  {
    ScaleAt(table, value, LastMet(table, Abs(value)))
  }

  /** The number as text: `toFixed(places)` when places are given, else `toString`. */
  function NumberText(fmt: NumberFormat, x: real, fixedPlaces: Option<nat>): string
  {
    match fixedPlaces
    case Some(places) => fmt.toFixed(x, places)
    case None => fmt.toText(x)
  }

  /** The returned label: number, one space, prefix, unit. */
  function Label(fmt: NumberFormat, s: Scaled, unit: string, fixedPlaces: Option<nat>): string
  {
    NumberText(fmt, s.number, fixedPlaces) + " " + s.prefix + unit
  }

  /** The source's loop: from the last index down, stop at the first entry
      whose threshold `v` meets; `idx` stays 0 when none does. */
  method FindLastMet(table: seq<Unit>, v: real) returns (idx: nat)
    requires |table| > 0
    ensures idx == LastMet(table, v)
  {
    idx := 0;
    var i := |table| - 1;
    while i >= 0
      invariant -1 <= i < |table|
      invariant forall j :: i < j < |table| ==> !Meets(table[j], v)
    {
      if v >= Pow10(table[i].exponent) {
        idx := i;
        break;
      }
      i := i - 1;
    }
  }

  /** The body shared by both magnitude functions, run over the given table. */
  method ScaleAndLabel(table: seq<Unit>, value: real, unit: string, fixedPlaces: Option<nat>, fmt: NumberFormat)
    returns (text: string)
    requires |table| > 0
    ensures text == Label(fmt, Scale(table, value), unit, fixedPlaces)
  {
    var sign := if value < 0.0 then -1.0 else 1.0;
    var v := if value < 0.0 then -value else value;
    var idx := FindLastMet(table, v);
    v := v / Pow10(table[idx].exponent);
    v := v * sign;
    text := NumberText(fmt, v, fixedPlaces) + " " + table[idx].prefix + unit;
  }

  /** `valueToMagnitude(value, unit, fixedPlaces)`. */
  method ValueToMagnitude(value: real, unit: string, fixedPlaces: Option<nat>, fmt: NumberFormat)
    returns (text: string)
    ensures text == Label(fmt, Scale(LargeUnits, value), unit, fixedPlaces)
  {
    text := ScaleAndLabel(LargeUnits, value, unit, fixedPlaces, fmt);
  }

  /** `valueToSmallMagnitude(value, unit, fixedPlaces)`, with the table as written. */
  method ValueToSmallMagnitude(value: real, unit: string, fixedPlaces: Option<nat>, fmt: NumberFormat)
    returns (text: string)
    ensures text == Label(fmt, Scale(SmallUnits, value), unit, fixedPlaces)
  {
    text := ScaleAndLabel(SmallUnits, value, unit, fixedPlaces, fmt);
  }

  /** `hzToHuman(value, fixedPlaces)`: `valueToMagnitude` with the unit "Hz". */
  method HzToHuman(value: real, fixedPlaces: Option<nat>, fmt: NumberFormat) returns (text: string)
    ensures text == Label(fmt, Scale(LargeUnits, value), "Hz", fixedPlaces)
  {
    text := ValueToMagnitude(value, "Hz", fixedPlaces, fmt);
  }

  /** The corrected scan: from index 0 (exponent 0) upward, stop at the first
      entry met, so the largest applicable prefix of a descending table wins. */
  method FindFirstMet(table: seq<Unit>, v: real) returns (idx: nat)
    requires |table| > 0
    ensures idx == FirstMet(table, v)
  {
    idx := 0;
    var i := 0;
    while i < |table|
      invariant 0 <= i <= |table|
      invariant forall j :: 0 <= j < i ==> !Meets(table[j], v)
    {
      if v >= Pow10(table[i].exponent) {
        idx := i;
        break;
      }
      i := i + 1;
    }
  }

  /** The body of the magnitude functions with the corrected scan. */
  method ScaleAndLabelLargest(table: seq<Unit>, value: real, unit: string, fixedPlaces: Option<nat>, fmt: NumberFormat)
    returns (text: string)
    requires |table| > 0
    ensures text == Label(fmt, ScaleAt(table, value, FirstMet(table, Abs(value))), unit, fixedPlaces)
  {
    var sign := if value < 0.0 then -1.0 else 1.0;
    var v := if value < 0.0 then -value else value;
    var idx := FindFirstMet(table, v);
    v := v / Pow10(table[idx].exponent);
    v := v * sign;
    text := NumberText(fmt, v, fixedPlaces) + " " + table[idx].prefix + unit;
  }

  /** `valueToSmallMagnitude` as evidently intended: femto at -15 and the
      largest applicable prefix chosen. */
  method ValueToSmallMagnitudeIntended(value: real, unit: string, fixedPlaces: Option<nat>, fmt: NumberFormat)
    returns (text: string)
    ensures text == Label(fmt, ScaleAt(SmallUnitsIntended, value, FirstMet(SmallUnitsIntended, Abs(value))), unit, fixedPlaces)
  {
    text := ScaleAndLabelLargest(SmallUnitsIntended, value, unit, fixedPlaces, fmt);
  }

  // ---------------------------------------------------------------------
  // Properties
  // ---------------------------------------------------------------------

  /** Scaling loses nothing over the reals: number * 10^exponent is the value,
      and the number has the value's sign, zero counting as positive. */
  lemma ScaleAtRoundTrip(table: seq<Unit>, value: real, idx: nat)
    requires idx < |table|
    ensures ScaleAt(table, value, idx).number * Pow10(table[idx].exponent) == value
    ensures ScaleAt(table, value, idx).number == Sign(value) * (Abs(value) / Pow10(table[idx].exponent))
    ensures ScaleAt(table, value, idx).number < 0.0 <==> value < 0.0
    ensures ScaleAt(table, value, idx).number == 0.0 <==> value == 0.0
  {
    var p := Pow10(table[idx].exponent);
    var q := Abs(value) / p;
    assert q * p == Abs(value);
    assert q >= 0.0 && (q == 0.0 <==> value == 0.0);
    calc {
      ScaleAt(table, value, idx).number * p;
      (q * Sign(value)) * p;
      (q * p) * Sign(value);
      Abs(value) * Sign(value);
      value;
    }
  }

  lemma LargeExponents()
    ensures forall i :: 0 <= i < |LargeUnits| ==> LargeUnits[i].exponent == 3 * i
  {
  }

  lemma SmallIntendedExponents()
    ensures forall i :: 0 <= i < |SmallUnitsIntended| ==> SmallUnitsIntended[i].exponent == -3 * i
  {
  }

  /** A value between two thresholds a thousand apart scales into [1, 1000). */
  lemma QuotientInRange(a: real, p: real)
    requires 0.0 < p <= a < 1000.0 * p
    ensures 1.0 <= a / p < 1000.0
  {
    var q := a / p;
    assert q * p == a;
    CancelPositive(1.0, q, p);
    CancelPositive(q, 1000.0, p);
  }

  lemma CancelPositive(x: real, y: real, p: real)
    requires p > 0.0
    ensures x * p < y * p <==> x < y
  {
    assert y * p - x * p == (y - x) * p;
  }

  /** Scaling by a threshold the value meets, when the next threshold up
      (a thousand times larger) is not met, gives a number in [1, 1000). */
  lemma ScaleAtInRange(table: seq<Unit>, value: real, idx: nat)
    requires idx < |table|
    requires Pow10(table[idx].exponent) <= Abs(value) < 1000.0 * Pow10(table[idx].exponent)
    ensures 1.0 <= Abs(ScaleAt(table, value, idx).number) < 1000.0
  {
    QuotientInRange(Abs(value), Pow10(table[idx].exponent));
    ScaleAtMagnitude(table, value, idx);
  }

  /** For 1 <= |value| < 10^24 the displayed number has magnitude in [1, 1000). */
  lemma LargeScaleInRange(value: real)
    requires 1.0 <= Abs(value) < Pow10(24)
    ensures 1.0 <= Abs(Scale(LargeUnits, value).number) < 1000.0
  {
    var a := Abs(value);
    var idx := LastMet(LargeUnits, a);
    LargeExponents();
    assert Meets(LargeUnits[0], a);
    assert Meets(LargeUnits[idx], a);
    Pow10Step(3 * idx);
    if idx < 7 {
      assert !Meets(LargeUnits[idx + 1], a);
    }
    ScaleAtInRange(LargeUnits, value, idx);
  }

  /** Below one there is no prefix and the value is shown unscaled. */
  lemma LargeBelowOneUnscaled(value: real)
    requires Abs(value) < 1.0
    ensures Scale(LargeUnits, value) == Scaled(value, "")
  {
    var a := Abs(value);
    LargeExponents();
    forall j | 0 <= j < |LargeUnits|
      ensures !Meets(LargeUnits[j], a)
    {
    }
    assert LastMet(LargeUnits, a) == 0;
  }

  /** From 10^21 upward the prefix is always yotta. */
  lemma LargeYottaFrom21(value: real)
    requires Abs(value) >= Pow10(21)
    ensures Scale(LargeUnits, value).prefix == "Y"
    ensures Scale(LargeUnits, value).number * Pow10(21) == value
  {
    var last := |LargeUnits| - 1;
    assert LargeUnits[last] == Unit(21, "Y");
    assert LastMet(LargeUnits, Abs(value)) == last;
    ScaleAtRoundTrip(LargeUnits, value, last);
  }

  /** Every entry of the small table has a threshold of at least 10^-24. */
  lemma SmallThresholdsAtLeastYocto()
    ensures forall j :: 0 <= j < |SmallUnits| ==> Pow10(-24) <= Pow10(SmallUnits[j].exponent)
  {
    forall j | 0 <= j < |SmallUnits|
      ensures Pow10(-24) <= Pow10(SmallUnits[j].exponent)
    {
      if j < 8 {
        Pow10StrictlyIncreasing(-24, SmallUnits[j].exponent);
      }
    }
  }

  /** As written, the small scan starts at the yocto entry: any |value| >= 10^-24
      gets the prefix "y" and is divided by 10^-24; anything smaller, zero
      included, gets no prefix and is left as it is. */
  lemma SmallScaleAsWritten(value: real)
    ensures Abs(value) >= Pow10(-24) ==> Scale(SmallUnits, value) == ScaleAt(SmallUnits, value, 8)
    ensures Abs(value) >= Pow10(-24) ==> Scale(SmallUnits, value).prefix == "y"
    ensures Abs(value) < Pow10(-24) ==> Scale(SmallUnits, value) == Scaled(value, "")
  {
    var a := Abs(value);
    if a >= Pow10(-24) {
      assert Meets(SmallUnits[8], a);
    } else {
      SmallThresholdsAtLeastYocto();
      assert LastMet(SmallUnits, a) == 0;
    }
  }

  /** A value at least a thousand times the entry's threshold scales to at least 1000. */
  lemma ScaleAtOverThousand(table: seq<Unit>, value: real, idx: nat)
    requires idx < |table| && Abs(value) >= 1000.0 * Pow10(table[idx].exponent)
    ensures Abs(ScaleAt(table, value, idx).number) >= 1000.0
  {
    QuotientAtLeast(Abs(value), Pow10(table[idx].exponent));
    ScaleAtMagnitude(table, value, idx);
  }

  lemma QuotientAtLeast(a: real, p: real)
    requires 0.0 < p && 1000.0 * p <= a
    ensures a / p >= 1000.0
  {
    var q := a / p;
    assert q * p == a;
    CancelPositive(q, 1000.0, p);
  }

  /** The displayed number's magnitude is |value| / 10^exponent. */
  lemma ScaleAtMagnitude(table: seq<Unit>, value: real, idx: nat)
    requires idx < |table|
    ensures Abs(ScaleAt(table, value, idx).number) == Abs(value) / Pow10(table[idx].exponent)
  {
    var q := Abs(value) / Pow10(table[idx].exponent);
    assert q >= 0.0;
    if value < 0.0 {
      assert q * Sign(value) == -q;
    } else {
      assert q * Sign(value) == q;
    }
  }

  /** As written, every |value| >= 10^-21 (one thousandth, say) is shown in
      yocto-units with a number of at least 1000, outside [1, 1000). */
  lemma SmallScaleOverflows(value: real)
    requires Abs(value) >= Pow10(-21)
    ensures Scale(SmallUnits, value).prefix == "y"
    ensures Abs(Scale(SmallUnits, value).number) >= 1000.0
  {
    var a := Abs(value);
    Pow10Step(-24);
    assert Meets(SmallUnits[8], a);
    assert LastMet(SmallUnits, a) == 8;
    ScaleAtOverThousand(SmallUnits, value, 8);
  }

  /** The source's small table gives "n" to two different exponents, -9 and -15. */
  lemma SmallPrefixDuplicated()
    ensures SmallUnits[3] == Unit(-9, "n") && SmallUnits[5] == Unit(-15, "n")
    ensures exists i, j :: 0 <= i < j < |SmallUnits| && SmallUnits[i].prefix == SmallUnits[j].prefix
                          && SmallUnits[i].exponent != SmallUnits[j].exponent
  {
    assert SmallUnits[3].prefix == SmallUnits[5].prefix == "n";
  }

  /** The intended table names each exponent with its own prefix. */
  lemma IntendedSmallPrefixesDistinct()
    ensures forall i, j :: 0 <= i < j < |SmallUnitsIntended| ==> SmallUnitsIntended[i].prefix != SmallUnitsIntended[j].prefix
  {
  }

  /** With the corrected scan, 10^-24 <= |value| < 1 scales into [1, 1000)
      under the largest prefix whose threshold the value meets. */
  lemma IntendedSmallScaleInRange(value: real)
    requires Pow10(-24) <= Abs(value) < 1.0
    ensures var idx := FirstMet(SmallUnitsIntended, Abs(value));
            1.0 <= Abs(ScaleAt(SmallUnitsIntended, value, idx).number) < 1000.0
            && Meets(SmallUnitsIntended[idx], Abs(value))
            && forall j :: 0 <= j < idx ==> !Meets(SmallUnitsIntended[j], Abs(value))
  {
    var a := Abs(value);
    var idx := FirstMet(SmallUnitsIntended, a);
    assert Meets(SmallUnitsIntended[8], a);
    assert 0 < idx;
    var e := SmallUnitsIntended[idx].exponent;
    assert SmallUnitsIntended[idx - 1].exponent == e + 3 by {
      SmallIntendedExponents();
    }
    assert !Meets(SmallUnitsIntended[idx - 1], a);
    Pow10Step(e);
    ScaleAtInRange(SmallUnitsIntended, value, idx);
  }

  /** With the corrected scan, values of at least one and values below 10^-24
      get no prefix and are shown as they are. */
  lemma IntendedSmallOutsideUnscaled(value: real)
    requires Abs(value) >= 1.0 || Abs(value) < Pow10(-24)
    ensures ScaleAt(SmallUnitsIntended, value, FirstMet(SmallUnitsIntended, Abs(value))) == Scaled(value, "")
  {
    IntendedSmallFirstEntry(Abs(value));
    ScaleAtUnitEntry(SmallUnitsIntended, value, 0);
  }

  lemma IntendedSmallFirstEntry(a: real)
    requires a >= 1.0 || a < Pow10(-24)
    ensures FirstMet(SmallUnitsIntended, a) == 0
  {
    if a < 1.0 {
      IntendedSmallNoneMet(a);
    }
  }

  /** Scaling to an entry of exponent 0 leaves the value as it is. */
  lemma ScaleAtUnitEntry(table: seq<Unit>, value: real, idx: nat)
    requires idx < |table| && table[idx].exponent == 0
    ensures ScaleAt(table, value, idx) == Scaled(value, table[idx].prefix)
  {
    assert Pow10(0) == 1.0;
  }

  lemma IntendedSmallNoneMet(a: real)
    requires a < Pow10(-24)
    ensures forall j :: 0 <= j < |SmallUnitsIntended| ==> !Meets(SmallUnitsIntended[j], a)
  {
    forall j | 0 <= j < |SmallUnitsIntended|
      ensures !Meets(SmallUnitsIntended[j], a)
    {
      if j < 8 {
        Pow10StrictlyIncreasing(-24, SmallUnitsIntended[j].exponent);
      }
    }
  }

  /** The large scan picks entry i exactly when 10^(3i) <= v < 10^(3i+3)
      (no upper bound for the last entry, yotta). */
  lemma LargeIndexOf(v: real, i: nat)
    requires i < |LargeUnits| && Pow10(3 * i) <= v
    requires i == |LargeUnits| - 1 || v < Pow10(3 * i + 3)
    ensures LastMet(LargeUnits, v) == i
  {
    LargeExponents();
    forall j | i < j < |LargeUnits|
      ensures !Meets(LargeUnits[j], v)
    {
      LargeAboveNotMet(v, i, j);
    }
    assert Meets(LargeUnits[i], v);
  }

  /** Rows above a band the value stays below are not met. */
  lemma LargeAboveNotMet(v: real, i: nat, j: nat)
    requires i < j < |LargeUnits| && v < Pow10(3 * i + 3)
    ensures !Meets(LargeUnits[j], v)
  {
    assert LargeUnits[j].exponent == 3 * j by {
      LargeExponents();
    }
    if j > i + 1 {
      Pow10StrictlyIncreasing(3 * i + 3, 3 * j);
    }
  }

  /** 1000 is shown as 1 with prefix "k". */
  lemma ExampleThousand()
    ensures Scale(LargeUnits, 1000.0) == Scaled(1.0, "k")
  {
    assert Pow10(3) == 1000.0 && Pow10(6) == 1000000.0;
    LargeIndexOf(1000.0, 1);
  }

  /** 999 is shown unscaled, without a prefix. */
  lemma ExampleBelowThousand()
    ensures Scale(LargeUnits, 999.0) == Scaled(999.0, "")
  {
    assert Pow10(0) == 1.0 && Pow10(3) == 1000.0;
    LargeIndexOf(999.0, 0);
  }

  /** -1500 keeps its sign: -1.5 with prefix "k". */
  lemma ExampleNegative()
    ensures Scale(LargeUnits, -1500.0) == Scaled(-1.5, "k")
  {
    assert Pow10(3) == 1000.0 && Pow10(6) == 1000000.0;
    LargeIndexOf(1500.0, 1);
  }

  /** 5000000 is shown as 5 with prefix "M". */
  lemma ExampleMega()
    ensures Scale(LargeUnits, 5000000.0) == Scaled(5.0, "M")
  {
    assert Pow10(6) == 1000000.0 && Pow10(9) == 1000000000.0;
    LargeIndexOf(5000000.0, 2);
  }
}
