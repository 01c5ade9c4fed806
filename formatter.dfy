/** `Formatter`: `normalizeString` (trim, then every run of whitespace becomes
    one space) and the integer part of `formatBytes` (the zero case, the
    clamping of `decimals` and the choice of unit). */
module Formatter {
  import opened Wrappers
  import opened Text
  import opened Whitespace

  const Kilobyte: nat := 1024
  const Units: seq<string> := ["Bytes", "KB", "MB", "GB", "TB", "PB", "EB", "ZB", "YB"]

  /** `normalizeString(str)`: `str.trim().replace(/\s+/g, ' ')`. */
  function NormalizeString(s: string): string {
    CollapseSpaces(Trim(s, IsJsSpace), IsJsSpace)
  }

  /** `normalizeString` has no whitespace at either end, no two whitespace
      characters in a row, only plain spaces, and the non-space text of the
      input. */
  lemma NormalizeStringShape(s: string)
    ensures var r := NormalizeString(s);
      && NoEdgeSpace(r, IsJsSpace) && NoDoubleSpace(r, IsJsSpace) && OnlyPlainSpaces(r, IsJsSpace)
      && NonSpace(r, IsJsSpace) == NonSpace(s, IsJsSpace)
  {
    var t := Trim(s, IsJsSpace);
    TrimShape(s, IsJsSpace);
    CollapseEdges(t, IsJsSpace);
    CollapseShape(t, IsJsSpace);
    CollapseKeepsText(t, IsJsSpace);
  }

  /** `normalizeString` is idempotent. */
  lemma NormalizeStringIdempotent(s: string)
    ensures NormalizeString(NormalizeString(s)) == NormalizeString(s)
  {
    var r := NormalizeString(s);
    NormalizeStringShape(s);
    TrimUntrimmed(r, IsJsSpace);
    CollapseFixpoint(r, IsJsSpace);
  }

  function Pow(b: nat, k: nat): nat {
    if k == 0 then 1 else b * Pow(b, k - 1)
  }

  /** `Math.floor(Math.log(bytes) / Math.log(1024))` on exact integers: the
      largest power of 1024 not above `bytes`. */
  function UnitIndex(bytes: nat): (k: nat)
    requires bytes >= 1
    ensures Pow(Kilobyte, k) <= bytes < Pow(Kilobyte, k + 1)
  {
    if bytes < Kilobyte then 0
    else
      var k := UnitIndex(bytes / Kilobyte);
      assert Pow(Kilobyte, k + 1) <= bytes by {
        assert Pow(Kilobyte, k + 1) == Kilobyte * Pow(Kilobyte, k);
        assert Kilobyte * (bytes / Kilobyte) <= bytes;
      }
      assert bytes < Pow(Kilobyte, k + 2) by {
        assert Pow(Kilobyte, k + 2) == Kilobyte * Pow(Kilobyte, k + 1);
        assert bytes / Kilobyte + 1 <= Pow(Kilobyte, k + 1);
      }
      k + 1
  }

  lemma {:induction false} PowMonotone(b: nat, i: nat, j: nat)
    requires b >= 1 && i <= j
    ensures Pow(b, i) <= Pow(b, j)
    decreases j
  {
    if i < j {
      PowMonotone(b, i, j - 1);
      assert Pow(b, j) == b * Pow(b, j - 1);
      TimesAtLeastOne(b, Pow(b, j - 1));
    }
  }

  lemma TimesAtLeastOne(b: nat, x: nat)
    requires b >= 1
    ensures x <= b * x
  {
    assert b * x == x + (b - 1) * x;
  }

  /** The unit index is the only exponent that brackets `bytes`. */
  lemma UnitIndexUnique(bytes: nat, k: nat)
    requires bytes >= 1
    requires Pow(Kilobyte, k) <= bytes < Pow(Kilobyte, k + 1)
    ensures UnitIndex(bytes) == k
  {
    var u := UnitIndex(bytes);
    if u < k {
      PowMonotone(Kilobyte, u + 1, k);
    } else if k < u {
      PowMonotone(Kilobyte, k + 1, u);
    }
  }

  /** A formatted size: "0 Bytes", or the exact quotient `bytes / divisor`
      that is printed with `precision` decimals, and its unit. Past `YB`
      the unit is JavaScript's `undefined`, printed as "undefined". */
  datatype ByteLabel = ZeroBytes | Scaled(bytes: nat, divisor: nat, precision: nat, unit: string)

  /** The most fraction digits `Number.prototype.toFixed` accepts; above
      it, `toFixed` throws a `RangeError`. */
  const MaxFractionDigits: nat := 100

  /** `formatBytes(bytes, decimals)` without the floating-point rounding;
      `None` is the `RangeError` that `toFixed` throws for more than 100
      decimals. The zero case returns before `toFixed` is reached. */
  function FormatBytes(bytes: nat, decimals: int): (r: Option<ByteLabel>)
    ensures r.None? <==> bytes != 0 && decimals > MaxFractionDigits
    ensures bytes == 0 <==> r == Some(ZeroBytes)
    ensures r.Some? && r.value.Scaled? ==> r.value.precision == (if decimals < 0 then 0 else decimals)
    ensures r.Some? && r.value.Scaled? ==> r.value.bytes == bytes && r.value.divisor == Pow(Kilobyte, UnitIndex(bytes))
    ensures r.Some? && r.value.Scaled? ==> r.value.divisor <= bytes < Kilobyte * r.value.divisor
  {
    if bytes == 0 then Some(ZeroBytes)
    else
      var dm := if decimals < 0 then 0 else decimals;
      if dm > MaxFractionDigits then None
      else
        var i := UnitIndex(bytes);
        assert Pow(Kilobyte, i + 1) == Kilobyte * Pow(Kilobyte, i);
        Some(Scaled(bytes, Pow(Kilobyte, i), dm, if i < |Units| then Units[i] else "undefined"))
  }

  /** Below 1024^9 bytes the unit is the one of `Units` whose power of 1024
      brackets the size; from there on it is "undefined". */
  lemma FormatBytesUnit(bytes: nat, decimals: int)
    requires bytes >= 1
    ensures bytes < Pow(Kilobyte, 9) ==> UnitIndex(bytes) < 9
    ensures FormatBytes(bytes, decimals).Some? && bytes < Pow(Kilobyte, 9) ==>
      FormatBytes(bytes, decimals).value.unit == Units[UnitIndex(bytes)]
    ensures FormatBytes(bytes, decimals).Some? && bytes >= Pow(Kilobyte, 9) ==>
      FormatBytes(bytes, decimals).value.unit == "undefined"
  {
    var i := UnitIndex(bytes);
    if bytes < Pow(Kilobyte, 9) && i >= 9 {
      PowMonotone(Kilobyte, 9, i);
    }
    if bytes >= Pow(Kilobyte, 9) && i < 9 {
      PowMonotone(Kilobyte, i + 1, 9);
    }
  }

  /** The default precision is two decimals, and concrete units; 101
      decimals throw unless the size is zero. */
  lemma FormatBytesExamples()
    ensures FormatBytes(0, 2) == Some(ZeroBytes)
    ensures FormatBytes(1023, 2) == Some(Scaled(1023, 1, 2, "Bytes"))
    ensures FormatBytes(1024, -3) == Some(Scaled(1024, 1024, 0, "KB"))
    ensures FormatBytes(736, 2).value.unit == "Bytes"
    ensures FormatBytes(736, 100).Some? && FormatBytes(736, 101).None? && FormatBytes(0, 101) == Some(ZeroBytes)
  {
    assert UnitIndex(1024) == 1;
  }
}
