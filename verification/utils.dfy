/**
 The byte-count helper of src/utils.rs: the decimal length of a value's
 integer part (`integer_len`) and the choice `NumBytes::pretty` makes before
 printing — which binary unit, which scaled value, and whether it is printed
 with decimals and how many. Values are exact reals, so each division by 1024
 is exact; the characters written are not modelled.
 */
module Utils {
  import opened Types

  /** `NumBytes<u64>`: a byte count; `From` wraps the value unchanged. */
  datatype NumBytes = NumBytes(value: u64)

  const UNITS: seq<string> := ["B", "KiB", "MiB", "GiB", "TiB", "Pib", "Eib", "ZiB", "YiB"]
  const VALUE_LEN: nat := 4

  function Pow10(n: nat): (p: nat)
    ensures p >= 1
  {
    if n == 0 then 1 else 10 * Pow10(n - 1)
  }

  function Pow1024(n: nat): (p: nat)
    ensures p >= 1
  {
    if n == 0 then 1 else 1024 * Pow1024(n - 1)
  }

  // ---------------------------------------------------------------------------
  // integer_len
  // ---------------------------------------------------------------------------

  /** `v.trunc() as u64`: rounds toward zero and saturates at both ends of the
      `u64` range, so every negative value becomes 0. */
  function TruncToU64(v: real): (t: nat)
    ensures t < U64_LIMIT
    ensures 0.0 <= v < U64_LIMIT as real ==> t as real <= v < t as real + 1.0
    ensures v < 1.0 ==> t == 0
    ensures v >= U64_LIMIT as real ==> t == U64_LIMIT - 1
  {
    if v < 0.0 then 0
    else if v.Floor >= U64_LIMIT then U64_LIMIT - 1
    else v.Floor
  }

  /** `l` is the number of decimal digits of `t`: the least `l >= 1` with
      `t < 10^l`. */
  ghost predicate IsDigitCount(t: nat, l: nat)
  {
    l >= 1 && t < Pow10(l) && (l == 1 || Pow10(l - 1) <= t)
  }

  /** The counting loop of `integer_len`, from length `l` and bound `p = 10^l`
      onwards. */
  function IntegerLenFrom(t: nat, l: nat, p: nat): (r: nat)
    requires l >= 1 && p == Pow10(l)
    requires l == 1 || Pow10(l - 1) <= t
    ensures IsDigitCount(t, r)
    decreases t - p
  {
    if t < p then l else IntegerLenFrom(t, l + 1, p * 10)
  }

  /** `integer_len`: the number of decimal digits of `v.trunc() as u64`. The
      source's bound `p` is a `u64`; here it grows without limit. */
  function IntegerLen(v: real): (l: nat)
    ensures IsDigitCount(TruncToU64(v), l)
  {
    IntegerLenFrom(TruncToU64(v), 1, 10)
  }

  lemma {:induction false} Pow10Monotone(a: nat, b: nat)
    requires a <= b
    ensures Pow10(a) <= Pow10(b)
    decreases b - a
  {
    if a < b {
      Pow10Monotone(a, b - 1);
    }
  }

  lemma {:induction false} Pow1024Monotone(a: nat, b: nat)
    requires a <= b
    ensures Pow1024(a) <= Pow1024(b)
    decreases b - a
  {
    if a < b {
      Pow1024Monotone(a, b - 1);
    }
  }

  /** The digit count is unique, so `integer_len` returns the least length. */
  lemma DigitCountUnique(t: nat, a: nat, b: nat)
    requires IsDigitCount(t, a) && IsDigitCount(t, b)
    ensures a == b
  {
    if a < b {
      Pow10Monotone(a, b - 1);
    } else if b < a {
      Pow10Monotone(b, a - 1);
    }
  }

  /** A value below 1024 has between one and four digits. */
  lemma IntegerLenBelow1024(v: real)
    requires v < 1024.0
    ensures 1 <= IntegerLen(v) <= 4
  {
    var l := IntegerLen(v);
    if l > 4 {
      Pow10Monotone(4, l - 1);
      assert false;
    }
  }

  /** The case the source's unit test checks. */
  lemma IntegerLenExample()
    ensures IntegerLen(573.0458984375) == 3
  {
    var t := TruncToU64(573.0458984375);
    assert t == 573;
    assert Pow10(2) == 100 && Pow10(3) == 1000;
    DigitCountUnique(t, IntegerLen(573.0458984375), 3);
  }

  // ---------------------------------------------------------------------------
  // pretty
  // ---------------------------------------------------------------------------

  /** `n` is below 1024^(k+1), i.e. divided by 1024^k it is below 1024. */
  ghost predicate FitsUnit(n: nat, k: nat)
  {
    n < Pow1024(k + 1)
  }

  /** A unit chosen by the loop of `pretty`: its index into `UNITS` and the
      value divided by 1024 once per step. */
  datatype Choice = Choice(unit: nat, scaled: real)

  lemma ScaleStep(n: nat, v: real, k: nat)
    requires v == n as real / Pow1024(k) as real
    ensures v / 1024.0 == n as real / Pow1024(k + 1) as real
    ensures v < 1024.0 <==> FitsUnit(n, k)
  {
    var p := Pow1024(k) as real;
    var q := Pow1024(k + 1) as real;
    assert q == 1024.0 * p;
    RealScale(n as real, p, v);
    assert v < 1024.0 <==> n as real < q;
  }

  /** Dividing by `p` and then by 1024 is dividing by `1024 p`; the quotient
      is below 1024 exactly when the dividend is below `1024 p`. */
  lemma RealScale(a: real, p: real, v: real)
    requires p > 0.0 && v == a / p
    ensures v / 1024.0 == a / (1024.0 * p)
    ensures v < 1024.0 <==> a < 1024.0 * p
  {
    assert v * p == a;
  }

  /** The loop over `UNITS` from index `k` on, with `v` the value divided by
      1024 `k` times: stop at the first unit where it is below 1024. */
  function SelectUnit(n: nat, v: real, k: nat): (r: Option<Choice>)
    requires k <= |UNITS|
    requires v == n as real / Pow1024(k) as real
    ensures r.Some? ==> k <= r.value.unit < |UNITS| && FitsUnit(n, r.value.unit)
    ensures r.Some? ==> r.value.scaled == n as real / Pow1024(r.value.unit) as real
    ensures r.Some? ==> forall j :: k <= j < r.value.unit ==> !FitsUnit(n, j)
    ensures r.None? ==> forall j :: k <= j < |UNITS| ==> !FitsUnit(n, j)
    decreases |UNITS| - k
  {
    if k == |UNITS| then None
    else
      ScaleStep(n, v, k);
      if v < 1024.0 then Some(Choice(k, v))
      else SelectUnit(n, v / 1024.0, k + 1)
  }

  /** How the chosen value is printed: `l` integer digits and `precision`
      decimals, or the integer part right-aligned in four columns. */
  datatype Style = Decimals(width: nat, precision: nat) | Whole(integer: nat)

  datatype Layout = Layout(unit: nat, unitName: string, value: real, style: Style)

  /** `NumBytes::pretty` up to the characters written: `None` is `fmt::Error`. */
  function Pretty(n: nat): (r: Option<Layout>)
    ensures r.Some? ==> r.value.unit < |UNITS| && r.value.unitName == UNITS[r.value.unit]
  {
    match SelectUnit(n, n as real, 0)
    case None => None
    case Some(c) =>
      var l := IntegerLen(c.scaled);
      if 1 <= l <= 2 then
        Some(Layout(c.unit, UNITS[c.unit], c.scaled, Decimals(l, VALUE_LEN - l - 1)))
      else if 3 <= l <= 4 then
        Some(Layout(c.unit, UNITS[c.unit], c.scaled, Whole(c.scaled.Floor)))
      else
        None
  }

  /** `pretty` succeeds exactly for values below 1024^9, with the first unit
      in which the value is below 1024, the value scaled to it, and one or two
      decimals for a one- or two-digit integer part, none otherwise. */
  lemma PrettyChoice(n: nat)
    ensures Pretty(n).Some? <==> n < Pow1024(|UNITS|)
    ensures Pretty(n).Some? ==>
              var r := Pretty(n).value;
              && FitsUnit(n, r.unit)
              && (forall j :: 0 <= j < r.unit ==> !FitsUnit(n, j))
              && r.value == n as real / Pow1024(r.unit) as real
              && 0.0 <= r.value < 1024.0
              && var l := IntegerLen(r.value);
                 1 <= l <= 4
                 && (l <= 2 ==> r.style == Decimals(l, VALUE_LEN - l - 1))
                 && (l >= 3 ==> r.style == Whole(r.value.Floor))
  {
    var c := SelectUnit(n, n as real, 0);
    if c.Some? {
      ScaleStep(n, c.value.scaled, c.value.unit);
      IntegerLenBelow1024(c.value.scaled);
      Pow1024Monotone(c.value.unit + 1, |UNITS|);
    } else {
      assert !FitsUnit(n, |UNITS| - 1);
    }
  }

  /** Every `u64` value has a unit, at most the seventh (`Eib`), so the final
      `Err` of `pretty` is never reached for a `NumBytes<u64>`. */
  lemma PrettyU64(n: nat)
    requires n < U64_LIMIT
    ensures Pretty(n).Some? && Pretty(n).value.unit <= 6
  {
    assert Pow1024(7) == 1024 * 1024 * 1024 * 1024 * 1024 * 1024 * 1024;
    assert FitsUnit(n, 6);
    Pow1024Monotone(7, |UNITS|);
    PrettyChoice(n);
  }

  /** The choices behind the source's unit tests. */
  lemma PrettyExamples()
    ensures Pretty(1263) == Some(Layout(1, "KiB", 1263.0 / 1024.0, Decimals(1, 2)))
    ensures Pretty(123) == Some(Layout(0, "B", 123.0, Whole(123)))
    ensures Pretty(1023) == Some(Layout(0, "B", 1023.0, Whole(1023)))
    ensures Pretty(600882176) == Some(Layout(2, "MiB", 573.0458984375, Whole(573)))
  {
    IntegerLenExample();
  }
}
