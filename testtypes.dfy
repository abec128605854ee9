/** Test identifiers such as `blood_2023` or `checkup_2024`: the base type is the identifier
    without a trailing `_` and four digits (`replace(/_\d{4}$/, '')`), and the year is the first
    run of four consecutive digits anywhere in it (`match(/(\d{4})/)`). */
module TestTypes {
  import opened Wrappers
  import opened Text

  /** `s` ends with `_` followed by four ASCII digits. */
  predicate HasYearSuffix(s: string) {
    |s| >= 5 && s[|s| - 5] == '_' && AllDigits(s[|s| - 4..])
  }

  /** `s.replace(/_\d{4}$/, '')`: the anchored pattern can only match the last five characters,
      and `replace` with a non-global pattern removes at most that one match. */
  function BaseType(s: string): (r: string)
    ensures HasYearSuffix(s) ==> |r| == |s| - 5 && s == r + s[|s| - 5..]
    ensures !HasYearSuffix(s) ==> r == s
  {
    if HasYearSuffix(s) then s[..|s| - 5] else s
  }

  /** A dated identifier `b_dddd` has base type `b`. */
  lemma BaseTypeOfDated(b: string, digits: string)
    requires |digits| == 4 && AllDigits(digits)
    ensures BaseType(b + "_" + digits) == b
  {
    var s := b + "_" + digits;
    assert s[|s| - 5] == '_';
    assert s[|s| - 4..] == digits;
    assert s[..|s| - 5] == b;
  }

  /** Four ASCII digits start at index `i` of `s`. */
  predicate FourDigitsAt(s: string, i: int) {
    0 <= i && i + 4 <= |s| && AllDigits(s[i..i + 4])
  }

  /** Where the leftmost match of `/(\d{4})/` at or after `from` begins, if any. */
  function FirstFourDigitsFrom(s: string, from: nat): (r: Option<nat>)
    requires from <= |s|
    ensures r.Some? ==> from <= r.value && FourDigitsAt(s, r.value)
                        && forall j | from <= j < r.value :: !FourDigitsAt(s, j)
    ensures r.None? ==> forall j | from <= j <= |s| :: !FourDigitsAt(s, j)
    decreases |s| - from
  {
    if from + 4 > |s| then None
    else if FourDigitsAt(s, from) then Some(from)
    else FirstFourDigitsFrom(s, from + 1)
  }

  /** The value of the first run of four consecutive digits, as `parseInt(match[1])` reads it. */
  function YearIn(s: string): (r: Option<nat>)
  {
    match FirstFourDigitsFrom(s, 0)
    case Some(i) => Some(DecimalValue(s[i..i + 4]))
    case None => None
  }

  /** `YearIn` finds a four-digit run exactly when there is one; the value it reads is below
      10000 and is the one at the leftmost run. */
  lemma YearInSpec(s: string)
    ensures YearIn(s).None? <==> forall i | 0 <= i <= |s| :: !FourDigitsAt(s, i)
    ensures YearIn(s).Some? ==>
              exists i | 0 <= i <= |s| - 4 :: FourDigitsAt(s, i) && YearIn(s).value == DecimalValue(s[i..i + 4])
                && (forall j | 0 <= j < i :: !FourDigitsAt(s, j))
    ensures YearIn(s).Some? ==> YearIn(s).value < 10000
  {
    match FirstFourDigitsFrom(s, 0)
    case Some(i) =>
      FourDigitsBelow(s[i..i + 4]);
    case None =>
  }

  /** Four digits read as a decimal number stay below 10000. */
  lemma FourDigitsBelow(d: string)
    requires |d| == 4 && AllDigits(d)
    ensures DecimalValue(d) < 10000
  {
    var d3 := d[..3];
    var d2 := d3[..2];
    var d1 := d2[..1];
    assert d1[..0] == [];
    assert DecimalValue(d1) < 10;
    assert DecimalValue(d2) < 100;
    assert DecimalValue(d3) < 1000;
  }

  /** The year of a dated identifier `b_dddd` whose base type has no four-digit run is `dddd`. */
  lemma YearInDated(b: string, digits: string)
    requires |digits| == 4 && AllDigits(digits)
    requires forall i | 0 <= i <= |b| :: !FourDigitsAt(b, i)
    ensures YearIn(b + "_" + digits) == Some(DecimalValue(digits))
  {
    var s := b + "_" + digits;
    forall j | 0 <= j < |b| + 1 ensures !FourDigitsAt(s, j) {
      if j + 4 <= |b| {
        assert s[j..j + 4] == b[j..j + 4];
        assert !FourDigitsAt(b, j);
      } else if j + 4 <= |s| {
        assert s[j..j + 4][|b| - j] == s[|b|] == '_';
      }
    }
    assert s[|b| + 1..|b| + 5] == digits;
    assert FourDigitsAt(s, |b| + 1);
    YearInSpec(s);
  }
}
