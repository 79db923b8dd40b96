/** Label derivation for one quality level of the levels menu.
    A level record may carry a name, a height in pixels and a bitrate in
    bits per second, each optional. The menu shows the first of these that
    is truthy in the host language: a non-empty name, a non-zero height
    (rendered as "<height>p") or a non-zero bitrate (rendered as
    "<round(bitrate / 1024)>kb"). A level with none of them has no label. */
module Labels {

  datatype Option<T> = None | Some(value: T)

  /** One entry of a backend's level list. Absent fields are `None`. */
  datatype Level = Level(name: Option<string>, height: Option<int>, bitrate: Option<int>)

  /** A string is truthy when it is present and non-empty. */
  predicate NameTruthy(l: Level) {
    l.name.Some? && l.name.value != ""
  }

  /** A number is truthy when it is present and non-zero. */
  predicate IsTruthy(x: Option<int>) {
    x.Some? && x.value != 0
  }

  // ---------------------------------------------------------------------
  // Decimal rendering of integers, as the host language's number-to-string
  // conversion writes them (no leading zeros, a '-' sign for negatives).
  // ---------------------------------------------------------------------

  predicate IsDigit(c: char) {
    '0' <= c <= '9'
  }

  predicate AllDigits(s: string) {
    forall i :: 0 <= i < |s| ==> IsDigit(s[i])
  }

  function DigitChar(d: nat): (c: char)
    requires d < 10
    ensures IsDigit(c) && c as int - '0' as int == d
  {
    ['0', '1', '2', '3', '4', '5', '6', '7', '8', '9'][d]
  }

  /** The decimal digits of `n`, most significant first. */
  function NatToDecimal(n: nat): (s: string)
    ensures |s| > 0 && AllDigits(s)
    ensures s[0] == '0' ==> n == 0
  {
    if n < 10 then [DigitChar(n)] else NatToDecimal(n / 10) + [DigitChar(n % 10)]
  }

  function IntToDecimal(i: int): (s: string)
    ensures |s| > 0
  {
    if i < 0 then "-" + NatToDecimal(-i) else NatToDecimal(i)
  }

  /** The value of a string of decimal digits (the reference reading of a
      rendered number). */
  function DigitsValue(s: string): (n: nat)
    requires AllDigits(s)
  {
    if s == [] then 0
    else
      assert IsDigit(s[|s| - 1]);
      var d: nat := s[|s| - 1] as int - '0' as int;
      DigitsValue(s[..|s| - 1]) * 10 + d
  }

  /** Reads back a rendered integer: an optional '-' followed by at least
      one digit. */
  function ParseInt(s: string): (r: Option<int>)
  {
    if |s| > 0 && s[0] == '-' then
      if |s| > 1 && AllDigits(s[1..])
      then Some(-(DigitsValue(s[1..]) as int)) else None
    else if |s| > 0 && AllDigits(s)
    then Some(DigitsValue(s))
    else None
  }

  lemma {:induction false} NatToDecimalRoundTrip(n: nat)
    ensures DigitsValue(NatToDecimal(n)) == n
  {
    var s := NatToDecimal(n);
    if n >= 10 {
      NatToDecimalRoundTrip(n / 10);
      assert s[..|s| - 1] == NatToDecimal(n / 10);
    }
  }

  /** Rendering an integer and reading it back gives the same integer. */
  lemma IntToDecimalRoundTrip(i: int)
    ensures ParseInt(IntToDecimal(i)) == Some(i)
  {
    if i < 0 {
      NegativeRoundTrip(i);
    } else {
      NatToDecimalRoundTrip(i);
      assert NatToDecimal(i)[0] != '-';
    }
  }

  lemma NegativeRoundTrip(i: int)
    requires i < 0
    ensures ParseInt(IntToDecimal(i)) == Some(i)
  {
    var n: nat := -i;
    var digits := NatToDecimal(n);
    assert IntToDecimal(i) == "-" + digits;
    ParseNegative(digits);
    NatToDecimalRoundTrip(n);
  }

  /** A '-' followed by digits reads back as the negated digits' value. */
  lemma ParseNegative(digits: string)
    requires |digits| > 0 && AllDigits(digits)
    ensures ParseInt("-" + digits) == Some(-(DigitsValue(digits) as int))
  {
    assert ("-" + digits)[1..] == digits;
  }

  // ---------------------------------------------------------------------
  // Kilobit rounding
  // ---------------------------------------------------------------------

  /** `Math.round(bitrate / 1024)` on an integer bitrate: the nearest
      integer to bitrate / 1024, with halves rounded up. `/` on `int` is
      floor division for a positive divisor. */
  function RoundKb(bitrate: int): (k: int)
    ensures 1024 * k - 512 <= bitrate < 1024 * k + 512
  {
    (bitrate + 512) / 1024
  }

  /** The rounding is determined by its bounds: no other integer lies
      within half a kilobit (halves up) of the bitrate. */
  lemma RoundKbUnique(bitrate: int, k: int)
    requires 1024 * k - 512 <= bitrate < 1024 * k + 512
    ensures k == RoundKb(bitrate)
  {
  }

  // ---------------------------------------------------------------------
  // The label
  // ---------------------------------------------------------------------

  /** The menu label of a level, or `None` when the level gets no item. */
  function LabelOf(l: Level): (r: Option<string>)
    ensures r.None? <==> !NameTruthy(l) && !IsTruthy(l.height) && !IsTruthy(l.bitrate)
    ensures r.Some? ==> r.value != ""
  {
    if NameTruthy(l) then Some(l.name.value)
    else if IsTruthy(l.height) then Some(IntToDecimal(l.height.value) + "p")
    else if IsTruthy(l.bitrate) then Some(IntToDecimal(RoundKb(l.bitrate.value)) + "kb")
    else None
  }

  /** A non-empty name wins over height and bitrate. */
  lemma NameLabel(l: Level)
    requires NameTruthy(l)
    ensures LabelOf(l) == Some(l.name.value)
  {
  }

  /** Without a name, a non-zero height gives its decimal rendering
      followed by "p", from which the height can be read back, whatever the
      bitrate is. */
  lemma HeightLabel(l: Level)
    requires !NameTruthy(l) && IsTruthy(l.height)
    ensures LabelOf(l).Some?
    ensures var s := LabelOf(l).value;
      |s| >= 2 && s[|s| - 1] == 'p' && s[..|s| - 1] == IntToDecimal(l.height.value) &&
      ParseInt(s[..|s| - 1]) == Some(l.height.value)
  {
    var s := LabelOf(l).value;
    assert s[..|s| - 1] == IntToDecimal(l.height.value);
    IntToDecimalRoundTrip(l.height.value);
  }

  /** Without a name or a height, a non-zero bitrate gives the decimal
      rendering of the bitrate in kilobits, rounded to nearest, followed by
      "kb". */
  lemma BitrateLabel(l: Level)
    requires !NameTruthy(l) && !IsTruthy(l.height) && IsTruthy(l.bitrate)
    ensures LabelOf(l).Some?
    ensures var s := LabelOf(l).value;
      |s| >= 3 && s[|s| - 2..] == "kb" &&
      exists k :: s[..|s| - 2] == IntToDecimal(k) && ParseInt(s[..|s| - 2]) == Some(k) &&
                  1024 * k - 512 <= l.bitrate.value < 1024 * k + 512
  {
    var s := LabelOf(l).value;
    var k := RoundKb(l.bitrate.value);
    assert s[..|s| - 2] == IntToDecimal(k);
    IntToDecimalRoundTrip(k);
  }

  /** The worked examples: a 720-pixel level, a 512000 bit/s level and a
      named level. */
  lemma LabelExamples()
    ensures LabelOf(Level(None, Some(720), None)) == Some("720p")
    ensures LabelOf(Level(None, None, Some(512000))) == Some("500kb")
    ensures LabelOf(Level(Some("Low"), Some(720), Some(512000))) == Some("Low")
    ensures LabelOf(Level(Some(""), Some(0), None)) == None
  {
    assert NatToDecimal(7) == "7";
    assert NatToDecimal(72) == "72";
    assert NatToDecimal(720) == "720";
    assert IntToDecimal(720) + "p" == "720p";
    assert RoundKb(512000) == 500;
    assert NatToDecimal(5) == "5";
    assert NatToDecimal(50) == "50";
    assert NatToDecimal(500) == "500";
    assert IntToDecimal(RoundKb(512000)) + "kb" == "500kb";
  }
}
