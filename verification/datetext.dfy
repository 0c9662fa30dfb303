/** The `YYYY-MM-DD` text form in which the table stores dates (`str(date)`)
    and in which the projector writes a shifted end date
    (`strftime("%Y-%m-%d")`).

    Parsing is strict: exactly four year digits, two month digits and two
    day digits separated by `-`, naming a real calendar day. Any other text
    is the failure path. */
module DateText {
  import opened Wrappers
  import opened Gregorian

  predicate IsDigit(c: char) {
    '0' <= c <= '9'
  }

  predicate AllDigits(s: string) {
    forall i :: 0 <= i < |s| ==> IsDigit(s[i])
  }

  function DigitChar(n: int): (c: char)
    requires 0 <= n < 10
    ensures IsDigit(c)
  {
    ('0' as int + n) as char
  }

  function DigitValue(c: char): int
    requires IsDigit(c)
  {
    c as int - '0' as int
  }

  function Pow10(w: nat): (p: nat)
    ensures p >= 1
  {
    if w == 0 then 1 else 10 * Pow10(w - 1)
  }

  /** `n` written in decimal with exactly `w` digits, zero-padded on the left. */
  function Pad(n: int, w: nat): (s: string)
    requires 0 <= n < Pow10(w)
    ensures |s| == w && AllDigits(s)
    decreases w
  {
    if w == 0 then [] else Pad(n / 10, w - 1) + [DigitChar(n % 10)]
  }

  /** The number a run of decimal digits denotes. */
  function DigitsValue(s: string): (n: int)
    requires AllDigits(s)
    ensures 0 <= n < Pow10(|s|)
  {
    if |s| == 0 then 0
    else 10 * DigitsValue(s[..|s| - 1]) + DigitValue(s[|s| - 1])
  }

  /** Reading back a padded number gives the number. */
  lemma {:induction false} ValueOfPad(n: int, w: nat)
    requires 0 <= n < Pow10(w)
    ensures DigitsValue(Pad(n, w)) == n
    decreases w
  {
    if w > 0 {
      var s := Pad(n, w);
      assert s[..w - 1] == Pad(n / 10, w - 1);
      ValueOfPad(n / 10, w - 1);
    }
  }

  /** Padding the value of a digit run to its own width gives the run back. */
  lemma {:induction false} PadOfValue(s: string)
    requires AllDigits(s)
    ensures Pad(DigitsValue(s), |s|) == s
  {
    if |s| > 0 {
      var init := s[..|s| - 1];
      var n := DigitsValue(s);
      assert n / 10 == DigitsValue(init) && n % 10 == DigitValue(s[|s| - 1]);
      PadOfValue(init);
      assert s == init + [s[|s| - 1]];
    }
  }

  /** `YYYY-MM-DD` for a date with a four-digit year. */
  function FormatDate(d: Date): (s: string)
    requires Representable(d)
    ensures |s| == 10 && s[4] == '-' && s[7] == '-'
  {
    Pad(d.year, 4) + "-" + Pad(d.month, 2) + "-" + Pad(d.day, 2)
  }

  /** Ten characters laid out as `DDDD-DD-DD`. */
  predicate IsDateShaped(s: string) {
    && |s| == 10
    && s[4] == '-' && s[7] == '-'
    && AllDigits(s[..4]) && AllDigits(s[5..7]) && AllDigits(s[8..])
  }

  /** The calendar day `s` names, or `None` when `s` is not `YYYY-MM-DD` text
      naming a real day of years 1 to 9999. */
  function ParseDate(s: string): (r: Option<Date>)
    ensures r.Some? ==> Representable(r.value) && IsDateShaped(s)
  {
    if IsDateShaped(s) then
      var d := Date(DigitsValue(s[..4]), DigitsValue(s[5..7]), DigitsValue(s[8..]));
      if Representable(d) then Some(d) else None
    else None
  }

  /** Formatting a date and parsing the text gives the date back. */
  lemma ParseFormat(d: Date)
    requires Representable(d)
    ensures ParseDate(FormatDate(d)) == Some(d)
  {
    var s := FormatDate(d);
    assert s[..4] == Pad(d.year, 4);
    assert s[5..7] == Pad(d.month, 2);
    assert s[8..] == Pad(d.day, 2);
    ValueOfPad(d.year, 4);
    ValueOfPad(d.month, 2);
    ValueOfPad(d.day, 2);
  }

  /** Text that parses is exactly the formatting of the date it names. */
  lemma FormatParse(s: string)
    requires ParseDate(s).Some?
    ensures FormatDate(ParseDate(s).value) == s
  {
    PadOfValue(s[..4]);
    PadOfValue(s[5..7]);
    PadOfValue(s[8..]);
    assert s == s[..4] + "-" + s[5..7] + "-" + s[8..];
  }

  /** A text parses if and only if it is the `YYYY-MM-DD` form of some day. */
  lemma ParsesIffFormatted(s: string)
    ensures ParseDate(s).Some? <==> exists d :: Representable(d) && FormatDate(d) == s
  {
    if ParseDate(s).Some? {
      FormatParse(s);
    }
    if d :| Representable(d) && FormatDate(d) == s {
      ParseFormat(d);
    }
  }
}
