/**
 * Number rendering used by the row builders: strconv.Itoa, the "%02d"
 * padding of time formats, and fmt's "%.2f" applied to an amount kept in
 * whole cents (so the rendering is exact), plus strings.HasSuffix.
 */
module Text {

  function DigitChar(d: nat): char
    requires d < 10
  {
    "0123456789"[d]
  }

  /** Decimal digits of n, most significant first, without leading zeros. */
  function NatToString(n: nat): (s: string)
    ensures |s| >= 1
    decreases n
  {
    if n < 10 then [DigitChar(n)] else NatToString(n / 10) + [DigitChar(n % 10)]
  }

  /** strconv.Itoa: decimal with a leading '-' for negative numbers. */
  function Itoa(n: int): string
  {
    if n < 0 then "-" + NatToString(-n) else NatToString(n)
  }

  /** Two digits with a leading zero, as "02" and "01" render a day and a month. */
  function Pad2(n: nat): string
    requires n < 100
  {
    [DigitChar(n / 10), DigitChar(n % 10)]
  }

  /** fmt.Sprintf("%.2f", cents / 100.0) for an amount given in cents. */
  function FormatCents(cents: int): string
  {
    var magnitude := if cents < 0 then -cents else cents;
    (if cents < 0 then "-" else "") + NatToString(magnitude / 100) + "." + Pad2(magnitude % 100)
  }

  /** strings.HasSuffix */
  predicate HasSuffix(s: string, suffix: string)
  {
    |suffix| <= |s| && s[|s| - |suffix|..] == suffix
  }
}
