/**
 * The `mm:ss` text the timer label shows: the number of seconds left is split
 * with `divmod(remaining, 60)` and each part is printed with the `02d` format,
 * i.e. in decimal, zero-padded to at least two digits.
 */
module Clock {
  import opened Wrappers

  const SecondsPerMinute: nat := 60

  predicate IsDigit(c: char) {
    '0' <= c <= '9'
  }

  predicate AllDigits(s: string) {
    forall i :: 0 <= i < |s| ==> IsDigit(s[i])
  }

  function DigitChar(d: nat): (c: char)
    requires d < 10
    ensures IsDigit(c) && c as int - '0' as int == d
  {
    ('0' as int + d) as char
  }

  function DigitValue(c: char): nat
    requires IsDigit(c)
  {
    c as int - '0' as int
  }

  /** The number a string of decimal digits denotes, most significant digit first. */
  function Value(s: string): nat
    requires AllDigits(s)
  {
    if s == [] then 0 else Value(s[..|s| - 1]) * 10 + DigitValue(s[|s| - 1])
  }

  /** Python's `divmod(n, 60)` on a non-negative `n`: whole minutes and leftover seconds. */
  function DivMod(n: nat): (r: (nat, nat))
    ensures r.0 * SecondsPerMinute + r.1 == n
    ensures r.1 < SecondsPerMinute
  {
    (n / SecondsPerMinute, n % SecondsPerMinute)
  }

  /** The decimal text of `n` without leading zeros (Python's `str` on an int). */
  function Digits(n: nat): string
  {
    if n < 10 then [DigitChar(n)] else Digits(n / 10) + [DigitChar(n % 10)]
  }

  /** `Digits` writes `n` in decimal: digits only, denoting `n`, with no leading zero. */
  lemma {:induction false} DigitsSpec(n: nat)
    ensures var r := Digits(n);
      AllDigits(r) && Value(r) == n &&
      (|r| == 1 <==> n < 10) && 1 <= |r| && (n < 100 ==> |r| <= 2) &&
      (|r| > 1 ==> r[0] != '0')
    decreases n
  {
    if n >= 10 {
      var prefix := Digits(n / 10);
      DigitsSpec(n / 10);
      var r := Digits(n);
      assert r == prefix + [DigitChar(n % 10)];
      assert r[..|r| - 1] == prefix;
      assert r[0] == prefix[0];
    }
  }

  /** The `02d` conversion: decimal, padded with one leading zero below ten. */
  function Pad2(n: nat): string
  {
    if n < 10 then "0" + Digits(n) else Digits(n)
  }

  /**
   * `Pad2` writes `n` in decimal in at least two digits, exactly two below a
   * hundred, and pads with a zero only below ten.
   */
  lemma Pad2Spec(n: nat)
    ensures var r := Pad2(n);
      AllDigits(r) && Value(r) == n && |r| >= 2 && (n < 100 ==> |r| == 2) &&
      (n >= 10 ==> r[0] != '0')
  {
    DigitsSpec(n);
    var r := Pad2(n);
    if n < 10 {
      assert r[..|r| - 1] == "0";
    }
  }

  /** The label text for `remaining` seconds: `{mins:02d}:{secs:02d}`. */
  function Format(remaining: nat): string
  {
    var (mins, secs) := DivMod(remaining);
    Pad2(mins) + ":" + Pad2(secs)
  }

  /**
   * Reads a label text back: minutes in one or more digits, a colon, then
   * exactly two digits of seconds below sixty.
   */
  function ParseClock(text: string): Option<nat>
  {
    if |text| < 4 || text[|text| - 3] != ':' then None
    else
      var mm, ss := text[..|text| - 3], text[|text| - 2..];
      if AllDigits(mm) && AllDigits(ss) && Value(ss) < SecondsPerMinute
      then Some(Value(mm) * SecondsPerMinute + Value(ss))
      else None
  }

  /** The two parts `DivMod` returns are the only ones with its two properties. */
  lemma DivModUnique(n: nat, mins: nat, secs: nat)
    requires mins * SecondsPerMinute + secs == n && secs < SecondsPerMinute
    ensures DivMod(n) == (mins, secs)
  {
  }

  /** The label always reads `mm:ss`: at least two minute digits, a colon, two second digits. */
  lemma FormatShape(remaining: nat)
    ensures var text := Format(remaining);
      |text| >= 5 && text[|text| - 3] == ':' &&
      AllDigits(text[..|text| - 3]) && AllDigits(text[|text| - 2..])
  {
    var (mins, secs) := DivMod(remaining);
    Pad2Spec(mins);
    Pad2Spec(secs);
    var text := Format(remaining);
    assert text[..|text| - 3] == Pad2(mins);
    assert text[|text| - 2..] == Pad2(secs);
  }

  /** Reading the label back gives the number of seconds it was made from. */
  lemma FormatRoundTrip(remaining: nat)
    ensures ParseClock(Format(remaining)) == Some(remaining)
  {
    var (mins, secs) := DivMod(remaining);
    Pad2Spec(mins);
    Pad2Spec(secs);
    var text := Format(remaining);
    assert text[..|text| - 3] == Pad2(mins);
    assert text[|text| - 2..] == Pad2(secs);
  }

  /** Different numbers of seconds never show the same label. */
  lemma FormatInjective(a: nat, b: nat)
    requires Format(a) == Format(b)
    ensures a == b
  {
    FormatRoundTrip(a);
    FormatRoundTrip(b);
  }

  /** The idle label `00:00` is exactly what the format gives for zero seconds. */
  lemma FormatZero()
    ensures Format(0) == "00:00"
  {
  }
}
