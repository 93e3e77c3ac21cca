/**
 Decimal text of a count, as `fmt.Sprintf("%d", n)` writes it for a
 non-negative `n`, and the reading of such text back with `fmt.Sscanf(s, "%d", &n)`.
 */
module DecimalText {
  import opened Records

  predicate IsDigit(c: char)
  {
    '0' <= c <= '9'
  }

  function DigitChar(d: nat): (c: char)
    requires d < 10
    ensures IsDigit(c) && c as int - '0' as int == d
  {
    ('0' as int + d) as char
  }

  predicate AllDigits(s: string)
  {
    forall i | 0 <= i < |s| :: IsDigit(s[i])
  }

  /** The canonical decimal spelling: digits only, no leading zero (except "0" itself). */
  predicate IsCanonical(s: string)
  {
    |s| >= 1 && AllDigits(s) && (|s| > 1 ==> s[0] != '0')
  }

  /** `Sprintf("%d", n)` for `n >= 0`. */
  function FormatCount(n: nat): (s: string)
    ensures IsCanonical(s)
    ensures n < 10 <==> |s| == 1
    decreases n
  {
    if n < 10 then [DigitChar(n)] else FormatCount(n / 10) + [DigitChar(n % 10)]
  }

  /** Value of a string of digits, most significant first. */
  function DigitsValue(s: string): nat
    requires AllDigits(s)
  {
    if s == [] then 0
    else DigitsValue(s[..|s| - 1]) * 10 + (s[|s| - 1] as int - '0' as int)
  }

  /** `Sscanf(s, "%d", &n)` on unsigned decimal text; `None` where the scan fails. */
  function ParseCount(s: string): (r: Option<nat>)
    ensures r.Some? <==> |s| >= 1 && AllDigits(s)
  {
    if |s| >= 1 && AllDigits(s) then Some(DigitsValue(s)) else None
  }

  /** The count the selector reads from text: `numFlights` starts at 0 and a failed scan leaves it there. */
  function ScannedCount(s: string): (n: nat)
    ensures !(|s| >= 1 && AllDigits(s)) ==> n == 0
    ensures IsCanonical(s) ==> FormatCount(n) == s
  {
    if IsCanonical(s) then FormatParse(s); ParseCount(s).value
    else
      match ParseCount(s)
      case Some(v) => v
      case None => 0
  }

  /** Reading back the text written for `n` gives `n` again. */
  lemma {:induction false} ParseFormat(n: nat)
    ensures ParseCount(FormatCount(n)) == Some(n)
    ensures ScannedCount(FormatCount(n)) == n
    decreases n
  {
    var s := FormatCount(n);
    if n < 10 {
      assert s[..|s| - 1] == [];
      assert DigitsValue(s) == n;
    } else {
      ParseFormat(n / 10);
      assert s[..|s| - 1] == FormatCount(n / 10);
      assert s[|s| - 1] == DigitChar(n % 10);
      assert DigitsValue(s) == (n / 10) * 10 + n % 10;
    }
  }

  lemma {:induction false} LeadingDigitNonZero(s: string)
    requires IsCanonical(s) && |s| > 1
    ensures DigitsValue(s) >= 10
    decreases |s|
  {
    var p := s[..|s| - 1];
    if |p| > 1 {
      LeadingDigitNonZero(p);
    } else {
      assert p[0] == s[0];
    }
  }

  /** Canonical text is exactly what the formatter writes for the value it reads as. */
  lemma {:induction false} FormatParse(s: string)
    requires IsCanonical(s)
    ensures ParseCount(s).Some? && FormatCount(ParseCount(s).value) == s
    decreases |s|
  {
    var n := DigitsValue(s);
    if |s| == 1 {
      assert s[..|s| - 1] == [];
      assert DigitsValue(s[..|s| - 1]) == 0;
      assert IsDigit(s[0]);
      assert n == s[0] as int - '0' as int;
      assert s == [DigitChar(n)];
    } else {
      var p := s[..|s| - 1];
      LeadingDigitNonZero(s);
      assert IsCanonical(p) by {
        assert p[0] == s[0];
      }
      FormatParse(p);
      assert n / 10 == DigitsValue(p);
      assert n % 10 == s[|s| - 1] as int - '0' as int;
      assert s == p + [s[|s| - 1]];
    }
  }
}
