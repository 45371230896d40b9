/**
 * Join keys as they arrive from the league API, and the two conversions the
 * script applies to text: rendering an integer id as a decimal string
 * (`astype(str)`) and reading a decimal string back as a number (the integer
 * part of `pd.to_numeric`).
 */
module Keys {
  import opened Options

  /** A join key in the JSON payload: a number or a string. */
  datatype RawId = IntId(n: int) | StrId(s: string)

  predicate IsDigit(c: char) { '0' <= c <= '9' }

  /** A non-empty run of ASCII decimal digits. */
  predicate IsDigits(s: string) {
    |s| > 0 && forall i :: 0 <= i < |s| ==> IsDigit(s[i])
  }

  function DigitChar(d: nat): (c: char)
    requires d < 10
    ensures IsDigit(c)
  {
    ('0' as int + d) as char
  }

  function DigitValue(c: char): nat
    requires IsDigit(c)
  {
    c as int - '0' as int
  }

  /** Decimal digits of a natural number, most significant first, no leading zeros. */
  function NatDigits(n: nat): (r: string)
    ensures IsDigits(r)
    ensures (r[0] == '0') == (n == 0)
    ensures n == 0 ==> r == "0"
    decreases n
  {
    if n < 10 then [DigitChar(n)] else NatDigits(n / 10) + [DigitChar(n % 10)]
  }

  /** The value of a run of decimal digits (leading zeros allowed). */
  function DigitsValue(s: string): nat
    requires forall i :: 0 <= i < |s| ==> IsDigit(s[i])
  {
    if s == [] then 0 else DigitsValue(s[..|s| - 1]) * 10 + DigitValue(s[|s| - 1])
  }

  /** How Python's `str` renders an integer: an optional minus sign and its digits. */
  function Decimal(n: int): (r: string)
    ensures IsDigits(r) || (|r| > 1 && r[0] == '-' && IsDigits(r[1..]))
    ensures (n < 0) == (r[0] == '-')
    ensures r[if n < 0 then 1 else 0] == '0' ==> r == "0"
  {
    if n < 0 then "-" + NatDigits(-n) else NatDigits(n)
  }

  /**
   * The integer a text cell denotes for `pd.to_numeric`: an optional sign
   * followed by decimal digits. Anything else is not a number.
   */
  function ParseInt(s: string): (r: Option<int>)
    ensures r.Some? <==> IsDigits(s) || (|s| > 0 && (s[0] == '-' || s[0] == '+') && IsDigits(s[1..]))
  {
    if |s| > 0 && (s[0] == '-' || s[0] == '+') && IsDigits(s[1..]) then
      var magnitude: int := DigitsValue(s[1..]);
      Some(if s[0] == '-' then -magnitude else magnitude)
    else if IsDigits(s) then
      Some(DigitsValue(s))
    else
      None
  }

  /** Key normalisation: the canonical string form of a key (`astype(str)`). */
  function Render(id: RawId): (r: string)
    ensures id.StrId? ==> r == id.s
    ensures id.IntId? ==> ParseInt(r) == Some(id.n) && r == Decimal(id.n)
  {
    match id
    case IntId(n) => ParseDecimal(n); Decimal(n)
    case StrId(s) => s
  }

  /** `k` zero digits. */
  function Zeros(k: nat): (r: string)
    ensures |r| == k && forall i :: 0 <= i < k ==> r[i] == '0'
  {
    seq(k, _ => '0')
  }

  /** Leading zeros do not change the value of a digit run. */
  lemma {:induction false} LeadingZerosValue(k: nat, s: string)
    requires forall i :: 0 <= i < |s| ==> IsDigit(s[i])
    ensures DigitsValue(Zeros(k) + s) == DigitsValue(s)
    decreases |s|
  {
    if s == [] {
      assert Zeros(k) + s == Zeros(k);
      ZerosValue(k);
    } else {
      var t := Zeros(k) + s;
      assert t[..|t| - 1] == Zeros(k) + s[..|s| - 1];
      assert t[|t| - 1] == s[|s| - 1];
      LeadingZerosValue(k, s[..|s| - 1]);
    }
  }

  lemma {:induction false} ZerosValue(k: nat)
    ensures DigitsValue(Zeros(k)) == 0
  {
    if k > 0 {
      assert Zeros(k)[..k - 1] == Zeros(k - 1);
      ZerosValue(k - 1);
    }
  }

  /**
   * The value of every text `ParseInt` accepts: an optional sign, any number
   * of leading zeros and the digits of a natural number read as that number,
   * negated after a minus sign. With the format clause of `ParseInt` this
   * fixes its result on every input.
   */
  lemma ParseSignedNumeral(sign: string, k: nat, n: nat)
    requires sign == "" || sign == "+" || sign == "-"
    ensures ParseInt(sign + Zeros(k) + NatDigits(n)) == Some(if sign == "-" then -(n as int) else n)
  {
    var digits := Zeros(k) + NatDigits(n);
    LeadingZerosValue(k, NatDigits(n));
    NatDigitsValue(n);
    assert sign + Zeros(k) + NatDigits(n) == sign + digits;
    ParseSignedDigits(sign, digits);
  }

  /** A sign followed by a digit run reads as the value of the run, negated after a minus. */
  lemma ParseSignedDigits(sign: string, digits: string)
    requires sign == "" || sign == "+" || sign == "-"
    requires IsDigits(digits)
    ensures ParseInt(sign + digits) == Some(if sign == "-" then -(DigitsValue(digits) as int) else DigitsValue(digits))
  {
    var s := sign + digits;
    if sign == "" {
      assert s == digits && IsDigit(s[0]);
    } else {
      assert s[0] == sign[0] && s[1..] == digits;
    }
  }

  lemma {:induction false} NatDigitsValue(n: nat)
    ensures DigitsValue(NatDigits(n)) == n
    decreases n
  {
    if n >= 10 {
      NatDigitsValue(n / 10);
      var s := NatDigits(n);
      assert s[..|s| - 1] == NatDigits(n / 10);
    }
  }

  /** Reading back a rendered integer gives the integer. */
  lemma ParseDecimal(n: int)
    ensures ParseInt(Decimal(n)) == Some(n)
  {
    var s := Decimal(n);
    if n < 0 {
      assert s[1..] == NatDigits(-n);
      NatDigitsValue(-n);
    } else {
      NatDigitsValue(n);
      assert IsDigit(s[0]);
    }
  }

  /**
   * Two integer ids match after normalisation exactly when they are equal,
   * and an integer id matches a string id exactly when the string is its
   * decimal rendering.
   */
  lemma RenderMatches(a: RawId, b: RawId)
    ensures a.IntId? && b.IntId? ==> (Render(a) == Render(b) <==> a.n == b.n)
    ensures a.IntId? && b.StrId? ==> (Render(a) == Render(b) <==> b.s == Decimal(a.n))
  {
    if a.IntId? && b.IntId? && Render(a) == Render(b) {
      ParseDecimal(a.n);
      ParseDecimal(b.n);
    }
  }
}
