/** What `episode_to_item` reads from the image response: the Content-Type
    header (through `HeaderValue::to_str`) and the content length (through
    `u64`'s `Display`). The request itself is an input of the model. */
module Http {
  import opened Wrappers
  import opened Errors

  type byte = b: int | 0 <= b < 256
  type u64 = n: nat | n < 0x1_0000_0000_0000_0000

  /** The outcome of `reqwest::get(list_image_double_url)`: a transport
      failure, or a response with its optional Content-Type header value
      (raw bytes) and its optional content length. */
  datatype Probe =
    | ProbeFailed
    | Probed(contentType: Option<seq<byte>>, contentLength: Option<u64>)

  /** The bytes `HeaderValue::to_str` accepts: visible ASCII and tab. */
  predicate IsVisibleAscii(b: byte) {
    (32 <= b < 127) || b == 9
  }

  predicate IsVisibleText(s: string) {
    forall i :: 0 <= i < |s| ==> (32 <= s[i] as int < 127) || s[i] == '\t'
  }

  /** `HeaderValue::to_str`: the header as text when every byte is visible
      ASCII, and an error otherwise. */
  function HeaderToStr(v: seq<byte>): (r: Result<string, Error>)
    ensures r.Success? <==> forall i :: 0 <= i < |v| ==> IsVisibleAscii(v[i])
    ensures r.Failure? ==> r.error == HeaderNotStr
    ensures r.Success? ==> IsVisibleText(r.value)
  {
    if forall i :: 0 <= i < |v| ==> IsVisibleAscii(v[i]) then
      Success(seq(|v|, i requires 0 <= i < |v| => v[i] as char))
    else
      Failure(HeaderNotStr)
  }

  /** The bytes of an ASCII text, as a header value carries them. */
  function HeaderBytes(s: string): (v: seq<byte>)
    requires IsVisibleText(s)
    ensures |v| == |s|
  {
    seq(|s|, i requires 0 <= i < |s| => s[i] as int)
  }

  /** Reading a header value back gives the text it was made from. */
  lemma HeaderTextRoundTrip(s: string)
    requires IsVisibleText(s)
    ensures HeaderToStr(HeaderBytes(s)) == Success(s)
  {
    var v := HeaderBytes(s);
    assert forall i :: 0 <= i < |v| ==> IsVisibleAscii(v[i]);
    assert HeaderToStr(v).value == s;
  }

  /** Every accepted header value is the encoding of the text it yields. */
  lemma HeaderBytesOfText(v: seq<byte>)
    requires HeaderToStr(v).Success?
    ensures HeaderBytes(HeaderToStr(v).value) == v
  {
  }

  predicate IsDigit(c: char) {
    '0' <= c <= '9'
  }

  predicate IsDigits(s: string) {
    forall i :: 0 <= i < |s| ==> IsDigit(s[i])
  }

  /** The form `u64::to_string` produces: decimal digits, no leading zero
      except for the number zero itself. */
  predicate IsCanonicalDecimal(s: string) {
    |s| >= 1 && IsDigits(s) && (s[0] == '0' ==> |s| == 1)
  }

  function DigitChar(d: nat): (c: char)
    requires d < 10
    ensures IsDigit(c) && c as int - '0' as int == d
  {
    ('0' as int + d) as char
  }

  /** `n.to_string()` for an unsigned integer. */
  function Decimal(n: nat): (s: string)
    ensures IsCanonicalDecimal(s)
    decreases n
  {
    if n < 10 then [DigitChar(n)] else Decimal(n / 10) + [DigitChar(n % 10)]
  }

  /** The value of a string of decimal digits (what `str::parse` gives). */
  function DigitsValue(s: string): nat
    requires IsDigits(s)
    decreases |s|
  {
    if s == [] then 0 else DigitsValue(s[..|s| - 1]) * 10 + (s[|s| - 1] as int - '0' as int)
  }

  /** Parsing the decimal rendering gives the number back. */
  lemma {:induction false} DecimalRoundTrip(n: nat)
    ensures DigitsValue(Decimal(n)) == n
    decreases n
  {
    if n >= 10 {
      DecimalRoundTrip(n / 10);
      var s := Decimal(n);
      assert s[..|s| - 1] == Decimal(n / 10);
    }
  }

  /** A canonical digit string without a leading zero is worth at least one. */
  lemma {:induction false} LeadingDigitPositive(s: string)
    requires IsCanonicalDecimal(s) && s[0] != '0'
    ensures DigitsValue(s) >= 1
    decreases |s|
  {
    if |s| > 1 {
      var init := s[..|s| - 1];
      assert init[0] == s[0];
      LeadingDigitPositive(init);
    }
  }

  /** Every canonical digit string is the rendering of its value, so the
      rendering misses no canonical string. */
  lemma {:induction false} CanonicalDecimalRoundTrip(s: string)
    requires IsCanonicalDecimal(s)
    ensures Decimal(DigitsValue(s)) == s
    decreases |s|
  {
    if |s| > 1 {
      var init := s[..|s| - 1];
      assert init[0] == s[0];
      LeadingDigitPositive(init);
      CanonicalDecimalRoundTrip(init);
      var n := DigitsValue(s);
      var d := s[|s| - 1] as int - '0' as int;
      assert n == DigitsValue(init) * 10 + d;
      assert n / 10 == DigitsValue(init) && n % 10 == d;
      assert s == init + [s[|s| - 1]];
    }
  }

  /** Distinct lengths render as distinct strings. */
  lemma DecimalInjective(m: nat, n: nat)
    requires Decimal(m) == Decimal(n)
    ensures m == n
  {
    DecimalRoundTrip(m);
    DecimalRoundTrip(n);
  }
}
