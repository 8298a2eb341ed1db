/** `requestValidationMiddleware` of src/middleware/security.ts: a declared
    body size above 10 MiB is refused with 413, then a write request whose
    declared media type is not JSON is refused with 415. The size header is
    read with JavaScript's global `parseInt`, modelled here on strings. */
module RequestValidation {
  import opened Wrappers
  import Text

  /** The largest declared body size that passes: 10 MiB. */
  const MaxBodyBytes: int := 10 * 1024 * 1024

  datatype Verdict = Pass | PayloadTooLarge | UnsupportedMediaType

  function StatusOf(v: Verdict): (code: Option<int>)
    ensures v.Pass? <==> code.None?
    ensures v.PayloadTooLarge? <==> code == Some(413)
    ensures v.UnsupportedMediaType? <==> code == Some(415)
  {
    match v
    case Pass => None
    case PayloadTooLarge => Some(413)
    case UnsupportedMediaType => Some(415)
  }

  /** The value of `c` as a digit in `radix` (10 or 16), if it is one. */
  function DigitValue(c: char, radix: nat): (d: Option<nat>)
    ensures d.Some? ==> d.value < radix
  {
    if '0' <= c <= '9' && (c as int) - ('0' as int) < radix then Some((c as int) - ('0' as int))
    else if radix == 16 && 'a' <= c <= 'f' then Some((c as int) - ('a' as int) + 10)
    else if radix == 16 && 'A' <= c <= 'F' then Some((c as int) - ('A' as int) + 10)
    else None
  }

  predicate IsDigit(c: char, radix: nat) {
    DigitValue(c, radix).Some?
  }

  /** The length of the longest prefix of `s` made of digits in `radix`. */
  function DigitRun(s: string, radix: nat): (n: nat)
    ensures n <= |s|
    ensures forall i :: 0 <= i < n ==> IsDigit(s[i], radix)
    ensures n < |s| ==> !IsDigit(s[n], radix)
  {
    if |s| > 0 && IsDigit(s[0], radix) then 1 + DigitRun(s[1..], radix) else 0
  }

  /** The number a string of digits in `radix` denotes. */
  function DigitsValue(ds: string, radix: nat): nat
    requires forall i :: 0 <= i < |ds| ==> IsDigit(ds[i], radix)
  {
    if |ds| == 0 then 0
    else
      assert IsDigit(ds[|ds| - 1], radix);
      DigitsValue(ds[..|ds| - 1], radix) * radix + DigitValue(ds[|ds| - 1], radix).value
  }

  /** JavaScript's `parseInt(s)` without a radix argument: leading
      whitespace is skipped, one sign is read, a `0x`/`0X` prefix selects
      base 16, and the longest run of digits that follows is converted;
      without any digit the result is NaN, here `None`. */
  function ParseInt(s: string): Option<int> {
    ReadDigits(Unprefixed(s))
  }

  /** What `parseInt` reads digits from: the text after the whitespace, the
      sign and the hex prefix, with the radix and whether a minus was read. */
  function Unprefixed(s: string): (result: (string, nat, bool))
    ensures result.1 == 10 || result.1 == 16
  {
    SignAndRadix(Text.TrimStart(s))
  }

  function SignAndRadix(t: string): (result: (string, nat, bool))
    ensures result.1 == 10 || result.1 == 16
  {
    var negative := |t| > 0 && t[0] == '-';
    var u := if |t| > 0 && (t[0] == '-' || t[0] == '+') then t[1..] else t;
    if |u| >= 2 && u[0] == '0' && (u[1] == 'x' || u[1] == 'X') then (u[2..], 16, negative)
    else (u, 10, negative)
  }

  /** The longest digit run of `body` in `radix`, negated after a minus. */
  function ReadDigits(read: (string, nat, bool)): Option<int> {
    var (body, radix, negative) := read;
    var n := DigitRun(body, radix);
    if n == 0 then None
    else
      var v: int := DigitsValue(body[..n], radix);
      Some(if negative then -v else v)
  }

  /** The digit character of a value below ten. */
  function DecimalDigit(d: nat): (c: char)
    requires d < 10
    ensures DigitValue(c, 10) == Some(d)
  {
    (d + ('0' as int)) as char
  }

  /** The canonical decimal form of a natural number, as `String(n)` writes it. */
  function DecimalString(n: nat): (s: string)
    ensures |s| > 0
    ensures forall i :: 0 <= i < |s| ==> IsDigit(s[i], 10)
    ensures |s| > 1 ==> s[0] != '0'
  {
    if n < 10 then [DecimalDigit(n)]
    else DecimalString(n / 10) + [DecimalDigit(n % 10)]
  }

  lemma {:induction false} DecimalValue(n: nat)
    ensures DigitsValue(DecimalString(n), 10) == n
  {
    if n >= 10 {
      var s := DecimalString(n);
      assert s[..|s| - 1] == DecimalString(n / 10);
      DecimalValue(n / 10);
    }
  }

  lemma {:induction false} DigitRunAll(s: string, radix: nat)
    requires forall i :: 0 <= i < |s| ==> IsDigit(s[i], radix)
    ensures DigitRun(s, radix) == |s|
  {
    if |s| > 0 {
      DigitRunAll(s[1..], radix);
    }
  }

  /** A string of decimal digits that does not start with `0x` is read as
      it stands. */
  lemma DigitsUnprefixed(s: string)
    requires |s| > 0
    requires forall i :: 0 <= i < |s| ==> IsDigit(s[i], 10)
    requires |s| > 1 ==> s[0] != '0'
    ensures Unprefixed(s) == (s, 10, false)
  {
    assert IsDigit(s[0], 10);
    assert !Text.IsWhitespace(s[0]);
    assert Text.TrimStart(s) == s;
  }

  /** `parseInt` reads back what `String` writes: the canonical decimal form
      of a natural number parses to that number. */
  lemma {:induction false} ParseDecimal(n: nat)
    ensures ParseInt(DecimalString(n)) == Some(n)
  {
    var s := DecimalString(n);
    DigitsUnprefixed(s);
    DigitRunAll(s, 10);
    assert s[..|s|] == s;
    DecimalValue(n);
  }

  /** Leading whitespace never changes what `parseInt` reads. */
  lemma ParseSkipsWhitespace(ws: string, s: string)
    requires Text.AllWhitespace(ws)
    ensures ParseInt(ws + s) == ParseInt(s)
  {
    TrimStartSkips(ws, s);
  }

  lemma {:induction false} TrimStartSkips(ws: string, s: string)
    requires Text.AllWhitespace(ws)
    ensures Text.TrimStart(ws + s) == Text.TrimStart(s)
  {
    if |ws| > 0 {
      assert (ws + s)[0] == ws[0];
      assert (ws + s)[1..] == ws[1..] + s;
      TrimStartSkips(ws[1..], s);
    } else {
      assert ws + s == s;
    }
  }

  /** The middleware's decision for one request. `contentLength` and
      `contentType` are the header values, `None` when absent; an empty
      header value is falsy and skips its check, and so does a size that
      `parseInt` reads as NaN. */
  function Validate(verb: string, contentLength: Option<string>, contentType: Option<string>): (v: Verdict)
    ensures v == PayloadTooLarge <==>
              contentLength.Some? && contentLength.value != ""
              && ParseInt(contentLength.value).Some? && ParseInt(contentLength.value).value > MaxBodyBytes
    ensures v == UnsupportedMediaType <==>
              v != PayloadTooLarge
              && verb in ["POST", "PUT", "PATCH"]
              && contentType.Some? && contentType.value != ""
              && !Text.Contains(contentType.value, "application/json")
  {
    if contentLength.Some? && contentLength.value != ""
       && ParseInt(contentLength.value).Some? && ParseInt(contentLength.value).value > MaxBodyBytes
    then PayloadTooLarge
    else if verb in ["POST", "PUT", "PATCH"]
            && contentType.Some? && contentType.value != ""
            && !Text.Contains(contentType.value, "application/json")
    then UnsupportedMediaType
    else Pass
  }

  /** A declared size of exactly 10 MiB passes the size check and one byte
      more does not, whatever the method and media type. */
  lemma SizeBoundary(verb: string, contentType: Option<string>)
    ensures Validate(verb, Some(DecimalString(MaxBodyBytes + 1)), contentType) == PayloadTooLarge
    ensures Validate(verb, Some(DecimalString(MaxBodyBytes)), contentType) != PayloadTooLarge
  {
    ParseDecimal(MaxBodyBytes + 1);
    ParseDecimal(MaxBodyBytes);
  }

  /** Requests other than POST, PUT and PATCH are never refused for their
      media type, and neither is a request without a declared media type. */
  lemma MediaTypeOnlyForWrites(verb: string, contentLength: Option<string>, contentType: Option<string>)
    requires verb !in ["POST", "PUT", "PATCH"] || contentType.None?
    ensures Validate(verb, contentLength, contentType) != UnsupportedMediaType
  {
  }

  /** Any media type mentioning `application/json`, parameters included,
      passes the media-type check. */
  lemma JsonWithCharsetPasses(verb: string)
    ensures Validate(verb, None, Some("application/json; charset=utf-8")) == Pass
  {
    var ct := "application/json; charset=utf-8";
    assert ct[0..|"application/json"|] == "application/json";
    assert Text.OccursAt(ct, "application/json", 0);
  }
}
