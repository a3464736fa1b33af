/** The slice of JavaScript number semantics the page script touches: the whitespace
    class, decimal `parseInt`, `NaN`-propagating arithmetic, and the length check of the
    `Array` constructor. A JavaScript number is modelled as `Number`: `Some(n)` for an
    integer value and `None` for `NaN`. The integers are exact and unbounded: the rounding of
    doubles above 2^53 and the value `Infinity` are not modelled. */
module JsNumber {
  import opened Wrappers

  /** `None` stands for `NaN`. */
  type Number = Option<int>

  /** WhiteSpace and LineTerminator code points (sections 12.2 and 12.3 of ECMA-262):
      the set matched by the regular expression class `\s`, and the set `parseInt`
      skips before the digits. */
  predicate IsSpace(c: char) {
    || c == '\t' || c == '\n' || c == '\U{B}' || c == '\U{C}' || c == '\r'
    || c == ' ' || c == '\U{A0}' || c == '\U{1680}'
    || ('\U{2000}' <= c <= '\U{200A}')
    || c == '\U{2028}' || c == '\U{2029}' || c == '\U{202F}' || c == '\U{205F}'
    || c == '\U{3000}' || c == '\U{FEFF}'
  }

  /** The regular expression class `\d`: ASCII digits only. */
  predicate IsDigit(c: char) {
    '0' <= c <= '9'
  }

  function DigitValue(c: char): nat
    requires IsDigit(c)
  {
    c as int - '0' as int
  }

  function DigitChar(d: nat): (c: char)
    requires d < 10
    ensures IsDigit(c) && DigitValue(c) == d
  {
    ('0' as int + d) as char
  }

  /** `s` without its leading whitespace. */
  function TrimStart(s: string): (r: string)
    ensures |r| <= |s| && r == s[|s| - |r|..]
    ensures forall j :: 0 <= j < |s| - |r| ==> IsSpace(s[j])
    ensures r == [] || !IsSpace(r[0])
  {
    if |s| > 0 && IsSpace(s[0]) then TrimStart(s[1..]) else s
  }

  /** The length of the longest all-digit prefix of `s`. */
  function DigitCount(s: string): (n: nat)
    ensures n <= |s|
    ensures forall j :: 0 <= j < n ==> IsDigit(s[j])
    ensures n == |s| || !IsDigit(s[n])
  {
    if |s| > 0 && IsDigit(s[0]) then 1 + DigitCount(s[1..]) else 0
  }

  ghost predicate AllDigits(s: string) {
    forall j :: 0 <= j < |s| ==> IsDigit(s[j])
  }

  /** The value of a string of decimal digits, most significant first. */
  function DecimalValue(ds: string): nat
    requires AllDigits(ds)
  {
    if |ds| == 0 then 0
    else 10 * DecimalValue(ds[..|ds| - 1]) + DigitValue(ds[|ds| - 1])
  }

  /** The decimal numeral of `n`, without leading zeros. */
  function Show(n: nat): (ds: string)
    ensures 1 <= |ds| && AllDigits(ds)
  {
    if n < 10 then [DigitChar(n)] else Show(n / 10) + [DigitChar(n % 10)]
  }

  /** `parseInt(s)` with radix 10: skip leading whitespace, then read the longest run of
      decimal digits; no digits gives `NaN`. */
  function ParseInt(s: string): (r: Number)
    ensures r.None? <==> (TrimStart(s) == [] || !IsDigit(TrimStart(s)[0]))
    ensures r.Some? ==> 0 <= r.value
  {
    var t := TrimStart(s);
    var n := DigitCount(t);
    if n == 0 then None else Some(DecimalValue(t[..n]))
  }

  /** `a + b`, `NaN` if either operand is. */
  function Add(a: Number, b: Number): (r: Number)
    ensures r.Some? <==> a.Some? && b.Some?
    ensures r.Some? ==> r.value - b.value == a.value
  {
    if a.Some? && b.Some? then Some(a.value + b.value) else None
  }

  /** `a - b`, `NaN` if either operand is. */
  function Sub(a: Number, b: Number): (r: Number)
    ensures r.Some? <==> a.Some? && b.Some?
    ensures r.Some? ==> r.value + b.value == a.value
  {
    if a.Some? && b.Some? then Some(a.value - b.value) else None
  }

  /** The largest length of a JavaScript array, 2^32 - 1. */
  const MaxArrayLength: nat := 0xFFFF_FFFF

  /** `ToUint32` (section 7.1.7 of ECMA-262) on an integer: the value modulo 2^32. */
  function ToUint32(n: int): nat {
    n % 0x1_0000_0000
  }

  /** `ToUint32` leaves exactly the integers in [0, 2^32 - 1] unchanged: the valid array
      lengths. */
  lemma ToUint32Fixed(n: int)
    ensures ToUint32(n) == n <==> 0 <= n <= MaxArrayLength
  {
  }

  /** `new Array(len)` for a number `len`: section 23.1.1.1 of ECMA-262 throws a
      `RangeError` unless `ToUint32(len)` equals `len`, and the array then has length
      `ToUint32(len)`; `NaN` never passes. */
  function ArrayLength(len: Number): (r: Option<nat>)
    ensures r.Some? <==> len.Some? && ToUint32(len.value) == len.value
    ensures r.Some? ==> r.value == ToUint32(len.value)
  {
    if len.Some? && 0 <= len.value <= MaxArrayLength then Some(len.value) else None
  }

  lemma {:induction false} DecimalValueShow(n: nat)
    ensures DecimalValue(Show(n)) == n
  {
    if n >= 10 {
      var ds := Show(n);
      assert ds[..|ds| - 1] == Show(n / 10);
      DecimalValueShow(n / 10);
    }
  }

  lemma {:induction false} TrimStartSkipsSpaces(pad: string, t: string)
    requires forall j :: 0 <= j < |pad| ==> IsSpace(pad[j])
    requires t == [] || !IsSpace(t[0])
    ensures TrimStart(pad + t) == t
  {
    if |pad| > 0 {
      assert (pad + t)[1..] == pad[1..] + t;
      TrimStartSkipsSpaces(pad[1..], t);
    }
  }

  /** The digit run of a numeral followed by a non-digit is the numeral. */
  lemma {:induction false} DigitCountNumeral(ds: string, rest: string)
    requires AllDigits(ds)
    requires rest == [] || !IsDigit(rest[0])
    ensures DigitCount(ds + rest) == |ds|
  {
    if |ds| > 0 {
      assert (ds + rest)[1..] == ds[1..] + rest;
      DigitCountNumeral(ds[1..], rest);
    }
  }

  /** `parseInt` reads the value of the whole digit run after the leading whitespace,
      leading zeros included, and ignores anything after it that does not start with a
      digit. */
  lemma ParseIntDigits(pad: string, ds: string, rest: string)
    requires forall j :: 0 <= j < |pad| ==> IsSpace(pad[j])
    requires 1 <= |ds| && AllDigits(ds)
    requires rest == [] || !IsDigit(rest[0])
    ensures ParseInt(pad + ds + rest) == Some(DecimalValue(ds))
  {
    TrimBeforeDigits(pad, ds, rest);
    DigitCountNumeral(ds, rest);
    assert (ds + rest)[..|ds|] == ds;
  }

  /** Trimming whitespace stops at the first digit. */
  lemma TrimBeforeDigits(pad: string, ds: string, rest: string)
    requires forall j :: 0 <= j < |pad| ==> IsSpace(pad[j])
    requires 1 <= |ds| && AllDigits(ds)
    ensures TrimStart(pad + ds + rest) == ds + rest
  {
    assert (ds + rest)[0] == ds[0];
    assert pad + ds + rest == pad + (ds + rest);
    TrimStartSkipsSpaces(pad, ds + rest);
  }

  /** `parseInt` reads back a numeral: leading whitespace before it and anything after
      it that does not start with a digit are ignored. */
  lemma ParseIntShow(pad: string, n: nat, rest: string)
    requires forall j :: 0 <= j < |pad| ==> IsSpace(pad[j])
    requires rest == [] || !IsDigit(rest[0])
    ensures ParseInt(pad + Show(n) + rest) == Some(n)
  {
    ParseIntDigits(pad, Show(n), rest);
    DecimalValueShow(n);
  }
}
