/** The JavaScript string routines the notes widget relies on, over strings
    of Unicode scalar values: `String.prototype.trim`, `parseInt(s, 10)` and
    `Number.prototype.toString()` on non-negative integers. */
module JsString {

  import opened Options

  /** The WhiteSpace and LineTerminator code points of ECMAScript (sections
      12.2 and 12.3 of ECMA-262): the characters both `trim` and `parseInt`
      skip. */
  predicate IsWhitespace(c: char) {
    || c == '\t' || c == '\U{000B}' || c == '\U{000C}' || c == ' '
    || c == '\U{00A0}' || c == '\U{FEFF}' || c == '\U{1680}'
    || ('\U{2000}' <= c <= '\U{200A}')
    || c == '\U{202F}' || c == '\U{205F}' || c == '\U{3000}'
    || c == '\n' || c == '\r' || c == '\U{2028}' || c == '\U{2029}'
  }

  /** Every character of `s` in `[lo, hi)` is whitespace. */
  predicate WhitespaceBetween(s: string, lo: int, hi: int) {
    forall i :: lo <= i < hi && 0 <= i < |s| ==> IsWhitespace(s[i])
  }

  predicate AllWhitespace(s: string) {
    WhitespaceBetween(s, 0, |s|)
  }

  /** A decimal digit: the radix-10 digits of `parseInt`. */
  predicate IsDigit(c: char) {
    '0' <= c <= '9'
  }

  predicate AllDigits(s: string) {
    forall i :: 0 <= i < |s| ==> IsDigit(s[i])
  }

  /** The first index at or after `i` that does not hold whitespace
      (`|s|` when there is none). */
  function SkipWhitespace(s: string, i: nat): (k: nat)
    requires i <= |s|
    ensures i <= k <= |s|
    ensures WhitespaceBetween(s, i, k)
    ensures k == |s| || !IsWhitespace(s[k])
    decreases |s| - i
  {
    if i < |s| && IsWhitespace(s[i]) then SkipWhitespace(s, i + 1) else i
  }

  /** The last index at or before `hi`, and not before `lo`, that follows a
      character that is not whitespace (`lo` when there is none). */
  function SkipWhitespaceBack(s: string, lo: nat, hi: nat): (k: nat)
    requires lo <= hi <= |s|
    ensures lo <= k <= hi
    ensures WhitespaceBetween(s, k, hi)
    ensures k == lo || !IsWhitespace(s[k - 1])
    decreases hi
  {
    if lo < hi && IsWhitespace(s[hi - 1]) then SkipWhitespaceBack(s, lo, hi - 1) else hi
  }

  /** `SkipWhitespace` is determined by its contract: any index past only
      whitespace that stops at a non-whitespace character (or the end) is
      the one it finds. */
  lemma SkipWhitespaceIsFirst(s: string, i: nat, k: nat)
    requires i <= k <= |s|
    requires WhitespaceBetween(s, i, k)
    requires k == |s| || !IsWhitespace(s[k])
    ensures SkipWhitespace(s, i) == k
  {
  }

  /** `s` without its leading whitespace: what `parseInt` starts from. */
  function TrimStart(s: string): string {
    s[SkipWhitespace(s, 0)..]
  }

  /** `s.trim()`: `s` without its leading and trailing whitespace. It is
      empty exactly when `s` is all whitespace, and otherwise starts and
      ends with a character that is not. */
  function Trim(s: string): (r: string)
    ensures |r| <= |s|
    ensures r == [] <==> AllWhitespace(s)
    ensures r != [] ==> !IsWhitespace(r[0]) && !IsWhitespace(r[|r| - 1])
  {
    TrimIsInfix(s);
    s[SkipWhitespace(s, 0)..SkipWhitespaceBack(s, SkipWhitespace(s, 0), |s|)]
  }

  /** The two scanner positions `Trim` cuts at: everything before the first
      and after the second is whitespace, they meet exactly when `s` is all
      whitespace, and otherwise they sit next to non-whitespace characters. */
  lemma TrimIsInfix(s: string)
    ensures var lo := SkipWhitespace(s, 0);
      var hi := SkipWhitespaceBack(s, lo, |s|);
      && WhitespaceBetween(s, 0, lo)
      && WhitespaceBetween(s, hi, |s|)
      && (lo == hi <==> AllWhitespace(s))
      && (lo < hi ==> !IsWhitespace(s[lo]) && !IsWhitespace(s[hi - 1]))
  {
    var lo := SkipWhitespace(s, 0);
    assert lo < |s| ==> SkipWhitespaceBack(s, lo, |s|) > lo;
  }

  /** `trim` keeps one contiguous piece of `s` and drops only whitespace
      around it; with the end characters `Trim` promises, this piece is the
      longest one that neither starts nor ends with whitespace. */
  lemma TrimIsSlice(s: string)
    ensures exists lo ::
      && 0 <= lo <= |s| - |Trim(s)|
      && Trim(s) == s[lo..lo + |Trim(s)|]
      && WhitespaceBetween(s, 0, lo)
      && WhitespaceBetween(s, lo + |Trim(s)|, |s|)
  {
    TrimIsInfix(s);
    var lo := SkipWhitespace(s, 0);
    assert Trim(s) == s[lo..lo + |Trim(s)|];
  }

  /** The value of a decimal digit. */
  function DigitValue(c: char): (d: nat)
    requires IsDigit(c)
    ensures d < 10
  {
    (c as int) - ('0' as int)
  }

  /** The decimal digit of a value below ten. */
  function DigitChar(d: nat): (c: char)
    requires d < 10
    ensures IsDigit(c) && DigitValue(c) == d
  {
    (('0' as int) + d) as char
  }

  /** The integer a string of decimal digits denotes, most significant
      digit first. */
  function DigitsValue(ds: string): nat
    requires AllDigits(ds)
  {
    if ds == [] then 0
    else DigitsValue(ds[..|ds| - 1]) * 10 + DigitValue(ds[|ds| - 1])
  }

  /** The first index at or after `i` that does not hold a decimal digit
      (`|s|` when there is none). */
  function SkipDigits(s: string, i: nat): (k: nat)
    requires i <= |s|
    ensures i <= k <= |s|
    ensures forall j :: i <= j < k ==> IsDigit(s[j])
    ensures k == |s| || !IsDigit(s[k])
    decreases |s| - i
  {
    if i < |s| && IsDigit(s[i]) then SkipDigits(s, i + 1) else i
  }

  /** Where `parseInt` starts reading digits in `t` (`t` already without
      its leading whitespace): past a leading `-` or `+`, if any. */
  function SignLength(t: string): nat {
    if |t| > 0 && (t[0] == '-' || t[0] == '+') then 1 else 0
  }

  /** `parseInt(s, 10)`: skip leading whitespace, take an optional sign, then
      the maximal run of decimal digits; no digit at all is NaN (`None`).
      Whatever follows the digits is ignored. */
  function ParseInt(s: string): (r: Option<int>)
    ensures var t := TrimStart(s);
      var start := SignLength(t);
      r.None? <==> start == |t| || !IsDigit(t[start])
    ensures r.Some? && r.value < 0 ==> TrimStart(s)[0] == '-'
    ensures r.Some? && r.value >= 0 ==> TrimStart(s)[0] != '-' || r.value == 0
  {
    var t := TrimStart(s);
    var start := SignLength(t);
    var digits := t[start..SkipDigits(t, start)];
    if digits == [] then None
    else
      var magnitude: int := DigitsValue(digits);
      if t[0] == '-' then Some(-magnitude) else Some(magnitude)
  }

  /** `n.toString()` for a non-negative integer: its decimal digits, most
      significant first, without leading zeros. */
  function NatToString(n: nat): (r: string)
    ensures |r| > 0 && AllDigits(r)
    ensures r[0] == '0' ==> r == "0"
  {
    if n < 10 then [DigitChar(n)]
    else
      var r := NatToString(n / 10) + [DigitChar(n % 10)];
      assert r[0] == NatToString(n / 10)[0];
      r
  }

  /** Decimal printing followed by reading the digits back is the identity. */
  lemma {:induction false} DigitsValueOfNatToString(n: nat)
    ensures DigitsValue(NatToString(n)) == n
  {
    if n >= 10 {
      var s := NatToString(n);
      assert s[..|s| - 1] == NatToString(n / 10);
      DigitsValueOfNatToString(n / 10);
    }
  }

  /** A digit string without a leading zero denotes a positive value. */
  lemma {:induction false} DigitsValuePositive(ds: string)
    requires |ds| > 0 && AllDigits(ds) && ds[0] != '0'
    ensures DigitsValue(ds) > 0
  {
    if |ds| > 1 {
      DigitsValuePositive(ds[..|ds| - 1]);
    }
  }

  /** The other direction of the round trip: every canonical digit string
      (non-empty, no leading zero unless it is "0") is what `toString`
      prints for the value it denotes. */
  lemma {:induction false} NatToStringOfDigits(ds: string)
    requires |ds| > 0 && AllDigits(ds)
    requires ds[0] == '0' ==> ds == "0"
    ensures NatToString(DigitsValue(ds)) == ds
  {
    if |ds| > 1 {
      var init := ds[..|ds| - 1];
      DigitsValuePositive(init);
      NatToStringOfDigits(init);
      var n := DigitsValue(ds);
      assert n / 10 == DigitsValue(init) && n % 10 == DigitValue(ds[|ds| - 1]);
      assert ds == init + [ds[|ds| - 1]];
    } else {
      assert ds == [DigitChar(DigitValue(ds[0]))];
    }
  }

  /** A run of digits starting at `i` and followed by a non-digit (or the
      end) is exactly the digit run `parseInt` reads from `i`. */
  lemma SkipDigitsIsFirst(s: string, i: nat, k: nat)
    requires i <= k <= |s|
    requires forall j :: i <= j < k ==> IsDigit(s[j])
    requires k == |s| || !IsDigit(s[k])
    ensures SkipDigits(s, i) == k
  {
  }

  /** `parseInt` on an optional sign, a non-empty run of digits (leading
      zeros allowed) and a tail that does not start with a digit: the value
      of the digits, negated after `-`; the tail is ignored. So
      `parseInt("007", 10)` is 7 and `parseInt("+12px", 10)` is 12. */
  lemma ParseIntOfDigits(sign: string, ds: string, rest: string)
    requires sign == "" || sign == "+" || sign == "-"
    requires |ds| > 0 && AllDigits(ds)
    requires rest == [] || !IsDigit(rest[0])
    ensures ParseInt(sign + ds + rest)
      == Some(if sign == "-" then -(DigitsValue(ds) as int) else DigitsValue(ds) as int)
  {
    var w := sign + ds + rest;
    SignedStart(sign, ds, rest);
    DigitRunAfterSign(sign, ds, rest);
    ParseIntReadsRun(w, |sign|, |sign| + |ds|, sign == "-", ds);
  }

  /** A string that starts with an optional sign and then a digit has no
      leading whitespace, and its sign is exactly `sign`. */
  lemma SignedStart(sign: string, ds: string, rest: string)
    requires sign == "" || sign == "+" || sign == "-"
    requires |ds| > 0 && AllDigits(ds)
    ensures SkipWhitespace(sign + ds + rest, 0) == 0
    ensures SignLength(sign + ds + rest) == |sign|
    ensures (sign + ds + rest)[0] == '-' <==> sign == "-"
  {
    var w := sign + ds + rest;
    assert w[0] == (if sign == "" then ds[0] else sign[0]);
    SkipWhitespaceIsFirst(w, 0, 0);
    assert |sign| < |w| && (sign == "" ==> w[0] == ds[0]);
  }

  /** `parseInt` on a string without leading whitespace whose digit run,
      after the sign, is `ds == w[start..k]`; `negative` says whether the
      sign is `-`. */
  lemma ParseIntReadsRun(w: string, start: nat, k: nat, negative: bool, ds: string)
    requires SkipWhitespace(w, 0) == 0
    requires start == SignLength(w) && start < k <= |w|
    requires SkipDigits(w, start) == k
    requires ds == w[start..k] && negative == (w[0] == '-')
    ensures AllDigits(ds)
    ensures ParseInt(w) == Some(if negative then -(DigitsValue(ds) as int) else DigitsValue(ds) as int)
  {
    assert TrimStart(w) == w;
  }

  /** After the sign, `parseInt` reads exactly the digits `ds`. */
  lemma DigitRunAfterSign(sign: string, ds: string, rest: string)
    requires AllDigits(ds)
    requires rest == [] || !IsDigit(rest[0])
    ensures SkipDigits(sign + ds + rest, |sign|) == |sign| + |ds|
    ensures (sign + ds + rest)[|sign|..|sign| + |ds|] == ds
  {
    var body := ds + rest;
    assert sign + ds + rest == sign + body;
    assert forall j :: 0 <= j < |ds| ==> body[j] == ds[j];
    assert |rest| > 0 ==> body[|ds|] == rest[0];
    SkipDigitsIsFirst(body, 0, |ds|);
    SkipDigitsShift(sign, body);
  }

  /** Scanning digits after a prefix is scanning the rest from its start. */
  lemma SkipDigitsShift(prefix: string, body: string)
    ensures SkipDigits(prefix + body, |prefix|) == |prefix| + SkipDigits(body, 0)
  {
    var w := prefix + body;
    var k := SkipDigits(body, 0);
    assert forall j :: 0 <= j < |body| ==> w[|prefix| + j] == body[j];
    SkipDigitsIsFirst(w, |prefix|, |prefix| + k);
  }

  /** `parseInt` stops at the first character that is not a digit:
      `parseInt("12abc", 10)` is 12. */
  lemma ParseIntStopsAtNonDigit(n: nat, rest: string)
    requires rest == [] || !IsDigit(rest[0])
    ensures ParseInt(NatToString(n) + rest) == Some(n)
  {
    var ds := NatToString(n);
    ParseIntOfDigits("", ds, rest);
    assert "" + ds + rest == ds + rest;
    DigitsValueOfNatToString(n);
  }

  /** `parseInt` reads back what `toString` prints. */
  lemma ParseIntOfNatToString(n: nat)
    ensures ParseInt(NatToString(n)) == Some(n)
  {
    ParseIntStopsAtNonDigit(n, "");
    assert NatToString(n) + "" == NatToString(n);
  }

  /** A minus sign makes the value negative: `parseInt("-5", 10)` is -5. */
  lemma ParseIntOfNegated(n: nat)
    ensures ParseInt("-" + NatToString(n)) == Some(-(n as int))
  {
    ParseIntOfDigits("-", NatToString(n), "");
    assert "-" + NatToString(n) + "" == "-" + NatToString(n);
    DigitsValueOfNatToString(n);
  }

  /** Leading whitespace does not change what `parseInt` reads. */
  lemma ParseIntSkipsWhitespace(w: string, s: string)
    requires AllWhitespace(w)
    ensures ParseInt(w + s) == ParseInt(s)
  {
    var ws := w + s;
    var k := SkipWhitespace(s, 0);
    assert forall i :: |w| <= i < |ws| ==> ws[i] == s[i - |w|];
    assert WhitespaceBetween(ws, 0, |w| + k);
    SkipWhitespaceIsFirst(ws, 0, |w| + k);
    assert TrimStart(ws) == TrimStart(s);
  }

}
