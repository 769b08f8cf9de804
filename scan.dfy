/**
 * The text conventions of the copy thread's replies and of its state file:
 * C `isspace`/`isdigit`/`isxdigit`, the `%d` conversion of sscanf (skip
 * white space, optional sign, at least one digit), decimal rendering as
 * printf `%d` produces it, and pairs of hexadecimal digits.  Integers are
 * unbounded here: the overflow of a C `int` or `long long` is not modelled.
 */
module Scan {
  import opened Types

  predicate IsSpace(c: char)
  {
    c == ' ' || c == '\t' || c == '\n' || c == '\r' || c == '\U{0B}' || c == '\U{0C}'
  }

  predicate IsDigit(c: char) { '0' <= c <= '9' }

  function DigitValue(c: char): int
  {
    c as int - '0' as int
  }

  function DigitChar(d: int): (c: char)
    requires 0 <= d < 10
    ensures IsDigit(c) && DigitValue(c) == d
  {
    ('0' as int + d) as char
  }

  predicate AllDigits(s: string) { forall k :: 0 <= k < |s| ==> IsDigit(s[k]) }

  predicate AllSpaces(s: string) { forall k :: 0 <= k < |s| ==> IsSpace(s[k]) }

  /** The first index at or after i that does not hold white space. */
  function SkipSpaces(s: string, i: nat): (j: nat)
    requires i <= |s|
    ensures i <= j <= |s|
    ensures j < |s| ==> !IsSpace(s[j])
    decreases |s| - i
  {
    if i < |s| && IsSpace(s[i]) then SkipSpaces(s, i + 1) else i
  }

  /** The end of the run of digits that starts at i. */
  function DigitsEnd(s: string, i: nat): (j: nat)
    requires i <= |s|
    ensures i <= j <= |s|
    ensures j < |s| ==> !IsDigit(s[j])
    decreases |s| - i
  {
    if i < |s| && IsDigit(s[i]) then DigitsEnd(s, i + 1) else i
  }

  /** The value of a string of decimal digits. */
  function DigitsValue(d: string): int
  {
    if d == [] then 0 else DigitsValue(d[..|d| - 1]) * 10 + DigitValue(d[|d| - 1])
  }

  /** The decimal digits of a natural number, most significant first, with
   *  no leading zero. */
  function FormatNat(n: nat): (s: string)
    ensures |s| >= 1
  {
    if n < 10 then [DigitChar(n)] else FormatNat(n / 10) + [DigitChar(n % 10)]
  }

  lemma {:induction false} FormatNatDigits(n: nat)
    ensures AllDigits(FormatNat(n))
  {
    if n >= 10 {
      FormatNatDigits(n / 10);
      DigitsValuePrefix(FormatNat(n / 10), DigitChar(n % 10));
    }
  }

  /** printf's %d. */
  function FormatInt(n: int): string
  {
    if n < 0 then "-" + FormatNat(-n) else FormatNat(n)
  }

  /** The outcome of one %d conversion: no integer, or its value and the
   *  index just past its digits. */
  datatype IntScan = NoInt | IntAt(value: int, end: nat)

  /** sscanf's %d at index i: white space, an optional sign, then at least
   *  one digit. */
  function ScanInt(s: string, i: nat): (r: IntScan)
    requires i <= |s|
    ensures r.IntAt? ==> i < r.end <= |s|
  {
    var j := SkipSpaces(s, i);
    var neg := j < |s| && s[j] == '-';
    var k := if j < |s| && (s[j] == '-' || s[j] == '+') then j + 1 else j;
    var e := DigitsEnd(s, k);
    if e == k then NoInt
    else
      var v := DigitsValue(s[k..e]);
      IntAt(if neg then -v else v, e)
  }

  /** Up to `count` consecutive %d conversions at the start of s: the values
   *  converted before the first one that fails, as sscanf assigns them. */
  function ScanInts(s: string, count: nat): (r: seq<int>)
    ensures |r| <= count
    decreases count
  {
    if count == 0 then []
    else match ScanInt(s, 0)
      case NoInt => []
      case IntAt(v, e) => [v] + ScanInts(s[e..], count - 1)
  }

  /** Integers separated by single blanks, each preceded by one blank, as the
   *  server writes the fields of a reply. */
  function FormatInts(xs: seq<int>): string
  {
    if xs == [] then "" else " " + FormatInt(xs[0]) + FormatInts(xs[1..])
  }

  lemma {:induction false} DigitsValuePrefix(d: string, c: char)
    requires AllDigits(d) && IsDigit(c)
    ensures AllDigits(d + [c]) && DigitsValue(d + [c]) == DigitsValue(d) * 10 + DigitValue(c)
  {
    assert (d + [c])[..|d + [c]| - 1] == d;
  }

  /** Reading back the digits of n gives n. */
  lemma {:induction false} FormatNatValue(n: nat)
    ensures DigitsValue(FormatNat(n)) == n
  {
    if n >= 10 {
      FormatNatValue(n / 10);
      FormatNatDigits(n / 10);
      DigitsValuePrefix(FormatNat(n / 10), DigitChar(n % 10));
    } else {
      assert FormatNat(n) == [DigitChar(n)];
      assert FormatNat(n)[..0] == [];
    }
  }

  lemma {:induction false} SkipSpacesOver(s: string, i: nat, n: nat)
    requires i + n <= |s|
    requires AllSpaces(s[i..i + n])
    requires i + n < |s| ==> !IsSpace(s[i + n])
    ensures SkipSpaces(s, i) == i + n
    decreases n
  {
    if n > 0 {
      assert s[i..i + n][0] == s[i];
      assert s[i + 1..i + n] == s[i..i + n][1..];
      SkipSpacesOver(s, i + 1, n - 1);
    }
  }

  /** A single blank before a character that is not white space. */
  lemma SkipOneBlank(head: string, rest: string)
    requires rest != [] ==> !IsSpace(rest[0])
    ensures SkipSpaces(head + (" " + rest), |head|) == |head| + 1
  {
    var s := head + (" " + rest);
    var i := |head|;
    assert s[i] == ' ';
    assert SkipSpaces(s, i) == SkipSpaces(s, i + 1);
    if rest != [] {
      assert s[i + 1] == rest[0];
    }
  }

  lemma {:induction false} DigitsEndOver(s: string, i: nat, n: nat)
    requires i + n <= |s|
    requires AllDigits(s[i..i + n])
    requires i + n < |s| ==> !IsDigit(s[i + n])
    ensures DigitsEnd(s, i) == i + n
    decreases n
  {
    if n > 0 {
      assert s[i..i + n][0] == s[i];
      assert s[i + 1..i + n] == s[i..i + n][1..];
      DigitsEndOver(s, i + 1, n - 1);
    }
  }

  /** %d at the start of s, given where the white space ends and where the
   *  digits after the optional minus sign end. */
  lemma ScanAt(s: string, p: nat, neg: bool, k: nat, e: nat)
    requires p <= |s| && SkipSpaces(s, 0) == p
    requires k == p + (if neg then 1 else 0)
    requires neg ==> p < |s| && s[p] == '-'
    requires !neg ==> p < |s| && IsDigit(s[p])
    requires k < e <= |s| && DigitsEnd(s, k) == e
    ensures ScanInt(s, 0) == IntAt(if neg then -DigitsValue(s[k..e]) else DigitsValue(s[k..e]), e)
  {
  }

  /** %d on p blanks, an optional minus sign, n >= 1 digits, then a non-digit. */
  lemma ScanSigned(s: string, p: nat, neg: bool, n: nat)
    requires p + n + (if neg then 1 else 0) <= |s| && n >= 1
    requires AllSpaces(s[0..p])
    requires neg ==> s[p] == '-'
    requires var k := p + (if neg then 1 else 0);
      AllDigits(s[k..k + n]) && (k + n < |s| ==> !IsDigit(s[k + n]))
    ensures var k := p + (if neg then 1 else 0);
      ScanInt(s, 0) == IntAt(if neg then -DigitsValue(s[k..k + n]) else DigitsValue(s[k..k + n]), k + n)
  {
    var k := p + (if neg then 1 else 0);
    assert s[k..k + n][0] == s[k];
    SkipSpacesOver(s, 0, p);
    DigitsEndOver(s, k, n);
    ScanAt(s, p, neg, k, k + n);
  }

  /** Where the parts of white space, a rendered integer and a tail lie. */
  lemma FormatIntLayout(pre: string, n: int, post: string)
    ensures var s := pre + FormatInt(n) + post;
      var neg := n < 0;
      var d := FormatNat(if neg then -n else n);
      var k := |pre| + (if neg then 1 else 0);
      |FormatInt(n)| == |d| + (if neg then 1 else 0) &&
      s[0..|pre|] == pre && (neg ==> s[|pre|] == '-') &&
      k + |d| <= |s| && s[k..k + |d|] == d &&
      (k + |d| < |s| ==> s[k + |d|] == post[0])
  {
  }

  /** %d reads back what %d wrote, after any white space and when the next
   *  character is not a digit. */
  lemma ScanFormatInt(pre: string, n: int, post: string)
    requires AllSpaces(pre)
    requires post != [] ==> !IsDigit(post[0])
    ensures ScanInt(pre + FormatInt(n) + post, 0) == IntAt(n, |pre| + |FormatInt(n)|)
  {
    var neg := n < 0;
    var m: nat := if neg then -n else n;
    var d := FormatNat(m);
    var s := pre + FormatInt(n) + post;
    var k := |pre| + (if neg then 1 else 0);
    FormatIntLayout(pre, n, post);
    FormatNatValue(m);
    FormatNatDigits(m);
    assert s[k..k + |d|] == d;
    ScanSigned(s, |pre|, neg, |d|);
    assert ScanInt(s, 0) == IntAt(n, k + |d|);
  }

  /** A list of integers written with FormatInts is read back whole. */
  lemma {:induction false} ScanFormatInts(xs: seq<int>, post: string)
    requires post != [] ==> !IsDigit(post[0])
    ensures ScanInts(FormatInts(xs) + post, |xs|) == xs
    decreases |xs|
  {
    if xs == [] {
      assert FormatInts(xs) + post == post;
    } else {
      var head := " " + FormatInt(xs[0]);
      var rest := FormatInts(xs[1..]) + post;
      AppendAssoc(head, FormatInts(xs[1..]), post);
      FormatIntsStart(xs[1..], post);
      ScanBlankInt(xs[0], rest);
      ScanFormatInts(xs[1..], post);
      ScanIntsStep(head + rest, |head|, rest, xs);
    }
  }

  lemma AppendAssoc(a: string, b: string, c: string)
    ensures (a + b) + c == a + (b + c)
  {
  }

  /** A written list followed by a tail that does not start with a digit
   *  does not start with a digit either. */
  lemma FormatIntsStart(xs: seq<int>, post: string)
    requires post != [] ==> !IsDigit(post[0])
    ensures var s := FormatInts(xs) + post; s != [] ==> !IsDigit(s[0])
  {
    if xs != [] {
      assert (FormatInts(xs) + post)[0] == ' ';
    }
  }

  /** A blank, an integer and a tail not starting with a digit: %d reads
   *  the integer and leaves the tail. */
  lemma ScanBlankInt(x: int, rest: string)
    requires rest != [] ==> !IsDigit(rest[0])
    ensures var s := " " + FormatInt(x) + rest;
      ScanInt(s, 0) == IntAt(x, 1 + |FormatInt(x)|) && s[1 + |FormatInt(x)|..] == rest
  {
    assert AllSpaces(" ");
    ScanFormatInt(" ", x, rest);
  }

  /** One step of reading a list: the first integer, then the rest. */
  lemma ScanIntsStep(s: string, e: nat, rest: string, xs: seq<int>)
    requires xs != [] && e <= |s| && s[e..] == rest
    requires ScanInt(s, 0) == IntAt(xs[0], e)
    requires ScanInts(rest, |xs[1..]|) == xs[1..]
    ensures ScanInts(s, |xs|) == xs
  {
    ScanIntsCons(s, |xs|, xs[0], e);
    assert [xs[0]] + xs[1..] == xs;
  }

  lemma ScanIntsCons(s: string, count: nat, v: int, e: nat)
    requires count > 0 && e <= |s|
    requires ScanInt(s, 0) == IntAt(v, e)
    ensures ScanInts(s, count) == [v] + ScanInts(s[e..], count - 1)
  {
  }

  predicate IsHexDigit(c: char)
  {
    IsDigit(c) || 'a' <= c <= 'f' || 'A' <= c <= 'F'
  }

  function HexValue(c: char): (v: int)
    requires IsHexDigit(c)
    ensures 0 <= v < 16
  {
    if IsDigit(c) then DigitValue(c)
    else if 'a' <= c <= 'f' then c as int - 'a' as int + 10
    else c as int - 'A' as int + 10
  }

  function HexChar(d: int): (c: char)
    requires 0 <= d < 16
    ensures IsHexDigit(c) && HexValue(c) == d
  {
    if d < 10 then DigitChar(d) else ('a' as int + d - 10) as char
  }

  /** An unsigned char. */
  type Byte = x: int | 0 <= x < 256

  /** Two lower-case hexadecimal digits per byte. */
  function HexEncode(bytes: seq<Byte>): (s: string)
    ensures |s| == 2 * |bytes|
  {
    if bytes == [] then ""
    else [HexChar(bytes[0] / 16), HexChar(bytes[0] % 16)] + HexEncode(bytes[1..])
  }

  /** Hexadecimal text starts with no white space. */
  lemma HexEncodeStart(bytes: seq<Byte>)
    ensures HexEncode(bytes) != [] ==> !IsSpace(HexEncode(bytes)[0])
  {
    if bytes != [] {
      var c := HexChar(bytes[0] / 16);
      assert HexEncode(bytes)[0] == c;
      assert IsHexDigit(c);
    }
  }
}
