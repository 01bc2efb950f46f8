/** The string forms the check compares: an OID joined with '.' (each arc in
    decimal) and a byte string in lower-case hexadecimal. Each comes with a
    parser that inverts it, so that comparing the strings is the same as
    comparing the values. */
module Encoding {
  import opened OcspTypes

  predicate IsDigit(c: char) {
    '0' <= c <= '9'
  }

  function DecimalDigit(d: nat): (c: char)
    requires d < 10
    ensures IsDigit(c)
  {
    (48 + d) as char
  }

  function DigitValue(c: char): nat {
    if IsDigit(c) then c as int - 48 else 0
  }

  /** The decimal form of a number, as JavaScript's String(n) writes it. */
  function Decimal(n: nat): (s: string)
    ensures |s| > 0
    ensures forall i :: 0 <= i < |s| ==> IsDigit(s[i])
    decreases n
  {
    if n < 10 then [DecimalDigit(n)] else Decimal(n / 10) + [DecimalDigit(n % 10)]
  }

  function ParseDecimal(s: string): nat
    decreases |s|
  {
    if |s| == 0 then 0 else ParseDecimal(s[..|s| - 1]) * 10 + DigitValue(s[|s| - 1])
  }

  lemma {:induction false} ParseDecimalOfDecimal(n: nat)
    ensures ParseDecimal(Decimal(n)) == n
    decreases n
  {
    var s := Decimal(n);
    if n >= 10 {
      assert s[..|s| - 1] == Decimal(n / 10);
      ParseDecimalOfDecimal(n / 10);
    }
  }

  /** `oid.join('.')`. */
  function Dotted(oid: Oid): (s: string)
    ensures |s| == 0 <==> |oid| == 0
    ensures |oid| > 0 ==> IsDigit(s[0]) && IsDigit(s[|s| - 1])
    ensures forall i :: 0 <= i < |s| ==> IsDigit(s[i]) || s[i] == '.'
    decreases |oid|
  {
    if |oid| == 0 then ""
    else if |oid| == 1 then Decimal(oid[0])
    else Decimal(oid[0]) + "." + Dotted(oid[1..])
  }

  /** The index of the first '.' in `s`, or |s| when there is none. */
  function FirstDot(s: string): (i: nat)
    ensures i <= |s|
    ensures i < |s| ==> s[i] == '.'
    ensures forall j :: 0 <= j < i ==> s[j] != '.'
    decreases |s|
  {
    if |s| == 0 then 0 else if s[0] == '.' then 0 else 1 + FirstDot(s[1..])
  }

  /** Splits a dotted string back into its arcs. */
  function ParseDotted(s: string): Oid
    decreases |s|
  {
    if |s| == 0 then []
    else
      var i := FirstDot(s);
      if i == |s| then [ParseDecimal(s)]
      else [ParseDecimal(s[..i])] + ParseDotted(s[i + 1..])
  }

  lemma FirstDotAfterDigits(d: string, rest: string)
    requires forall j :: 0 <= j < |d| ==> IsDigit(d[j])
    ensures FirstDot(d + "." + rest) == |d|
  {
    var s := d + "." + rest;
    assert s[|d|] == '.';
  }

  lemma {:induction false} ParseDottedOfDotted(oid: Oid)
    ensures ParseDotted(Dotted(oid)) == oid
    decreases |oid|
  {
    if |oid| == 1 {
      var s := Decimal(oid[0]);
      var i := FirstDot(s);
      assert i < |s| ==> IsDigit(s[i]);
      ParseDecimalOfDecimal(oid[0]);
    } else if |oid| > 1 {
      var d := Decimal(oid[0]);
      var s := Dotted(oid);
      assert s == d + "." + Dotted(oid[1..]);
      FirstDotAfterDigits(d, Dotted(oid[1..]));
      assert s[..|d|] == d;
      assert s[|d| + 1..] == Dotted(oid[1..]);
      ParseDecimalOfDecimal(oid[0]);
      ParseDottedOfDotted(oid[1..]);
    }
  }

  /** Two OIDs join to the same dotted string exactly when they are equal. */
  lemma DottedInjective(a: Oid, b: Oid)
    ensures Dotted(a) == Dotted(b) <==> a == b
  {
    ParseDottedOfDotted(a);
    ParseDottedOfDotted(b);
  }

  predicate IsHexDigit(c: char) {
    '0' <= c <= '9' || 'a' <= c <= 'f'
  }

  function HexDigit(d: nat): (c: char)
    requires d < 16
    ensures IsHexDigit(c)
  {
    if d < 10 then (48 + d) as char else (87 + d) as char
  }

  function HexValue(c: char): (v: nat)
    ensures v < 16
  {
    if '0' <= c <= '9' then c as int - 48
    else if 'a' <= c <= 'f' then c as int - 87
    else 0
  }

  /** `buffer.toString('hex')`: two lower-case hexadecimal digits per byte. */
  function Hex(b: Bytes): (s: string)
    ensures |s| == 2 * |b|
    ensures forall i :: 0 <= i < |s| ==> IsHexDigit(s[i])
    decreases |b|
  {
    if |b| == 0 then [] else [HexDigit(b[0] / 16), HexDigit(b[0] % 16)] + Hex(b[1..])
  }

  function ParseHex(s: string): Bytes
    decreases |s|
  {
    if |s| < 2 then [] else [HexValue(s[0]) * 16 + HexValue(s[1])] + ParseHex(s[2..])
  }

  lemma {:induction false} ParseHexOfHex(b: Bytes)
    ensures ParseHex(Hex(b)) == b
    decreases |b|
  {
    if |b| > 0 {
      var s := Hex(b);
      assert s[2..] == Hex(b[1..]);
      assert HexValue(s[0]) == b[0] / 16 && HexValue(s[1]) == b[0] % 16;
      ParseHexOfHex(b[1..]);
    }
  }

  /** Two byte strings have the same hexadecimal form exactly when they are equal. */
  lemma HexInjective(a: Bytes, b: Bytes)
    ensures Hex(a) == Hex(b) <==> a == b
  {
    ParseHexOfHex(a);
    ParseHexOfHex(b);
  }
}
