/**
 * String helpers the product layer relies on: prefix tests (Redis key namespaces),
 * JavaScript's `String.prototype.trim`, and the decimal rendering JavaScript's
 * `String(n)` produces for the numbers that end up inside cache keys.
 */
module Text {

  predicate StartsWith(s: string, prefix: string) {
    |prefix| <= |s| && s[..|prefix|] == prefix
  }

  // ---------------------------------------------------------------------------
  // Trimming

  /** The characters ECMAScript's `trim` removes: WhiteSpace and LineTerminator. */
  predicate IsSpace(c: char) {
    || c == ' ' || c == '\t' || c == '\n' || c == '\r'
    || c == '\U{000B}' || c == '\U{000C}' || c == '\U{00A0}' || c == '\U{1680}'
    || ('\U{2000}' <= c <= '\U{200A}')
    || c == '\U{2028}' || c == '\U{2029}' || c == '\U{202F}' || c == '\U{205F}'
    || c == '\U{3000}' || c == '\U{FEFF}'
  }

  predicate AllSpace(s: string) {
    forall i :: 0 <= i < |s| ==> IsSpace(s[i])
  }

  /** `s` without its leading white space: a suffix of `s` that starts with a non-space. */
  function TrimStart(s: string): (r: string)
    ensures |r| <= |s| && r == s[|s| - |r|..]
    ensures AllSpace(s[..|s| - |r|])
    ensures r == [] || !IsSpace(r[0])
  {
    if |s| > 0 && IsSpace(s[0]) then
      var r := TrimStart(s[1..]);
      LeadingSpaceStep(s, r);
      r
    else s
  }

  /** Putting a space back in front of the input keeps a trimmed suffix a trimmed suffix. */
  lemma LeadingSpaceStep(s: string, r: string)
    requires |s| > 0 && IsSpace(s[0])
    requires |r| <= |s| - 1 && r == s[1..][|s| - 1 - |r|..] && AllSpace(s[1..][..|s| - 1 - |r|])
    ensures |r| <= |s| && r == s[|s| - |r|..] && AllSpace(s[..|s| - |r|])
  {
    var k := |s| - |r|;
    assert s[1..][k - 1..] == s[k..];
    forall i | 0 <= i < k
      ensures IsSpace(s[..k][i])
    {
      if i > 0 {
        assert s[..k][i] == s[1..][..k - 1][i - 1];
      }
    }
  }

  /** `s` without its trailing white space: a prefix of `s` that ends with a non-space. */
  function TrimEnd(s: string): (r: string)
    ensures |r| <= |s| && r == s[..|r|]
    ensures AllSpace(s[|r|..])
    ensures r == [] || !IsSpace(r[|r| - 1])
  {
    if |s| > 0 && IsSpace(s[|s| - 1]) then TrimEnd(s[..|s| - 1]) else s
  }

  /** JavaScript's `s.trim()`. */
  function Trim(s: string): (r: string)
    ensures |r| <= |s|
    ensures r == [] || (!IsSpace(r[0]) && !IsSpace(r[|r| - 1]))
  {
    var t := TrimStart(s);
    var r := TrimEnd(t);
    assert r != [] ==> r[0] == t[0];
    r
  }

  /** A string of white space trims to nothing. */
  lemma {:induction false} TrimAllSpace(s: string)
    requires AllSpace(s)
    ensures TrimStart(s) == [] && Trim(s) == []
    decreases |s|
  {
    if |s| > 0 {
      assert AllSpace(s[1..]) by {
        assert forall i | 0 <= i < |s| - 1 :: s[1..][i] == s[i + 1];
      }
      TrimAllSpace(s[1..]);
    }
  }

  /** Trimming keeps exactly the middle of `s`: white space on both sides, `Trim(s)` between. */
  lemma TrimIsInfix(s: string)
    ensures exists i, j :: 0 <= i <= j <= |s| && Trim(s) == s[i..j] && AllSpace(s[..i]) && AllSpace(s[j..])
  {
    var t := TrimStart(s);
    var i := |s| - |t|;
    var r := TrimEnd(t);
    var j := i + |r|;
    assert t == s[i..];
    assert r == s[i..j];
    assert s[j..] == t[|r|..];
  }

  /** A string without white space at either end is its own trim. */
  lemma {:induction false} TrimOfTrimmed(s: string)
    requires s == [] || (!IsSpace(s[0]) && !IsSpace(s[|s| - 1]))
    ensures Trim(s) == s
  {
  }

  lemma TrimIdempotent(s: string)
    ensures Trim(Trim(s)) == Trim(s)
  {
    TrimOfTrimmed(Trim(s));
  }

  // ---------------------------------------------------------------------------
  // Decimal rendering

  predicate IsDigit(c: char) {
    '0' <= c <= '9'
  }

  predicate AllDigits(s: string) {
    forall i :: 0 <= i < |s| ==> IsDigit(s[i])
  }

  function Digit(d: nat): (c: char)
    requires d < 10
    ensures IsDigit(c)
  {
    (('0' as int) + d) as char
  }

  function DigitValue(c: char): (d: nat)
    requires IsDigit(c)
    ensures d < 10 && Digit(d) == c
  {
    (c as int) - ('0' as int)
  }

  /** `String(n)` for a non-negative integer: its shortest decimal numeral. */
  function NatText(n: nat): (r: string)
    ensures |r| >= 1 && AllDigits(r)
  {
    if n < 10 then [Digit(n)] else NatText(n / 10) + [Digit(n % 10)]
  }

  /** Reads a decimal numeral back; the inverse of `NatText`. */
  function ParseNat(s: string): nat
    requires AllDigits(s)
  {
    if s == [] then 0 else ParseNat(s[..|s| - 1]) * 10 + DigitValue(s[|s| - 1])
  }

  lemma {:induction false} ParseNatText(n: nat)
    ensures ParseNat(NatText(n)) == n
  {
    if n >= 10 {
      var s := NatText(n);
      assert s[..|s| - 1] == NatText(n / 10);
      ParseNatText(n / 10);
      assert DigitValue(Digit(n % 10)) == n % 10;
    } else {
      assert DigitValue(Digit(n)) == n;
    }
  }

  lemma NatTextInjective(a: nat, b: nat)
    requires NatText(a) == NatText(b)
    ensures a == b
  {
    ParseNatText(a);
    ParseNatText(b);
  }

  /** The fractional part JavaScript prints for `r` hundredths: nothing, ".d" or ".dd". */
  function CentsFraction(r: nat): (f: string)
    requires r < 100
    ensures f == [] <==> r == 0
    ensures f != [] ==> f[0] == '.' && AllDigits(f[1..])
  {
    if r == 0 then ""
    else if r % 10 == 0 then ['.', Digit(r / 10)]
    else ['.', Digit(r / 10), Digit(r % 10)]
  }

  lemma CentsFractionInjective(a: nat, b: nat)
    requires a < 100 && b < 100 && CentsFraction(a) == CentsFraction(b)
    ensures a == b
  {
    if a != 0 && b != 0 {
      var f := CentsFraction(a);
      assert DigitValue(f[1]) == a / 10 == b / 10;
      if |f| == 3 {
        assert DigitValue(f[2]) == a % 10 == b % 10;
      }
    }
  }

  /**
   * `String(cents / 100)` in JavaScript for a price given in integer cents:
   * an optional minus sign, the whole units, then at most two decimals with
   * trailing zeros dropped (1050 cents prints as "10.5", 1000 as "10").
   */
  function PriceText(cents: int): (r: string)
    ensures r != []
  {
    var m: nat := if cents < 0 then -cents else cents;
    (if cents < 0 then "-" else "") + UnitsText(m)
  }

  /** The unsigned part of a rendered price: whole units, then the decimals. */
  function UnitsText(m: nat): (r: string)
    ensures r != []
  {
    NatText(m / 100) + CentsFraction(m % 100)
  }

  /** Only digits, '-' and '.' appear in a rendered price. */
  lemma PriceTextAlphabet(cents: int)
    ensures forall i :: 0 <= i < |PriceText(cents)| ==>
      IsDigit(PriceText(cents)[i]) || PriceText(cents)[i] == '-' || PriceText(cents)[i] == '.'
  {
    var m: nat := if cents < 0 then -cents else cents;
    var sign: string := if cents < 0 then "-" else "";
    var w := NatText(m / 100);
    var f := CentsFraction(m % 100);
    assert PriceText(cents) == sign + w + f;
    forall i | 0 <= i < |sign + w + f|
      ensures IsDigit((sign + w + f)[i]) || (sign + w + f)[i] == '-' || (sign + w + f)[i] == '.'
    {
      if i < |sign| {
      } else if i < |sign| + |w| {
        assert (sign + w + f)[i] == w[i - |sign|];
      } else {
        assert (sign + w + f)[i] == f[i - |sign| - |w|];
        if i - |sign| - |w| > 0 {
          assert f[i - |sign| - |w|] == f[1..][i - |sign| - |w| - 1];
        }
      }
    }
  }

  /** The number of leading decimal digits of `s`. */
  function LeadingDigits(s: string): (n: nat)
    ensures n <= |s| && AllDigits(s[..n]) && (n == |s| || !IsDigit(s[n]))
  {
    if s != [] && IsDigit(s[0]) then
      assert s[..1 + LeadingDigits(s[1..])] == [s[0]] + s[1..][..LeadingDigits(s[1..])];
      1 + LeadingDigits(s[1..])
    else 0
  }

  lemma {:induction false} LeadingDigitsOfConcat(a: string, b: string)
    requires AllDigits(a)
    requires b == [] || !IsDigit(b[0])
    ensures LeadingDigits(a + b) == |a|
  {
    if a != [] {
      assert (a + b)[1..] == a[1..] + b;
      LeadingDigitsOfConcat(a[1..], b);
    }
  }

  /** Digits followed by an empty or '.'-led tail split in only one way. */
  lemma DigitsThenDotSplit(a: string, b: string, c: string, d: string)
    requires AllDigits(a) && AllDigits(c)
    requires b == [] || b[0] == '.'
    requires d == [] || d[0] == '.'
    requires a + b == c + d
    ensures a == c && b == d
  {
    LeadingDigitsOfConcat(a, b);
    LeadingDigitsOfConcat(c, d);
    assert a == (a + b)[..|a|];
    assert c == (c + d)[..|c|];
    assert b == (a + b)[|a|..];
    assert d == (c + d)[|c|..];
  }

  /** A rendered price starts with '-' exactly when it is negative. */
  lemma PriceTextSign(cents: int)
    ensures (PriceText(cents)[0] == '-') == (cents < 0)
  {
    var m: nat := if cents < 0 then -cents else cents;
    var w := NatText(m / 100);
    if cents >= 0 {
      assert PriceText(cents) == w + CentsFraction(m % 100);
      assert PriceText(cents)[0] == w[0];
    }
  }

  lemma UnitsTextInjective(a: nat, b: nat)
    requires UnitsText(a) == UnitsText(b)
    ensures a == b
  {
    DigitsThenDotSplit(NatText(a / 100), CentsFraction(a % 100), NatText(b / 100), CentsFraction(b % 100));
    NatTextInjective(a / 100, b / 100);
    CentsFractionInjective(a % 100, b % 100);
  }

  /** Distinct prices (in cents) print differently. */
  lemma PriceTextInjective(x: int, y: int)
    requires PriceText(x) == PriceText(y)
    ensures x == y
  {
    var mx: nat := if x < 0 then -x else x;
    var my: nat := if y < 0 then -y else y;
    var sx: string := if x < 0 then "-" else "";
    var sy: string := if y < 0 then "-" else "";
    PriceTextSign(x);
    PriceTextSign(y);
    assert sx == sy;
    assert UnitsText(mx) == PriceText(x)[|sx|..];
    assert UnitsText(my) == PriceText(y)[|sy|..];
    UnitsTextInjective(mx, my);
  }

  // ---------------------------------------------------------------------------
  // Separated fields

  /** The index of the first `c` in `s`, or `|s|` when there is none. */
  function IndexOf(s: string, c: char): (i: nat)
    ensures i <= |s| && c !in s[..i] && (i < |s| ==> s[i] == c)
  {
    if s == [] then 0
    else if s[0] == c then 0
    else
      assert s[..1 + IndexOf(s[1..], c)] == [s[0]] + s[1..][..IndexOf(s[1..], c)];
      1 + IndexOf(s[1..], c)
  }

  lemma {:induction false} IndexOfSeparator(a: string, b: string, sep: char)
    requires sep !in a
    ensures IndexOf(a + [sep] + b, sep) == |a|
  {
    if a != [] {
      assert (a + [sep] + b)[1..] == a[1..] + [sep] + b;
      IndexOfSeparator(a[1..], b, sep);
    }
  }

  lemma IndexOfAbsent(s: string, c: char)
    requires c !in s
    ensures IndexOf(s, c) == |s|
  {
  }

  /** The length of the longest suffix of `s` without `c`. */
  function TailWithout(s: string, c: char): (n: nat)
    ensures n <= |s|
  {
    if s == [] || s[|s| - 1] == c then 0 else 1 + TailWithout(s[..|s| - 1], c)
  }

  lemma {:induction false} TailWithoutAfterSeparator(w: string, x: string, c: char)
    requires |w| > 0 && w[|w| - 1] == c && c !in x
    ensures TailWithout(w + x, c) == |x|
  {
    if x != [] {
      assert (w + x)[..|w + x| - 1] == w + x[..|x| - 1];
      TailWithoutAfterSeparator(w, x[..|x| - 1], c);
    } else {
      assert w + x == w;
    }
  }

  /**
   * A last field that cannot contain `c`, preceded by a literal ending in `c`,
   * splits off in only one way.
   */
  lemma LastFieldSplit(a: string, lit: string, x: string, b: string, y: string, c: char)
    requires |lit| > 0 && lit[|lit| - 1] == c && c !in x && c !in y
    requires a + lit + x == b + lit + y
    ensures a == b && x == y
  {
    var l, r := a + lit + x, b + lit + y;
    TailWithoutAfterSeparator(a + lit, x, c);
    TailWithoutAfterSeparator(b + lit, y, c);
    assert a == l[..|a|] && b == r[..|b|];
    assert x == l[|a| + |lit|..] && y == r[|b| + |lit|..];
  }

  /** Equal strings with a common prefix agree after it. */
  lemma DropCommonPrefix(p: string, x: string, y: string)
    requires p + x == p + y
    ensures x == y
  {
    assert x == (p + x)[|p|..];
    assert y == (p + y)[|p|..];
  }
}
