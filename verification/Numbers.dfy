/** How format.c writes numbers, and that what it writes can be read back. */
module Numbers {
  import opened ByteMemory

  /** The number systems of format.c. */
  type Base = b: int | b == 2 || b == 10 || b == 16 witness 10

  type Dword = d: int | -0x8000_0000 <= d < 0x8000_0000

  function AtomToChar(b: int, sys: Base): Byte
    requires 0 <= b < 16
  {
    if sys <= 10 then b + 48 else if b < 10 then b + 48 else b + 65 - 10
  }

  /** The digits of a number, most significant first. */
  function Digits(n: nat, sys: Base): (s: seq<Byte>)
    ensures |s| > 0
  {
    if n < sys then [AtomToChar(n, sys)] else Digits(n / sys, sys) + [AtomToChar(n % sys, sys)]
  }

  function Power(sys: Base, k: nat): nat {
    if k == 0 then 1 else sys * Power(sys, k - 1)
  }

  lemma {:induction false} DigitCount(n: nat, sys: Base, k: nat)
    requires k >= 1 && n < Power(sys, k) && (k == 1 || Power(sys, k - 1) <= n)
    ensures |Digits(n, sys)| == k
  {
    if k > 1 {
      assert sys * Power(sys, k - 2) == Power(sys, k - 1);
      PowerAtLeast(sys, k - 2);
      assert n >= sys;
      DivideBounds(n, sys, Power(sys, k - 2), Power(sys, k - 1));
      DigitCount(n / sys, sys, k - 1);
    }
  }

  lemma {:induction false} PowerAtLeast(sys: Base, k: nat)
    ensures Power(sys, k) >= 1
  {
    if k > 0 { PowerAtLeast(sys, k - 1); }
  }

  lemma DivideBounds(n: nat, sys: Base, p: nat, q: nat)
    requires sys * p <= n < sys * q
    ensures p <= n / sys < q
  {
  }

  // ---------- reading back ----------

  function DigitValue(c: Byte): int {
    if 48 <= c < 58 then c - 48 else if 65 <= c < 71 then c - 55 else -1
  }

  function Parse(s: seq<Byte>, sys: Base): int {
    if s == [] then 0 else Parse(s[..|s| - 1], sys) * sys + DigitValue(s[|s| - 1])
  }

  lemma DivMod(n: nat, sys: Base)
    ensures n / sys * sys + n % sys == n && 0 <= n % sys < sys && n / sys >= 0
    ensures n >= sys ==> 0 < n / sys < n
  {
  }

  lemma AtomValue(d: int, sys: Base)
    requires 0 <= d < sys
    ensures DigitValue(AtomToChar(d, sys)) == d && (AtomToChar(d, sys) == 48 <==> d == 0)
  {
  }

  lemma {:induction false} ParseDigits(n: nat, sys: Base)
    ensures Parse(Digits(n, sys), sys) == n
    ensures Digits(n, sys)[0] == 48 <==> n == 0
    ensures forall c <- Digits(n, sys) :: 0 <= DigitValue(c) < sys
  {
    if n >= sys {
      DivMod(n, sys);
      var q, d := n / sys, n % sys;
      AtomValue(d, sys);
      ParseDigits(q, sys);
      ParseAppend(Digits(q, sys), AtomToChar(d, sys), sys);
    } else {
      AtomValue(n, sys);
      assert Digits(n, sys)[..0] == [];
    }
  }

  lemma ParseAppend(s: seq<Byte>, c: Byte, sys: Base)
    ensures Parse(s + [c], sys) == Parse(s, sys) * sys + DigitValue(c)
  {
  }

  const MINUS: seq<Byte> := [45]
  const HEX: seq<Byte> := [48, 120]
  const BINARY: seq<Byte> := [48, 98]

  function Prefix(sys: Base): seq<Byte> {
    if sys == 16 then HEX else if sys == 2 then BINARY else []
  }

  /** u_dword negation, as in the call `int_to_string(-num, sys)`. */
  function Negated(num: Dword): nat {
    (-(num as int)) % 0x1_0000_0000
  }

  /** The digits number_to_string gets from char_to_string or int_to_string. */
  function Bare(num: Dword, sys: Base): (s: seq<Byte>)
    ensures |s| > 0
  {
    if num == 0 then [AtomToChar(0, sys)] else if num < 0 then Digits(Negated(num), sys) else Digits(num, sys)
  }

  /** The text of number_to_string. */
  function NumberText(num: Dword, sys: Base): seq<Byte> {
    if num < 0 then MINUS + (Prefix(sys) + Bare(num, sys)) else Prefix(sys) + Bare(num, sys)
  }

  /** What a reader makes of a text. */
  datatype Reading = Reading(base: int, value: int)

  /** A reader that is told nothing: a leading minus sign is a sign, "0x" announces hexadecimal and "0b" binary
      digits, and anything else is decimal. */
  function ReadNumber(s: seq<Byte>): Reading {
    if |s| > 0 && s[0] == '-' as int then
      var r := ReadUnsigned(s[1..]);
      Reading(r.base, -r.value)
    else ReadUnsigned(s)
  }

  function ReadUnsigned(s: seq<Byte>): Reading {
    if |s| >= 2 && s[0] == '0' as int && s[1] == 'x' as int then Reading(16, Parse(s[2..], 16))
    else if |s| >= 2 && s[0] == '0' as int && s[1] == 'b' as int then Reading(2, Parse(s[2..], 2))
    else Reading(10, Parse(s, 10))
  }

  /** Digits are neither a sign nor part of a prefix. */
  lemma PlainDigits(n: nat, sys: Base, i: nat)
    requires i < |Digits(n, sys)|
    ensures var c := Digits(n, sys)[i]; c != '-' as int && c != 'x' as int && c != 'b' as int
  {
    ParseDigits(n, sys);
    assert Digits(n, sys)[i] in Digits(n, sys);
  }

  lemma UnsignedRoundTrip(n: nat, sys: Base)
    ensures var s := Prefix(sys) + Digits(n, sys); s[0] != '-' as int && ReadUnsigned(s) == Reading(sys, n)
  {
    var s := Prefix(sys) + Digits(n, sys);
    ParseDigits(n, sys);
    PlainDigits(n, sys, 0);
    if sys == 10 {
      assert s == Digits(n, sys);
      if |s| >= 2 { PlainDigits(n, sys, 1); }
    } else {
      assert s[2..] == Digits(n, sys);
    }
  }

  /** For every dword, the least included, and every base: the reader finds the base and the number. */
  lemma NumberRoundTrip(num: Dword, sys: Base)
    ensures ReadNumber(NumberText(num, sys)) == Reading(sys, num)
  {
    if num < 0 {
      assert Negated(num) == -(num as int);
      UnsignedRoundTrip(Negated(num), sys);
      assert NumberText(num, sys)[1..] == Prefix(sys) + Digits(Negated(num), sys);
    } else {
      UnsignedRoundTrip(num, sys);
    }
  }

  /** Behind the sign, if there is one, and the two characters of the prefix, if the base is not ten, the first
      digit is a zero only for 0, which has no other. */
  lemma NoLeadingZero(num: Dword, sys: Base)
    ensures var s := NumberText(num, sys); var k := (if num < 0 then 1 else 0) + (if sys == 10 then 0 else 2);
      k < |s| && (s[k] == '0' as int <==> num == 0) && (num == 0 ==> |s| == k + 1)
  {
    ParseDigits(if num < 0 then Negated(num) else num, sys);
  }

  // ---------- %f ----------

  const DOT: seq<Byte> := [46]

  /** The four decimals that %f shows, as a number. */
  function Decimals(x: real): (d: nat)
    requires x >= 0.0
    ensures d < 10000
  {
    ((x - x.Floor as real) * 10000.0).Floor
  }

  /** What %f prints properly: the integer part and the decimals are positive dwords. For a zero int_to_string
      leaves its digit unwritten. */
  predicate Printable(x: real) {
    1.0 <= x < 4294967296.0 && Decimals(x) > 0
  }

  /** The text of float_to_string. */
  function FloatText(x: real): seq<Byte>
    requires Printable(x)
  {
    Digits(x.Floor, 10) + DOT + Digits(Decimals(x), 10)
  }

  /** A reader for such texts: digits, a dot, decimals. */
  function ReadFloat(s: seq<Byte>): real {
    var k := DotAt(s);
    if k == |s| then Parse(s, 10) as real
    else Parse(s[..k], 10) as real + Fraction(Parse(s[k + 1..], 10), |s| - k - 1)
  }

  function DotAt(s: seq<Byte>): (k: nat)
    ensures k <= |s|
  {
    if s == [] || s[0] == 46 then 0 else 1 + DotAt(s[1..])
  }

  /** n decimals that read as the number d. */
  function Fraction(d: int, n: nat): real {
    PowerAtLeast(10, n);
    d as real / Power(10, n) as real
  }

  lemma {:induction false} DotAfter(d: seq<Byte>, e: seq<Byte>)
    requires 46 !in d
    ensures DotAt(d + DOT + e) == |d|
  {
    var s := d + DOT + e;
    if d == [] {
      assert s[0] == 46;
    } else {
      assert s[0] == d[0] && s[1..] == d[1..] + DOT + e;
      DotAfter(d[1..], e);
    }
  }

  lemma FloatRead(x: real)
    requires Printable(x)
    ensures ReadFloat(FloatText(x)) == x.Floor as real + Fraction(Decimals(x), |Digits(Decimals(x), 10)|)
  {
    var d, e := Digits(x.Floor, 10), Digits(Decimals(x), 10);
    ParseDigits(x.Floor, 10);
    ParseDigits(Decimals(x), 10);
    assert 46 !in d;
    DotAfter(d, e);
    assert FloatText(x)[..|d|] == d && FloatText(x)[|d| + 1..] == e;
  }

  lemma DecimalDigits(d: nat)
    requires 0 < d < 10000
    ensures |Digits(d, 10)| == if d < 10 then 1 else if d < 100 then 2 else if d < 1000 then 3 else 4
  {
    assert Power(10, 1) == 10 && Power(10, 2) == 100 && Power(10, 3) == 1000 && Power(10, 4) == 10000;
    DigitCount(d, 10, if d < 10 then 1 else if d < 100 then 2 else if d < 1000 then 3 else 4);
  }

  /** The decimals are printed without leading zeros, so what %f prints reads back as the number, cut off after four
      decimals, exactly if the first decimal is not a zero. */
  lemma FloatReadsBackIff(x: real)
    requires Printable(x)
    ensures ReadFloat(FloatText(x)) == x.Floor as real + Fraction(Decimals(x), 4) <==> x - x.Floor as real >= 0.1
  {
    FloatRead(x);
    DecimalDigits(Decimals(x));
    FractionsDiffer(Decimals(x), |Digits(Decimals(x), 10)|);
    FirstDecimal(x);
  }

  lemma FractionsDiffer(d: nat, n: nat)
    requires 0 < d && 1 <= n <= 4
    ensures Fraction(d, n) == Fraction(d, 4) <==> n == 4
  {
    assert Power(10, 1) == 10 && Power(10, 2) == 100 && Power(10, 3) == 1000 && Power(10, 4) == 10000;
  }

  lemma FirstDecimal(x: real)
    requires x >= 0.0
    ensures Decimals(x) >= 1000 <==> x - x.Floor as real >= 0.1
  {
  }

  /** 3.0005 is printed as 3.5. */
  lemma FloatMisread()
    ensures Printable(3.0005) && ReadFloat(FloatText(3.0005)) == 3.5
  {
    assert 3.0005.Floor == 3;
    assert Decimals(3.0005) == 5;
    FloatRead(3.0005);
    DecimalDigits(5);
    assert Power(10, 1) == 10;
  }
}
