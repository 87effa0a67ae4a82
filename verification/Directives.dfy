/** What the directives of `format` mean, letter by letter: the text that each of them makes of a value, said in
    characters and read back by readers that know nothing of how it was made. */
module Directives {
  import opened ByteMemory
  import opened Numbers
  import opened Rendering

  /** A text of the source, as bytes. */
  function Ascii(s: string): (b: seq<Byte>)
    requires forall i :: 0 <= i < |s| ==> s[i] as int < 0x100
    ensures |b| == |s| && forall i :: 0 <= i < |s| ==> b[i] == s[i] as int
  {
    seq(|s|, i requires 0 <= i < |s| => s[i] as int)
  }

  /** The letters that introduce an argument. */
  lemma KnownLetters(d: Byte)
    ensures Known(d) <==> d as char in "lpdhbfcs"
    ensures PERCENT as char == '%'
  {
    assert "lpdhbfcs" == ['l', 'p', 'd', 'h', 'b', 'f', 'c', 's'];
  }

  /** Which of them takes which argument. */
  lemma LetterTakes(d: Byte, v: Value)
    ensures Takes(d, v) <==>
      match v
      case Bool(_) => d as char == 'l'
      case Pointer(p) => d as char == 'p' && 0 <= p < 0x1_0000_0000
      case Number(_) => d as char == 'd' || d as char == 'h' || d as char == 'b'
      case Real(x) => d as char == 'f' && 1.0 <= x < 4294967296.0 && ((x - x.Floor as real) * 10000.0).Floor > 0
      case Character(_) => d as char == 'c'
      case Str(_) => d as char == 's'
  {
  }

  /** %d, %h and %b: a reader finds the number, and base 10, 16 and 2, for every dword. */
  lemma NumberDirectives(n: Dword)
    ensures Takes('d' as int, Number(n)) && ReadNumber(Show('d' as int, Number(n))) == Reading(10, n)
    ensures Takes('h' as int, Number(n)) && ReadNumber(Show('h' as int, Number(n))) == Reading(16, n)
    ensures Takes('b' as int, Number(n)) && ReadNumber(Show('b' as int, Number(n))) == Reading(2, n)
  {
    NumberRoundTrip(n, 10);
    NumberRoundTrip(n, 16);
    NumberRoundTrip(n, 2);
  }

  /** %l. */
  lemma BooleanDirective()
    ensures Takes('l' as int, Bool(true)) && Show('l' as int, Bool(true)) == Ascii("true")
    ensures Takes('l' as int, Bool(false)) && Show('l' as int, Bool(false)) == Ascii("false")
  {
  }

  /** %p: null by name, any other address as a dot and hexadecimal digits without leading zeros. */
  lemma PointerDirective(p: int)
    requires 0 <= p < 0x1_0000_0000
    ensures Takes('p' as int, Pointer(p))
    ensures var s := Show('p' as int, Pointer(p));
      if p == 0 then s == Ascii(".null")
      else |s| > 1 && s[0] as char == '.' && Parse(s[1..], 16) == p && s[1] as char != '0'
  {
    if p != 0 {
      ParseDigits(p, 16);
      assert Show('p' as int, Pointer(p))[1..] == Digits(p, 16);
    }
  }

  /** %f: in front of the first dot the integer part, behind it the four decimals as a number. */
  lemma RealDirective(x: real)
    requires Printable(x)
    ensures Takes('f' as int, Real(x))
    ensures var s := Show('f' as int, Real(x)); var k := DotAt(s);
      && k < |s| && s[k] as char == '.' && '.' as int !in s[..k]
      && Parse(s[..k], 10) == x.Floor && Parse(s[k + 1..], 10) == ((x - x.Floor as real) * 10000.0).Floor
  {
    var d, e := Digits(x.Floor, 10), Digits(Decimals(x), 10);
    ParseDigits(x.Floor, 10);
    ParseDigits(Decimals(x), 10);
    assert 46 !in d;
    DotAfter(d, e);
    assert FloatText(x)[..|d|] == d && FloatText(x)[|d| + 1..] == e;
  }

  /** %c and %s: the character, nothing for NUL; the text. */
  lemma TextDirectives(c: Byte, s: seq<Byte>)
    ensures Takes('c' as int, Character(c)) && Show('c' as int, Character(c)) == if c == 0 then [] else [c]
    ensures Takes('s' as int, Str(s)) && Show('s' as int, Str(s)) == s
  {
  }

  // ---------- templates ----------

  lemma CharacterKept(c: Byte, t: seq<Byte>, v: seq<Value>)
    requires c != '%' as int
    ensures Matches([c] + t, v) <==> Matches(t, v)
    ensures Matches(t, v) ==> Render([c] + t, v) == [c] + Render(t, v)
  {
    assert ([c] + t)[1..] == t;
  }

  /** Text without a percent sign is kept, in front of what the rest of the template becomes. */
  lemma {:induction false} LiteralKept(a: seq<Byte>, b: seq<Byte>, v: seq<Value>)
    requires '%' as int !in a
    ensures Matches(a + b, v) <==> Matches(b, v)
    ensures Matches(b, v) ==> Render(a + b, v) == a + Render(b, v)
  {
    hide Matches, Render;
    if a == [] {
      assert a + b == b;
      if Matches(b, v) { assert a + Render(b, v) == Render(b, v); }
    } else {
      var rest := a[1..] + b;
      assert a + b == [a[0]] + rest;
      CharacterKept(a[0], rest, v);
      LiteralKept(a[1..], b, v);
      if Matches(b, v) { assert [a[0]] + (a[1..] + Render(b, v)) == a + Render(b, v); }
    }
  }

  /** A directive is replaced by the text of the next argument; any other percent sign is kept. */
  lemma PercentRendered(d: Byte, b: seq<Byte>, v: seq<Value>)
    ensures var t := ['%' as int, d] + b;
      if d as char in "lpdhbfcs" then
        && (Matches(t, v) <==> v != [] && Takes(d, v[0]) && Matches(b, v[1..]))
        && (Matches(t, v) ==> Render(t, v) == Show(d, v[0]) + Render(b, v[1..]))
      else
        && (Matches(t, v) <==> Matches([d] + b, v))
        && (Matches(t, v) ==> Render(t, v) == ['%' as int] + Render([d] + b, v))
    ensures Matches(['%' as int], v) && Render(['%' as int], v) == ['%' as int]
  {
    KnownLetters(d);
    var t := ['%' as int, d] + b;
    assert t[1..] == [d] + b && t[2..] == b;
    assert ['%' as int][1..] == [];
  }
}
