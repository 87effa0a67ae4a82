/** What `format` means: a recursive reading of the template. */
module Rendering {
  import opened ByteMemory
  import opened HeapLayout
  import opened Numbers

  datatype Value =
    | Bool(b: bool)
    | Pointer(p: int)
    | Number(n: Dword)
    | Real(x: real)
    | Character(c: Byte)
    | Str(s: seq<Byte>)

  const PERCENT: Byte := 37
  const TRUE: seq<Byte> := [116, 114, 117, 101]
  const FALSE: seq<Byte> := [102, 97, 108, 115, 101]
  const NULL: seq<Byte> := [46, 110, 117, 108, 108]

  /** Does directive letter d take a value like v? */
  predicate Takes(d: Byte, v: Value) {
    || (d == 108 && v.Bool?)                              // l
    || (d == 112 && v.Pointer? && 0 <= v.p < 0x1_0000_0000) // p
    || ((d == 100 || d == 104 || d == 98) && v.Number?)   // d, h, b
    || (d == 102 && v.Real? && Printable(v.x))            // f
    || (d == 99 && v.Character?)                          // c
    || (d == 115 && v.Str?)                               // s
  }

  predicate Known(d: Byte) {
    d == 108 || d == 112 || d == 100 || d == 104 || d == 98 || d == 102 || d == 99 || d == 115
  }

  function PointerText(p: int): seq<Byte>
    requires 0 <= p < 0x1_0000_0000
  {
    if p == 0 then NULL else DOT + Digits(p, 16)
  }

  /** A NUL character shows as nothing. */
  function CharText(c: Byte): seq<Byte> {
    if c == 0 then [] else [c]
  }

  function BaseOf(d: Byte): Base {
    if d == 104 then 16 else if d == 98 then 2 else 10
  }

  /** The text of one value. */
  function Show(d: Byte, v: Value): seq<Byte>
    requires Takes(d, v)
  {
    match v
    case Bool(b) => if b then TRUE else FALSE
    case Pointer(p) => PointerText(p)
    case Number(n) => NumberText(n, BaseOf(d))
    case Real(x) => FloatText(x)
    case Character(c) => CharText(c)
    case Str(s) => s
  }

  /** The template begins with a directive. */
  predicate Directive(t: seq<Byte>) {
    |t| >= 2 && t[0] == PERCENT && Known(t[1])
  }

  /** Each directive of the template has its value. */
  predicate Matches(t: seq<Byte>, v: seq<Value>) {
    if t == [] then true
    else if Directive(t) then v != [] && Takes(t[1], v[0]) && Matches(t[2..], v[1..])
    else Matches(t[1..], v)
  }

  function Render(t: seq<Byte>, v: seq<Value>): seq<Byte>
    requires Matches(t, v)
  {
    if t == [] then []
    else if Directive(t) then Show(t[1], v[0]) + Render(t[2..], v[1..])
    else [t[0]] + Render(t[1..], v)
  }

  predicate NoNul(s: seq<Byte>) {
    forall i :: 0 <= i < |s| ==> s[i] != 0
  }

  // ---------- how much heap it takes ----------

  /** Enough for the temporaries and the result of turning a value into a text. */
  function PieceCost(length: nat): nat {
    4 * Cost(length + 2)
  }

  /** Enough to finish a template of which `t` is left, `pending` characters are seen but not yet copied, and
      `written` are in the result. */
  function Need(t: seq<Byte>, v: seq<Value>, pending: nat, written: nat): nat
    requires Matches(t, v)
    decreases |t|
  {
    var w := written + pending;
    var flush := Cost(pending + 1) + Cost(w + 1);
    if t == [] then flush
    else if t[0] != PERCENT then Need(t[1..], v, pending + 1, written)
    else if Directive(t) then
      var n := |Show(t[1], v[0])|;
      flush + PieceCost(n) + Cost(w + n + 1) + Need(t[2..], v[1..], 0, w + n)
    else flush + Need(t[1..], v, 1, w)
  }

  // ---------- the state of the scan ----------

  /** `text` is in the result, t[printed..j] is pending, and the rest of the template with the values from k on
      completes what the whole template renders to. */
  ghost predicate Progress(t: seq<Byte>, v: seq<Value>, j: int, k: int, printed: int, text: seq<Byte>) {
    && Matches(t, v)
    && 0 <= printed <= j <= |t| && 0 <= k <= |v| && Matches(t[j..], v[k..])
    && text + t[printed..j] + Render(t[j..], v[k..]) == Render(t, v)
  }

  ghost function ToGo(t: seq<Byte>, v: seq<Value>, j: int, k: int, printed: int, text: seq<Byte>): nat
    requires 0 <= printed <= j <= |t| && 0 <= k <= |v| && Matches(t[j..], v[k..])
  {
    Need(t[j..], v[k..], j - printed, |text|)
  }

  lemma ScanLiteral(t: seq<Byte>, v: seq<Value>, j: int, k: int, printed: int, text: seq<Byte>)
    requires Progress(t, v, j, k, printed, text) && j < |t| && t[j] != PERCENT
    ensures Progress(t, v, j + 1, k, printed, text)
    ensures ToGo(t, v, j + 1, k, printed, text) == ToGo(t, v, j, k, printed, text)
  {
  }

  /** What is left of a template behind its next one or two characters. */
  lemma Behind(t: seq<Byte>, v: seq<Value>, j: int, k: int)
    requires 0 <= j < |t| && 0 <= k <= |v|
    ensures t[j..][0] == t[j] && t[j..][1..] == t[j + 1..]
    ensures j + 1 < |t| ==> t[j..][1] == t[j + 1] && t[j..][2..] == t[j + 2..]
    ensures k < |v| ==> v[k..][0] == v[k] && v[k..][1..] == v[k + 1..]
  {
  }

  lemma ScanVerbatim(t: seq<Byte>, v: seq<Value>, j: int, k: int, printed: int, text: seq<Byte>, text': seq<Byte>)
    requires Progress(t, v, j, k, printed, text) && j < |t| && t[j] == PERCENT && !(j + 1 < |t| && Known(t[j + 1]))
    requires text' == text + t[printed..j]
    ensures Progress(t, v, j + 1, k, j, text')
    ensures ToGo(t, v, j, k, printed, text) ==
            Cost(j - printed + 1) + Cost(|text'| + 1) + ToGo(t, v, j + 1, k, j, text')
  {
    Behind(t, v, j, k);
    assert t[j..j + 1] == [t[j]];
    assert text' + [t[j]] + Render(t[j + 1..], v[k..]) == text' + ([t[j]] + Render(t[j + 1..], v[k..]));
  }

  lemma ScanDirective(t: seq<Byte>, v: seq<Value>, j: int, k: int, printed: int, text: seq<Byte>, text': seq<Byte>)
    requires Progress(t, v, j, k, printed, text) && j + 1 < |t| && t[j] == PERCENT && Known(t[j + 1])
    requires text' == text + t[printed..j]
    ensures k < |v| && Takes(t[j + 1], v[k])
    ensures var s := Show(t[j + 1], v[k]);
      && Progress(t, v, j + 2, k + 1, j + 2, text' + s)
      && ToGo(t, v, j, k, printed, text) ==
         Cost(j - printed + 1) + Cost(|text'| + 1) + PieceCost(|s|) + Cost(|text' + s| + 1)
         + ToGo(t, v, j + 2, k + 1, j + 2, text' + s)
  {
    Behind(t, v, j, k);
    var s, rest := Show(t[j + 1], v[k]), Render(t[j + 2..], v[k + 1..]);
    assert t[j + 2..j + 2] == [];
    assert text' + s + [] + rest == text' + (s + rest);
  }

  /** A known directive has an argument, and what is pending lies before it. */
  lemma ArgumentLeft(t: seq<Byte>, v: seq<Value>, j: int, k: int, printed: int, text: seq<Byte>)
    requires Progress(t, v, j, k, printed, text) && j + 1 < |t| && t[j] == PERCENT && Known(t[j + 1])
    ensures 0 <= printed <= j && 0 <= k < |v| && Takes(t[j + 1], v[k])
  {
  }

  lemma ScanEnd(t: seq<Byte>, v: seq<Value>, k: int, printed: int, text: seq<Byte>)
    requires Progress(t, v, |t|, k, printed, text)
    ensures text + t[printed..] == Render(t, v)
    ensures ToGo(t, v, |t|, k, printed, text) == Cost(|t| - printed + 1) + Cost(|Render(t, v)| + 1)
  {
  }

  lemma ScanStart(t: seq<Byte>, v: seq<Value>)
    requires Matches(t, v)
    ensures Progress(t, v, 0, 0, 0, []) && ToGo(t, v, 0, 0, 0, []) == Need(t, v, 0, 0)
  {
  }
}
