/** format.c on the heap: it renders as `Render` says and leaves one new block behind, the result. */
module Format {
  import opened ByteMemory
  import opened HeapLayout
  import opened HeapLinks
  import opened Numbers
  import opened Rendering
  import opened Strings
  import H = Heap

  /** The heap is small enough for `int` lengths. */
  ghost predicate Ready(h: H.Heap)
    reads h
  {
    h.Valid() && h.hi - h.lo < 0x7fff_0000
  }

  /** A live block that holds a text. */
  ghost predicate Owns(now: H.Image, b: Block, s: seq<Byte>) {
    b in now.live && Holds(now.mem, b.addr, s) && |s| < b.size
  }

  /** A block of n bytes may be asked for: the first one has to fit, the others may be refused. */
  ghost predicate Room(h: H.Heap, n: int)
    reads h
  {
    Allocatable(h.blocks, h.lo, h.hi, n)
  }

  lemma RoomForLess(h: H.Heap, n: int, m: int)
    requires Room(h, n) && 0 <= m <= n
    ensures Room(h, m)
  {
  }

  lemma OwnedIsGiven(h: H.Heap, b: Block, s: seq<Byte>)
    requires Ready(h) && Owns(h.Now(), b, s)
    ensures Given(h.Now(), At(b.addr), s) && |s| + 1 < 0x7fff_0000 && h.blocks != []
  {
  }

  /** Two live texts are short together. */
  lemma TextsFit(h: H.Heap, b: Block, s: seq<Byte>, c: Block, t: seq<Byte>)
    requires Ready(h) && Owns(h.Now(), b, s) && Owns(h.Now(), c, t) && b != c
    ensures |s| + |t| + 1 < 0x7fff_0000
  {
    var i :| 0 <= i < |h.blocks| && h.blocks[i] == b;
    var j :| 0 <= j < |h.blocks| && h.blocks[j] == c;
    assert if i < j then b.addr + b.size <= c.addr else c.addr + c.size <= b.addr;
  }

  /** unalloc after the result has been built. */
  lemma FreedAfter(before: H.Image, built: H.Image, now: H.Image, gone: set<Block>, b: Block, r: int, size: int,
                   s: seq<Byte>)
    requires Built(before, built, gone, r, size, s) && Kept(built.mem, now.mem, built.live, built.header, built.hi)
    requires now == H.Image(now.mem, built.live - {b}, built.header, built.hi) && b in before.live
    ensures Built(before, now, gone + {b}, r, size, s)
  {
  }

  /** unalloc of a part that the result, already built, has been copied from. */
  method FreePart(h: H.Heap, a: int, ghost b: Block, ghost before: H.Image, ghost gone: set<Block>,
                  ghost gone': set<Block>,
                  ghost r: int, ghost size: int, ghost s: seq<Byte>)
    requires h.Valid() && b in before.live && b !in gone && b.addr == a && gone' == gone + {b}
    requires Built(before, h.Now(), gone, r, size, s)
    modifies h
    ensures h.Valid() && h.Tail() >= old(h.Tail()) && Built(before, h.Now(), gone', r, size, s)
  {
    hide Linked;
    ghost var built := h.Now();
    assert b in built.live;
    h.Release(a, b);
    FreedAfter(before, built, h.Now(), gone, b, r, size, s);
  }

  /** concatenate, then unalloc of one of the two texts. */
  method JoinAndFree(h: H.Heap, t1: Text, t2: Text, a: int, ghost b: Block, ghost s1: seq<Byte>, ghost s2: seq<Byte>,
                     ghost u: seq<Byte>) returns (r: int)
    requires h.Valid() && Given(h.Now(), t1, s1) && Given(h.Now(), t2, s2) && u == s1 + s2 && Room(h, |u| + 1)
    requires b in h.Now().live && b.addr == a
    modifies h
    ensures h.Valid() && Paid(old(h.Tail()), h.Tail(), r, Cost(|u| + 1))
    ensures r != 0 ==> Built(old(h.Now()), h.Now(), {b}, r, |u| + 1, u)
  {
    hide Linked, Given;
    ghost var before := h.Now();
    r := Concatenate(h, t1, t2, s1, s2, u);
    if r != 0 {
      FreePart(h, a, b, before, {}, {b}, r, |u| + 1, u);
    }
  }

  method FreeBoth(h: H.Heap, a1: int, a2: int, ghost b1: Block, ghost b2: Block, ghost gone: set<Block>,
                  ghost before: H.Image, ghost r: int, ghost size: int, ghost s: seq<Byte>)
    requires h.Valid() && b1 in before.live && b2 in before.live && b1 != b2 && b1.addr == a1 && b2.addr == a2
    requires Built(before, h.Now(), {}, r, size, s) && gone == {b1, b2}
    modifies h
    ensures h.Valid() && h.Tail() >= old(h.Tail()) && Built(before, h.Now(), gone, r, size, s)
  {
    hide Linked;
    FreePart(h, a1, b1, before, {}, {b1}, r, size, s);
    FreePart(h, a2, b2, before, {b1}, gone, r, size, s);
  }

  /** concatenate of two live blocks. */
  method ConcatenateOwned(h: H.Heap, a1: int, a2: int, ghost b1: Block, ghost b2: Block, ghost s1: seq<Byte>,
                          ghost s2: seq<Byte>, ghost u: seq<Byte>) returns (r: int)
    requires Ready(h) && Owns(h.Now(), b1, s1) && Owns(h.Now(), b2, s2) && b1 != b2 && u == s1 + s2
    requires b1.addr == a1 && b2.addr == a2
    modifies h
    ensures h.Valid() && Paid(old(h.Tail()), h.Tail(), r, Cost(|u| + 1))
    ensures r != 0 ==> Built(old(h.Now()), h.Now(), {}, r, |u| + 1, u)
  {
    hide Linked;
    OwnedIsGiven(h, b1, s1);
    OwnedIsGiven(h, b2, s2);
    TextsFit(h, b1, s1, b2, s2);
    r := Concatenate(h, At(a1), At(a2), s1, s2, u);
  }

  /** free_concat: both arguments are live blocks, and both are freed. */
  method FreeConcat(h: H.Heap, a1: int, a2: int, ghost b1: Block, ghost b2: Block, ghost s1: seq<Byte>,
                    ghost s2: seq<Byte>, ghost u: seq<Byte>) returns (r: int)
    requires Ready(h) && Owns(h.Now(), b1, s1) && Owns(h.Now(), b2, s2) && b1 != b2 && u == s1 + s2
    requires b1.addr == a1 && b2.addr == a2
    modifies h
    ensures h.Valid() && Paid(old(h.Tail()), h.Tail(), r, Cost(|u| + 1))
    ensures r != 0 ==> Built(old(h.Now()), h.Now(), {b1, b2}, r, |u| + 1, u)
  {
    hide Linked;
    ghost var before := h.Now();
    r := ConcatenateOwned(h, a1, a2, b1, b2, s1, s2, u);
    if r != 0 {
      FreeBoth(h, a1, a2, b1, b2, {b1, b2}, before, r, |u| + 1, u);
    }
  }

  /** const_to_string. */
  method ConstToString(h: H.Heap, t: Text, ghost s: seq<Byte>) returns (r: int)
    requires h.Valid() && Given(h.Now(), t, s) && Room(h, |s| + 1)
    modifies h
    ensures h.Valid() && Paid(old(h.Tail()), h.Tail(), r, Cost(|s| + 1))
    ensures r != 0 ==> Built(old(h.Now()), h.Now(), {}, r, |s| + 1, s)
  {
    hide Linked;
    var n := Len(h, t, s);
    assert s == s[0..n];
    r := SubstringMid(h, t, 0, n, s, s);
  }

  method PutChar(h: H.Heap, r: int, c: Byte, ghost p: int)
    requires h.Valid() && 0 <= p < |h.blocks| && h.blocks[p] == Block(r, 2)
    modifies h`mem
    ensures h.Valid() && Same(old(h.mem), h.mem, 0, r) && Same(old(h.mem), h.mem, r + 2, |h.mem|)
    ensures Holds(h.mem, r, CharText(c))
  {
    h.SetByte(r, c, p);
    h.SetByte(r + 1, 0, p);
  }

  /** char_to_string: a NUL makes the empty text, in a block of two bytes all the same. */
  method CharToString(h: H.Heap, c: Byte, ghost s: seq<Byte>) returns (r: int)
    requires h.Valid() && Room(h, 2) && s == CharText(c)
    modifies h
    ensures h.Valid() && Paid(old(h.Tail()), h.Tail(), r, Cost(2))
    ensures r != 0 ==> Built(old(h.Now()), h.Now(), {}, r, 2, s)
  {
    hide Linked;
    ghost var before, blocks := h.Now(), h.blocks;
    ghost var p;
    r, p := h.Reserve(2);
    if r != 0 {
      ghost var m := h.mem;
      PutChar(h, r, c, p);
      FilledIsBuilt(before, m, h.Now(), blocks, h.blocks, h.lo, p, Block(r, 2), s);
    }
  }

  /** boolean_to_string. */
  method BooleanToString(h: H.Heap, b: bool, ghost s: seq<Byte>) returns (r: int)
    requires h.Valid() && Room(h, |s| + 1) && s == if b then TRUE else FALSE
    modifies h
    ensures h.Valid() && Paid(old(h.Tail()), h.Tail(), r, Cost(|s| + 1))
    ensures r != 0 ==> Built(old(h.Now()), h.Now(), {}, r, |s| + 1, s)
  {
    hide Linked;
    r := ConstToString(h, Constant(if b then TRUE else FALSE), s);
  }

  // ---------- numbers ----------

  /** The first loop of int_to_string: how many digits. The 64-bit multiplier stays below 2^36. */
  method CountDigits(b: int, sys: Base) returns (power: nat)
    requires 0 <= b < 0x1_0000_0000
    ensures power == |Digits(b, sys)|
  {
    var mult: int := sys;
    power := 1;
    assert Power(sys, 1) == sys * Power(sys, 0);
    while mult <= b
      invariant power >= 1 && mult == Power(sys, power) && (power == 1 || Power(sys, power - 1) <= b)
      invariant mult == sys || mult <= b * sys
      invariant mult < 0x10_0000_0000
      decreases b - mult
    {
      mult := mult * sys;
      power := power + 1;
    }
    DigitCount(b, sys, power);
  }

  /** The digits still to be written when `integer` is left. */
  function Rest(integer: nat, sys: Base): seq<Byte> {
    if integer == 0 then [] else Digits(integer, sys)
  }

  /** `integer` is what is left to write of `all`, into its first i cells. */
  ghost predicate Left(integer: nat, sys: Base, all: seq<Byte>, i: int) {
    Rest(integer, sys) <= all && |Rest(integer, sys)| == i
  }

  /** The body of the second loop of int_to_string. */
  method NextDigit(integer: nat, sys: Base, ghost all: seq<Byte>, ghost i: int) returns (c: Byte, quotient: nat)
    requires integer > 0 && Left(integer, sys, all, i)
    ensures quotient < integer && 0 < i <= |all| && c == all[i - 1] && Left(quotient, sys, all, i - 1)
  {
    c, quotient := AtomToChar(integer % sys, sys), integer / sys;
    DivMod(integer, sys);
    assert Rest(integer, sys) == Rest(quotient, sys) + [c];
  }

  /** Of the cells r..r+power those from i on hold the characters of `all`, and behind them is the NUL; no byte
      outside the block has changed since m0. */
  ghost predicate Filled(m0: seq<Byte>, m: seq<Byte>, r: int, power: nat, all: seq<Byte>, i: int) {
    && Same(m0, m, 0, r) && Same(m0, m, r + power + 1, |m0|)
    && |all| == power && 0 <= r && 0 <= i && r + power < |m| && m[r + power] == 0
    && forall j :: i <= j < power ==> m[r + j] == all[j]
  }

  lemma OneMoreFilled(m0: seq<Byte>, m: seq<Byte>, r: int, power: nat, all: seq<Byte>, i: int)
    requires Filled(m0, m, r, power, all, i + 1) && 0 <= i < power
    ensures Filled(m0, m[r + i := all[i]], r, power, all, i)
  {
  }

  /** The second loop of int_to_string fills every cell, from the last to the first; for 0 it fills none. */
  method FillDigits(h: H.Heap, b: nat, sys: Base, r: int, power: nat, ghost p: int, ghost all: seq<Byte>)
    requires h.Valid() && 0 <= p < |h.blocks| && h.blocks[p] == Block(r, power + 1)
    requires power == |all| && 0 <= r && r + power < |h.mem|
    requires if b == 0 then forall j :: 0 <= j < power ==> all[j] == h.mem[r + j] else Left(b, sys, all, power)
    modifies h`mem
    ensures h.Valid() && Filled(old(h.mem), h.mem, r, power, all, 0)
  {
    hide Linked;
    h.SetByte(r + power, 0, p);
    var integer := b;
    var i := power;
    assert Filled(old(h.mem), h.mem, r, power, all, if b == 0 then 0 else i);
    while integer != 0
      invariant 0 <= i <= power && h.Valid() && (b == 0 ==> integer == 0)
      invariant b != 0 ==> Left(integer, sys, all, i)
      invariant Filled(old(h.mem), h.mem, r, power, all, if b == 0 then 0 else i)
      decreases integer
    {
      var c;
      c, integer := NextDigit(integer, sys, all, i);
      i := i - 1;
      OneMoreFilled(old(h.mem), h.mem, r, power, all, i);
      h.SetByte(r + i, c, p);
    }
  }

  /** What int_to_string leaves at r: the digits of a positive number; for 0 whatever the byte at r has been before. */
  function IntText(m: seq<Byte>, r: int, b: nat, sys: Base): seq<Byte> {
    if b != 0 then Digits(b, sys) else if 0 <= r < |m| then CharText(m[r]) else []
  }

  /** The bytes that are in the cells of int_to_string when it is done. */
  ghost function IntCells(m: seq<Byte>, r: int, b: nat, sys: Base): seq<Byte> {
    if b != 0 then Digits(b, sys) else if 0 <= r < |m| then [m[r]] else [0]
  }

  lemma CellsHold(m0: seq<Byte>, m: seq<Byte>, r: int, b: nat, sys: Base, power: nat)
    requires power == |Digits(b, sys)| && NoNul(Digits(b, sys)) && 0 <= r < |m0| && r + power < |m| && m[r + power] == 0
    requires forall j :: 0 <= j < power ==> m[r + j] == IntCells(m0, r, b, sys)[j]
    ensures Holds(m, r, IntText(m0, r, b, sys)) && |IntText(m0, r, b, sys)| <= power
  {
    var s := IntText(m0, r, b, sys);
    forall i | 0 <= i < |s|
      ensures s[i] != 0 && m[r + i] == s[i]
    {
      assert m[r + i] == IntCells(m0, r, b, sys)[i];
    }
    if b == 0 {
      assert m[r + 0] == IntCells(m0, r, b, sys)[0];
    }
  }

  /** Both loops of int_to_string, in a block that has just been allocated. */
  method WriteDigits(h: H.Heap, b: nat, sys: Base, r: int, power: nat, ghost p: int, ghost m0: seq<Byte>)
    requires h.Valid() && 0 <= p < |h.blocks| && h.blocks[p] == Block(r, power + 1) && Same(m0, h.mem, r, r + power + 1)
    requires power == |Digits(b, sys)| && NoNul(Digits(b, sys))
    modifies h`mem
    ensures h.Valid() && Same(old(h.mem), h.mem, 0, r) && Same(old(h.mem), h.mem, r + power + 1, |h.mem|)
    ensures Holds(h.mem, r, IntText(m0, r, b, sys)) && |IntText(m0, r, b, sys)| <= power
  {
    FillDigits(h, b, sys, r, power, p, IntCells(m0, r, b, sys));
    CellsHold(m0, h.mem, r, b, sys, power);
  }

  /** int_to_string, for every u_dword. For 0 the digit is not written: what shows is the byte that was there. */
  method IntToString(h: H.Heap, b: int, sys: Base) returns (r: int, ghost s: seq<Byte>)
    requires h.Valid() && 0 <= b < 0x1_0000_0000 && Room(h, |Digits(b, sys)| + 1)
    modifies h
    ensures h.Valid() && Paid(old(h.Tail()), h.Tail(), r, Cost(|Digits(b, sys)| + 1))
    ensures s == IntText(old(h.mem), r, b, sys)
    ensures r != 0 ==> Built(old(h.Now()), h.Now(), {}, r, |Digits(b, sys)| + 1, s)
  {
    hide Linked;
    var power := CountDigits(b, sys);
    DigitsShort(b, sys);
    ghost var before, blocks := h.Now(), h.blocks;
    ghost var p;
    r, p := h.Reserve(power + 1);
    s := IntText(before.mem, r, b, sys);
    if r != 0 {
      ghost var m := h.mem;
      WriteDigits(h, b, sys, r, power, p, before.mem);
      FilledIsBuilt(before, m, h.Now(), blocks, h.blocks, h.lo, p, Block(r, power + 1), s);
    }
  }

  /** int_to_string of a positive number. */
  method PositiveToString(h: H.Heap, b: int, sys: Base, ghost s: seq<Byte>) returns (r: int)
    requires h.Valid() && 0 < b < 0x1_0000_0000 && s == Digits(b, sys) && Room(h, |s| + 1)
    modifies h
    ensures h.Valid() && Paid(old(h.Tail()), h.Tail(), r, Cost(|s| + 1))
    ensures r != 0 ==> Built(old(h.Now()), h.Now(), {}, r, |s| + 1, s)
  {
    hide Linked;
    ghost var text;
    r, text := IntToString(h, b, sys);
    assert text == s;
  }

  lemma HalfIsMore(n: nat, sys: Base)
    requires n >= sys
    ensures n / sys / 2 + 2 <= n / 2 + 1
  {
  }

  lemma {:induction false} DigitsShort(n: nat, sys: Base)
    ensures |Digits(n, sys)| <= n / 2 + 1
    ensures NoNul(Digits(n, sys))
  {
    if n >= sys {
      DivMod(n, sys);
      HalfIsMore(n, sys);
      DigitsShort(n / sys, sys);
    }
  }

  /** A text built since `before` and a constant can be joined. */
  lemma JoinReady(h: H.Heap, chars: seq<Byte>, b: Block, t: seq<Byte>, before: H.Image, n: nat)
    requires Ready(h) && NoNul(chars) && |chars| <= 2 && n == |chars| + |t|
    requires Built(before, h.Now(), {}, b.addr, b.size, t)
    ensures Given(h.Now(), Constant(chars), chars) && Given(h.Now(), At(b.addr), t) && b in h.Now().live
    ensures Room(h, n + 1)
  {
    OwnedIsGiven(h, b, t);
  }

  /** Put a prefix before a text built since `before` and free the shorter text. */
  method AddPrefix(h: H.Heap, chars: seq<Byte>, a: int, ghost size: int, ghost t: seq<Byte>, ghost before: H.Image,
                   ghost s: seq<Byte>) returns (r: int)
    requires Ready(h) && NoNul(chars) && |chars| <= 2 && s == chars + t && Built(before, h.Now(), {}, a, size, t)
    modifies h
    ensures h.Valid() && Paid(old(h.Tail()), h.Tail(), r, Cost(|s| + 1))
    ensures r != 0 ==> Built(before, h.Now(), {}, r, |s| + 1, s)
  {
    hide Linked;
    ghost var b, now := Block(a, size), h.Now();
    JoinReady(h, chars, b, t, before, |s|);
    r := JoinAndFree(h, Constant(chars), At(a), a, b, chars, t, s);
    if r != 0 {
      TemporaryFreed(before, now, h.Now(), b, t, r, |s| + 1, s);
    }
  }

  /** The same behind the text. */
  method AddSuffix(h: H.Heap, a: int, chars: seq<Byte>, ghost size: int, ghost t: seq<Byte>, ghost before: H.Image,
                   ghost s: seq<Byte>) returns (r: int)
    requires Ready(h) && NoNul(chars) && |chars| <= 2 && s == t + chars && Built(before, h.Now(), {}, a, size, t)
    modifies h
    ensures h.Valid() && Paid(old(h.Tail()), h.Tail(), r, Cost(|s| + 1))
    ensures r != 0 ==> Built(before, h.Now(), {}, r, |s| + 1, s)
  {
    hide Linked;
    ghost var b, now := Block(a, size), h.Now();
    JoinReady(h, chars, b, t, before, |s|);
    r := JoinAndFree(h, At(a), Constant(chars), a, b, t, chars, s);
    if r != 0 {
      TemporaryFreed(before, now, h.Now(), b, t, r, |s| + 1, s);
    }
  }

  /** pointer_to_string. */
  method PointerToString(h: H.Heap, ptr: int, ghost s: seq<Byte>) returns (r: int)
    requires Ready(h) && 0 <= ptr < 0x1_0000_0000 && s == PointerText(ptr) && Room(h, |s| + 1)
    modifies h
    ensures h.Valid() && Paid(old(h.Tail()), h.Tail(), r, PieceCost(|s|))
    ensures r != 0 ==> Built(old(h.Now()), h.Now(), {}, r, |s| + 1, s)
  {
    hide Linked;
    if ptr == 0 {
      r := ConstToString(h, Constant(NULL), s);
    } else {
      ghost var d, before := Digits(ptr, 16), h.Now();
      RoomForLess(h, |s| + 1, |d| + 1);
      var integer := PositiveToString(h, ptr, 16, d);
      if integer == 0 { return 0; }
      r := AddPrefix(h, DOT, integer, |d| + 1, d, before, s);
    }
  }

  /** number_to_string up to line 103. */
  method BareNumber(h: H.Heap, num: Dword, sys: Base, ghost d: seq<Byte>) returns (r: int)
    requires h.Valid() && d == Bare(num, sys) && Room(h, |d| + 1)
    modifies h
    ensures h.Valid() && Paid(old(h.Tail()), h.Tail(), r, Cost(|d| + 1))
    ensures r != 0 ==> Built(old(h.Now()), h.Now(), {}, r, |d| + 1, d)
  {
    hide Linked;
    if num == 0 {
      assert d == CharText(AtomToChar(0, sys));
      r := CharToString(h, AtomToChar(0, sys), d);
    } else {
      r := PositiveToString(h, if num < 0 then Negated(num) else num, sys, d);
    }
  }

  /** The switch over the base, lines 105 to 124. */
  method WithBase(h: H.Heap, sys: Base, number: int, ghost d: seq<Byte>, ghost before: H.Image, ghost t: seq<Byte>)
      returns (r: int)
    requires Ready(h) && t == Prefix(sys) + d && Built(before, h.Now(), {}, number, |d| + 1, d) && number != 0
    modifies h
    ensures h.Valid() && Paid(old(h.Tail()), h.Tail(), r, Cost(|t| + 1))
    ensures r != 0 ==> Built(before, h.Now(), {}, r, |t| + 1, t)
  {
    hide Linked;
    if sys == 10 {
      assert t == d;
      r := number;
    } else {
      r := AddPrefix(h, Prefix(sys), number, |d| + 1, d, before, t);
    }
  }

  /** The sign, lines 126 to 130. */
  method WithSign(h: H.Heap, negative: bool, number: int, ghost t: seq<Byte>, ghost before: H.Image, ghost s: seq<Byte>)
      returns (r: int)
    requires Ready(h) && s == if negative then MINUS + t else t
    requires Built(before, h.Now(), {}, number, |t| + 1, t) && number != 0
    modifies h
    ensures h.Valid() && Paid(old(h.Tail()), h.Tail(), r, Cost(|s| + 1))
    ensures r != 0 ==> Built(before, h.Now(), {}, r, |s| + 1, s)
  {
    hide Linked;
    if negative {
      r := AddPrefix(h, MINUS, number, |t| + 1, t, before, s);
    } else {
      r := number;
    }
  }

  /** number_to_string. */
  method NumberToString(h: H.Heap, num: Dword, sys: Base, ghost s: seq<Byte>) returns (r: int)
    requires Ready(h) && s == NumberText(num, sys) && Room(h, |s| + 1)
    modifies h
    ensures h.Valid() && Paid(old(h.Tail()), h.Tail(), r, PieceCost(|s|))
    ensures r != 0 ==> Built(old(h.Now()), h.Now(), {}, r, |s| + 1, s)
  {
    hide Linked;
    ghost var d := Bare(num, sys);
    ghost var t := Prefix(sys) + d;
    assert |d| <= |t| <= |s|;
    ghost var before := h.Now();
    RoomForLess(h, |s| + 1, |d| + 1);
    r := BareNumber(h, num, sys, d);
    if r == 0 { return; }
    r := WithBase(h, sys, r, d, before, t);
    if r == 0 { return; }
    r := WithSign(h, num < 0, r, t, before, s);
  }

  // ---------- %f ----------

  /** The loop of float_to_string over the decimals, on exact numbers. */
  method ShiftDecimals(x: real) returns (part: nat)
    requires x >= 0.0
    ensures part == Decimals(x)
  {
    var floating := x - x.Floor as real;
    var scale := 1.0;
    for i := 0 to 4
      invariant scale == (if i == 0 then 1.0 else if i == 1 then 10.0 else if i == 2 then 100.0
        else if i == 3 then 1000.0 else 10000.0)
      invariant floating == (x - x.Floor as real) * scale
    {
      floating, scale := floating * 10.0, scale * 10.0;
    }
    part := floating.Floor;
  }

  /** The result so far and a new piece are both live texts. */
  lemma BothOwned(i0: H.Image, i1: H.Image, i2: H.Image, a: Block, t: seq<Byte>, b: Block, s: seq<Byte>)
    requires Built(i0, i1, {}, a.addr, a.size, t) && Built(i1, i2, {}, b.addr, b.size, s)
    ensures Owns(i2, a, t) && Owns(i2, b, s) && a != b
  {
  }

  lemma Extended(i0: H.Image, i1: H.Image, i2: H.Image, i3: H.Image, a: Block, t: seq<Byte>, b: Block, s: seq<Byte>,
                 r: int, size: int, u: seq<Byte>)
    requires Built(i0, i1, {}, a.addr, a.size, t) && Built(i1, i2, {}, b.addr, b.size, s)
    requires Built(i2, i3, {a, b}, r, size, u)
    ensures Built(i0, i3, {}, r, size, u)
  {
  }

  /** Lines 76 to 79: the parts are joined and freed, the second one first. */
  method JoinParts(h: H.Heap, full: int, part: int, ghost b1: Block, ghost b2: Block, ghost s1: seq<Byte>,
                   ghost s2: seq<Byte>, ghost u: seq<Byte>) returns (r: int)
    requires Ready(h) && Owns(h.Now(), b1, s1) && Owns(h.Now(), b2, s2) && b1 != b2 && u == s1 + s2
    requires b1.addr == full && b2.addr == part
    modifies h
    ensures h.Valid() && Paid(old(h.Tail()), h.Tail(), r, Cost(|u| + 1))
    ensures r != 0 ==> Built(old(h.Now()), h.Now(), {b1, b2}, r, |u| + 1, u)
  {
    hide Linked;
    ghost var before := h.Now();
    r := ConcatenateOwned(h, full, part, b1, b2, s1, s2, u);
    if r != 0 {
      FreeBoth(h, part, full, b2, b1, {b1, b2}, before, r, |u| + 1, u);
    }
  }

  /** Lines 69 to 71: the integer part and the dot. */
  method WholePart(h: H.Heap, whole: nat, ghost d: seq<Byte>, ghost f: seq<Byte>) returns (r: int)
    requires Ready(h) && 0 < whole < 0x1_0000_0000 && d == Digits(whole, 10) && f == d + DOT && Room(h, |d| + 1)
    modifies h
    ensures h.Valid() && Paid(old(h.Tail()), h.Tail(), r, Cost(|d| + 1) + Cost(|f| + 1))
    ensures r != 0 ==> Built(old(h.Now()), h.Now(), {}, r, |f| + 1, f)
  {
    hide Linked;
    ghost var before := h.Now();
    var integer := PositiveToString(h, whole, 10, d);
    if integer == 0 { return 0; }
    r := AddSuffix(h, integer, DOT, |d| + 1, d, before, f);
  }

  /** Lines 73 to 79: the decimals behind it. */
  method DecimalPart(h: H.Heap, full: int, part: nat, ghost before: H.Image, ghost f: seq<Byte>, ghost e: seq<Byte>,
                     ghost s: seq<Byte>) returns (r: int)
    requires Ready(h) && 0 < part < 0x1_0000_0000 && e == Digits(part, 10) && s == f + e
    requires Built(before, h.Now(), {}, full, |f| + 1, f)
    modifies h
    ensures h.Valid() && Paid(old(h.Tail()), h.Tail(), r, Cost(|e| + 1) + Cost(|s| + 1))
    ensures r != 0 ==> Built(before, h.Now(), {}, r, |s| + 1, s)
  {
    hide Linked;
    ghost var i1 := h.Now();
    InUse(h, before, full, |f| + 1, f);
    DigitsShort(part, 10);
    var p := PositiveToString(h, part, 10, e);
    if p == 0 { return 0; }
    r := AppendPart(h, full, p, before, i1, f, e, s);
  }

  method AppendPart(h: H.Heap, full: int, part: int, ghost i0: H.Image, ghost i1: H.Image, ghost f: seq<Byte>,
                    ghost e: seq<Byte>, ghost s: seq<Byte>) returns (r: int)
    requires Ready(h) && s == f + e
    requires Built(i0, i1, {}, full, |f| + 1, f) && Built(i1, h.Now(), {}, part, |e| + 1, e)
    modifies h
    ensures h.Valid() && Paid(old(h.Tail()), h.Tail(), r, Cost(|s| + 1))
    ensures r != 0 ==> Built(i0, h.Now(), {}, r, |s| + 1, s)
  {
    hide Linked;
    ghost var i2, b1, b2 := h.Now(), Block(full, |f| + 1), Block(part, |e| + 1);
    BothOwned(i0, i1, i2, b1, f, b2, e);
    r := JoinParts(h, full, part, b1, b2, f, e, s);
    if r != 0 {
      Extended(i0, i1, i2, h.Now(), b1, f, b2, e, r, |s| + 1, s);
    }
  }

  /** float_to_string with four decimals, over exact numbers, where both parts are positive. */
  method FloatToString(h: H.Heap, x: real, ghost s: seq<Byte>) returns (r: int)
    requires Ready(h) && Printable(x) && s == FloatText(x) && Room(h, |s| + 1)
    modifies h
    ensures h.Valid() && Paid(old(h.Tail()), h.Tail(), r, PieceCost(|s|))
    ensures r != 0 ==> Built(old(h.Now()), h.Now(), {}, r, |s| + 1, s)
  {
    hide Linked;
    ghost var d, e := Digits(x.Floor, 10), Digits(Decimals(x), 10);
    ghost var f := d + DOT;
    assert |s| == |f| + |e| && |f| == |d| + 1;
    ghost var before := h.Now();
    RoomForLess(h, |s| + 1, |d| + 1);
    var full := WholePart(h, x.Floor, d, f);
    if full == 0 { return 0; }
    var part := ShiftDecimals(x);
    r := DecimalPart(h, full, part, before, f, e, s);
  }

  // ---------- format ----------

  /** The variadic arguments, as the template's directives read them. */
  datatype Argument =
    | BoolArg(b: bool)
    | PointerArg(p: int)
    | NumberArg(n: Dword)
    | RealArg(x: real)
    | CharArg(c: Byte)
    | StringArg(t: Text)

  /** An argument and what it stands for; a string argument is a constant or a text that the heap leaves alone. */
  ghost predicate Denotes(now: H.Image, a: Argument, v: Value) {
    match v
    case Bool(b) => a == BoolArg(b)
    case Pointer(p) => a == PointerArg(p)
    case Number(n) => a == NumberArg(n)
    case Real(x) => a == RealArg(x)
    case Character(c) => a == CharArg(c)
    case Str(s) => a.StringArg? && Given(now, a.t, s)
  }

  /** The switch of format: the text of one argument, in a heap that is in use. */
  method Piece(h: H.Heap, d: Byte, a: Argument, ghost v: Value, ghost s: seq<Byte>) returns (r: int, ghost size: int)
    requires Ready(h) && h.blocks != [] && Takes(d, v) && s == Show(d, v) && Denotes(h.Now(), a, v)
    modifies h
    ensures h.Valid() && Paid(old(h.Tail()), h.Tail(), r, PieceCost(|s|))
    ensures r != 0 ==> Built(old(h.Now()), h.Now(), {}, r, size, s)
  {
    hide Linked;
    ShowShort(d, v);
    size := |s| + 1;
    match a
    case BoolArg(b) => r := BooleanToString(h, b, s);
    case PointerArg(p) => r := PointerToString(h, p, s);
    case NumberArg(n) => r := NumberToString(h, n, BaseOf(d), s);
    case RealArg(x) => r := FloatToString(h, x, s);
    case CharArg(c) =>
      size := 2;
      r := CharToString(h, c, s);
    case StringArg(t) => r := ConstToString(h, t, s);
  }

  /** Texts of values are short enough for ralloc. */
  lemma ShowShort(d: Byte, v: Value)
    requires Takes(d, v)
    ensures v.Str? || |Show(d, v)| < 0xffff_0000
  {
    match v
    case Pointer(p) => DigitsShort(p, 16);
    case Number(n) =>
      DigitsShort(Negated(n), BaseOf(d));
      if n >= 0 { DigitsShort(n, BaseOf(d)); }
    case Real(x) =>
      DigitsShort(x.Floor, 10);
      DigitsShort(Decimals(x), 10);
    case _ =>
  }

  /** result = free_concat(result, piece). */
  method Append(h: H.Heap, a: int, b: int, ghost i0: H.Image, ghost i1: H.Image, ghost sizeA: int, ghost t: seq<Byte>,
                ghost sizeB: int, ghost s: seq<Byte>, ghost u: seq<Byte>) returns (r: int)
    requires Ready(h) && u == t + s
    requires Built(i0, i1, {}, a, sizeA, t) && Built(i1, h.Now(), {}, b, sizeB, s)
    modifies h
    ensures h.Valid() && Paid(old(h.Tail()), h.Tail(), r, Cost(|u| + 1))
    ensures r != 0 ==> Built(i0, h.Now(), {}, r, |u| + 1, u)
  {
    hide Linked;
    ghost var i2, b1, b2 := h.Now(), Block(a, sizeA), Block(b, sizeB);
    BothOwned(i0, i1, i2, b1, t, b2, s);
    r := FreeConcat(h, a, b, b1, b2, t, s, u);
    if r != 0 {
      Extended(i0, i1, i2, h.Now(), b1, t, b2, s, r, |u| + 1, u);
    }
  }

  /** A text that was given when format began still is. */
  lemma StillGiven(before: H.Image, now: H.Image, a: int, size: int, u: seq<Byte>, t: Text, s: seq<Byte>)
    requires Built(before, now, {}, a, size, u) && Given(before, t, s)
    ensures Given(now, t, s)
  {
  }

  lemma StillDenotes(before: H.Image, now: H.Image, r: int, size: int, u: seq<Byte>, a: Argument, v: Value)
    requires Built(before, now, {}, r, size, u) && Denotes(before, a, v)
    ensures Denotes(now, a, v)
  {
    if v.Str? {
      StillGiven(before, now, r, size, u, a.t, v.s);
    }
  }

  /** While a result is being built the heap has blocks. */
  lemma InUse(h: H.Heap, before: H.Image, r: int, size: int, u: seq<Byte>)
    requires Built(before, h.Now(), {}, r, size, u)
    ensures h.blocks != []
  {
    assert Block(r, size) in Live(h.blocks);
  }

  /** Copy the literal text between two directives: result = free_concat(result, substring_mid(template, printed,
      j)). */
  method Flush(h: H.Heap, template: Text, printed: int, j: int, result: int, ghost before: H.Image, ghost t: seq<Byte>,
               ghost text: seq<Byte>, ghost piece: seq<Byte>, ghost u: seq<Byte>) returns (r: int)
    requires Ready(h) && Given(before, template, t) && 0 <= printed <= j <= |t| && piece == t[printed..j]
    requires u == text + piece
    requires Built(before, h.Now(), {}, result, |text| + 1, text)
    modifies h
    ensures h.Valid() && Paid(old(h.Tail()), h.Tail(), r, Cost(|piece| + 1) + Cost(|u| + 1))
    ensures r != 0 ==> Built(before, h.Now(), {}, r, |u| + 1, u)
  {
    hide Linked;
    ghost var i1 := h.Now();
    StillGiven(before, i1, result, |text| + 1, text, template, t);
    InUse(h, before, result, |text| + 1, text);
    var p := SubstringMid(h, template, printed, j, t, piece);
    if p == 0 { return 0; }
    r := Append(h, result, p, before, i1, |text| + 1, text, |piece| + 1, piece, u);
  }

  /** result = free_concat(result, ..._to_string(get_vararg(...))). */
  method Direct(h: H.Heap, d: Byte, a: Argument, result: int, ghost before: H.Image, ghost v: Value, ghost s: seq<Byte>,
                ghost text: seq<Byte>, ghost u: seq<Byte>) returns (r: int)
    requires Ready(h) && Takes(d, v) && s == Show(d, v) && u == text + s && Denotes(before, a, v)
    requires Built(before, h.Now(), {}, result, |text| + 1, text)
    modifies h
    ensures h.Valid() && Paid(old(h.Tail()), h.Tail(), r, PieceCost(|s|) + Cost(|u| + 1))
    ensures r != 0 ==> Built(before, h.Now(), {}, r, |u| + 1, u)
  {
    hide Linked;
    ghost var i1 := h.Now();
    StillDenotes(before, i1, result, |text| + 1, text, a, v);
    InUse(h, before, result, |text| + 1, text);
    var p;
    ghost var size;
    p, size := Piece(h, d, a, v, s);
    if p == 0 { return 0; }
    r := Append(h, result, p, before, i1, |text| + 1, text, size, s, u);
  }

  /** result = zalloc(1). */
  method EmptyText(h: H.Heap) returns (r: int)
    requires h.Valid() && Room(h, 1)
    modifies h
    ensures h.Valid() && Paid(old(h.Tail()), h.Tail(), r, Cost(1))
    ensures r != 0 ==> Built(old(h.Now()), h.Now(), {}, r, 1, [])
  {
    ghost var before := h.Now();
    r := h.Zalloc(1);
    H.PlacementRoom(old(h.blocks), h.blocks, h.lo, h.hi, 1, r);
    assert before.live - {} == before.live;
  }

  /** The arguments stand for the values, and the heap leaves the template and them alone. */
  ghost predicate Supplied(now: H.Image, template: Text, t: seq<Byte>, args: seq<Argument>, v: seq<Value>) {
    && Given(now, template, t) && Matches(t, v) && |args| == |v|
    && forall i :: 0 <= i < |v| ==> Denotes(now, args[i], v[i])
  }

  /** What format is called with: the heap then, the template and what it reads, the arguments and their values, and
      whether the heap has room for everything. */
  datatype Call = Call(before: H.Image, template: Text, t: seq<Byte>, args: seq<Argument>, v: seq<Value>, enough: bool)
  {
    ghost predicate Valid() {
      Supplied(before, template, t, args, v)
    }
  }

  /** The loop of format up to j: its variables, the result it has built, and room for the rest if there was enough. */
  ghost predicate Scanned(h: H.Heap, call: Call, j: int, k: int, printed: int, r: int, text: seq<Byte>)
    reads h
  {
    && h.Valid() && r != 0 && Progress(call.t, call.v, j, k, printed, text)
    && Built(call.before, h.Now(), {}, r, |text| + 1, text)
    && (call.enough ==> h.Tail() >= ToGo(call.t, call.v, j, k, printed, text) + 12)
  }

  /** Flush, then the text of the next argument. */
  method FlushAndDirect(h: H.Heap, template: Text, d: Byte, a: Argument, j: int, printed: int, result: int,
                        ghost call: Call, ghost v: Value, ghost text: seq<Byte>, ghost piece: seq<Byte>,
                        ghost text1: seq<Byte>, ghost s: seq<Byte>, ghost text2: seq<Byte>) returns (r: int)
    requires Ready(h) && Given(call.before, template, call.t) && 0 <= printed <= j <= |call.t|
    requires piece == call.t[printed..j] && text1 == text + piece && text2 == text1 + s
    requires Takes(d, v) && s == Show(d, v) && Denotes(call.before, a, v)
    requires Built(call.before, h.Now(), {}, result, |text| + 1, text)
    modifies h
    ensures h.Valid()
    ensures Paid(old(h.Tail()), h.Tail(), r,
                 Cost(|piece| + 1) + Cost(|text1| + 1) + PieceCost(|s|) + Cost(|text2| + 1))
    ensures r != 0 ==> Built(call.before, h.Now(), {}, r, |text2| + 1, text2)
  {
    hide Linked;
    r := Flush(h, template, printed, j, result, call.before, call.t, text, piece, text1);
    if r == 0 { return; }
    r := Direct(h, d, a, r, call.before, v, s, text1, text2);
  }

  /** A known directive: it and its argument are replaced by the argument's text. */
  method AtDirective(h: H.Heap, template: Text, a: Argument, d: Byte, j: int, ghost k: int, printed: int, result: int,
                     ghost call: Call, ghost text: seq<Byte>) returns (r: int, ghost text2: seq<Byte>)
    requires Ready(h) && call.Valid() && call.template == template && Scanned(h, call, j, k, printed, result, text)
    requires j + 1 < |call.t| && call.t[j] == PERCENT && Known(d) && call.t[j + 1] == d
    requires 0 <= k < |call.args| && call.args[k] == a
    modifies h
    ensures h.Valid() && (call.enough ==> r != 0)
    ensures r != 0 ==> Scanned(h, call, j + 2, k + 1, j + 2, r, text2)
  {
    hide Linked, Built, Given, Denotes, ToGo, Progress;
    ArgumentLeft(call.t, call.v, j, k, printed, text);
    ghost var piece := call.t[printed..j];
    ghost var text1 := text + piece;
    ScanDirective(call.t, call.v, j, k, printed, text, text1);
    ghost var v := call.v[k];
    ghost var s := Show(d, v);
    text2 := text1 + s;
    r := FlushAndDirect(h, template, d, a, j, printed, result, call, v, text, piece, text1, s, text2);
  }

  /** Anything else after a percent sign, the end of the template included: the sign waits to be copied. */
  method AtVerbatim(h: H.Heap, template: Text, j: int, ghost k: int, printed: int, result: int, ghost call: Call,
                    ghost text: seq<Byte>) returns (r: int, ghost text1: seq<Byte>)
    requires Ready(h) && call.Valid() && call.template == template && Scanned(h, call, j, k, printed, result, text)
    requires j < |call.t| && call.t[j] == PERCENT && !(j + 1 < |call.t| && Known(call.t[j + 1]))
    modifies h
    ensures h.Valid() && (call.enough ==> r != 0)
    ensures r != 0 ==> Scanned(h, call, j + 1, k, j, r, text1)
  {
    hide Linked;
    ghost var piece := call.t[printed..j];
    text1 := text + piece;
    ScanVerbatim(call.t, call.v, j, k, printed, text, text1);
    r := Flush(h, template, printed, j, result, call.before, call.t, text, piece, text1);
  }

  /** template[i], which no heap operation has changed. */
  method TemplateChar(h: H.Heap, template: Text, i: nat, ghost call: Call, ghost result: int, ghost text: seq<Byte>)
      returns (c: Byte)
    requires Given(call.before, template, call.t) && i <= |call.t|
    requires Built(call.before, h.Now(), {}, result, |text| + 1, text)
    ensures c == if i < |call.t| then call.t[i] else 0
  {
    StillGiven(call.before, h.Now(), result, |text| + 1, text, template, call.t);
    c := Char(h.mem, template, i);
  }

  /** substring_beg(template, printed), which takes the template to its end, and the last free_concat. */
  method Finish(h: H.Heap, template: Text, printed: int, result: int, ghost k: int, ghost call: Call,
                ghost text: seq<Byte>, ghost all: seq<Byte>) returns (r: int)
    requires Ready(h) && call.Valid() && call.template == template && all == Render(call.t, call.v)
    requires Scanned(h, call, |call.t|, k, printed, result, text)
    modifies h
    ensures h.Valid() && (call.enough ==> r != 0)
    ensures r != 0 ==> Built(call.before, h.Now(), {}, r, |all| + 1, all)
  {
    hide Linked;
    ghost var t := call.t;
    ScanEnd(t, call.v, k, printed, text);
    StillGiven(call.before, h.Now(), result, |text| + 1, text, template, t);
    var n := Len(h, template, t);
    r := Flush(h, template, printed, n, result, call.before, t, text, t[printed..], all);
  }

  /** A known directive finds its argument. */
  lemma ArgumentReady(h: H.Heap, call: Call, j: int, k: int, printed: int, r: int, text: seq<Byte>)
    requires call.Valid() && Scanned(h, call, j, k, printed, r, text)
    requires j + 1 < |call.t| && call.t[j] == PERCENT && Known(call.t[j + 1])
    ensures 0 <= k < |call.args|
  {
    ArgumentLeft(call.t, call.v, j, k, printed, text);
  }

  /** A turn of the loop of format at a percent sign. */
  method AtPercent(h: H.Heap, template: Text, args: seq<Argument>, d: Byte, j: int, k: int, printed: int, result: int,
                   ghost call: Call, ghost text: seq<Byte>)
      returns (j': int, k': int, printed': int, r: int, ghost text': seq<Byte>)
    requires Ready(h) && call.Valid() && call.template == template && call.args == args
    requires Scanned(h, call, j, k, printed, result, text)
    requires j < |call.t| && call.t[j] == PERCENT && d == if j + 1 < |call.t| then call.t[j + 1] else 0
    modifies h
    ensures h.Valid() && j < j' <= |call.t| && (call.enough ==> r != 0)
    ensures r != 0 ==> Scanned(h, call, j', k', printed', r, text')
  {
    hide Linked, Built, Supplied, Scanned;
    if Known(d) {
      ArgumentReady(h, call, j, k, printed, result, text);
      r, text' := AtDirective(h, template, args[k], d, j, k, printed, result, call, text);
      j', k', printed' := j + 2, k + 1, j + 2;
    } else {
      r, text' := AtVerbatim(h, template, j, k, printed, result, call, text);
      j', k', printed' := j + 1, k, j;
    }
  }

  /** One turn of the loop of format. */
  method Turn(h: H.Heap, template: Text, args: seq<Argument>, j: int, k: int, printed: int, result: int,
              ghost call: Call, ghost text: seq<Byte>)
      returns (j': int, k': int, printed': int, r: int, ghost text': seq<Byte>)
    requires Ready(h) && call.Valid() && call.template == template && call.args == args
    requires Scanned(h, call, j, k, printed, result, text) && j < |call.t|
    modifies h
    ensures h.Valid() && j < j' <= |call.t| && (call.enough ==> r != 0)
    ensures r != 0 ==> Scanned(h, call, j', k', printed', r, text')
  {
    hide Linked;
    var c := TemplateChar(h, template, j, call, result, text);
    if c == PERCENT {
      var d := TemplateChar(h, template, j + 1, call, result, text);
      j', k', printed', r, text' := AtPercent(h, template, args, d, j, k, printed, result, call, text);
    } else {
      ScanLiteral(call.t, call.v, j, k, printed, text);
      j', k', printed', r, text' := j + 1, k, printed, result, text;
    }
  }

  /** The loop of format and the last line. */
  method Scan(h: H.Heap, template: Text, args: seq<Argument>, n: nat, result: int, ghost call: Call) returns (r: int)
    requires Ready(h) && call.Valid() && call.template == template && call.args == args && n == |call.t|
    requires Scanned(h, call, 0, 0, 0, result, [])
    modifies h
    ensures h.Valid() && (call.enough ==> r != 0)
    ensures r != 0 ==>
      Built(call.before, h.Now(), {}, r, |Render(call.t, call.v)| + 1, Render(call.t, call.v))
  {
    hide Linked, Scanned, Built, Given, Denotes;
    ghost var text: seq<Byte> := [];
    var j, k, printed := 0, 0, 0;
    r := result;
    while j < n
      invariant h.Valid() && 0 <= j <= n && Scanned(h, call, j, k, printed, r, text)
      decreases n - j
    {
      j, k, printed, r, text := Turn(h, template, args, j, k, printed, r, call, text);
      if r == 0 { return; }
    }
    r := Finish(h, template, printed, r, k, call, text, Render(call.t, call.v));
  }

  /** format. The result is a fresh block of exactly the length of the rendered text plus one; every earlier block is
      still live and untouched, and nothing else is: all temporaries are gone. It fails only through heap exhaustion,
      and not if the tail of the heap has room for all the blocks it ever allocates. */
  method Format(h: H.Heap, template: Text, args: seq<Argument>, ghost t: seq<Byte>,
                ghost v: seq<Value>) returns (r: int)
    requires Ready(h) && Room(h, 1) && Supplied(h.Now(), template, t, args, v)
    modifies h
    ensures h.Valid() && (old(h.Tail()) >= Cost(1) + Need(t, v, 0, 0) + 12 ==> r != 0)
    ensures r != 0 ==> Built(old(h.Now()), h.Now(), {}, r, |Render(t, v)| + 1, Render(t, v))
  {
    hide Linked, Denotes, Stable, Kept, Holds;
    ghost var call := Call(h.Now(), template, t, args, v, h.Tail() >= Cost(1) + Need(t, v, 0, 0) + 12);
    var n := Len(h, template, t);
    r := EmptyText(h);
    if r == 0 { return; }
    ScanStart(t, v);
    r := Scan(h, template, args, n, r, call);
  }

  /** What the tests do with every result: `str = format(...); ... unalloc(str);` leaves the list of blocks and all
      payloads as they were, so a heap without blocks has none afterwards. */
  method FormatAndUnalloc(h: H.Heap, template: Text, args: seq<Argument>, ghost t: seq<Byte>, ghost v: seq<Value>)
      returns (done: bool)
    requires Ready(h) && Room(h, 1) && Supplied(h.Now(), template, t, args, v)
    modifies h
    ensures h.Valid() && (old(h.Tail()) >= Cost(1) + Need(t, v, 0, 0) + 12 ==> done)
    ensures done ==> h.blocks == old(h.blocks) && Kept(old(h.mem), h.mem, Live(h.blocks), h.header, h.hi)
  {
    ghost var before, blocks := h.Now(), h.blocks;
    var r := Format(h, template, args, t, v);
    done := r != 0;
    if done {
      ghost var b, now := Block(r, |Render(t, v)| + 1), h.Now();
      assert b in now.live;
      h.Release(r, b);
      BuiltAndFreed(before, now, h.Now(), b, Render(t, v));
      SameBlocksSameList(h.blocks, blocks, h.lo, h.hi);
    }
  }

  lemma BuiltAndFreed(i0: H.Image, i1: H.Image, i2: H.Image, b: Block, s: seq<Byte>)
    requires Built(i0, i1, {}, b.addr, b.size, s)
    requires Kept(i1.mem, i2.mem, i1.live, i1.header, i1.hi) && i2.live == i1.live - {b}
    ensures i2.live == i0.live && Kept(i0.mem, i2.mem, i0.live, i0.header, i0.hi)
  {
  }
}
