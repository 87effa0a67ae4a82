/** Byte-addressed memory with little-endian dwords, and the loops of memory.c over it. */
module ByteMemory {

  type Byte = b: int | 0 <= b < 0x100

  function Load(m: seq<Byte>, a: int): int
    requires 0 <= a && a + 4 <= |m|
  {
    m[a] as int + 0x100 * m[a + 1] as int + 0x1_0000 * m[a + 2] as int + 0x100_0000 * m[a + 3] as int
  }

  lemma DwordBytes(d: int)
    requires 0 <= d < 0x1_0000_0000
    ensures 0 <= d / 0x100_0000 < 0x100
    ensures d % 0x100 + 0x100 * (d / 0x100 % 0x100) + 0x1_0000 * (d / 0x1_0000 % 0x100)
      + 0x100_0000 * (d / 0x100_0000) == d
  {
    var a := d / 0x100;
    var b := a / 0x100;
    assert a == d / 0x100 && b == d / 0x1_0000 && b / 0x100 == d / 0x100_0000;
  }

  function Store(m: seq<Byte>, a: int, d: int): (r: seq<Byte>)
    requires 0 <= a && a + 4 <= |m| && 0 <= d < 0x1_0000_0000
    ensures |r| == |m| && Load(r, a) == d
    ensures forall i :: 0 <= i < |m| && !(a <= i < a + 4) ==> r[i] == m[i]
  {
    DwordBytes(d);
    m[a := d % 0x100][a + 1 := d / 0x100 % 0x100][a + 2 := d / 0x1_0000 % 0x100][a + 3 := d / 0x100_0000]
  }

  method MemoryCopy(m: seq<Byte>, source: int, dest: int, n: nat) returns (r: seq<Byte>)
    requires 0 <= source && source + n <= |m| && 0 <= dest && dest + n <= |m|
    requires source + n <= dest || dest + n <= source
    ensures |r| == |m| && r[dest..dest + n] == m[source..source + n]
    ensures forall k :: 0 <= k < |m| && !(dest <= k < dest + n) ==> r[k] == m[k]
  {
    r := m;
    for i := 0 to n
      invariant |r| == |m|
      invariant r[dest..dest + i] == m[source..source + i]
      invariant forall k :: 0 <= k < |m| && !(dest <= k < dest + i) ==> r[k] == m[k]
    {
      ghost var before := r[dest..dest + i];
      r := r[dest + i := r[source + i]];
      assert r[dest..dest + i + 1] == before + [m[source + i]];
    }
  }

  method MemoryClear(m: seq<Byte>, start: int, n: nat, sample: Byte) returns (r: seq<Byte>)
    requires 0 <= start && start + n <= |m|
    ensures |r| == |m|
    ensures forall k :: 0 <= k < |m| ==> r[k] == if start <= k < start + n then sample else m[k]
  {
    r := m;
    for i := 0 to n
      invariant |r| == |m|
      invariant forall k :: 0 <= k < |m| ==> r[k] == if start <= k < start + i then sample else m[k]
    {
      r := r[start + i := sample];
    }
  }
}
