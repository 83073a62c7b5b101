/** Octets, fixed-width integers, and the big- and little-endian reads and writes that
    every parser and printer of the recorder is built from. */
module Bytes {

  type byte = x: int | 0 <= x < 0x100
  type u16 = x: int | 0 <= x < 0x1_0000
  type u32 = x: int | 0 <= x < 0x1_0000_0000
  type bytes = seq<byte>

  const TWO_32 := 0x1_0000_0000

  datatype Option<+T> = None | Some(value: T)

  /** `static_cast<std::uint32_t>`: truncation to 32 bits. */
  function U32(x: int): u32 {
    x % TWO_32
  }

  function Min(a: int, b: int): int {
    if a <= b then a else b
  }

  function Max(a: int, b: int): int {
    if a <= b then b else a
  }

  predicate HasBytes(data: bytes, offset: nat, count: nat) {
    offset <= |data| && count <= |data| - offset
  }

  function ReadBe16(data: bytes, offset: nat): u16
    requires HasBytes(data, offset, 2)
  {
    (data[offset] as int) * 0x100 + data[offset + 1]
  }

  function ReadBe32(data: bytes, offset: nat): u32
    requires HasBytes(data, offset, 4)
  {
    (data[offset] as int) * 0x100_0000 + (data[offset + 1] as int) * 0x1_0000 + (data[offset + 2] as int) * 0x100 +
    data[offset + 3]
  }

  function ReadLe16(data: bytes, offset: nat): u16
    requires HasBytes(data, offset, 2)
  {
    data[offset] as int + (data[offset + 1] as int) * 0x100
  }

  function ReadLe32(data: bytes, offset: nat): u32
    requires HasBytes(data, offset, 4)
  {
    data[offset] as int + (data[offset + 1] as int) * 0x100 + (data[offset + 2] as int) * 0x1_0000 +
    (data[offset + 3] as int) * 0x100_0000
  }

  function Be16(v: u16): bytes {
    [v / 0x100, v % 0x100]
  }

  function Be32(v: u32): bytes {
    [v / 0x100_0000, v / 0x1_0000 % 0x100, v / 0x100 % 0x100, v % 0x100]
  }

  function Le16(v: u16): bytes {
    [v % 0x100, v / 0x100 % 0x100]
  }

  function Le32(v: u32): bytes {
    [v % 0x100, v / 0x100 % 0x100, v / 0x1_0000 % 0x100, v / 0x100_0000 % 0x100]
  }

  /** `data` holds `part` at `offset`. */
  predicate Holds(data: bytes, offset: nat, part: bytes) {
    HasBytes(data, offset, |part|) && forall i | 0 <= i < |part| :: part[i] == data[offset + i]
  }

  lemma Associative(a: bytes, b: bytes, c: bytes)
    ensures (a + b) + c == a + (b + c)
  {
  }

  lemma HoldsSplit(data: bytes, offset: nat, a: bytes, b: bytes)
    requires Holds(data, offset, a + b)
    ensures Holds(data, offset, a) && Holds(data, offset + |a|, b)
  {
    forall i | 0 <= i < |a| ensures a[i] == data[offset + i] {
      assert (a + b)[i] == a[i];
    }
    forall i | 0 <= i < |b| ensures b[i] == data[offset + |a| + i] {
      assert (a + b)[|a| + i] == b[i];
    }
  }

  lemma HoldsJoin(data: bytes, offset: nat, a: bytes, b: bytes)
    requires Holds(data, offset, a) && Holds(data, offset + |a|, b)
    ensures Holds(data, offset, a + b)
  {
  }

  /** Reading undoes writing, wherever the bytes lie: big-endian. */
  lemma ReadBe16Undoes(data: bytes, offset: nat, v: u16)
    requires Holds(data, offset, Be16(v))
    ensures ReadBe16(data, offset) == v
  {
    assert Be16(v)[0] == v / 0x100 && Be16(v)[1] == v % 0x100;
  }

  lemma ReadBe32Undoes(data: bytes, offset: nat, v: u32)
    requires Holds(data, offset, Be32(v))
    ensures ReadBe32(data, offset) == v
  {
    var part := Be32(v);
    assert part[0] == data[offset] && part[1] == data[offset + 1] && part[2] == data[offset + 2] &&
        part[3] == data[offset + 3];
    SplitWord(v);
  }

  /** Reading undoes writing, wherever the bytes lie: little-endian. */
  lemma ReadLe16Undoes(data: bytes, offset: nat, v: u16)
    requires Holds(data, offset, Le16(v))
    ensures ReadLe16(data, offset) == v
  {
    assert Le16(v)[0] == v % 0x100 && Le16(v)[1] == v / 0x100;
  }

  lemma ReadLe32Undoes(data: bytes, offset: nat, v: u32)
    requires Holds(data, offset, Le32(v))
    ensures ReadLe32(data, offset) == v
  {
    var part := Le32(v);
    assert part[0] == data[offset] && part[1] == data[offset + 1] && part[2] == data[offset + 2] &&
        part[3] == data[offset + 3];
    SplitWord(v);
  }

  lemma SplitWord(v: u32)
    ensures v == v % 0x100 + v / 0x100 % 0x100 * 0x100 + v / 0x1_0000 % 0x100 * 0x1_0000 + v / 0x100_0000 * 0x100_0000
    ensures v / 0x100_0000 % 0x100 == v / 0x100_0000
  {
    assert v / 0x1_0000 == v / 0x100 / 0x100;
    assert v / 0x100_0000 == v / 0x100 / 0x100 / 0x100;
  }

  lemma Octets(a: byte, b: byte, c: byte, d: byte)
    ensures var v := a as int + (b as int) * 0x100 + (c as int) * 0x1_0000 + (d as int) * 0x100_0000;
            v % 0x100 == a && v / 0x100 % 0x100 == b && v / 0x1_0000 % 0x100 == c &&
                v / 0x100_0000 == d == v / 0x100_0000 % 0x100
  {
    var v := a as int + (b as int) * 0x100 + (c as int) * 0x1_0000 + (d as int) * 0x100_0000;
    assert v / 0x100 == b as int + (c as int) * 0x100 + (d as int) * 0x1_0000;
    assert v / 0x1_0000 == v / 0x100 / 0x100 == c as int + (d as int) * 0x100;
    assert v / 0x100_0000 == v / 0x1_0000 / 0x100 == d;
  }

  /** Writing undoes reading. */
  lemma Be16Undoes(data: bytes, offset: nat)
    requires HasBytes(data, offset, 2)
    ensures Holds(data, offset, Be16(ReadBe16(data, offset)))
  {
    var v := ReadBe16(data, offset);
    assert v / 0x100 == data[offset] && v % 0x100 == data[offset + 1];
  }

  lemma Be32Undoes(data: bytes, offset: nat)
    requires HasBytes(data, offset, 4)
    ensures Holds(data, offset, Be32(ReadBe32(data, offset)))
  {
    Octets(data[offset + 3], data[offset + 2], data[offset + 1], data[offset]);
  }

  lemma Le32Undoes(data: bytes, offset: nat)
    requires HasBytes(data, offset, 4)
    ensures Holds(data, offset, Le32(ReadLe32(data, offset)))
  {
    Octets(data[offset], data[offset + 1], data[offset + 2], data[offset + 3]);
  }

  lemma SliceHolds(data: bytes, offset: nat, part: bytes)
    requires HasBytes(data, offset, |part|) && part == data[offset..offset + |part|]
    ensures Holds(data, offset, part)
  {
  }

  lemma HoldsIsSlice(data: bytes, offset: nat, part: bytes)
    requires Holds(data, offset, part)
    ensures data[offset..offset + |part|] == part
  {
  }

  lemma HoldsAll(data: bytes, part: bytes)
    requires Holds(data, 0, part)
    ensures |part| <= |data| && data[..|part|] == part
  {
  }
}
