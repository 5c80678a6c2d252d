/**
  The bit buffer: a stream of bits, most significant first in each octet.
*/
module BitBuffers {
  import opened Common

  /** `(octet >> p) & 1`. */
  function Picked(octet: bv8, p: nat): (b: bool)
    requires p < 8
  {
    (octet >> p) & 1 == 1
  }

  function Mask(p: nat): (m: bv8)
    requires p < 8
  {
    1 << p
  }

  /** The bit of an octet at position `i` from the left. */
  function BitOf(octet: bv8, i: nat): (b: bool)
    requires i < 8
  {
    Picked(octet, 7 - i)
  }

  /** `set(7 - i, b)` of a `bitset<8>`. */
  function WithBit(octet: bv8, i: nat, b: bool): (r: bv8)
    requires i < 8
  {
    if b then octet | Mask(7 - i) else octet & !Mask(7 - i)
  }

  lemma SetBit(octet: bv8, p: nat, q: nat)
    requires p < 8 && q < 8
    ensures Picked(octet | Mask(p), q) == if p == q then true else Picked(octet, q)
  {
  }

  lemma ClearBit(octet: bv8, p: nat, q: nat)
    requires p < 8 && q < 8
    ensures Picked(octet & !Mask(p), q) == if p == q then false else Picked(octet, q)
  {
  }

  /** Only the written bit of an octet changes. */
  lemma WithBitSets(octet: bv8, i: nat, b: bool, j: nat)
    requires i < 8 && j < 8
    ensures BitOf(WithBit(octet, i, b), j) == if j == i then b else BitOf(octet, j)
  {
    if b {
      SetBit(octet, 7 - i, 7 - j);
    } else {
      ClearBit(octet, 7 - i, 7 - j);
    }
  }

  /** All bits of the octets, in order. */
  ghost function BitsOf(s: seq<bv8>): (bits: seq<bool>)
    ensures |bits| == 8 * |s|
  {
    seq(8 * |s|, k requires 0 <= k < 8 * |s| => BitOf(s[k / 8], k % 8))
  }

  lemma WriteOne(s: seq<bv8>, k: nat, b: bool)
    requires k < 8 * |s|
    ensures BitsOf(s[k / 8 := WithBit(s[k / 8], k % 8, b)]) == BitsOf(s)[k := b]
  {
    var t := s[k / 8 := WithBit(s[k / 8], k % 8, b)];
    forall j | 0 <= j < 8 * |s| ensures BitsOf(t)[j] == BitsOf(s)[k := b][j] {
      if j / 8 == k / 8 {
        WithBitSets(s[k / 8], k % 8, b, j % 8);
        assert j == 8 * (j / 8) + j % 8 && k == 8 * (k / 8) + k % 8;
      }
    }
  }

  /** The last `len` binary digits of a number, the first one first; `value >> i` rounds down. */
  function Digits(value: int, len: nat): (bits: seq<bool>)
    ensures |bits| == len
    decreases len
  {
    if len == 0 then [] else Digits(value / 2, len - 1) + [value % 2 == 1]
  }

  function Number(b: bool): (d: nat) {
    if b then 1 else 0
  }

  /** The number that binary digits stand for. */
  function ValueOf(bits: seq<bool>): (v: nat)
    decreases |bits|
  {
    if bits == [] then 0 else 2 * ValueOf(bits[..|bits| - 1]) + Number(bits[|bits| - 1])
  }

  lemma OneMore(bits: seq<bool>, from: nat, to: nat)
    requires from <= to < |bits|
    ensures ValueOf(bits[from..to + 1]) == 2 * ValueOf(bits[from..to]) + Number(bits[to])
  {
    var s := bits[from..to + 1];
    assert s[..|s| - 1] == bits[from..to];
  }

  /** The digit that `(value >> (len - 1 - i)) & 1` is. */
  lemma {:induction false} DigitAt(value: int, len: nat, i: nat)
    requires i < len
    ensures Digits(value, len)[i] == (value / Pow2(len - 1 - i) % 2 == 1)
    decreases len
  {
    if i < len - 1 {
      DigitAt(value / 2, len - 1, i);
      HalfFirst(value, Pow2(len - 2 - i));
    }
  }

  lemma HalfFirst(value: int, p: nat)
    requires p > 0
    ensures value / 2 / p == value / (2 * p)
  {
    var h, r := value / 2 / p, value / 2 % p;
    assert value == (h * p + r) * 2 + value % 2;
    assert value == h * (2 * p) + (2 * r + value % 2);
    DivIs(value, 2 * p, h, 2 * r + value % 2);
  }

  /** Digits read back give the value modulo two to the width. */
  lemma {:induction false} DigitsValue(value: int, len: nat)
    ensures ValueOf(Digits(value, len)) == value % Pow2(len)
    decreases len
  {
    if len == 0 {
    } else {
      DigitsValue(value / 2, len - 1);
      var ds := Digits(value, len);
      assert ds[..len - 1] == Digits(value / 2, len - 1);
      var p := Pow2(len - 1);
      ModStep(value, p);
    }
  }

  // ----------------------------------------------------------- octets as numbers

  lemma {:induction false} PickedIs(octet: bv8, p: nat)
    requires p < 8
    ensures Picked(octet, p) <==> octet as int / Pow2(p) % 2 == 1
  {
    if p == 0 {
      assert Pow2(0) == 1;
    } else {
      PickedShift(octet, p);
      PickedIs(octet >> 1, p - 1);
      assert (octet >> 1) as int == octet as int / 2;
      HalfFirst(octet as int, Pow2(p - 1));
    }
  }

  lemma PickedShift(octet: bv8, p: nat)
    requires 0 < p < 8
    ensures Picked(octet, p) == Picked(octet >> 1, p - 1)
  {
  }

  /** The bits of an octet are the binary digits of its value, the most significant first. */
  lemma OctetDigits(octet: bv8)
    ensures BitsOf([octet]) == Digits(octet as int, 8)
  {
    forall i | 0 <= i < 8 ensures BitsOf([octet])[i] == Digits(octet as int, 8)[i] {
      DigitAt(octet as int, 8, i);
      PickedIs(octet, 7 - i);
    }
  }

  lemma EightBits()
    ensures Pow2(8) == 256
  {
    assert Pow2(4) == 16;
  }

  lemma EightDigits(v: nat)
    requires v < 256
    ensures ValueOf(Digits(v, 8)) == v
  {
    DigitsValue(v, 8);
    EightBits();
  }

  lemma OctetRange(octet: bv8)
    ensures 0 <= octet as int < 256
  {
  }

  lemma OctetValue(octet: bv8)
    ensures ValueOf(BitsOf([octet])) == octet as nat
  {
    OctetDigits(octet);
    OctetRange(octet);
    EightDigits(octet as nat);
  }

  /** The number that octets stand for, the most significant first. */
  ghost function BigEndian(s: seq<bv8>): (v: nat)
    decreases |s|
  {
    if s == [] then 0 else 256 * BigEndian(s[..|s| - 1]) + s[|s| - 1] as nat
  }

  lemma {:induction false} ValueJoin(a: seq<bool>, b: seq<bool>)
    ensures ValueOf(a + b) == ValueOf(a) * Pow2(|b|) + ValueOf(b)
    decreases |b|
  {
    if b == [] {
      assert a + b == a;
    } else {
      var n := |b| - 1;
      ValueJoin(a, b[..n]);
      assert (a + b)[..|a + b| - 1] == a + b[..n];
      assert ValueOf(a) * Pow2(|b|) == 2 * (ValueOf(a) * Pow2(n));
    }
  }

  /** Bits read across octets are the number that the octets stand for. */
  lemma {:induction false} OctetsValue(s: seq<bv8>)
    ensures ValueOf(BitsOf(s)) == BigEndian(s)
    decreases |s|
  {
    if s != [] {
      var n := |s| - 1;
      OctetsValue(s[..n]);
      OctetValue(s[n]);
      BitsOfLast(s);
      ValueJoin(BitsOf(s[..n]), BitsOf([s[n]]));
      EightBits();
    }
  }

  lemma BitsOfLast(s: seq<bv8>)
    requires s != []
    ensures BitsOf(s) == BitsOf(s[..|s| - 1]) + BitsOf([s[|s| - 1]])
  {
  }

  lemma BitsOfPart(s: seq<bv8>, from: nat, to: nat)
    requires from <= to <= |s|
    ensures BitsOf(s)[8 * from..8 * to] == BitsOf(s[from..to])
  {
  }

  /** If the bits from `from` on fill whole octets, these stand for `v`. */
  ghost predicate OctetsAre(s: seq<bv8>, from: nat, len: nat, v: int)
    requires from + len <= 8 * |s|
  {
    from % 8 == len % 8 == 0 ==> BigEndian(s[from / 8..(from + len) / 8]) == v
  }

  /** One and two octets. */
  lemma OctetsWritten(s: seq<bv8>, k: nat, v: int)
    requires k < |s|
    ensures OctetsAre(s, 8 * k, 8, v) <==> s[k] as int == v
    ensures k + 1 < |s| ==> (OctetsAre(s, 8 * k, 16, v) <==> s[k] as int * 256 + s[k + 1] as int == v)
  {
    assert (8 * k) / 8 == k && (8 * k + 8) / 8 == k + 1 && (8 * k + 16) / 8 == k + 2 && (8 * k) % 8 == 0;
    var one := s[k..k + 1];
    assert BigEndian(one[..0]) == 0;
    assert BigEndian(one) == s[k] as int;
    if k + 1 < |s| {
      var two := s[k..k + 2];
      assert two[..1] == one;
      assert BigEndian(two) == s[k] as int * 256 + s[k + 1] as int;
    }
  }

  /** The first bit of an octet weighs 128, the last one 1. */
  lemma BitsFromTheLeft()
    ensures WithBit(0, 0, true) == 0x80 && WithBit(0, 7, true) == 0x01
    ensures BitOf(0x80, 0) && BitOf(0x01, 7) && !BitOf(0x80, 7)
  {
  }

  lemma PartValue(s: seq<bv8>, a: nat, b: nat)
    requires a <= b <= |s|
    ensures ValueOf(BitsOf(s)[8 * a..8 * b]) == BigEndian(s[a..b])
  {
    BitsOfPart(s, a, b);
    OctetsValue(s[a..b]);
  }

  lemma Aligned(s: seq<bv8>, from: nat, len: nat)
    requires from + len <= 8 * |s|
    ensures OctetsAre(s, from, len, ValueOf(BitsOf(s)[from..from + len]))
  {
    if from % 8 == len % 8 == 0 {
      var a, b := from / 8, (from + len) / 8;
      assert from == 8 * a && from + len == 8 * b;
      PartValue(s, a, b);
    }
  }

  /** Changing one bit changes the number by its weight. */
  lemma {:induction false} BitWeight(bits: seq<bool>, k: nat, b: bool)
    requires k < |bits|
    ensures ValueOf(bits[k := b]) == ValueOf(bits) + (Number(b) - Number(bits[k])) * Pow2(|bits| - 1 - k)
    decreases |bits|
  {
    var n := |bits| - 1;
    if k == n {
      assert bits[k := b][..n] == bits[..n];
    } else {
      BitWeight(bits[..n], k, b);
      assert bits[k := b][..n] == bits[..n][k := b];
    }
  }

  /** Writing a bit adds its weight to the octet, or takes it away, or leaves the octet. */
  lemma WithBitWeight(octet: bv8, i: nat, b: bool)
    requires i < 8
    ensures WithBit(octet, i, b) as int ==
            octet as int + (Number(b) - octet as int / Pow2(7 - i) % 2) * Pow2(7 - i)
  {
    var octet' := WithBit(octet, i, b);
    WriteOne([octet], i, b);
    assert [octet][0 := octet'] == [octet'];
    OctetValue(octet);
    OctetValue(octet');
    BitWeight(BitsOf([octet]), i, b);
    PickedIs(octet, 7 - i);
    assert Number(BitsOf([octet])[i]) == octet as int / Pow2(7 - i) % 2;
  }

  // -------------------------------------------------------------- whole streams

  datatype Item = Field(value: int, len: nat) | Align

  /** No field is wider than `n` bits. */
  ghost predicate AtMost(items: seq<Item>, n: nat) {
    items == [] || ((items[0].Field? ==> items[0].len <= n) && AtMost(items[1..], n))
  }

  ghost predicate Nonempty(items: seq<Item>) {
    items == [] || ((items[0].Field? ==> items[0].len > 0) && Nonempty(items[1..]))
  }

  /** How many bits an item takes at a position. */
  ghost function Width(it: Item, pos: nat): (n: nat) {
    match it
    case Field(_, len) => len
    case Align => (8 - pos % 8) % 8
  }

  ghost function ItemBits(it: Item, pos: nat): (bits: seq<bool>)
    ensures |bits| == Width(it, pos)
  {
    Digits(if it.Field? then it.value else 0, Width(it, pos))
  }

  /** The bits that writing the items from `pos` on leaves. */
  ghost function Stream(items: seq<Item>, pos: nat): (bits: seq<bool>)
    decreases |items|
  {
    if items == [] then [] else
      ItemBits(items[0], pos) + Stream(items[1..], pos + Width(items[0], pos))
  }

  /** The values that reading the same widths gives, skipping to the octet boundary where the writer did. */
  ghost function ReadBack(items: seq<Item>, pos: nat, bits: seq<bool>): (values: seq<nat>)
    requires |bits| >= |Stream(items, pos)|
    decreases |items|
  {
    if items == [] then [] else
      var n := Width(items[0], pos);
      var rest := ReadBack(items[1..], pos + n, bits[n..]);
      if items[0].Field? then [ValueOf(bits[..n])] + rest else rest
  }

  ghost function Expected(items: seq<Item>): (values: seq<nat>) {
    if items == [] then [] else
      (if items[0].Field? then [items[0].value % Pow2(items[0].len)] else []) + Expected(items[1..])
  }

  /** Reading a written stream gives each value modulo two to its width. */
  lemma {:induction false} StreamReadBack(items: seq<Item>, pos: nat, tail: seq<bool>)
    ensures ReadBack(items, pos, Stream(items, pos) + tail) == Expected(items)
    decreases |items|
  {
    if items != [] {
      var n := Width(items[0], pos);
      var d := ItemBits(items[0], pos);
      var bits := Stream(items, pos) + tail;
      assert bits[..n] == d && bits[n..] == Stream(items[1..], pos + n) + tail;
      StreamReadBack(items[1..], pos + n, tail);
      if items[0].Field? {
        DigitsValue(items[0].value, n);
      }
    }
  }

  /** The bits with others written over them from `pos` on. */
  ghost function Overwritten(was: seq<bool>, pos: nat, bits: seq<bool>): (r: seq<bool>)
    requires pos + |bits| <= |was|
    ensures |r| == |was|
  {
    was[..pos] + bits + was[pos + |bits|..]
  }

  lemma OverwrittenNext(was: seq<bool>, pos: nat, bits: seq<bool>, i: nat)
    requires pos + |bits| <= |was| && i < |bits|
    ensures Overwritten(was, pos, bits[..i])[pos + i := bits[i]] == Overwritten(was, pos, bits[..i + 1])
  {
  }

  lemma OverwrittenTwice(was: seq<bool>, pos: nat, a: seq<bool>, b: seq<bool>)
    requires pos + |a| + |b| <= |was|
    ensures Overwritten(Overwritten(was, pos, a), pos + |a|, b) == Overwritten(was, pos, a + b)
  {
  }

  /** A stream is written by writing its first item and then the others. */
  lemma StreamWritten(was: seq<bool>, pos: nat, items: seq<Item>)
    requires items != [] && pos + |Stream(items, pos)| <= |was|
    ensures var first, next := ItemBits(items[0], pos), pos + Width(items[0], pos);
            && |Stream(items, pos)| == |first| + |Stream(items[1..], next)|
            && Overwritten(Overwritten(was, pos, first), next, Stream(items[1..], next)) ==
               Overwritten(was, pos, Stream(items, pos))
  {
    OverwrittenTwice(was, pos, ItemBits(items[0], pos), Stream(items[1..], pos + Width(items[0], pos)));
  }

  lemma WrittenOctetsAre(was: seq<bool>, s: seq<bv8>, from: nat, value: int, len: nat)
    requires from + len <= |was| && BitsOf(s) == Overwritten(was, from, Digits(value, len))
    ensures OctetsAre(s, from, len, value % Pow2(len))
  {
    assert BitsOf(s)[from..from + len] == Digits(value, len);
    Aligned(s, from, len);
    DigitsValue(value, len);
  }

  lemma OverwrittenSame(was: seq<bool>, pos: nat, bits: seq<bool>)
    requires pos + |bits| <= |was| && was[pos..pos + |bits|] == bits
    ensures Overwritten(was, pos, bits) == was
  {
  }

  /** From `pos` on the bits are `s`. */
  ghost predicate Holding(was: seq<bool>, pos: nat, s: seq<bool>) {
    pos + |s| <= |was| && was[pos..pos + |s|] == s
  }

  lemma SplitStream(was: seq<bool>, pos: nat, a: seq<bool>, b: seq<bool>)
    requires Holding(was, pos, a + b)
    ensures Holding(was, pos, a) && Holding(was, pos + |a|, b)
  {
    var s := was[pos..pos + |a + b|];
    assert was[pos..pos + |a|] == s[..|a|] == (a + b)[..|a|];
    assert was[pos + |a|..pos + |a| + |b|] == s[|a|..] == (a + b)[|a|..];
  }

  lemma StreamHeld(was: seq<bool>, pos: nat, items: seq<Item>)
    requires items != [] && Holding(was, pos, Stream(items, pos))
    ensures var next := pos + Width(items[0], pos);
            && Holding(was, pos, ItemBits(items[0], pos)) && Holding(was, next, Stream(items[1..], next))
            && pos + |Stream(items, pos)| == next + |Stream(items[1..], next)|
  {
    SplitStream(was, pos, ItemBits(items[0], pos), Stream(items[1..], pos + Width(items[0], pos)));
  }

  class BitBuffer {
    const data: array<bv8>
    var index: nat

    ghost function Bits(): (bits: seq<bool>)
      reads data
    {
      BitsOf(data[..])
    }

    constructor (data: array<bv8>)
      ensures this.data == data && index == 0
    {
      this.data := data;
      index := 0;
    }

    method Seek(index: nat)
      modifies this
      ensures this.index == index
    {
      this.index := index;
    }

    /** `read`. */
    method Read() returns (b: bool)
      requires index < 8 * data.Length
      modifies this
      ensures index == old(index) + 1 && b == Bits()[old(index)]
      ensures b <==> data[old(index) / 8] as int / Pow2(7 - old(index) % 8) % 2 == 1
    {
      PickedIs(data[index / 8], 7 - index % 8);
      var octetIndex, bitIndex := index / 8, index % 8;
      index := index + 1;
      b := BitOf(data[octetIndex], bitIndex);
    }

    /** One bit more of the value that starts at `start`. */
    method ReadOnto(v: nat, ghost start: nat) returns (v': nat)
      requires start <= index < 8 * data.Length && v == ValueOf(Bits()[start..index])
      modifies this
      ensures index == old(index) + 1 && v' == ValueOf(Bits()[start..index])
    {
      OneMore(Bits(), start, index);
      var b := Read();
      v' := 2 * v + Number(b);
    }

    /** `readBits` and `readBitsLong`, which differ in the width of the result. */
    method ReadBits(len: nat) returns (v: nat)
      requires 0 < len < 64 && index + len <= 8 * data.Length
      modifies this
      ensures index == old(index) + len && v == ValueOf(Bits()[old(index)..index])
      ensures OctetsAre(data[..], old(index), len, v)
    {
      v := 0;
      var left := len;
      while left > 0
        invariant left <= len && index == old(index) + (len - left)
        invariant v == ValueOf(Bits()[old(index)..index])
      {
        left := left - 1;
        v := ReadOnto(v, old(index));
      }
      Aligned(data[..], old(index), len);
    }

    /** `write`. */
    method Write(b: bool)
      requires index < 8 * data.Length
      modifies this, data
      ensures index == old(index) + 1 && Bits() == old(Bits())[old(index) := b]
      ensures var o, weight := old(data[index / 8]) as int, Pow2(7 - old(index) % 8);
              data[old(index) / 8] as int == o + (Number(b) - o / weight % 2) * weight
    {
      var octetIndex, bitIndex := index / 8, index % 8;
      WithBitWeight(data[octetIndex], bitIndex, b);
      WriteOne(data[..], index, b);
      ghost var was := data[..];
      data[octetIndex] := WithBit(data[octetIndex], bitIndex, b);
      assert data[..] == was[octetIndex := WithBit(was[octetIndex], bitIndex, b)];
      index := index + 1;
    }

    /** `writeBits`, for 32-bit and 64-bit values alike. */
    method WriteBits(value: int, len: nat)
      requires len <= 64 && index + len <= 8 * data.Length
      modifies this, data
      ensures index == old(index) + len
      ensures Bits() == Overwritten(old(Bits()), old(index), Digits(value, len))
      ensures OctetsAre(data[..], old(index), len, value % Pow2(len))
    {
      ghost var was, digits, from := Bits(), Digits(value, len), index;
      var i := 0;
      assert Overwritten(was, index, digits[..0]) == was;
      while i < len
        invariant i <= len && index == from + i
        invariant Bits() == Overwritten(was, from, digits[..i])
      {
        DigitAt(value, len, i);
        OverwrittenNext(was, from, digits, i);
        Write(value / Pow2(len - 1 - i) % 2 == 1);
        i := i + 1;
      }
      assert digits[..len] == digits;
      WrittenOctetsAre(was, data[..], from, value, len);
    }

    /** `writtenOctets`: the octets that have a written bit. */
    method WrittenOctets() returns (n: nat)
      ensures 8 * n >= index && 8 * n < index + 8
    {
      n := (index + (8 - index % 8) % 8) / 8;
    }

    /** `octetAlign`: zeros up to the next octet boundary. */
    method OctetAlign()
      requires index <= 8 * data.Length
      modifies this, data
      ensures index % 8 == 0 && index == old(index) + Width(Align, old(index)) < old(index) + 8
      ensures Bits() == Overwritten(old(Bits()), old(index), ItemBits(Align, old(index)))
    {
      var len := (8 - index % 8) % 8;
      WriteBits(0, len);
    }

    // ------------------------------------------------------------ whole streams

    method WriteItem(it: Item)
      requires (it.Field? ==> it.len <= 64) && index + Width(it, index) <= 8 * data.Length
      modifies this, data
      ensures index == old(index) + Width(it, old(index))
      ensures Bits() == Overwritten(old(Bits()), old(index), ItemBits(it, old(index)))
    {
      match it {
        case Field(value, len) => WriteBits(value, len);
        case Align => OctetAlign();
      }
    }

    /** Any list of writes leaves its stream of bits, and changes no others. */
    method WriteAll(items: seq<Item>)
      requires AtMost(items, 64) && index + |Stream(items, index)| <= 8 * data.Length
      modifies this, data
      ensures index == old(index) + |Stream(items, old(index))|
      ensures Bits() == Overwritten(old(Bits()), old(index), Stream(items, old(index)))
      decreases |items|
    {
      ghost var was, start := Bits(), index;
      if items == [] {
        assert Overwritten(was, start, []) == was;
      } else {
        StreamWritten(was, start, items);
        WriteItem(items[0]);
        WriteAll(items[1..]);
      }
    }

    method ReadItem(it: Item) returns (values: seq<nat>)
      requires (it.Field? ==> 0 < it.len < 64) && Holding(Bits(), index, ItemBits(it, index))
      modifies this, data
      ensures index == old(index) + Width(it, old(index)) && Bits() == old(Bits())
      ensures values == if it.Field? then [it.value % Pow2(it.len)] else []
    {
      match it {
        case Field(value, len) =>
          var v := ReadField(value, len);
          values := [v];
        case Align =>
          AlignAgain();
          values := [];
      }
    }

    method ReadField(ghost value: int, len: nat) returns (v: nat)
      requires 0 < len < 64 && Holding(Bits(), index, Digits(value, len))
      modifies this
      ensures index == old(index) + len && v == value % Pow2(len)
    {
      DigitsValue(value, len);
      v := ReadBits(len);
    }

    /** Where the writer aligned, aligning changes nothing. */
    method AlignAgain()
      requires Holding(Bits(), index, ItemBits(Align, index))
      modifies this, data
      ensures index == old(index) + Width(Align, old(index)) && Bits() == old(Bits())
    {
      OverwrittenSame(Bits(), index, ItemBits(Align, index));
      OctetAlign();
    }

    /** Reading the same widths back gives each value modulo two to its width. */
    method ReadAll(items: seq<Item>) returns (values: seq<nat>)
      requires AtMost(items, 63) && Nonempty(items) && Holding(Bits(), index, Stream(items, index))
      modifies this, data
      ensures values == Expected(items) && Bits() == old(Bits()) && index == old(index) + |Stream(items, old(index))|
      decreases |items|
    {
      values := [];
      if items != [] {
        StreamHeld(Bits(), index, items);
        var first := ReadItem(items[0]);
        var rest := ReadAll(items[1..]);
        values := first + rest;
      }
    }
  }
}
