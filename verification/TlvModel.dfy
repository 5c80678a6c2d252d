/**
  Type-length-value messages as values: the bytes a message is rendered to, and
  the elements a block of bytes is parsed to.
*/
module TlvModel {
  import opened Common

  type byte = b: int | 0 <= b < 256

  /** Which fields an element has on the wire, and how wide they are. */
  datatype Mode = T1L1 | T1L2 | T1L2I1 | T2L2 | T1

  /** A list of elements; an element with a `sub` list embeds it instead of its `value`. */
  datatype Msg = End | El(mode: Mode, typ: nat, inst: nat, value: seq<byte>, sub: Msg, next: Msg)

  function HeaderSize(mode: Mode): (n: nat)
    ensures 1 <= n <= 4
  {
    match mode
    case T1L1 => 2
    case T1L2 => 3
    case T1L2I1 => 4
    case T2L2 => 4
    case T1 => 1
  }

  ghost function Size(m: Msg): (n: nat)
    ensures m.El? ==> n >= 1
  {
    match m
    case End => 0
    case El(mode, _, _, _, _, next) => HeaderSize(mode) + BodySize(m) + Size(next)
  }

  ghost function BodySize(m: Msg): (n: nat)
    requires m.El?
    decreases m, 0
  {
    if m.sub.End? then |m.value| else Size(m.sub)
  }

  function Low(x: nat): (b: byte) { x % 256 }

  function High(x: nat): (b: byte) { x / 256 % 256 }

  function Pair(high: byte, low: byte): (x: nat) {
    var h: nat := high;
    h * 256 + low
  }

  function TypeField(mode: Mode, typ: nat): (s: seq<byte>) {
    if mode == T2L2 then [High(typ), Low(typ)] else [Low(typ)]
  }

  function LengthField(mode: Mode, len: nat): (s: seq<byte>) {
    match mode
    case T1L1 => [Low(len)]
    case T1 => []
    case _ => [High(len), Low(len)]
  }

  function InstanceField(mode: Mode, inst: nat): (s: seq<byte>) {
    if mode == T1L2I1 then [Low(inst)] else []
  }

  function Header(mode: Mode, typ: nat, len: nat, inst: nat): (s: seq<byte>)
    ensures |s| == HeaderSize(mode)
  {
    TypeField(mode, typ) + LengthField(mode, len) + InstanceField(mode, inst)
  }

  /** The rendered message. */
  ghost function Bytes(m: Msg): (s: seq<byte>)
    ensures |s| == Size(m)
  {
    match m
    case End => []
    case El(mode, typ, inst, _, _, next) => Header(mode, typ, BodySize(m), inst) + Body(m) + Bytes(next)
  }

  ghost function Body(m: Msg): (s: seq<byte>)
    requires m.El?
    ensures |s| == BodySize(m)
    decreases m, 0
  {
    if m.sub.End? then m.value else Bytes(m.sub)
  }

  // ------------------------------------------------------------------- parsing

  /** What parsing leaves in a node. */
  datatype Flat = Flat(typ: nat, inst: nat, value: seq<byte>)

  function TypeAt(mode: Mode, s: seq<byte>): (typ: nat)
    requires |s| >= HeaderSize(mode)
  {
    if mode == T2L2 then Pair(s[0], s[1]) else s[0]
  }

  function LengthAt(mode: Mode, s: seq<byte>): (len: nat)
    requires |s| >= HeaderSize(mode)
  {
    match mode
    case T1L1 => s[1]
    case T1L2 => Pair(s[1], s[2])
    case T1L2I1 => Pair(s[1], s[2])
    case T2L2 => Pair(s[2], s[3])
    case T1 => 0
  }

  function InstanceAt(mode: Mode, s: seq<byte>): (inst: nat)
    requires |s| >= HeaderSize(mode)
  {
    if mode == T1L2I1 then s[3] % 16 else 0
  }

  /** The first element and everything behind it fit into the block. */
  ghost predicate ElementFits(mode: Mode, s: seq<byte>) {
    |s| >= HeaderSize(mode) && |s| >= HeaderSize(mode) + LengthAt(mode, s)
  }

  ghost function ElementEnd(mode: Mode, s: seq<byte>): (n: nat)
    requires ElementFits(mode, s)
    ensures 1 <= n <= |s|
  {
    HeaderSize(mode) + LengthAt(mode, s)
  }

  ghost function FirstElement(mode: Mode, s: seq<byte>): (f: Flat)
    requires ElementFits(mode, s)
  {
    Flat(TypeAt(mode, s), InstanceAt(mode, s), s[HeaderSize(mode)..ElementEnd(mode, s)])
  }

  /** The elements of a block, or nothing if it is not made of whole elements. */
  ghost function Parsed(mode: Mode, s: seq<byte>): (r: Option<seq<Flat>>)
    decreases |s|
  {
    if !ElementFits(mode, s) then None
    else
      var rest := s[ElementEnd(mode, s)..];
      if rest == [] then Some([FirstElement(mode, s)])
      else match Parsed(mode, rest)
        case None => None
        case Some(fs) => Some([FirstElement(mode, s)] + fs)
  }

  // --------------------------------------------------------------- on the wire

  /** Where the fields of a rendered element stand: the high octet first, and cut to the width of the field. */
  lemma WireRendered(m: Msg)
    requires m.El?
    ensures var s, body := Bytes(m), if m.sub.End? then m.value else Bytes(m.sub);
      match m.mode
      case T1L1 => s[0] == m.typ % 256 && s[1] == |body| % 256 && s[2..] == body + Bytes(m.next)
      case T1L2 =>
        && s[0] == m.typ % 256 && s[1] as int * 256 + s[2] as int == |body| % 65536
        && s[3..] == body + Bytes(m.next)
      case T1L2I1 =>
        && s[0] == m.typ % 256 && s[1] as int * 256 + s[2] as int == |body| % 65536 && s[3] == m.inst % 256
        && s[4..] == body + Bytes(m.next)
      case T2L2 =>
        && s[0] as int * 256 + s[1] as int == m.typ % 65536
        && s[2] as int * 256 + s[3] as int == |body| % 65536 && s[4..] == body + Bytes(m.next)
      case T1 => s[0] == m.typ % 256 && s[1..] == body + Bytes(m.next)
  {
    HeaderOctets(m.mode, m.typ, BodySize(m), m.inst);
    BytesCons(m);
    Joined(Header(m.mode, m.typ, BodySize(m), m.inst), Body(m) + Bytes(m.next));
  }

  lemma Joined(h: seq<byte>, rest: seq<byte>)
    ensures (h + rest)[|h|..] == rest && forall i :: 0 <= i < |h| ==> (h + rest)[i] == h[i]
  {
  }

  lemma HeaderOctets(mode: Mode, typ: nat, len: nat, inst: nat)
    ensures var h := Header(mode, typ, len, inst);
      match mode
      case T1L1 => |h| == 2 && h[0] == typ % 256 && h[1] == len % 256
      case T1L2 => |h| == 3 && h[0] == typ % 256 && h[1] as int * 256 + h[2] as int == len % 65536
      case T1L2I1 =>
        |h| == 4 && h[0] == typ % 256 && h[1] as int * 256 + h[2] as int == len % 65536 && h[3] == inst % 256
      case T2L2 =>
        && |h| == 4 && h[0] as int * 256 + h[1] as int == typ % 65536
        && h[2] as int * 256 + h[3] as int == len % 65536
      case T1 => |h| == 1 && h[0] == typ % 256
  {
    TwoOctets(typ);
    TwoOctets(len);
  }

  lemma TwoOctets(x: nat)
    ensures High(x) as int * 256 + Low(x) as int == x % 65536
  {
    assert x == x / 256 * 256 + x % 256 && x / 256 == x / 256 / 256 * 256 + x / 256 % 256;
    assert x / 256 / 256 == x / 65536;
  }

  lemma SliceTwice(s: seq<byte>, a: nat, b: nat)
    requires a + b <= |s|
    ensures s[a..][b..] == s[a + b..]
  {
  }

  /** The element of a parsed block that starts at `n`. */
  lemma {:induction false} ElementOf(mode: Mode, s: seq<byte>, k: nat) returns (n: nat)
    requires Parsed(mode, s).Some? && k < |Parsed(mode, s).value|
    ensures n <= |s| && StartsAt(mode, s, k, n) && ElementFits(mode, s[n..])
    ensures Parsed(mode, s).value[k] == FirstElement(mode, s[n..])
    decreases |s|
  {
    ParsedCons(mode, s);
    if k == 0 {
      n := 0;
      assert s[0..] == s;
    } else {
      var e := ElementEnd(mode, s);
      var rest := s[e..];
      var n' := ElementOf(mode, rest, k - 1);
      n := e + n';
      assert Parsed(mode, rest).value == Parsed(mode, s).value[1..];
      assert Parsed(mode, s).value[k] == FirstElement(mode, rest[n'..]);
      SliceTwice(s, e, n');
      assert s[n..] == rest[n'..];
      assert n' == 0 || n' < |rest|;
    }
  }

  /** Where the fields of every element of a parsed block stood, `r` being the block from there on. */
  lemma WireParsed(mode: Mode, s: seq<byte>, k: nat) returns (n: nat)
    requires Parsed(mode, s).Some? && k < |Parsed(mode, s).value|
    ensures n < |s| && StartsAt(mode, s, k, n)
    ensures var f, r := Parsed(mode, s).value[k], s[n..];
      match mode
      case T1L1 =>
        |r| >= 2 && var len := r[1] as int; |r| >= 2 + len && f == Flat(r[0], 0, r[2..2 + len])
      case T1L2 =>
        |r| >= 3 && var len := r[1] as int * 256 + r[2] as int;
        |r| >= 3 + len && f == Flat(r[0], 0, r[3..3 + len])
      case T1L2I1 =>
        |r| >= 4 && var len := r[1] as int * 256 + r[2] as int;
        |r| >= 4 + len && f == Flat(r[0], r[3] % 16, r[4..4 + len])
      case T2L2 =>
        |r| >= 4 && var len := r[2] as int * 256 + r[3] as int;
        |r| >= 4 + len && f == Flat(r[0] as int * 256 + r[1] as int, 0, r[4..4 + len])
      case T1 => f == Flat(r[0], 0, [])
  {
    n := ElementOf(mode, s, k);
  }

  /** Instance 0, type 1 and value 9, with the type first and the length in two octets. */
  lemma OneElement()
    ensures Bytes(El(T1L2I1, 1, 0, [9], End, End)) == [1, 0, 1, 0, 9]
    ensures Parsed(T1L2I1, [1, 0, 1, 0, 9]) == Some([Flat(1, 0, [9])])
  {
    OneRendered(El(T1L2I1, 1, 0, [9], End, End));
    OneParsed([1, 0, 1, 0, 9]);
  }

  lemma OneRendered(m: Msg)
    requires m == El(T1L2I1, 1, 0, [9], End, End)
    ensures Bytes(m) == [1, 0, 1, 0, 9]
  {
    HeaderOctets(T1L2I1, 1, 1, 0);
    BytesCons(m);
    assert Body(m) == [9] && Bytes(m.next) == [];
  }

  lemma OneParsed(s: seq<byte>)
    requires |s| == 5 && s[0] == 1 && s[1] == 0 && s[2] == 1 && s[3] == 0 && s[4] == 9
    ensures Parsed(T1L2I1, s) == Some([Flat(1, 0, [9])])
  {
    assert LengthAt(T1L2I1, s) == 1 && ElementEnd(T1L2I1, s) == 5;
    assert s[5..] == [] && s[4..5] == [9];
    ParsedStep(T1L2I1, s);
  }

  // ---------------------------------------------------------------- round trip

  ghost predicate TypeFits(mode: Mode, typ: nat) {
    typ < if mode == T2L2 then 65536 else 256
  }

  ghost predicate LengthFits(mode: Mode, len: nat) {
    len < match mode
          case T1L1 => 256
          case T1 => 1
          case _ => 65536
  }

  /** Every element, at every depth, has this mode and fields that its header can carry. */
  ghost predicate Fits(mode: Mode, m: Msg) {
    m.End? ||
    (m.mode == mode && TypeFits(mode, m.typ) && LengthFits(mode, BodySize(m)) &&
      (if mode == T1L2I1 then m.inst < 16 else m.inst == 0)
     && Fits(mode, m.sub) && Fits(mode, m.next))
  }

  /** The elements hold what the message says; embedded ones hold a block that does, once parsed. */
  ghost predicate Recovered(mode: Mode, m: Msg, fs: seq<Flat>) {
    match m
    case End => fs == []
    case El(_, typ, inst, value, sub, next) =>
      && fs != [] && fs[0].typ == typ && fs[0].inst == inst
      && (if sub.End? then fs[0].value == value
          else Parsed(mode, fs[0].value).Some? && Recovered(mode, sub, Parsed(mode, fs[0].value).value))
      && Recovered(mode, next, fs[1..])
  }

  lemma TwoBytes(x: nat)
    ensures x < 256 ==> Low(x) == x
    ensures x < 65536 ==> High(x) * 256 + Low(x) == x
  {
    assert x == (x / 256) * 256 + x % 256;
    if x < 65536 {
      assert x / 256 < 256;
      assert (x / 256) % 256 == x / 256;
    }
  }

  /** Reading the header back from the rendered element. */
  lemma HeaderRead(mode: Mode, typ: nat, len: nat, inst: nat, tail: seq<byte>)
    requires TypeFits(mode, typ) && LengthFits(mode, len) && (if mode == T1L2I1 then inst < 16 else inst == 0)
    ensures var s := Header(mode, typ, len, inst) + tail;
            TypeAt(mode, s) == typ && LengthAt(mode, s) == len && InstanceAt(mode, s) == inst
  {
    TwoBytes(typ);
    TwoBytes(len);
    TwoBytes(inst);
  }

  lemma FirstRead(mode: Mode, typ: nat, inst: nat, body: seq<byte>, tail: seq<byte>)
    requires TypeFits(mode, typ) && LengthFits(mode, |body|) && (if mode == T1L2I1 then inst < 16 else inst == 0)
    ensures var s := Header(mode, typ, |body|, inst) + body + tail;
            ElementFits(mode, s) && FirstElement(mode, s) == Flat(typ, inst, body) && s[ElementEnd(mode, s)..] == tail
  {
    var h := Header(mode, typ, |body|, inst);
    var s := h + body + tail;
    assert s == h + (body + tail);
    HeaderRead(mode, typ, |body|, inst, body + tail);
    assert s[|h|..|h| + |body|] == body;
  }

  /** Parsing the rendered bytes, and then every embedded value, recovers the message. */
  lemma {:induction false} RoundTrip(mode: Mode, m: Msg)
    requires m.El? && Fits(mode, m)
    ensures Parsed(mode, Bytes(m)).Some? && Recovered(mode, m, Parsed(mode, Bytes(m)).value)
  {
    FirstRead(mode, m.typ, m.inst, Body(m), Bytes(m.next));
    var s := Bytes(m);
    assert s == Header(mode, m.typ, BodySize(m), m.inst) + Body(m) + Bytes(m.next);
    if m.sub.El? {
      RoundTrip(mode, m.sub);
    }
    if m.next.El? {
      RoundTrip(mode, m.next);
      assert Bytes(m.next) != [];
      var fs := Parsed(mode, Bytes(m.next)).value;
      assert ([FirstElement(mode, s)] + fs)[1..] == fs;
    }
  }

  // -------------------------------------------------- exactly when it round-trips

  ghost predicate OneMode(mode: Mode, m: Msg) {
    m.El? ==> m.mode == mode && OneMode(mode, m.sub) && OneMode(mode, m.next)
  }

  /** What the header of any element reads as. */
  lemma HeaderReadAnyway(mode: Mode, typ: nat, len: nat, inst: nat, tail: seq<byte>)
    ensures var s := Header(mode, typ, len, inst) + tail;
      && (TypeAt(mode, s) == typ ==> TypeFits(mode, typ))
      && (LengthAt(mode, s) == len ==> LengthFits(mode, len))
      && (InstanceAt(mode, s) == inst ==> if mode == T1L2I1 then inst < 16 else inst == 0)
  {
  }

  /** Recovered elements are as long as the message. */
  lemma {:induction false} RecoveredSize(mode: Mode, m: Msg, fs: seq<Flat>)
    requires OneMode(mode, m) && Recovered(mode, m, fs)
    ensures Size(Message(mode, fs)) == Size(m)
    decreases m, 1
  {
    if m.El? {
      RecoveredSize(mode, m.next, fs[1..]);
      if m.sub.El? {
        RecoveredBody(mode, m, fs);
      }
    }
  }

  lemma {:induction false} RecoveredBody(mode: Mode, m: Msg, fs: seq<Flat>)
    requires m.El? && OneMode(mode, m) && Recovered(mode, m, fs)
    ensures |fs[0].value| == BodySize(m)
    decreases m, 0
  {
    if m.sub.El? {
      AcceptedIsWhole(mode, fs[0].value);
      RecoveredSize(mode, m.sub, Parsed(mode, fs[0].value).value);
    }
  }

  /** A recovered first element had fields that fit. */
  lemma FieldsFit(mode: Mode, typ: nat, len: nat, inst: nat, tail: seq<byte>)
    requires ElementFits(mode, Header(mode, typ, len, inst) + tail)
    requires var f := FirstElement(mode, Header(mode, typ, len, inst) + tail);
             f.typ == typ && f.inst == inst && |f.value| == len
    ensures TypeFits(mode, typ) && LengthFits(mode, len) && (if mode == T1L2I1 then inst < 16 else inst == 0)
  {
    HeaderReadAnyway(mode, typ, len, inst, tail);
  }

  lemma BytesCons(m: Msg)
    requires m.El?
    ensures Bytes(m) == Header(m.mode, m.typ, BodySize(m), m.inst) + (Body(m) + Bytes(m.next))
    ensures Bytes(m) == Header(m.mode, m.typ, BodySize(m), m.inst) + Body(m) + Bytes(m.next)
  {
  }

  /** Then it was read as it was written, and so was everything behind it. */
  lemma FirstFits(mode: Mode, m: Msg, fs: seq<Flat>)
    requires m.El? && OneMode(mode, m) && Parsed(mode, Bytes(m)) == Some(fs) && Recovered(mode, m, fs)
    ensures TypeFits(mode, m.typ) && LengthFits(mode, BodySize(m))
    ensures if mode == T1L2I1 then m.inst < 16 else m.inst == 0
    ensures fs != [] && fs[0].value == Body(m)
    ensures if m.next.End? then fs[1..] == [] else Parsed(mode, Bytes(m.next)) == Some(fs[1..])
  {
    ParsedCons(mode, Bytes(m));
    RecoveredBody(mode, m, fs);
    BytesCons(m);
    FieldsFit(mode, m.typ, BodySize(m), m.inst, Body(m) + Bytes(m.next));
    FirstRead(mode, m.typ, m.inst, Body(m), Bytes(m.next));
  }

  lemma {:induction false} OnlyIfFits(mode: Mode, m: Msg, fs: seq<Flat>)
    requires m.El? && OneMode(mode, m) && Parsed(mode, Bytes(m)) == Some(fs) && Recovered(mode, m, fs)
    ensures Fits(mode, m)
  {
    FirstFits(mode, m, fs);
    if m.sub.El? {
      OnlyIfFits(mode, m.sub, Parsed(mode, fs[0].value).value);
    }
    if m.next.El? {
      OnlyIfFits(mode, m.next, fs[1..]);
    }
  }

  /** The message is recovered exactly if every field fits its header. */
  lemma RoundTripExact(mode: Mode, m: Msg)
    requires m.El? && OneMode(mode, m)
    ensures Parsed(mode, Bytes(m)).Some? && Recovered(mode, m, Parsed(mode, Bytes(m)).value) <==> Fits(mode, m)
  {
    if Fits(mode, m) {
      RoundTrip(mode, m);
    }
    if Parsed(mode, Bytes(m)).Some? && Recovered(mode, m, Parsed(mode, Bytes(m)).value) {
      OnlyIfFits(mode, m, Parsed(mode, Bytes(m)).value);
    }
  }

  /** Type 256 needs nine bits: with one octet for the type it comes back as type 0. */
  lemma TypeCut()
    ensures var m := El(T1L1, 256, 0, [], End, End);
            OneMode(T1L1, m) && Parsed(T1L1, Bytes(m)) == Some([Flat(0, 0, [])])
            && !Recovered(T1L1, m, Parsed(T1L1, Bytes(m)).value)
  {
    var m := El(T1L1, 256, 0, [], End, End);
    BytesCons(m);
    assert Bytes(m) == [0, 0];
  }

  // ------------------------------------------------------------ rendering again

  /** The elements as a flat message. */
  ghost function Message(mode: Mode, fs: seq<Flat>): (m: Msg) {
    if fs == [] then End else El(mode, fs[0].typ, fs[0].inst, fs[0].value, End, Message(mode, fs[1..]))
  }

  /** The first element of a block, with its spare bits cleared. */
  ghost function MaskedFirst(mode: Mode, s: seq<byte>): (r: seq<byte>)
    requires ElementFits(mode, s)
  {
    if mode == T1L2I1 then s[..3] + [s[3] % 16] + s[4..ElementEnd(mode, s)] else s[..ElementEnd(mode, s)]
  }

  /** The block with the four spare bits of each instance octet cleared. */
  ghost function Masked(mode: Mode, s: seq<byte>): (r: seq<byte>)
    decreases |s|
  {
    if !ElementFits(mode, s) then s
    else MaskedFirst(mode, s) + Masked(mode, s[ElementEnd(mode, s)..])
  }

  lemma {:induction false} MaskedSame(mode: Mode, s: seq<byte>)
    requires mode != T1L2I1
    ensures Masked(mode, s) == s
    decreases |s|
  {
    if ElementFits(mode, s) {
      MaskedSame(mode, s[ElementEnd(mode, s)..]);
    }
  }

  lemma SplitByte(a: byte, b: byte)
    ensures High(Pair(a, b)) == a && Low(Pair(a, b)) == b
  {
    assert Pair(a, b) / 256 == a;
  }

  lemma LowIs(a: byte)
    ensures Low(a) == a
  {
  }

  /** The header written for what was read is the header that was read. */
  lemma HeaderWritten(mode: Mode, s: seq<byte>)
    requires |s| >= HeaderSize(mode)
    ensures var h := Header(mode, TypeAt(mode, s), LengthAt(mode, s), InstanceAt(mode, s));
            h == if mode == T1L2I1 then s[..3] + [s[3] % 16] else s[..HeaderSize(mode)]
  {
    LowIs(s[0]);
    match mode {
      case T1L1 =>
        LowIs(s[1]);
        assert s[..2] == [s[0]] + [s[1]];
      case T1L2 =>
        SplitByte(s[1], s[2]);
        assert s[..3] == [s[0]] + [s[1], s[2]];
      case T1L2I1 =>
        SplitByte(s[1], s[2]);
        LowIs(s[3] % 16);
        assert s[..3] == [s[0]] + [s[1], s[2]];
      case T2L2 =>
        SplitByte(s[0], s[1]);
        SplitByte(s[2], s[3]);
        assert s[..4] == [s[0], s[1]] + [s[2], s[3]];
      case T1 =>
        assert s[..1] == [s[0]];
    }
  }

  lemma FirstAgain(mode: Mode, s: seq<byte>)
    requires ElementFits(mode, s)
    ensures var f := FirstElement(mode, s);
            Header(mode, f.typ, |f.value|, f.inst) + f.value == MaskedFirst(mode, s)
  {
    HeaderWritten(mode, s);
    Halves(s, HeaderSize(mode), ElementEnd(mode, s));
  }

  lemma Halves(s: seq<byte>, h: nat, n: nat)
    requires h <= n <= |s|
    ensures s[..n] == s[..h] + s[h..n]
  {
  }

  lemma ParsedCons(mode: Mode, s: seq<byte>)
    requires Parsed(mode, s).Some?
    ensures ElementFits(mode, s)
    ensures var rest, fs := s[ElementEnd(mode, s)..], Parsed(mode, s).value;
            && fs != [] && fs[0] == FirstElement(mode, s)
            && if rest == [] then fs[1..] == [] else Parsed(mode, rest) == Some(fs[1..])
  {
  }

  /** An accepted block renders to itself again, apart from the spare bits. */
  lemma {:induction false} RenderAgain(mode: Mode, s: seq<byte>)
    requires Parsed(mode, s).Some?
    ensures Bytes(Message(mode, Parsed(mode, s).value)) == Masked(mode, s)
    decreases |s|
  {
    ParsedCons(mode, s);
    FirstAgain(mode, s);
    var rest, f, fs := s[ElementEnd(mode, s)..], FirstElement(mode, s), Parsed(mode, s).value;
    if rest != [] {
      RenderAgain(mode, rest);
    }
    assert Bytes(Message(mode, fs)) == Header(mode, f.typ, |f.value|, f.inst) + f.value + Bytes(Message(mode, fs[1..]));
    assert Masked(mode, s) == MaskedFirst(mode, s) + Masked(mode, rest);
  }

  /** Where there are no spare bits the block renders to itself. */
  lemma RendersToItself(mode: Mode, s: seq<byte>)
    requires Parsed(mode, s).Some? && mode != T1L2I1
    ensures Bytes(Message(mode, Parsed(mode, s).value)) == s
  {
    RenderAgain(mode, s);
    MaskedSame(mode, s);
  }

  /** Only whole, non-empty blocks are accepted, and the elements fill them exactly. */
  lemma AcceptedIsWhole(mode: Mode, s: seq<byte>)
    requires Parsed(mode, s).Some?
    ensures s != [] && Parsed(mode, s).value != [] && Size(Message(mode, Parsed(mode, s).value)) == |s|
  {
    RenderAgain(mode, s);
    MaskedLength(mode, s);
  }

  lemma {:induction false} MaskedLength(mode: Mode, s: seq<byte>)
    ensures |Masked(mode, s)| == |s|
    decreases |s|
  {
    if ElementFits(mode, s) {
      MaskedLength(mode, s[ElementEnd(mode, s)..]);
    }
  }

  // --------------------------------------------------------------- over-reading

  /** Element number `k` starts at `n`: the first at the front, the others inside the block behind a whole one. */
  ghost predicate StartsAt(mode: Mode, s: seq<byte>, k: nat, n: nat) {
    if k == 0 then n == 0
    else ElementFits(mode, s) && ElementEnd(mode, s) <= n < |s| &&
         StartsAt(mode, s[ElementEnd(mode, s)..], k - 1, n - ElementEnd(mode, s))
  }

  /** The block does not break off inside the header of any of its first `avail` elements; nor is it empty. */
  ghost predicate HeadersInside(mode: Mode, s: seq<byte>, avail: nat) {
    forall k: nat, n: nat {:trigger StartsAt(mode, s, k, n)} ::
      k < avail && StartsAt(mode, s, k, n) ==> n + HeaderSize(mode) <= |s|
  }

  /** The same, element by element. */
  ghost predicate StaysInside(mode: Mode, s: seq<byte>, avail: nat) {
    avail == 0 ||
    (&& |s| >= HeaderSize(mode)
     && (ElementFits(mode, s) && ElementEnd(mode, s) < |s| ==>
          StaysInside(mode, s[ElementEnd(mode, s)..], avail - 1)))
  }

  lemma {:induction false} StartsAreInside(mode: Mode, s: seq<byte>, avail: nat, k: nat, n: nat)
    requires StaysInside(mode, s, avail) && k < avail && StartsAt(mode, s, k, n)
    ensures n + HeaderSize(mode) <= |s|
  {
    if k > 0 {
      StartsAreInside(mode, s[ElementEnd(mode, s)..], avail - 1, k - 1, n - ElementEnd(mode, s));
    }
  }

  lemma {:induction false} InsideStays(mode: Mode, s: seq<byte>, avail: nat)
    requires HeadersInside(mode, s, avail)
    ensures StaysInside(mode, s, avail)
  {
    if avail > 0 {
      assert StartsAt(mode, s, 0, 0);
      if ElementFits(mode, s) && ElementEnd(mode, s) < |s| {
        var e := ElementEnd(mode, s);
        forall k: nat, n: nat {:trigger StartsAt(mode, s[e..], k, n)} | k < avail - 1 && StartsAt(mode, s[e..], k, n)
          ensures n + HeaderSize(mode) <= |s[e..]|
        {
          assert n < |s[e..]|;
          assert StartsAt(mode, s, k + 1, e + n);
        }
        InsideStays(mode, s[e..], avail - 1);
      }
    }
  }

  /** The octets behind the last whole element. */
  ghost function Leftover(mode: Mode, s: seq<byte>): (r: seq<byte>)
    decreases |s|
  {
    if ElementFits(mode, s) then Leftover(mode, s[ElementEnd(mode, s)..]) else s
  }

  /** How many whole elements come before them. */
  ghost function Whole(mode: Mode, s: seq<byte>): (n: nat)
    decreases |s|
  {
    if ElementFits(mode, s) then 1 + Whole(mode, s[ElementEnd(mode, s)..]) else 0
  }

  lemma {:induction false} LeftoverInside(mode: Mode, s: seq<byte>, avail: nat)
    ensures StaysInside(mode, s, avail) <==>
            avail <= Whole(mode, s) ||
            (s != [] && (Leftover(mode, s) == [] || |Leftover(mode, s)| >= HeaderSize(mode)))
  {
    if avail > 0 && ElementFits(mode, s) {
      var rest := s[ElementEnd(mode, s)..];
      LeftoverInside(mode, rest, avail - 1);
      assert rest == [] ==> Leftover(mode, rest) == [];
    }
  }

  /**
    How far the parser reads, from the element at `pos` on, in a memory that holds a
    block of `length` octets, with `avail` nodes for the elements: the end of the last
    header it looks at, or of the first one that is not in the memory.
  */
  ghost function ReadEnd(mode: Mode, data: seq<byte>, pos: nat, length: nat, avail: nat): (end: nat)
    ensures end >= pos + HeaderSize(mode)
    decreases avail
  {
    var end := pos + HeaderSize(mode);
    if avail <= 1 || end > |data| || NextAt(mode, data, pos) >= length then end
    else ReadEnd(mode, data, NextAt(mode, data, pos), length, avail - 1)
  }

  /** How far it reads in all. */
  ghost function Extent(mode: Mode, data: seq<byte>, length: nat, avail: nat): (end: nat) {
    if avail == 0 then 0 else ReadEnd(mode, data, 0, length, avail)
  }

  lemma {:induction false} ReadEndInside(mode: Mode, block: seq<byte>, data: seq<byte>, pos: nat, avail: nat)
    requires block <= data && pos <= |block| && avail > 0
    ensures ReadEnd(mode, data, pos, |block|, avail) <= |block| <==> StaysInside(mode, block[pos..], avail)
    decreases avail
  {
    if pos + HeaderSize(mode) <= |data| {
      SameElement(mode, block, data, pos);
      var next := NextAt(mode, data, pos);
      if next < |block| && avail > 1 {
        assert block[pos..][ElementEnd(mode, block[pos..])..] == block[next..];
        ReadEndInside(mode, block, data, next, avail - 1);
      }
    }
  }

  /**
    The parser never reads past the end of a block exactly if every element that
    starts in it, and that there is a node for, has its whole header in it. What is the
    same: the nodes run out before the octets behind the last whole element are
    reached, or the block is not empty and these octets are none or at least a header.
  */
  lemma NoOverRead(mode: Mode, block: seq<byte>, data: seq<byte>, avail: nat)
    requires block <= data
    ensures Extent(mode, data, |block|, avail) <= |block| <==> HeadersInside(mode, block, avail)
    ensures Extent(mode, data, |block|, avail) <= |block| <==>
            avail <= Whole(mode, block) ||
            (block != [] && (Leftover(mode, block) == [] || |Leftover(mode, block)| >= HeaderSize(mode)))
  {
    assert block[0..] == block;
    if avail > 0 {
      ReadEndInside(mode, block, data, 0, avail);
    }
    LeftoverInside(mode, block, avail);
    if StaysInside(mode, block, avail) {
      forall k: nat, n: nat {:trigger StartsAt(mode, block, k, n)} | k < avail && StartsAt(mode, block, k, n)
        ensures n + HeaderSize(mode) <= |block|
      {
        StartsAreInside(mode, block, avail, k, n);
      }
    } else if HeadersInside(mode, block, avail) {
      InsideStays(mode, block, avail);
    }
  }

  /** It reads at most one header past the end. */
  lemma {:induction false} OverReadBound(mode: Mode, data: seq<byte>, pos: nat, length: nat, avail: nat)
    requires pos <= length
    ensures ReadEnd(mode, data, pos, length, avail) <= length + HeaderSize(mode)
    decreases avail
  {
    if avail > 1 && pos + HeaderSize(mode) <= |data| && NextAt(mode, data, pos) < length {
      OverReadBound(mode, data, NextAt(mode, data, pos), length, avail - 1);
    }
  }

  lemma {:induction false} AcceptedLeavesNothing(mode: Mode, s: seq<byte>)
    requires Parsed(mode, s).Some?
    ensures Leftover(mode, s) == [] && s != []
    decreases |s|
  {
    ParsedCons(mode, s);
    var rest := s[ElementEnd(mode, s)..];
    if rest != [] {
      AcceptedLeavesNothing(mode, rest);
    }
  }

  /** Nothing behind an accepted block is read, whatever it is in; nor behind a rendered message whose fields fit. */
  lemma AcceptedReadsInside(mode: Mode, block: seq<byte>, data: seq<byte>, avail: nat, m: Msg)
    requires block <= data && (Parsed(mode, block).Some? || (m.El? && Fits(mode, m) && block == Bytes(m)))
    ensures Extent(mode, data, |block|, avail) <= |block|
  {
    if Parsed(mode, block).None? {
      RoundTrip(mode, m);
    }
    AcceptedLeavesNothing(mode, block);
    NoOverRead(mode, block, data, avail);
  }

  /** A block that ends inside a header is read past its end, if there is a node: one octet, where two are needed. */
  lemma CutHeader(behind: seq<byte>, avail: nat)
    ensures Parsed(T1L1, [7]) == None && Extent(T1L1, [7] + behind, 1, avail) == if avail == 0 then 0 else 2
  {
  }

  /** A block whose last value is cut off is refused without being read past its end. */
  lemma CutValue(behind: seq<byte>, avail: nat)
    ensures Parsed(T1L1, [7, 2, 9]) == None && Extent(T1L1, [7, 2, 9] + behind, 3, avail) <= 2
  {
  }

  // ---------------------------------------------------------- parsing in a loop

  /** The octets a value points to; what lies behind the known memory reads as 0. */
  function Slice(s: seq<byte>, from: nat, len: nat): (r: seq<byte>)
    ensures |r| == len && (from + len <= |s| ==> r == s[from..from + len])
  {
    seq(len, i requires 0 <= i < len => if from + i < |s| then s[from + i] else 0)
  }

  ghost function Prepend(fs: seq<Flat>, r: Option<seq<Flat>>): (q: Option<seq<Flat>>) {
    match r
    case None => None
    case Some(gs) => Some(fs + gs)
  }

  /** What is known of the block once `fs` has been read up to `pos`. */
  ghost predicate Progress(mode: Mode, block: seq<byte>, pos: nat, fs: seq<Flat>) {
    if pos < |block| then Parsed(mode, block) == Prepend(fs, Parsed(mode, block[pos..]))
    else Parsed(mode, block) == if pos == |block| then Some(fs) else None
  }

  /** The element read at `pos` of the memory the block is in. */
  ghost function ElementAt(mode: Mode, data: seq<byte>, pos: nat): (f: Flat)
    requires pos + HeaderSize(mode) <= |data|
  {
    var s := data[pos..];
    Flat(TypeAt(mode, s), InstanceAt(mode, s), Slice(data, pos + HeaderSize(mode), LengthAt(mode, s)))
  }

  ghost function NextAt(mode: Mode, data: seq<byte>, pos: nat): (next: nat)
    requires pos + HeaderSize(mode) <= |data|
  {
    pos + HeaderSize(mode) + LengthAt(mode, data[pos..])
  }

  lemma SliceOfPrefix(block: seq<byte>, data: seq<byte>, pos: nat, h: nat, len: nat)
    requires block <= data && pos + h + len <= |block|
    ensures block[pos..][h..h + len] == data[pos + h..pos + h + len]
  {
    var a, b := block[pos..][h..h + len], data[pos + h..pos + h + len];
    forall k | 0 <= k < len ensures a[k] == b[k] {
      assert block[pos + h + k] == data[pos + h + k];
    }
  }

  /** Octets behind the block do not matter for what is accepted. */
  lemma SameElement(mode: Mode, block: seq<byte>, data: seq<byte>, pos: nat)
    requires block <= data && pos + HeaderSize(mode) <= |data| && pos <= |block|
    ensures ElementFits(mode, block[pos..]) <==> NextAt(mode, data, pos) <= |block|
    ensures ElementFits(mode, block[pos..]) ==> FirstElement(mode, block[pos..]) == ElementAt(mode, data, pos)
    ensures ElementFits(mode, block[pos..]) ==> pos + ElementEnd(mode, block[pos..]) == NextAt(mode, data, pos)
  {
    var a, b := block[pos..], data[pos..];
    assert a <= b;
    var h := HeaderSize(mode);
    if |a| >= h {
      assert forall k :: 0 <= k < h ==> a[k] == b[k];
      var len := LengthAt(mode, b);
      assert LengthAt(mode, a) == len;
      if h + len <= |a| {
        SliceOfPrefix(block, data, pos, h, len);
      }
    }
  }

  lemma PrependTwice(fs: seq<Flat>, f: Flat, r: Option<seq<Flat>>)
    ensures Prepend(fs, Prepend([f], r)) == Prepend(fs + [f], r)
  {
    if r.Some? {
      assert fs + ([f] + r.value) == (fs + [f]) + r.value;
    }
  }

  lemma ParsedStep(mode: Mode, s: seq<byte>)
    requires ElementFits(mode, s)
    ensures var rest, f := s[ElementEnd(mode, s)..], FirstElement(mode, s);
            Parsed(mode, s) == if rest == [] then Some([f]) else Prepend([f], Parsed(mode, rest))
  {
  }

  lemma ProgressStep(mode: Mode, block: seq<byte>, data: seq<byte>, pos: nat, fs: seq<Flat>)
    requires block <= data && pos + HeaderSize(mode) <= |data| && pos <= |block|
    requires Parsed(mode, block) == Prepend(fs, Parsed(mode, block[pos..]))
    ensures Progress(mode, block, NextAt(mode, data, pos), fs + [ElementAt(mode, data, pos)])
  {
    SameElement(mode, block, data, pos);
    var a, f, next := block[pos..], ElementAt(mode, data, pos), NextAt(mode, data, pos);
    if ElementFits(mode, a) {
      ParsedStep(mode, a);
      assert a[ElementEnd(mode, a)..] == block[next..];
      PrependTwice(fs, f, Parsed(mode, block[next..]));
    }
  }
}
