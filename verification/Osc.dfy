/**
 OSC packets: the writer of common/scsynthsend.h and the bundle walk of
 common/SC_OscUtils.hpp with the message reader it uses.
 */
module Osc {
  import opened Words

  newtype byte = x: int | 0 <= x < 256

  predicate FitsInt32(i: int) { -0x8000_0000 <= i < 0x8000_0000 }

  // ----- the wire format

  /** A 32-bit pattern in network byte order. */
  function Be32(w: int): (r: seq<byte>)
    requires 0 <= w < WORD32
    ensures |r| == 4
  {
    [(w / 0x100_0000) as byte, (w / 0x1_0000 % 256) as byte, (w / 256 % 256) as byte, (w % 256) as byte]
  }

  function EncInt(i: int): (r: seq<byte>)
    ensures |r| == 4
  {
    Be32(i % WORD32)
  }

  function Zeros(n: nat): (r: seq<byte>)
    ensures |r| == n && forall i :: 0 <= i < n ==> r[i] == 0
  {
    if n == 0 then [] else [0] + Zeros(n - 1)
  }

  /** A C string: no NUL inside. */
  ghost predicate CString(s: seq<byte>) { forall i :: 0 <= i < |s| ==> s[i] != 0 }

  /** NUL-terminated and zero-padded to a multiple of four bytes. */
  function EncStr(s: seq<byte>): (r: seq<byte>)
    ensures |r| == 4 * ((|s| + 4) / 4) && |r| % 4 == 0 && r != []
  {
    s + Zeros(4 - |s| % 4)
  }

  /** The arguments the printer knows; floats are their bit patterns. */
  datatype Arg =
    | IntArg(i: int)
    | FloatArg(bits: int)
    | DoubleArg(pattern: int)
    | StrArg(s: seq<byte>)
    | BlobArg(blob: seq<byte>)
    | MidiArg(b0: byte, b1: byte, b2: byte, b3: byte)
    | CharArg(c: int)
    | TimeArg(time: int)
    | OpenArg
    | CloseArg
    | TrueArg
    | FalseArg
    | InfinitumArg
    | NilArg

  datatype Msg = Msg(address: seq<byte>, args: seq<Arg>)

  const COMMA: byte := 44

  /** "#bundle" */
  const BUNDLE: seq<byte> := [35, 98, 117, 110, 100, 108, 101]

  /** "status"; the printer passes over messages to it, with or without a slash in front. */
  const STATUS: seq<byte> := [115, 116, 97, 116, 117, 115]

  predicate IsStatus(address: seq<byte>) { address == STATUS || address == [47] + STATUS }

  function Tag(a: Arg): byte {
    match a
    case IntArg(_) => 105
    case FloatArg(_) => 102
    case DoubleArg(_) => 100
    case StrArg(_) => 115
    case BlobArg(_) => 98
    case MidiArg(_, _, _, _) => 109
    case CharArg(_) => 99
    case TimeArg(_) => 116
    case OpenArg => 91
    case CloseArg => 93
    case TrueArg => 84
    case FalseArg => 70
    case InfinitumArg => 73
    case NilArg => 78
  }

  function Tags(args: seq<Arg>): (r: seq<byte>)
    ensures |r| == |args|
  {
    if args == [] then [] else [Tag(args[0])] + Tags(args[1..])
  }

  /** Up to a multiple of four. */
  function Padded(n: nat): (r: nat)
    ensures r % 4 == 0 && n <= r < n + 4
  {
    4 * ((n + 3) / 4)
  }

  function Sized(b: seq<byte>): (r: seq<byte>)
    ensures |r| == 4 + |b|
  {
    EncInt(|b|) + b
  }

  /** Size, bytes and zeros up to a multiple of four. */
  function EncBlob(b: seq<byte>): (r: seq<byte>)
    ensures |r| == 4 + Padded(|b|) && |r| % 4 == 0
  {
    hide Sized, Zeros, Padded;
    OneMoreWord(Padded(|b|));
    Sized(b) + Zeros(Padded(|b|) - |b|)
  }

  lemma OneMoreWord(n: nat)
    requires n % 4 == 0
    ensures (4 + n) % 4 == 0
  {
  }

  predicate HasData(a: Arg) {
    !(a.OpenArg? || a.CloseArg? || a.TrueArg? || a.FalseArg? || a.InfinitumArg? || a.NilArg?)
  }

  function EncArg(a: Arg): (r: seq<byte>)
    ensures |r| % 4 == 0 && (HasData(a) <==> r != [])
  {
    match a
    case IntArg(i) => EncInt(i)
    case FloatArg(bits) => EncInt(bits)
    case DoubleArg(p) => EncTime(p)
    case StrArg(s) => EncStr(s)
    case BlobArg(b) => EncBlob(b)
    case MidiArg(b0, b1, b2, b3) => [b0, b1, b2, b3]
    case CharArg(c) => EncInt(c)
    case TimeArg(t) => EncTime(t)
    case _ => []
  }

  /** Aligned pieces make an aligned whole. */
  function Aligned(a: seq<byte>, b: seq<byte>): (r: seq<byte>)
    requires |a| % 4 == 0 && |b| % 4 == 0
    ensures |r| % 4 == 0 && |r| == |a| + |b|
  {
    a + b
  }

  function EncArgs(args: seq<Arg>): (r: seq<byte>)
    ensures |r| % 4 == 0
  {
    if args == [] then [] else Aligned(EncArg(args[0]), EncArgs(args[1..]))
  }

  function EncMsg(m: Msg): (r: seq<byte>)
    ensures |r| % 4 == 0 && |r| >= 8
  {
    Aligned(Aligned(EncStr(m.address), EncStr([COMMA] + Tags(m.args))), EncArgs(m.args))
  }

  /** A message in a bundle, preceded by its size. */
  function EncElem(m: Msg): seq<byte> {
    EncInt(|EncMsg(m)|) + EncMsg(m)
  }

  function EncMsgs(msgs: seq<Msg>): seq<byte> {
    if msgs == [] then [] else EncElem(msgs[0]) + EncMsgs(msgs[1..])
  }

  /** A 64-bit pattern, high word first. */
  function EncTime(t: int): (r: seq<byte>)
    ensures |r| == 8
  {
    EncInt(t / WORD32) + EncInt(t)
  }

  function EncBundle(time: int, msgs: seq<Msg>): seq<byte> {
    EncStr(BUNDLE) + EncTime(time) + EncMsgs(msgs)
  }

  predicate FitsInt64(i: int) { -0x8000_0000_0000_0000 <= i < 0x8000_0000_0000_0000 }

  ghost predicate ArgOk(a: Arg) {
    match a
    case IntArg(i) => FitsInt32(i)
    case FloatArg(bits) => FitsInt32(bits)
    case DoubleArg(p) => FitsInt64(p)
    case StrArg(s) => CString(s)
    case BlobArg(b) => |b| < 0x8000_0000
    case CharArg(c) => FitsInt32(c)
    case TimeArg(t) => FitsInt64(t)
    case _ => true
  }

  /** Messages the writer can express: an address that is neither empty nor the bundle marker. */
  ghost predicate MsgOk(m: Msg) {
    CString(m.address) && m.address != [] && m.address != BUNDLE && ArgsOk(m.args)
  }

  ghost predicate ArgsOk(args: seq<Arg>) { forall i :: 0 <= i < |args| ==> ArgOk(args[i]) }

  // ----- the format, byte by byte

  /** The number that bytes spell in network order. */
  ghost function BigEndian(b: seq<byte>): int {
    if b == [] then 0 else BigEndian(b[..|b| - 1]) * 256 + b[|b| - 1] as int
  }

  lemma BigEndianWord(b: seq<byte>)
    requires |b| == 4
    ensures BigEndian(b) ==
      b[0] as int * 0x100_0000 + b[1] as int * 0x1_0000 + b[2] as int * 256 + b[3] as int
  {
    assert b[..3][..2] == b[..2] && b[..2][..1] == b[..1] && b[..1][..0] == [];
    assert BigEndian(b[..1]) == b[0] as int;
    assert BigEndian(b[..2]) == BigEndian(b[..1]) * 256 + b[1] as int;
    assert BigEndian(b[..3]) == BigEndian(b[..2]) * 256 + b[2] as int;
  }

  /** An integer is four bytes, the most significant first, negative ones as their two's complement. */
  lemma WireInt(i: int)
    ensures |EncInt(i)| == 4 && BigEndian(EncInt(i)) == i % 0x1_0000_0000
  {
    FourBytes(i % WORD32);
    BigEndianWord(EncInt(i));
  }

  lemma BigEndianByte(a: seq<byte>, x: byte)
    ensures BigEndian(a + [x]) == BigEndian(a) * 256 + x as int
  {
    assert (a + [x])[..|a|] == a;
  }

  lemma BigEndianJoin(a: seq<byte>, b: seq<byte>)
    requires |b| == 4
    ensures BigEndian(a + b) == BigEndian(a) * 0x1_0000_0000 + BigEndian(b)
  {
    hide BigEndian;
    BigEndianByte(a, b[0]);
    BigEndianByte(a + [b[0]], b[1]);
    BigEndianByte(a + [b[0]] + [b[1]], b[2]);
    BigEndianByte(a + [b[0]] + [b[1]] + [b[2]], b[3]);
    assert a + b == a + [b[0]] + [b[1]] + [b[2]] + [b[3]];
    BigEndianWord(b);
  }

  /** A time tag, like any 64-bit value, is eight bytes in network order. */
  lemma WireTime(t: int)
    ensures |EncTime(t)| == 8 && BigEndian(EncTime(t)) == t % 0x1_0000_0000_0000_0000
  {
    hide EncInt;
    WireInt(t / WORD32);
    WireInt(t);
    BigEndianJoin(EncInt(t / WORD32), EncInt(t));
    TwoWords(t);
  }

  lemma TwoWords(t: int)
    ensures t / 0x1_0000_0000 % 0x1_0000_0000 * 0x1_0000_0000 + t % 0x1_0000_0000 == t % 0x1_0000_0000_0000_0000
  {
    var h := t / 0x1_0000_0000;
    var q := h / 0x1_0000_0000;
    var r := h % 0x1_0000_0000 * 0x1_0000_0000 + t % 0x1_0000_0000;
    assert t == q * 0x1_0000_0000_0000_0000 + r && 0 <= r < 0x1_0000_0000_0000_0000;
  }

  /** A string is its bytes and one to four NULs, up to a multiple of four. */
  lemma WireStr(s: seq<byte>)
    ensures var r := EncStr(s);
      && r[..|s|] == s && |r| % 4 == 0 && |s| < |r| <= |s| + 4
      && forall i :: |s| <= i < |r| ==> r[i] == 0
  {
  }

  /** A blob is its size, its bytes and up to three zeros. */
  lemma WireBlob(b: seq<byte>)
    requires |b| < 0x8000_0000
    ensures var r := EncBlob(b);
      && BigEndian(r[..4]) == |b| && r[4..4 + |b|] == b && |r| % 4 == 0 && 4 + |b| <= |r| < 8 + |b|
      && forall i :: 4 + |b| <= i < |r| ==> r[i] == 0
  {
    hide EncInt, Padded;
    WireInt(|b|);
    assert EncBlob(b)[..4] == EncInt(|b|);
  }

  /** The letters of the type tags. */
  lemma WireTag(a: Arg)
    ensures Tag(a) as char ==
      match a
      case IntArg(_) => 'i'
      case FloatArg(_) => 'f'
      case DoubleArg(_) => 'd'
      case StrArg(_) => 's'
      case BlobArg(_) => 'b'
      case MidiArg(_, _, _, _) => 'm'
      case CharArg(_) => 'c'
      case TimeArg(_) => 't'
      case OpenArg => '['
      case CloseArg => ']'
      case TrueArg => 'T'
      case FalseArg => 'F'
      case InfinitumArg => 'I'
      case NilArg => 'N'
  {
  }

  lemma {:induction false} TagsAt(args: seq<Arg>, i: nat)
    requires i < |args|
    ensures Tags(args)[i] == Tag(args[i])
    decreases |args|
  {
    hide Tag;
    if i > 0 {
      TagsAt(args[1..], i - 1);
    }
  }

  /** A message is its address, a comma with one tag for each argument, and the data of the arguments. */
  lemma WireMsg(m: Msg)
    ensures exists typed ::
      && EncMsg(m) == EncStr(m.address) + EncStr(typed) + EncArgs(m.args)
      && |typed| == |m.args| + 1 && typed[0] as char == ','
      && forall i :: 0 <= i < |m.args| ==> typed[i + 1] == Tag(m.args[i])
  {
    hide EncStr, EncArgs, Tag;
    var typed := [COMMA] + Tags(m.args);
    forall i | 0 <= i < |m.args| ensures typed[i + 1] == Tag(m.args[i]) {
      TagsAt(m.args, i);
    }
    assert EncMsg(m) == EncStr(m.address) + EncStr(typed) + EncArgs(m.args);
  }

  // ----- the reader

  datatype Option<T> = None | Some(value: T)

  /** OSCint */
  function ReadInt(d: seq<byte>): int
    requires |d| >= 4
  {
    var w := d[0] as int * 0x100_0000 + d[1] as int * 0x1_0000 + d[2] as int * 256 + d[3] as int;
    if w < 0x8000_0000 then w else w - WORD32
  }

  /** OSCstrskip: what follows the string, past the first group of four bytes that ends in NUL. */
  function StrSkip(d: seq<byte>): (r: Option<seq<byte>>)
    ensures r.Some? ==> |r.value| < |d|
  {
    if |d| < 4 then None
    else if d[3] != 0 then StrSkip(d[4..])
    else Some(d[4..])
  }

  /** The C string at the start of `d`. */
  function ReadStr(d: seq<byte>): seq<byte> {
    if d == [] || d[0] == 0 then [] else [d[0]] + ReadStr(d[1..])
  }

  /** What is printed for an argument: its value, the size of a blob, or a tag that is not known. */
  datatype Item = Value(arg: Arg) | Data(size: int) | Unknown(tag: byte)

  /** One turn of the printer's loop: an item and the data left, a strange tag, or a read outside the data. */
  datatype Reading = Read(item: Item, left: seq<byte>) | Strange | Outside

  /** Four bytes as `item`. */
  function Word(d: seq<byte>, item: Item): Reading {
    if |d| >= 4 then Read(item, d[4..]) else Outside
  }

  function LongWord(d: seq<byte>, item: Item): Reading {
    if |d| >= 8 then Read(item, d[8..]) else Outside
  }

  function ReadBlob(d: seq<byte>): Reading {
    if |d| < 4 || ReadInt(d) < 0 || |d| < 4 + Padded(ReadInt(d)) then Outside
    else Read(Data(ReadInt(d)), d[4 + Padded(ReadInt(d))..])
  }

  function Int32At(d: seq<byte>): int { if |d| >= 4 then ReadInt(d) else 0 }

  function Int64At(d: seq<byte>): int { if |d| >= 8 then ReadTime(d) else 0 }

  function MidiAt(d: seq<byte>): Arg {
    if |d| >= 4 then MidiArg(d[0], d[1], d[2], d[3]) else MidiArg(0, 0, 0, 0)
  }

  /** The switch of dumpOSCmsg.  `geti` does not know the tag of a character: it gives 0 and consumes nothing. */
  function ReadItem(tag: byte, d: seq<byte>): Reading {
    if tag == 105 then Word(d, Value(IntArg(Int32At(d))))
    else if tag == 102 then Word(d, Value(FloatArg(Int32At(d))))
    else if tag == 100 then LongWord(d, Value(DoubleArg(Int64At(d))))
    else if tag == 115 then
      if StrSkip(d).None? then Outside else Read(Value(StrArg(ReadStr(d))), StrSkip(d).value)
    else if tag == 91 then Read(Value(OpenArg), d)
    else if tag == 93 then Read(Value(CloseArg), d)
    else if tag == 98 then ReadBlob(d)
    else if tag == 109 then Word(d, Value(MidiAt(d)))
    else if tag == 99 then Read(Value(CharArg(0)), d)
    else if tag == 116 then LongWord(d, Value(TimeArg(Int64At(d))))
    else if tag == 84 then Read(Value(TrueArg), d)
    else if tag == 70 then Read(Value(FalseArg), d)
    else if tag == 73 then Read(Value(InfinitumArg), d)
    else if tag == 78 then Read(Value(NilArg), d)
    else Strange
  }

  /** Items while any data remains; the NUL behind the tags is a tag that is not known. */
  function ReadItems(tags: seq<byte>, d: seq<byte>): Option<seq<Item>>
    decreases |tags|
  {
    if d == [] then Some([])
    else if tags == [] then Some([Unknown(0)])
    else
      match ReadItem(tags[0], d)
      case Outside => None
      case Strange => Some([Unknown(tags[0])])
      case Read(item, left) => Then(item, ReadItems(tags[1..], left))
  }

  function Then(item: Item, rest: Option<seq<Item>>): Option<seq<Item>> {
    if rest.None? then None else Some([item] + rest.value)
  }

  /** The letters the printer knows; at any other tag it says so and stops. */
  lemma StrangeTag(tag: byte, tags: seq<byte>, d: seq<byte>)
    requires d != [] && tag as char !in "ifdsbmct[]TFIN"
    ensures ReadItems([tag] + tags, d) == Some([Unknown(tag)])
  {
    var known := "ifdsbmct[]TFIN";
    assert known[0] == 'i' && known[1] == 'f' && known[2] == 'd' && known[3] == 's' && known[4] == 'b';
    assert known[5] == 'm' && known[6] == 'c' && known[7] == 't' && known[8] == '[' && known[9] == ']';
    assert known[10] == 'T' && known[11] == 'F' && known[12] == 'I' && known[13] == 'N';
    hide Word, LongWord, ReadBlob, StrSkip, ReadStr, Int32At, Int64At, MidiAt;
    assert ReadItem(tag, d) == Strange;
  }

  /** A message without type tags: all data is read as integers. */
  function ReadInts(d: seq<byte>): Option<seq<Item>> {
    if d == [] then Some([])
    else if |d| < 4 then None
    else Then(Value(IntArg(ReadInt(d))), ReadInts(d[4..]))
  }

  datatype Head = Address(text: seq<byte>) | Number(n: int)

  /** What is printed for a message. */
  datatype Line = Line(head: Head, items: seq<Item>)

  /** The part of a message after its address, with or without type tags. */
  function ReadBody(body: seq<byte>): Option<seq<Item>> {
    if body == [] then None
    else if body[0] != COMMA then ReadInts(body)
    else if StrSkip(body).None? then None
    else ReadItems(ReadStr(body[1..]), StrSkip(body).value)
  }

  function Lined(head: Head, items: Option<seq<Item>>): Option<Line> {
    if items.None? then None else Some(Line(head, items.value))
  }

  /** dumpOSCmsg on the bytes of one message. */
  function ReadMsg(d: seq<byte>): Option<Line> {
    if d == [] then None
    else if d[0] != 0 then
      if StrSkip(d).None? then None else Lined(Address(ReadStr(d)), ReadBody(StrSkip(d).value))
    else if |d| < 4 then None
    else Lined(Number(ReadInt(d)), ReadBody(d[4..]))
  }

  /** What is printed for an element of a bundle; nothing for a status message. */
  datatype Elem = Message(line: Line) | Skipped | Bundle(time: int, elems: seq<Elem>)

  function ReadTime(d: seq<byte>): int
    requires |d| >= 8
  {
    ReadInt(d) * WORD32 + ReadInt(d[4..]) % WORD32
  }

  /** dumpOSCbndl: the time tag, then sized elements until the data ends, bundles by recursion. */
  function ReadBundle(d: seq<byte>): Option<Elem>
    decreases |d|, 1
  {
    if |d| < 16 then None
    else
      var elems := ReadElems(d[16..]);
      if elems.None? then None else Some(Bundle(ReadTime(d[8..]), elems.value))
  }

  /** One element: a bundle if its text says so, a message otherwise, and that skipped if it is about the status. */
  function ReadElem(d: seq<byte>): Option<Elem>
    decreases |d|, 2
  {
    if ReadStr(d) == BUNDLE then ReadBundle(d)
    else if IsStatus(ReadStr(d)) then Some(Skipped)
    else
      var m := ReadMsg(d);
      if m.None? then None else Some(Message(m.value))
  }

  /** The loop of dumpOSCbndl; None where it would leave the data. */
  function ReadElems(d: seq<byte>): Option<seq<Elem>>
    decreases |d|, 0
  {
    if d == [] then Some([])
    else if |d| < 4 || ReadInt(d) < 0 || |d| < 4 + ReadInt(d) then None
    else
      var size := ReadInt(d);
      var data := d[4..4 + size];
      var elem := ReadElem(data);
      var rest := ReadElems(d[4 + size..]);
      if elem.None? || rest.None? then None else Some([elem.value] + rest.value)
  }

  // ----- the reader inverts the format

  lemma IntRoundTrip(i: int, tail: seq<byte>)
    requires FitsInt32(i)
    ensures ReadInt(EncInt(i) + tail) == i && (EncInt(i) + tail)[4..] == tail
  {
    FourBytes(i % WORD32);
  }

  lemma FourBytes(w: int)
    requires 0 <= w < WORD32
    ensures w == w / 0x100_0000 * 0x100_0000 + w / 0x1_0000 % 256 * 0x1_0000 + w / 256 % 256 * 256 + w % 256
  {
    var a := w / 256;
    var b := a / 256;
    var d := b / 256;
    assert w == 256 * a + w % 256 && a == 256 * b + a % 256 && b == 256 * d + b % 256;
    TwoBytesUp(w, b);
    ThreeBytesUp(w, d);
  }

  lemma TwoBytesUp(w: int, q: int)
    requires 0 <= w - 0x1_0000 * q < 0x1_0000
    ensures w / 0x1_0000 == q
  {
  }

  lemma ThreeBytesUp(w: int, q: int)
    requires 0 <= w - 0x100_0000 * q < 0x100_0000
    ensures w / 0x100_0000 == q
  {
  }

  lemma {:induction false} SkipString(s: seq<byte>, tail: seq<byte>)
    requires CString(s)
    ensures StrSkip(EncStr(s) + tail) == Some(tail)
    decreases |s|
  {
    var d := EncStr(s) + tail;
    if |s| < 4 {
      assert d[3] == 0 && d[4..] == tail;
    } else {
      assert d[3] == s[3];
      assert EncStr(s)[4..] == EncStr(s[4..]);
      assert d[4..] == EncStr(s[4..]) + tail;
      SkipString(s[4..], tail);
    }
  }

  lemma {:induction false} ReadPadded(s: seq<byte>, z: nat, tail: seq<byte>)
    requires CString(s) && z > 0
    ensures ReadStr(s + Zeros(z) + tail) == s
    decreases |s|
  {
    var d := s + Zeros(z) + tail;
    if s == [] {
      assert d[0] == 0;
    } else {
      assert d[0] == s[0] && d[1..] == s[1..] + Zeros(z) + tail;
      ReadPadded(s[1..], z, tail);
    }
  }

  lemma StrRoundTrip(s: seq<byte>, tail: seq<byte>)
    requires CString(s)
    ensures ReadStr(EncStr(s) + tail) == s && StrSkip(EncStr(s) + tail) == Some(tail)
  {
    SkipString(s, tail);
    ReadPadded(s, 4 - |s| % 4, tail);
  }

  /** What the printer should show for an argument. */
  function View(a: Arg): Item {
    if a.BlobArg? then Data(|a.blob|) else Value(a)
  }

  function Views(args: seq<Arg>): (r: seq<Item>)
    ensures |r| == |args|
  {
    if args == [] then [] else [View(args[0])] + Views(args[1..])
  }

  predicate HasChar(args: seq<Arg>) { exists i :: 0 <= i < |args| && args[i].CharArg? }

  /** How many arguments there are up to the last one with data. */
  function LastData(args: seq<Arg>): (n: nat)
    ensures n <= |args| && (n > 0 ==> HasData(args[n - 1]))
    ensures forall i :: n <= i < |args| ==> !HasData(args[i])
  {
    if args == [] then 0
    else if LastData(args[1..]) > 0 || HasData(args[0]) then LastData(args[1..]) + 1
    else 0
  }

  lemma BlobRoundTrip(b: seq<byte>, tail: seq<byte>)
    requires |b| < 0x8000_0000
    ensures ReadBlob(EncBlob(b) + tail) == Read(Data(|b|), tail)
  {
    hide EncInt, ReadInt, Padded, Zeros;
    var pad := Zeros(Padded(|b|) - |b|);
    var d := EncBlob(b) + tail;
    assert d == EncInt(|b|) + (b + pad + tail);
    IntRoundTrip(|b|, b + pad + tail);
    assert d[4 + Padded(|b|)..] == tail;
  }

  lemma WordRoundTrip(i: int, tail: seq<byte>)
    requires FitsInt32(i)
    ensures var d := EncInt(i) + tail; |d| >= 4 && Int32At(d) == i && d[4..] == tail
  {
    hide EncInt, ReadInt;
    IntRoundTrip(i, tail);
  }

  lemma LongRoundTrip(t: int, tail: seq<byte>)
    requires FitsInt64(t)
    ensures var d := EncTime(t) + tail; |d| >= 8 && Int64At(d) == t && d[8..] == tail
  {
    hide EncTime, ReadTime;
    TimeRoundTrip(t, tail);
  }

  /** One argument, unless it is a character, is read back from the front of the data. */
  lemma ItemRoundTrip(a: Arg, tail: seq<byte>)
    requires ArgOk(a) && !a.CharArg?
    ensures ReadItem(Tag(a), EncArg(a) + tail) == Read(if a.BlobArg? then Data(|a.blob|) else Value(a), tail)
  {
    hide StrSkip, ReadStr, ReadInt, EncInt, EncStr, EncBlob, EncTime, ReadTime, ReadBlob, Int32At, Int64At;
    assert [] + tail == tail;
    match a {
      case IntArg(i) => WordRoundTrip(i, tail);
      case FloatArg(bits) => WordRoundTrip(bits, tail);
      case DoubleArg(p) => LongRoundTrip(p, tail);
      case TimeArg(t) => LongRoundTrip(t, tail);
      case StrArg(s) => StrRoundTrip(s, tail);
      case BlobArg(b) => BlobRoundTrip(b, tail);
      case MidiArg(b0, b1, b2, b3) => assert ([b0, b1, b2, b3] + tail)[4..] == tail;
      case _ =>
    }
  }

  /** The printer's step over one argument that is not a character. */
  lemma StepOver(args: seq<Arg>)
    requires args != [] && ArgOk(args[0]) && !args[0].CharArg? && EncArgs(args) != []
    ensures ReadItems(Tags(args), EncArgs(args)) == Then(View(args[0]), ReadItems(Tags(args[1..]), EncArgs(args[1..])))
  {
    hide EncArg, ArgOk, Tag, ReadItem;
    ItemRoundTrip(args[0], EncArgs(args[1..]));
    assert Tags(args)[1..] == Tags(args[1..]);
  }

  lemma {:induction false} DataIsLast(args: seq<Arg>)
    ensures EncArgs(args) == [] <==> LastData(args) == 0
  {
    hide EncArg, HasData;
    if args != [] {
      DataIsLast(args[1..]);
    }
  }

  lemma NothingRead(tags: seq<byte>)
    ensures ReadItems(tags, []) == Some([])
  {
  }

  /** Without characters, the printer shows the arguments up to the last one with data. */
  lemma {:induction false} ItemsRoundTrip(args: seq<Arg>)
    requires ArgsOk(args) && !HasChar(args)
    ensures ReadItems(Tags(args), EncArgs(args)) == Some(Views(args[..LastData(args)]))
    decreases |args|
  {
    hide EncArg, ArgOk, Tag, ReadItems, View, HasData;
    DataIsLast(args);
    if LastData(args) == 0 {
      NothingRead(Tags(args));
    } else {
      var rest := args[1..];
      RestOk(args);
      assert !args[0].CharArg?;
      StepOver(args);
      ItemsRoundTrip(rest);
      var shown := args[..LastData(args)];
      assert shown[1..] == rest[..LastData(rest)] && shown[0] == args[0];
    }
  }

  lemma RestOk(args: seq<Arg>)
    requires args != []
    ensures ArgsOk(args) ==> ArgOk(args[0]) && ArgsOk(args[1..])
    ensures HasChar(args) <==> args[0].CharArg? || HasChar(args[1..])
  {
    hide ArgOk;
    if HasChar(args) && !args[0].CharArg? {
      var i :| 0 <= i < |args| && args[i].CharArg?;
      assert args[1..][i - 1].CharArg?;
    }
    if HasChar(args[1..]) {
      var i :| 0 <= i < |args[1..]| && args[1..][i].CharArg?;
      assert args[i + 1].CharArg?;
    }
  }

  // ----- a character keeps its data from being read

  /** Zeros moved over as many zeros. */
  lemma ShiftZeros(n: nat, z: nat, tail: seq<byte>)
    requires n <= z
    ensures (Zeros(z) + (Zeros(n) + tail))[n..] == Zeros(z) + tail
    ensures Zeros(z) + (Zeros(n) + tail) == Zeros(z + n) + tail
  {
  }

  lemma ZeroWord(z: nat, x: seq<byte>)
    requires z >= 4
    ensures ReadInt(Zeros(z) + x) == 0 && EncInt(0) == Zeros(4)
    ensures (Zeros(z) + x)[4..] == Zeros(z - 4) + x
  {
  }

  lemma LaggedWord(i: int, z: nat, tail: seq<byte>)
    requires z >= 4
    ensures var d := Zeros(z) + (EncInt(i) + tail); Int32At(d) == 0 && (i == 0 ==> d[4..] == Zeros(z) + tail)
  {
    hide ReadInt, EncInt, Zeros;
    ZeroWord(z, EncInt(i) + tail);
    ShiftZeros(4, z, tail);
  }

  lemma ZeroLong(z: nat, x: seq<byte>)
    requires z >= 8
    ensures ReadTime(Zeros(z) + x) == 0
  {
    hide ReadInt, EncInt, Zeros;
    ZeroWord(z, x);
    ZeroWord(z - 4, x);
  }

  /** The high word read where the low word should be. */
  lemma HalfLong(t: int, x: seq<byte>)
    requires FitsInt64(t) && ReadTime(Zeros(4) + (EncInt(t / WORD32) + x)) == t
    ensures t == 0
  {
    hide ReadInt, EncInt, Zeros;
    ZeroWord(4, EncInt(t / WORD32) + x);
    assert (Zeros(4) + (EncInt(t / WORD32) + x))[4..] == EncInt(t / WORD32) + x;
    IntRoundTrip(t / WORD32, x);
  }

  lemma LaggedLong(t: int, z: nat, tail: seq<byte>)
    requires FitsInt64(t) && z >= 4 && z % 4 == 0
    ensures var d := Zeros(z) + (EncTime(t) + tail); Int64At(d) == t ==> t == 0 && d[8..] == Zeros(z) + tail
  {
    hide ReadTime, EncInt, Zeros;
    var d := Zeros(z) + (EncTime(t) + tail);
    if Int64At(d) == t {
      if z == 4 {
        assert EncTime(t) + tail == EncInt(t / WORD32) + (EncInt(t) + tail);
        HalfLong(t, EncInt(t) + tail);
      } else {
        ZeroLong(z, EncTime(t) + tail);
      }
      ZeroWord(4, []);
      assert EncTime(0) == Zeros(4) + Zeros(4);
      assert d == Zeros(z) + (Zeros(4) + (Zeros(4) + tail));
      ShiftZeros(4, z, Zeros(4) + tail);
      ShiftZeros(4, z, tail);
      assert d[8..] == d[4..][4..];
    }
  }

  lemma LaggedStr(s: seq<byte>, z: nat, tail: seq<byte>)
    requires z >= 4
    ensures var d := Zeros(z) + (EncStr(s) + tail);
      ReadStr(d) == [] && StrSkip(d) == Some(d[4..]) && (s == [] ==> d[4..] == Zeros(z) + tail)
  {
    ShiftZeros(4, z, tail);
    assert EncStr([]) == Zeros(4);
  }

  lemma LaggedBlob(b: seq<byte>, z: nat, tail: seq<byte>)
    requires z >= 4
    ensures var d := Zeros(z) + (EncBlob(b) + tail);
      ReadBlob(d) == Read(Data(0), d[4..]) && (b == [] ==> d[4..] == Zeros(z) + tail)
  {
    hide ReadInt, EncInt, Zeros;
    ZeroWord(z, EncBlob(b) + tail);
    ShiftZeros(4, z, tail);
    assert EncBlob([]) == Zeros(4);
  }

  lemma LaggedMidi(b0: byte, b1: byte, b2: byte, b3: byte, z: nat, tail: seq<byte>)
    requires z >= 4
    ensures var d := Zeros(z) + ([b0, b1, b2, b3] + tail);
      && MidiAt(d) == MidiArg(0, 0, 0, 0)
      && (MidiArg(b0, b1, b2, b3) == MidiArg(0, 0, 0, 0) ==> d[4..] == Zeros(z) + tail)
  {
    ShiftZeros(4, z, tail);
    assert [0, 0, 0, 0] == Zeros(4);
  }

  lemma LaggedChar(c: int, z: nat, tail: seq<byte>)
    ensures c == 0 ==> Zeros(z) + (EncInt(c) + tail) == Zeros(z + 4) + tail
  {
    ZeroWord(4, []);
    ShiftZeros(4, z + 4, tail);
    assert Zeros(z) + (Zeros(4) + tail) == Zeros(z + 4) + tail;
  }

  /** Read behind zeros, an argument shows as itself only if it is zeros too, and then zeros stay in front. */
  lemma LaggedItem(a: Arg, z: nat, tail: seq<byte>)
    requires ArgOk(a) && z >= 4 && z % 4 == 0
    ensures var r, z' := ReadItem(Tag(a), Zeros(z) + (EncArg(a) + tail)), if a.CharArg? then z + 4 else z;
      r.Read? && r.item == View(a) ==> r.left == Zeros(z') + tail
  {
    hide ReadTime, EncTime, ReadBlob, EncBlob, ReadInt, EncInt, EncStr, StrSkip, ReadStr, Zeros, Int32At, Int64At,
      MidiAt;
    match a {
      case IntArg(i) => LaggedWord(i, z, tail);
      case FloatArg(bits) => LaggedWord(bits, z, tail);
      case DoubleArg(p) => LaggedLong(p, z, tail);
      case TimeArg(t) => LaggedLong(t, z, tail);
      case StrArg(s) => LaggedStr(s, z, tail);
      case BlobArg(b) => LaggedBlob(b, z, tail);
      case MidiArg(b0, b1, b2, b3) => LaggedMidi(b0, b1, b2, b3, z, tail);
      case CharArg(c) => LaggedChar(c, z, tail);
      case _ => assert [] + tail == tail;
    }
  }

  /** Once zeros are left over in front, the arguments are never shown as themselves. */
  lemma {:induction false} LaggedItems(args: seq<Arg>, z: nat)
    requires ArgsOk(args) && z >= 4 && z % 4 == 0
    ensures ReadItems(Tags(args), Zeros(z) + EncArgs(args)) != Some(Views(args))
    decreases |args|
  {
    hide EncArg, ArgOk, Tag, View, ReadItem, Zeros;
    if args != [] {
      var tail := EncArgs(args[1..]);
      var r := ReadItem(Tag(args[0]), Zeros(z) + (EncArg(args[0]) + tail));
      RestOk(args);
      assert Tags(args)[1..] == Tags(args[1..]);
      LaggedItem(args[0], z, tail);
      if r.Read? && r.item == View(args[0]) {
        LaggedItems(args[1..], if args[0].CharArg? then z + 4 else z);
      }
      FirstDiffers(args, r, ReadItems(Tags(args[1..]), if r.Read? then r.left else []));
    }
  }

  /** A wrong first item or wrong later ones make a wrong line. */
  lemma FirstDiffers(args: seq<Arg>, r: Reading, rest: Option<seq<Item>>)
    requires args != []
    ensures r.Read? && Then(r.item, rest) == Some(Views(args)) ==>
      r.item == View(args[0]) && rest == Some(Views(args[1..]))
    ensures forall t :: Some([Unknown(t)]) != Some(Views(args))
  {
    var v := Views(args);
    assert v[0] == View(args[0]) && v[1..] == Views(args[1..]);
    if r.Read? && rest.Some? {
      var w := [r.item] + rest.value;
      assert w[0] == r.item && w[1..] == rest.value;
    }
  }

  /** With a character among them, the arguments are never shown as themselves. */
  lemma {:induction false} CharsMisread(args: seq<Arg>)
    requires ArgsOk(args) && HasChar(args)
    ensures ReadItems(Tags(args), EncArgs(args)) != Some(Views(args))
    decreases |args|
  {
    hide EncArg, ArgOk, View, Tag, ReadItems;
    var rest := args[1..];
    RestOk(args);
    if args[0].CharArg? {
      CharFirst(args);
    } else {
      CharsHaveData(args);
      CharsMisread(rest);
      StepOver(args);
      FirstDiffers(args, Read(View(args[0]), []), ReadItems(Tags(rest), EncArgs(rest)));
    }
  }

  lemma ReadsNothing(d: seq<byte>)
    ensures ReadItem(99, d) == Read(Value(CharArg(0)), d)
  {
  }

  lemma CharFirst(args: seq<Arg>)
    requires ArgsOk(args) && args != [] && args[0].CharArg?
    ensures ReadItems(Tags(args), EncArgs(args)) != Some(Views(args))
  {
    hide ReadInt, EncInt, Zeros, ArgOk, ReadItem, Views;
    var rest, d := args[1..], EncArgs(args);
    RestOk(args);
    ReadsNothing(d);
    assert Tags(args)[1..] == Tags(rest) && d != [];
    FirstDiffers(args, Read(Value(CharArg(0)), d), ReadItems(Tags(rest), d));
    if args[0].c == 0 {
      ZeroWord(4, []);
      LaggedItems(rest, 4);
    }
  }

  lemma {:induction false} CharsHaveData(args: seq<Arg>)
    requires HasChar(args)
    ensures EncArgs(args) != []
    decreases |args|
  {
    hide EncArg;
    if args[0].CharArg? {
      assert HasData(args[0]);
    } else {
      RestOk(args);
      CharsHaveData(args[1..]);
    }
  }

  /** Arguments the printer gets right: no character, and nothing without data at the end. */
  predicate AllShown(args: seq<Arg>) {
    !HasChar(args) && (args == [] || HasData(args[|args| - 1]))
  }

  lemma {:induction false} LastDataIsAll(args: seq<Arg>)
    ensures LastData(args) == |args| <==> args == [] || HasData(args[|args| - 1])
  {
    hide HasData;
    if |args| > 1 {
      LastDataIsAll(args[1..]);
    }
  }

  /** The printer shows exactly the arguments that were sent if and only if it gets them right. */
  lemma ItemsShown(args: seq<Arg>)
    requires ArgsOk(args)
    ensures ReadItems(Tags(args), EncArgs(args)) == Some(Views(args)) <==> AllShown(args)
  {
    hide ReadItems, Tags, EncArgs, HasChar, HasData;
    if HasChar(args) {
      CharsMisread(args);
    } else {
      ItemsRoundTrip(args);
      LastDataIsAll(args);
      assert args[..|args|] == args;
    }
  }

  lemma {:induction false} TagsAreText(args: seq<Arg>)
    ensures CString(Tags(args))
  {
    if args != [] {
      TagsAreText(args[1..]);
    }
  }

  /** An address that is not empty, or a number below 2^24, which starts with a zero byte. */
  ghost predicate HeadOk(h: Head) {
    match h
    case Address(text) => CString(text) && text != []
    case Number(n) => 0 <= n < 0x100_0000
  }

  function EncHead(h: Head): seq<byte> {
    match h
    case Address(text) => EncStr(text)
    case Number(n) => EncInt(n)
  }

  lemma HeadParts(h: Head, body: seq<byte>)
    requires HeadOk(h)
    ensures ReadMsg(EncHead(h) + body) == Lined(h, ReadBody(body))
  {
    hide ReadBody, StrSkip, ReadInt;
    match h {
      case Address(text) => StrRoundTrip(text, body);
      case Number(n) => IntRoundTrip(n, body);
    }
  }

  function EncInts(ints: seq<int>): (r: seq<byte>)
    ensures |r| == 4 * |ints|
  {
    if ints == [] then [] else EncInt(ints[0]) + EncInts(ints[1..])
  }

  function IntItems(ints: seq<int>): (r: seq<Item>)
    ensures |r| == |ints| && forall i :: 0 <= i < |ints| ==> r[i] == Value(IntArg(ints[i]))
  {
    if ints == [] then [] else [Value(IntArg(ints[0]))] + IntItems(ints[1..])
  }

  lemma {:induction false} IntsRoundTrip(ints: seq<int>)
    requires forall i :: 0 <= i < |ints| ==> FitsInt32(ints[i])
    ensures ReadInts(EncInts(ints)) == Some(IntItems(ints))
  {
    if ints != [] {
      hide EncInt, ReadInt;
      IntsRoundTrip(ints[1..]);
      IntRoundTrip(ints[0], EncInts(ints[1..]));
    }
  }

  /** As many integers as are shown, as many words were there. */
  lemma {:induction false} IntsHaveWords(tags: seq<byte>, d: seq<byte>)
    requires var items := ReadItems(tags, d);
      items.Some? && forall i :: 0 <= i < |items.value| ==> items.value[i].Value? && items.value[i].arg.IntArg?
    ensures |d| >= 4 * |ReadItems(tags, d).value|
    decreases |tags|
  {
    hide ReadInt, ReadTime, ReadStr, StrSkip;
    if d != [] {
      var items := ReadItems(tags, d).value;
      assert items[0].Value? && items[0].arg.IntArg?;
      var r := ReadItem(tags[0], d);
      assert items[0] == r.item && ReadItems(tags[1..], r.left).value == items[1..];
      IntsHaveWords(tags[1..], r.left);
    }
  }

  /**
   A message without type tags is shown as its integers if and only if the first of
   them does not start with the byte of a comma.
   */
  lemma PlainShown(h: Head, ints: seq<int>)
    requires HeadOk(h) && ints != [] && forall i :: 0 <= i < |ints| ==> FitsInt32(ints[i])
    ensures ReadMsg(EncHead(h) + EncInts(ints)) == Some(Line(h, IntItems(ints)))
       <==> ints[0] % WORD32 / 0x100_0000 != COMMA as int
  {
    hide ReadItems, ReadInts, StrSkip, ReadStr, HeadOk, EncHead, ReadMsg;
    var body := EncInts(ints);
    HeadParts(h, body);
    IntsRoundTrip(ints);
    assert body[0] == EncInt(ints[0])[0];
    if body[0] == COMMA && StrSkip(body).Some? {
      SkipsWord(body);
      var tags, data := ReadStr(body[1..]), StrSkip(body).value;
      if ReadItems(tags, data) == Some(IntItems(ints)) {
        IntsHaveWords(tags, data);
      }
    }
  }

  lemma {:induction false} SkipsWord(d: seq<byte>)
    requires StrSkip(d).Some?
    ensures |StrSkip(d).value| <= |d| - 4
  {
    if d[3] != 0 {
      SkipsWord(d[4..]);
    }
  }

  /** A typed message is read as its address and whatever its tags and data are read as. */
  lemma MsgParts(m: Msg)
    requires MsgOk(m)
    ensures ReadMsg(EncMsg(m)) == Lined(Address(m.address), ReadItems(Tags(m.args), EncArgs(m.args)))
    ensures ReadStr(EncMsg(m)) == m.address
  {
    hide ReadItems, EncArgs, StrSkip, ReadStr, Tags, Zeros, ReadMsg;
    var typed := [COMMA] + Tags(m.args);
    TagsAreText(m.args);
    var body := EncStr(typed) + EncArgs(m.args);
    assert EncMsg(m) == EncStr(m.address) + body;
    HeadParts(Address(m.address), body);
    StrRoundTrip(m.address, body);
    StrRoundTrip(typed, EncArgs(m.args));
    TagsRead(m.args, EncArgs(m.args));
    assert body[0] == COMMA;
  }

  /** The line for a message without characters. */
  function Printed(m: Msg): Line {
    Line(Address(m.address), Views(m.args[..LastData(m.args)]))
  }

  /** Without characters, a message is shown up to its last argument with data. */
  lemma MsgRoundTrip(m: Msg)
    requires MsgOk(m) && !HasChar(m.args)
    ensures ReadMsg(EncMsg(m)) == Some(Printed(m))
  {
    hide ReadItems, EncArgs, Tags, ReadMsg, EncMsg;
    MsgParts(m);
    ItemsRoundTrip(m.args);
  }

  /** The whole message. */
  function Whole(m: Msg): Line {
    Line(Address(m.address), Views(m.args))
  }

  /** Every argument is shown as it was sent if and only if none is a character and the last one has data. */
  lemma MsgShown(m: Msg)
    requires MsgOk(m)
    ensures ReadMsg(EncMsg(m)) == Some(Whole(m)) <==> AllShown(m.args)
  {
    hide ReadItems, EncArgs, Tags, ReadMsg, EncMsg, AllShown;
    MsgParts(m);
    ItemsShown(m.args);
  }

  lemma TagsRead(args: seq<Arg>, tail: seq<byte>)
    ensures ReadStr((EncStr([COMMA] + Tags(args)) + tail)[1..]) == Tags(args)
  {
    var z := 4 - (|args| + 1) % 4;
    TagsAreText(args);
    assert (EncStr([COMMA] + Tags(args)) + tail)[1..] == Tags(args) + Zeros(z) + tail;
    ReadPadded(Tags(args), z, tail);
  }

  function Shown(m: Msg): Elem {
    if IsStatus(m.address) then Skipped else Message(Printed(m))
  }

  /** What the walk prints for a list of messages without characters. */
  function ShownAll(msgs: seq<Msg>): (r: seq<Elem>)
    ensures |r| == |msgs| && forall i :: 0 <= i < |msgs| ==> r[i] == Shown(msgs[i])
  {
    if msgs == [] then [] else [Shown(msgs[0])] + ShownAll(msgs[1..])
  }

  /** What it should print. */
  function Messages(msgs: seq<Msg>): (r: seq<Elem>)
    ensures |r| == |msgs| && forall i :: 0 <= i < |msgs| ==> r[i] == Message(Whole(msgs[i]))
  {
    if msgs == [] then [] else [Message(Whole(msgs[0]))] + Messages(msgs[1..])
  }

  ghost predicate Sendable(m: Msg) { MsgOk(m) && FitsInt32(|EncMsg(m)|) }

  /** A sized element in front of others. */
  lemma SizedStep(b: seq<byte>, rest: seq<byte>)
    requires FitsInt32(|b|)
    ensures ReadElems(EncInt(|b|) + b + rest) ==
      var elem, later := ReadElem(b), ReadElems(rest);
      if elem.None? || later.None? then None else Some([elem.value] + later.value)
  {
    hide ReadElem, EncInt, ReadInt;
    var d := EncInt(|b|) + b + rest;
    assert d == EncInt(|b|) + (b + rest);
    IntRoundTrip(|b|, b + rest);
    assert d[4..4 + |b|] == b && d[4 + |b|..] == rest;
  }

  lemma ElemStep(m: Msg, rest: seq<byte>)
    requires Sendable(m)
    ensures ReadElems(EncElem(m) + rest) ==
      var elem, later := ReadElem(EncMsg(m)), ReadElems(rest);
      if elem.None? || later.None? then None else Some([elem.value] + later.value)
  {
    SizedStep(EncMsg(m), rest);
  }

  /** A message that is not about the status is printed, one that is is passed over. */
  lemma ElemOfMsg(m: Msg)
    requires Sendable(m)
    ensures ReadElem(EncMsg(m)) ==
      if IsStatus(m.address) then Some(Skipped)
      else var line := ReadMsg(EncMsg(m)); if line.None? then None else Some(Message(line.value))
  {
    hide IsStatus, ReadMsg, ReadStr, EncMsg, ReadBundle;
    MsgParts(m);
  }

  lemma ElemShown(m: Msg)
    requires Sendable(m)
    ensures !HasChar(m.args) ==> ReadElem(EncMsg(m)) == Some(Shown(m))
    ensures ReadElem(EncMsg(m)) == Some(Message(Whole(m))) <==> !IsStatus(m.address) && AllShown(m.args)
  {
    hide IsStatus, ReadMsg, EncMsg, ReadElem, MsgOk, HasChar, AllShown, Whole, Printed;
    ElemOfMsg(m);
    MsgShown(m);
    if !HasChar(m.args) {
      MsgRoundTrip(m);
    }
  }

  lemma {:induction false} MsgsRoundTrip(msgs: seq<Msg>)
    requires forall i :: 0 <= i < |msgs| ==> Sendable(msgs[i]) && !HasChar(msgs[i].args)
    ensures ReadElems(EncMsgs(msgs)) == Some(ShownAll(msgs))
    decreases |msgs|
  {
    if msgs != [] {
      hide Sendable, HasChar, EncElem, ReadElem, Shown, EncMsg;
      var rest := msgs[1..];
      assert forall i :: 0 <= i < |rest| ==> rest[i] == msgs[i + 1];
      MsgsRoundTrip(rest);
      ElemStep(msgs[0], EncMsgs(rest));
      ElemShown(msgs[0]);
    }
  }

  /** Messages the walk shows completely. */
  predicate ShowsWhole(m: Msg) { !IsStatus(m.address) && AllShown(m.args) }

  lemma {:induction false} MsgsShown(msgs: seq<Msg>)
    requires forall i :: 0 <= i < |msgs| ==> Sendable(msgs[i])
    ensures ReadElems(EncMsgs(msgs)) == Some(Messages(msgs)) <==> forall i :: 0 <= i < |msgs| ==> ShowsWhole(msgs[i])
    decreases |msgs|
  {
    if msgs != [] {
      hide Sendable, ReadElem, EncElem, Whole, EncMsg, IsStatus, AllShown;
      var rest := msgs[1..];
      assert forall i :: 0 <= i < |rest| ==> rest[i] == msgs[i + 1];
      MsgsShown(rest);
      ElemStep(msgs[0], EncMsgs(rest));
      ElemShown(msgs[0]);
      ElemsDiffer(ReadElem(EncMsg(msgs[0])), ReadElems(EncMsgs(rest)), msgs);
      AllButFirst(msgs);
    }
  }

  lemma ElemsDiffer(elem: Option<Elem>, later: Option<seq<Elem>>, msgs: seq<Msg>)
    requires msgs != []
    ensures (if elem.None? || later.None? then None else Some([elem.value] + later.value)) == Some(Messages(msgs))
       <==> elem == Some(Message(Whole(msgs[0]))) && later == Some(Messages(msgs[1..]))
  {
    hide Whole;
    var ms := Messages(msgs);
    assert ms[0] == Message(Whole(msgs[0])) && ms[1..] == Messages(msgs[1..]);
    if elem.Some? && later.Some? {
      var w := [elem.value] + later.value;
      assert w[0] == elem.value && w[1..] == later.value;
    }
  }

  lemma AllButFirst(msgs: seq<Msg>)
    requires msgs != []
    ensures (forall i :: 0 <= i < |msgs| ==> ShowsWhole(msgs[i]))
       <==> ShowsWhole(msgs[0]) && forall i :: 0 <= i < |msgs[1..]| ==> ShowsWhole(msgs[1..][i])
  {
    hide ShowsWhole;
    if forall i :: 0 <= i < |msgs[1..]| ==> ShowsWhole(msgs[1..][i]) {
      forall i | 0 < i < |msgs| ensures ShowsWhole(msgs[i]) {
        assert msgs[1..][i - 1] == msgs[i];
      }
    }
  }

  lemma SameWord(a: int, b: int)
    requires a % WORD32 == b % WORD32
    ensures EncInt(a) == EncInt(b)
  {
  }

  lemma TimeRoundTrip(t: int, tail: seq<byte>)
    requires FitsInt64(t)
    ensures ReadTime(EncTime(t) + tail) == t
  {
    hide EncInt, ReadInt;
    var lo := t % WORD32;
    var signed := if lo < 0x8000_0000 then lo else lo - WORD32;
    SameWord(t, signed);
    assert EncTime(t) + tail == EncInt(t / WORD32) + (EncInt(signed) + tail);
    IntRoundTrip(t / WORD32, EncInt(signed) + tail);
    IntRoundTrip(signed, tail);
  }

  /** The two addresses that are passed over, byte by byte. */
  lemma ShownAs(m: Msg)
    ensures Shown(m) ==
      if m.address == [47, 115, 116, 97, 116, 117, 115] || m.address == [115, 116, 97, 116, 117, 115] then Skipped
      else Message(Line(Address(m.address), Views(m.args[..LastData(m.args)])))
  {
    hide Views, LastData;
    assert [47] + STATUS == [47, 115, 116, 97, 116, 117, 115];
  }

  /**
   A flat bundle is walked into exactly its time tag and its messages, those to "/status"
   and to "status" being passed over, ending where the data ends.
   */
  lemma BundleRoundTrip(time: int, msgs: seq<Msg>)
    requires FitsInt64(time)
    requires forall i :: 0 <= i < |msgs| ==> Sendable(msgs[i]) && !HasChar(msgs[i].args)
    ensures ReadBundle(EncBundle(time, msgs)) == Some(Bundle(time, ShownAll(msgs)))
    ensures forall i :: 0 <= i < |msgs| ==>
      ShownAll(msgs)[i] ==
        if msgs[i].address == [47, 115, 116, 97, 116, 117, 115] || msgs[i].address == [115, 116, 97, 116, 117, 115]
        then Skipped
        else Message(Line(Address(msgs[i].address), Views(msgs[i].args[..LastData(msgs[i].args)])))
    ensures ReadStr(EncBundle(time, msgs)) == [35, 98, 117, 110, 100, 108, 101]
  {
    hide ReadBundle, ReadElems, EncMsgs, Sendable, HasChar, Views, LastData, Shown, ReadStr, EncStr, EncTime;
    BundleBody(time, EncMsgs(msgs));
    MsgsRoundTrip(msgs);
    forall i | 0 <= i < |msgs| {
      ShownAs(msgs[i]);
    }
  }

  /** A bundle is read as its time tag and whatever its elements are read as. */
  lemma BundleBody(time: int, body: seq<byte>)
    requires FitsInt64(time)
    ensures var d := EncStr(BUNDLE) + EncTime(time) + body;
      && ReadStr(d) == BUNDLE
      && ReadBundle(d) == var elems := ReadElems(body); if elems.None? then None else Some(Bundle(time, elems.value))
  {
    hide ReadElems, ReadTime, EncTime, EncStr, ReadStr;
    var d := EncStr(BUNDLE) + EncTime(time) + body;
    BundleText();
    assert d[8..] == EncTime(time) + body && d[16..] == body;
    TimeRoundTrip(time, body);
    assert d == EncStr(BUNDLE) + (EncTime(time) + body);
    StrRoundTrip(BUNDLE, EncTime(time) + body);
  }

  /**
   The walk shows exactly the messages written if and only if none of them is to "/status"
   or "status", none holds a character, and none ends in an argument without data.
   */
  lemma BundleShowsAll(time: int, msgs: seq<Msg>)
    requires FitsInt64(time) && forall i :: 0 <= i < |msgs| ==> Sendable(msgs[i])
    ensures ReadBundle(EncBundle(time, msgs)) == Some(Bundle(time, Messages(msgs)))
       <==> forall i :: 0 <= i < |msgs| ==> ShowsWhole(msgs[i])
    ensures forall i :: 0 <= i < |msgs| ==>
      (ShowsWhole(msgs[i]) <==>
        && msgs[i].address != [47, 115, 116, 97, 116, 117, 115] && msgs[i].address != [115, 116, 97, 116, 117, 115]
        && !HasChar(msgs[i].args) && (msgs[i].args == [] || HasData(msgs[i].args[|msgs[i].args| - 1])))
  {
    hide ReadBundle, ReadElems, EncMsgs, Messages, Sendable, HasChar, HasData;
    BundleBody(time, EncMsgs(msgs));
    MsgsShown(msgs);
  }

  lemma BundleText()
    ensures |EncStr(BUNDLE)| == 8 && CString(BUNDLE)
  {
  }

  // ----- the walk as a loop

  /** `found`, followed by what is read later; nothing if that fails. */
  function Onto<T>(found: seq<T>, later: Option<seq<T>>): Option<seq<T>> {
    if later.None? then None else Some(found + later.value)
  }

  /** Nothing found yet, and nothing more to find. */
  lemma OntoNothing<T>(elems: seq<T>, later: Option<seq<T>>)
    ensures Onto([], later) == later && Onto(elems, Some([])) == Some(elems)
  {
    assert later.Some? ==> [] + later.value == later.value;
    assert elems + [] == elems;
  }

  lemma OntoLast<T>(elems: seq<T>, e: T)
    ensures Onto(elems, Some([e])) == Some(elems + [e])
  {
  }

  lemma OntoOne<T>(elems: seq<T>, e: T, later: Option<seq<T>>)
    ensures Onto(elems, if later.None? then None else Some([e] + later.value)) == Onto(elems + [e], later)
  {
    assert later.Some? ==> elems + ([e] + later.value) == elems + [e] + later.value;
  }

  lemma {:induction false} SkipSuffix(d: seq<byte>)
    requires StrSkip(d).Some?
    ensures var left := StrSkip(d).value; |left| <= |d| && left == d[|d| - |left|..]
  {
    if d[3] != 0 {
      SkipSuffix(d[4..]);
    }
  }

  /** An item is read from the front of the data. */
  lemma ItemSuffix(tag: byte, d: seq<byte>)
    requires ReadItem(tag, d).Read?
    ensures var left := ReadItem(tag, d).left; |left| <= |d| && left == d[|d| - |left|..]
  {
    hide StrSkip, ReadStr, Int32At, Int64At, MidiAt, ReadBlob;
    if tag == 115 {
      SkipSuffix(d);
    } else if tag == 98 {
      BlobSuffix(d);
    } else {
      assert d == d[0..];
      assert |d| >= 4 ==> d[4..] == d[|d| - |d[4..]|..];
      assert |d| >= 8 ==> d[8..] == d[|d| - |d[8..]|..];
    }
  }

  lemma BlobSuffix(d: seq<byte>)
    requires ReadBlob(d).Read?
    ensures var left := ReadBlob(d).left; |left| <= |d| && left == d[|d| - |left|..]
  {
    hide ReadInt, Padded;
  }

  /** The loop of dumpOSCmsg over a message with type tags. */
  method DumpItems(tags: seq<byte>, d: seq<byte>) returns (r: Option<seq<Item>>)
    ensures r == ReadItems(tags, d)
  {
    hide ReadItem, Onto;
    var rdpos, count, items := 0, 0, [];
    OntoNothing([], ReadItems(tags, d));
    while rdpos < |d|
      invariant rdpos <= |d| && count <= |tags|
      invariant ReadItems(tags, d) == Onto(items, ReadItems(tags[count..], d[rdpos..]))
      decreases |tags| - count
    {
      ghost var left := d[rdpos..];
      OntoFails(items);
      if count == |tags| {
        OntoLast(items, Unknown(0));
        return Some(items + [Unknown(0)]);
      }
      assert tags[count..][0] == tags[count];
      match ReadItem(tags[count], d[rdpos..]) {
        case Outside =>
          return None;
        case Strange =>
          OntoLast(items, Unknown(tags[count]));
          return Some(items + [Unknown(tags[count])]);
        case Read(item, rest) =>
          ItemSuffix(tags[count], left);
          OntoOne(items, item, ReadItems(tags[count + 1..], rest));
          assert tags[count..][1..] == tags[count + 1..];
          rdpos, count, items := |d| - |rest|, count + 1, items + [item];
          assert d[rdpos..] == rest;
      }
    }
    assert d[rdpos..] == [];
    OntoNothing(items, None);
    return Some(items);
  }

  /** The same loop without type tags. */
  method DumpInts(d: seq<byte>) returns (r: Option<seq<Item>>)
    ensures r == ReadInts(d)
  {
    hide ReadInt, Onto;
    var rdpos, items := 0, [];
    OntoNothing([], ReadInts(d));
    while rdpos < |d|
      invariant rdpos <= |d| && ReadInts(d) == Onto(items, ReadInts(d[rdpos..]))
    {
      OntoFails(items);
      if |d| - rdpos < 4 {
        return None;
      }
      var item := Value(IntArg(ReadInt(d[rdpos..])));
      OntoOne(items, item, ReadInts(d[rdpos + 4..]));
      assert d[rdpos..][4..] == d[rdpos + 4..];
      rdpos, items := rdpos + 4, items + [item];
    }
    assert d[rdpos..] == [];
    OntoNothing(items, None);
    return Some(items);
  }

  /** dumpOSCmsg, on the bytes of one message. */
  method DumpMsg(d: seq<byte>) returns (r: Option<Line>)
    ensures r == ReadMsg(d)
  {
    hide StrSkip, ReadStr, ReadInt;
    if d == [] || (d[0] != 0 && StrSkip(d).None?) || (d[0] == 0 && |d| < 4) {
      return None;
    }
    var head := if d[0] != 0 then Address(ReadStr(d)) else Number(ReadInt(d));
    var body := if d[0] != 0 then StrSkip(d).value else d[4..];
    if body == [] {
      return None;
    }
    var items;
    if body[0] != COMMA {
      items := DumpInts(body);
    } else if StrSkip(body).None? {
      return None;
    } else {
      items := DumpItems(ReadStr(body[1..]), StrSkip(body).value);
    }
    return Lined(head, items);
  }

  method DumpElem(d: seq<byte>) returns (r: Option<Elem>)
    ensures r == ReadElem(d)
    decreases |d|, 1
  {
    if ReadStr(d) == BUNDLE {
      r := DumpBundle(d);
    } else if IsStatus(ReadStr(d)) {
      r := Some(Skipped);
    } else {
      var line := DumpMsg(d);
      r := if line.None? then None else Some(Message(line.value));
    }
  }

  /** dumpOSCbndl: `data` advances element by element until it meets the end. */
  method DumpBundle(d: seq<byte>) returns (r: Option<Elem>)
    ensures r == ReadBundle(d)
    decreases |d|, 0
  {
    hide ReadElem, ReadInt, ReadTime, Onto;
    if |d| < 16 {
      return None;
    }
    var data, elems := 16, [];
    OntoNothing([], ReadElems(d[16..]));
    while data < |d|
      invariant 16 <= data <= |d|
      invariant ReadElems(d[16..]) == Onto(elems, ReadElems(d[data..]))
    {
      ghost var left := d[data..];
      OntoFails(elems);
      if data + 4 > |d| {
        return None;
      }
      var size := ReadInt(d[data..]);
      data := data + 4;
      if size < 0 || data + size > |d| {
        return None;
      }
      assert d[data..data + size] == left[4..4 + size];
      assert d[data + size..] == left[4 + size..];
      var elem := DumpElem(d[data..data + size]);
      if elem.None? {
        return None;
      }
      data := data + size;
      OntoOne(elems, elem.value, ReadElems(d[data..]));
      elems := elems + [elem.value];
    }
    assert d[data..] == [];
    OntoNothing(elems, None);
    return Some(Bundle(ReadTime(d[8..]), elems));
  }

  lemma OntoFails<T>(elems: seq<T>)
    ensures Onto(elems, None) == None
  {
  }
}
