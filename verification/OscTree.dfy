/**
 Bundles inside bundles: what the walk of common/SC_OscUtils.hpp prints for a whole
 tree of messages, laid out as OSC 1.0 lays it out.
 */
module OscTree {
  import opened Words
  import opened Osc

  /**
   A message with type tags, one whose data are just integers, or a bundle with a time
   tag and packets in it.  The head of a message is its address, or a number below 2^24.
   */
  datatype Packet =
    | Typed(head: Head, args: seq<Arg>)
    | Untyped(head: Head, ints: seq<int>)
    | Nested(time: int, parts: seq<Packet>)

  function EncTyped(args: seq<Arg>): seq<byte> {
    EncStr([COMMA] + Tags(args)) + EncArgs(args)
  }

  /** A message as it is; a bundle as its marker, its time tag and its parts, each with its size in front. */
  function EncPacket(p: Packet): seq<byte>
    decreases p
  {
    match p
    case Typed(head, args) => EncHead(head) + EncTyped(args)
    case Untyped(head, ints) => EncHead(head) + EncInts(ints)
    case Nested(time, parts) => EncStr(BUNDLE) + EncTime(time) + EncParts(parts)
  }

  function EncParts(parts: seq<Packet>): seq<byte>
    decreases parts
  {
    if parts == [] then []
    else EncInt(|EncPacket(parts[0])|) + EncPacket(parts[0]) + EncParts(parts[1..])
  }

  /** Messages that can be expressed, with a head that is not the marker of bundles; sizes and times that fit. */
  ghost predicate TreeOk(p: Packet)
    decreases p
  {
    match p
    case Typed(head, args) => HeadOk(head) && head != Address(BUNDLE) && ArgsOk(args)
    case Untyped(head, ints) =>
      HeadOk(head) && head != Address(BUNDLE) && ints != [] && forall i :: 0 <= i < |ints| ==> FitsInt32(ints[i])
    case Nested(time, parts) => FitsInt64(time) && PartsOk(parts)
  }

  ghost predicate PartsOk(parts: seq<Packet>)
    decreases parts
  {
    parts != [] ==> TreeOk(parts[0]) && FitsInt32(|EncPacket(parts[0])|) && PartsOk(parts[1..])
  }

  /** The first integer of an untyped message starts with the byte of a comma. */
  predicate LooksTyped(ints: seq<int>)
    requires ints != []
  {
    ints[0] % 0x1_0000_0000 / 0x100_0000 == 44
  }

  /** "/status" and "status", the two addresses that are passed over. */
  predicate PassedOver(h: Head) {
    h == Address([47, 115, 116, 97, 116, 117, 115]) || h == Address([115, 116, 97, 116, 117, 115])
  }

  /** No message in the tree has a character, and none without tags looks as if it had some. */
  ghost predicate Readable(p: Packet)
    decreases p
  {
    match p
    case Typed(_, args) => !HasChar(args)
    case Untyped(_, ints) => ints != [] && !LooksTyped(ints)
    case Nested(_, parts) => PartsReadable(parts)
  }

  ghost predicate PartsReadable(parts: seq<Packet>)
    decreases parts
  {
    parts != [] ==> Readable(parts[0]) && PartsReadable(parts[1..])
  }

  /** Messages to "/status" and "status" are left out; the others show up to their last argument with data. */
  ghost function Outline(p: Packet): Elem
    decreases p
  {
    match p
    case Typed(head, args) => if PassedOver(head) then Skipped else Message(Line(head, Views(args[..LastData(args)])))
    case Untyped(head, ints) => if PassedOver(head) then Skipped else Message(Line(head, IntItems(ints)))
    case Nested(time, parts) => Bundle(time, Outlines(parts))
  }

  ghost function Outlines(parts: seq<Packet>): (r: seq<Elem>)
    ensures |r| == |parts|
    decreases parts
  {
    if parts == [] then [] else [Outline(parts[0])] + Outlines(parts[1..])
  }

  /** The whole tree. */
  ghost function Whole(p: Packet): Elem
    decreases p
  {
    match p
    case Typed(head, args) => Message(Line(head, Views(args)))
    case Untyped(head, ints) => Message(Line(head, IntItems(ints)))
    case Nested(time, parts) => Bundle(time, Wholes(parts))
  }

  ghost function Wholes(parts: seq<Packet>): (r: seq<Elem>)
    ensures |r| == |parts|
    decreases parts
  {
    if parts == [] then [] else [Whole(parts[0])] + Wholes(parts[1..])
  }

  /**
   No message of the tree is to "/status" or "status", has a character, ends in an argument
   without data, or looks as if it had tags.
   */
  ghost predicate AllWhole(p: Packet)
    decreases p
  {
    match p
    case Typed(head, args) => !PassedOver(head) && AllShown(args)
    case Untyped(head, ints) => !PassedOver(head) && ints != [] && !LooksTyped(ints)
    case Nested(_, parts) => AllWholeIn(parts)
  }

  ghost predicate AllWholeIn(parts: seq<Packet>)
    decreases parts
  {
    parts != [] ==> AllWhole(parts[0]) && AllWholeIn(parts[1..])
  }

  // ----- one message

  lemma StatusBytes()
    ensures [47] + STATUS == [47, 115, 116, 97, 116, 117, 115]
  {
  }

  lemma NumberStartsWithNul(n: int, body: seq<byte>)
    requires 0 <= n < 0x100_0000
    ensures (EncInt(n) + body)[0] == 0
  {
  }

  /** A message is taken for a bundle or passed over by its address alone. */
  lemma ElemByHead(h: Head, body: seq<byte>)
    requires HeadOk(h) && h != Address(BUNDLE)
    ensures ReadElem(EncHead(h) + body) ==
      if PassedOver(h) then Some(Skipped)
      else var items := ReadBody(body); if items.None? then None else Some(Message(Line(h, items.value)))
  {
    hide ReadBody, EncInt, EncStr, ReadMsg, StrSkip, ReadBundle;
    HeadParts(h, body);
    StatusBytes();
    match h {
      case Address(text) => StrRoundTrip(text, body);
      case Number(n) => NumberStartsWithNul(n, body);
    }
  }

  lemma TypedBody(args: seq<Arg>)
    ensures ReadBody(EncTyped(args)) == ReadItems(Tags(args), EncArgs(args))
  {
    hide ReadItems, EncArgs, StrSkip, ReadStr, Tags, Zeros;
    var typed := [COMMA] + Tags(args);
    TagsAreText(args);
    StrRoundTrip(typed, EncArgs(args));
    TagsRead(args, EncArgs(args));
    assert EncTyped(args)[0] == COMMA;
  }

  /** Every message of the tree is read as its outline, and shown whole exactly when it is one to get right. */
  lemma TypedElem(h: Head, args: seq<Arg>)
    requires TreeOk(Typed(h, args))
    ensures !HasChar(args) ==> ReadElem(EncPacket(Typed(h, args))) == Some(Outline(Typed(h, args)))
    ensures ReadElem(EncPacket(Typed(h, args))) == Some(Whole(Typed(h, args))) <==> AllWhole(Typed(h, args))
  {
    hide ReadElem, ReadBody, ReadItems, EncHead, EncTyped, EncArgs, Tags, Views, HasChar, AllShown, PassedOver, HeadOk;
    ElemByHead(h, EncTyped(args));
    TypedBody(args);
    ItemsShown(args);
    if !HasChar(args) {
      ItemsRoundTrip(args);
    }
  }

  lemma UntypedElem(h: Head, ints: seq<int>)
    requires TreeOk(Untyped(h, ints))
    ensures !LooksTyped(ints) ==> ReadElem(EncPacket(Untyped(h, ints))) == Some(Outline(Untyped(h, ints)))
    ensures ReadElem(EncPacket(Untyped(h, ints))) == Some(Whole(Untyped(h, ints))) <==> AllWhole(Untyped(h, ints))
  {
    hide ReadElem, ReadBody, EncHead, EncInts, IntItems, PassedOver, ReadMsg, HeadOk;
    ElemByHead(h, EncInts(ints));
    HeadParts(h, EncInts(ints));
    PlainShown(h, ints);
  }

  // ----- the tree

  /** Every readable tree is walked into its outline: bundles at any depth, ending where the data ends. */
  lemma {:induction false} TreeRoundTrip(p: Packet)
    requires TreeOk(p) && Readable(p)
    ensures ReadElem(EncPacket(p)) == Some(Outline(p))
    decreases p
  {
    hide ReadElems, EncStr, EncTime, EncHead, EncTyped, EncInts, HasChar, LooksTyped, PassedOver, Views, HeadOk;
    match p {
      case Typed(head, args) => TypedElem(head, args);
      case Untyped(head, ints) => UntypedElem(head, ints);
      case Nested(time, parts) =>
        PartsRoundTrip(parts);
        BundleBody(time, EncParts(parts));
    }
  }

  lemma {:induction false} PartsRoundTrip(parts: seq<Packet>)
    requires PartsOk(parts) && PartsReadable(parts)
    ensures ReadElems(EncParts(parts)) == Some(Outlines(parts))
    decreases parts
  {
    hide ReadElem, EncPacket, TreeOk, Outline, Readable;
    if parts != [] {
      TreeRoundTrip(parts[0]);
      PartsRoundTrip(parts[1..]);
      SizedStep(EncPacket(parts[0]), EncParts(parts[1..]));
    } else {
      NoElems();
    }
  }

  lemma NoElems()
    ensures ReadElems([]) == Some([])
  {
  }

  /** The walk shows all of a tree if and only if every message in it, at any depth, is one it gets right. */
  lemma {:induction false} TreeShowsAll(p: Packet)
    requires TreeOk(p)
    ensures ReadElem(EncPacket(p)) == Some(Whole(p)) <==> AllWhole(p)
    decreases p
  {
    hide ReadElems, EncStr, EncTime, EncHead, EncTyped, EncInts, AllShown, LooksTyped, PassedOver, Views, HeadOk;
    match p {
      case Typed(head, args) => TypedElem(head, args);
      case Untyped(head, ints) => UntypedElem(head, ints);
      case Nested(time, parts) =>
        PartsShowAll(parts);
        BundleBody(time, EncParts(parts));
    }
  }

  lemma {:induction false} PartsShowAll(parts: seq<Packet>)
    requires PartsOk(parts)
    ensures ReadElems(EncParts(parts)) == Some(Wholes(parts)) <==> AllWholeIn(parts)
    decreases parts
  {
    hide ReadElem, EncPacket, TreeOk, Whole, AllWhole;
    if parts != [] {
      TreeShowsAll(parts[0]);
      PartsShowAll(parts[1..]);
      SizedStep(EncPacket(parts[0]), EncParts(parts[1..]));
      PartsDiffer(ReadElem(EncPacket(parts[0])), ReadElems(EncParts(parts[1..])), parts);
    } else {
      NoElems();
    }
  }

  lemma PartsDiffer(elem: Option<Elem>, later: Option<seq<Elem>>, parts: seq<Packet>)
    requires parts != []
    ensures (if elem.None? || later.None? then None else Some([elem.value] + later.value)) == Some(Wholes(parts))
       <==> elem == Some(Whole(parts[0])) && later == Some(Wholes(parts[1..]))
  {
    hide Whole;
    var ws := Wholes(parts);
    assert ws[0] == Whole(parts[0]) && ws[1..] == Wholes(parts[1..]);
    if elem.Some? && later.Some? {
      var w := [elem.value] + later.value;
      assert w[0] == elem.value && w[1..] == later.value;
    }
  }
}
