/**
 The packet buffer `scpacket` of common/scsynthsend.h, written word by word.
 */
module OscWriter {
  import opened Words
  import opened Osc

  lemma Regroup(a: seq<byte>, b: seq<byte>, c: seq<byte>)
    ensures a + (b + c) == a + b + c
  {
  }

  lemma {:induction false} EncArgsAppend(args: seq<Arg>, a: Arg)
    ensures EncArgs(args + [a]) == EncArgs(args) + EncArg(a)
  {
    hide EncArg;
    if args == [] {
      assert EncArgs([a]) == EncArg(a) + EncArgs([]);
      assert args + [a] == [a];
    } else {
      assert (args + [a])[1..] == args[1..] + [a];
      EncArgsAppend(args[1..], a);
      Regroup(EncArg(args[0]), EncArgs(args[1..]), EncArg(a));
    }
  }

  lemma {:induction false} TagsAppend(args: seq<Arg>, a: Arg)
    ensures Tags(args + [a]) == Tags(args) + [Tag(a)]
  {
    if args == [] {
      assert args + [a] == [a];
      assert Tags([a]) == [Tag(a)] + Tags([]);
    } else {
      assert (args + [a])[1..] == args[1..] + [a];
      TagsAppend(args[1..], a);
    }
  }

  lemma {:induction false} EncMsgsAppend(msgs: seq<Msg>, m: Msg)
    ensures EncMsgs(msgs + [m]) == EncMsgs(msgs) + EncElem(m)
  {
    hide EncElem;
    if msgs == [] {
      assert EncMsgs([m]) == EncElem(m) + EncMsgs([]);
      assert msgs + [m] == [m];
    } else {
      assert (msgs + [m])[1..] == msgs[1..] + [m];
      EncMsgsAppend(msgs[1..], m);
    }
  }

  lemma {:induction false} ArgsPrefixShorter(args: seq<Arg>, k: nat)
    requires k <= |args|
    ensures |EncArgs(args[..k])| <= |EncArgs(args)|
    decreases |args| - k
  {
    if k < |args| {
      ArgsPrefixShorter(args, k + 1);
      assert args[..k + 1] == args[..k] + [args[k]];
      EncArgsAppend(args[..k], args[k]);
    } else {
      assert args[..k] == args;
    }
  }

  lemma {:induction false} MsgsPrefixShorter(msgs: seq<Msg>, k: nat)
    requires k <= |msgs|
    ensures |EncMsgs(msgs[..k])| <= |EncMsgs(msgs)|
    decreases |msgs| - k
  {
    if k < |msgs| {
      MsgsPrefixShorter(msgs, k + 1);
      assert msgs[..k + 1] == msgs[..k] + [msgs[k]];
      EncMsgsAppend(msgs[..k], msgs[k]);
      hide EncElem;
    } else {
      assert msgs[..k] == msgs;
    }
  }

  /** Clearing the last word and then copying the string leaves it padded. */
  lemma PaddedCopy(b0: seq<byte>, b1: seq<byte>, b2: seq<byte>, w: nat, src: seq<byte>)
    requires var n := 4 * ((|src| + 4) / 4);
      && w + n <= |b0|
      && b1 == b0[..w + n - 4] + [0, 0, 0, 0] + b0[w + n..]
      && b2 == b1[..w] + src + b1[w + |src|..]
    ensures |b2| == |b0| && b2[..w + |EncStr(src)|] == b0[..w] + EncStr(src)
  {
    var n := 4 * ((|src| + 4) / 4);
    assert n - |src| == 4 - |src| % 4;
    PaddedTail(b0, b1, b2, w, src, n);
    assert b2[..w + n] == b0[..w] + src + b2[w + |src|..w + n];
    assert b0[..w] + src + Zeros(n - |src|) == b0[..w] + (src + Zeros(n - |src|));
  }

  lemma PaddedTail(b0: seq<byte>, b1: seq<byte>, b2: seq<byte>, w: nat, src: seq<byte>, n: nat)
    requires |src| < n <= |src| + 4 && 4 <= n && w + n <= |b0|
    requires b1 == b0[..w + n - 4] + [0, 0, 0, 0] + b0[w + n..]
    requires b2 == b1[..w] + src + b1[w + |src|..]
    ensures |b2| == |b0| && b2[w + |src|..w + n] == Zeros(n - |src|)
  {
    assert forall i :: w + |src| <= i < w + n ==> b2[i] == b1[i] == 0;
  }

  lemma NoArgs(args: seq<Arg>)
    ensures Tags(args[..0]) == [] && EncArgs(args[..0]) == []
  {
  }

  /** A full tag area is the padded type tag string. */
  lemma TagArea(b: seq<byte>, w: seq<byte>, typed: seq<byte>, end: nat)
    requires end == |w| + 4 * ((|typed| + 4) / 4) && end <= |b|
    requires b[..|w| + |typed|] == w + typed
    requires forall i :: end - 4 <= i < end && |w| + |typed| <= i ==> b[i] == 0
    ensures b[..end] == w + EncStr(typed)
  {
    var n := |w| + |typed|;
    assert end - n == 4 - |typed| % 4;
    var z := Zeros(end - n);
    assert forall i :: n <= i < end ==> b[i] == 0;
    assert b[n..end] == z;
    assert b[..end] == b[..n] + b[n..end];
    assert w + typed + z == w + (typed + z);
  }

  /** One tag stored at `n` and one value appended. */
  lemma ArgStep(b: seq<byte>, b2: seq<byte>, n: nat, t: byte, end: nat, value: seq<byte>)
    requires n < end <= |b| && b2 == b[n := t] + value
    ensures |b2| >= |b| && b2[..n + 1] == b[..n] + [t] && b2[end..] == b[end..] + value
    ensures forall i :: n + 1 <= i < end ==> b2[i] == b[i]
  {
  }

  lemma NoMsgs(msgs: seq<Msg>)
    ensures EncMsgs(msgs[..0]) == []
  {
  }

  /** Filling in the size where four bytes were kept for it. */
  lemma SizePatched(w: seq<byte>, room: seq<byte>, body: seq<byte>, size: seq<byte>)
    requires |room| == 4 && |size| == 4
    ensures var all := w + room + body; all[..|w|] + size + all[|w| + 4..] == w + (size + body)
  {
  }

  /** Messages of a bundle that fits have sizes that fit. */
  lemma {:induction false} SizesFit(msgs: seq<Msg>, n: int)
    requires |EncMsgs(msgs)| <= n < 0x8000_0000
    ensures forall i :: 0 <= i < |msgs| ==> FitsInt32(|EncMsg(msgs[i])|)
    decreases |msgs|
  {
    if msgs != [] {
      hide EncMsg, EncInt;
      SizesFit(msgs[1..], n);
      forall i | 0 <= i < |msgs| ensures FitsInt32(|EncMsg(msgs[i])|) {
        if i > 0 {
          assert msgs[i] == msgs[1..][i - 1];
        }
      }
    }
  }

  /** Arguments for which the packet has an operation that appends their bytes. */
  predicate Writable(a: Arg) {
    !a.MidiArg? && (a.BlobArg? ==> a.blob != [] && |a.blob| % 4 == 0)
  }

  /** `w`, the bytes in front of a blob, with its last word cleared if the blob is empty. */
  function Front(w: seq<byte>, b: seq<byte>): (r: seq<byte>)
    requires b != [] || |w| >= 4
    ensures |r| == |w|
  {
    if b == [] then w[..|w| - 4] + [0, 0, 0, 0] else w
  }

  /** What `w`, the bytes written so far, becomes when blob `b` is added to a buffer that held `was`. */
  function BlobPut(w: seq<byte>, b: seq<byte>, was: seq<byte>): seq<byte>
    requires (b != [] || |w| >= 4) && |w| + 4 + Padded(|b|) <= |was|
  {
    Front(w, b) + Sized(b) + was[|w| + 4 + |b|..|w| + 4 + Padded(|b|)]
  }

  /** A blob is appended as it should be if its size is a multiple of four and not 0. */
  lemma BlobPadded(w: seq<byte>, b: seq<byte>, was: seq<byte>)
    requires b != [] && |b| % 4 == 0
    ensures Padded(|b|) == |b|
    ensures |w| + 4 + |b| <= |was| ==> BlobPut(w, b, was) == w + EncBlob(b)
  {
    hide EncInt;
    assert Padded(|b|) == |b|;
    if |w| + 4 + |b| <= |was| {
      BlobExact(w, b, was);
    }
  }

  lemma FrontKept(w: seq<byte>, b: seq<byte>)
    requires b != [] || |w| >= 4
    ensures Front(w, b) == w <==> (b == [] ==> w[|w| - 4..] == [0, 0, 0, 0])
  {
    if b == [] {
      assert w == w[..|w| - 4] + w[|w| - 4..];
      assert Front(w, b)[|w| - 4..] == [0, 0, 0, 0];
    }
  }

  /**
   A blob is appended as it should be if and only if the buffer held zeros where the
   padding goes and, for an empty blob, the word in front is 0.
   */
  lemma BlobExact(w: seq<byte>, b: seq<byte>, was: seq<byte>)
    requires (b != [] || |w| >= 4) && |w| + 4 + Padded(|b|) <= |was|
    ensures
      var pad := was[|w| + 4 + |b|..|w| + 4 + Padded(|b|)];
      BlobPut(w, b, was) == w + EncBlob(b)
      <==> pad == Zeros(Padded(|b|) - |b|) && (b == [] ==> w[|w| - 4..] == [0, 0, 0, 0])
  {
    hide BlobPut, EncBlob, Padded, Zeros, Front;
    FrontKept(w, b);
    BlobSame(w, b, was);
  }

  lemma BlobSame(w: seq<byte>, b: seq<byte>, was: seq<byte>)
    requires (b != [] || |w| >= 4) && |w| + 4 + Padded(|b|) <= |was|
    ensures
      var pad := was[|w| + 4 + |b|..|w| + 4 + Padded(|b|)];
      BlobPut(w, b, was) == w + EncBlob(b) <==> Front(w, b) == w && pad == Zeros(Padded(|b|) - |b|)
  {
    hide Sized, Padded, Zeros, Front;
    var zeros := Zeros(Padded(|b|) - |b|);
    Regroup(w, Sized(b), zeros);
    SameParts(Front(w, b), Sized(b), was[|w| + 4 + |b|..|w| + 4 + Padded(|b|)], w, zeros);
  }

  lemma SameParts(a: seq<byte>, mid: seq<byte>, c: seq<byte>, a': seq<byte>, c': seq<byte>)
    requires |a| == |a'| && |c| == |c'|
    ensures a + mid + c == a' + mid + c' <==> a == a' && c == c'
  {
    var s, s' := a + mid + c, a' + mid + c';
    assert s[..|a|] == a && s'[..|a|] == a';
    assert s[|a| + |mid|..] == c && s'[|a| + |mid|..] == c';
  }

  lemma FourParts(s: seq<byte>, i: nat, j: nat, k: nat, n: nat)
    requires i <= j <= k <= n <= |s|
    ensures s[..n] == s[..i] + (s[i..j] + s[j..k]) + s[k..n]
  {
  }

  /** The three copies of addb: the cleared word, the size, the blob. */
  lemma BlobBytes(b0: seq<byte>, b1: seq<byte>, b2: seq<byte>, b3: seq<byte>, w: nat, b: seq<byte>,
    size: seq<byte>, n: nat)
    requires (b != [] || w >= 4) && |size| == 4 && |b| <= n < |b| + 4 && (b == [] <==> n < 4)
    requires (b == [] ==> n == 0) && w + 4 + n <= |b0|
    requires b1 == b0[..w + n - 4] + [0, 0, 0, 0] + b0[w + n..]
    requires b2 == b1[..w] + size + b1[w + 4..]
    requires b3 == b2[..w + 4] + b + b2[w + 4 + |b|..]
    ensures |b3| == |b0|
    ensures b3[..w + 4 + n] == Front(b0[..w], b) + (size + b) + b0[w + 4 + |b|..w + 4 + n]
  {
    var end := w + 4 + |b|;
    PadKept(b0, b1, b2, b3, w, b, size, n);
    FrontBytes(b0, b1, w, b, n);
    assert b3[..w] == b2[..w] == b1[..w];
    assert b3[w..w + 4] == b2[w..w + 4] == size && b3[w + 4..end] == b;
    FourParts(b3, w, w + 4, end, w + 4 + n);
    hide Front;
  }

  /** The same, said of the bytes written. */
  lemma BlobWritten(b0: seq<byte>, b1: seq<byte>, b2: seq<byte>, b3: seq<byte>, wrpos: nat, len4: nat, b: seq<byte>)
    requires (b != [] || wrpos > 0) && len4 == (|b| + 3) / 4 && 4 * (wrpos + 1 + len4) <= |b0|
    requires b1 == b0[..4 * (wrpos + len4 - 1)] + [0, 0, 0, 0] + b0[4 * (wrpos + len4 - 1) + 4..]
    requires b2 == b1[..4 * wrpos] + EncInt(|b|) + b1[4 * wrpos + 4..]
    requires b3 == b2[..4 * (wrpos + 1)] + b + b2[4 * (wrpos + 1) + |b|..]
    ensures b3[..4 * (wrpos + 1 + len4)] == BlobPut(b0[..4 * wrpos], b, b0)
  {
    hide EncInt, Front;
    BlobBytes(b0, b1, b2, b3, 4 * wrpos, b, EncInt(|b|), 4 * len4);
    assert Sized(b) == EncInt(|b|) + b;
  }

  lemma FrontBytes(b0: seq<byte>, b1: seq<byte>, w: nat, b: seq<byte>, n: nat)
    requires (b != [] || w >= 4) && (b == [] <==> n < 4) && (b == [] ==> n == 0)
    requires w + 4 + n <= |b0| && b1 == b0[..w + n - 4] + [0, 0, 0, 0] + b0[w + n..]
    ensures |b1| == |b0| && b1[..w] == Front(b0[..w], b)
  {
  }

  lemma PadKept(b0: seq<byte>, b1: seq<byte>, b2: seq<byte>, b3: seq<byte>, w: nat, b: seq<byte>,
    size: seq<byte>, n: nat)
    requires |size| == 4 && |b| <= n < |b| + 4 && w + n >= 4 && w + 4 + n <= |b0|
    requires b1 == b0[..w + n - 4] + [0, 0, 0, 0] + b0[w + n..]
    requires b2 == b1[..w] + size + b1[w + 4..]
    requires b3 == b2[..w + 4] + b + b2[w + 4 + |b|..]
    ensures |b3| == |b2| == |b0| && b3[w + 4 + |b|..w + 4 + n] == b0[w + 4 + |b|..w + 4 + n]
  {
    assert forall i :: w + 4 + |b| <= i < w + 4 + n ==> b3[i] == b2[i] == b1[i] == b0[i];
  }

  class ScPacket {
    const kBufSize: nat  // in words of four bytes
    const buf: array<byte>
    var wrpos: nat       // next word to write
    var msgsizepos: nat  // word that holds the size of the message being written
    var tagwrpos: nat    // next byte of the type tag string
    var inbundle: nat

    ghost predicate Valid()
      reads this
    {
      buf.Length == 4 * kBufSize < 0x8000_0000 && wrpos <= kBufSize
    }

    /** The bytes written so far. */
    ghost function Written(): (w: seq<byte>)
      requires Valid()
      reads this, buf
      ensures |w| == 4 * wrpos
    {
      buf[..4 * wrpos]
    }

    ghost predicate Fits(n: int)
      requires Valid()
      reads this
    {
      4 * wrpos + n <= 4 * kBufSize
    }

    constructor (maxPacketSize: nat)
      requires maxPacketSize < 0x8000_0000
      ensures Valid() && kBufSize == maxPacketSize / 4 && wrpos == 0 && inbundle == 0 && fresh(buf)
    {
      kBufSize := maxPacketSize / 4;
      buf := new byte[4 * (maxPacketSize / 4)];
      wrpos, msgsizepos, tagwrpos, inbundle := 0, 0, 0, 0;
    }

    /** memcpy of `src` to word `w`. */
    method Copy(w: nat, src: seq<byte>)
      requires Valid() && 4 * w + |src| <= buf.Length
      modifies buf
      ensures buf[..] == old(buf[..4 * w]) + src + old(buf[4 * w + |src|..])
    {
      forall i | 0 <= i < |src| {
        buf[4 * w + i] := src[i];
      }
    }

    method AddInt(i: int) returns (ok: bool)
      requires Valid()
      modifies this`wrpos, buf
      ensures Valid() && ok == old(Fits(4))
      ensures Written() == if ok then old(Written()) + EncInt(i) else old(Written())
    {
      if wrpos >= kBufSize {
        return false;
      }
      hide EncInt;
      Copy(wrpos, EncInt(i));
      wrpos := wrpos + 1;
      assert Written() == old(Written()) + EncInt(i);
      return true;
    }

    /** A 64-bit value, high word first. */
    method AddLong(t: int) returns (ok: bool)
      requires Valid()
      modifies this`wrpos, buf
      ensures Valid() && ok == old(Fits(8))
      ensures ok ==> Written() == old(Written()) + EncTime(t)
      ensures !ok ==> Written() == if old(Fits(4)) then old(Written()) + EncInt(t / WORD32) else old(Written())
    {
      hide EncInt;
      ok := AddInt(t / WORD32);
      if ok {
        ok := AddInt(t);
        assert ok ==> Written() == old(Written()) + EncTime(t);
      }
    }

    method AddStr(src: seq<byte>) returns (ok: bool)
      requires Valid()
      modifies this`wrpos, buf
      ensures Valid() && ok == old(Fits(|EncStr(src)|))
      ensures Written() == if ok then old(Written()) + EncStr(src) else old(Written())
    {
      var len4 := (|src| + 4) / 4;
      if wrpos + len4 > kBufSize {
        return false;
      }
      hide EncStr;
      Copy(wrpos + len4 - 1, [0, 0, 0, 0]);
      ghost var cleared := buf[..];
      Copy(wrpos, src);
      PaddedCopy(old(buf[..]), cleared, buf[..], 4 * wrpos, src);
      wrpos := wrpos + len4;
      assert Written() == buf[..][..4 * wrpos];
      assert old(Written()) == old(buf[..])[..4 * old(wrpos)];
      return true;
    }

    /** Room for `n` type tags, the last word of it cleared. */
    method MakeTags(n: nat) returns (ok: bool)
      requires Valid()
      modifies this`wrpos, this`tagwrpos, buf
      ensures Valid() && ok == old(Fits(4 * ((n + 4) / 4)))
      ensures !ok ==> Written() == old(Written())
      ensures ok ==> tagwrpos == 4 * old(wrpos) && wrpos == old(wrpos) + (n + 4) / 4
      ensures ok ==> Written()[..4 * old(wrpos)] == old(Written())
      ensures ok ==> forall i :: 4 * wrpos - 4 <= i < 4 * wrpos ==> Written()[i] == 0
    {
      var size4 := (n + 4) / 4;
      tagwrpos := 4 * wrpos;
      if wrpos + size4 > kBufSize {
        return false;
      }
      wrpos := wrpos + size4;
      Copy(wrpos - 1, [0, 0, 0, 0]);
      return true;
    }

    method AddTag(c: byte)
      requires Valid() && tagwrpos < 4 * wrpos
      modifies this`tagwrpos, buf
      ensures Valid() && tagwrpos == old(tagwrpos) + 1
      ensures Written() == old(Written())[old(tagwrpos) := c]
    {
      buf[tagwrpos] := c;
      tagwrpos := tagwrpos + 1;
    }

    /** addf: the bit pattern of a float, one word. */
    method AddFloat(bits: int) returns (ok: bool)
      requires Valid()
      modifies this`wrpos, buf
      ensures Valid() && ok == old(Fits(4))
      ensures Written() == if ok then old(Written()) + EncInt(bits) else old(Written())
    {
      ok := AddInt(bits);
    }

    /**
     addd: two words, but room is tested for one.  With exactly one word free the
     second lands `past` the buffer.
     */
    method AddDouble(pattern: int) returns (ok: bool, past: bool)
      requires Valid()
      modifies this`wrpos, buf
      ensures Valid() && ok == old(Fits(8)) && past == (wrpos == kBufSize == old(wrpos) + 1)
      ensures ok ==> Written() == old(Written()) + EncTime(pattern)
      ensures !ok ==> Written() == if past then old(Written()) + EncInt(pattern / WORD32) else old(Written())
    {
      if wrpos >= kBufSize {
        return false, false;
      }
      hide EncInt;
      Copy(wrpos, EncInt(pattern / WORD32));
      wrpos := wrpos + 1;
      assert Written() == old(Written()) + EncInt(pattern / WORD32);
      past := wrpos == kBufSize;
      if !past {
        Copy(wrpos, EncInt(pattern));
        wrpos := wrpos + 1;
        assert Written() == old(Written()) + EncTime(pattern);
      }
      ok := !past;
    }

    /**
     addb: clears a word before the size is written, which is one word too early.  The
     bytes behind the blob keep what the buffer held, and for an empty blob the word in
     front of it is cleared instead.
     */
    method AddBlob(b: seq<byte>) returns (ok: bool)
      requires Valid() && (b != [] || wrpos > 0)
      modifies this`wrpos, buf
      ensures Valid() && ok == old(Fits(4 + Padded(|b|)))
      ensures !ok ==> Written() == old(Written())
      ensures ok ==> Written() == BlobPut(old(Written()), b, old(buf[..]))
    {
      var len4 := (|b| + 3) / 4;
      if wrpos + len4 + 1 > kBufSize {
        return false;
      }
      hide BlobPut;
      CopyBlob(b, len4);
      wrpos := wrpos + 1 + len4;
      assert Written() == buf[..][..4 * wrpos];
      assert old(Written()) == old(buf[..])[..4 * old(wrpos)];
      return true;
    }

    /** The three copies of addb. */
    method CopyBlob(b: seq<byte>, len4: nat)
      requires Valid() && (b != [] || wrpos > 0) && len4 == (|b| + 3) / 4 && wrpos + len4 + 1 <= kBufSize
      modifies buf
      ensures buf[..][..4 * (wrpos + 1 + len4)] == BlobPut(old(buf[..])[..4 * wrpos], b, old(buf[..]))
    {
      hide EncInt, BlobPut;
      Copy(wrpos + len4 - 1, [0, 0, 0, 0]);
      ghost var cleared := buf[..];
      Copy(wrpos, EncInt(|b|));
      ghost var sized := buf[..];
      Copy(wrpos + 1, b);
      BlobWritten(old(buf[..]), cleared, sized, buf[..], wrpos, len4, b);
    }

    method AddArg(a: Arg) returns (ok: bool)
      requires Valid() && Writable(a)
      modifies this`wrpos, buf
      ensures Valid() && ok == old(Fits(|EncArg(a)|))
      ensures ok ==> Written() == old(Written()) + EncArg(a)
      ensures !ok && !a.DoubleArg? && !a.TimeArg? ==> Written() == old(Written())
    {
      hide EncInt, EncTime, EncStr, BlobPut, EncBlob;
      ok := true;
      match a {
        case IntArg(i) => ok := AddInt(i);
        case FloatArg(bits) => ok := AddFloat(bits);
        case CharArg(c) => ok := AddInt(c);
        case DoubleArg(p) =>
          var past;
          ok, past := AddDouble(p);
        case TimeArg(t) => ok := AddLong(t);
        case StrArg(s) => ok := AddStr(s);
        case BlobArg(b) =>
          ok := AddBlob(b);
          BlobPadded(old(Written()), b, old(buf[..]));
        case _ =>
      }
    }

    method BeginMsg() returns (ok: bool)
      requires Valid()
      modifies this`wrpos, this`msgsizepos, buf
      ensures Valid() && ok == (inbundle == 0 || old(Fits(4)))
      ensures inbundle == 0 ==> Written() == old(Written())
      ensures inbundle > 0 && ok ==> msgsizepos == old(wrpos) && Written() == old(Written()) + EncInt(0)
    {
      ok := true;
      if inbundle > 0 {
        msgsizepos := wrpos;
        ok := AddInt(0);
      }
    }

    /** Stores the size of the message where BeginMsg left room for it. */
    method EndMsg()
      requires Valid() && (inbundle > 0 ==> msgsizepos < wrpos)
      modifies buf
      ensures Valid()
      ensures inbundle == 0 ==> Written() == old(Written())
      ensures inbundle > 0 ==>
        var p := 4 * msgsizepos;
        Written() == old(Written())[..p] + EncInt(4 * wrpos - p - 4) + old(Written())[p + 4..]
    {
      if inbundle > 0 {
        hide EncInt;
        Copy(msgsizepos, EncInt((wrpos - msgsizepos - 1) * 4));
        assert Written() == buf[..][..4 * wrpos];
      }
    }

    /** A tag and a value for each argument. */
    method AddArgs(args: seq<Arg>, ghost w: seq<byte>, ghost end: nat) returns (ok: bool)
      requires Valid() && end == 4 * wrpos && tagwrpos == |w| && |w| + |args| <= end
      requires Written()[..|w|] == w && forall a :: a in args ==> Writable(a)
      modifies this`wrpos, this`tagwrpos, buf
      ensures Valid() && ok == old(Fits(|EncArgs(args)|))
      ensures ok ==> end <= 4 * wrpos && Written()[..|w| + |args|] == w + Tags(args)
      ensures ok ==> forall i :: |w| + |args| <= i < end ==> Written()[i] == old(Written())[i]
      ensures ok ==> Written()[end..] == EncArgs(args)
    {
      hide EncArg, EncArgs, Tags;
      NoArgs(args);
      for k := 0 to |args|
        invariant Valid() && tagwrpos == |w| + k && end <= 4 * wrpos
        invariant Written()[..|w| + k] == w + Tags(args[..k])
        invariant forall i :: |w| + k <= i < end ==> Written()[i] == old(Written())[i]
        invariant Written()[end..] == EncArgs(args[..k])
      {
        TagsAppend(args[..k], args[k]);
        EncArgsAppend(args[..k], args[k]);
        ArgsPrefixShorter(args, k + 1);
        assert args[..k + 1] == args[..k] + [args[k]];
        ghost var b := Written();
        AddTag(Tag(args[k]));
        ok := AddArg(args[k]);
        if !ok {
          return;
        }
        ArgStep(b, Written(), |w| + k, Tag(args[k]), end, EncArg(args[k]));
      }
      assert args[..|args|] == args;
      ok := true;
    }

    /** Tags and arguments into a fresh tag area that ends at byte `end`. */
    method AddTyped(args: seq<Arg>, ghost w: seq<byte>, ghost end: nat) returns (ok: bool)
      requires Valid() && end == 4 * wrpos == |w| + 4 * ((|args| + 5) / 4) && tagwrpos == |w|
      requires Written()[..|w|] == w && forall i :: end - 4 <= i < end ==> Written()[i] == 0
      requires forall a :: a in args ==> Writable(a)
      modifies this`wrpos, this`tagwrpos, buf
      ensures Valid() && ok == old(Fits(|EncArgs(args)|))
      ensures ok ==> Written() == w + EncStr([COMMA] + Tags(args)) + EncArgs(args)
    {
      hide EncStr, EncArg, EncArgs, Tags, Writable;
      ghost var typed := [COMMA] + Tags(args);
      AddTag(COMMA);
      assert Written()[..|w| + 1] == w + [COMMA];
      ghost var tagged := Written();
      ok := AddArgs(args, w + [COMMA], end);
      if !ok {
        return;
      }
      assert w + [COMMA] + Tags(args) == w + typed;
      assert forall i :: end - 4 <= i < end && |w| + |typed| <= i ==> Written()[i] == tagged[i] == 0;
      TagArea(Written(), w, typed, end);
      assert Written() == Written()[..end] + Written()[end..];
    }

    /** Address, type tags and arguments of one message, between BeginMsg and EndMsg. */
    method AddBody(m: Msg) returns (ok: bool)
      requires Valid() && forall a :: a in m.args ==> Writable(a)
      modifies this`wrpos, this`tagwrpos, buf
      ensures Valid() && ok == old(Fits(|EncMsg(m)|))
      ensures ok ==> Written() == old(Written()) + EncMsg(m)
    {
      hide EncStr, EncArg, EncArgs, Tags, Writable;
      ok := AddStr(m.address);
      if ok {
        ghost var w := Written();
        ok := MakeTags(|m.args| + 1);
        if ok {
          ok := AddTyped(m.args, w, 4 * wrpos);
          ghost var typed := EncStr([COMMA] + Tags(m.args));
          Regroup(old(Written()), EncStr(m.address), typed);
          Regroup(old(Written()), EncStr(m.address) + typed, EncArgs(m.args));
        }
      }
    }

    /** One message; in a bundle, with its size in front. */
    method WriteMsg(m: Msg) returns (ok: bool)
      requires Valid() && forall a :: a in m.args ==> Writable(a)
      modifies this`wrpos, this`msgsizepos, this`tagwrpos, buf
      ensures Valid() && ok == old(Fits(if inbundle > 0 then |EncElem(m)| else |EncMsg(m)|))
      ensures ok ==> Written() == old(Written()) + (if inbundle > 0 then EncElem(m) else EncMsg(m))
    {
      hide EncMsg, EncInt;
      ok := BeginMsg();
      if !ok {
        return;
      }
      ghost var w := Written();
      ok := AddBody(m);
      if !ok {
        return;
      }
      EndMsg();
      if inbundle > 0 {
        SizePatched(old(Written()), EncInt(0), EncMsg(m), EncInt(|EncMsg(m)|));
      }
    }

    method OpenBundle(time: int) returns (ok: bool)
      requires Valid()
      modifies this`wrpos, this`inbundle, buf
      ensures Valid() && ok == old(Fits(16)) && inbundle == old(inbundle) + 1
      ensures ok ==> Written() == old(Written()) + EncStr(BUNDLE) + EncTime(time)
    {
      hide EncStr, EncTime;
      BundleText();
      inbundle := inbundle + 1;
      ok := AddStr(BUNDLE);
      if ok {
        ok := AddLong(time);
      }
    }

    method CloseBundle()
      requires Valid()
      modifies this`inbundle
      ensures Valid() && inbundle == if old(inbundle) > 0 then old(inbundle) - 1 else 0
    {
      if inbundle > 0 {
        inbundle := inbundle - 1;
      }
    }

    /** A flat bundle in a fresh packet: it fits or the packet overflows, and if it fits the walk reads it back. */
    method WriteBundle(time: int, msgs: seq<Msg>) returns (ok: bool)
      requires Valid() && wrpos == 0 && inbundle == 0
      requires FitsInt64(time) && forall i, a :: 0 <= i < |msgs| && a in msgs[i].args ==> Writable(a)
      modifies this`wrpos, this`msgsizepos, this`tagwrpos, this`inbundle, buf
      ensures Valid() && ok == (|EncBundle(time, msgs)| <= 4 * kBufSize)
      ensures ok ==> Written() == EncBundle(time, msgs)
      ensures ok && (forall i :: 0 <= i < |msgs| ==> MsgOk(msgs[i])) ==>
        && ((forall i :: 0 <= i < |msgs| ==> !HasChar(msgs[i].args)) ==>
              ReadBundle(Written()) == Some(Bundle(time, ShownAll(msgs))))
        && (ReadBundle(Written()) == Some(Bundle(time, Messages(msgs))) <==>
              forall i :: 0 <= i < |msgs| ==> ShowsWhole(msgs[i]))
    {
      hide EncStr, EncTime, EncElem, EncMsgs, EncMsg, ReadBundle, ShownAll, Messages, MsgOk, HasChar, ShowsWhole;
      BundleText();
      assert Written() == [];
      ok := OpenBundle(time);
      if !ok {
        return;
      }
      ghost var head := EncStr(BUNDLE) + EncTime(time);
      NoMsgs(msgs);
      for k := 0 to |msgs|
        invariant Valid() && inbundle == 1 && Written() == head + EncMsgs(msgs[..k])
      {
        assert msgs[..k + 1] == msgs[..k] + [msgs[k]];
        EncMsgsAppend(msgs[..k], msgs[k]);
        MsgsPrefixShorter(msgs, k + 1);
        ok := WriteMsg(msgs[k]);
        if !ok {
          return;
        }
      }
      assert msgs[..|msgs|] == msgs;
      CloseBundle();
      if forall i :: 0 <= i < |msgs| ==> MsgOk(msgs[i]) {
        SizesFit(msgs, 4 * kBufSize);
        BundleShowsAll(time, msgs);
        if forall i :: 0 <= i < |msgs| ==> !HasChar(msgs[i].args) {
          BundleRoundTrip(time, msgs);
        }
      }
    }
  }
}
