/**
 The circular doubly linked list `Link` of common/SC_List.h as an object whose
 `mNext` and `mPrev` are relinked in place.  (The allocator lays the same links
 out inside its chunks; for it they are words of memory, in module Links.)
 */
module LinkList {

  class Link {
    var mNext: Link
    var mPrev: Link

    /** The ring visited from this head: the head, the elements, the head again. */
    ghost function Loop(l: seq<Link>): (s: seq<Link>)
      ensures |s| == |l| + 2
    {
      [this] + l + [this]
    }

    ghost predicate Distinct(l: seq<Link>) {
      forall i, j :: 0 <= i < j < |l| ==> l[i] != l[j]
    }

    /** `mNext` leads from this head through `l` and back. */
    ghost predicate Chain(l: seq<Link>)
      reads this, l
    {
      && this !in l && Distinct(l)
      && forall k :: 0 <= k <= |l| ==> Loop(l)[k].mNext == Loop(l)[k + 1]
    }

    /** This link heads a well-formed circular list of exactly the elements `l`. */
    ghost predicate Heads(l: seq<Link>)
      reads this, l
    {
      Chain(l) && forall k :: 0 <= k <= |l| ==> Loop(l)[k + 1].mPrev == Loop(l)[k]
    }

    constructor ()
      ensures Heads([])
    {
      mNext, mPrev := this, this;
    }

    /** Leaving out either end, the ring visits no link twice. */
    lemma LoopDistinct(l: seq<Link>)
      requires Chain(l)
      ensures forall i, j :: 0 <= i < j <= |l| ==> Loop(l)[i] != Loop(l)[j]
      ensures forall i, j :: 1 <= i < j <= |l| + 1 ==> Loop(l)[i] != Loop(l)[j]
    {
      var s := Loop(l);
      assert forall i :: 1 <= i <= |l| ==> s[i] == l[i - 1] && s[i] in l;
    }

    method InsertAfter(inLink: Link, ghost head: Link, ghost l: seq<Link>, ghost k: nat)
      requires head.Heads(l) && k <= |l| && inLink == head.Loop(l)[k]
      requires this != head && this !in l
      modifies this, inLink`mNext, inLink.mNext`mPrev
      ensures head.Heads(l[..k] + [this] + l[k..])
    {
      ghost var s, l' := head.Loop(l), l[..k] + [this] + l[k..];
      ghost var s' := head.Loop(l');
      head.LoopDistinct(l);
      assert inLink.mNext == s[k + 1];
      mPrev := inLink;
      mNext := inLink.mNext;
      mNext.mPrev := this;
      mPrev.mNext := this;
      assert forall i :: 0 <= i < |s'| ==> s'[i] == if i <= k then s[i] else if i == k + 1 then this else s[i - 1];
      forall i | 0 <= i <= |l'| ensures s'[i].mNext == s'[i + 1] && s'[i + 1].mPrev == s'[i] {
        if i < k {
          assert old(s[i].mNext) == s[i + 1] && old(s[i + 1].mPrev) == s[i];
        } else if i > k + 1 {
          assert old(s[i - 1].mNext) == s[i] && old(s[i].mPrev) == s[i - 1];
        }
      }
    }

    method InsertBefore(inLink: Link, ghost head: Link, ghost l: seq<Link>, ghost k: nat)
      requires head.Heads(l) && k <= |l| && inLink == head.Loop(l)[k + 1]
      requires this != head && this !in l
      modifies this, inLink`mPrev, inLink.mPrev`mNext
      ensures head.Heads(l[..k] + [this] + l[k..])
    {
      ghost var s, l' := head.Loop(l), l[..k] + [this] + l[k..];
      ghost var s' := head.Loop(l');
      head.LoopDistinct(l);
      assert inLink.mPrev == s[k];
      mNext := inLink;
      mPrev := inLink.mPrev;
      mNext.mPrev := this;
      mPrev.mNext := this;
      assert forall i :: 0 <= i < |s'| ==> s'[i] == if i <= k then s[i] else if i == k + 1 then this else s[i - 1];
      forall i | 0 <= i <= |l'| ensures s'[i].mNext == s'[i + 1] && s'[i + 1].mPrev == s'[i] {
        if i < k {
          assert old(s[i].mNext) == s[i + 1] && old(s[i + 1].mPrev) == s[i];
        } else if i > k + 1 {
          assert old(s[i - 1].mNext) == s[i] && old(s[i].mPrev) == s[i - 1];
        }
      }
    }

    method RemoveLeaveDangling(ghost head: Link, ghost l: seq<Link>, ghost k: nat)
      requires head.Heads(l) && k < |l| && l[k] == this
      modifies mPrev`mNext, mNext`mPrev
      ensures head.Heads(l[..k] + l[k + 1..])
      ensures mNext == old(mNext) && mPrev == old(mPrev)
    {
      ghost var s, l' := head.Loop(l), l[..k] + l[k + 1..];
      ghost var s' := head.Loop(l');
      head.LoopDistinct(l);
      assert s[k + 1] == this && s[k].mNext == this && s[k + 1].mNext == s[k + 2] && s[k + 1].mPrev == s[k];
      mPrev.mNext := mNext;
      mNext.mPrev := mPrev;
      assert forall i :: 0 <= i < |s'| ==> s'[i] == if i <= k then s[i] else s[i + 1];
      forall i | 0 <= i <= |l'| ensures s'[i].mNext == s'[i + 1] && s'[i + 1].mPrev == s'[i] {
        if i < k {
          assert old(s[i].mNext) == s[i + 1] && old(s[i + 1].mPrev) == s[i];
        } else if i > k {
          assert old(s[i + 1].mNext) == s[i + 2] && old(s[i + 2].mPrev) == s[i + 1];
        }
      }
    }

    method Remove(ghost head: Link, ghost l: seq<Link>, ghost k: nat)
      requires head.Heads(l) && k < |l| && l[k] == this
      modifies this, mPrev`mNext, mNext`mPrev
      ensures head.Heads(l[..k] + l[k + 1..]) && Heads([])
    {
      RemoveLeaveDangling(head, l, k);
      assert this !in l[..k] + l[k + 1..];
      mNext, mPrev := this, this;
    }

    predicate IsEmpty()
      reads this
    {
      mNext == this
    }

    lemma EmptyIff(l: seq<Link>)
      requires Heads(l)
      ensures IsEmpty() <==> l == []
    {
      assert Loop(l)[0].mNext == Loop(l)[1];
    }

    method PushHead(inBuf: Link, ghost l: seq<Link>)
      requires Heads(l) && inBuf != this && inBuf !in l
      modifies inBuf, this`mNext, mNext`mPrev
      ensures Heads([inBuf] + l)
    {
      inBuf.InsertAfter(this, this, l, 0);
      assert l[..0] + [inBuf] + l[0..] == [inBuf] + l;
    }

    method PushTail(inBuf: Link, ghost l: seq<Link>)
      requires Heads(l) && inBuf != this && inBuf !in l
      modifies inBuf, this`mPrev, mPrev`mNext
      ensures Heads(l + [inBuf])
    {
      inBuf.InsertBefore(this, this, l, |l|);
      assert l[..|l|] + [inBuf] + l[|l|..] == l + [inBuf];
    }

    method PopHead(ghost l: seq<Link>) returns (link: Link?)
      requires Heads(l)
      modifies this, l
      ensures link == (if l == [] then null else l[0])
      ensures Heads(if l == [] then [] else l[1..])
      ensures link != null ==> link.Heads([])
    {
      EmptyIff(l);
      if IsEmpty() {
        return null;
      }
      var head := mNext;
      assert Loop(l)[0].mNext == Loop(l)[1] == l[0];
      assert Loop(l)[1].mNext == Loop(l)[2];
      head.Remove(this, l, 0);
      assert l[..0] + l[1..] == l[1..];
      link := head;
    }

    method PopTail(ghost l: seq<Link>) returns (link: Link?)
      requires Heads(l)
      modifies this, l
      ensures link == (if l == [] then null else l[|l| - 1])
      ensures Heads(if l == [] then [] else l[..|l| - 1])
      ensures link != null ==> link.Heads([])
    {
      EmptyIff(l);
      if IsEmpty() {
        return null;
      }
      var tail := mPrev;
      assert Loop(l)[|l| + 1].mPrev == Loop(l)[|l|] == l[|l| - 1];
      assert Loop(l)[|l|].mPrev == Loop(l)[|l| - 1];
      tail.Remove(this, l, |l| - 1);
      assert l[..|l| - 1] + l[|l| - 1 + 1..] == l[..|l| - 1];
      link := tail;
    }

    /** The assignments of Cat: the last link `p` of this ring leads on to the first link `f` of the other. */
    method Relink(link: Link, ghost p: Link, ghost f: Link, ghost e: Link)
      requires IsEmpty() <==> p == this
      requires mPrev == p && link.mNext == f && link.mPrev == e
      requires this != link && f != link && f != this && e != link && e != this && p != link && p != f && p != e
      modifies this, link, p`mNext, f`mPrev, e`mNext
      ensures p.mNext == f && f.mPrev == p && e.mNext == this && mPrev == e
      ensures p != this ==> mNext == old(mNext)
      ensures f != e ==> f.mNext == old(f.mNext) && e.mPrev == old(e.mPrev)
      ensures p != this ==> p.mPrev == old(p.mPrev)
      ensures link.mNext == link && link.mPrev == link
    {
      if IsEmpty() {
        mNext := link.mNext;
        mPrev := link.mPrev;
        link.mNext.mPrev := this;
        link.mPrev.mNext := this;
      } else {
        link.mNext.mPrev := mPrev;
        link.mPrev.mNext := this;
        mPrev.mNext := link.mNext;
        mPrev := link.mPrev;
      }
      link.mPrev := link;
      link.mNext := link;
    }

    /** Moves the elements of `link` to the end of this list. */
    method Cat(link: Link, ghost l: seq<Link>, ghost more: seq<Link>)
      requires Heads(l) && link.Heads(more)
      requires this != link && this !in more && link !in l && forall x :: x in l ==> x !in more
      modifies this, link, l, more
      ensures Heads(l + more) && link.Heads([])
    {
      EmptyIff(l);
      link.EmptyIff(more);
      if link.IsEmpty() {
        assert l + more == l;
        return;
      }
      ghost var s, t, s' := Loop(l), link.Loop(more), Loop(l + more);
      LoopDistinct(l);
      link.LoopDistinct(more);
      Ends(l);
      link.Ends(more);
      assert (s[|l|] == this || s[|l|] in l) && t[1] in more && t[|more|] in more;
      Relink(link, s[|l|], t[1], t[|more|]);
      CatChain(link, l, more);
      forall i | 0 <= i <= |l + more| ensures s'[i].mNext == s'[i + 1] && s'[i + 1].mPrev == s'[i] {
        if i < |l| {
          assert old(s[i].mNext) == s[i + 1] && old(s[i + 1].mPrev) == s[i];
          assert s[i] != s[|l|] && s[i] != link && s[i] !in more;
        } else if |l| < i {
          var k := i - |l|;
          assert old(t[k].mNext) == t[k + 1] && old(t[k + 1].mPrev) == t[k];
          assert t[k] != link && t[k] != this && t[k] !in l;
        }
      }
    }

    lemma Ends(l: seq<Link>)
      requires Heads(l)
      ensures mNext == Loop(l)[1] && mPrev == Loop(l)[|l|]
      ensures l != [] ==> Loop(l)[1] == l[0] && Loop(l)[|l|] == l[|l| - 1]
    {
      assert Loop(l)[0].mNext == Loop(l)[1] && Loop(l)[|l| + 1].mPrev == Loop(l)[|l|];
    }

    lemma CatChain(link: Link, l: seq<Link>, more: seq<Link>)
      requires Distinct(l) && Distinct(more) && forall x :: x in l ==> x !in more
      ensures Distinct(l + more)
      ensures var s' := Loop(l + more);
        forall i :: 0 <= i < |s'| ==>
          s'[i] == if i <= |l| then Loop(l)[i] else if i <= |l| + |more| then link.Loop(more)[i - |l|] else this
    {
      forall i, j | 0 <= i < j < |l + more| ensures (l + more)[i] != (l + more)[j] {
        if i < |l| <= j {
          assert l[i] in l && more[j - |l|] in more;
        }
      }
    }

    /** Whether `inBuf` is in the list. */
    method ContainsBuf(inBuf: Link, ghost l: seq<Link>) returns (found: bool)
      requires Chain(l)
      ensures found <==> inBuf in l
    {
      var curLink := mNext;
      assert Loop(l)[0].mNext == Loop(l)[1];
      ghost var i := 1;
      while curLink != this
        invariant 1 <= i <= |l| + 1 && curLink == Loop(l)[i]
        invariant inBuf !in l[..i - 1]
        decreases |l| + 1 - i
      {
        if curLink == inBuf {
          return true;
        }
        curLink := curLink.mNext;
        i := i + 1;
      }
      assert l[..|l|] == l;
      found := false;
    }

    /** The two links next to this one lead back to it. */
    ghost predicate Sane()
      reads this, mPrev, mNext
    {
      mPrev.mNext == this && mNext.mPrev == this
    }

    /** `mNext` leads from this head through `l` to a link that is not sane. */
    ghost predicate Breaks(l: seq<Link>)
      reads this, l, if l == [] then {} else {l[|l| - 1].mPrev, l[|l| - 1].mNext}
    {
      && l != [] && this !in l && Distinct(l) && !l[|l| - 1].Sane()
      && forall k :: 0 <= k < |l| ==> Loop(l)[k].mNext == Loop(l)[k + 1]
    }

    /**
     SanityCheck, where `false` is a bad link thrown.  It looks at every link of the
     ring but one: where the `mPrev` behind the head should lead back to the head, only
     the `mNext` found there is followed, and for an empty list nothing is.  It ends if
     the walk comes back to the head or meets a bad link.
     */
    method SanityCheck(ghost l: seq<Link>) returns (ok: bool)
      requires Chain(l) || Breaks(l)
      ensures ok ==> Chain(l)
      ensures Chain(l) ==>
        (ok <==> (forall k :: 1 <= k <= |l| ==> Loop(l)[k + 1].mPrev == Loop(l)[k])
                 && (l != [] ==> l[0].mPrev.mNext == l[0]))
      ensures Heads(l) <==> ok && Loop(l)[1].mPrev == this
    {
      var link := mNext;
      ghost var i := 1;
      assert Loop(l)[0].mNext == Loop(l)[1];
      while link != this
        invariant 1 <= i <= |l| + 1 && link == Loop(l)[i] && (i == |l| + 1 ==> Chain(l))
        invariant forall k :: 1 <= k < i ==> Loop(l)[k + 1].mPrev == Loop(l)[k]
        invariant i > 1 ==> l[0].mPrev.mNext == l[0]
        decreases |l| + 1 - i
      {
        assert link == l[i - 1];
        if link.mPrev.mNext != link || link.mNext.mPrev != link {
          if Chain(l) {
            BadLink(l, i);
          }
          return false;
        }
        assert link.Sane();
        assert link.mNext == Loop(l)[i].mNext == Loop(l)[i + 1];
        link := link.mNext;
        i := i + 1;
      }
      ok := true;
    }

    /** A bad link on the way is not what a well-formed list has, nor what the check lets pass. */
    lemma BadLink(l: seq<Link>, i: nat)
      requires Chain(l) && 1 <= i <= |l| && !l[i - 1].Sane()
      requires forall k :: 1 <= k < i ==> Loop(l)[k + 1].mPrev == Loop(l)[k]
      ensures !Heads(l)
      ensures Loop(l)[i + 1].mPrev != Loop(l)[i] || (i == 1 && l[0].mPrev.mNext != l[0])
    {
      var x := Loop(l)[i];
      assert x == l[i - 1] && x.mNext == Loop(l)[i + 1] && Loop(l)[i - 1].mNext == x;
      assert i > 1 ==> x.mPrev == Loop(l)[i - 1];
      assert Loop(l)[(i - 1) + 1] == x;
    }
  }
}
