/**
 The flat memory of the model, and the circular doubly linked lists of
 common/SC_List.h laid out in it.

 Memory is a map from addresses to words; an address that was never written
 reads as 0.  A link lives at a multiple of 32 with `mNext` at offset 0 and
 `mPrev` at offset 8.
 */
module Links {

  type Mem = map<int, int>

  function Rd(m: Mem, a: int): int {
    if a in m then m[a] else 0
  }

  function Next(m: Mem, x: int): int { Rd(m, x) }

  function Prev(m: Mem, x: int): int { Rd(m, x + 8) }

  // ----- the operations, one memory write after the other

  function RemoveLeaveDangling(m: Mem, x: int): Mem {
    var m1 := m[Prev(m, x) := Next(m, x)];
    m1[Next(m1, x) + 8 := Prev(m1, x)]
  }

  function InsertAfter(m: Mem, x: int, p: int): Mem {
    var m1 := m[x + 8 := p];
    var m2 := m1[x := Next(m1, p)];
    var m3 := m2[Next(m2, x) + 8 := x];
    m3[Prev(m3, x) := x]
  }

  function InsertBefore(m: Mem, x: int, n: int): Mem {
    var m1 := m[x := n];
    var m2 := m1[x + 8 := Prev(m1, n)];
    var m3 := m2[Next(m2, x) + 8 := x];
    m3[Prev(m3, x) := x]
  }

  function BeEmpty(m: Mem, b: int): Mem {
    m[b + 8 := b][b := b]
  }

  // ----- what a list is

  /** The ring visited from head `b`: the head, the elements, the head again. */
  function Loop(b: int, l: seq<int>): (s: seq<int>)
    ensures |s| == |l| + 2 && s[0] == b
  {
    [b] + l + [b]
  }

  ghost predicate Distinct(b: int, l: seq<int>) {
    b !in l && forall i, j :: 0 <= i < j < |l| ==> l[i] != l[j]
  }

  ghost predicate Slots(b: int, l: seq<int>) {
    b % 32 == 0 && forall i :: 0 <= i < |l| ==> l[i] % 32 == 0
  }

  /** `s[0], s[1], ...` is threaded by `mNext` forwards and by `mPrev` backwards. */
  ghost predicate Threaded(m: Mem, s: seq<int>) {
    && (forall k {:trigger Next(m, s[k])} :: 0 <= k < |s| - 1 ==> Next(m, s[k]) == s[k + 1])
    && (forall k {:trigger Prev(m, s[k])} :: 1 <= k < |s| ==> Prev(m, s[k]) == s[k - 1])
  }

  /** Head `b` heads a well-formed circular list of exactly the elements `l`. */
  ghost predicate Ring(m: Mem, b: int, l: seq<int>) {
    Slots(b, l) && Distinct(b, l) && Threaded(m, Loop(b, l))
  }

  function InsertAt(l: seq<int>, k: nat, x: int): seq<int>
    requires k <= |l|
  {
    l[..k] + [x] + l[k..]
  }

  function RemoveAt(l: seq<int>, k: nat): seq<int>
    requires k < |l|
  {
    l[..k] + l[k + 1..]
  }

  // ----- each operation refines its operation on sequences

  lemma EmptyRing(m: Mem, b: int)
    requires b % 32 == 0
    ensures Ring(BeEmpty(m, b), b, [])
  {
  }

  /** What both insertions leave in memory, in terms of the two neighbours. */
  ghost predicate Spliced(m: Mem, m': Mem, p: int, x: int, n: int) {
    && Next(m', p) == x && Prev(m', x) == p && Next(m', x) == n && Prev(m', n) == x
    && forall a :: a !in {p, x, x + 8, n + 8} ==> Rd(m', a) == Rd(m, a)
  }

  lemma InsertSplices(m: Mem, x: int, p: int, n: int)
    requires x % 32 == 0 && p % 32 == 0 && n % 32 == 0 && x != p && x != n
    requires Next(m, p) == n && Prev(m, n) == p
    ensures Spliced(m, InsertAfter(m, x, p), p, x, n)
    ensures Spliced(m, InsertBefore(m, x, n), p, x, n)
  {
  }

  /** Distinct, aligned nodes visited from a head back to it. */
  ghost predicate Cyclic(s: seq<int>) {
    && |s| >= 2
    && (forall i :: 0 <= i < |s| ==> s[i] % 32 == 0)
    && (forall i, j :: 0 <= i < j < |s| - 1 ==> s[i] != s[j])
    && (forall i, j :: 1 <= i < j < |s| ==> s[i] != s[j])
  }

  lemma LoopCyclic(b: int, l: seq<int>)
    requires Slots(b, l) && Distinct(b, l)
    ensures Cyclic(Loop(b, l))
  {
    var s := Loop(b, l);
    assert forall i :: 0 <= i < |l| ==> l[i] != b;
    assert forall i :: 1 <= i < |s| - 1 ==> s[i] == l[i - 1];
  }

  function Spread(s: seq<int>, k: nat, x: int): seq<int>
    requires k < |s|
  {
    s[..k + 1] + [x] + s[k + 1..]
  }

  function Close(s: seq<int>, k: nat): seq<int>
    requires k + 1 < |s|
  {
    s[..k + 1] + s[k + 2..]
  }

  lemma SpreadNext(m: Mem, m': Mem, s: seq<int>, k: nat, x: int, i: nat)
    requires Threaded(m, s) && Cyclic(s) && k < |s| - 1 && x % 32 == 0 && x !in s
    requires Spliced(m, m', s[k], x, s[k + 1])
    requires i < |s|
    ensures Next(m', Spread(s, k, x)[i]) == Spread(s, k, x)[i + 1]
  {
    if i < k {
      assert Next(m, s[i]) == s[i + 1];
    } else if i > k + 1 {
      assert Next(m, s[i - 1]) == s[i];
    }
  }

  lemma SpreadPrev(m: Mem, m': Mem, s: seq<int>, k: nat, x: int, i: nat)
    requires Threaded(m, s) && Cyclic(s) && k < |s| - 1 && x % 32 == 0 && x !in s
    requires Spliced(m, m', s[k], x, s[k + 1])
    requires 1 <= i <= |s|
    ensures Prev(m', Spread(s, k, x)[i]) == Spread(s, k, x)[i - 1]
  {
    if i <= k {
      assert Prev(m, s[i]) == s[i - 1];
    } else if i > k + 2 {
      assert Prev(m, s[i - 1]) == s[i - 2];
    }
  }

  lemma InsertDistinct(b: int, l: seq<int>, k: nat, x: int)
    requires Slots(b, l) && Distinct(b, l) && k <= |l| && x % 32 == 0 && x != b && x !in l
    ensures Slots(b, InsertAt(l, k, x)) && Distinct(b, InsertAt(l, k, x))
  {
  }

  lemma InsertRing(m: Mem, m': Mem, b: int, l: seq<int>, k: nat, x: int)
    requires Ring(m, b, l) && k <= |l| && x % 32 == 0 && x != b && x !in l
    requires Spliced(m, m', Loop(b, l)[k], x, Loop(b, l)[k + 1])
    ensures Ring(m', b, InsertAt(l, k, x))
  {
    var s := Loop(b, l);
    LoopCyclic(b, l);
    InsertDistinct(b, l, k, x);
    assert Loop(b, InsertAt(l, k, x)) == Spread(s, k, x);
    forall i | 0 <= i < |s| ensures Next(m', Spread(s, k, x)[i]) == Spread(s, k, x)[i + 1] {
      SpreadNext(m, m', s, k, x, i);
    }
    forall i | 1 <= i <= |s| ensures Prev(m', Spread(s, k, x)[i]) == Spread(s, k, x)[i - 1] {
      SpreadPrev(m, m', s, k, x, i);
    }
  }

  /** What a removal leaves in memory, in terms of the two neighbours. */
  ghost predicate Closed(m: Mem, m': Mem, p: int, n: int) {
    && Next(m', p) == n && Prev(m', n) == p
    && forall a :: a !in {p, n + 8} ==> Rd(m', a) == Rd(m, a)
  }

  lemma RemoveCloses(m: Mem, x: int, p: int, n: int)
    requires x % 32 == 0 && p % 32 == 0 && n % 32 == 0 && x != p
    requires Prev(m, x) == p && Next(m, x) == n
    ensures Closed(m, RemoveLeaveDangling(m, x), p, n)
  {
  }

  lemma CloseNext(m: Mem, m': Mem, s: seq<int>, k: nat, i: nat)
    requires Threaded(m, s) && Cyclic(s) && k < |s| - 2
    requires Closed(m, m', s[k], s[k + 2])
    requires i < |s| - 2
    ensures Next(m', Close(s, k)[i]) == Close(s, k)[i + 1]
  {
    if i < k {
      assert Next(m, s[i]) == s[i + 1];
    } else if i > k {
      assert Next(m, s[i + 1]) == s[i + 2];
    }
  }

  lemma ClosePrev(m: Mem, m': Mem, s: seq<int>, k: nat, i: nat)
    requires Threaded(m, s) && Cyclic(s) && k < |s| - 2
    requires Closed(m, m', s[k], s[k + 2])
    requires 1 <= i < |s| - 1
    ensures Prev(m', Close(s, k)[i]) == Close(s, k)[i - 1]
  {
    if i <= k {
      assert Prev(m, s[i]) == s[i - 1];
    } else if i > k + 1 {
      assert Prev(m, s[i + 1]) == s[i];
    }
  }

  lemma RemoveRing(m: Mem, b: int, l: seq<int>, k: nat)
    requires Ring(m, b, l) && k < |l|
    ensures Closed(m, RemoveLeaveDangling(m, l[k]), Loop(b, l)[k], Loop(b, l)[k + 2])
    ensures Ring(RemoveLeaveDangling(m, l[k]), b, RemoveAt(l, k))
  {
    var s := Loop(b, l);
    var m' := RemoveLeaveDangling(m, l[k]);
    LoopCyclic(b, l);
    assert s[k + 1] == l[k];
    assert Prev(m, s[k + 1]) == s[k] && Next(m, s[k + 1]) == s[k + 2];
    RemoveCloses(m, s[k + 1], s[k], s[k + 2]);
    assert Loop(b, RemoveAt(l, k)) == Close(s, k);
    forall i | 0 <= i < |s| - 2 ensures Next(m', Close(s, k)[i]) == Close(s, k)[i + 1] {
      CloseNext(m, m', s, k, i);
    }
    forall i | 1 <= i < |s| - 1 ensures Prev(m', Close(s, k)[i]) == Close(s, k)[i - 1] {
      ClosePrev(m, m', s, k, i);
    }
  }

  /** A ring is unaffected by writes that miss its links. */
  lemma RingFrame(m: Mem, m': Mem, b: int, l: seq<int>)
    requires Ring(m, b, l)
    requires forall x :: x == b || x in l ==> Next(m', x) == Next(m, x) && Prev(m', x) == Prev(m, x)
    ensures Ring(m', b, l)
  {
    var s := Loop(b, l);
    forall k | 0 <= k < |s| - 1 ensures Next(m', s[k]) == s[k + 1] {
      assert s[k] == b || s[k] in l;
      assert Next(m, s[k]) == s[k + 1];
    }
    forall k | 1 <= k < |s| ensures Prev(m', s[k]) == s[k - 1] {
      assert s[k] == b || s[k] in l;
      assert Prev(m, s[k]) == s[k - 1];
    }
  }

  /** Outside the pool object, only link fields of `keys` may differ. */
  ghost predicate LinksOnly(m: Mem, m': Mem, keys: set<int>) {
    forall a :: a >= 0 && a !in keys && a - 8 !in keys ==> Rd(m', a) == Rd(m, a)
  }
}
