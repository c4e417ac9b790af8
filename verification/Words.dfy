/**
 Machine words as natural numbers.

 The allocator keeps a bit per size bin and finds bins with shifts, masks and a
 count-leading-zeroes instruction (include/common/clz.h).  A word is a natural
 number, its bits are its binary digits, and the C operators are defined on
 those digits.
 */
module Words {

  const WORD32: nat := 0x1_0000_0000
  const WORD64: nat := 0x1_0000_0000_0000_0000

  function Pow2(n: nat): (r: nat)
    ensures r > 0
  {
    if n == 0 then 1 else 2 * Pow2(n - 1)
  }

  /** The word widths, kept symbolic so that `Pow2` is not unfolded down to 0. */
  lemma Width32() returns (n: nat)
    ensures n == 32 && Pow2(n) == WORD32
  {
    assert Pow2(8) == 256;
    Pow2Add(8, 8);
    Pow2Add(16, 16);
    n := 32;
  }

  lemma Width64() returns (n: nat)
    ensures n == 64 && Pow2(n) == WORD64
  {
    var k := Width32();
    Pow2Add(k, k);
    n := 64;
  }

  lemma {:induction false} Pow2Add(a: nat, b: nat)
    ensures Pow2(a + b) == Pow2(a) * Pow2(b)
  {
    if a != 0 {
      Pow2Add(a - 1, b);
    }
  }

  lemma {:induction false} Pow2Mono(a: nat, b: nat)
    requires a <= b
    ensures Pow2(a) <= Pow2(b)
  {
    if a < b {
      Pow2Mono(a, b - 1);
    }
  }

  /** Binary digit `j` of `w`. */
  predicate Bit(w: nat, j: nat) {
    if j == 0 then w % 2 == 1 else Bit(w / 2, j - 1)
  }

  function Digit(b: bool): nat {
    if b then 1 else 0
  }

  /** The C operator `|`. */
  function Or(a: nat, b: nat): (r: nat)
    decreases a + b
  {
    if a == 0 then b else if b == 0 then a else
      2 * Or(a / 2, b / 2) + Digit(a % 2 == 1 || b % 2 == 1)
  }

  /** The C operator `&`. */
  function And(a: nat, b: nat): (r: nat)
  {
    if a == 0 then 0 else 2 * And(a / 2, b / 2) + Digit(a % 2 == 1 && b % 2 == 1)
  }

  /** The C operator `~` on a word of `n` bits. */
  function Not(n: nat, a: nat): (r: nat)
    requires a < Pow2(n)
  {
    Pow2(n) - 1 - a
  }

  lemma {:induction false} ZeroBits(j: nat)
    ensures !Bit(0, j)
  {
    if j != 0 {
      ZeroBits(j - 1);
    }
  }

  lemma {:induction false} OrBit(a: nat, b: nat, j: nat)
    ensures Bit(Or(a, b), j) <==> Bit(a, j) || Bit(b, j)
    decreases j
  {
    if a == 0 || b == 0 {
      ZeroBits(j);
    } else if j != 0 {
      OrBit(a / 2, b / 2, j - 1);
    }
  }

  lemma {:induction false} AndBit(a: nat, b: nat, j: nat)
    ensures Bit(And(a, b), j) <==> Bit(a, j) && Bit(b, j)
    decreases j
  {
    if a == 0 {
      ZeroBits(j);
    } else if j != 0 {
      AndBit(a / 2, b / 2, j - 1);
    }
  }

  lemma {:induction false} NotBit(n: nat, a: nat, j: nat)
    requires a < Pow2(n) && j < n
    ensures Bit(Not(n, a), j) <==> !Bit(a, j)
    decreases j
  {
    if j == 0 {
      assert Pow2(n) == 2 * Pow2(n - 1);
    } else {
      NotBit(n - 1, a / 2, j - 1);
      assert Not(n, a) / 2 == Not(n - 1, a / 2);
    }
  }

  lemma {:induction false} OrBound(n: nat, a: nat, b: nat)
    requires a < Pow2(n) && b < Pow2(n)
    ensures Or(a, b) < Pow2(n)
  {
    if n != 0 && a != 0 && b != 0 {
      OrBound(n - 1, a / 2, b / 2);
    }
  }

  lemma {:induction false} AndBound(a: nat, b: nat)
    ensures And(a, b) <= a && And(a, b) <= b
    decreases a
  {
    if a != 0 {
      AndBound(a / 2, b / 2);
    }
  }

  lemma {:induction false} Pow2Bit(k: nat, j: nat)
    ensures Bit(Pow2(k), j) <==> j == k
  {
    if k == 0 {
      if j != 0 {
        ZeroBits(j - 1);
      }
    } else if j != 0 {
      Pow2Bit(k - 1, j - 1);
    }
  }

  /** `2^k - 1` has exactly the bits below `k`. */
  lemma {:induction false} MaskBit(k: nat, j: nat)
    ensures Bit(Pow2(k) - 1, j) <==> j < k
  {
    if k == 0 {
      ZeroBits(j);
    } else if j != 0 {
      MaskBit(k - 1, j - 1);
      assert (Pow2(k) - 1) / 2 == Pow2(k - 1) - 1;
    }
  }

  /** A word below `2^j` has no bit at `j` or above. */
  lemma {:induction false} HighBitsClear(w: nat, j: nat, k: nat)
    requires w < Pow2(j) && j <= k
    ensures !Bit(w, k)
  {
    if j == 0 {
      ZeroBits(k);
    } else {
      HighBitsClear(w / 2, j - 1, k - 1);
    }
  }

  /** A word of at least `2^j` has some bit at `j` or above. */
  lemma {:induction false} HighBitExists(w: nat, j: nat) returns (k: nat)
    requires w >= Pow2(j)
    ensures k >= j && Bit(w, k)
    decreases w
  {
    if w == 1 {
      k := 0;
    } else if j == 0 {
      var k' := HighBitExists(w / 2, 0);
      k := k' + 1;
    } else {
      var k' := HighBitExists(w / 2, j - 1);
      k := k' + 1;
    }
  }

  /** Number of binary digits; 0 for 0. */
  function NumBits(x: nat): (r: nat) {
    if x == 0 then 0 else 1 + NumBits(x / 2)
  }

  lemma {:induction false} NumBitsBounds(x: nat, n: nat)
    ensures x < Pow2(n) <==> NumBits(x) <= n
    decreases x
  {
    if x != 0 {
      if n == 0 {
      } else {
        NumBitsBounds(x / 2, n - 1);
      }
    }
  }

  lemma {:induction false} TopBit(x: nat)
    requires x > 0
    ensures NumBits(x) > 0 && Bit(x, NumBits(x) - 1)
    ensures forall j :: j >= NumBits(x) ==> !Bit(x, j)
  {
    if x != 1 {
      TopBit(x / 2);
    }
    NumBitsBounds(x, NumBits(x));
    forall j | j >= NumBits(x) ensures !Bit(x, j) {
      HighBitsClear(x, NumBits(x), j);
    }
  }

  /** CLZ: leading zeroes of a 32-bit pattern, 32 for 0. */
  function Clz(x: nat): (r: int) {
    32 - NumBits(x)
  }

  /** CTZ as clz.h derives it from CLZ: `32 - CLZ(~x & (x - 1))` on 32-bit patterns. */
  function Ctz(x: nat): (r: int)
    requires x < WORD32
  {
    32 - Clz(And(WORD32 - 1 - x, (x - 1) % WORD32))
  }

  lemma {:induction false} AndComplement(n: nat, x: nat)
    requires x < Pow2(n)
    ensures And(Not(n, x), x) == 0
  {
    if n == 0 {
    } else if Not(n, x) == 0 {
    } else {
      AndComplement(n - 1, x / 2);
      assert Not(n, x) / 2 == Not(n - 1, x / 2);
      assert Pow2(n) == 2 * Pow2(n - 1);
    }
  }

  lemma NotHalf(n: nat, x: nat)
    requires 0 < x < Pow2(n)
    ensures n > 0 && x / 2 < Pow2(n - 1)
    ensures Not(n, x) / 2 == Not(n - 1, x / 2) && Not(n, x) % 2 == 1 - x % 2
  {
    assert Pow2(n) == 2 * Pow2(n - 1);
  }

  lemma AndHalf(a: nat, b: nat)
    ensures And(a, b) == 2 * And(a / 2, b / 2) + Digit(a % 2 == 1 && b % 2 == 1)
  {
  }

  lemma LessOne(x: nat)
    requires x > 0
    ensures x % 2 == 1 ==> (x - 1) / 2 == x / 2 && (x - 1) % 2 == 0
    ensures x % 2 == 0 ==> (x - 1) / 2 == x / 2 - 1 && (x - 1) % 2 == 1
  {
  }

  lemma OddBits(w: nat, x: nat)
    ensures NumBits(2 * w + 1) == NumBits(w) + 1 && NumBits(0) == 0
    ensures x % 2 == 1 ==> Bit(x, 0)
  {
  }

  lemma EvenBits(x: nat, t: nat)
    requires x % 2 == 0 && Bit(x / 2, t) && forall j: nat :: j < t ==> !Bit(x / 2, j)
    ensures Bit(x, t + 1) && forall j: nat :: j < t + 1 ==> !Bit(x, j)
  {
    forall j: nat | j < t + 1 ensures !Bit(x, j) {
      if j != 0 {
        assert !Bit(x / 2, j - 1);
      }
    }
  }

  lemma {:induction false} LowestBit(n: nat, x: nat)
    requires 0 < x < Pow2(n)
    ensures var t := NumBits(And(Not(n, x), x - 1));
            t < n && Bit(x, t) && forall j: nat :: j < t ==> !Bit(x, j)
  {
    hide Not, And, Bit, NumBits, Pow2;
    NotHalf(n, x);
    LessOne(x);
    if x % 2 == 1 {
      AndComplement(n - 1, x / 2);
      AndHalf(Not(n, x), x - 1);
      OddBits(0, x);
    } else {
      LowestBit(n - 1, x / 2);
      AndHalf(Not(n, x), x - 1);
      var lower := And(Not(n - 1, x / 2), x / 2 - 1);
      OddBits(lower, x);
      EvenBits(x, NumBits(lower));
    }
  }

  /** CTZ finds the least set bit of every non-zero 32-bit pattern. */
  lemma CtzIsLeastBit(x: nat)
    requires 0 < x < WORD32
    ensures 0 <= Ctz(x) < 32 && Bit(x, Ctz(x))
    ensures forall j: nat :: j < Ctz(x) ==> !Bit(x, j)
  {
    hide Bit, And, NumBits, Pow2;
    var n := Width32();
    LowestBit(n, x);
  }
}
