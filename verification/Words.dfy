/** 64-bit unsigned words as numbers below 2^64, with the bitwise operators spelled out bit by bit. */
module Words {
  const TWO_64: nat := 0x1_0000_0000_0000_0000

  type Word = w: nat | w < TWO_64

  function Pow2(n: nat): (p: nat)
    ensures p > 0
  {
    if n == 0 then 1 else 2 * Pow2(n - 1)
  }

  /** Whether bit i of w is set. */
  predicate Bit(w: nat, i: nat)
    decreases i
  {
    if i == 0 then w % 2 == 1 else Bit(w / 2, i - 1)
  }

  /** a & b. */
  function And(a: nat, b: nat): (r: nat)
    ensures r <= a && r <= b
  {
    if a == 0 || b == 0 then 0
    else 2 * And(a / 2, b / 2) + (if a % 2 == 1 && b % 2 == 1 then 1 else 0)
  }

  /** a ^ b. */
  function Xor(a: nat, b: nat): nat
    decreases a + b
  {
    if a == 0 && b == 0 then 0
    else 2 * Xor(a / 2, b / 2) + (if a % 2 != b % 2 then 1 else 0)
  }

  /** w << 1, dropping the bit that leaves the word. */
  function ShiftLeft(w: Word): Word {
    2 * w % TWO_64
  }

  /** The word whose bit i is bits[i]. */
  function FromBits(bits: seq<bool>): nat {
    if bits == [] then 0 else 2 * FromBits(bits[1..]) + (if bits[0] then 1 else 0)
  }

  /** The positions of the set bits of a word. */
  function Ones(w: nat): set<nat> {
    set i | 0 <= i < 64 && Bit(w, i)
  }

  /** The number of set bits. */
  function Count(w: nat): nat {
    if w == 0 then 0 else Count(w / 2) + w % 2
  }

  // ----- single bits -----

  lemma {:induction false} BitOfZero(i: nat)
    ensures !Bit(0, i)
    decreases i
  {
    if i > 0 { BitOfZero(i - 1); }
  }

  lemma {:induction false} BitAboveRange(w: nat, n: nat, i: nat)
    requires w < Pow2(n) && n <= i
    ensures !Bit(w, i)
    decreases i
  {
    if n == 0 {
      BitOfZero(i);
    } else {
      BitAboveRange(w / 2, n - 1, i - 1);
    }
  }

  lemma WordBits(w: Word, i: nat)
    requires i >= 64
    ensures !Bit(w, i)
  {
    Pow2Of64();
    BitAboveRange(w, 64, i);
  }

  lemma {:induction false} BitAnd(a: nat, b: nat, i: nat)
    ensures Bit(And(a, b), i) == (Bit(a, i) && Bit(b, i))
    decreases i
  {
    if a == 0 || b == 0 {
      BitOfZero(i);
    } else if i > 0 {
      BitAnd(a / 2, b / 2, i - 1);
    }
  }

  lemma {:induction false} BitXor(a: nat, b: nat, i: nat)
    ensures Bit(Xor(a, b), i) == (Bit(a, i) != Bit(b, i))
    decreases i
  {
    if a == 0 && b == 0 {
      BitOfZero(i);
    } else if i > 0 {
      BitXor(a / 2, b / 2, i - 1);
    }
  }

  /** Masking with 1 << i tests bit i. */
  lemma {:induction false} MaskTestsBit(w: nat, i: nat)
    ensures (And(w, Pow2(i)) != 0) == Bit(w, i)
    decreases i
  {
    if w == 0 {
      BitOfZero(i);
    } else if i > 0 {
      MaskTestsBit(w / 2, i - 1);
    } else {
      assert And(w / 2, 0) == 0;
    }
  }

  lemma Doubled(x: nat, y: nat)
    ensures 2 * (x * y) == (2 * x) * y
  {}

  lemma {:induction false} Pow2Sum(m: nat, n: nat)
    ensures Pow2(m + n) == Pow2(m) * Pow2(n)
    decreases m
  {
    if m == 0 {
      assert Pow2(0) == 1;
    } else {
      Pow2Sum(m - 1, n);
      Doubled(Pow2(m - 1), Pow2(n));
      assert Pow2(m + n) == 2 * Pow2(m - 1 + n);
    }
  }

  lemma Pow2Of64()
    ensures Pow2(12) == 4096 && Pow2(64) == TWO_64
  {
    assert Pow2(4) == 16;
    hide Pow2;
    Pow2Sum(4, 4);
    assert Pow2(8) == 256;
    Pow2Sum(4, 8);
    Pow2Sum(8, 8);
    assert Pow2(16) == 65536;
    Pow2Sum(16, 16);
    assert Pow2(32) == 0x1_0000_0000;
    Pow2Sum(32, 32);
  }

  /** A number is determined by its bits. */
  lemma {:induction false} SameBits(a: nat, b: nat)
    requires forall i: nat :: Bit(a, i) == Bit(b, i)
    ensures a == b
    decreases a + b
  {
    if a != 0 || b != 0 {
      assert Bit(a, 0) == Bit(b, 0);
      forall i: nat ensures Bit(a / 2, i) == Bit(b / 2, i) {
        assert Bit(a, i + 1) == Bit(b, i + 1);
      }
      SameBits(a / 2, b / 2);
    }
  }

  lemma SameWordBits(a: Word, b: Word)
    requires forall i: nat | i < 64 :: Bit(a, i) == Bit(b, i)
    ensures a == b
  {
    forall i: nat ensures Bit(a, i) == Bit(b, i) {
      if i >= 64 {
        WordBits(a, i);
        WordBits(b, i);
      }
    }
    SameBits(a, b);
  }

  lemma {:induction false} XorBelow(a: nat, b: nat, n: nat)
    requires a < Pow2(n) && b < Pow2(n)
    ensures Xor(a, b) < Pow2(n)
    decreases n
  {
    if n > 0 && (a != 0 || b != 0) {
      XorBelow(a / 2, b / 2, n - 1);
    }
  }

  lemma XorIsWord(a: Word, b: Word)
    ensures Xor(a, b) < TWO_64
  {
    Pow2Of64();
    XorBelow(a, b, 64);
  }

  // ----- words built from bits -----

  lemma {:induction false} FromBitsRange(bits: seq<bool>)
    ensures FromBits(bits) < Pow2(|bits|)
  {
    if bits != [] { FromBitsRange(bits[1..]); }
  }

  lemma {:induction false} BitFromBits(bits: seq<bool>, i: nat)
    ensures Bit(FromBits(bits), i) == (i < |bits| && bits[i])
    decreases i
  {
    if bits == [] {
      BitOfZero(i);
    } else if i > 0 {
      BitFromBits(bits[1..], i - 1);
    }
  }

  lemma {:induction false} Pow2Monotone(m: nat, n: nat)
    requires m <= n
    ensures Pow2(m) <= Pow2(n)
    decreases n
  {
    if m < n { Pow2Monotone(m, n - 1); }
  }

  lemma FromBitsIsWord(bits: seq<bool>)
    requires |bits| <= 64
    ensures FromBits(bits) < TWO_64
  {
    Pow2Of64();
    FromBitsRange(bits);
    Pow2Monotone(|bits|, 64);
  }

  // ----- counting -----

  lemma {:induction false} SameSize<T, U>(s: set<T>, t: set<U>, f: T -> U)
    requires forall x | x in s :: f(x) in t
    requires forall x, y | x in s && y in s && f(x) == f(y) :: x == y
    requires forall u | u in t :: exists x :: x in s && f(x) == u
    ensures |s| == |t|
    decreases s
  {
    if s == {} {
      assert forall u | u in t :: exists x :: x in s && f(x) == u;
      assert t == {};
    } else {
      var x :| x in s;
      forall u | u in t - {f(x)} ensures exists y :: y in s - {x} && f(y) == u {
        var y :| y in s && f(y) == u;
        assert y in s - {x};
      }
      SameSize(s - {x}, t - {f(x)}, f);
    }
  }

  function BitsBelow(w: nat, n: nat): set<nat> {
    set i | 0 <= i < n && Bit(w, i)
  }

  function Shifted(s: set<nat>): set<nat> {
    set i | i in s :: i + 1
  }

  lemma ShiftedSize(s: set<nat>)
    ensures |Shifted(s)| == |s|
  {
    forall u | u in Shifted(s) ensures exists x :: x in s && x + 1 == u {
      assert u - 1 in s;
    }
    SameSize(s, Shifted(s), (i: nat) => i + 1);
  }

  lemma BitsBelowStep(w: nat, n: nat)
    ensures BitsBelow(w, n + 1) == Shifted(BitsBelow(w / 2, n)) + (if Bit(w, 0) then {0} else {})
  {
    var parts := Shifted(BitsBelow(w / 2, n)) + (if Bit(w, 0) then {0} else {});
    forall i: nat ensures i in BitsBelow(w, n + 1) <==> i in parts {
      if i > 0 {
        assert Bit(w, i) == Bit(w / 2, i - 1);
        assert i in Shifted(BitsBelow(w / 2, n)) <==> i - 1 in BitsBelow(w / 2, n);
      }
    }
  }

  lemma {:induction false} CountBelow(w: nat, n: nat)
    requires w < Pow2(n)
    ensures Count(w) == |BitsBelow(w, n)|
    decreases n
  {
    if n == 0 {
      assert BitsBelow(w, n) == {};
    } else {
      CountBelow(w / 2, n - 1);
      BitsBelowStep(w, n - 1);
      ShiftedSize(BitsBelow(w / 2, n - 1));
    }
  }

  /** The count of set bits is the number of set positions. */
  lemma CountIsOnes(w: Word)
    ensures Count(w) == |Ones(w)|
  {
    Pow2Of64();
    CountBelow(w, 64);
    assert BitsBelow(w, 64) == Ones(w);
  }

  /** Clearing the lowest set bit removes exactly one. */
  lemma {:induction false} ClearLowest(w: nat)
    requires w != 0
    ensures Count(w) == Count(And(w, w - 1)) + 1
  {
    hide And, Count;
    var half := w / 2;
    assert w == 2 * half + w % 2;
    if w % 2 == 1 {
      AndSelf(half);
      AndDoubled(half, 1, half, 0);
      CountDoubled(half, 1);
      CountDoubled(half, 0);
    } else {
      ClearLowest(half);
      AndDoubled(half, 0, half - 1, 1);
      CountDoubled(half, 0);
      CountDoubled(And(half, half - 1), 0);
    }
  }

  /** And and Count by the lowest bit. */
  lemma AndDoubled(m: nat, i: nat, n: nat, j: nat)
    requires i < 2 && j < 2 && i + j < 2
    ensures And(2 * m + i, 2 * n + j) == 2 * And(m, n)
  {
    assert (2 * m + i) / 2 == m && (2 * n + j) / 2 == n;
  }

  lemma CountDoubled(n: nat, low: nat)
    requires low < 2
    ensures Count(2 * n + low) == Count(n) + low
  {
    assert (2 * n + low) / 2 == n && (2 * n + low) % 2 == low;
  }

  lemma {:induction false} AndSelf(w: nat)
    ensures And(w, w) == w
  {
    if w != 0 { AndSelf(w / 2); }
  }

  /** The low n bits of w, and what is left above them. */
  function Low(w: nat, n: nat): nat
    decreases n
  {
    if n == 0 then 0 else 2 * Low(w / 2, n - 1) + w % 2
  }

  function High(w: nat, n: nat): nat
    decreases n
  {
    if n == 0 then w else High(w / 2, n - 1)
  }

  lemma {:induction false} MaskIsLow(w: nat, n: nat)
    ensures And(w, Pow2(n) - 1) == Low(w, n)
    decreases n
  {
    if n > 0 {
      MaskIsLow(w / 2, n - 1);
      assert (Pow2(n) - 1) / 2 == Pow2(n - 1) - 1;
    }
  }

  lemma {:induction false} CountSplits(w: nat, n: nat)
    ensures Count(w) == Count(Low(w, n)) + Count(High(w, n))
    decreases n
  {
    if n > 0 {
      CountSplits(w / 2, n - 1);
      assert Low(w, n) / 2 == Low(w / 2, n - 1) && Low(w, n) % 2 == w % 2;
    }
  }

  /** One step of the table-driven count: twelve bits looked up, the rest shifted down. */
  lemma CountSplits12(w: nat)
    ensures And(w, 4095) < 4096
    ensures Count(w) == Count(And(w, 4095)) + Count(w / 4096)
  {
    Pow2Of64();
    MaskIsLow(w, 12);
    CountSplits(w, 12);
    High12(w);
  }

  lemma High12(w: nat)
    ensures High(w, 12) == w / 4096
  {
    assert High(w, 12) == High(w / 8, 9);
    assert High(w / 8, 9) == High(w / 64, 6);
    assert High(w / 64, 6) == High(w / 512, 3);
    assert High(w / 512, 3) == w / 4096;
  }
}
