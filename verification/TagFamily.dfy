/** Decoding of AprilTag payloads: popcount, rotation of the bit grid, nearest codeword. */
module TagFamily {
  import opened Arithmetic
  import opened Words

  const POP_COUNT_TABLE_SIZE := 4096
  const INT_MAX := 2147483647

  // ----- rotation -----

  /** The bit of the unrotated grid that lands on bit p after a quarter turn of a d*d grid. */
  function Source(d: nat, p: nat): nat
    requires d > 0
  {
    p / d + d * (d - 1 - p % d)
  }

  /** The grid bits of w after a quarter turn, lowest first. */
  function TurnedBits(w: nat, d: nat): seq<bool>
    requires d <= 8
  {
    seq(d * d, p requires 0 <= p < d * d => Bit(w, Source(d, p)))
  }

  function Turned(w: nat, d: nat): (r: Word)
    requires d <= 8
  {
    GridArea(d);
    FromBitsIsWord(TurnedBits(w, d));
    FromBits(TurnedBits(w, d))
  }

  /** n quarter turns. */
  function TurnedBy(w: Word, d: nat, n: nat): Word
    requires d <= 8
  {
    if n == 0 then w else Turned(TurnedBy(w, d, n - 1), d)
  }

  lemma GridArea(d: nat)
    requires d <= 8
    ensures d * d <= 64
  {
    assert d == 0 || d == 1 || d == 2 || d == 3 || d == 4 || d == 5 || d == 6 || d == 7 || d == 8;
  }

  lemma GridIndex(d: nat, r: nat, c: nat)
    requires d <= 8 && r < d && c < d
    ensures r * d + c < d * d
    ensures (r * d + c) / d == r && (r * d + c) % d == c
  {
    assert d == 1 || d == 2 || d == 3 || d == 4 || d == 5 || d == 6 || d == 7 || d == 8;
  }

  lemma SourceOfGridBit(d: nat, r: nat, c: nat)
    requires d <= 8 && r < d && c < d
    ensures 0 <= (r + 1) * d - c - 1 < d * d
    ensures Source(d, (r + 1) * d - c - 1) == r + d * c
  {
    GridIndex(d, r, d - 1 - c);
    assert (r + 1) * d - c - 1 == r * d + (d - 1 - c);
  }

  /** Pushing one more bit under a word built from the bits above it. */
  lemma PushedBit(bits: seq<bool>, p: nat)
    requires |bits| <= 64 && p < |bits|
    ensures FromBits(bits[p..]) == 2 * FromBits(bits[p + 1..]) + (if bits[p] then 1 else 0)
    ensures FromBits(bits[p..]) < TWO_64
  {
    assert bits[p..][1..] == bits[p + 1..];
    FromBitsIsWord(bits[p..]);
  }

  /** The test (w & (1 << b)) != 0. */
  method TestBit(w: Word, b: nat) returns (isSet: bool)
    ensures isSet == Bit(w, b)
  {
    MaskTestsBit(w, b);
    isSet := And(w, Pow2(b)) != 0;
  }

  /** rotate90: pushes the bits of w into wr from the top of the turned grid down. */
  method Rotate90(w: Word, d: nat) returns (wr: Word)
    requires d <= 8
    ensures wr == Turned(w, d)
  {
    GridArea(d);
    ghost var bits := TurnedBits(w, d);
    wr := 0;
    assert bits[d * d..] == [];
    var r := d - 1;
    ghost var end := d * d;
    while r >= 0
      invariant -1 <= r < d && 0 <= end == (r + 1) * d <= d * d
      invariant wr == FromBits(bits[end..])
    {
      RowsDown(d, r);
      RowBits(w, d, r, end);
      wr := Rotate90Row(w, d, r, wr, bits, end);
      end := end - d;
      r := r - 1;
    }
    assert bits[0..] == bits;
  }

  lemma RowsDown(d: nat, r: nat)
    ensures (r + 1) * d == r * d + d && r * d >= 0
  {}

  /** Bit c of column r of the grid, pushed c-th, ends up c + 1 places below end. */
  ghost predicate RowAt(w: Word, d: nat, r: nat, bits: seq<bool>, end: nat, c: nat) {
    0 <= end - c - 1 < |bits| && bits[end - c - 1] == Bit(w, r + d * c)
  }

  lemma RowBits(w: Word, d: nat, r: nat, end: nat)
    requires r < d <= 8 && end == (r + 1) * d <= d * d
    ensures forall c: nat | c < d :: RowAt(w, d, r, TurnedBits(w, d), end, c)
  {
    forall c: nat | c < d ensures RowAt(w, d, r, TurnedBits(w, d), end, c) {
      SourceOfGridBit(d, r, c);
    }
  }

  /** The inner loop of rotate90: pushes column r of the grid. */
  method Rotate90Row(w: Word, d: nat, r: nat, before: Word, ghost bits: seq<bool>, ghost end: nat) returns (wr: Word)
    requires d <= end <= |bits| <= 64 && before == FromBits(bits[end..])
    requires forall c: nat | c < d :: RowAt(w, d, r, bits, end, c)
    ensures wr == FromBits(bits[end - d..])
  {
    wr := before;
    var c := 0;
    while c < d
      invariant 0 <= c <= d
      invariant wr == FromBits(bits[end - c..])
    {
      var b := r + d * c;
      assert RowAt(w, d, r, bits, end, c);
      wr := PushBit(w, b, wr, bits, end - c - 1);
      c := c + 1;
    }
  }

  /** Shifts bit b of w into wr from below. */
  method PushBit(w: Word, b: nat, before: Word, ghost bits: seq<bool>, ghost p: nat) returns (wr: Word)
    requires p < |bits| <= 64 && before == FromBits(bits[p + 1..]) && bits[p] == Bit(w, b)
    ensures wr == FromBits(bits[p..])
  {
    PushedBit(bits, p);
    wr := ShiftLeft(before);
    var isSet := TestBit(w, b);
    if isSet {
      wr := wr + 1;
    }
  }

  lemma BitTurned(w: Word, d: nat, p: nat)
    requires d <= 8
    ensures Bit(Turned(w, d), p) == (p < d * d && Bit(w, Source(d, p)))
  {
    BitFromBits(TurnedBits(w, d), p);
  }

  /** The bit in row i and column j, counted from the low end. */
  function Cell(d: nat, i: nat, j: nat): nat {
    i * d + j
  }

  lemma SourceOfCell(d: nat, i: nat, j: nat)
    requires d <= 8 && i < d && j < d
    ensures Source(d, Cell(d, i, j)) == Cell(d, d - 1 - j, i) < d * d
  {
    GridIndex(d, i, j);
    GridIndex(d, d - 1 - j, i);
    Commutes(d, d - 1 - j);
  }

  lemma Commutes(x: int, y: int)
    ensures x * y == y * x
  {}

  lemma CellOf(d: nat, p: nat)
    requires d <= 8 && p < d * d
    ensures 0 <= p / d < d && 0 <= p % d < d && p == p / d * d + p % d
  {
    RowsAfter(d, p / d);
  }

  lemma RowsAfter(d: nat, i: nat)
    ensures i >= d ==> i * d >= d * d
  {}

  lemma FourSources(d: nat, i: nat, j: nat)
    requires d <= 8 && i < d && j < d
    ensures Source(d, Source(d, Source(d, Source(d, Cell(d, i, j))))) == Cell(d, i, j)
  {
    var i', j' := d - 1 - i, d - 1 - j;
    assert d - 1 - i' == i && d - 1 - j' == j;
    SourceOfCell(d, i, j);
    SourceOfCell(d, j', i);
    SourceOfCell(d, i', j');
    SourceOfCell(d, j, i');
  }

  /** A quarter turn permutes the d*d bit positions, and four of them are the identity. */
  lemma SourcePermutes(d: nat, p: nat)
    requires d <= 8 && p < d * d
    ensures 0 <= Source(d, p) < d * d
    ensures Source(d, Source(d, Source(d, Source(d, p)))) == p
  {
    CellOf(d, p);
    var i, j := p / d, p % d;
    assert p == Cell(d, i, j);
    SourceOfCell(d, i, j);
    FourSources(d, i, j);
  }

  /** The word only uses the d*d grid bits. */
  predicate Fits(w: nat, d: nat) {
    w < Pow2(d * d)
  }

  lemma TurnedFits(w: Word, d: nat)
    requires d <= 8
    ensures Fits(Turned(w, d), d)
  {
    FromBitsRange(TurnedBits(w, d));
  }

  lemma TurnedByFits(w: Word, d: nat, n: nat)
    requires d <= 8 && Fits(w, d)
    ensures Fits(TurnedBy(w, d, n), d)
  {
    if n > 0 { TurnedFits(TurnedBy(w, d, n - 1), d); }
  }

  /** Four quarter turns leave a grid unchanged. */
  lemma FourTurns(w: Word, d: nat)
    requires d <= 8 && Fits(w, d)
    ensures TurnedBy(w, d, 4) == w
  {
    var t1 := Turned(w, d);
    var t2 := Turned(t1, d);
    var t3 := Turned(t2, d);
    var t4 := Turned(t3, d);
    assert TurnedBy(w, d, 1) == t1;
    assert TurnedBy(w, d, 2) == t2;
    assert TurnedBy(w, d, 3) == t3;
    GridArea(d);
    forall p: nat ensures Bit(t4, p) == Bit(w, p) {
      BitTurned(t3, d, p);
      if p < d * d {
        SourcePermutes(d, p);
        var q := Source(d, p);
        SourcePermutes(d, q);
        SourcePermutes(d, Source(d, q));
        BitTurned(t2, d, q);
        BitTurned(t1, d, Source(d, q));
        BitTurned(w, d, Source(d, Source(d, q)));
      } else {
        BitAboveRange(w, d * d, p);
      }
    }
    SameBits(t4, w);
  }

  lemma {:induction false} TurnsAdd(w: Word, d: nat, m: nat, n: nat)
    requires d <= 8
    ensures TurnedBy(TurnedBy(w, d, m), d, n) == TurnedBy(w, d, m + n)
  {
    if n > 0 { TurnsAdd(w, d, m, n - 1); }
  }

  // ----- Hamming distance -----

  function Hamming(a: Word, b: Word): nat {
    Count(Xor(a, b))
  }

  function Differences(a: Word, b: Word): set<nat> {
    set i | 0 <= i < 64 && Bit(a, i) != Bit(b, i)
  }

  /** The Hamming distance is the number of positions in which the words differ. */
  lemma HammingCountsDifferences(a: Word, b: Word)
    ensures Hamming(a, b) == |Differences(a, b)|
  {
    XorIsWord(a, b);
    CountIsOnes(Xor(a, b));
    forall i: nat ensures Bit(Xor(a, b), i) == (Bit(a, i) != Bit(b, i)) { BitXor(a, b, i); }
    assert Ones(Xor(a, b)) == Differences(a, b);
  }

  lemma HammingSymmetric(a: Word, b: Word)
    ensures Hamming(a, b) == Hamming(b, a)
  {
    HammingCountsDifferences(a, b);
    HammingCountsDifferences(b, a);
    assert Differences(a, b) == Differences(b, a);
  }

  lemma SizeOfUnion(s: set<nat>, t: set<nat>, u: set<nat>)
    requires s <= t + u
    ensures |s| <= |t| + |u|
  {
    SubsetSize(s, t + u);
    assert t + u == t + (u - t);
    SubsetSize(u - t, u);
  }

  lemma {:induction false} SubsetSize(s: set<nat>, t: set<nat>)
    requires s <= t
    ensures |s| <= |t|
  {
    if s != {} {
      var x :| x in s;
      SubsetSize(s - {x}, t - {x});
    }
  }

  lemma HammingTriangle(a: Word, b: Word, c: Word)
    ensures Hamming(a, c) <= Hamming(a, b) + Hamming(b, c)
  {
    HammingCountsDifferences(a, b);
    HammingCountsDifferences(b, c);
    HammingCountsDifferences(a, c);
    SizeOfUnion(Differences(a, c), Differences(a, b), Differences(b, c));
  }

  /** Rotation keeps the number of set bits of a grid word. */
  lemma TurnedCount(w: Word, d: nat)
    requires d <= 8 && Fits(w, d)
    ensures Count(Turned(w, d)) == Count(w)
  {
    var t := Turned(w, d);
    CountIsOnes(w);
    CountIsOnes(t);
    GridArea(d);
    forall p: nat ensures Bit(t, p) == (p < d * d && Bit(w, Source(d, p))) { BitTurned(w, d, p); }
    forall p: nat | p < d * d
      ensures 0 <= Source(d, p) < d * d && Source(d, Source(d, Source(d, Source(d, p)))) == p
    { SourcePermutes(d, p); }
    if d > 0 {
      var f := (p: nat) => if p < d * d then Source(d, p) else p;
      forall p | p in Ones(t) ensures f(p) in Ones(w) {}
      forall x, y | x in Ones(t) && y in Ones(t) && f(x) == f(y) ensures x == y {
        assert Source(d, Source(d, Source(d, Source(d, x)))) == x;
        assert Source(d, Source(d, Source(d, Source(d, y)))) == y;
      }
      forall u | u in Ones(w) ensures exists p :: p in Ones(t) && f(p) == u {
        if u >= d * d { BitAboveRange(w, d * d, u); }
        var p := Source(d, Source(d, Source(d, u)));
        assert p < d * d && Source(d, p) == u;
        assert p in Ones(t);
      }
      SameSize(Ones(t), Ones(w), f);
    } else {
      assert w == 0 && t == 0;
    }
  }

  lemma TurnedXor(a: Word, b: Word, d: nat)
    requires d <= 8
    ensures Xor(a, b) < TWO_64
    ensures Turned(Xor(a, b), d) == Xor(Turned(a, d), Turned(b, d))
  {
    XorIsWord(a, b);
    GridArea(d);
    forall p: nat ensures Bit(Turned(Xor(a, b), d), p) == Bit(Xor(Turned(a, d), Turned(b, d)), p) {
      BitTurned(Xor(a, b), d, p);
      BitTurned(a, d, p);
      BitTurned(b, d, p);
      BitXor(Turned(a, d), Turned(b, d), p);
      if p < d * d { BitXor(a, b, Source(d, p)); }
    }
    SameBits(Turned(Xor(a, b), d), Xor(Turned(a, d), Turned(b, d)));
  }

  // ----- counting bits -----

  /** popCountReal: clears the lowest set bit until none is left. */
  method PopCountReal(w: Word) returns (cnt: nat)
    ensures cnt == Count(w) == |Ones(w)| && cnt <= 64
  {
    CountIsOnes(w);
    SubsetOfRange(Ones(w), 64);
    cnt := 0;
    var rest := w;
    while rest != 0
      invariant cnt + Count(rest) == Count(w)
      decreases rest
    {
      ClearLowest(rest);
      rest := And(rest, rest - 1);
      cnt := cnt + 1;
    }
  }

  lemma {:induction false} SubsetOfRange(s: set<nat>, n: nat)
    requires forall x | x in s :: x < n
    ensures |s| <= n
  {
    if n == 0 {
      assert s == {};
    } else {
      SubsetOfRange(s - {n - 1}, n - 1);
    }
  }

  /** popCountTable, filled once before use. */
  class PopCountTable {
    const entries: array<nat>

    ghost predicate Valid()
      reads this, entries
    {
      entries.Length == POP_COUNT_TABLE_SIZE
      && forall i {:trigger entries[i]} | 0 <= i < POP_COUNT_TABLE_SIZE :: entries[i] == Count(i)
    }

    constructor ()
      ensures Valid() && fresh(entries)
    {
      entries := new nat[POP_COUNT_TABLE_SIZE];
      new;
      for i := 0 to POP_COUNT_TABLE_SIZE
        invariant forall j {:trigger entries[j]} | 0 <= j < i :: entries[j] == Count(j)
      {
        var cnt := PopCountReal(i);
        entries[i] := cnt;
      }
    }

    /** popCount: twelve bits a step through the table. */
    method PopCount(w: Word) returns (count: nat)
      requires Valid()
      ensures count == |Ones(w)|
    {
      CountIsOnes(w);
      count := 0;
      var rest := w;
      while rest != 0
        invariant count + Count(rest) == Count(w)
        decreases rest
      {
        CountSplits12(rest);
        count := count + entries[And(rest, POP_COUNT_TABLE_SIZE - 1)];
        rest := rest / 4096;
      }
    }

    method HammingDistance(a: Word, b: Word) returns (distance: nat)
      requires Valid()
      ensures distance == |Differences(a, b)|
    {
      XorIsWord(a, b);
      distance := PopCount(Xor(a, b));
      CountIsOnes(Xor(a, b));
      HammingCountsDifferences(a, b);
    }
  }

  // ----- decoding -----

  datatype Detection = Detection(id: int, hammingDistance: int, rotation: nat, good: bool, obsCode: Word, code: Word)

  /** How far the observed word, turned rot times, is from code id. */
  function Distance(codes: seq<Word>, d: nat, r: Word, id: nat, rot: nat): nat
    requires d <= 8 && id < |codes|
  {
    |Differences(TurnedBy(r, d, rot), codes[id])|
  }

  /** (id, rot) is the closest of the first n candidates in (id, rot) order, and the first of the closest. */
  ghost predicate NearestOf(codes: seq<Word>, d: nat, r: Word, n: nat, id: nat, rot: nat)
    requires d <= 8
  {
    id < |codes| && rot < 4 && 4 * id + rot < n
    && forall j: nat, q: nat | j < |codes| && q < 4 && 4 * j + q < n ::
         Distance(codes, d, r, id, rot) <= Distance(codes, d, r, j, q)
         && (4 * j + q < 4 * id + rot ==> Distance(codes, d, r, id, rot) < Distance(codes, d, r, j, q))
  }

  /** (id, rot) is the closest code and rotation, and the first of the closest. */
  ghost predicate Nearest(codes: seq<Word>, d: nat, r: Word, id: nat, rot: nat)
    requires d <= 8
  {
    NearestOf(codes, d, r, 4 * |codes|, id, rot)
  }

  /** The conversion (int) sqrt(n) of C. */
  function IntegerRoot(n: nat): (d: nat)
    ensures d * d <= n < (d + 1) * (d + 1)
    ensures n < 81 <==> d <= 8
  {
    if n == 0 then 0
    else
      var d := IntegerRoot(n - 1);
      assert (d + 2) * (d + 2) == (d + 1) * (d + 1) + 2 * d + 3;
      if (d + 1) * (d + 1) <= n then d + 1 else d
  }

  class TagFamily {
    const dimension: nat
    const minimumHammingDistance: int
    const codes: seq<Word>
    const popCountTable: PopCountTable
    var errorRecoveryBits: int

    ghost predicate Valid()
      reads this, popCountTable, popCountTable.entries
    {
      dimension <= 8 && popCountTable.Valid()
    }

    /** bits should be a square; the grid is the largest that fits. Up to eight bits a side it fits a word. */
    constructor (bits: nat, minimumHammingDistance: int, codes: seq<Word>)
      ensures (Valid() <==> bits < 81) && this.codes == codes
      ensures dimension * dimension <= bits < (dimension + 1) * (dimension + 1)
      ensures this.minimumHammingDistance == minimumHammingDistance && errorRecoveryBits == 1
    {
      this.dimension := IntegerRoot(bits);
      this.minimumHammingDistance := minimumHammingDistance;
      this.codes := codes;
      this.errorRecoveryBits := 1;
      this.popCountTable := new PopCountTable();
    }

    method SetErrorRecoveryBits(b: int)
      modifies this`errorRecoveryBits
      ensures errorRecoveryBits == b
    {
      errorRecoveryBits := b;
    }

    method SetErrorRecoveryFraction(v: real)
      modifies this`errorRecoveryBits
      ensures errorRecoveryBits == RecoveryBits(minimumHammingDistance, v)
    {
      errorRecoveryBits := Truncate(TruncatedHalf(minimumHammingDistance - 1) as real * v);
    }

    method Decode(rCode: Word) returns (det: Detection)
      requires Valid()
      ensures det.obsCode == rCode
      ensures det.good == (det.hammingDistance <= errorRecoveryBits)
      ensures codes == [] ==> det.id == -1 && det.hammingDistance == INT_MAX && det.rotation == 0 && det.code == 0
      ensures codes != [] ==>
                0 <= det.id && Nearest(codes, dimension, rCode, det.id, det.rotation)
                && det.code == codes[det.id]
                && det.hammingDistance == Distance(codes, dimension, rCode, det.id, det.rotation)
      ensures Recovers(codes, dimension, errorRecoveryBits) ==>
                forall i: nat, k: nat, err: Word |
                  i < |codes| && k < 4 && Fits(err, dimension) && Count(err) <= errorRecoveryBits
                  && rCode == Observed(codes, dimension, i, k, err) ::
                  det.id == i && det.good && det.hammingDistance <= Count(err)
    {
      var rCode1 := Rotate90(rCode, dimension);
      var rCode2 := Rotate90(rCode1, dimension);
      var rCode3 := Rotate90(rCode2, dimension);
      assert TurnedBy(rCode, dimension, 1) == rCode1;
      assert TurnedBy(rCode, dimension, 2) == rCode2;
      det := Closest(rCode, [rCode, rCode1, rCode2, rCode3]);
      det := det.(good := det.hammingDistance <= errorRecoveryBits);
      if codes != [] && Recovers(codes, dimension, errorRecoveryBits) {
        DecodesObservations(codes, dimension, errorRecoveryBits, rCode, det.id, det.rotation);
      }
    }

    /** The loop of decode over the codes. */
    method Closest(rCode: Word, rCodes: seq<Word>) returns (det: Detection)
      requires Valid() && |rCodes| == 4 && forall q: nat | q < 4 :: rCodes[q] == TurnedBy(rCode, dimension, q)
      ensures det.obsCode == rCode
      ensures codes == [] ==> det.id == -1 && det.hammingDistance == INT_MAX && det.rotation == 0 && det.code == 0
      ensures codes != [] ==>
                Best(codes, dimension, rCode, 4 * |codes|, det.id, det.rotation, det.hammingDistance, det.code)
    {
      det := Detection(-1, INT_MAX, 0, false, rCode, 0);
      for id := 0 to |codes|
        invariant det.obsCode == rCode
        invariant id == 0 ==> det.id == -1 && det.hammingDistance == INT_MAX && det.rotation == 0 && det.code == 0
        invariant id > 0
              ==> Best(codes, dimension, rCode, 4 * id, det.id, det.rotation, det.hammingDistance, det.code)
      {
        det := ClosestRotation(rCode, rCodes, id, det);
      }
    }

    /** The loop over the rotations. */
    method ClosestRotation(rCode: Word, rCodes: seq<Word>, id: nat, before: Detection) returns (det: Detection)
      requires Valid() && |rCodes| == 4 && forall q: nat | q < 4 :: rCodes[q] == TurnedBy(rCode, dimension, q)
      requires id < |codes|
      requires id == 0 ==> before.hammingDistance == INT_MAX
      requires id > 0 ==> Best(codes, dimension, rCode, 4 * id,
                               before.id, before.rotation, before.hammingDistance, before.code)
      ensures det.obsCode == before.obsCode
      ensures Best(codes, dimension, rCode, 4 * id + 4, det.id, det.rotation, det.hammingDistance, det.code)
    {
      det := before;
      for rot := 0 to 4
        invariant det.obsCode == before.obsCode
        invariant id == 0 && rot == 0 ==> det.hammingDistance == INT_MAX
        invariant 4 * id + rot > 0
              ==> Best(codes, dimension, rCode, 4 * id + rot, det.id, det.rotation, det.hammingDistance, det.code)
      {
        var thisHamming := popCountTable.HammingDistance(rCodes[rot], codes[id]);
        assert thisHamming == Distance(codes, dimension, rCode, id, rot);
        SubsetOfRange(Differences(rCodes[rot], codes[id]), 64);
        if 4 * id + rot > 0 {
          BestStep(codes, dimension, rCode, id, rot, det.id, det.rotation);
        }
        if thisHamming < det.hammingDistance {
          det := det.(id := id, hammingDistance := thisHamming, rotation := rot, code := codes[id]);
        }
      }
    }
  }

  ghost predicate Best(codes: seq<Word>, d: nat, r: Word, n: nat, id: int, rot: nat, hamming: int, code: Word)
    requires d <= 8
  {
    0 <= id && NearestOf(codes, d, r, n, id, rot)
    && hamming == Distance(codes, d, r, id, rot) && code == codes[id]
  }

  /** Looking at one more candidate. */
  lemma BestStep(codes: seq<Word>, d: nat, r: Word, id: nat, rot: nat, bestId: nat, bestRot: nat)
    requires d <= 8 && id < |codes| && rot < 4
    requires NearestOf(codes, d, r, 4 * id + rot, bestId, bestRot)
    ensures if Distance(codes, d, r, id, rot) < Distance(codes, d, r, bestId, bestRot)
            then NearestOf(codes, d, r, 4 * id + rot + 1, id, rot)
            else NearestOf(codes, d, r, 4 * id + rot + 1, bestId, bestRot)
  {
    forall j: nat, q: nat | j < |codes| && q < 4 && 4 * j + q < 4 * id + rot + 1
      ensures (j == id && q == rot)
           || Distance(codes, d, r, bestId, bestRot) <= Distance(codes, d, r, j, q)
    {
      if 4 * j + q == 4 * id + rot { assert j == id && q == rot; }
    }
  }

  /** Of the candidates that are equally close, the one with the lowest id is reported, in the rotation tried first. */
  lemma NearestIsFirst(codes: seq<Word>, d: nat, r: Word, id: nat, rot: nat, j: nat, q: nat)
    requires d <= 8 && Nearest(codes, d, r, id, rot) && j < |codes| && q < 4
    ensures var best, other := Distance(codes, d, r, id, rot), Distance(codes, d, r, j, q);
            best <= other && (best == other ==> id < j || (id == j && rot <= q))
  {}

  /** n / 2 of C. */
  function TruncatedHalf(n: int): int {
    if n >= 0 then n / 2 else -((-n) / 2)
  }

  /** The recovery bits set for a fraction v of what the family can correct. */
  function RecoveryBits(minimumHammingDistance: int, v: real): int {
    Truncate(TruncatedHalf(minimumHammingDistance - 1) as real * v)
  }

  lemma FractionOf(x: real, v: real, part: real)
    requires 0.0 <= x && 0.0 <= v <= 1.0 && part == x * v
    ensures 0.0 <= part <= x
    ensures v == 1.0 ==> part == x
  {
    assert x * (1.0 - v) >= 0.0;
  }

  /** No fraction asks for more than the family can correct, and fraction 1 asks for all of it. */
  lemma RecoveryBitsBound(m: int, v: real)
    requires m >= 1 && 0.0 <= v <= 1.0
    ensures 0 <= RecoveryBits(m, v) && 2 * RecoveryBits(m, v) + 1 <= m
    ensures v == 1.0 ==> m <= 2 * RecoveryBits(m, v) + 2
    ensures RecoveryBits(m, v) as real <= ((m - 1) / 2) as real * v < RecoveryBits(m, v) as real + 1.0
  {
    var half := (m - 1) / 2;
    FloorOfFraction(half, v);
    assert TruncatedHalf(m - 1) == half;
    assert RecoveryBits(m, v) == Truncate(half as real * v);
    assert 2 * half + 1 <= m <= 2 * half + 2;
  }

  /** A family with a distance below one gets no bits to recover, as C divides and converts towards zero. */
  lemma NegativeRecovery(m: int, v: real)
    requires m <= 0 && 0.0 <= v <= 1.0
    ensures var part := ((1 - m) / 2) as real * v;
            RecoveryBits(m, v) <= 0 && -part <= RecoveryBits(m, v) as real < 1.0 - part
  {
    var half := (1 - m) / 2;
    FloorOfFraction(half, v);
    assert TruncatedHalf(m - 1) == -half;
    assert (-half) as real * v == -(half as real * v);
  }

  lemma FloorOfFraction(half: nat, v: real)
    requires 0.0 <= v <= 1.0
    ensures 0 <= Truncate(half as real * v) <= half
    ensures v == 1.0 ==> Truncate(half as real * v) == half
    ensures Truncate(half as real * v) as real <= half as real * v < Truncate(half as real * v) as real + 1.0
  {
    var x := half as real * v;
    FractionOf(half as real, v, x);
    TruncatedBelow(x, half);
  }

  lemma TruncatedBelow(x: real, n: nat)
    requires 0.0 <= x <= n as real
    ensures 0 <= Truncate(x) <= n
    ensures x == n as real ==> Truncate(x) == n
  {
    assert x.Floor as real <= n as real;
  }

  // ----- what decoding guarantees -----

  /** Distinct codes stay at least m apart under every rotation. */
  ghost predicate Separated(codes: seq<Word>, d: nat, m: int)
    requires d <= 8
  {
    forall i: nat, j: nat, q: nat | i < |codes| && j < |codes| && i != j && q < 4 ::
      Hamming(TurnedBy(codes[i], d, q), codes[j]) >= m
  }

  lemma SeparatedAt(codes: seq<Word>, d: nat, m: int, i: nat, j: nat, q: nat)
    requires d <= 8 && Separated(codes, d, m) && i < |codes| && j < |codes| && q < 4
    ensures i == j || Hamming(TurnedBy(codes[i], d, q), codes[j]) >= m
  {}

  predicate AllFit(codes: seq<Word>, d: nat) {
    forall i: nat | i < |codes| :: Fits(codes[i], d)
  }

  /** Code i seen after k quarter turns with the bits of err flipped. */
  function Observed(codes: seq<Word>, d: nat, i: nat, k: nat, err: Word): Word
    requires d <= 8 && i < |codes|
  {
    XorIsWord(TurnedBy(codes[i], d, k), err);
    Xor(TurnedBy(codes[i], d, k), err)
  }

  lemma {:induction false} TurnsXor(a: Word, b: Word, d: nat, n: nat)
    requires d <= 8
    ensures Xor(a, b) < TWO_64
    ensures TurnedBy(Xor(a, b), d, n) == Xor(TurnedBy(a, d, n), TurnedBy(b, d, n))
  {
    XorIsWord(a, b);
    if n > 0 {
      TurnsXor(a, b, d, n - 1);
      TurnedXor(TurnedBy(a, d, n - 1), TurnedBy(b, d, n - 1), d);
    }
  }

  lemma {:induction false} TurnsCount(w: Word, d: nat, n: nat)
    requires d <= 8 && Fits(w, d)
    ensures Count(TurnedBy(w, d, n)) == Count(w)
  {
    if n > 0 {
      TurnsCount(w, d, n - 1);
      TurnedByFits(w, d, n - 1);
      TurnedCount(TurnedBy(w, d, n - 1), d);
    }
  }

  lemma XorFits(a: Word, b: Word, d: nat)
    requires Fits(a, d) && Fits(b, d)
    ensures Xor(a, b) < TWO_64 && Fits(Xor(a, b), d)
  {
    XorIsWord(a, b);
    XorBelow(a, b, d * d);
  }

  /** Rotation is an isometry of grid words. */
  lemma RotationIsIsometry(a: Word, b: Word, d: nat, n: nat)
    requires d <= 8 && Fits(a, d) && Fits(b, d)
    ensures Hamming(TurnedBy(a, d, n), TurnedBy(b, d, n)) == Hamming(a, b)
  {
    TurnsXor(a, b, d, n);
    XorFits(a, b, d);
    TurnsCount(Xor(a, b), d, n);
  }

  lemma XorUndoes(a: Word, b: Word)
    ensures Xor(a, b) < TWO_64 && Xor(a, Xor(a, b)) == b
  {
    XorIsWord(a, b);
    forall p: nat ensures Bit(Xor(a, Xor(a, b)), p) == Bit(b, p) {
      BitXor(a, b, p);
      BitXor(a, Xor(a, b), p);
    }
    SameBits(Xor(a, Xor(a, b)), b);
  }

  function Residue(k: nat, q: nat): (n: nat)
    ensures n < 4
  {
    (k + q) % 4
  }

  lemma {:induction false} TurnsPeriod(w: Word, d: nat, n: nat)
    requires d <= 8 && Fits(w, d)
    ensures TurnedBy(w, d, n + 4) == TurnedBy(w, d, n)
  {
    if n == 0 { FourTurns(w, d); } else { TurnsPeriod(w, d, n - 1); }
  }

  lemma ResidueOf(k: nat, q: nat)
    requires k < 4 && q < 4
    ensures Residue(k, q) == if k + q < 4 then k + q else k + q - 4
  {}

  lemma TurnsModFour(w: Word, d: nat, k: nat, q: nat)
    requires d <= 8 && Fits(w, d) && k < 4 && q < 4
    ensures TurnedBy(TurnedBy(w, d, k), d, q) == TurnedBy(w, d, Residue(k, q))
  {
    ResidueOf(k, q);
    TurnsAdd(w, d, k, q);
    FullTurn(w, d, k + q);
  }

  lemma FullTurn(w: Word, d: nat, n: nat)
    requires d <= 8 && Fits(w, d)
    ensures n >= 4 ==> TurnedBy(w, d, n) == TurnedBy(w, d, n - 4)
  {
    if n >= 4 { TurnsPeriod(w, d, n - 4); }
  }

  /** Turning an observation back by q more turns moves its distance to code j by at most the flipped bits. */
  lemma ObservedDistance(codes: seq<Word>, d: nat, i: nat, k: nat, err: Word, j: nat, q: nat)
    requires d <= 8 && i < |codes| && j < |codes| && k < 4 && q < 4
    requires AllFit(codes, d) && Fits(err, d)
    ensures var n := Hamming(TurnedBy(codes[i], d, Residue(k, q)), codes[j]);
            var dist := Distance(codes, d, Observed(codes, d, i, k, err), j, q);
            n - Count(err) <= dist <= n + Count(err) && (n == 0 ==> dist == Count(err))
  {
    var c, r := TurnedBy(codes[i], d, Residue(k, q)), Observed(codes, d, i, k, err);
    var e := TurnedBy(err, d, q);
    var t := TurnedBy(r, d, q);
    TurnsXor(TurnedBy(codes[i], d, k), err, d, q);
    TurnsModFour(codes[i], d, k, q);
    assert t == Xor(c, e);
    TurnsCount(err, d, q);
    XorUndoes(c, e);
    assert Hamming(c, t) == Count(err);
    HammingSymmetric(c, t);
    HammingTriangle(c, t, codes[j]);
    HammingTriangle(t, c, codes[j]);
    HammingCountsDifferences(t, codes[j]);
    SameWordsAtZero(c, codes[j]);
  }

  lemma SameWordsAtZero(a: Word, b: Word)
    ensures (Hamming(a, b) == 0) == (a == b)
  {
    HammingCountsDifferences(a, b);
    assert forall p: nat | p < 64 :: Bit(a, p) == Bit(b, p) || p in Differences(a, b);
    if Differences(a, b) == {} { SameWordBits(a, b); }
    assert a == b ==> Differences(a, b) == {};
  }

  function Opposite(k: nat): (q: nat)
    requires k < 4
    ensures q < 4 && Residue(k, q) == 0
  {
    (4 - k) % 4
  }

  /** Turning back what was applied leaves only the flipped bits. */
  lemma UndoneDistance(codes: seq<Word>, d: nat, i: nat, k: nat, err: Word)
    requires d <= 8 && i < |codes| && k < 4
    requires AllFit(codes, d) && Fits(err, d)
    ensures Distance(codes, d, Observed(codes, d, i, k, err), i, Opposite(k)) == Count(err)
  {
    var c, q := codes[i], Opposite(k);
    TurnsXor(TurnedBy(c, d, k), err, d, q);
    TurnsModFour(c, d, k, q);
    var e := TurnedBy(err, d, q);
    TurnsCount(err, d, q);
    var t := TurnedBy(Observed(codes, d, i, k, err), d, q);
    assert t == Xor(c, e);
    XorUndoes(c, e);
    HammingSymmetric(c, t);
    HammingCountsDifferences(t, c);
  }

  /** The error-recovery contract: up to e flipped bits in any orientation decode to the right id, within e. */
  lemma UniqueDecoding(codes: seq<Word>, d: nat, e: nat, i: nat, k: nat, err: Word, id: nat, rot: nat)
    requires d <= 8 && AllFit(codes, d) && Separated(codes, d, 2 * e + 1)
    requires i < |codes| && k < 4 && Fits(err, d) && Count(err) <= e
    requires Nearest(codes, d, Observed(codes, d, i, k, err), id, rot)
    ensures id == i
    ensures Distance(codes, d, Observed(codes, d, i, k, err), id, rot) <= Count(err)
  {
    var r := Observed(codes, d, i, k, err);
    UndoneDistance(codes, d, i, k, err);
    assert Distance(codes, d, r, id, rot) <= Distance(codes, d, r, i, Opposite(k));
    ObservedDistance(codes, d, i, k, err, id, rot);
    SeparatedAt(codes, d, 2 * e + 1, i, id, Residue(k, rot));
  }

  /** The codes fit the grid and are far enough apart to correct e flipped bits. */
  ghost predicate Recovers(codes: seq<Word>, d: nat, e: int)
    requires d <= 8
  {
    0 <= e && AllFit(codes, d) && Separated(codes, d, 2 * e + 1)
  }

  lemma DecodesObservations(codes: seq<Word>, d: nat, e: nat, r: Word, id: nat, rot: nat)
    requires d <= 8 && Recovers(codes, d, e) && Nearest(codes, d, r, id, rot)
    ensures forall i: nat, k: nat, err: Word |
              i < |codes| && k < 4 && Fits(err, d) && Count(err) <= e && r == Observed(codes, d, i, k, err) ::
              id == i && Distance(codes, d, r, id, rot) <= Count(err)
  {
    forall i: nat, k: nat, err: Word |
      i < |codes| && k < 4 && Fits(err, d) && Count(err) <= e && r == Observed(codes, d, i, k, err)
      ensures id == i && Distance(codes, d, r, id, rot) <= Count(err)
    {
      UniqueDecoding(codes, d, e, i, k, err, id, rot);
    }
  }

  /** How far code i is from itself after q quarter turns. */
  function SelfDistance(codes: seq<Word>, d: nat, i: nat, q: nat): nat
    requires d <= 8 && i < |codes|
  {
    Hamming(TurnedBy(codes[i], d, q), codes[i])
  }

  /** With distinct orientations of each code kept apart too, the reported rotation undoes the applied one. */
  lemma RotationRecovered(codes: seq<Word>, d: nat, e: nat, i: nat, k: nat, err: Word, id: nat, rot: nat)
    requires d <= 8 && AllFit(codes, d) && Separated(codes, d, 2 * e + 1)
    requires i < |codes| && k < 4 && Fits(err, d) && Count(err) <= e
    requires forall q: nat | 0 < q < 4 :: SelfDistance(codes, d, i, q) >= 2 * e + 1
    requires Nearest(codes, d, Observed(codes, d, i, k, err), id, rot)
    ensures id == i && rot == Opposite(k)
    ensures TurnedBy(TurnedBy(codes[i], d, k), d, rot) == codes[i]
    ensures Distance(codes, d, Observed(codes, d, i, k, err), id, rot) == Count(err)
  {
    UniqueDecoding(codes, d, e, i, k, err, id, rot);
    ObservedDistance(codes, d, i, k, err, i, rot);
    UndoneDistance(codes, d, i, k, err);
    assert Residue(k, rot) > 0 ==> SelfDistance(codes, d, i, Residue(k, rot)) >= 2 * e + 1;
    ResidueOf(k, rot);
    ResidueOf(k, Opposite(k));
    TurnsModFour(codes[i], d, k, rot);
  }

  /** m of the set bits of x. */
  function SomeBits(x: nat, m: nat): nat
    requires m <= Count(x)
    decreases x
  {
    if x == 0 then 0
    else if x % 2 == 1 && m > 0 then 2 * SomeBits(x / 2, m - 1) + 1
    else 2 * SomeBits(x / 2, m)
  }

  lemma {:induction false} SomeBitsCount(x: nat, m: nat)
    requires m <= Count(x)
    ensures SomeBits(x, m) <= x
    ensures Count(SomeBits(x, m)) == m
    ensures Count(Xor(x, SomeBits(x, m))) == Count(x) - m
    decreases x
  {
    if x != 0 {
      var half := SomeBits(x / 2, if x % 2 == 1 && m > 0 then m - 1 else m);
      SomeBitsCount(x / 2, if x % 2 == 1 && m > 0 then m - 1 else m);
      var y := SomeBits(x, m);
      assert y / 2 == half;
      BitOnTop(x, y);
    }
  }

  lemma XorDoubled(x: nat, y: nat)
    ensures Xor(x, y) == 2 * Xor(x / 2, y / 2) + (if x % 2 != y % 2 then 1 else 0)
  {}

  lemma BitOnTop(x: nat, y: nat)
    ensures Count(y) == Count(y / 2) + y % 2
    ensures Count(Xor(x, y)) == Count(Xor(x / 2, y / 2)) + (if x % 2 != y % 2 then 1 else 0)
  {
    hide Count, Xor;
    var rest, low := Xor(x / 2, y / 2), if x % 2 != y % 2 then 1 else 0;
    XorDoubled(x, y);
    CountDoubled(rest, low);
    CountDoubled(y / 2, y % 2);
  }

  /** Some candidate is the first nearest one. */
  lemma {:induction false} NearestExists(codes: seq<Word>, d: nat, r: Word, id: nat, rot: nat)
      returns (bestId: nat, bestRot: nat)
    requires d <= 8 && id < |codes| && rot < 4
    ensures NearestOf(codes, d, r, 4 * id + rot + 1, bestId, bestRot)
    decreases 4 * id + rot
  {
    if id == 0 && rot == 0 {
      bestId, bestRot := 0, 0;
    } else {
      if rot > 0 {
        bestId, bestRot := NearestExists(codes, d, r, id, rot - 1);
      } else {
        bestId, bestRot := NearestExists(codes, d, r, id - 1, 3);
      }
      BestStep(codes, d, r, id, rot, bestId, bestRot);
      if Distance(codes, d, r, id, rot) < Distance(codes, d, r, bestId, bestRot) {
        bestId, bestRot := id, rot;
      }
    }
  }

  /** Every decodable observation of code i is reported with exactly the number of bits flipped. */
  ghost predicate ExactFlips(codes: seq<Word>, d: nat, e: nat, i: nat)
    requires d <= 8 && i < |codes|
  {
    forall k: nat, err: Word, id: nat, rot: nat |
      k < 4 && Fits(err, d) && Count(err) <= e && Nearest(codes, d, Observed(codes, d, i, k, err), id, rot) ::
      Distance(codes, d, Observed(codes, d, i, k, err), id, rot) == Count(err)
  }

  /** No orientation of code i is closer than 2e to another orientation it differs from. */
  ghost predicate OrientationsApart(codes: seq<Word>, d: nat, e: nat, i: nat)
    requires d <= 8 && i < |codes|
  {
    forall q: nat | 0 < q < 4 :: SelfDistance(codes, d, i, q) == 0 || SelfDistance(codes, d, i, q) >= 2 * e
  }

  lemma ApartGivesExact(codes: seq<Word>, d: nat, e: nat, i: nat, k: nat, err: Word, id: nat, rot: nat)
    requires d <= 8 && AllFit(codes, d) && Separated(codes, d, 2 * e + 1)
    requires i < |codes| && k < 4 && Fits(err, d) && Count(err) <= e
    requires OrientationsApart(codes, d, e, i)
    requires Nearest(codes, d, Observed(codes, d, i, k, err), id, rot)
    ensures Distance(codes, d, Observed(codes, d, i, k, err), id, rot) == Count(err)
  {
    UniqueDecoding(codes, d, e, i, k, err, id, rot);
    ObservedDistance(codes, d, i, k, err, i, rot);
    var q := Residue(k, rot);
    SameWordsAtZero(codes[i], codes[i]);
    assert q == 0 ==> SelfDistance(codes, d, i, q) == 0;
    assert SelfDistance(codes, d, i, q) == 0 || SelfDistance(codes, d, i, q) >= 2 * e;
  }

  lemma XorSwap(a: Word, b: Word, c: Word)
    ensures Xor(a, b) < TWO_64 && Xor(a, c) < TWO_64
    ensures Xor(Xor(a, b), c) == Xor(Xor(a, c), b)
  {
    XorIsWord(a, b);
    XorIsWord(a, c);
    forall p: nat ensures Bit(Xor(Xor(a, b), c), p) == Bit(Xor(Xor(a, c), b), p) {
      BitXor(a, b, p);
      BitXor(a, c, p);
      BitXor(Xor(a, b), c, p);
      BitXor(Xor(a, c), b, p);
    }
    SameBits(Xor(Xor(a, b), c), Xor(Xor(a, c), b));
  }

  /** Two orientations closer than 2e: flipping enough of the bits between them is underreported. */
  lemma CloseOrientationsUnderreport(codes: seq<Word>, d: nat, e: nat, i: nat, q: nat)
    requires d <= 8 && AllFit(codes, d) && i < |codes| && 0 < q < 4
    requires 0 < SelfDistance(codes, d, i, q) < 2 * e
    ensures !ExactFlips(codes, d, e, i)
  {
    var c, n := codes[i], SelfDistance(codes, d, i, q);
    var c' := TurnedBy(c, d, q);
    XorIsWord(c', c);
    TurnedByFits(c, d, q);
    XorBelow(c', c, d * d);
    var m := if e <= n then e else n;
    SomeBitsCount(Xor(c', c), m);
    var err := SomeBits(Xor(c', c), m);
    var r := Observed(codes, d, i, q, err);
    XorSwap(c', err, c);
    HammingCountsDifferences(r, c);
    assert Distance(codes, d, r, i, 0) == n - m;
    var id, rot := NearestExists(codes, d, r, |codes| - 1, 3);
    assert Nearest(codes, d, r, id, rot);
    assert Distance(codes, d, r, id, rot) < Count(err);
  }

  /** The flip count is exact for all decodable observations of a code if and only if its orientations are apart. */
  lemma ExactFlipsIff(codes: seq<Word>, d: nat, e: nat, i: nat)
    requires d <= 8 && AllFit(codes, d) && Separated(codes, d, 2 * e + 1) && i < |codes|
    ensures ExactFlips(codes, d, e, i) <==> OrientationsApart(codes, d, e, i)
  {
    if OrientationsApart(codes, d, e, i) {
      forall k: nat, err: Word, id: nat, rot: nat |
        k < 4 && Fits(err, d) && Count(err) <= e && Nearest(codes, d, Observed(codes, d, i, k, err), id, rot)
        ensures Distance(codes, d, Observed(codes, d, i, k, err), id, rot) == Count(err)
      {
        ApartGivesExact(codes, d, e, i, k, err, id, rot);
      }
    } else {
      var q: nat :| 0 < q < 4 && 0 < SelfDistance(codes, d, i, q) < 2 * e;
      CloseOrientationsUnderreport(codes, d, e, i, q);
    }
  }

  /** A family of one code that may correct two bits, and whose code is two bits away from itself turned: seen turned,
      with just these two bits flipped, it is reported without any. */
  lemma FlipsUnderreported() returns (codes: seq<Word>, d: nat, e: nat, k: nat, err: Word)
    ensures d <= 8 && |codes| == 1 && k < 4 && Recovers(codes, d, e) && Fits(err, d) && Count(err) == 2 <= e
    ensures Nearest(codes, d, Observed(codes, d, 0, k, err), 0, 0)
    ensures Distance(codes, d, Observed(codes, d, 0, k, err), 0, 0) == 0
    ensures !ExactFlips(codes, d, e, 0)
  {
    codes, d, e, k, err := [1], 2, 2, 1, 3;
    OneTurnedTwoFlipped(codes, d, k, err);
    hide Count, Fits, Separated, AllFit, Observed, Distance, ExactFlips, NearestOf;
    ExactMatch(codes, d, Observed(codes, d, 0, k, err));
    NotExact(codes, d, e, 0, k, err, 0, 0);
  }

  lemma OneTurnedTwoFlipped(codes: seq<Word>, d: nat, k: nat, err: Word)
    requires codes == [1] && d == 2 && k == 1 && err == 3
    ensures AllFit(codes, d) && Fits(err, d) && Count(err) == 2 && Separated(codes, d, 5)
    ensures Observed(codes, d, 0, k, err) == codes[0]
  {
    SmallWords();
    TurnedOne();
    hide Xor, Count, Pow2, TurnedBy;
    assert d * d == 4;
  }

  lemma ExactMatch(codes: seq<Word>, d: nat, r: Word)
    requires d <= 8 && codes != [] && r == codes[0]
    ensures Nearest(codes, d, r, 0, 0) && Distance(codes, d, r, 0, 0) == 0
  {
    assert TurnedBy(r, d, 0) == r;
    assert Differences(r, r) == {};
  }

  lemma NotExact(codes: seq<Word>, d: nat, e: nat, i: nat, k: nat, err: Word, id: nat, rot: nat)
    requires d <= 8 && i < |codes| && k < 4 && Fits(err, d) && Count(err) <= e
    requires Nearest(codes, d, Observed(codes, d, i, k, err), id, rot)
    requires Distance(codes, d, Observed(codes, d, i, k, err), id, rot) != Count(err)
    ensures !ExactFlips(codes, d, e, i)
  {}

  lemma SmallWords()
    ensures Xor(2, 3) == 1 && Count(3) == 2 && Pow2(4) == 16
  {
    assert Xor(1, 1) == 0 && Count(1) == 1;
    assert Pow2(2) == 4;
  }

  lemma TurnedOne()
    ensures TurnedBy(1, 2, 1) == 2
  {
    OneMoves();
    TwoBits([false, true, false, false]);
    hide TurnedBits, FromBits;
    assert TurnedBy(1, 2, 0) == 1;
  }

  lemma OneMoves()
    ensures TurnedBits(1, 2) == [false, true, false, false]
  {
    OnlyBitZero();
    SourcesOfTwo();
    hide Bit, Source;
    var bits := TurnedBits(1, 2);
    assert |bits| == 4 && bits[0] == Bit(1, 2) && bits[1] == Bit(1, 0) && bits[2] == Bit(1, 3) && bits[3] == Bit(1, 1);
  }

  lemma SourcesOfTwo()
    ensures Source(2, 0) == 2 && Source(2, 1) == 0 && Source(2, 2) == 3 && Source(2, 3) == 1
  {
    hide Source;
    SourceOfCell(2, 0, 0);
    SourceOfCell(2, 0, 1);
    SourceOfCell(2, 1, 0);
    SourceOfCell(2, 1, 1);
  }

  lemma OnlyBitZero()
    ensures Bit(1, 0) && !Bit(1, 1) && !Bit(1, 2) && !Bit(1, 3)
  {
    forall i: nat | 0 < i ensures !Bit(1, i) { BitOfZero(i - 1); }
  }

  lemma TwoBits(bits: seq<bool>)
    requires bits == [false, true, false, false]
    ensures FromBits(bits) == 2
  {
    var b1 := bits[1..];
    var b2 := b1[1..];
    var b3 := b2[1..];
    assert b3[1..] == [];
    assert FromBits(b3) == 0;
    assert FromBits(b2) == 0;
    assert FromBits(b1) == 1;
  }
}
