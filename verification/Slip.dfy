/** SLIPstream framing over a serial line: byte stuffing with a start byte, a length and a 7-bit checksum. */
module Slip {
  type Byte = b: int | 0 <= b < 256

  const ESC: Byte := 219
  const END: Byte := 192
  const ESC_END: Byte := 0xDC
  const ESC_ESC: Byte := 0xDD
  const START: Byte := 193
  const MAX_SLIP_BUF := 1023
  const MAX_PAYLOAD := 128

  // ----- sending -----

  function Stuffed(c: Byte): seq<Byte> {
    if c == END then [ESC, ESC_END] else if c == ESC then [ESC, ESC_ESC] else [c]
  }

  function Stuff(p: seq<Byte>): seq<Byte> {
    if p == [] then [] else Stuff(p[..|p| - 1]) + Stuffed(p[|p| - 1])
  }

  /** The sum of the bytes in eight bits. */
  function Sum(p: seq<Byte>): Byte {
    if p == [] then 0 else (Sum(p[..|p| - 1]) + p[|p| - 1]) % 256
  }

  /** The sum with its top bit cleared. */
  function Checksum(p: seq<Byte>): Byte {
    Sum(p) % 128
  }

  function Body(p: seq<Byte>): seq<Byte>
    requires |p| <= MAX_PAYLOAD
  {
    [|p|] + Stuff(p) + [Checksum(p)]
  }

  /** What slip_tx puts on the line for a payload; longer payloads are not sent. */
  function Frame(p: seq<Byte>): seq<Byte> {
    if |p| > MAX_PAYLOAD then [] else [END, START] + Body(p) + [END]
  }

  lemma StuffStep(p: seq<Byte>, i: nat)
    requires i < |p|
    ensures Stuff(p[..i + 1]) == Stuff(p[..i]) + Stuffed(p[i])
    ensures Sum(p[..i + 1]) == (Sum(p[..i]) + p[i]) % 256
  {
    assert p[..i + 1][..i] == p[..i];
  }

  method SlipTx(buf: seq<Byte>) returns (line: seq<Byte>)
    ensures line == Frame(buf)
  {
    if |buf| > MAX_PAYLOAD {
      return [];
    }
    var checksum: Byte := 0;
    line := [END];
    line := line + [START];
    line := line + [|buf|];
    ghost var head := line;
    assert head == [END, START] + [|buf|];
    assert Stuff(buf[..0]) == [] && Sum(buf[..0]) == 0;
    hide Stuff, Sum, Frame;
    var i := 0;
    while i < |buf|
      invariant i <= |buf|
      invariant line == head + Stuff(buf[..i])
      invariant checksum == Sum(buf[..i])
    {
      StuffStep(buf, i);
      assert (head + Stuff(buf[..i])) + Stuffed(buf[i]) == head + (Stuff(buf[..i]) + Stuffed(buf[i]));
      line, checksum := SendByte(buf[i], line, checksum);
      i := i + 1;
    }
    assert buf[..i] == buf;
    checksum := checksum % 128;
    line := line + [checksum];
    line := line + [END];
    FrameInOrder(buf);
  }

  lemma FrameInOrder(p: seq<Byte>)
    requires |p| <= MAX_PAYLOAD
    ensures Frame(p) == [END, START] + [|p|] + Stuff(p) + [Checksum(p)] + [END]
  {
    hide Stuff, Checksum;
    Regrouped([END, START], [|p|], Stuff(p), [Checksum(p)], [END]);
  }

  lemma Regrouped(a: seq<Byte>, b: seq<Byte>, c: seq<Byte>, d: seq<Byte>, e: seq<Byte>)
    ensures a + (b + c + d) + e == a + b + c + d + e
  {
    assert a + (b + c + d) == a + b + c + d;
  }

  /** One turn of its loop. */
  method SendByte(c: Byte, before: seq<Byte>, sum: Byte) returns (line: seq<Byte>, checksum: Byte)
    ensures line == before + Stuffed(c) && checksum == (sum + c) % 256
  {
    if c == END {
      line := before + [ESC];
      checksum := (sum + END) % 256;
      line := line + [ESC_END];
    } else if c == ESC {
      line := before + [ESC];
      checksum := (sum + ESC) % 256;
      line := line + [ESC_ESC];
    } else {
      line := before + [c];
      checksum := (sum + c) % 256;
    }
  }

  // ----- receiving -----

  /** Looking for START, or collecting a frame (escaped: the byte after an ESC is due). */
  datatype RxState = Hunting | InFrame(buf: seq<Byte>, escaped: bool)

  function Stored(buf: seq<Byte>, c: Byte): seq<Byte> {
    if |buf| < MAX_SLIP_BUF then buf + [c] else buf
  }

  /** What the END of a frame delivers: the payload, when length and checksum agree. */
  function Accepted(buf: seq<Byte>): seq<seq<Byte>> {
    if |buf| < 2 || |buf| - 2 != buf[0] || Checksum(buf[1..|buf| - 1]) != buf[|buf| - 1] then []
    else [buf[1..|buf| - 1]]
  }

  function Unescaped(c: Byte): Byte {
    if c == ESC_END then END else if c == ESC_ESC then ESC else c
  }

  function Next(s: RxState, c: Byte): RxState {
    match s
    case Hunting => if c == START then InFrame([], false) else Hunting
    case InFrame(buf, true) => InFrame(Stored(buf, Unescaped(c)), false)
    case InFrame(buf, false) =>
      if c == END then Hunting
      else if c == ESC then InFrame(buf, true)
      else InFrame(Stored(buf, c), false)
  }

  function Delivers(s: RxState, c: Byte): seq<seq<Byte>> {
    if s.InFrame? && !s.escaped && c == END then Accepted(s.buf) else []
  }

  /** The receiver after a run of bytes, and the payloads it delivered on the way. */
  function After(s: RxState, bytes: seq<Byte>): RxState {
    if bytes == [] then s else Next(After(s, bytes[..|bytes| - 1]), bytes[|bytes| - 1])
  }

  function Delivered(s: RxState, bytes: seq<Byte>): seq<seq<Byte>> {
    if bytes == [] then []
    else Delivered(s, bytes[..|bytes| - 1]) + Delivers(After(s, bytes[..|bytes| - 1]), bytes[|bytes| - 1])
  }

  lemma OneMore(s: RxState, bytes: seq<Byte>, i: nat)
    requires i < |bytes|
    ensures After(s, bytes[..i + 1]) == Next(After(s, bytes[..i]), bytes[i])
    ensures Delivered(s, bytes[..i + 1]) == Delivered(s, bytes[..i]) + Delivers(After(s, bytes[..i]), bytes[i])
  {
    assert bytes[..i + 1][..i] == bytes[..i];
  }

  /** The bytes arriving on the line, and what was handed to the network side. */
  class Server {
    const line: seq<Byte>
    var pos: nat
    var sent: seq<seq<Byte>>

    ghost predicate Valid()
      reads this
    {
      pos <= |line|
    }

    /** What has been handed over is what the receiver run says, and the receiver is in state s. */
    ghost predicate At(s: RxState)
      reads this
    {
      Valid() && After(Hunting, line[..pos]) == s && sent == Delivered(Hunting, line[..pos])
    }

    constructor (line: seq<Byte>)
      ensures At(Hunting) && this.line == line && pos == 0
    {
      this.line := line;
      pos := 0;
      sent := [];
    }

    /** Takes one byte; what it would deliver is still to be handed over. */
    method Read(ghost s: RxState) returns (c: Byte)
      requires At(s) && pos < |line|
      modifies this`pos
      ensures Valid() && pos == old(pos) + 1
      ensures c == line[old(pos)]
      ensures After(Hunting, line[..pos]) == Next(s, c)
      ensures Delivered(Hunting, line[..pos]) == sent + Delivers(s, c)
    {
      OneMore(Hunting, line, pos);
      c := line[pos];
      pos := pos + 1;
    }

    /** The END case of slip_rx. */
    method EndOfFrame(slipBuf: array<Byte>, received: nat)
      requires slipBuf.Length == MAX_SLIP_BUF && received <= MAX_SLIP_BUF
      modifies this`sent
      ensures sent == old(sent) + Accepted(slipBuf[..received])
    {
      ghost var frame := slipBuf[..received];
      if received > 0 {
        var size := slipBuf[0];
        if received - 2 != size {
          return;
        }
        var checksum: Byte := 0;
        var i := 1;
        while i < received - 1
          invariant 1 <= i <= received - 1
          invariant checksum == Sum(frame[1..i])
        {
          assert frame[1..i + 1][..i - 1] == frame[1..i];
          checksum := (checksum + slipBuf[i]) % 256;
          i := i + 1;
        }
        checksum := checksum % 128;
        if checksum != slipBuf[received - 1] {
          return;
        }
        assert frame[1..|frame| - 1] == slipBuf[1..size + 1];
        sent := sent + [slipBuf[1..size + 1]];
      }
    }

    /** slip_rx: collects one frame, until its END or until the line has nothing more to read. */
    method SlipRx()
      requires At(InFrame([], false))
      modifies this
      ensures Valid() && old(pos) <= pos
      ensures At(After(Hunting, line[..pos]))
      ensures pos == |line| || At(Hunting)
    {
      var slipBuf := new Byte[MAX_SLIP_BUF];
      var received := 0;
      while pos < |line|
        invariant Valid() && old(pos) <= pos
        invariant fresh(slipBuf) && slipBuf.Length == MAX_SLIP_BUF && received <= MAX_SLIP_BUF
        invariant At(InFrame(slipBuf[..received], false))
        decreases |line| - pos
      {
        ghost var buf := slipBuf[..received];
        var c := Read(InFrame(buf, false));
        if c == END {
          EndOfFrame(slipBuf, received);
          return;
        }
        if c == ESC {
          if pos == |line| {
            return;
          }
          c := Read(InFrame(buf, true));
          c := Unescaped(c);
        }
        assert At(InFrame(Stored(buf, c), false));
        if received < MAX_SLIP_BUF {
          slipBuf[received] := c;
          received := received + 1;
          assert slipBuf[..received] == Stored(buf, c);
        }
      }
    }

    /** The reading loop of main: everything but a frame after START is ignored. */
    method Serve()
      requires At(Hunting)
      modifies this
      ensures Valid() && pos == |line| && sent == Delivered(Hunting, line)
    {
      while pos < |line|
        invariant Valid()
        invariant At(After(Hunting, line[..pos]))
        invariant pos < |line| ==> At(Hunting)
        decreases |line| - pos
      {
        var c := Read(Hunting);
        if c == START {
          SlipRx();
        }
      }
      assert line[..pos] == line;
    }
  }

  // ----- runs -----

  lemma {:induction false} RunsCompose(s: RxState, a: seq<Byte>, b: seq<Byte>)
    ensures After(s, a + b) == After(After(s, a), b)
    ensures Delivered(s, a + b) == Delivered(s, a) + Delivered(After(s, a), b)
    decreases |b|
  {
    if b == [] {
      assert a + b == a;
    } else {
      var b' := b[..|b| - 1];
      assert (a + b)[..|a + b| - 1] == a + b';
      RunsCompose(s, a, b');
    }
  }

  lemma {:induction false} StuffedIsSafe(p: seq<Byte>)
    ensures END !in Stuff(p)
  {
    if p != [] { StuffedIsSafe(p[..|p| - 1]); }
  }

  /** Between the flushing END and the closing END of a frame, no byte reads as END. */
  lemma NoInnerEnd(p: seq<Byte>, i: nat)
    requires |p| <= MAX_PAYLOAD && 0 < i < |Frame(p)| - 1
    ensures Frame(p)[i] != END
  {
    StuffedIsSafe(p);
    assert END !in Body(p);
    if i > 1 { assert Frame(p)[i] == Body(p)[i - 2]; }
  }

  lemma OneByte(s: RxState, c: Byte)
    ensures After(s, [c]) == Next(s, c) && Delivered(s, [c]) == Delivers(s, c)
  {
    assert [c][..0] == [];
  }

  /** The buffer after storing bytes one by one; a full buffer drops them. */
  function StoredAll(buf: seq<Byte>, p: seq<Byte>): seq<Byte> {
    if p == [] then buf else Stored(StoredAll(buf, p[..|p| - 1]), p[|p| - 1])
  }

  lemma {:induction false} StoredAllSize(buf: seq<Byte>, p: seq<Byte>)
    requires |buf| <= MAX_SLIP_BUF
    ensures |buf| + |p| <= MAX_SLIP_BUF ==> StoredAll(buf, p) == buf + p
    ensures |StoredAll(buf, p)| == if |buf| + |p| <= MAX_SLIP_BUF then |buf| + |p| else MAX_SLIP_BUF
    decreases |p|
  {
    if p == [] {
      assert buf + p == buf;
    } else {
      StoredAllSize(buf, p[..|p| - 1]);
      assert (buf + p[..|p| - 1]) + [p[|p| - 1]] == buf + p;
    }
  }

  /** Stuffed bytes are stored unstuffed, and nothing is delivered meanwhile. */
  lemma {:induction false} CollectsStuffed(buf: seq<Byte>, p: seq<Byte>)
    ensures After(InFrame(buf, false), Stuff(p)) == InFrame(StoredAll(buf, p), false)
    ensures Delivered(InFrame(buf, false), Stuff(p)) == []
    decreases |p|
  {
    if p != [] {
      var p', c := p[..|p| - 1], p[|p| - 1];
      CollectsStuffed(buf, p');
      RunsCompose(InFrame(buf, false), Stuff(p'), Stuffed(c));
      CollectsOne(StoredAll(buf, p'), c);
    }
  }

  lemma CollectsOne(buf: seq<Byte>, c: Byte)
    ensures After(InFrame(buf, false), Stuffed(c)) == InFrame(Stored(buf, c), false)
    ensures Delivered(InFrame(buf, false), Stuffed(c)) == []
  {
    var s := InFrame(buf, false);
    if c == END || c == ESC {
      OneByte(s, ESC);
      OneByte(InFrame(buf, true), Stuffed(c)[1]);
      assert Stuffed(c) == [ESC] + [Stuffed(c)[1]];
      RunsCompose(s, [ESC], [Stuffed(c)[1]]);
    } else {
      OneByte(s, c);
    }
  }

  /** The buffer a frame's body fills, starting from buf. */
  function Filled(buf: seq<Byte>, p: seq<Byte>): seq<Byte>
    requires |p| <= MAX_PAYLOAD
  {
    Stored(StoredAll(Stored(buf, |p|), p), Checksum(p))
  }

  /** A frame's body and its END: what is delivered is what the filled buffer holds. */
  lemma CollectsBody(buf: seq<Byte>, p: seq<Byte>)
    requires |p| <= MAX_PAYLOAD
    ensures After(InFrame(buf, false), Body(p) + [END]) == Hunting
    ensures Delivered(InFrame(buf, false), Body(p) + [END]) == Accepted(Filled(buf, p))
  {
    hide After, Delivered, Stored, Stuff, StoredAll, Accepted;
    var s := InFrame(buf, false);
    OneByte(s, |p|);
    CollectsStuffed(Stored(buf, |p|), p);
    RunsCompose(s, [|p|], Stuff(p));
    var s' := InFrame(StoredAll(Stored(buf, |p|), p), false);
    OneByte(s', Checksum(p));
    RunsCompose(s, [|p|] + Stuff(p), [Checksum(p)]);
    OneByte(InFrame(Filled(buf, p), false), END);
    RunsCompose(s, Body(p), [END]);
  }

  lemma AcceptsWhole(p: seq<Byte>)
    requires |p| <= MAX_PAYLOAD
    ensures Accepted(Filled([], p)) == [p]
  {
    StoredAllSize([|p|], p);
    assert Stored([], |p|) == [|p|];
    var f := Filled([], p);
    assert f == [|p|] + p + [Checksum(p)];
    assert f[1..|f| - 1] == p;
  }

  // ----- what the receiver accepts, and what it rejects -----

  /** The sum of the bytes. */
  function Total(p: seq<Byte>): nat {
    if p == [] then 0 else Total(p[..|p| - 1]) + p[|p| - 1]
  }

  lemma {:induction false} SumIsTotal(p: seq<Byte>)
    ensures Sum(p) == Total(p) % 256 && Checksum(p) == Total(p) % 128
  {
    if p != [] {
      SumIsTotal(p[..|p| - 1]);
      Remainders(Total(p[..|p| - 1]), p[|p| - 1]);
    }
    LowBits(Total(p));
  }

  lemma Remainders(t: nat, c: Byte)
    ensures (t % 256 + c) % 256 == (t + c) % 256
  {}

  lemma LowBits(t: nat)
    ensures t % 256 % 128 == t % 128
  {}

  lemma OtherRemainder(a: int, b: int)
    ensures a % 128 == b % 128 ==> (a - b) % 128 == 0
  {}

  /** After START, bytes stuffed and ended by END are a frame; of a long one only the beginning is kept. */
  lemma CollectsContent(b: seq<Byte>)
    ensures Delivered(Hunting, [START] + Stuff(b) + [END]) == Accepted(StoredAll([], b))
  {
    hide After, Delivered, Stored, Stuff, StoredAll, Accepted;
    var s := InFrame([], false);
    OneByte(Hunting, START);
    CollectsStuffed([], b);
    RunsCompose(Hunting, [START], Stuff(b));
    OneByte(InFrame(StoredAll([], b), false), END);
    RunsCompose(Hunting, [START] + Stuff(b), [END]);
  }

  /** Whatever bytes are framed, they are handed over if and only if the first says how many there are between it and
      the last, and the last is the low seven bits of the sum of those. */
  lemma FrameAcceptedIff(b: seq<Byte>)
    ensures Delivered(Hunting, [START] + Stuff(b) + [END])
         == if |b| >= 2 && b[0] == |b| - 2 && b[|b| - 1] == Total(b[1..|b| - 1]) % 128 then [b[1..|b| - 1]] else []
  {
    CollectsContent(b);
    StoredAllSize([], b);
    assert [] + b == b;
    if |b| >= 2 { SumIsTotal(b[1..|b| - 1]); }
  }

  /** The same for a payload between its length byte and its checksum byte. */
  lemma SealedFrame(n: Byte, p: seq<Byte>, k: Byte)
    ensures Delivered(Hunting, [START] + Stuff([n] + p + [k]) + [END])
         == if n == |p| && k == Total(p) % 128 then [p] else []
  {
    var b := [n] + p + [k];
    FrameAcceptedIff(b);
    hide Total, Stuff, Delivered;
    assert b[1..|b| - 1] == p;
  }

  lemma {:induction false} TotalOfUpdate(p: seq<Byte>, i: nat, c: Byte)
    requires i < |p|
    ensures Total(p[i := c]) == Total(p) - p[i] + c
  {
    var n := |p| - 1;
    if i < n {
      TotalOfUpdate(p[..n], i, c);
      assert p[i := c][..n] == p[..n][i := c];
    } else {
      assert p[i := c][..n] == p[..n];
    }
  }

  /** One corrupted byte of a payload is noticed unless the corruption is a multiple of 128. */
  lemma CorruptByteRejected(p: seq<Byte>, i: nat, c: Byte)
    requires |p| <= MAX_PAYLOAD && i < |p| && (c - p[i]) % 128 != 0
    ensures Delivered(Hunting, [START] + Stuff([|p|] + p[i := c] + [Checksum(p)]) + [END]) == []
  {
    var q := p[i := c];
    SealedFrame(|p|, q, Checksum(p));
    SumIsTotal(p);
    TotalOfUpdate(p, i, c);
    hide Total, Sum, Stuff, Delivered;
    OtherRemainder(Total(q), Total(p));
  }

  /** So is a wrong length. */
  lemma WrongLengthRejected(p: seq<Byte>, n: Byte, k: Byte)
    requires n != |p|
    ensures Delivered(Hunting, [START] + Stuff([n] + p + [k]) + [END]) == []
  {
    SealedFrame(n, p, k);
  }

  /** The bytes of p, each with an ESC in front that none of them needs. */
  function Escaped(p: seq<Byte>): seq<Byte> {
    if p == [] then [] else Escaped(p[..|p| - 1]) + [ESC, p[|p| - 1]]
  }

  /** Escaping bytes that need no escape changes nothing, and even END itself can be sent that way. */
  lemma {:induction false} CollectsEscaped(buf: seq<Byte>, p: seq<Byte>)
    requires ESC_END !in p && ESC_ESC !in p
    ensures After(InFrame(buf, false), Escaped(p)) == After(InFrame(buf, false), Stuff(p))
    ensures Delivered(InFrame(buf, false), Escaped(p)) == []
    decreases |p|
  {
    CollectsStuffed(buf, p);
    if p != [] {
      var p', c := p[..|p| - 1], p[|p| - 1];
      CollectsEscaped(buf, p');
      CollectsStuffed(buf, p');
      CollectsEscapedOne(StoredAll(buf, p'), c);
      hide Stuff, StoredAll;
      RunsCompose(InFrame(buf, false), Escaped(p'), [ESC, c]);
    }
  }

  lemma CollectsEscapedOne(buf: seq<Byte>, c: Byte)
    requires c != ESC_END && c != ESC_ESC
    ensures After(InFrame(buf, false), [ESC, c]) == InFrame(Stored(buf, c), false)
    ensures Delivered(InFrame(buf, false), [ESC, c]) == []
  {
    OneByte(InFrame(buf, false), ESC);
    OneByte(InFrame(buf, true), c);
    assert [ESC, c] == [ESC] + [c];
    RunsCompose(InFrame(buf, false), [ESC], [c]);
  }

  /** What goes over the wire for a payload of the two bytes that have to be stuffed. */
  lemma StuffedOnTheWire()
    ensures Frame([192, 219]) == [192, 193, 2, 219, 220, 219, 221, 27, 192]
  {
    StuffTwo([192, 219]);
    hide Stuff, Sum;
  }

  lemma StuffTwo(p: seq<Byte>)
    requires p == [192, 219]
    ensures Stuff(p) == [219, 220, 219, 221] && Sum(p) == 155
  {
    assert p[..1] == [192] && p[..1][..0] == [];
    assert Stuff(p[..1]) == [219, 220] && Sum(p[..1]) == 192;
  }

  /** An ESC whose second byte has not come yet. */
  predicate Dangling(s: RxState) {
    s.InFrame? && s.escaped
  }

  /** A frame read by a receiver that is collecting into g after the first two bytes. */
  lemma FrameRun(s: RxState, p: seq<Byte>, g: seq<Byte>)
    requires |p| <= MAX_PAYLOAD && Next(Next(s, END), START) == InFrame(g, false)
    ensures After(s, Frame(p)) == Hunting
    ensures Delivered(s, Frame(p)) == Delivers(s, END) + Accepted(Filled(g, p))
  {
    hide Next, After, Delivered, Delivers, Accepted, Body;
    PreambleRun(s);
    CollectsBody(g, p);
    RunsCompose(s, [END, START], Body(p) + [END]);
    assert Frame(p) == [END, START] + (Body(p) + [END]);
  }

  lemma PreambleRun(s: RxState)
    ensures After(s, [END, START]) == Next(Next(s, END), START)
    ensures Delivered(s, [END, START]) == Delivers(s, END)
  {
    OneByte(s, END);
    OneByte(Next(s, END), START);
    RunsCompose(s, [END], [START]);
    assert [END] + [START] == [END, START];
  }

  /** A frame after anything but a dangling ESC is delivered, behind whatever its first END flushes. */
  lemma FrameDelivered(s: RxState, p: seq<Byte>)
    requires |p| <= MAX_PAYLOAD && !Dangling(s)
    ensures After(s, Frame(p)) == Hunting
    ensures Delivered(s, Frame(p)) == Delivers(s, END) + [p]
  {
    FrameRun(s, p, []);
    AcceptsWhole(p);
  }

  /** A frame after a dangling ESC is lost: anything its END delivers is longer than its payload. */
  lemma FrameLost(s: RxState, p: seq<Byte>)
    requires |p| <= MAX_PAYLOAD && Dangling(s) && |s.buf| <= MAX_SLIP_BUF
    ensures After(s, Frame(p)) == Hunting
    ensures |Delivered(s, Frame(p))| <= 1
    ensures forall x | x in Delivered(s, Frame(p)) :: |x| > |p|
  {
    var g := Stored(Stored(s.buf, END), START);
    FrameRun(s, p, g);
    StoredAllSize(Stored(g, |p|), p);
  }

  function Frames(ps: seq<seq<Byte>>): seq<Byte> {
    if ps == [] then [] else Frame(ps[0]) + Frames(ps[1..])
  }

  /** The payloads short enough to be sent. */
  function Sendable(ps: seq<seq<Byte>>): seq<seq<Byte>> {
    if ps == [] then []
    else (if |ps[0]| <= MAX_PAYLOAD then [ps[0]] else []) + Sendable(ps[1..])
  }

  /** Round trip: an idle receiver delivers exactly the sendable payloads, in order, and is idle again. */
  lemma {:induction false} RoundTrip(ps: seq<seq<Byte>>)
    ensures After(Hunting, Frames(ps)) == Hunting
    ensures Delivered(Hunting, Frames(ps)) == Sendable(ps)
  {
    if ps != [] {
      RoundTrip(ps[1..]);
      RunsCompose(Hunting, Frame(ps[0]), Frames(ps[1..]));
      if |ps[0]| <= MAX_PAYLOAD {
        FrameDelivered(Hunting, ps[0]);
      }
    }
  }

  lemma {:induction false} BufferFits(bytes: seq<Byte>)
    ensures After(Hunting, bytes).InFrame? ==> |After(Hunting, bytes).buf| <= MAX_SLIP_BUF
    decreases |bytes|
  {
    if bytes != [] { BufferFits(bytes[..|bytes| - 1]); }
  }

  /** Resynchronisation: after any bytes at all, frames are delivered in order and the receiver ends idle,
      behind at most one leftover. Only a dangling ESC costs a frame, and then only the first one. */
  lemma Resynchronises(garbage: seq<Byte>, p: seq<Byte>, ps: seq<seq<Byte>>)
    requires |p| <= MAX_PAYLOAD
    ensures var s, line := After(Hunting, garbage), Frames([p] + ps);
            var out := Delivered(s, line);
            After(s, line) == Hunting
            && Delivered(Hunting, garbage + line) == Delivered(Hunting, garbage) + out
            && (!Dangling(s) ==> out == Delivers(s, END) + [p] + Sendable(ps))
            && (Dangling(s) ==> exists lost :: |lost| <= 1 && p !in lost && out == lost + Sendable(ps))
  {
    var s, line := After(Hunting, garbage), Frames([p] + ps);
    RunsCompose(Hunting, garbage, line);
    assert ([p] + ps)[1..] == ps;
    RunsCompose(s, Frame(p), Frames(ps));
    RoundTrip(ps);
    if Dangling(s) {
      BufferFits(garbage);
      FrameLost(s, p);
      var lost := Delivered(s, Frame(p));
      assert Delivered(s, line) == lost + Sendable(ps);
    } else {
      FrameDelivered(s, p);
    }
  }
}
