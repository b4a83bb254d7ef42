/**
 The dual-clock FIFO whose pointers cross clock domains in Gray code, and the peak backlog
 of a schedule. The two ends and their two clocks step independently, in any order; each
 end sees the other's pointer through two registers that only its own clock advances.
 */
module AsyncFifo {
  import opened Words

  const MEM_SIZE: nat := 256

  function Gray(value: nat): nat { Xor(value, value / 2) }

  predicate ValidDepth(depth: int) {
    depth >= 2 && depth <= MEM_SIZE && And(depth, depth - 1) == 0
  }

  datatype State = State(
    mem: seq<Word>,
    wptr: Word, rptr: Word,
    writeSync1: Word, writeSync2: Word,       // Gray write pointer on its way to the reader
    readSync1: Word, readSync2: Word,         // Gray read pointer on its way to the writer
    depth: int)

  predicate Empty(s: State) {
    ValidDepth(s.depth) && s.writeSync2 == Gray(s.rptr)
  }

  /** The number of address bits: shifting depth right until it is 1. */
  function AddressBits(depth: int): nat
    decreases depth
  {
    if depth > 1 then 1 + AddressBits(depth / 2) else 0
  }

  /** The wrap bit and the top address bit, for k address bits. */
  function WrapMask(k: nat): nat
    requires k >= 1
  {
    Or(Pow2(k), Pow2(k - 1))
  }

  lemma AddressBitsPositive(depth: int)
    requires depth >= 2
    ensures AddressBits(depth) >= 1
  {
  }

  predicate Full(s: State) {
    ValidDepth(s.depth) &&
    (AddressBitsPositive(s.depth);
     Gray(s.wptr) == Xor(s.readSync2, WrapMask(AddressBits(s.depth))))
  }

  /** Advances a pointer; C reduces the incremented uint32_t modulo twice the depth. */
  function Advance(ptr: Word, depth: int): (p: Word)
    requires depth >= 1
  {
    ModBelow((ptr + 1) % TWO_32, 2 * depth);
    (ptr + 1) % TWO_32 % (2 * depth)
  }

  function Write(s: State, value: Word): State
    requires |s.mem| == MEM_SIZE
  {
    if !ValidDepth(s.depth) || Full(s) then s
    else s.(mem := s.mem[s.wptr % s.depth := value], wptr := Advance(s.wptr, s.depth))
  }

  function Read(s: State): State {
    if !ValidDepth(s.depth) || Empty(s) then s else s.(rptr := Advance(s.rptr, s.depth))
  }

  lemma GrayIsWord(value: Word)
    ensures Gray(value) < TWO_32
  {
    Pow2Values();
    BitwiseBound(XorOp, value, value / 2, 32);
  }

  function WriteClock(s: State): State {
    GrayIsWord(s.rptr);
    s.(readSync2 := s.readSync1, readSync1 := Gray(s.rptr))
  }

  function ReadClock(s: State): State {
    GrayIsWord(s.wptr);
    s.(writeSync2 := s.writeSync1, writeSync1 := Gray(s.wptr))
  }

  // ---------- Gray code ----------

  lemma {:induction false} GrayInjective(v: nat, w: nat)
    requires Gray(v) == Gray(w)
    ensures v == w
    decreases v + w
  {
    if v + w > 0 {
      assert Gray(v / 2) == Gray(v) / 2 && Gray(w / 2) == Gray(w) / 2;
      GrayInjective(v / 2, w / 2);
      assert v % 2 == w % 2;
    }
  }

  /** The lowest digit of a Gray code tells whether the two lowest digits differ. */
  lemma GrayStep(v: nat, p: nat)
    requires p < 2
    ensures Gray(2 * v + p) == 2 * Gray(v) + if p == v % 2 then 0 else 1
  {
    Halve(2 * v + p, v, p);
    BitwiseStep(XorOp, v, p, v / 2, v % 2);
  }

  lemma XorStep(a: nat, p: nat, b: nat, q: nat)
    requires p < 2 && q < 2
    ensures Xor(2 * a + p, 2 * b + q) == 2 * Xor(a, b) + if p == q then 0 else 1
  {
    BitwiseStep(XorOp, a, p, b, q);
  }

  lemma EvenFlips(v: nat, h: nat)
    requires v == 2 * h
    ensures Xor(Gray(v), Gray(v + 1)) == 1
  {
    GrayStep(h, 0);
    GrayStep(h, 1);
    XorStep(Gray(h), h % 2, Gray(h), 1 - h % 2);
    XorSelf(Gray(h));
  }

  lemma OddFlips(v: nat, h: nat)
    requires v == 2 * h + 1
    ensures Xor(Gray(v), Gray(v + 1)) == 2 * Xor(Gray(h), Gray(h + 1))
  {
    GrayStep(h, 1);
    GrayStep(h + 1, 0);
    NextParity(h);
    XorStep(Gray(h), 1 - h % 2, Gray(h + 1), 1 - h % 2);
  }

  lemma {:induction false} GrayNextFlips(v: nat, k: nat) returns (j: nat)
    requires v + 1 < Pow2(k)
    ensures j < k && Xor(Gray(v), Gray(v + 1)) == Pow2(j)
    decreases k
  {
    var h := v / 2;
    if v == 2 * h {
      EvenFlips(v, h);
      j := 0;
    } else {
      OddFlips(v, h);
      var i := GrayNextFlips(h, k - 1);
      j := i + 1;
      assert Pow2(j) == 2 * Pow2(i);
    }
  }

  lemma {:induction false} GrayOfOnes(k: nat)
    requires k >= 1
    ensures Gray(Pow2(k) - 1) == Pow2(k - 1)
  {
    if k > 1 {
      GrayOfOnes(k - 1);
      assert (Pow2(k) - 1) / 2 == Pow2(k - 1) - 1;
    }
  }

  /** Counting up by one changes one digit of the Gray code, and so does the wrap to 0. */
  lemma GrayStepFlipsOneBit(v: nat, k: nat)
    requires v < Pow2(k) && k >= 1
    ensures exists j: nat :: j < k && Xor(Gray(v), Gray((v + 1) % Pow2(k))) == Pow2(j)
  {
    var p := Pow2(k);
    if v + 1 == p {
      QuotientUnique(v + 1, p, 1, 0);
      GrayOfOnes(k);
      XorZero(Gray(v));
      assert Xor(Gray(v), Gray(0)) == Pow2(k - 1);
    } else {
      QuotientUnique(v + 1, p, 0, v + 1);
      var j := GrayNextFlips(v, k);
    }
  }

  /** The pointer 2^k ahead of r modulo 2^(k+1): r with its wrap bit flipped. */
  function Opposite(r: nat, k: nat): nat {
    if r < Pow2(k) then r + Pow2(k) else r - Pow2(k)
  }

  lemma OppositeStep(h: nat, p: nat, k: nat)
    requires p < 2 && k >= 1
    ensures Opposite(2 * h + p, k) == 2 * Opposite(h, k - 1) + p
  {
    assert Pow2(k) == 2 * Pow2(k - 1);
  }

  lemma OppositeParity(h: nat, k: nat)
    requires k >= 1
    ensures Opposite(h, k) % 2 == h % 2
  {
    var g, s := h / 2, h % 2;
    assert h == 2 * g + s;
    OppositeStep(g, s, k);
    Halve(Opposite(h, k), Opposite(g, k - 1), s);
  }

  lemma WrapMaskStep(k: nat)
    requires k >= 2
    ensures WrapMask(k) == 2 * WrapMask(k - 1)
  {
    BitwiseStep(OrOp, Pow2(k - 1), 0, Pow2(k - 2), 0);
  }

  lemma MaskedStep(h: nat, o: nat, mask: nat, p: nat)
    requires p < 2 && o % 2 == h % 2 && Gray(o) == Xor(Gray(h), mask)
    ensures Gray(2 * o + p) == Xor(Gray(2 * h + p), 2 * mask)
  {
    GrayStep(h, p);
    GrayStep(o, p);
    XorStep(Gray(h), if p == h % 2 then 0 else 1, mask, 0);
  }

  lemma SmallOpposite(r: nat)
    requires r < 4
    ensures Gray(Opposite(r, 1)) == Xor(Gray(r), WrapMask(1))
  {
    assert WrapMask(1) == 3;
    assert r == 0 || r == 1 || r == 2 || r == 3;
  }

  /** Flipping the wrap bit of a pointer flips the two mask digits of its Gray code. */
  lemma {:induction false} GrayOfOpposite(r: nat, k: nat)
    requires k >= 1 && r < Pow2(k + 1)
    ensures Gray(Opposite(r, k)) == Xor(Gray(r), WrapMask(k))
    decreases k
  {
    if k == 1 {
      SmallOpposite(r);
    } else {
      var h, p := r / 2, r % 2;
      GrayOfOpposite(h, k - 1);
      OppositeStep(h, p, k);
      OppositeParity(h, k - 1);
      WrapMaskStep(k);
      MaskedStep(h, Opposite(h, k - 1), WrapMask(k - 1), p);
    }
  }

  lemma OppositeIsMod(r: nat, k: nat)
    requires r < Pow2(k + 1)
    ensures Opposite(r, k) == (r + Pow2(k)) % Pow2(k + 1)
  {
    var p := Pow2(k);
    if r < p {
      QuotientUnique(r + p, 2 * p, 0, r + p);
    } else {
      QuotientUnique(r + p, 2 * p, 1, r - p);
    }
  }

  /** The XOR full test: it holds exactly when w is 2^k ahead of r modulo 2^(k+1). */
  lemma FullTestIsDistance(w: nat, r: nat, k: nat)
    requires k >= 1 && w < Pow2(k + 1) && r < Pow2(k + 1)
    ensures Gray(w) == Xor(Gray(r), WrapMask(k)) <==> w == (r + Pow2(k)) % Pow2(k + 1)
  {
    GrayOfOpposite(r, k);
    OppositeIsMod(r, k);
    if Gray(w) == Xor(Gray(r), WrapMask(k)) {
      GrayInjective(w, Opposite(r, k));
    }
  }

  lemma {:induction false} AddressBitsOfPow2(k: nat)
    ensures AddressBits(Pow2(k)) == k
  {
    if k > 0 { AddressBitsOfPow2(k - 1); }
  }

  lemma DepthIsPow2(depth: int)
    requires ValidDepth(depth)
    ensures AddressBits(depth) >= 1 && depth == Pow2(AddressBits(depth))
    ensures 2 * depth == Pow2(AddressBits(depth) + 1)
  {
    OneBitIffPow2(depth);
    var k: nat :| depth == Pow2(k);
    AddressBitsOfPow2(k);
    AddressBitsPositive(depth);
  }

  lemma SmallPowers()
    ensures Pow2(0) == 1 && Pow2(1) == 2 && Pow2(2) == 4 && Pow2(3) == 8 && Pow2(4) == 16
    ensures Pow2(5) == 32 && Pow2(6) == 64 && Pow2(7) == 128 && Pow2(8) == 256
  {
  }

  lemma {:induction false} PowersGrow(j: nat, k: nat)
    requires j < k
    ensures Pow2(k) > Pow2(j)
  {
    if j + 1 < k { PowersGrow(j, k - 1); }
  }

  /** The depths that are accepted. */
  lemma ValidDepthExactly(depth: int)
    ensures ValidDepth(depth) <==> depth in {2, 4, 8, 16, 32, 64, 128, 256}
  {
    SmallPowers();
    if ValidDepth(depth) {
      OneBitIffPow2(depth);
      var k: nat :| depth == Pow2(k);
      if k > 8 { PowersGrow(8, k); }
    }
    if depth in {2, 4, 8, 16, 32, 64, 128, 256} {
      var k: nat :| k <= 8 && depth == Pow2(k);
      OneBitIffPow2(depth);
    }
  }

  // ---------- runs ----------

  datatype Op = DoWrite(value: Word) | DoRead | DoWriteClock | DoReadClock

  /** A FIFO with the history that its registers lag behind. */
  datatype Trace = Trace(
    fifo: State,
    written: seq<Word>,                       // values of accepted writes
    delivered: seq<Word>,                     // values of accepted reads
    ws1: nat, ws2: nat,                       // writes counted by the write_sync registers
    rs1: nat, rs2: nat)                       // reads counted by the read_sync registers

  function Step(t: Trace, op: Op): (t': Trace)
    requires |t.fifo.mem| == MEM_SIZE
    ensures |t'.fifo.mem| == MEM_SIZE && t'.fifo.depth == t.fifo.depth
  {
    var f := t.fifo;
    match op
    case DoWrite(v) =>
      if !ValidDepth(f.depth) || Full(f) then t
      else t.(fifo := Write(f, v), written := t.written + [v])
    case DoRead =>
      if !ValidDepth(f.depth) || Empty(f) then t
      else t.(fifo := Read(f), delivered := t.delivered + [f.mem[f.rptr % f.depth]])
    case DoWriteClock =>
      t.(fifo := WriteClock(f), rs2 := t.rs1, rs1 := |t.delivered|)
    case DoReadClock =>
      t.(fifo := ReadClock(f), ws2 := t.ws1, ws1 := |t.written|)
  }

  function Run(t: Trace, ops: seq<Op>): (t': Trace)
    requires |t.fifo.mem| == MEM_SIZE
    ensures |t'.fifo.mem| == MEM_SIZE && t'.fifo.depth == t.fifo.depth
  {
    if ops == [] then t else Step(Run(t, ops[..|ops| - 1]), ops[|ops| - 1])
  }

  /** After reset: all pointers zero, memory arbitrary. */
  function Reset(mem: seq<Word>, depth: int): Trace {
    Trace(State(mem, 0, 0, 0, 0, 0, 0, depth), [], [], 0, 0, 0, 0)
  }

  /** Every observed pointer trails the real one, and the writer never laps the reader. */
  ghost predicate Counts(t: Trace) {
    t.rs2 <= t.rs1 <= |t.delivered| <= t.ws2 <= t.ws1 <= |t.written| <= t.rs2 + t.fifo.depth
  }

  /** The registers hold the counts modulo twice the depth, Gray coded when synchronised. */
  ghost predicate Registers(t: Trace)
    requires t.fifo.depth >= 1
  {
    var m := 2 * t.fifo.depth;
    && t.fifo.wptr == |t.written| % m
    && t.fifo.rptr == |t.delivered| % m
    && t.fifo.writeSync1 == Gray(t.ws1 % m)
    && t.fifo.writeSync2 == Gray(t.ws2 % m)
    && t.fifo.readSync1 == Gray(t.rs1 % m)
    && t.fifo.readSync2 == Gray(t.rs2 % m)
  }

  ghost predicate Contents(t: Trace)
    requires 1 <= t.fifo.depth <= |t.fifo.mem|
  {
    && t.delivered <= t.written
    && forall i | |t.delivered| <= i < |t.written| :: t.fifo.mem[i % t.fifo.depth] == t.written[i]
  }

  ghost predicate Inv(t: Trace) {
    && |t.fifo.mem| == MEM_SIZE && ValidDepth(t.fifo.depth)
    && Counts(t) && Registers(t) && Contents(t)
  }

  lemma FullByCounts(w: nat, r: nat, d: nat, k: nat)
    requires k >= 1 && d == Pow2(k) && r <= w <= r + d
    ensures Gray(w % (2 * d)) == Xor(Gray(r % (2 * d)), WrapMask(k)) <==> w == r + d
  {
    var q, low := DivMod(w, 2 * d);
    var q', low' := DivMod(r, 2 * d);
    assert 2 * d == Pow2(k + 1);
    FullTestIsDistance(low, low', k);
    ModOfSum(r, d, 2 * d);
    ModDistinguishes(w, r + d, 2 * d);
  }

  lemma EmptyByCounts(w: nat, r: nat, m: nat)
    requires r <= w < r + m
    ensures Gray(w % m) == Gray(r % m) <==> w == r
  {
    if Gray(w % m) == Gray(r % m) { GrayInjective(w % m, r % m); }
    ModDistinguishes(r, w, m);
  }

  /** Full is exactly: depth writes beyond the reads that the writer can see. */
  lemma FullIsCount(t: Trace)
    requires Inv(t)
    ensures Full(t.fifo) <==> |t.written| == t.rs2 + t.fifo.depth
  {
    DepthIsPow2(t.fifo.depth);
    FullByCounts(|t.written|, t.rs2, t.fifo.depth, AddressBits(t.fifo.depth));
  }

  /** Empty is exactly: as many reads as the writes that the reader can see. */
  lemma EmptyIsCount(t: Trace)
    requires Inv(t)
    ensures Empty(t.fifo) <==> t.ws2 == |t.delivered|
  {
    EmptyByCounts(t.ws2, |t.delivered|, 2 * t.fifo.depth);
  }

  lemma AdvanceCounts(count: nat, ptr: Word, depth: int)
    requires 1 <= depth <= MEM_SIZE && ptr == count % (2 * depth)
    ensures Advance(ptr, depth) == (count + 1) % (2 * depth)
  {
    ModOfNext(count, 2 * depth);
  }

  lemma WriteKeepsInv(t: Trace, value: Word)
    requires Inv(t)
    ensures Inv(Step(t, DoWrite(value)))
  {
    FullIsCount(t);
    if !Full(t.fifo) {
      var d, w := t.fifo.depth, |t.written|;
      AdvanceCounts(w, t.fifo.wptr, d);
      ModOfMod(w, d);
      forall i | |t.delivered| <= i < w ensures i % d != w % d {
        ModDistinguishes(i, w, d);
      }
      var t' := Step(t, DoWrite(value));
      assert t'.fifo.mem == t.fifo.mem[w % d := value];
      assert Counts(t') && Registers(t');
    }
  }

  lemma ReadKeepsInv(t: Trace)
    requires Inv(t)
    ensures Inv(Step(t, DoRead))
  {
    EmptyIsCount(t);
    if !Empty(t.fifo) {
      var r := |t.delivered|;
      AdvanceCounts(r, t.fifo.rptr, t.fifo.depth);
      ModOfMod(r, t.fifo.depth);
      var t' := Step(t, DoRead);
      assert t'.delivered == t.delivered + [t.written[r]];
    }
  }

  lemma StepKeepsInv(t: Trace, op: Op)
    requires Inv(t)
    ensures Inv(Step(t, op))
  {
    match op
    case DoWrite(v) => WriteKeepsInv(t, v);
    case DoRead => ReadKeepsInv(t);
    case DoWriteClock =>
    case DoReadClock =>
  }

  lemma {:induction false} RunKeepsInv(mem: seq<Word>, depth: int, ops: seq<Op>)
    requires |mem| == 256 && depth in {2, 4, 8, 16, 32, 64, 128, 256}
    ensures Inv(Run(Reset(mem, depth), ops))
  {
    ValidDepthExactly(depth);
    if ops == [] {
      XorSelf(0);
    } else {
      var last := |ops| - 1;
      RunKeepsInv(mem, depth, ops[..last]);
      StepKeepsInv(Run(Reset(mem, depth), ops[..last]), ops[last]);
    }
  }

  // ---------- what holds in every run ----------

  /** Values are delivered in write order, and the counts never leave their order. */
  lemma DeliveredInOrder(mem: seq<Word>, depth: int, ops: seq<Op>)
    requires |mem| == 256 && depth in {2, 4, 8, 16, 32, 64, 128, 256}
    ensures var t := Run(Reset(mem, depth), ops);
      && t.delivered <= t.written
      && |t.written| <= |t.delivered| + depth
      && t.rs2 <= t.rs1 <= |t.delivered| <= t.ws2 <= t.ws1 <= |t.written| <= t.rs2 + depth
  {
    RunKeepsInv(mem, depth, ops);
  }

  /** An accepted write goes to a slot that holds no unread word. */
  lemma WriteOverwritesNothingUnread(mem: seq<Word>, depth: int, ops: seq<Op>, i: nat)
    requires |mem| == 256 && depth in {2, 4, 8, 16, 32, 64, 128, 256}
    ensures var t := Run(Reset(mem, depth), ops);
      !Full(t.fifo) && |t.delivered| <= i < |t.written| ==>
        t.fifo.wptr % depth != i % depth && t.fifo.mem[i % depth] == t.written[i]
  {
    var t := Run(Reset(mem, depth), ops);
    RunKeepsInv(mem, depth, ops);
    FullIsCount(t);
    if !Full(t.fifo) && |t.delivered| <= i < |t.written| {
      ModOfMod(|t.written|, depth);
      ModDistinguishes(i, |t.written|, depth);
    }
  }

  /** An accepted read finds a word that was written and is the oldest unread one. */
  lemma ReadFindsOldestUnread(mem: seq<Word>, depth: int, ops: seq<Op>)
    requires |mem| == 256 && depth in {2, 4, 8, 16, 32, 64, 128, 256}
    ensures var t := Run(Reset(mem, depth), ops);
      !Empty(t.fifo) ==>
        && |t.delivered| < |t.written|
        && t.fifo.mem[t.fifo.rptr % depth] == t.written[|t.delivered|]
  {
    var t := Run(Reset(mem, depth), ops);
    RunKeepsInv(mem, depth, ops);
    EmptyIsCount(t);
    ModOfMod(|t.delivered|, depth);
  }

  /** A write is accepted exactly if fewer than depth words are beyond the reads the writer sees. */
  lemma WriteAcceptedExactly(mem: seq<Word>, depth: int, ops: seq<Op>, value: Word)
    requires |mem| == 256 && depth in {2, 4, 8, 16, 32, 64, 128, 256}
    ensures var t := Run(Reset(mem, depth), ops);
      Step(t, DoWrite(value)).written == if |t.written| < t.rs2 + depth then t.written + [value] else t.written
  {
    RunKeepsInv(mem, depth, ops);
    FullIsCount(Run(Reset(mem, depth), ops));
  }

  /** A read is accepted exactly if the reader sees a word that it has not read. */
  lemma ReadAcceptedExactly(mem: seq<Word>, depth: int, ops: seq<Op>)
    requires |mem| == 256 && depth in {2, 4, 8, 16, 32, 64, 128, 256}
    ensures var t := Run(Reset(mem, depth), ops);
      |t.delivered| <= t.ws2 <= |t.written| &&
      Step(t, DoRead).delivered ==
        if |t.delivered| < t.ws2 then t.delivered + [t.written[|t.delivered|]] else t.delivered
  {
    var t := Run(Reset(mem, depth), ops);
    RunKeepsInv(mem, depth, ops);
    EmptyIsCount(t);
    ModOfMod(|t.delivered|, depth);
  }

  /** Two remote clocks in a row bring each flag up to date. */
  lemma FlagsExactAfterTwoClocks(mem: seq<Word>, depth: int, ops: seq<Op>)
    requires |mem| == 256 && depth in {2, 4, 8, 16, 32, 64, 128, 256}
    ensures var t := Run(Reset(mem, depth), ops);
      && (Full(WriteClock(WriteClock(t.fifo))) <==> |t.written| - |t.delivered| == depth)
      && (Empty(ReadClock(ReadClock(t.fifo))) <==> |t.written| == |t.delivered|)
  {
    var t := Run(Reset(mem, depth), ops);
    RunKeepsInv(mem, depth, ops);
    StepKeepsInv(t, DoWriteClock);
    StepKeepsInv(Step(t, DoWriteClock), DoWriteClock);
    FullIsCount(Step(Step(t, DoWriteClock), DoWriteClock));
    StepKeepsInv(t, DoReadClock);
    StepKeepsInv(Step(t, DoReadClock), DoReadClock);
    EmptyIsCount(Step(Step(t, DoReadClock), DoReadClock));
  }

  // ---------- the FIFO in memory ----------

  class Fifo {
    const mem: array<Word>
    var wptr: Word
    var rptr: Word
    var writeSync1: Word
    var writeSync2: Word
    var readSync1: Word
    var readSync2: Word
    var depth: int

    ghost function Value(): State
      reads this, mem
    {
      State(mem[..], wptr, rptr, writeSync1, writeSync2, readSync1, readSync2, depth)
    }

    /** Both domains reset together. */
    constructor (depth: int)
      ensures mem.Length == MEM_SIZE && fresh(mem)
      ensures Value() == Reset(mem[..], depth).fifo
    {
      mem := new Word[MEM_SIZE];
      wptr, rptr, writeSync1, writeSync2, readSync1, readSync2 := 0, 0, 0, 0, 0, 0;
      this.depth := depth;
    }

    method IsFull() returns (full: bool)
      ensures full == Full(Value())
      ensures depth !in {2, 4, 8, 16, 32, 64, 128, 256} ==> !full
    {
      ValidDepthExactly(depth);
      if !ValidDepth(depth) { return false; }
      var addressBits := 0;
      var d := depth;
      while d > 1
        invariant d >= 0
        invariant addressBits + AddressBits(d) == AddressBits(depth)
      {
        d := d / 2;
        addressBits := addressBits + 1;
      }
      AddressBitsPositive(depth);
      var wrapMask := Or(Pow2(addressBits), Pow2(addressBits - 1));
      return Gray(wptr) == Xor(readSync2, wrapMask);
    }

    method WriteTick()
      modifies this
      ensures Value() == WriteClock(old(Value()))
    {
      GrayIsWord(rptr);
      readSync2 := readSync1;
      readSync1 := Gray(rptr);
    }

    method ReadTick()
      modifies this
      ensures Value() == ReadClock(old(Value()))
    {
      GrayIsWord(wptr);
      writeSync2 := writeSync1;
      writeSync1 := Gray(wptr);
    }

    /** Returns 0 for an accepted write and -1 for a rejected one. */
    method TryWrite(value: Word) returns (r: int)
      requires mem.Length == MEM_SIZE
      modifies this, mem
      ensures Value() == Write(old(Value()), value)
      ensures r == if depth !in {2, 4, 8, 16, 32, 64, 128, 256} || old(Full(Value())) then -1 else 0
      ensures r == -1 ==> Value() == old(Value())
    {
      ValidDepthExactly(depth);
      var full := IsFull();
      if !ValidDepth(depth) || full { return -1; }
      mem[wptr % depth] := value;
      wptr := (wptr + 1) % TWO_32 % (2 * depth);
      return 0;
    }

    /** Returns 0 and the word for an accepted read, -1 and the caller's value for a rejected one. */
    method TryRead(was: Word) returns (r: int, value: Word)
      requires mem.Length == MEM_SIZE
      modifies this
      ensures Value() == Read(old(Value()))
      ensures r == if depth !in {2, 4, 8, 16, 32, 64, 128, 256} || old(Empty(Value())) then -1 else 0
      ensures r == -1 ==> Value() == old(Value())
      ensures value == if r == 0 then old(mem[rptr % depth]) else was
    {
      ValidDepthExactly(depth);
      if !ValidDepth(depth) || (writeSync2 == Gray(rptr)) { return -1, was; }
      value := mem[rptr % depth];
      rptr := (rptr + 1) % TWO_32 % (2 * depth);
      return 0, value;
    }
  }

  // ---------- peak backlog ----------

  /** Writes minus reads in the ticks from `from` up to `to`. */
  function Net(writes: seq<int>, drains: seq<int>, from: nat, to: nat): int
    requires from <= to <= |writes| && to <= |drains|
  {
    if from == to then 0 else Net(writes, drains, from, to - 1) + writes[to - 1] - drains[to - 1]
  }

  /** The largest net of all windows. */
  ghost predicate IsPeak(writes: seq<int>, drains: seq<int>, clocks: nat, peak: int)
    requires clocks <= |writes| && clocks <= |drains|
  {
    && (forall i, j | 0 <= i <= j <= clocks :: Net(writes, drains, i, j) <= peak)
    && (exists i, j :: 0 <= i <= j <= clocks && Net(writes, drains, i, j) == peak)
  }

  /** The largest excess of writes over reads in any window of consecutive ticks. */
  method PeakBacklog(writes: seq<int>, drains: seq<int>, clocks: int) returns (peak: int)
    requires clocks <= |writes| && clocks <= |drains|
    ensures clocks < 0 ==> peak == -1
    ensures peak == -1 <==>
      (clocks < 0 || exists t: nat :: t < clocks && !(writes[t] in {0, 1} && drains[t] in {0, 1}))
    ensures peak != -1 ==> IsPeak(writes, drains, clocks, peak)
  {
    if clocks < 0 { return -1; }
    var backlog := 0;
    peak := 0;
    ghost var start := 0;                     // backlog is the net of the window from start
    ghost var lo, hi := 0, 0;                 // peak is the net of the window from lo to hi
    for tick := 0 to clocks
      invariant forall t: nat | t < tick :: writes[t] in {0, 1} && drains[t] in {0, 1}
      invariant 0 <= start <= tick && backlog == Net(writes, drains, start, tick)
      invariant forall i | 0 <= i <= tick :: Net(writes, drains, i, tick) <= backlog
      invariant 0 <= lo <= hi <= tick && peak == Net(writes, drains, lo, hi) >= 0
      invariant forall i, j | 0 <= i <= j <= tick :: Net(writes, drains, i, j) <= peak
    {
      if (writes[tick] != 0 && writes[tick] != 1) || (drains[tick] != 0 && drains[tick] != 1) {
        assert !(writes[tick] in {0, 1} && drains[tick] in {0, 1});
        return -1;
      }
      backlog := backlog + writes[tick] - drains[tick];
      if backlog < 0 { backlog, start := 0, tick + 1; }
      if backlog > peak { peak, lo, hi := backlog, start, tick + 1; }
    }
  }

  /**
   Words held at the end of each tick by a queue without a limit. A word written in a tick can
   be read in it, and a read of an empty queue does nothing.
   */
  function Occupancy(writes: seq<int>, drains: seq<int>, t: nat): nat
    requires t <= |writes| && t <= |drains|
  {
    if t == 0 then 0
    else
      var arrived := Occupancy(writes, drains, t - 1) + if writes[t - 1] != 0 then 1 else 0;
      if drains[t - 1] != 0 && arrived > 0 then arrived - 1 else arrived
  }

  ghost predicate ValidTicks(writes: seq<int>, drains: seq<int>, clocks: nat)
    requires clocks <= |writes| && clocks <= |drains|
  {
    forall t: nat | t < clocks :: writes[t] in {0, 1} && drains[t] in {0, 1}
  }

  /** The occupancy is the largest excess of writes over reads in a window that ends now. */
  lemma {:induction false} OccupancyIsLargestNet(writes: seq<int>, drains: seq<int>, t: nat) returns (start: nat)
    requires t <= |writes| && t <= |drains| && ValidTicks(writes, drains, t)
    ensures start <= t && Net(writes, drains, start, t) == Occupancy(writes, drains, t)
    ensures forall i | 0 <= i <= t :: Net(writes, drains, i, t) <= Occupancy(writes, drains, t)
  {
    if t == 0 {
      start := 0;
    } else {
      start := OccupancyIsLargestNet(writes, drains, t - 1);
      assert writes[t - 1] in {0, 1} && drains[t - 1] in {0, 1};
      if Net(writes, drains, start, t) < 0 { start := t; }
    }
  }

  /** A queue of a given depth never overflows under the schedule exactly if it holds the peak. */
  lemma PeakIsDepthNeeded(writes: seq<int>, drains: seq<int>, clocks: nat, peak: int, depth: nat)
    requires clocks <= |writes| && clocks <= |drains| && ValidTicks(writes, drains, clocks)
    requires IsPeak(writes, drains, clocks, peak)
    ensures (forall t | 0 <= t <= clocks :: Occupancy(writes, drains, t) <= depth) <==> depth >= peak
  {
    forall t | 0 <= t <= clocks ensures Occupancy(writes, drains, t) <= peak {
      var start := OccupancyIsLargestNet(writes, drains, t);
    }
    var i, j :| 0 <= i <= j <= clocks && Net(writes, drains, i, j) == peak;
    var start := OccupancyIsLargestNet(writes, drains, j);
    assert Net(writes, drains, i, j) <= Occupancy(writes, drains, j);
  }
}
