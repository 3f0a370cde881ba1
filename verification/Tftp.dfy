/**
 * The lock-step transfer of etc/tftpd.c (RFC 783, sections 2 and 6): `sendfile` running
 * against `recvfile` over a network that may lose, repeat and reorder packets.
 *
 * Each side has one buffer for the packet it last wrote and the packet it last read, and
 * converts the header it reads to host byte order in place. After a timeout it writes the
 * buffer again, whatever is in it by then.
 */
module Tftp {

  const SEGSIZE := 512
  const REXMTVAL := 5
  const MAXTIMEOUT := 25

  const DATA: Word := 3
  const ACK: Word := 4
  const ERROR: Word := 5

  /** From this block on the number in a header, which is a short, is not the number counted. */
  const LIMIT := 0x8000

  type Word = w: int | 0 <= w < 0x1_0000

  /** The value of a short. */
  function Signed(w: Word): int {
    if w < 0x8000 then w else w - 0x1_0000
  }

  /** A packet: opcode and block number as read in network byte order, and what follows them. */
  datatype Packet = Packet(op: Word, block: Word, data: seq<int>)

  /** In-place conversion between network and host byte order, on either kind of machine. */
  function Swap(little: bool, w: Word): Word {
    if little then (w % 256) * 256 + w / 256 else w
  }

  lemma SwapTwice(little: bool, w: Word)
    ensures Swap(little, Swap(little, w)) == w
  {
  }

  /**
   * CutShort: `recvfile` has ended as at the end of a file, but its last write to the file wrote
   * less than was asked for. Starting: `sendfile` has not read the file yet.
   */
  datatype Phase = Starting | Running | Finished | CutShort | Aborted

  /** The sender's variables; `buf` is what the next write would put on the wire. */
  datatype Sender = Sender(phase: Phase, block: nat, size: nat, timeout: nat, buf: Packet)

  /** The receiver's variables and the file written so far. */
  datatype Receiver = Receiver(phase: Phase, block: nat, timeout: nat, buf: Packet, file: seq<int>)

  /** `toR` and `toS` hold every packet ever written; any of them may arrive any number of times, or never. */
  datatype State = State(s: Sender, r: Receiver, toR: set<Packet>, toS: set<Packet>)

  /** What is being transferred, and on what kind of machines. */
  datatype Job = Job(source: seq<int>, littleS: bool, littleR: bool)
  {
    /** The number of the last block, which is shorter than SEGSIZE and possibly empty. */
    function Blocks(): nat {
      |source| / SEGSIZE + 1
    }

    function Cut(n: nat): (m: nat)
      ensures m <= |source|
    {
      if n <= |source| then n else |source|
    }

    /** The bytes that reading the file yields for block b. */
    function Chunk(b: nat): (c: seq<int>)
      requires b >= 1
      ensures |c| <= SEGSIZE
    {
      source[Cut(SEGSIZE * (b - 1))..Cut(SEGSIZE * b)]
    }

    /** The first n blocks of the file. */
    function Upto(n: nat): seq<int> {
      source[..Cut(SEGSIZE * n)]
    }
  }

  // ----- the steps

  datatype Step =
    | SenderStarts(ok: bool)           // the first block is read from the file, or cannot be
    | SenderReads(p: Packet)           // a packet arrives
    | SenderReadsLate(p: Packet)       // a packet arrives, and the alarm goes off before it is looked at
    | SenderAlarm                      // the alarm goes off
    | SenderFails(p: Packet)           // an acknowledgement arrives, and the file cannot be read on
    | SenderBreaks                     // the network cannot be read or written
    | ReceiverReads(p: Packet)
    | ReceiverReadsLate(p: Packet)
    | ReceiverAlarm
    | ReceiverFails(p: Packet)         // the block arrives, and cannot be written to the file
    | ReceiverBreaks                   // the network cannot be read or written
    | ReceiverShort(p: Packet, n: nat) // the block arrives, and only n bytes of it are written

  /** The buffer after packet p was read over it. */
  function Overwrite(buf: Packet, p: Packet): Packet {
    Packet(p.op, p.block, if |p.data| >= |buf.data| then p.data[..|buf.data|] else p.data + buf.data[|p.data|..])
  }

  function Converted(little: bool, p: Packet): Packet {
    Packet(Swap(little, p.op), Swap(little, p.block), p.data)
  }

  function SendBlock(j: Job, st: State, b: nat): State
    requires b >= 1
  {
    var p := Packet(DATA, b % 0x1_0000, j.Chunk(b));
    State(Sender(Running, b, |j.Chunk(b)|, 0, p), st.r, st.toR + {p}, st.toS)
  }

  /** The receiver writes an acknowledgement, taking its buffer for it. */
  function Acknowledge(st: State, b: Word, phase: Phase, next: nat, file: seq<int>): State {
    var p := Packet(ACK, b, []);
    State(st.s, Receiver(phase, next, 0, p, file), st.toR, st.toS + {p})
  }

  function SenderTimer(st: State, buf: Packet): State {
    var t := st.s.timeout + REXMTVAL;
    if t >= MAXTIMEOUT then st.(s := st.s.(phase := Aborted, timeout := t, buf := buf))
    else st.(s := st.s.(timeout := t, buf := buf), toR := st.toR + {buf})
  }

  function ReceiverTimer(st: State, buf: Packet): State {
    var t := st.r.timeout + REXMTVAL;
    var header := Packet(buf.op, buf.block, []);
    if t >= MAXTIMEOUT then st.(r := st.r.(phase := Aborted, timeout := t, buf := header))
    else st.(r := st.r.(timeout := t, buf := header), toS := st.toS + {header})
  }

  predicate Acknowledged(s: Sender, p: Packet) {
    p.op == ACK && Signed(p.block) == s.block
  }

  predicate Awaited(r: Receiver, p: Packet) {
    p.op == DATA && Signed(p.block) == r.block
  }

  predicate Enabled(j: Job, st: State, step: Step) {
    match step
    case SenderStarts(_) => st.s.phase == Starting
    case SenderReads(p) => st.s.phase == Running && p in st.toS
    case SenderReadsLate(p) => st.s.phase == Running && p in st.toS
    case SenderAlarm => st.s.phase == Running
    case SenderFails(p) => st.s.phase == Running && p in st.toS && Acknowledged(st.s, p) && st.s.size == SEGSIZE
    case SenderBreaks => st.s.phase == Running
    case ReceiverReads(p) => st.r.phase == Running && p in st.toR
    case ReceiverReadsLate(p) => st.r.phase == Running && p in st.toR
    case ReceiverAlarm => st.r.phase == Running
    case ReceiverFails(p) => st.r.phase == Running && p in st.toR && Awaited(st.r, p)
    case ReceiverBreaks => st.r.phase == Running
    case ReceiverShort(p, n) => st.r.phase == Running && p in st.toR && Awaited(st.r, p) && n < |p.data|
  }

  function SenderLooksAt(j: Job, st: State, p: Packet): State
  {
    if p.op == ERROR then st.(s := st.s.(phase := Aborted))
    else if !Acknowledged(st.s, p) then st.(s := st.s.(buf := Overwrite(st.s.buf, Converted(j.littleS, p))))
    else if st.s.size == SEGSIZE then SendBlock(j, st, st.s.block + 1)
    else st.(s := st.s.(phase := Finished, block := st.s.block + 1))
  }

  function ReceiverLooksAt(j: Job, st: State, p: Packet): State {
    if p.op == ERROR then Acknowledge(st, st.r.block % 0x1_0000, Aborted, st.r.block, st.r.file)
    else if !Awaited(st.r, p) then
      st.(r := st.r.(buf := Packet(Swap(j.littleR, p.op), Swap(j.littleR, p.block), [])))
    else if |p.data| == SEGSIZE then Acknowledge(st, p.block, Running, st.r.block + 1, st.r.file + p.data)
    else Acknowledge(st, p.block, Finished, st.r.block, st.r.file + p.data)
  }

  function Apply(j: Job, st: State, step: Step): State
  {
    match step
    case SenderStarts(ok) =>
      if ok then SendBlock(j, st, 1) else State(st.s.(phase := Aborted), st.r, st.toR + {Packet(ERROR, 0, [])}, st.toS)
    case SenderReads(p) => SenderLooksAt(j, st, p)
    case SenderReadsLate(p) => SenderTimer(st, Overwrite(st.s.buf, p))
    case SenderAlarm => SenderTimer(st, st.s.buf)
    case SenderFails(p) =>
      State(st.s.(phase := Aborted), st.r, st.toR + {Packet(ERROR, 0, [])}, st.toS)
    case SenderBreaks => st.(s := st.s.(phase := Aborted))
    case ReceiverReads(p) => ReceiverLooksAt(j, st, p)
    case ReceiverReadsLate(p) => ReceiverTimer(st, p)
    case ReceiverAlarm => ReceiverTimer(st, st.r.buf)
    case ReceiverFails(_) =>
      Acknowledge(st.(toS := st.toS + {Packet(ERROR, 0, [0])}), st.r.block % 0x1_0000, Aborted, st.r.block, st.r.file)
    case ReceiverBreaks => Acknowledge(st, st.r.block % 0x1_0000, Aborted, st.r.block, st.r.file)
    case ReceiverShort(p, n) =>
      Acknowledge(st, p.block, CutShort, st.r.block,
                  st.r.file + p.data[..if n <= |p.data| then n else |p.data|])
  }

  function Start(j: Job): State
  {
    var none := Packet(0, 0, []);
    var empty := State(Sender(Starting, 1, 0, 0, none), Receiver(Running, 1, 0, none, []), {}, {});
    Acknowledge(empty, 0, Running, 1, [])
  }

  /** A run is a sequence of enabled steps from the start. */
  ghost predicate IsRun(j: Job, steps: seq<Step>)
    decreases |steps|
  {
    steps == [] ||
    (IsRun(j, steps[..|steps| - 1]) && Enabled(j, After(j, steps[..|steps| - 1]), steps[|steps| - 1]))
  }

  ghost function After(j: Job, steps: seq<Step>): State
    decreases |steps|
  {
    if steps == [] then Start(j) else Apply(j, After(j, steps[..|steps| - 1]), steps[|steps| - 1])
  }

  // ----- what every run keeps

  /**
   * A header is harmless, read as it is or in the other byte order: if it acknowledges a
   * block then that block has been received, if it announces one then that block has been sent.
   */
  ghost predicate Harmless(j: Job, p: Packet, sent: nat, received: nat) {
    && HeaderFits(p.op, p.block, sent, received)
    && HeaderFits(Swap(true, p.op), Swap(true, p.block), sent, received)
  }

  ghost predicate HeaderFits(op: Word, block: Word, sent: nat, received: nat) {
    && (op == ACK ==> block <= received)
    && (op == DATA ==> 1 <= block <= sent)
  }

  /** A packet that the receiver might take for a block not yet received holds that block's bytes. */
  ghost predicate Truthful(j: Job, p: Packet, received: nat) {
    p.op == DATA && p.block > received ==> p.data == j.Chunk(p.block)
  }

  ghost predicate SenderOk(j: Job, s: Sender) {
    && 1 <= s.block <= LIMIT
    && (s.phase == Starting ==> s.block == 1)
    && s.timeout % REXMTVAL == 0
    && (s.phase != Finished ==> s.block <= j.Blocks())
    && (s.phase == Running ==>
          && s.timeout < MAXTIMEOUT
          && s.size == |j.Chunk(s.block)|
          && |s.buf.data| == s.size)
    && (s.phase == Finished ==> s.block == j.Blocks() + 1)
  }

  function Received(r: Receiver): nat
    requires r.block >= 1
  {
    if r.phase == Finished then r.block else r.block - 1
  }

  /** While the receiver has not given up. */
  ghost predicate InStep(j: Job, st: State) {
    && 1 <= st.r.block <= j.Blocks()
    && 1 <= st.s.block
    && Received(st.r) < LIMIT
    && var received := Received(st.r);
    && st.r.timeout < MAXTIMEOUT
    && (st.r.phase == Finished ==> st.r.block == j.Blocks())
    && st.r.file == j.Upto(received)
    && st.s.block - 1 <= received
    && received <= st.s.block
    && Harmless(j, st.s.buf, st.s.block, received)
    && Harmless(j, st.r.buf, st.s.block, received)
    && (st.s.phase == Running ==> st.s.buf.data == j.Chunk(st.s.block))
    && (forall p :: p in st.toR ==> Harmless(j, p, st.s.block, received) && Truthful(j, p, received))
    && (forall p :: p in st.toS ==> Harmless(j, p, st.s.block, received) && p.data == [])
  }

  ghost predicate Inv(j: Job, st: State) {
    && SenderOk(j, st.s)
    && (!GaveUp(st.r) ==> InStep(j, st))
    && (GaveUp(st.r) ==> LeftBehind(j, st))
  }

  predicate GaveUp(r: Receiver) {
    r.phase == Aborted || r.phase == CutShort
  }

  /** After the receiver gave up: it may have acknowledged the one block it was waiting for. */
  ghost predicate LeftBehind(j: Job, st: State) {
    && 1 <= st.r.block <= j.Blocks()
    && st.r.block <= LIMIT && (st.r.phase == CutShort ==> st.r.block < LIMIT)
    && (st.r.phase == Aborted ==> st.r.file == j.Upto(st.r.block - 1))
    && (st.r.phase == CutShort ==> PartOf(j, st.r.block, st.r.file))
    && st.s.block <= st.r.block + 1
    && (forall p :: p in st.toS && p.op == ACK ==> p.block <= st.r.block)
  }

  /** The blocks before b, and not quite all of b. */
  ghost predicate PartOf(j: Job, b: nat, file: seq<int>)
    requires b >= 1
  {
    exists n: nat :: n < |j.Chunk(b)| && file == j.Upto(b - 1) + j.Chunk(b)[..n]
  }

  lemma PartIsLess(j: Job, b: nat, file: seq<int>)
    requires 1 <= b <= j.Blocks() && PartOf(j, b, file)
    ensures file <= j.source && file != j.source
  {
    ChunkFacts(j, b);
    var n: nat :| n < |j.Chunk(b)| && file == j.Upto(b - 1) + j.Chunk(b)[..n];
    assert file <= j.Upto(b) <= j.source && |file| < |j.Upto(b)|;
  }

  lemma ChunkFacts(j: Job, b: nat)
    requires 1 <= b <= j.Blocks()
    ensures |j.Chunk(b)| == SEGSIZE <==> b < j.Blocks()
    ensures j.Upto(b - 1) + j.Chunk(b) == j.Upto(b)
    ensures j.Upto(j.Blocks()) == j.source
  {
    assert SEGSIZE * (|j.source| / SEGSIZE) <= |j.source| < SEGSIZE * (|j.source| / SEGSIZE + 1);
  }

  lemma StartInv(j: Job)
    ensures Inv(j, Start(j))
  {
    ChunkFacts(j, 1);
    assert j.Upto(0) == [];
  }

  lemma HarmlessSwapped(j: Job, little: bool, p: Packet, data: seq<int>, sent: nat, received: nat)
    requires Harmless(j, p, sent, received)
    ensures Harmless(j, Packet(Swap(little, p.op), Swap(little, p.block), data), sent, received)
  {
    SwapTwice(true, p.op);
    SwapTwice(true, p.block);
  }

  lemma AllLater(j: Job, st: State, sent: nat, received: nat)
    requires InStep(j, st) && st.s.block <= sent && Received(st.r) <= received
    ensures forall p :: p in st.toR ==> Harmless(j, p, sent, received) && Truthful(j, p, received)
    ensures forall p :: p in st.toS ==> Harmless(j, p, sent, received)
    ensures Harmless(j, st.s.buf, sent, received) && Harmless(j, st.r.buf, sent, received)
  {
  }

  lemma SenderStartsKeeps(j: Job, st: State, ok: bool)
    requires Inv(j, st) && st.s.phase == Starting
    ensures Inv(j, Apply(j, st, SenderStarts(ok)))
  {
  }

  lemma NextBlockInStep(j: Job, st: State)
    requires InStep(j, st) && st.s.phase == Running && st.s.block == Received(st.r) < j.Blocks()
    ensures InStep(j, SendBlock(j, st, st.s.block + 1))
  {
    AllLater(j, st, st.s.block + 1, Received(st.r));
  }

  lemma NextBlockLeftBehind(j: Job, st: State)
    requires LeftBehind(j, st) && st.s.block <= st.r.block
    ensures LeftBehind(j, SendBlock(j, st, st.s.block + 1))
  {
  }

  /** The sender moves on to the next block. */
  lemma SendBlockKeeps(j: Job, st: State)
    requires Inv(j, st) && st.s.phase == Running && st.s.size == SEGSIZE
    requires st.s.block < LIMIT && st.s.block <= if GaveUp(st.r) then st.r.block else Received(st.r)
    ensures Inv(j, SendBlock(j, st, st.s.block + 1))
  {
    hide InStep, LeftBehind;
    ChunkFacts(j, st.s.block);
    if GaveUp(st.r) {
      NextBlockLeftBehind(j, st);
    } else {
      AllAcknowledged(j, st);
      NextBlockInStep(j, st);
    }
  }

  lemma SenderTimerKeeps(j: Job, st: State, buf: Packet)
    requires Inv(j, st) && st.s.phase == Running
    requires |buf.data| == st.s.size
    requires !GaveUp(st.r) ==>
      Harmless(j, buf, st.s.block, Received(st.r)) && buf.data == j.Chunk(st.s.block)
    ensures Inv(j, SenderTimer(st, buf))
  {
    hide InStep, LeftBehind;
    if GaveUp(st.r) {
      TimerLeftBehind(j, st, buf);
    } else {
      TimerInStep(j, st, buf);
    }
  }

  lemma TimerLeftBehind(j: Job, st: State, buf: Packet)
    requires LeftBehind(j, st)
    ensures LeftBehind(j, SenderTimer(st, buf))
  {
    hide PartOf;
  }

  lemma TimerInStep(j: Job, st: State, buf: Packet)
    requires InStep(j, st) && st.s.phase == Running
    requires Harmless(j, buf, st.s.block, Received(st.r)) && buf.data == j.Chunk(st.s.block)
    ensures InStep(j, SenderTimer(st, buf))
  {
    hide Swap;
  }

  /** The sender reads something else than the acknowledgement it waits for. */
  lemma SenderPassesOver(j: Job, st: State, p: Packet)
    requires Inv(j, st) && Enabled(j, st, SenderReads(p))
    requires p.op != ERROR && !Acknowledged(st.s, p)
    ensures Inv(j, SenderLooksAt(j, st, p))
  {
    if !GaveUp(st.r) {
      HarmlessSwapped(j, j.littleS, p, st.s.buf.data, st.s.block, Received(st.r));
      assert Overwrite(st.s.buf, Converted(j.littleS, p)).data == st.s.buf.data;
    }
  }

  lemma SenderEnds(j: Job, st: State, p: Packet)
    requires Inv(j, st) && Enabled(j, st, SenderReads(p))
    requires p.op != ERROR && Acknowledged(st.s, p) && st.s.size != SEGSIZE
    ensures Inv(j, SenderLooksAt(j, st, p))
  {
    ChunkFacts(j, st.s.block);
    if !GaveUp(st.r) {
      AllLater(j, st, st.s.block + 1, Received(st.r));
    }
  }

  lemma AcknowledgedIsReceived(j: Job, st: State, p: Packet)
    requires Inv(j, st) && Enabled(j, st, SenderReads(p)) && Acknowledged(st.s, p)
    ensures st.s.block < LIMIT && st.s.block <= if GaveUp(st.r) then st.r.block else Received(st.r)
  {
  }

  lemma SenderReadsKeeps(j: Job, st: State, p: Packet)
    requires Inv(j, st) && Enabled(j, st, SenderReads(p))
    ensures Inv(j, SenderLooksAt(j, st, p))
  {
    hide Inv, Acknowledged, SendBlock;
    if p.op == ERROR {
      SenderGivesUp(j, st, SenderBreaks);
    } else if !Acknowledged(st.s, p) {
      SenderPassesOver(j, st, p);
    } else if st.s.size == SEGSIZE {
      AcknowledgedIsReceived(j, st, p);
      SendBlockKeeps(j, st);
    } else {
      SenderEnds(j, st, p);
    }
  }

  lemma ReceiverPassesOver(j: Job, st: State, p: Packet)
    requires Inv(j, st) && Enabled(j, st, ReceiverReads(p))
    requires p.op != ERROR && !Awaited(st.r, p)
    ensures Inv(j, ReceiverLooksAt(j, st, p))
  {
    hide Harmless, Truthful, SenderOk, Awaited, Swap;
    HarmlessSwapped(j, j.littleR, p, [], st.s.block, Received(st.r));
  }

  lemma ReceiverAccepts(j: Job, st: State, p: Packet)
    requires Inv(j, st) && Enabled(j, st, ReceiverReads(p))
    requires Awaited(st.r, p)
    ensures Inv(j, ReceiverLooksAt(j, st, p))
  {
    hide SenderOk, HeaderFits, Swap;
    AwaitedIsSent(j, st, p);
    ChunkFacts(j, p.block);
    AllLater(j, st, st.s.block, p.block);
    AcknowledgementIsHarmless(j, st, p);
  }

  lemma AwaitedIsSent(j: Job, st: State, p: Packet)
    requires Inv(j, st) && Enabled(j, st, ReceiverReads(p)) && Awaited(st.r, p)
    ensures p.block == st.r.block < LIMIT && p.data == j.Chunk(p.block) && p.block == st.s.block
  {
    assert Truthful(j, p, Received(st.r));
  }

  lemma AcknowledgementIsHarmless(j: Job, st: State, p: Packet)
    requires Inv(j, st) && Enabled(j, st, ReceiverReads(p)) && Awaited(st.r, p)
    ensures Harmless(j, Packet(ACK, p.block, []), st.s.block, p.block)
  {
  }

  lemma ReceiverReadsKeeps(j: Job, st: State, p: Packet)
    requires Inv(j, st) && Enabled(j, st, ReceiverReads(p))
    ensures Inv(j, ReceiverLooksAt(j, st, p))
  {
    hide Inv, Awaited, Acknowledge;
    if p.op == ERROR {
      ReceiverGivesUp(j, st, ReceiverBreaks);
    } else if !Awaited(st.r, p) {
      ReceiverPassesOver(j, st, p);
    } else {
      ReceiverAccepts(j, st, p);
    }
  }

  lemma ReceiverTimerKeeps(j: Job, st: State, buf: Packet)
    requires Inv(j, st) && st.r.phase == Running
    requires Harmless(j, buf, st.s.block, Received(st.r))
    ensures Inv(j, ReceiverTimer(st, buf))
  {
    var header := Packet(buf.op, buf.block, []);
    assert Harmless(j, header, st.s.block, Received(st.r));
  }

  lemma SenderGivesUp(j: Job, st: State, step: Step)
    requires Inv(j, st) && Enabled(j, st, step) && (step.SenderFails? || step.SenderBreaks?)
    ensures Inv(j, Apply(j, st, step))
  {
  }

  lemma AllAcknowledged(j: Job, st: State)
    requires InStep(j, st)
    ensures 1 <= st.r.block <= j.Blocks() && Received(st.r) < LIMIT && st.r.file == j.Upto(Received(st.r))
    ensures st.s.block - 1 <= Received(st.r) <= st.s.block
    ensures forall p :: p in st.toS && p.op == ACK ==> p.block <= Received(st.r)
  {
  }

  /** The receiver gives up; its farewell acknowledges the block that it waits for. */
  lemma FarewellKeeps(j: Job, st: State, toS: set<Packet>)
    requires Inv(j, st) && st.r.phase == Running
    requires forall p :: p in toS && p.op == ACK ==> p in st.toS
    ensures Inv(j, Acknowledge(st.(toS := toS), st.r.block % 0x1_0000, Aborted, st.r.block, st.r.file))
  {
    hide InStep, SenderOk;
    AllAcknowledged(j, st);
  }

  lemma ReceiverGivesUp(j: Job, st: State, step: Step)
    requires Inv(j, st) && Enabled(j, st, step) && (step.ReceiverFails? || step.ReceiverBreaks?)
    ensures Inv(j, Apply(j, st, step))
  {
    hide Inv, Acknowledge;
    FarewellKeeps(j, st, if step.ReceiverFails? then st.toS + {Packet(ERROR, 0, [0])} else st.toS);
    assert st.(toS := st.toS) == st;
  }

  lemma SenderTimesOut(j: Job, st: State, step: Step)
    requires Inv(j, st) && Enabled(j, st, step) && (step.SenderReadsLate? || step.SenderAlarm?)
    ensures Inv(j, Apply(j, st, step))
  {
    hide SenderTimer;
    var buf := if step.SenderReadsLate? then Overwrite(st.s.buf, step.p) else st.s.buf;
    assert !GaveUp(st.r) ==> buf.data == st.s.buf.data;
    SenderTimerKeeps(j, st, buf);
  }

  lemma ReceiverTimesOut(j: Job, st: State, step: Step)
    requires Inv(j, st) && Enabled(j, st, step) && (step.ReceiverReadsLate? || step.ReceiverAlarm?)
    ensures Inv(j, Apply(j, st, step))
  {
    hide ReceiverTimer;
    ReceiverTimerKeeps(j, st, if step.ReceiverReadsLate? then step.p else st.r.buf);
  }

  lemma StepKeeps(j: Job, st: State, step: Step)
    requires Inv(j, st) && Enabled(j, st, step)
    ensures Inv(j, Apply(j, st, step))
  {
    hide Inv, SenderLooksAt, ReceiverLooksAt, SenderTimer, ReceiverTimer, SendBlock, Acknowledge;
    match step
    case SenderStarts(ok) => SenderStartsKeeps(j, st, ok);
    case SenderReads(p) => SenderReadsKeeps(j, st, p);
    case SenderReadsLate(_) => SenderTimesOut(j, st, step);
    case SenderAlarm => SenderTimesOut(j, st, step);
    case SenderFails(_) => SenderGivesUp(j, st, step);
    case SenderBreaks => SenderGivesUp(j, st, step);
    case ReceiverReads(p) => ReceiverReadsKeeps(j, st, p);
    case ReceiverReadsLate(_) => ReceiverTimesOut(j, st, step);
    case ReceiverAlarm => ReceiverTimesOut(j, st, step);
    case ReceiverFails(_) => ReceiverGivesUp(j, st, step);
    case ReceiverBreaks => ReceiverGivesUp(j, st, step);
    case ReceiverShort(p, n) => ReceiverShortKeeps(j, st, p, n);
  }

  lemma ReceiverShortKeeps(j: Job, st: State, p: Packet, n: nat)
    requires Inv(j, st) && Enabled(j, st, ReceiverShort(p, n))
    ensures Inv(j, Apply(j, st, ReceiverShort(p, n)))
  {
    assert Truthful(j, p, Received(st.r));
    assert p.data == j.Chunk(st.r.block);
    assert PartOf(j, st.r.block, st.r.file + p.data[..n]);
  }

  lemma {:induction false} RunInv(j: Job, steps: seq<Step>)
    requires IsRun(j, steps)
    ensures Inv(j, After(j, steps))
    decreases |steps|
  {
    if steps == [] {
      StartInv(j);
    } else {
      RunInv(j, steps[..|steps| - 1]);
      StepKeeps(j, After(j, steps[..|steps| - 1]), steps[|steps| - 1]);
    }
  }

  // ----- the theorems

  /** In every run the receiver's file is a prefix of the sender's. */
  lemma FileIsPrefix(j: Job, steps: seq<Step>)
    requires IsRun(j, steps)
    ensures After(j, steps).r.file <= j.source
  {
    RunInv(j, steps);
    var r := After(j, steps).r;
    if r.phase == CutShort {
      PartIsLess(j, r.block, r.file);
    }
  }

  predicate WritesShort(step: Step) {
    step.ReceiverShort?
  }

  lemma CutShortThen(j: Job, st: State, step: Step)
    requires Enabled(j, st, step)
    ensures Apply(j, st, step).r.phase == CutShort <==> st.r.phase == CutShort || WritesShort(step)
  {
  }

  /** Whether a write was short can be told from the steps. */
  lemma {:induction false} CutShortExactly(j: Job, steps: seq<Step>)
    requires IsRun(j, steps)
    ensures After(j, steps).r.phase == CutShort <==> exists i :: 0 <= i < |steps| && WritesShort(steps[i])
    decreases |steps|
  {
    hide Apply, Enabled, WritesShort;
    if steps != [] {
      var front, last := steps[..|steps| - 1], steps[|steps| - 1];
      CutShortExactly(j, front);
      CutShortThen(j, After(j, front), last);
      assert forall i :: 0 <= i < |front| ==> steps[i] == front[i];
      assert WritesShort(last) <==> WritesShort(steps[|steps| - 1]);
    }
  }

  /** A receiver that ends as at the end of a file has the whole file if and only if no write was short. */
  lemma ReceiverFinishedHasFile(j: Job, steps: seq<Step>)
    requires IsRun(j, steps)
    requires After(j, steps).r.phase == Finished || After(j, steps).r.phase == CutShort
    ensures After(j, steps).r.file == j.source <==> After(j, steps).r.phase == Finished
    ensures After(j, steps).r.file == j.source <==> forall i :: 0 <= i < |steps| ==> !WritesShort(steps[i])
  {
    RunInv(j, steps);
    ChunkFacts(j, j.Blocks());
    CutShortExactly(j, steps);
    var r := After(j, steps).r;
    if r.phase == CutShort {
      PartIsLess(j, r.block, r.file);
    }
  }

  /**
   * A sender that ends normally can rely on it if the receiver ends normally too. If the
   * receiver gave up, exactly the last block is missing from its file, or part of it.
   */
  lemma SenderFinished(j: Job, steps: seq<Step>)
    requires IsRun(j, steps)
    requires After(j, steps).s.phase == Finished
    ensures After(j, steps).r.phase != Running
    ensures After(j, steps).r.phase == Finished ==> After(j, steps).r.file == j.source
    ensures After(j, steps).r.phase == Aborted ==>
      After(j, steps).r.file + j.Chunk(j.Blocks()) == j.source
    ensures After(j, steps).r.phase == CutShort ==> PartOf(j, j.Blocks(), After(j, steps).r.file)
    ensures After(j, steps).r.file == j.source <==>
      After(j, steps).r.phase == Finished || (After(j, steps).r.phase == Aborted && j.Chunk(j.Blocks()) == [])
  {
    RunInv(j, steps);
    ChunkFacts(j, j.Blocks());
    var r := After(j, steps).r;
    if r.phase == CutShort {
      PartIsLess(j, r.block, r.file);
    }
  }

  /** Such a run: the receiver fails before any data arrives, and its farewell acknowledges block 1. */
  lemma SenderMisled()
    ensures var j := Job([7], true, true);
      var steps := [SenderStarts(true), ReceiverBreaks, SenderReads(Packet(ACK, 1, []))];
      && IsRun(j, steps)
      && After(j, steps).s.phase == Finished
      && After(j, steps).r.file == []
  {
    var j := Job([7], true, true);
    var a, b, c := SenderStarts(true), ReceiverBreaks, SenderReads(Packet(ACK, 1, []));
    var steps := [a, b, c];
    assert steps[..2] == [a, b] && [a, b][..1] == [a] && [a][..0] == [];
    assert IsRun(j, []) && IsRun(j, [a]) && IsRun(j, [a, b]);
    assert After(j, [a]) == SendBlock(j, Start(j), 1);
    assert After(j, [a, b]) == Apply(j, After(j, [a]), b);
  }

  // ----- when the transfer can complete

  /**
   * With LIMIT blocks or more neither side ever ends normally with the whole file: the number
   * of block LIMIT comes back negative.
   */
  lemma TooLong(j: Job, steps: seq<Step>)
    requires IsRun(j, steps) && j.Blocks() >= LIMIT
    ensures After(j, steps).s.phase != Finished && After(j, steps).r.phase != Finished
    ensures |After(j, steps).r.file| <= SEGSIZE * (LIMIT - 1)
  {
    RunInv(j, steps);
    var r := After(j, steps).r;
    if r.phase == CutShort {
      ChunkFacts(j, r.block);
    }
  }

  /** So it is with a file of 16776704 bytes. */
  lemma TooLongFile(j: Job, steps: seq<Step>)
    requires |j.source| == 16776704 && IsRun(j, steps)
    ensures j.Blocks() == LIMIT && After(j, steps).s.phase != Finished && After(j, steps).r.phase != Finished
  {
    TooLong(j, steps);
  }

  /** The run in which nothing is lost and nobody waits: each block arrives once and is acknowledged once. */
  ghost function Orderly(j: Job, rounds: nat): seq<Step> {
    if rounds == 0 then [SenderStarts(true)]
    else Orderly(j, rounds - 1) + [DataStep(j, rounds), AckStep(rounds)]
  }

  lemma TwoSteps(j: Job, steps: seq<Step>, a: Step, b: Step)
    requires IsRun(j, steps) && Enabled(j, After(j, steps), a)
    requires Enabled(j, Apply(j, After(j, steps), a), b)
    ensures IsRun(j, steps + [a, b])
    ensures After(j, steps + [a, b]) == Apply(j, Apply(j, After(j, steps), a), b)
  {
    hide Enabled, Apply;
    var one := steps + [a];
    assert one[..|one| - 1] == steps;
    assert IsRun(j, one) && After(j, one) == Apply(j, After(j, steps), a);
    var two := steps + [a, b];
    assert two[..|two| - 1] == one;
  }

  function DataStep(j: Job, b: nat): Step
    requires b >= 1
  {
    ReceiverReads(Packet(DATA, b % 0x1_0000, j.Chunk(b)))
  }

  function AckStep(b: nat): Step {
    SenderReads(Packet(ACK, b % 0x1_0000, []))
  }

  ghost predicate ReadyFor(j: Job, st: State, b: nat)
    requires b >= 1
  {
    && st.s.phase == Running == st.r.phase
    && st.s.block == b == st.r.block
    && st.s.size == |j.Chunk(b)|
    && Packet(DATA, b % 0x1_0000, j.Chunk(b)) in st.toR
  }

  lemma DataArrives(j: Job, st: State, b: nat)
    requires 1 <= b <= j.Blocks() < LIMIT && ReadyFor(j, st, b)
    ensures Enabled(j, st, DataStep(j, b))
    ensures var st' := Apply(j, st, DataStep(j, b));
      && st'.s == st.s
      && Packet(ACK, b % 0x1_0000, []) in st'.toS
      && st'.r.phase == (if b < j.Blocks() then Running else Finished)
      && (b < j.Blocks() ==> st'.r.block == b + 1)
  {
    ChunkFacts(j, b);
  }

  lemma AckArrives(j: Job, st: State, b: nat)
    requires 1 <= b <= j.Blocks() < LIMIT
    requires st.s.phase == Running && st.s.block == b && st.s.size == |j.Chunk(b)|
    requires Packet(ACK, b % 0x1_0000, []) in st.toS
    ensures Enabled(j, st, AckStep(b))
    ensures var st' := Apply(j, st, AckStep(b));
      && st'.r == st.r
      && if b < j.Blocks() then st' == SendBlock(j, st, b + 1) else st'.s.phase == Finished
  {
    ChunkFacts(j, b);
  }

  /** One block is sent, received and acknowledged; then either the next one is sent, or both sides are done. */
  lemma OneRound(j: Job, st: State, b: nat)
    requires 1 <= b <= j.Blocks() < LIMIT && ReadyFor(j, st, b)
    ensures var half := Apply(j, st, DataStep(j, b));
      var st' := Apply(j, half, AckStep(b));
      && Enabled(j, st, DataStep(j, b)) && Enabled(j, half, AckStep(b))
      && if b < j.Blocks() then ReadyFor(j, st', b + 1) else st'.s.phase == Finished == st'.r.phase
  {
    DataArrives(j, st, b);
    AckArrives(j, Apply(j, st, DataStep(j, b)), b);
  }

  lemma OrderlyStart(j: Job)
    requires 0 < j.Blocks()
    ensures IsRun(j, Orderly(j, 0)) && ReadyFor(j, After(j, Orderly(j, 0)), 1)
  {
    var one := [SenderStarts(true)];
    assert one[..0] == [];
    assert After(j, one) == SendBlock(j, Start(j), 1);
  }

  lemma {:induction false} OrderlyRound(j: Job, rounds: nat)
    requires rounds < j.Blocks() < LIMIT
    ensures IsRun(j, Orderly(j, rounds))
    ensures ReadyFor(j, After(j, Orderly(j, rounds)), rounds + 1)
  {
    hide IsRun, After, Apply, ReadyFor, Enabled, DataStep, AckStep;
    if rounds == 0 {
      OrderlyStart(j);
    } else {
      OrderlyRound(j, rounds - 1);
      OneRound(j, After(j, Orderly(j, rounds - 1)), rounds);
      TwoSteps(j, Orderly(j, rounds - 1), DataStep(j, rounds), AckStep(rounds));
    }
  }

  /** For every file of fewer than LIMIT blocks there is a run that ends normally on both sides. */
  lemma TransferCompletes(j: Job) returns (steps: seq<Step>)
    requires j.Blocks() < LIMIT
    ensures IsRun(j, steps)
    ensures After(j, steps).s.phase == Finished == After(j, steps).r.phase
    ensures After(j, steps).r.file == j.source
  {
    hide IsRun, After, Apply, ReadyFor, Enabled, DataStep, AckStep;
    var last := j.Blocks();
    OrderlyRound(j, last - 1);
    OneRound(j, After(j, Orderly(j, last - 1)), last);
    steps := Orderly(j, last);
    TwoSteps(j, Orderly(j, last - 1), DataStep(j, last), AckStep(last));
    ReceiverFinishedHasFile(j, steps);
  }

  ghost predicate Completes(j: Job, steps: seq<Step>) {
    IsRun(j, steps) && After(j, steps).s.phase == Finished == After(j, steps).r.phase
  }

  /** A file can be transferred if and only if it has fewer than LIMIT blocks. */
  lemma TransferExactly(j: Job)
    ensures (exists steps :: Completes(j, steps)) <==> j.Blocks() < LIMIT
  {
    if j.Blocks() < LIMIT {
      var steps := TransferCompletes(j);
      assert Completes(j, steps);
    } else {
      forall steps | IsRun(j, steps) ensures !Completes(j, steps) {
        TooLong(j, steps);
      }
    }
  }
}
