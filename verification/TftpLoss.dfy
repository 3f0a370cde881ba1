/**
 * Loss of packets in the transfer of etc/tftpd.c: what a timeout makes good, and what it does
 * not.
 */
module TftpLoss {
  import opened Tftp

  // ----- runs from any state

  ghost predicate IsRunFrom(j: Job, st: State, steps: seq<Step>)
    decreases |steps|
  {
    steps == [] || (Enabled(j, st, steps[0]) && IsRunFrom(j, Apply(j, st, steps[0]), steps[1..]))
  }

  ghost function AfterFrom(j: Job, st: State, steps: seq<Step>): State
    decreases |steps|
  {
    if steps == [] then st else AfterFrom(j, Apply(j, st, steps[0]), steps[1..])
  }

  lemma {:induction false} RunFromInv(j: Job, st: State, steps: seq<Step>)
    requires Inv(j, st) && IsRunFrom(j, st, steps)
    ensures Inv(j, AfterFrom(j, st, steps))
    decreases |steps|
  {
    hide Inv, Enabled, Apply;
    if steps != [] {
      StepKeeps(j, st, steps[0]);
      RunFromInv(j, Apply(j, st, steps[0]), steps[1..]);
    }
  }

  /** All packets on their way are lost. */
  function Lost(st: State): State {
    st.(toR := {}, toS := {})
  }

  lemma LostInv(j: Job, st: State)
    requires Inv(j, st)
    ensures Inv(j, Lost(st))
  {
  }

  /** Packets arrive, and nobody waits in vain. */
  predicate Prompt(steps: seq<Step>) {
    forall i :: 0 <= i < |steps| ==> steps[i].SenderReads? || steps[i].ReceiverReads?
  }

  /** Both sides end normally, and the whole file has been transferred. */
  ghost predicate Succeeds(j: Job, st: State, steps: seq<Step>) {
    && Prompt(steps) && IsRunFrom(j, st, steps)
    && var end := AfterFrom(j, st, steps);
    end.s.phase == Finished == end.r.phase && end.r.file == j.source
  }

  // ----- the lost packet is written again

  /** It is a block that was lost and not its acknowledgement: the receiver still waits for it. */
  predicate BlockLost(st: State) {
    st.r.block == st.s.block
  }

  /** The side whose packet was lost runs into its timeout. */
  function Retry(st: State): Step {
    if BlockLost(st) then SenderAlarm else ReceiverAlarm
  }

  /** It has one more timeout left, and nothing has been read over its packet. */
  predicate CanRetry(j: Job, st: State)
    requires st.s.block >= 1
  {
    if BlockLost(st) then
      st.s.timeout + 5 < 25 && st.s.buf.op == 3 && st.s.buf.block == st.s.block
    else
      st.r.timeout + 5 < 25 && st.r.buf.op == 4 && st.r.buf.block == st.s.block
  }

  /** From a block that is on its way the transfer can go on to its end. */
  lemma {:induction false} ReadyGoesOn(j: Job, st: State, b: nat) returns (steps: seq<Step>)
    requires 1 <= b <= j.Blocks() < LIMIT && ReadyFor(j, st, b) && Inv(j, st)
    ensures Succeeds(j, st, steps)
    decreases j.Blocks() - b
  {
    hide Apply, Enabled, Inv, ReadyFor;
    var one, two := DataStep(j, b), AckStep(b);
    OneRound(j, st, b);
    var half := Apply(j, st, one);
    var full := Apply(j, half, two);
    StepKeeps(j, st, one);
    StepKeeps(j, half, two);
    if b < j.Blocks() {
      var rest := ReadyGoesOn(j, full, b + 1);
      steps := rest;
    } else {
      steps := [];
      FinishedHasAll(j, full);
    }
    OneStepMore(j, half, two, steps);
    steps := [two] + steps;
    OneStepMore(j, st, one, steps);
    steps := [one] + steps;
  }

  lemma OneStepMore(j: Job, st: State, step: Step, rest: seq<Step>)
    requires Enabled(j, st, step) && (step.SenderReads? || step.ReceiverReads?)
    requires Succeeds(j, Apply(j, st, step), rest)
    ensures Succeeds(j, st, [step] + rest)
  {
    hide Enabled, Apply;
    assert ([step] + rest)[1..] == rest;
  }

  lemma FinishedHasAll(j: Job, st: State)
    requires Inv(j, st) && st.r.phase == Finished
    ensures st.r.file == j.source
  {
    ChunkFacts(j, j.Blocks());
  }

  /** After the timeout the packet is on its way again. */
  lemma BlockAgain(j: Job, st: State)
    requires Inv(j, st) && st.s.phase == Running == st.r.phase && j.Blocks() < LIMIT
    requires BlockLost(st) && CanRetry(j, st)
    ensures 1 <= st.s.block <= j.Blocks() && Enabled(j, st, SenderAlarm)
    ensures ReadyFor(j, Apply(j, st, SenderAlarm), st.s.block)
  {
    assert st.s.buf == Packet(DATA, st.s.block, j.Chunk(st.s.block));
  }

  lemma AcknowledgedAgain(j: Job, st: State)
    requires Inv(j, st) && st.s.phase == Running == st.r.phase && j.Blocks() < LIMIT
    requires !BlockLost(st) && CanRetry(j, st)
    ensures st.s.block < j.Blocks() && st.r.block == st.s.block + 1 && Enabled(j, st, ReceiverAlarm)
    ensures var now := Apply(j, st, ReceiverAlarm);
      && Enabled(j, now, AckStep(st.s.block))
      && ReadyFor(j, Apply(j, now, AckStep(st.s.block)), st.s.block + 1)
  {
    ChunkFacts(j, st.s.block);
    var ack := Packet(ACK, st.s.block, []);
    assert ack in Apply(j, st, ReceiverAlarm).toS;
  }

  lemma {:induction false} RetrySucceeds(j: Job, st: State) returns (steps: seq<Step>)
    requires Inv(j, st) && st.s.phase == Running == st.r.phase && j.Blocks() < LIMIT && CanRetry(j, st)
    ensures Enabled(j, st, Retry(st)) && Succeeds(j, Apply(j, st, Retry(st)), steps)
  {
    hide Inv, ReadyFor, Enabled, Apply;
    BlockCounted(j, st);
    if BlockLost(st) {
      BlockAgain(j, st);
      StepKeeps(j, st, SenderAlarm);
      steps := ReadyGoesOn(j, Apply(j, st, SenderAlarm), st.s.block);
    } else {
      AcknowledgedAgain(j, st);
      StepKeeps(j, st, ReceiverAlarm);
      var now, ack := Apply(j, st, ReceiverAlarm), AckStep(st.s.block);
      StepKeeps(j, now, ack);
      var rest := ReadyGoesOn(j, Apply(j, now, ack), st.s.block + 1);
      OneStepMore(j, now, ack, rest);
      steps := [ack] + rest;
    }
  }

  // ----- and otherwise not

  /** Nothing on its way moves either side, or one of them has given up. */
  ghost predicate Stuck(j: Job, st: State) {
    || st.s.phase == Aborted || st.r.phase == Aborted
    || (&& st.s.phase == Running == st.r.phase
        && (forall p :: p in st.toR ==> !Awaited(st.r, p))
        && (forall p :: p in st.toS ==> !Acknowledged(st.s, p)))
  }

  lemma {:induction false} StaysStuck(j: Job, st: State, steps: seq<Step>)
    requires Stuck(j, st) && Prompt(steps) && IsRunFrom(j, st, steps)
    ensures Stuck(j, AfterFrom(j, st, steps))
    decreases |steps|
  {
    hide Enabled, Apply, Stuck;
    if steps != [] {
      StepStuck(j, st, steps[0]);
      StaysStuck(j, Apply(j, st, steps[0]), steps[1..]);
    }
  }

  lemma StepStuck(j: Job, st: State, step: Step)
    requires Stuck(j, st) && Enabled(j, st, step) && (step.SenderReads? || step.ReceiverReads?)
    ensures Stuck(j, Apply(j, st, step))
  {
  }

  lemma StuckFails(j: Job, st: State)
    requires Stuck(j, st)
    ensures st.s.phase != Finished || st.r.phase != Finished
  {
  }

  lemma RetryStuck(j: Job, st: State)
    requires Inv(j, st) && st.s.phase == Running == st.r.phase && j.Blocks() < LIMIT && !CanRetry(j, st)
    requires st.toR == {} == st.toS
    ensures Enabled(j, st, Retry(st)) && Stuck(j, Apply(j, st, Retry(st)))
  {
  }

  /**
   * All packets on their way are lost while both sides are waiting. The timeout on the side whose
   * packet was lost makes it good, so that the whole file comes through, if and only if that side
   * has one more timeout left and has read nothing over its packet.
   */
  lemma {:induction false} LossMadeGood(j: Job, before: seq<Step>)
    requires IsRun(j, before) && j.Blocks() < LIMIT
    requires After(j, before).s.phase == Running == After(j, before).r.phase
    ensures var st := Lost(After(j, before));
      && st.s.block >= 1 && Enabled(j, st, Retry(st))
      && (CanRetry(j, st) <==> exists steps :: Succeeds(j, Apply(j, st, Retry(st)), steps))
  {
    hide Inv, Enabled, Apply, CanRetry, Stuck;
    RunInv(j, before);
    LostInv(j, After(j, before));
    var st := Lost(After(j, before));
    BlockCounted(j, st);
    if CanRetry(j, st) {
      var steps := RetrySucceeds(j, st);
      assert Succeeds(j, Apply(j, st, Retry(st)), steps);
    } else {
      RetryStuck(j, st);
      forall steps | Prompt(steps) && IsRunFrom(j, Apply(j, st, Retry(st)), steps)
        ensures !Succeeds(j, Apply(j, st, Retry(st)), steps)
      {
        StaysStuck(j, Apply(j, st, Retry(st)), steps);
        StuckFails(j, AfterFrom(j, Apply(j, st, Retry(st)), steps));
      }
    }
  }

  lemma BlockCounted(j: Job, st: State)
    requires Inv(j, st)
    ensures st.s.block >= 1
  {
  }

  // ----- what is never made good

  /** If the last acknowledgement is lost the sender never ends normally, although the file is complete. */
  lemma {:induction false} LastAcknowledgementLost(j: Job, before: seq<Step>, steps: seq<Step>)
    requires IsRun(j, before)
    requires After(j, before).s.phase == Running && After(j, before).r.phase == Finished
    requires IsRunFrom(j, Lost(After(j, before)), steps)
    ensures var end := AfterFrom(j, Lost(After(j, before)), steps);
      end.s.phase != Finished && end.r.file == j.source
  {
    RunInv(j, before);
    FinishedHasAll(j, After(j, before));
    NobodyAnswers(j, Lost(After(j, before)), steps);
  }

  lemma {:induction false} NobodyAnswers(j: Job, st: State, steps: seq<Step>)
    requires st.r.phase == Finished && st.s.phase != Finished && st.toS == {} && IsRunFrom(j, st, steps)
    ensures AfterFrom(j, st, steps).s.phase != Finished && AfterFrom(j, st, steps).r == st.r
    decreases |steps|
  {
    if steps != [] {
      NobodyAnswers(j, Apply(j, st, steps[0]), steps[1..]);
    }
  }

  /**
   * The sender reads something else than it waits for. What the next timeout writes has the header
   * of that, with the bytes swapped on a little-endian machine, and the data of the block.
   */
  lemma HeaderReadOver(j: Job, before: seq<Step>, p: Packet)
    requires IsRun(j, before) && Enabled(j, After(j, before), SenderReads(p))
    requires p.op != 5 && !(p.op == 4 && Signed(p.block) == After(j, before).s.block)
    requires !GaveUp(After(j, before).r) && After(j, before).s.timeout + 5 < 25
    ensures var st := After(j, before);
      var now := Apply(j, Apply(j, st, SenderReads(p)), SenderAlarm);
      && st.s.block >= 1 && Enabled(j, Apply(j, st, SenderReads(p)), SenderAlarm) && now.s.phase == Running
      && now.toR == st.toR + {HeaderOver(j, p, j.Chunk(st.s.block))}
  {
    hide IsRun, After;
    RunInv(j, before);
    ReadOver(j, After(j, before), p);
  }

  /** The header of p as it is in the buffer after it was converted there, and data behind it. */
  function HeaderOver(j: Job, p: Packet, data: seq<int>): Packet {
    if j.littleS then Packet(p.op % 256 * 256 + p.op / 256, p.block % 256 * 256 + p.block / 256, data)
    else Packet(p.op, p.block, data)
  }

  lemma ReadOver(j: Job, st: State, p: Packet)
    requires Inv(j, st) && Enabled(j, st, SenderReads(p)) && !GaveUp(st.r) && st.s.timeout + 5 < 25
    requires p.op != 5 && !(p.op == 4 && Signed(p.block) == st.s.block)
    ensures var now := Apply(j, Apply(j, st, SenderReads(p)), SenderAlarm);
      && st.s.block >= 1 && Enabled(j, Apply(j, st, SenderReads(p)), SenderAlarm) && now.s.phase == Running
      && now.toR == st.toR + {HeaderOver(j, p, j.Chunk(st.s.block))}
  {
    SenderBuffer(j, st, p);
    hide InStep, Inv;
    var mid, was := Apply(j, st, SenderReads(p)), st.s.buf;
    assert Overwrite(was, Converted(j.littleS, p)).data == was.data;
    assert mid.s.buf == HeaderOver(j, p, was.data) && mid.toR == st.toR;
  }

  lemma SenderBuffer(j: Job, st: State, p: Packet)
    requires Inv(j, st) && st.s.phase == Running && p in st.toS && !GaveUp(st.r)
    ensures st.s.block >= 1 && st.s.buf.data == j.Chunk(st.s.block) && p.data == []
  {
  }

  /** A side that cannot go on tells the other, which gives up when it reads that. */
  lemma FailureTold(j: Job, st: State, step: Step)
    requires Enabled(j, st, step) && (step == SenderStarts(false) || step.SenderFails? || step.ReceiverFails?)
    ensures var now := Apply(j, st, step);
      if step.ReceiverFails? then
        now.r.phase == Aborted && exists p :: p in now.toS && GivesUpOn(j, now, SenderReads(p))
      else now.s.phase == Aborted && exists p :: p in now.toR && GivesUpOn(j, now, ReceiverReads(p))
  {
    var now := Apply(j, st, step);
    if step.ReceiverFails? {
      var p := Packet(ERROR, 0, [0]);
      assert p in now.toS && GivesUpOn(j, now, SenderReads(p));
    } else {
      var p := Packet(ERROR, 0, []);
      assert p in now.toR && GivesUpOn(j, now, ReceiverReads(p));
    }
  }

  /** A side that is still running gives up when it reads the packet. */
  predicate GivesUpOn(j: Job, st: State, step: Step)
    requires step.SenderReads? || step.ReceiverReads?
  {
    if step.SenderReads? then
      st.s.phase == Running ==> Enabled(j, st, step) && Apply(j, st, step).s.phase == Aborted
    else st.r.phase == Running ==> Enabled(j, st, step) && Apply(j, st, step).r.phase == Aborted
  }
}
