/**
 Any sequence of chunk submissions, accepted or refused, by any signer at any clock: what the
 cursor and the released amount of one settlement become.
 */
module ChunkRuns {
  import opened Machine
  import opened Amounts
  import opened SettlementChunks
  import Checked

  /** The participant window of an epoch under its parameters: from its anchor on, this many blocks. */
  function Window(b: Bindings, epoch: uint64): int
    requires epoch in b.params && epoch in b.epochLength
  {
    b.params[epoch].windowEpochs * b.epochLength[epoch]
  }

  ghost predicate InWindow(b: Bindings, epoch: uint64, clock: uint64) {
    && epoch in b.anchors && epoch in b.params && epoch in b.epochLength
    && b.anchors[epoch] + Window(b, epoch) <= MAX_UINT64
    && b.anchors[epoch] <= clock < b.anchors[epoch] + Window(b, epoch)
  }

  /** A settlement that participants may still be paid from. */
  predicate Open(b: Bindings, l: Ledger, key: Key) {
    && key.slotId != 0 && key.epoch != 0 && key in l.settlements && key in l.entitlements && key.epoch in b.params
    && var s, e := l.settlements[key], l.entitlements[key];
    && s.slotId == e.slotId == key.slotId && s.epoch == e.epoch == key.epoch
    && s.modeVersion != 0 && s.paramsVersion != 0 && s.paramsVersion == b.params[key.epoch].version
    && (s.mode == TrustedAS || s.mode == SelectedParticipants)
    && !s.finalized && !s.finalizationNamed && s.finalizedHeight == 0
    && 0 < e.amount < TWO_256 && e.released <= e.amount
  }

  /** The chunk limit that binds: the configured one or the immutable one. */
  function MostChunks(p: Params): int {
    if p.maxChunks < 4 then p.maxChunks else 4
  }

  predicate Authorized(b: Bindings, block: Block, key: Key, signer: string) {
    && key.slotId in block.credentials && b.decode(signer).Some?
    && b.decode(signer) == b.decode(block.credentials[key.slotId])
  }

  /** What makes a chunk acceptable, without any order of checks. */
  ghost predicate Acceptable(b: Bindings, block: Block, l: Ledger, c: Chunk) {
    var key := Key(c.slotId, c.epoch);
    && block.enabled && block.transfers && Open(b, l, key) && InWindow(b, c.epoch, block.clock)
    && Authorized(b, block, key, c.signer)
    && var s, e, p := l.settlements[key], l.entitlements[key], b.params[c.epoch];
    && c.index == s.nextChunk < MostChunks(p)
    && |c.lines| <= 32 && (forall i :: 0 <= i < |c.lines| ==> c.lines[i].recipient != "")
    && GoodPayouts(b.decode, p, c.lines)
    && e.released + Total(c.lines) <= e.amount
  }

  /** The ledger with the chunk's two writes. */
  function Advanced(l: Ledger, key: Key, total: nat): Ledger
    requires key in l.settlements && key in l.entitlements && l.settlements[key].nextChunk < MAX_UINT64
  {
    var s, e := l.settlements[key], l.entitlements[key];
    l.(settlements := l.settlements[key := s.(nextChunk := s.nextChunk + 1)],
       entitlements := l.entitlements[key := e.(released := e.released + total)])
  }

  lemma {:induction false} LinesAreValid(lines: seq<Line>)
    ensures ValidLines(lines).Granted? <==>
              forall i :: 0 <= i < |lines| ==> lines[i].recipient != "" && ParsedAmount(lines[i].amount).Some?
    decreases |lines|
  {
    hide ParsedAmount;
    if lines != [] {
      LinesAreValid(lines[..|lines| - 1]);
      assert forall i :: 0 <= i < |lines| - 1 ==> lines[..|lines| - 1][i] == lines[i];
    }
  }

  lemma WindowDecides(b: Bindings, block: Block, s: Settlement)
    requires s.epoch in b.params && s.mode != OperatorOnly
    ensures RequireBeforeDeadline(b, block, s, b.params[s.epoch]).Granted? <==> InWindow(b, s.epoch, block.clock)
  {
  }

  lemma AdmissionDecides(b: Bindings, block: Block, l: Ledger, c: Chunk)
    requires block.enabled && block.transfers
    ensures AdmitChunk(b, block, l, c).Granted? && ValidChunk(c).Granted? <==> Acceptable(b, block, l, c)
    ensures AdmitChunk(b, block, l, c).Granted? ==>
              AdmitChunk(b, block, l, c).value == l.settlements[Key(c.slotId, c.epoch)]
  {
    hide AdmitPayoutSet, GoodPayouts, RequireBeforeDeadline, InWindow, ValidLines, ParsedAmount;
    LinesAreValid(c.lines);
    if c.epoch in b.params { AdmittedPayouts(b.decode, b.params[c.epoch], c.lines); }
    if Key(c.slotId, c.epoch) in l.settlements && c.epoch in b.params {
      var s := l.settlements[Key(c.slotId, c.epoch)];
      if s.epoch == c.epoch && s.mode != OperatorOnly { WindowDecides(b, block, s); }
      if GoodPayouts(b.decode, b.params[c.epoch], c.lines) { GoodIsValid(b, b.params[c.epoch], c.lines); }
    }
  }

  lemma GoodIsValid(b: Bindings, p: Params, lines: seq<Line>)
    requires GoodPayouts(b.decode, p, lines)
    ensures lines != [] && forall i :: 0 <= i < |lines| ==> ParsedAmount(lines[i].amount).Some?
  {
  }

  /**
   A submission is accepted exactly when the chunk is acceptable, and then its only effects
   are the cursor's advance and the release of its total.
   */
  lemma SubmissionDecides(b: Bindings, block: Block, l: Ledger, c: Chunk)
    ensures Submit(b, block, l, c).Granted? <==> Acceptable(b, block, l, c)
    ensures Submit(b, block, l, c).Granted? ==>
              Submit(b, block, l, c).value ==
              (Advanced(l, Key(c.slotId, c.epoch), Total(c.lines)), l.settlements[Key(c.slotId, c.epoch)].nextChunk + 1)
  {
    hide AdmitChunk, ValidChunk, GoodPayouts, InWindow;
    if block.enabled && block.transfers { AdmissionDecides(b, block, l, c); }
    if Acceptable(b, block, l, c) { GoodIsValid(b, b.params[c.epoch], c.lines); }
  }

  // ----- Runs -----

  datatype Attempt = Attempt(block: Block, chunk: Chunk)

  function After(b: Bindings, l: Ledger, a: Attempt): Ledger {
    match Submit(b, a.block, l, a.chunk)
    case Granted(r) => r.0
    case Refused(_) => l
  }

  function Play(b: Bindings, l: Ledger, attempts: seq<Attempt>): Ledger {
    if attempts == [] then l
    else After(b, Play(b, l, attempts[..|attempts| - 1]), attempts[|attempts| - 1])
  }

  predicate Accepts(b: Bindings, l: Ledger, a: Attempt, key: Key) {
    Key(a.chunk.slotId, a.chunk.epoch) == key && Submit(b, a.block, l, a.chunk).Granted?
  }

  /** The accepted attempts on `key`, in order. */
  function Accepted(b: Bindings, l: Ledger, attempts: seq<Attempt>, key: Key): seq<Attempt> {
    if attempts == [] then []
    else
      var front, last := attempts[..|attempts| - 1], attempts[|attempts| - 1];
      Accepted(b, l, front, key) + if Accepts(b, Play(b, l, front), last, key) then [last] else []
  }

  function Paid(attempts: seq<Attempt>): nat {
    if attempts == [] then 0
    else Paid(attempts[..|attempts| - 1]) + Total(attempts[|attempts| - 1].chunk.lines)
  }

  /** An accepted attempt among those that started with cursor `first`: in order and in time. */
  ghost predicate Lawful(b: Bindings, key: Key, first: int, accepted: seq<Attempt>, i: int)
    requires 0 <= i < |accepted|
  {
    var a := accepted[i];
    && a.chunk.index == first + i && key.epoch in b.params && first + i < MostChunks(b.params[key.epoch])
    && InWindow(b, key.epoch, a.block.clock) && Authorized(b, a.block, key, a.chunk.signer) && a.block.enabled
    && GoodPayouts(b.decode, b.params[key.epoch], a.chunk.lines)
  }

  /** What a run did to one settlement: both amounts accounted for, and every acceptance lawful. */
  ghost predicate Settled(b: Bindings, l: Ledger, l': Ledger, key: Key, accepted: seq<Attempt>)
    requires key in l.settlements && key in l.entitlements
  {
    var s, e := l.settlements[key], l.entitlements[key];
    && key in l'.settlements && key in l'.entitlements
    && s.nextChunk + |accepted| <= MAX_UINT64
    && l'.settlements[key] == s.(nextChunk := s.nextChunk + |accepted|)
    && l'.entitlements[key] == e.(released := e.released + Paid(accepted))
    && (forall i :: 0 <= i < |accepted| ==> Lawful(b, key, s.nextChunk, accepted, i))
    && (accepted != [] ==> e.released + Paid(accepted) <= e.amount)
  }

  lemma StepSettles(b: Bindings, l: Ledger, l1: Ledger, a: Attempt, key: Key, accepted: seq<Attempt>)
    requires key in l.settlements && key in l.entitlements && Settled(b, l, l1, key, accepted)
    ensures Settled(b, l, After(b, l1, a), key, accepted + if Accepts(b, l1, a, key) then [a] else [])
  {
    hide Acceptable, InWindow, GoodPayouts, Authorized;
    SubmissionDecides(b, a.block, l1, a.chunk);
    if Accepts(b, l1, a, key) {
      AcceptableMeans(b, a.block, l1, a.chunk);
      var more := accepted + [a];
      assert more[..|accepted|] == accepted;
      forall i | 0 <= i < |more| ensures Lawful(b, key, l.settlements[key].nextChunk, more, i) {
        if i < |accepted| { assert Lawful(b, key, l.settlements[key].nextChunk, accepted, i); }
      }
    } else {
      assert accepted + [] == accepted;
      if Submit(b, a.block, l1, a.chunk).Granted? { AcceptableMeans(b, a.block, l1, a.chunk); }
    }
  }

  lemma AcceptableMeans(b: Bindings, block: Block, l: Ledger, c: Chunk)
    requires Acceptable(b, block, l, c)
    ensures var key := Key(c.slotId, c.epoch);
            && block.enabled && InWindow(b, c.epoch, block.clock) && Authorized(b, block, key, c.signer)
            && key in l.settlements && key in l.entitlements && c.epoch in b.params
            && c.index == l.settlements[key].nextChunk < MostChunks(b.params[c.epoch])
            && GoodPayouts(b.decode, b.params[c.epoch], c.lines)
            && l.entitlements[key].released + Total(c.lines) <= l.entitlements[key].amount
  {
  }

  /**
   Over any run the released amount is its start plus the totals of the accepted chunks, and
   never passes the entitlement; the accepted indices count up by one from the cursor, so none
   is accepted twice and at most min(configured, 4) ever are; each was signed by the slot's
   credential of its block, inside the window.
   */
  lemma {:induction false} RunSettles(b: Bindings, l: Ledger, attempts: seq<Attempt>, key: Key)
    requires key in l.settlements && key in l.entitlements
    ensures Settled(b, l, Play(b, l, attempts), key, Accepted(b, l, attempts, key))
    decreases |attempts|
  {
    hide Settled, After, Accepts;
    if attempts == [] {
      NothingSettled(b, l, key);
    } else {
      var front := attempts[..|attempts| - 1];
      RunSettles(b, l, front, key);
      StepSettles(b, l, Play(b, l, front), attempts[|attempts| - 1], key, Accepted(b, l, front, key));
    }
  }

  lemma NothingSettled(b: Bindings, l: Ledger, key: Key)
    requires key in l.settlements && key in l.entitlements
    ensures Settled(b, l, l, key, [])
  {
  }

  /** The numbers a reader wants from a run that starts with no chunk paid. */
  lemma RunBounds(b: Bindings, l: Ledger, attempts: seq<Attempt>, key: Key)
    requires key in l.settlements && key in l.entitlements
    requires l.settlements[key].nextChunk == 0 && l.entitlements[key].released == 0
    ensures var l', accepted := Play(b, l, attempts), Accepted(b, l, attempts, key);
            && key in l'.settlements && key in l'.entitlements
            && l'.entitlements[key].released == Paid(accepted) <= l.entitlements[key].amount
            && l'.settlements[key].nextChunk == |accepted| <= 4
            && (key.epoch in b.params && accepted != [] ==> |accepted| <= b.params[key.epoch].maxChunks)
            && (forall i, j :: 0 <= i < j < |accepted| ==> accepted[i].chunk.index != accepted[j].chunk.index)
  {
    hide InWindow, GoodPayouts, Authorized;
    RunSettles(b, l, attempts, key);
    var accepted := Accepted(b, l, attempts, key);
    if accepted != [] { assert Lawful(b, key, 0, accepted, |accepted| - 1); }
    forall i, j | 0 <= i < j < |accepted| ensures accepted[i].chunk.index != accepted[j].chunk.index {
      assert Lawful(b, key, 0, accepted, i) && Lawful(b, key, 0, accepted, j);
    }
  }

  /** Once a clock that never goes back has reached the deadline, no chunk of the epoch is accepted again. */
  lemma WindowStaysClosed(b: Bindings, l: Ledger, attempts: seq<Attempt>, i: nat, j: nat)
    requires i <= j < |attempts| && attempts[i].block.clock <= attempts[j].block.clock
    requires attempts[i].chunk.epoch == attempts[j].chunk.epoch
    requires attempts[i].chunk.epoch in b.anchors && attempts[i].chunk.epoch in b.params
    requires attempts[i].chunk.epoch in b.epochLength
    requires attempts[i].block.clock >= b.anchors[attempts[i].chunk.epoch] + Window(b, attempts[i].chunk.epoch)
    ensures Submit(b, attempts[j].block, Play(b, l, attempts[..j]), attempts[j].chunk).Refused?
  {
    hide Open, GoodPayouts, Authorized;
    SubmissionDecides(b, attempts[j].block, Play(b, l, attempts[..j]), attempts[j].chunk);
  }

  /** A chunk just accepted is refused when it is sent again. */
  lemma ReplayRefused(b: Bindings, block: Block, again: Block, l: Ledger, c: Chunk)
    requires Submit(b, block, l, c).Granted?
    ensures Submit(b, again, Submit(b, block, l, c).value.0, c).Refused?
  {
    hide InWindow, GoodPayouts, Authorized;
    SubmissionDecides(b, block, l, c);
    SubmissionDecides(b, again, Submit(b, block, l, c).value.0, c);
  }
}
