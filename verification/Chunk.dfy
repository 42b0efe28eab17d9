/**
 x/mining/keeper/chunk.go: the admission of one settlement chunk.

 A chunk pays a list of recipients out of one slot's entitlement for one epoch. It must be
 the settlement's next chunk, arrive inside the participant window, name its recipients in
 strictly ascending account order, and stay within the entitlement; then everything commits
 together or nothing does.

 The release itself belongs to x/rewards. Here it is a contract: it raises the released
 amount by the chunk's total, or fails with no change.
 */
module SettlementChunks {
  import opened Machine
  import opened Ordering
  import opened CoreSlotTypes
  import opened Amounts
  import Checked

  const HARD_MAX_RECIPIENTS: int := 32
  const HARD_MAX_CHUNKS: int := 4
  const HARD_MIN_PAYOUT: nat := 10_000

  datatype Reason = InvalidState | BadAddress | Unsupported | NoSettlement | NoParams

  datatype Decision<+T> = Granted(value: T) | Refused(reason: Reason) {
    predicate IsFailure() { Refused? }
    function PropagateFailure<U>(): Decision<U> requires Refused? { Refused(reason) }
    function Extract(): T requires Granted? { value }
  }

  datatype Mode = TrustedAS | SelectedParticipants | OperatorOnly | NoMode

  datatype Key = Key(slotId: uint64, epoch: uint64)

  datatype Settlement = Settlement(
    slotId: uint64, epoch: uint64, modeVersion: uint64, paramsVersion: uint64, mode: Mode,
    finalized: bool, finalizationNamed: bool, finalizedHeight: uint64, nextChunk: uint64
  )

  /** Settlement.Validate. */
  predicate ValidSettlement(s: Settlement) {
    && s.slotId != 0 && s.epoch != 0 && s.modeVersion != 0 && s.paramsVersion != 0 && s.mode != NoMode
    && (if s.finalized then s.finalizationNamed && s.finalizedHeight != 0
        else !s.finalizationNamed && s.finalizedHeight == 0)
  }

  /** An entitlement's two amounts, as x/rewards decodes them. */
  datatype Entitlement = Entitlement(slotId: uint64, epoch: uint64, amount: nat, released: nat)

  predicate ValidEntitlement(e: Entitlement) {
    e.slotId != 0 && e.epoch != 0 && 0 < e.amount < TWO_256 && e.released <= e.amount
  }

  datatype Params = Params(version: uint64, windowEpochs: uint64, maxRecipients: uint64, maxChunks: uint64,
      minPayout: string)

  datatype Ledger = Ledger(settlements: map<Key, Settlement>, entitlements: map<Key, Entitlement>)

  /**
   What is fixed once a settlement exists: the parameters each epoch binds, the clock its
   anchor records, its length in blocks, and the application's address decoding.
   */
  datatype Bindings = Bindings(
    params: map<uint64, Params>, anchors: map<uint64, uint64>, epochLength: map<uint64, uint64>,
    decode: string -> Option<string>
  )

  /** What the block of a submission decides. `transfers` says whether the bank accepts the payouts. */
  datatype Block = Block(enabled: bool, clock: uint64, credentials: map<uint64, string>, transfers: bool)

  datatype Line = Line(recipient: string, amount: string)

  datatype Chunk = Chunk(signer: string, slotId: uint64, epoch: uint64, index: uint64, lines: seq<Line>)

  // ----- The lines -----

  function LineAmount(line: Line): nat {
    match ParsedAmount(line.amount) case Some(n) => n case None => 0
  }

  function Total(lines: seq<Line>): nat {
    if lines == [] then 0 else Total(lines[..|lines| - 1]) + LineAmount(lines[|lines| - 1])
  }

  /** The larger of the configured minimum and the immutable one. */
  function Floor(p: Params): Decision<nat> {
    match ParsedAmount(p.minPayout)
    case None => Refused(InvalidState)
    case Some(n) => Granted(if n < HARD_MIN_PAYOUT then HARD_MIN_PAYOUT else n)
  }

  /** The line's verdict, given the account of the line before it. */
  function LineVerdict(decode: string -> Option<string>, floor: nat, previous: Option<string>,
      line: Line): Decision<nat> {
    if decode(line.recipient).None? then Refused(BadAddress)
    else if previous.Some? && !Less(previous.value, decode(line.recipient).value) then Refused(InvalidState)
    else if ParsedAmount(line.amount).None? then Refused(InvalidState)
    else if LineAmount(line) < floor then Refused(InvalidState)
    else Granted(LineAmount(line))
  }

  function LastAccount(decode: string -> Option<string>, lines: seq<Line>): Option<string> {
    if lines == [] then None else decode(lines[|lines| - 1].recipient)
  }

  /** The lines one after the other, the first refusal deciding. */
  function WalkLines(decode: string -> Option<string>, floor: nat, lines: seq<Line>): Decision<nat> {
    if lines == [] then Granted(0)
    else
      var n := |lines| - 1;
      var total :- WalkLines(decode, floor, lines[..n]);
      var amount :- LineVerdict(decode, floor, LastAccount(decode, lines[..n]), lines[n]);
      if total + amount >= TWO_256 then Refused(InvalidState) else Granted(total + amount)
  }

  function AdmitPayoutSet(decode: string -> Option<string>, p: Params, lines: seq<Line>): Decision<nat> {
    if |lines| > p.maxRecipients then Refused(InvalidState)
    else
      var floor :- Floor(p);
      var total :- WalkLines(decode, floor, lines);
      if total == 0 then Refused(InvalidState) else Granted(total)
  }

  /** What an admitted payout set is, said without any order of checks. */
  ghost predicate GoodPayouts(decode: string -> Option<string>, p: Params, lines: seq<Line>) {
    && lines != [] && |lines| <= p.maxRecipients && ParsedAmount(p.minPayout).Some?
    && GoodLines(decode, FloorOf(p), lines) && Total(lines) < TWO_256
  }

  /** What the least payout is: the configured minimum, but never below 10 000. */
  function FloorOf(p: Params): nat {
    match ParsedAmount(p.minPayout)
    case None => 10_000
    case Some(n) => if n < 10_000 then 10_000 else n
  }

  ghost predicate GoodLines(decode: string -> Option<string>, floor: nat, lines: seq<Line>) {
    && (forall i :: 0 <= i < |lines| ==>
          decode(lines[i].recipient).Some? && ParsedAmount(lines[i].amount).Some? && LineAmount(lines[i]) >= floor)
    && Ascending(Accounts(decode, lines))
  }

  function Accounts(decode: string -> Option<string>, lines: seq<Line>): seq<string> {
    seq(|lines|, i requires 0 <= i < |lines| => match decode(lines[i].recipient) case Some(a) => a case None => "")
  }

  /** Comparing each account with the one before it makes the whole list ascend. */
  lemma {:induction false} WalkMeans(decode: string -> Option<string>, floor: nat, lines: seq<Line>)
    requires floor > 0
    ensures WalkLines(decode, floor, lines).Granted? <==> GoodLines(decode, floor, lines) && Total(lines) < TWO_256
    ensures WalkLines(decode, floor, lines).Granted? ==> WalkLines(decode, floor, lines).value == Total(lines)
    decreases |lines|
  {
    hide ParsedAmount, Less;
    if lines != [] {
      var n := |lines| - 1;
      var front := lines[..n];
      WalkMeans(decode, floor, front);
      assert Accounts(decode, lines)[..n] == Accounts(decode, front);
      assert forall i :: 0 <= i < n ==> front[i] == lines[i];
      if WalkLines(decode, floor, lines).Granted? { LastIsGreatest(Accounts(decode, lines)); }
      if GoodLines(decode, floor, lines) { FrontIsGood(decode, floor, lines); }
    }
  }

  lemma LastIsGreatest(ks: seq<string>)
    requires ks != [] && Ascending(ks[..|ks| - 1])
    requires |ks| > 1 ==> Less(ks[|ks| - 2], ks[|ks| - 1])
    ensures Ascending(ks)
  {
    hide Less;
    var n := |ks| - 1;
    forall i | 0 <= i < n ensures Less(ks[i], ks[n]) {
      if i < n - 1 {
        assert Less(ks[..n][i], ks[..n][n - 1]);
        LessTransitive(ks[i], ks[n - 1], ks[n]);
      }
    }
    forall i, j | 0 <= i < j < |ks| ensures Less(ks[i], ks[j]) {
      if j < n { assert Less(ks[..n][i], ks[..n][j]); }
    }
  }

  lemma FrontIsGood(decode: string -> Option<string>, floor: nat, lines: seq<Line>)
    requires lines != [] && GoodLines(decode, floor, lines)
    ensures GoodLines(decode, floor, lines[..|lines| - 1])
    ensures |lines| > 1 ==> Less(Accounts(decode, lines)[|lines| - 2], Accounts(decode, lines)[|lines| - 1])
  {
    hide Less;
    var n := |lines| - 1;
    assert Accounts(decode, lines[..n]) == Accounts(decode, lines)[..n];
  }

  /**
   Exactly the canonical payout sets are admitted: every recipient decodes, the accounts
   strictly ascend, every amount is canonical and at least the floor, and the total fits
   256 bits. What is admitted is that total.
   */
  lemma AdmittedPayouts(decode: string -> Option<string>, p: Params, lines: seq<Line>)
    ensures AdmitPayoutSet(decode, p, lines).Granted? <==> GoodPayouts(decode, p, lines)
    ensures AdmitPayoutSet(decode, p, lines).Granted? ==>
              AdmitPayoutSet(decode, p, lines).value == Total(lines) && Total(lines) >= |lines| * 10_000
  {
    hide GoodLines, WalkLines, ParsedAmount;
    if Floor(p).Granted? {
      WalkMeans(decode, Floor(p).value, lines);
      if GoodLines(decode, Floor(p).value, lines) { TotalAtLeast(decode, Floor(p).value, lines); }
      if lines == [] { NoLines(decode, Floor(p).value); }
    }
  }

  lemma NoLines(decode: string -> Option<string>, floor: nat)
    ensures WalkLines(decode, floor, []) == Granted(0)
  {
  }

  lemma {:induction false} TotalAtLeast(decode: string -> Option<string>, floor: nat, lines: seq<Line>)
    requires GoodLines(decode, floor, lines) && floor >= HARD_MIN_PAYOUT
    ensures Total(lines) >= |lines| * HARD_MIN_PAYOUT
    decreases |lines|
  {
    if lines != [] {
      FrontIsGood(decode, floor, lines);
      TotalAtLeast(decode, floor, lines[..|lines| - 1]);
    }
  }

  /** One payout: whom, and how much. */
  datatype Payout = Payout(account: string, amount: nat)

  function Payouts(decode: string -> Option<string>, lines: seq<Line>): seq<Payout> {
    seq(|lines|, i requires 0 <= i < |lines| =>
      Payout(match decode(lines[i].recipient) case Some(a) => a case None => "", LineAmount(lines[i])))
  }

  /** The accounts ascend exactly when each comes before every later one at their first difference. */
  lemma AccountsInOrder(decode: string -> Option<string>, lines: seq<Line>)
    requires forall i :: 0 <= i < |lines| ==> decode(lines[i].recipient).Some?
    ensures Ascending(Accounts(decode, lines)) <==>
              forall i, j :: 0 <= i < j < |lines| ==>
                Before(decode(lines[i].recipient).value, decode(lines[j].recipient).value)
  {
    hide Less, Before;
    var ks := Accounts(decode, lines);
    forall i, j | 0 <= i < j < |lines|
      ensures Less(ks[i], ks[j]) <==> Before(decode(lines[i].recipient).value, decode(lines[j].recipient).value)
    {
      LessMeans(ks[i], ks[j]);
    }
  }

  /** So an admitted chunk lists its accounts in byte order, none twice. */
  lemma AdmittedInOrder(decode: string -> Option<string>, p: Params, lines: seq<Line>)
    requires AdmitPayoutSet(decode, p, lines).Granted?
    ensures forall i :: 0 <= i < |lines| ==> decode(lines[i].recipient).Some?
    ensures forall i, j :: 0 <= i < j < |lines| ==>
              Before(decode(lines[i].recipient).value, decode(lines[j].recipient).value)
  {
    hide AdmitPayoutSet, Before, ParsedAmount, Ascending;
    AdmittedPayouts(decode, p, lines);
    AccountsInOrder(decode, lines);
  }

  /** A line that spells out an amount pays it, and a list pays the sum of its parts. */
  lemma LinePays(recipient: string, n: nat)
    requires n < TWO_256
    ensures Total([Line(recipient, Render(n))]) == n
  {
    hide Render;
    ParsedIsRendered(Render(n), n);
    assert [Line(recipient, Render(n))][..0] == [];
  }

  lemma {:induction false} TotalAdds(a: seq<Line>, b: seq<Line>)
    ensures Total(a + b) == Total(a) + Total(b)
    decreases |b|
  {
    if b == [] {
      assert a + b == a;
    } else {
      assert (a + b)[..|a + b| - 1] == a + b[..|b| - 1];
      TotalAdds(a, b[..|b| - 1]);
    }
  }

  /** Two admitted chunks paying the same set of payouts pay them in the same order, with the same texts. */
  lemma OneCanonicalForm(decode: string -> Option<string>, p: Params, a: seq<Line>, q: Params, b: seq<Line>)
    requires GoodPayouts(decode, p, a) && GoodPayouts(decode, q, b)
    requires forall o :: o in Payouts(decode, a) <==> o in Payouts(decode, b)
    ensures Payouts(decode, a) == Payouts(decode, b)
    ensures |a| == |b| && forall i :: 0 <= i < |a| ==> a[i].amount == b[i].amount
  {
    hide Less, ParsedAmount;
    var pa, pb := Payouts(decode, a), Payouts(decode, b);
    SameAccounts(decode, a, b);
    SameAccounts(decode, b, a);
    AscendingUnique(Accounts(decode, a), Accounts(decode, b));
    forall i | 0 <= i < |a| ensures pa[i] == pb[i] && a[i].amount == b[i].amount {
      assert pa[i] in pb;
      var j :| 0 <= j < |b| && pb[j] == pa[i];
      assert Accounts(decode, b)[j] == Accounts(decode, b)[i];
      AscendingOnce(Accounts(decode, b), i, j);
      AmountsAreUnique(a[i].amount, b[i].amount);
    }
  }

  lemma SameAccounts(decode: string -> Option<string>, a: seq<Line>, b: seq<Line>)
    requires forall o :: o in Payouts(decode, a) ==> o in Payouts(decode, b)
    ensures forall k :: k in Accounts(decode, a) ==> k in Accounts(decode, b)
  {
    forall k | k in Accounts(decode, a) ensures k in Accounts(decode, b) {
      var i :| 0 <= i < |a| && Accounts(decode, a)[i] == k;
      assert Payouts(decode, a)[i] in Payouts(decode, b);
      var j :| 0 <= j < |b| && Payouts(decode, b)[j] == Payouts(decode, a)[i];
      assert Accounts(decode, b)[j] == k;
    }
  }

  lemma AscendingOnce(ks: seq<string>, i: nat, j: nat)
    requires Ascending(ks) && i < |ks| && j < |ks| && ks[i] == ks[j]
    ensures i == j
  {
    LessIrreflexive(ks[i]);
  }

  // ----- The chunk -----

  function ValidLines(lines: seq<Line>): Decision<()> {
    if lines == [] then Granted(())
    else
      var _ :- ValidLines(lines[..|lines| - 1]);
      var line := lines[|lines| - 1];
      if line.recipient == "" then Refused(BadAddress)
      else if ParsedAmount(line.amount).None? then Refused(InvalidState)
      else Granted(())
  }

  function ValidChunk(c: Chunk): Decision<()> {
    if c.slotId == 0 || c.epoch == 0 then Refused(InvalidState)
    else if c.lines == [] then Refused(InvalidState)
    else if |c.lines| > HARD_MAX_RECIPIENTS then Refused(InvalidState)
    else ValidLines(c.lines)
  }

  function LoadSettlement(l: Ledger, key: Key): Decision<Settlement> {
    if key.slotId == 0 || key.epoch == 0 then Refused(InvalidState)
    else if key !in l.settlements then Refused(NoSettlement)
    else
      var s := l.settlements[key];
      if s.slotId != key.slotId || s.epoch != key.epoch || !ValidSettlement(s) then Refused(InvalidState)
          else Granted(s)
  }

  function RequireChunksPermitted(s: Settlement): Decision<()> {
    match s.mode
    case TrustedAS => Granted(())
    case SelectedParticipants => Granted(())
    case OperatorOnly => Refused(Unsupported)
    case NoMode => Refused(InvalidState)
  }

  /** The signer and the slot's recorded credential decode to one account. */
  function RequireSigner(b: Bindings, block: Block, s: Settlement, signer: string): Decision<()> {
    if s.slotId !in block.credentials then Refused(InvalidState)
    else if b.decode(block.credentials[s.slotId]).None? then Refused(InvalidState)
    else if b.decode(signer).None? then Refused(BadAddress)
    else if b.decode(signer) != b.decode(block.credentials[s.slotId]) then Refused(BadAddress)
    else Granted(())
  }

  function Deadline(b: Bindings, s: Settlement, anchor: uint64, p: Params): Decision<uint64> {
    if s.mode == OperatorOnly then Granted(anchor)
    else if s.epoch !in b.epochLength then Refused(InvalidState)
    else
      var window := Checked.MulUint64(p.windowEpochs, b.epochLength[s.epoch]);
      if window.Fault? then Refused(InvalidState)
      else
        var deadline := Checked.AddUint64(anchor, window.value);
        if deadline.Fault? then Refused(InvalidState) else Granted(deadline.value)
  }

  function RequireBeforeDeadline(b: Bindings, block: Block, s: Settlement, p: Params): Decision<()> {
    if s.epoch !in b.anchors then Refused(InvalidState)
    else if b.anchors[s.epoch] > block.clock then Refused(InvalidState)
    else
      var deadline :- Deadline(b, s, b.anchors[s.epoch], p);
      if block.clock >= deadline then Refused(Unsupported) else Granted(())
  }

  function RequireChunkPosition(s: Settlement, p: Params, index: uint64): Decision<()> {
    if index != s.nextChunk then Refused(InvalidState)
    else if s.nextChunk >= p.maxChunks then Refused(InvalidState)
    else if s.nextChunk >= HARD_MAX_CHUNKS then Refused(InvalidState)
    else Granted(())
  }

  function LoadEntitlement(l: Ledger, key: Key): Decision<Entitlement> {
    if key !in l.entitlements then Refused(InvalidState)
    else
      var e := l.entitlements[key];
      if e.slotId != key.slotId || e.epoch != key.epoch || !ValidEntitlement(e) then Refused(InvalidState)
          else Granted(e)
  }

  /** The most participants may receive in all. */
  function Ceiling(s: Settlement, e: Entitlement): Decision<nat> {
    match s.mode
    case TrustedAS => Granted(e.amount)
    case SelectedParticipants => Granted(e.amount)
    case OperatorOnly => Granted(0)
    case NoMode => Refused(InvalidState)
  }

  function RequireWithinCeiling(l: Ledger, s: Settlement, total: nat): Decision<()> {
    var e :- LoadEntitlement(l, Key(s.slotId, s.epoch));
    var ceiling :- Ceiling(s, e);
    if e.released + total >= TWO_256 then Refused(InvalidState)
    else if e.released + total > ceiling then Refused(InvalidState)
    else Granted(())
  }

  /** Everything that can refuse a chunk before a transfer; nothing is written. */
  function AdmitChunk(b: Bindings, block: Block, l: Ledger, c: Chunk): Decision<Settlement> {
    var s :- LoadSettlement(l, Key(c.slotId, c.epoch));
    if s.finalized then Refused(InvalidState)
    else
      var _ :- RequireChunksPermitted(s);
      var _ :- RequireSigner(b, block, s, c.signer);
      if s.epoch !in b.params then Refused(NoParams)
      else
        var p := b.params[s.epoch];
        if p.version != s.paramsVersion then Refused(InvalidState)
        else
          var _ :- RequireBeforeDeadline(b, block, s, p);
          var _ :- RequireChunkPosition(s, p, c.index);
          var total :- AdmitPayoutSet(b.decode, p, c.lines);
          var _ :- RequireWithinCeiling(l, s, total);
          Granted(s)
  }

  /** x/rewards' release: its own ceiling again, the transfers, then the released amount. */
  function Released(block: Block, l: Ledger, key: Key, lines: seq<Line>): Decision<Ledger> {
    if lines == [] || !block.enabled then Refused(InvalidState)
    else
      var e :- LoadEntitlement(l, key);
      if e.released + Total(lines) > e.amount || !block.transfers then Refused(InvalidState)
      else Granted(l.(entitlements := l.entitlements[key := e.(released := e.released + Total(lines))]))
  }

  function Submit(b: Bindings, block: Block, l: Ledger, c: Chunk): Decision<(Ledger, uint64)> {
    var _ :- ValidChunk(c);
    if !block.enabled then Refused(Unsupported)
    else
      var s :- AdmitChunk(b, block, l, c);
      var paid :- Released(block, l, Key(c.slotId, c.epoch), c.lines);
      var next := Checked.AddUint64(s.nextChunk, 1);
      if next.Fault? then Refused(InvalidState)
      else
        var advanced := s.(nextChunk := next.value);
        if !ValidSettlement(advanced) then Refused(InvalidState)
        else Granted((paid.(settlements := paid.settlements[Key(s.slotId, s.epoch) := advanced]), next.value))
  }

  // ----- The keeper -----

  class Keeper {
    const bindings: Bindings
    var settlements: map<Key, Settlement>
    var entitlements: map<Key, Entitlement>

    /** Both collections, as one value. */
    function Contents(): Ledger
      reads this
    {
      Ledger(settlements, entitlements)
    }

    constructor (bindings: Bindings, l: Ledger)
      ensures this.bindings == bindings && Contents() == l
    {
      this.bindings, settlements, entitlements := bindings, l.settlements, l.entitlements;
    }

    /** The release, straight to the collections. */
    method PayEntitlement(block: Block, key: Key, lines: seq<Line>) returns (r: Decision<()>)
      modifies this`entitlements
      ensures match r
              case Granted(_) => Released(block, old(Contents()), key, lines) == Granted(Contents())
              case Refused(e) =>
                Released(block, old(Contents()), key, lines) == Refused(e) && Contents() == old(Contents())
    {
      if lines == [] || !block.enabled { return Refused(InvalidState); }
      var e :- LoadEntitlement(Contents(), key);
      var total := 0;
      for i := 0 to |lines|
        invariant total == Total(lines[..i])
      {
        assert lines[..i + 1][..i] == lines[..i];
        total := total + LineAmount(lines[i]);
      }
      assert lines[..|lines|] == lines;
      if e.released + total > e.amount || !block.transfers { return Refused(InvalidState); }
      entitlements := entitlements[key := e.(released := e.released + total)];
      return Granted(());
    }

    /** Pays, then advances the cursor, straight to the collections. */
    method SubmitUncached(block: Block, c: Chunk) returns (r: Decision<uint64>)
      modifies this
      ensures match r
              case Granted(next) => Submit(bindings, block, old(Contents()), c) == Granted((Contents(), next))
              case Refused(e) => Submit(bindings, block, old(Contents()), c) == Refused(e)
    {
      hide AdmitChunk, Released, ValidSettlement, ValidLines;
      var valid := ValidateChunk(c);
      var _ :- valid;
      if !block.enabled { return Refused(Unsupported); }
      var s :- Admit(bindings, block, Contents(), c);
      var _ :- PayEntitlement(block, Key(c.slotId, c.epoch), c.lines);
      var next := Checked.AddUint64(s.nextChunk, 1);
      if next.Fault? { return Refused(InvalidState); }
      s := s.(nextChunk := next.value);
      if !ValidSettlement(s) { return Refused(InvalidState); }
      settlements := settlements[Key(s.slotId, s.epoch) := s];
      return Granted(next.value);
    }

    /** The chunk commits whole or leaves no trace, transfers included. */
    method SubmitSettlementChunk(block: Block, c: Chunk) returns (r: Decision<uint64>)
      modifies this
      ensures match r
              case Granted(next) => Submit(bindings, block, old(Contents()), c) == Granted((Contents(), next))
              case Refused(e) =>
                Submit(bindings, block, old(Contents()), c) == Refused(e) && Contents() == old(Contents())
    {
      hide Submit;
      var before := Contents();
      r := SubmitUncached(block, c);
      if r.Refused? { settlements, entitlements := before.settlements, before.entitlements; }
    }
  }

  method ValidateChunk(c: Chunk) returns (r: Decision<()>)
    ensures r == ValidChunk(c)
  {
    if c.slotId == 0 { return Refused(InvalidState); }
    if c.epoch == 0 { return Refused(InvalidState); }
    if c.lines == [] { return Refused(InvalidState); }
    if |c.lines| > HARD_MAX_RECIPIENTS { return Refused(InvalidState); }
    for i := 0 to |c.lines|
      invariant ValidLines(c.lines[..i]).Granted?
    {
      assert c.lines[..i + 1][..i] == c.lines[..i];
      if c.lines[i].recipient == "" {
        InvalidLine(c.lines, i + 1);
        return Refused(BadAddress);
      }
      var amount := ParseCanonicalAmount(c.lines[i].amount);
      if amount.None? {
        InvalidLine(c.lines, i + 1);
        return Refused(InvalidState);
      }
    }
    assert c.lines[..|c.lines|] == c.lines;
    return Granted(());
  }

  lemma {:induction false} InvalidLine(lines: seq<Line>, n: nat)
    requires n <= |lines| && ValidLines(lines[..n]).Refused?
    ensures ValidLines(lines) == ValidLines(lines[..n])
    decreases |lines|
  {
    if n == |lines| {
      assert lines[..n] == lines;
    } else {
      assert lines[..|lines| - 1][..n] == lines[..n];
      InvalidLine(lines[..|lines| - 1], n);
    }
  }

  /** One line against its predecessor and the floor. */
  method CheckLine(decode: string -> Option<string>, floor: nat, previous: Option<string>, line: Line)
      returns (r: Decision<nat>)
    ensures r == LineVerdict(decode, floor, previous, line)
  {
    hide ParsedAmount, Less;
    var recipient := decode(line.recipient);
    if recipient.None? { return Refused(BadAddress); }
    if previous.Some? && !Less(previous.value, recipient.value) { return Refused(InvalidState); }
    var amount := ParseCanonicalAmount(line.amount);
    if amount.None? { return Refused(InvalidState); }
    if amount.value < floor { return Refused(InvalidState); }
    return Granted(amount.value);
  }

  /** Every line of the chunk, with the running total and the account before it. */
  method AdmitPayouts(decode: string -> Option<string>, p: Params, lines: seq<Line>) returns (r: Decision<nat>)
    ensures r == AdmitPayoutSet(decode, p, lines)
  {
    hide ParsedAmount, Less, LineVerdict;
    if |lines| > p.maxRecipients { return Refused(InvalidState); }
    var configured := ParseCanonicalAmount(p.minPayout);
    if configured.None? { return Refused(InvalidState); }
    var floor := if configured.value < HARD_MIN_PAYOUT then HARD_MIN_PAYOUT else configured.value;
    var total := 0;
    var previous: Option<string> := None;
    for i := 0 to |lines|
      invariant WalkLines(decode, floor, lines[..i]) == Granted(total) && previous == LastAccount(decode, lines[..i])
    {
      assert lines[..i + 1][..i] == lines[..i];
      var line := lines[i];
      if WalkLines(decode, floor, lines[..i + 1]).Refused? { WalkStops(decode, floor, lines, i + 1); }
      var amount :- CheckLine(decode, floor, previous, line);
      previous := decode(line.recipient);
      if total + amount >= TWO_256 { return Refused(InvalidState); }
      total := total + amount;
    }
    assert lines[..|lines|] == lines;
    if total == 0 { return Refused(InvalidState); }
    return Granted(total);
  }

  lemma {:induction false} WalkStops(decode: string -> Option<string>, floor: nat, lines: seq<Line>, n: nat)
    requires n <= |lines| && WalkLines(decode, floor, lines[..n]).Refused?
    ensures WalkLines(decode, floor, lines) == WalkLines(decode, floor, lines[..n])
    decreases |lines|
  {
    hide LineVerdict;
    if n == |lines| {
      assert lines[..n] == lines;
    } else {
      assert lines[..|lines| - 1][..n] == lines[..n];
      WalkStops(decode, floor, lines[..|lines| - 1], n);
    }
  }

  method Admit(b: Bindings, block: Block, l: Ledger, c: Chunk) returns (r: Decision<Settlement>)
    ensures r == AdmitChunk(b, block, l, c)
  {
    hide AdmitPayoutSet, Deadline, ValidSettlement, ValidEntitlement;
    var s :- LoadSettlement(l, Key(c.slotId, c.epoch));
    if s.finalized { return Refused(InvalidState); }
    var _ :- RequireChunksPermitted(s);
    var _ :- RequireSigner(b, block, s, c.signer);
    if s.epoch !in b.params { return Refused(NoParams); }
    var p := b.params[s.epoch];
    if p.version != s.paramsVersion { return Refused(InvalidState); }
    var _ :- RequireBeforeDeadline(b, block, s, p);
    var _ :- RequireChunkPosition(s, p, c.index);
    var admitted := AdmitPayouts(b.decode, p, c.lines);
    var total :- admitted;
    var _ :- RequireWithinCeiling(l, s, total);
    return Granted(s);
  }
}
