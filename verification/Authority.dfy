/**
 x/coreslot/keeper/authority.go over whole runs: a role changes hands only when the
 nominee its holder last named accepts.
 */
module Authority {
  import opened Machine
  import opened CoreSlotTypes
  import opened Handlers
  import opened Invariant
  import opened Runs
  import EndBlock

  /** What one accepted message says about a role's nominee: a new name, nobody, or nothing. */
  function Naming(msg: Msg, role: Role, before: Option<string>): Option<string> {
    match msg
    case NominateAuthority(_, r, nominee) => if r == role then Some(nominee) else before
    case AcceptAuthority(_, r) => if r == role then None else before
    case CancelAuthorityNomination(_, r) => if r == role then None else before
    case _ => before
  }

  /** The nominee last named for the role and neither withdrawn nor installed since, from the messages alone. */
  ghost function LastNamed(rules: Rules, c: Chain, steps: seq<Step>, role: Role): Option<string>
    decreases |steps|
  {
    if steps == [] then
      if role in c.store.nominations then Some(c.store.nominations[role].nominee) else None
    else
      var front, last := steps[..|steps| - 1], steps[|steps| - 1];
      var before := LastNamed(rules, c, front, role);
      match Play(rules, c, front)
      case None => before
      case Some(c') =>
        if last.Tx? && Handle(rules, c'.store, c'.height, last.msg).Success? then Naming(last.msg, role, before)
            else before
  }

  function Nominee(s: Store, role: Role): Option<string> {
    if role in s.nominations then Some(s.nominations[role].nominee) else None
  }

  lemma MessageNaming(rules: Rules, s: Store, height: int64, msg: Msg, role: Role)
    ensures var r := Handle(rules, s, height, msg);
            r.Success? ==> Nominee(r.value, role) == Naming(msg, role, Nominee(s, role))
  {
    hide Register, Activate, Inactivate, Suspend, Remove, Rotate, UpdatePayout, UpdateMetadata, UpdateSettlement,
      UpdatePolicy;
  }

  lemma BlockEndNaming(rules: Rules, s: Store, height: int64)
    ensures var r := EndBlock.Run(rules, s, height);
            r.Success? ==> r.value.0.nominations == s.nominations && r.value.0.params == s.params
  {
  }

  /** The stored nominee is always the one the messages last named. */
  lemma {:induction false} NomineeIsLastNamed(rules: Rules, c: Chain, steps: seq<Step>, role: Role)
    requires Play(rules, c, steps).Some?
    ensures Nominee(Play(rules, c, steps).value.store, role) == LastNamed(rules, c, steps, role)
    decreases |steps|
  {
    hide Handle, EndBlock.Run;
    if steps != [] {
      var front := steps[..|steps| - 1];
      NomineeIsLastNamed(rules, c, front, role);
      var c' := Play(rules, c, front).value;
      match steps[|steps| - 1]
      case Tx(msg) => MessageNaming(rules, c'.store, c'.height, msg, role);
      case End => BlockEndNaming(rules, c'.store, c'.height);
    }
  }

  /** A message that moves a role is its nominee's acceptance, and moves nothing else. */
  lemma MessageMovesRole(rules: Rules, s: Store, height: int64, msg: Msg, role: Role)
    requires role != NoRole
    requires CurrentHolder(Deliver(rules, s, height, msg).params, role) != CurrentHolder(s.params, role)
    ensures msg.AcceptAuthority? && msg.role == role && Nominee(s, role) == Some(msg.nominee)
    ensures Deliver(rules, s, height, msg) ==
            s.(params := SetHolder(s.params, role, msg.nominee), nominations := s.nominations - {role})
    ensures rules.economic(msg.nominee)
  {
    hide Register, Activate, Inactivate, Suspend, Remove, Rotate, UpdatePayout, UpdateMetadata, UpdateSettlement,
      UpdatePolicy;
  }

  /** Only a role's holder names or withdraws a nominee for it. */
  lemma OnlyHolderNames(rules: Rules, s: Store, height: int64, msg: Msg, role: Role)
    requires Handle(rules, s, height, msg).Success?
    requires Naming(msg, role, Nominee(s, role)) != Nominee(s, role)
    ensures match msg
            case NominateAuthority(authority, r, nominee) =>
              r == role && authority == CurrentHolder(s.params, role) && nominee != authority && rules.economic(nominee)
            case CancelAuthorityNomination(authority, r) => r == role && authority == CurrentHolder(s.params, role)
            case AcceptAuthority(nominee, r) => r == role && Nominee(s, role) == Some(nominee)
            case _ => false
  {
    hide Register, Activate, Inactivate, Suspend, Remove, Rotate, UpdatePayout, UpdateMetadata, UpdateSettlement,
      UpdatePolicy;
  }

  /**
   In any run, a step after which a role has another holder is the acceptance of the role by
   the nominee last named for it and not withdrawn. It changes no other parameter, role or
   nomination.
   */
  lemma HolderChanges(rules: Rules, c: Chain, steps: seq<Step>, step: Step, role: Role)
    requires role != NoRole && Play(rules, c, steps + [step]).Some? && Play(rules, c, steps).Some?
    requires CurrentHolder(Play(rules, c, steps + [step]).value.store.params, role) !=
             CurrentHolder(Play(rules, c, steps).value.store.params, role)
    ensures step.Tx? && step.msg.AcceptAuthority? && step.msg.role == role
    ensures LastNamed(rules, c, steps, role) == Some(step.msg.nominee)
    ensures var s, s' := Play(rules, c, steps).value.store, Play(rules, c, steps + [step]).value.store;
            s' == s.(params := SetHolder(s.params, role, step.msg.nominee), nominations := s.nominations - {role})
  {
    hide Handle, EndBlock.Run;
    assert (steps + [step])[..|steps|] == steps;
    NomineeIsLastNamed(rules, c, steps, role);
    var c' := Play(rules, c, steps).value;
    match step
    case Tx(msg) => MessageMovesRole(rules, c'.store, c'.height, msg, role);
    case End => BlockEndNaming(rules, c'.store, c'.height);
  }

  /** A pending nominee never holds the role already. */
  lemma NomineeIsNotHolder(rules: Rules, c: Chain, role: Role)
    requires Good(rules, c)
    ensures Nominee(c.store, role) != Some(CurrentHolder(c.store.params, role))
  {
    hide SlotRows, ActiveIndex, OperatorIndex, ConsensusIndex, RotationRows, Histories, Bounds, MostSlots,
      EndBlock.KeyedByAddress;
  }
}
