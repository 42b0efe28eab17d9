/**
 x/coreslot/types: the records, messages and errors of the validator-admission module,
 and the store the keeper holds them in.

 Bech32, ed25519 and SHA-256 are not modelled: `Rules` stands for what they decide.
 Store keys derived from a consensus key are the hex strings the source uses.
 */
module CoreSlotTypes {
  import opened Machine

  datatype Option<+T> = None | Some(value: T)

  datatype Result<+T> = Success(value: T) | Failure(error: Error) {
    predicate IsFailure() { Failure? }
    function PropagateFailure<U>(): Result<U> requires Failure? { Failure(error) }
    function Extract(): T requires Success? { value }
  }

  /** x/coreslot/types/errors.go; `InvalidMetadata` is its one unregistered error. */
  datatype Error =
    | Unauthorized | SlotNotFound | InvalidTransition | DuplicateOperator | DuplicateConsensusKey
    | MinActiveSlots | MaxActiveSlots | InvalidPubKey | InvalidParams | PendingRotationExists
    | CannotRemoveLastValidator | InvalidGenesis | InvalidAddress | InvalidSelectionPolicy
    | NoOpUpdate | SelectionPolicyNotFound | SelectionPolicyCooldown | InvalidAuthorityRole
    | NoPendingNomination | InvalidMetadata

  const HARD_MAX_ACTIVE_CORE_SLOTS: int := 100
  const HARD_MIN_COOLDOWN_BLOCKS: int := 360
  const ABSOLUTE_MAX_SELECTION_RATE_BPS: int := 5_000
  const INITIAL_POLICY_VERSION: int := 1

  /** The two literal weights the source writes, "1.000000000000000000" and its zero. */
  datatype Weight = One | Zero | Decimal(text: string)

  /** The type URL of a public key: "/cosmos.crypto.ed25519.PubKey" or any other. */
  datatype KeyType = Ed25519 | OtherType(url: string)

  /** A protobuf Any holding a public key. */
  datatype PubKey = PubKey(typeUrl: KeyType, value: string)

  /** Why an address is reserved: a fixed text, or the one a removal gave. */
  datatype Reason = KeyRotation | Given(text: string)

  /**
   What the application's cryptography and address encodings decide: the consensus
   address of an ed25519 key's bytes, if they decode; whether a string is an account
   address; whether it may also receive value; whether it is bech32 at all; and whether
   a decimal weight is well formed.
   */
  datatype Rules = Rules(
    address: string -> Option<string>,
    account: string -> bool,
    economic: string -> bool,
    bech32: string -> bool,
    weight: Weight -> bool
  )

  function ConsensusKey(rules: Rules, key: PubKey): Result<string> {
    if key.typeUrl != Ed25519 then Failure(InvalidPubKey)
    else match rules.address(key.value)
      case None => Failure(InvalidPubKey)
      case Some(a) => Success(a)
  }

  datatype Status = Unspecified | Pending | Active | Inactive | Suspended | Removed

  datatype Metadata = Metadata(moniker: string, identity: string, website: string, contact: string, details: string)

  predicate ValidMetadata(m: Option<Metadata>) {
    m.None? ||
    (&& |m.value.moniker| <= 512 && |m.value.identity| <= 512 && |m.value.website| <= 512
     && |m.value.contact| <= 512 && |m.value.details| <= 512)
  }

  datatype CoreSlot = CoreSlot(
    slotId: uint64, operator: string, key: PubKey, payout: string, settlement: string,
    status: Status, power: int64, rewardWeight: Weight, metadata: Option<Metadata>,
    createdHeight: int64, activatedHeight: int64, activationEffectiveHeight: int64,
    updatedHeight: int64, suspendedHeight: int64, removedHeight: int64,
    activationSequence: uint64, policyVersion: uint64, lastPolicyUpdate: int64
  )

  datatype Policy = Policy(
    slotId: uint64, version: uint64, rate: uint64, maxParticipants: uint64,
    validFrom: int64, validUntil: int64
  )

  predicate ValidPolicyValues(rate: uint64, maxParticipants: uint64) {
    0 < rate <= ABSOLUTE_MAX_SELECTION_RATE_BPS && maxParticipants > 0
  }

  datatype Params = Params(
    authority: string, emergencyAuthority: string, votingPower: int64,
    minActive: uint64, maxActive: uint64, activationDelay: uint64, rotationDelay: uint64,
    removalDelay: uint64, reuseLockout: uint64, allowSelfRegistration: bool,
    emergencyBelowMin: bool, policyCooldown: uint64
  )

  /** How many slots of this power fit in an int64 total. */
  function MostSlots(votingPower: int64): int
    requires votingPower > 0
  {
    MAX_INT64 / votingPower
  }

  /** Params.Validate: every refusal is ErrInvalidParams. */
  predicate ValidParams(rules: Rules, p: Params) {
    && rules.bech32(p.authority)
    && rules.bech32(p.emergencyAuthority)
    && p.votingPower > 0
    && p.minActive != 0 && p.maxActive >= p.minActive
    && 0 < p.maxActive <= HARD_MAX_ACTIVE_CORE_SLOTS
    && p.maxActive <= MostSlots(p.votingPower)
    && p.activationDelay == 0
    && p.removalDelay == 0
    && !p.allowSelfRegistration
    && p.policyCooldown >= HARD_MIN_COOLDOWN_BLOCKS
  }

  datatype Rotation = Rotation(slotId: uint64, oldKey: PubKey, newKey: PubKey, requested: int64, effective: int64)

  datatype Reservation = Reservation(address: string, slotId: uint64, until: int64, reason: Reason)

  datatype Validator = Validator(slotId: uint64, key: PubKey, power: int64)

  datatype RewardWeight = RewardWeight(
    slotId: uint64, base: Weight, uptime: Weight, performance: Weight, stake: Weight,
    external: Weight, final: Weight, updatedHeight: int64
  )

  /** Any role number other than the two operational ones behaves like the unset one. */
  datatype Role = NoRole | Primary | Emergency

  datatype Transfer = Transfer(nominee: string, nominatedHeight: int64)

  /** The history collection, keyed by slot and then by version number. */
  type Policies = map<uint64, map<uint64, Policy>>

  /** The seek index, keyed by slot and then by first height. */
  type Starts = map<uint64, map<int64, uint64>>

  /**
   The keeper's collections. `active` and `starts` are the two derived indexes. A
   collection keyed by a pair is a map of maps: one slot's rows are the inner map, which
   is what the source's prefixed iteration ranges over.
   */
  datatype Store = Store(
    params: Params,
    slots: map<uint64, CoreSlot>,
    byOperator: map<string, uint64>,
    byConsensus: map<string, uint64>,
    reserved: map<string, Reservation>,
    rotations: map<uint64, Rotation>,
    lastApplied: map<string, Validator>,
    rewardWeights: map<uint64, RewardWeight>,
    nextSlotId: uint64,
    nominations: map<Role, Transfer>,
    policies: Policies,
    active: set<uint64>,
    starts: Starts
  )

  function Inner<K, V>(outer: map<uint64, map<K, V>>, id: uint64): map<K, V> {
    if id in outer then outer[id] else map[]
  }

  datatype InitialPolicy = InitialPolicy(rate: uint64, maxParticipants: uint64)

  datatype Msg =
    | RegisterCoreSlot(authority: string, operator: string, key: PubKey, payout: string, settlement: string,
                       metadata: Option<Metadata>, policy: Option<InitialPolicy>)
    | ActivateCoreSlot(authority: string, slotId: uint64)
    | InactivateCoreSlot(authorityOrOperator: string, slotId: uint64)
    | SuspendCoreSlot(authority: string, slotId: uint64)
    | RemoveCoreSlot(authority: string, slotId: uint64, reason: string)
    | RotateConsensusKey(authority: string, slotId: uint64, key: PubKey)
    | UpdatePayoutAddress(operator: string, slotId: uint64, payout: string)
    | UpdateOperatorMetadata(operator: string, slotId: uint64, metadata: Option<Metadata>)
    | UpdateSettlementAddress(operator: string, slotId: uint64, settlement: string)
    | UpdateSelectionPolicy(operator: string, slotId: uint64, rate: uint64, maxParticipants: uint64)
    | UpdateParams(authority: string, params: Option<Params>)
    | NominateAuthority(authority: string, role: Role, nominee: string)
    | AcceptAuthority(nominee: string, role: Role)
    | CancelAuthorityNomination(authority: string, role: Role)

  /** A CometBFT validator update: power 0 removes. */
  datatype Update = Update(key: PubKey, power: int64)
}
