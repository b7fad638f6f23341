/** Where everything in the accounts comes from: their contents and the success of every
    instruction, told by the history alone. */
module Origins {
  import opened Words
  import opened Journal
  import opened Ledger
  import opened Settlement

  // ---- Contents ----

  datatype Fact =
    | Configured(imageId: Bytes32, authority: Bytes32)
    | Registered(authority: Bytes32)
    | Stored(digest: Bytes32, journal: Bytes)
    | Spent(nullifier: Bytes32)

  predicate Holds(a: Accounts, f: Fact) {
    match f
    case Configured(id, authority) => a.config.Some? && a.config.value.imageId == id && a.config.value.authority == authority
    case Registered(authority) => a.registry.Some? && a.registry.value.authority == authority
    case Stored(d, journal) => d in a.journals && a.journals[d] == journal
    case Spent(n) => n in a.spent
  }

  /** The instruction asks for the fact. */
  predicate AsksFor(w: World, ix: Instruction, f: Fact) {
    match f
    case Configured(id, authority) => ix == InitializeConfig(id, authority)
    case Registered(authority) => ix == InitializeRegistry(authority)
    case Stored(d, journal) => ix == StoreJournal(journal) && w.sha256(journal) == d
    case Spent(n) => ix.VerifyPredicate? && ix.nullifier == n
  }

  lemma StepEstablishes(w: World, a: Accounts, ix: Instruction, f: Fact)
    ensures Holds(Step(w, a, ix), f) <==> Holds(a, f) || (Exec(w, a, ix).Ok? && AsksFor(w, ix, f))
  {
    hide Decode;
  }

  /** Contents: the accounts hold a configuration, a registry authority, a journal or a
      spent nullifier exactly when a successful instruction of the history asked for it,
      with these very arguments. */
  lemma {:induction false} HoldsIff(w: World, ixs: seq<Instruction>, f: Fact)
    ensures Holds(After(w, ixs), f) <==> exists k: nat :: k < |ixs| && Succeeds(w, ixs, k) && AsksFor(w, ixs[k], f)
    decreases |ixs|
  {
    hide Exec, Step, Holds, AsksFor;
    if ixs == [] {
      NothingHolds(f);
    } else {
      var last := |ixs| - 1;
      HoldsIff(w, ixs[..last], f);
      StepEstablishes(w, After(w, ixs[..last]), ixs[last], f);
      assert forall k: nat | k < last :: ixs[..last][..k] == ixs[..k];
      if k: nat :| k < |ixs| && Succeeds(w, ixs, k) && AsksFor(w, ixs[k], f) {
        assert k < last ==> Succeeds(w, ixs[..last], k) && AsksFor(w, ixs[..last][k], f);
      }
      if k: nat :| k < last && Succeeds(w, ixs[..last], k) && AsksFor(w, ixs[..last][k], f) {
        assert Succeeds(w, ixs, k) && AsksFor(w, ixs[k], f);
      }
    }
  }

  lemma NothingHolds(f: Fact)
    ensures !Holds(Genesis, f)
  {}

  // ---- First come, first served ----

  /** An account that is created once. */
  datatype Slot = ConfigSlot | RegistrySlot | JournalSlot(digest: Bytes32)

  predicate Occupied(a: Accounts, slot: Slot) {
    match slot
    case ConfigSlot => a.config.Some?
    case RegistrySlot => a.registry.Some?
    case JournalSlot(d) => d in a.journals
  }

  /** The instruction creates the account unless it exists. */
  predicate Fills(w: World, ix: Instruction, slot: Slot) {
    match slot
    case ConfigSlot => ix.InitializeConfig?
    case RegistrySlot => ix.InitializeRegistry?
    case JournalSlot(d) => ix.StoreJournal? && |ix.journal| <= 2048 && w.sha256(ix.journal) == d
  }

  lemma StepFills(w: World, a: Accounts, ix: Instruction, slot: Slot)
    ensures Occupied(Step(w, a, ix), slot) <==> Occupied(a, slot) || Fills(w, ix, slot)
    ensures Fills(w, ix, slot) ==> (Exec(w, a, ix).Ok? <==> !Occupied(a, slot))
  {
    hide Decode;
  }

  lemma {:induction false} OccupiedIff(w: World, ixs: seq<Instruction>, slot: Slot)
    ensures Occupied(After(w, ixs), slot) <==> exists k: nat :: k < |ixs| && Fills(w, ixs[k], slot)
    decreases |ixs|
  {
    hide Exec, Step, Fills, Occupied;
    if ixs == [] {
      NothingOccupied(slot);
    } else {
      var last := |ixs| - 1;
      OccupiedIff(w, ixs[..last], slot);
      StepFills(w, After(w, ixs[..last]), ixs[last], slot);
      if k: nat :| k < |ixs| && Fills(w, ixs[k], slot) {
        assert k < last ==> Fills(w, ixs[..last][k], slot);
      }
    }
  }

  lemma NothingOccupied(slot: Slot)
    ensures !Occupied(Genesis, slot)
  {}

  /** Instruction k is the first of the history that fills the slot. */
  predicate First(w: World, ixs: seq<Instruction>, k: nat, slot: Slot)
    requires k < |ixs|
  {
    Fills(w, ixs[k], slot) && forall j: nat | j < k :: !Fills(w, ixs[j], slot)
  }

  /** Creation succeeds exactly for the first comer: the first initialization of either
      program, and the first journal of at most 2048 bytes with its digest. */
  lemma CreatesIff(w: World, ixs: seq<Instruction>, k: nat)
    requires k < |ixs|
    ensures ixs[k].InitializeConfig? ==> (Succeeds(w, ixs, k) <==> First(w, ixs, k, ConfigSlot))
    ensures ixs[k].InitializeRegistry? ==> (Succeeds(w, ixs, k) <==> First(w, ixs, k, RegistrySlot))
    ensures ixs[k].StoreJournal? ==> (Succeeds(w, ixs, k) <==> First(w, ixs, k, JournalSlot(w.sha256(ixs[k].journal))))
  {
    hide Exec, After;
    if ixs[k].InitializeConfig? {
      FirstIff(w, ixs, k, ConfigSlot);
    } else if ixs[k].InitializeRegistry? {
      FirstIff(w, ixs, k, RegistrySlot);
    } else if ixs[k].StoreJournal? {
      if |ixs[k].journal| <= 2048 {
        FirstIff(w, ixs, k, JournalSlot(w.sha256(ixs[k].journal)));
      } else {
        TooLarge(w, After(w, ixs[..k]), ixs[k]);
      }
    }
  }

  lemma FirstIff(w: World, ixs: seq<Instruction>, k: nat, slot: Slot)
    requires k < |ixs| && Fills(w, ixs[k], slot)
    ensures Succeeds(w, ixs, k) <==> First(w, ixs, k, slot)
  {
    hide Exec, After, Fills, Occupied;
    OccupiedIff(w, ixs[..k], slot);
    StepFills(w, After(w, ixs[..k]), ixs[k], slot);
    if j: nat :| j < k && Fills(w, ixs[j], slot) { assert Fills(w, ixs[..k][j], slot); }
  }

  lemma TooLarge(w: World, a: Accounts, ix: Instruction)
    requires ix.StoreJournal? && |ix.journal| > 2048
    ensures Exec(w, a, ix).Err?
  {}

  // ---- Verification, by the history ----

  /** Before instruction k, instruction c configured the image id under which the router
      accepts the digest, instruction j stored a journal with that digest that holds the
      claimed nullifier at the index, and the registry was initialized. */
  predicate Grounded(w: World, ixs: seq<Instruction>, k: nat, c: nat, j: nat)
    requires k < |ixs| && ixs[k].VerifyPredicate?
  {
    && c < k && ixs[c].InitializeConfig? && Succeeds(w, ixs, c)
    && j < k && ixs[j].StoreJournal? && Succeeds(w, ixs, j) && w.sha256(ixs[j].journal) == ixs[k].digest
    && Decode(ixs[j].journal, ixs[k].index) == Ok(ixs[k].nullifier)
    && w.accepts(ixs[k].router, ixs[k].seal, ixs[c].imageId, ixs[k].digest)
  }

  predicate SpentBefore(w: World, ixs: seq<Instruction>, k: nat)
    requires k < |ixs| && ixs[k].VerifyPredicate?
  {
    exists l: nat :: l < k && Verifies(w, ixs, l) && ixs[l].nullifier == ixs[k].nullifier
  }

  predicate RegisteredBefore(ixs: seq<Instruction>, k: nat)
    requires k < |ixs|
  {
    exists r: nat :: r < k && ixs[r].InitializeRegistry?
  }

  /** Instruction k finds the fact exactly when an earlier success asked for it. */
  lemma FoundIff(w: World, ixs: seq<Instruction>, k: nat, f: Fact)
    requires k < |ixs|
    ensures Holds(After(w, ixs[..k]), f) <==> exists j: nat :: j < k && Succeeds(w, ixs, j) && AsksFor(w, ixs[j], f)
  {
    hide Exec, After, Holds, AsksFor;
    HoldsIff(w, ixs[..k], f);
    forall j: nat | j < k
      ensures Succeeds(w, ixs[..k], j) <==> Succeeds(w, ixs, j)
      ensures AsksFor(w, ixs[..k][j], f) <==> AsksFor(w, ixs[j], f)
    {
      assert ixs[..k][..j] == ixs[..j];
    }
  }

  /** Provenance in both directions, with no word about accounts: a verification succeeds
      exactly when earlier instructions ground it and none has spent its nullifier. */
  lemma VerifiesIff(w: World, ixs: seq<Instruction>, k: nat)
    requires k < |ixs| && ixs[k].VerifyPredicate?
    ensures Verifies(w, ixs, k) <==>
            && (exists c: nat, j: nat :: Grounded(w, ixs, k, c, j))
            && RegisteredBefore(ixs, k) && !SpentBefore(w, ixs, k)
  {
    hide Exec, After, Decode;
    var a := After(w, ixs[..k]);
    SucceedsIffRedeemable(w, ixs[..k], ixs[k]);
    SpentBeforeIff(w, ixs, k);
    RegisteredIff(w, ixs, k);
    if Redeemable(w, a, ixs[k]) {
      FoundIff(w, ixs, k, Configured(a.config.value.imageId, a.config.value.authority));
      FoundIff(w, ixs, k, Stored(ixs[k].digest, a.journals[ixs[k].digest]));
      var c: nat :| c < k && Succeeds(w, ixs, c) && AsksFor(w, ixs[c], Configured(a.config.value.imageId, a.config.value.authority));
      var j: nat :| j < k && Succeeds(w, ixs, j) && AsksFor(w, ixs[j], Stored(ixs[k].digest, a.journals[ixs[k].digest]));
      assert Grounded(w, ixs, k, c, j);
    }
    if c: nat, j: nat :| Grounded(w, ixs, k, c, j) {
      FoundIff(w, ixs, k, Configured(ixs[c].imageId, ixs[c].authority));
      FoundIff(w, ixs, k, Stored(ixs[k].digest, ixs[j].journal));
      assert AsksFor(w, ixs[c], Configured(ixs[c].imageId, ixs[c].authority));
      assert AsksFor(w, ixs[j], Stored(ixs[k].digest, ixs[j].journal));
    }
  }

  lemma SpentBeforeIff(w: World, ixs: seq<Instruction>, k: nat)
    requires k < |ixs| && ixs[k].VerifyPredicate?
    ensures SpentBefore(w, ixs, k) <==> ixs[k].nullifier in After(w, ixs[..k]).spent
  {
    hide Exec, After;
    FoundIff(w, ixs, k, Spent(ixs[k].nullifier));
    if l: nat :| l < k && Verifies(w, ixs, l) && ixs[l].nullifier == ixs[k].nullifier {
      assert Succeeds(w, ixs, l) && AsksFor(w, ixs[l], Spent(ixs[k].nullifier));
    }
  }

  lemma RegisteredIff(w: World, ixs: seq<Instruction>, k: nat)
    requires k < |ixs|
    ensures RegisteredBefore(ixs, k) <==> After(w, ixs[..k]).registry.Some?
  {
    hide Exec, After;
    OccupiedIff(w, ixs[..k], RegistrySlot);
    if r: nat :| r < k && ixs[r].InitializeRegistry? { assert Fills(w, ixs[..k][r], RegistrySlot); }
  }

  // ---- The registry's counter ----

  /** The instructions that reached the consumer. */
  predicate Recorded(w: World, ixs: seq<Instruction>, k: nat)
    requires k < |ixs|
  {
    (ixs[k].VerifyPredicate? || ixs[k].RecordVerification?) && Succeeds(w, ixs, k)
  }

  function Recordings(w: World, ixs: seq<Instruction>): set<nat> {
    set k: nat | k < |ixs| && Recorded(w, ixs, k)
  }

  lemma RecordingsGrow(w: World, ixs: seq<Instruction>)
    requires ixs != []
    ensures var last := |ixs| - 1;
            && last !in Recordings(w, ixs[..last])
            && Recordings(w, ixs) == Recordings(w, ixs[..last]) + if Recorded(w, ixs, last) then {last} else {}
  {
    hide Exec, After;
    var before := ixs[..|ixs| - 1];
    forall k: nat | k < |before| ensures Recorded(w, before, k) <==> Recorded(w, ixs, k) {
      assert before[..k] == ixs[..k];
    }
  }

  predicate Counts(a: Accounts, n: nat) {
    if a.registry.Some? then a.registry.value.verifiedCount == Saturated(n) else n == 0
  }

  lemma StepCounts(w: World, a: Accounts, ix: Instruction, n: nat)
    requires Counts(a, n)
    ensures Counts(Step(w, a, ix), if Exec(w, a, ix).Ok? && (ix.VerifyPredicate? || ix.RecordVerification?) then n + 1 else n)
  {
    hide Decode;
  }

  /** The registry counts exactly the successful verifications and direct records, saturated. */
  lemma {:induction false} RegistryCountsRecordings(w: World, ixs: seq<Instruction>)
    ensures Counts(After(w, ixs), |Recordings(w, ixs)|)
    decreases |ixs|
  {
    hide Exec, Step, Counts;
    if ixs == [] {
      NothingCounted();
    } else {
      var last := |ixs| - 1;
      RegistryCountsRecordings(w, ixs[..last]);
      StepCounts(w, After(w, ixs[..last]), ixs[last], |Recordings(w, ixs[..last])|);
      RecordingsGrow(w, ixs);
      hide Recordings;
    }
  }

  lemma NothingCounted()
    ensures Counts(Genesis, 0)
  {}

  /** A direct record succeeds exactly once the registry was initialized. */
  lemma RecordsIff(w: World, ixs: seq<Instruction>, k: nat)
    requires k < |ixs| && ixs[k].RecordVerification?
    ensures Succeeds(w, ixs, k) <==> RegisteredBefore(ixs, k)
  {
    RegisteredIff(w, ixs, k);
    hide After;
  }

  // ---- Refusals ----

  /** Why a verification is refused after any history, case by case. */
  lemma RefusalReasons(w: World, ixs: seq<Instruction>, ix: Instruction)
    requires ix.VerifyPredicate?
    ensures var a, r := After(w, ixs), Exec(w, After(w, ixs), ix);
            var found := a.config.Some? && ix.digest in a.journals;
            var unspent := found && ix.nullifier !in a.spent;
            var decoded := if found then Decode(a.journals[ix.digest], ix.index) else Err(JournalTooShort);
            && (r == Err(AccountInUse) <==> found && ix.nullifier in a.spent)
            && (forall e :: r == Err(DecodeFailed(e)) <==> unspent && decoded == Err(e))
            && (r == Err(NullifierMismatch) <==> unspent && decoded.Ok? && decoded.value != ix.nullifier)
            && (r == Err(ProofRejected) <==>
                unspent && decoded == Ok(ix.nullifier) && !w.accepts(ix.router, ix.seal, a.config.value.imageId, ix.digest))
            && (r == Err(AccountMissing) <==>
                !found || (unspent && decoded == Ok(ix.nullifier) && a.registry.None?
                           && w.accepts(ix.router, ix.seal, a.config.value.imageId, ix.digest)))
  {
    InvariantHolds(w, ixs);
    hide After, Decode;
  }
}
