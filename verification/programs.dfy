/** The coordinator and consumer programs in their own form: handlers that update
    account fields in place, inside a transaction that is rolled back on failure. */
module Programs {
  import opened Words
  import opened Journal
  import opened Ledger

  class ConsumerProgram {
    var registry: Option<Registry>

    constructor ()
      ensures registry == None
    {
      registry := None;
    }

    method Initialize(authority: Bytes32) returns (r: Result<(), LedgerError>)
      modifies this
      ensures r == if old(registry).None? then Ok(()) else Err(AccountInUse)
      ensures registry == if r.Ok? then Some(Registry(0, authority)) else old(registry)
    {
      if registry.Some? { return Err(AccountInUse); }
      registry := Some(Registry(0, authority));
      r := Ok(());
    }

    method RecordVerification(nullifier: Bytes32) returns (r: Result<(), LedgerError>)
      modifies this
      ensures r == if old(registry).Some? then Ok(()) else Err(AccountMissing)
      ensures r.Ok? ==> registry == Some(old(registry).value.(verifiedCount := SaturatingIncrement(old(registry).value.verifiedCount)))
      ensures r.Err? ==> registry == old(registry)
    {
      if registry.None? { return Err(AccountMissing); }
      var entry := registry.value;
      registry := Some(entry.(verifiedCount := SaturatingIncrement(entry.verifiedCount)));
      r := Ok(());
    }
  }

  class CoordinatorProgram {
    const world: World
    const consumer: ConsumerProgram
    var config: Option<Config>
    var journals: map<Bytes32, Bytes>
    var spent: set<Bytes32>

    ghost function View(): Accounts
      reads this, consumer
    {
      Accounts(config, journals, spent, consumer.registry)
    }

    constructor (world: World, consumer: ConsumerProgram)
      ensures this.world == world && this.consumer == consumer
      ensures View() == Genesis.(registry := consumer.registry)
    {
      this.world, this.consumer := world, consumer;
      config, journals, spent := None, map[], {};
    }

    /** The transaction took the accounts from `before` to where the ledger takes them. */
    ghost predicate Performs(before: Accounts, ix: Instruction, r: Result<(), LedgerError>)
      reads this, consumer
    {
      match Exec(world, before, ix)
      case Ok(a) => r == Ok(()) && View() == a
      case Err(e) => r == Err(e) && View() == before
    }

    method Initialize(imageId: Bytes32, authority: Bytes32) returns (r: Result<(), LedgerError>)
      modifies this
      ensures Performs(old(View()), InitializeConfig(imageId, authority), r)
    {
      if config.Some? { return Err(AccountInUse); }
      config := Some(Config(imageId, authority, 0));
      r := Ok(());
    }

    method StoreJournal(journal: Bytes) returns (r: Result<(), LedgerError>)
      modifies this
      ensures Performs(old(View()), Instruction.StoreJournal(journal), r)
    {
      var digest := world.sha256(journal);
      if digest in journals { return Err(AccountInUse); }
      // `init` creates the empty account before the handler runs.
      journals := journals[digest := []];
      if |journal| > MAX_JOURNAL_LEN {
        journals := journals - {digest};
        return Err(JournalTooLarge);
      }
      journals := journals[digest := journal];
      r := Ok(());
    }

    /** `init` of the replay guard, then the handler; the guard and the counter are
        rolled back when any later step fails. */
    method VerifyPredicate(router: RouterState, seal: Seal, digest: Bytes32, index: u8, claimed: Bytes32)
      returns (r: Result<(), LedgerError>)
      modifies this, consumer
      ensures Performs(old(View()), Instruction.VerifyPredicate(router, seal, digest, index, claimed), r)
    {
      hide Decode;
      if config.None? || digest !in journals { return Err(AccountMissing); }
      if claimed in spent { return Err(AccountInUse); }
      var configBefore, spentBefore := config, spent;
      spent := spent + {claimed};
      r := Handle(router, seal, digest, index, claimed);
      if r.Err? {
        config, spent := configBefore, spentBefore;
      }
    }

    /** Why the handler fails, when it does. */
    ghost function HandlerError(router: RouterState, seal: Seal, digest: Bytes32, index: u8, claimed: Bytes32,
                                imageId: Bytes32): LedgerError
      reads this
      requires digest in journals
    {
      if world.sha256(journals[digest]) != digest then JournalDigestMismatch
      else
        match Decode(journals[digest], index)
        case Err(e) => DecodeFailed(e)
        case Ok(n) =>
          if n != claimed then NullifierMismatch
          else if !world.accepts(router, seal, imageId, digest) then ProofRejected
          else AccountMissing
    }

    method Handle(router: RouterState, seal: Seal, digest: Bytes32, index: u8, claimed: Bytes32)
      returns (r: Result<(), LedgerError>)
      requires config.Some? && digest in journals
      modifies this, consumer
      ensures journals == old(journals) && spent == old(spent)
      ensures r.Ok? <==>
              && world.sha256(journals[digest]) == digest
              && Decode(journals[digest], index) == Ok(claimed)
              && world.accepts(router, seal, old(config).value.imageId, digest)
              && old(consumer.registry).Some?
      ensures r.Ok? ==> r == Ok(())
      ensures r.Ok? ==>
              && config == Some(old(config).value.(verifiedCount := SaturatingIncrement(old(config).value.verifiedCount)))
              && consumer.registry == Some(old(consumer.registry).value.(verifiedCount :=
                   SaturatingIncrement(old(consumer.registry).value.verifiedCount)))
      ensures r.Err? ==> consumer.registry == old(consumer.registry)
      ensures r.Err? ==> r.error == HandlerError(router, seal, digest, index, claimed, old(config).value.imageId)
    {
      hide Decode;
      var data := journals[digest];
      if world.sha256(data) != digest { return Err(JournalDigestMismatch); }
      var nullifier, _ := DecodeNullifier(data, index);
      if nullifier.Err? { return Err(DecodeFailed(nullifier.error)); }
      if nullifier.value != claimed { return Err(NullifierMismatch); }
      var c := config.value;
      if !world.accepts(router, seal, c.imageId, digest) { return Err(ProofRejected); }
      config := Some(c.(verifiedCount := SaturatingIncrement(c.verifiedCount)));
      r := consumer.RecordVerification(nullifier.value);
    }

    /** Direct calls to the consumer, as ledger instructions. */
    method InitializeConsumer(authority: Bytes32) returns (r: Result<(), LedgerError>)
      modifies consumer
      ensures Performs(old(View()), InitializeRegistry(authority), r)
    {
      r := consumer.Initialize(authority);
    }

    method RecordDirectly(nullifier: Bytes32) returns (r: Result<(), LedgerError>)
      modifies consumer
      ensures Performs(old(View()), RecordVerification(nullifier), r)
    {
      r := consumer.RecordVerification(nullifier);
    }
  }
}
