/** The coordinator and its consumer as one transition system over the accounts they
    own. A failed instruction changes nothing. */
module Ledger {
  import opened Words
  import opened Journal

  const MAX_JOURNAL_LEN: nat := 2048
  const U64_MAX: u64 := 0xFFFF_FFFF_FFFF_FFFF

  datatype Config = Config(imageId: Bytes32, authority: Bytes32, verifiedCount: u64)

  datatype Registry = Registry(verifiedCount: u64, authority: Bytes32)

  /** The program-derived accounts: journals keyed by digest, one replay guard per
      spent nullifier. */
  datatype Accounts = Accounts(
    config: Option<Config>,
    journals: map<Bytes32, Bytes>,
    spent: set<Bytes32>,
    registry: Option<Registry>)

  type Seal = seq<u8>

  /** Whatever the router's own accounts hold when an instruction runs. */
  type RouterState = nat

  /** The foreign code: the hash, and the Verifier Router's verdict on
      (seal, image id, journal digest). Nothing is assumed about either. */
  datatype World = World(sha256: seq<u8> -> Bytes32, accepts: (RouterState, Seal, Bytes32, Bytes32) -> bool)

  datatype Instruction =
    | InitializeConfig(imageId: Bytes32, authority: Bytes32)
    | StoreJournal(journal: Bytes)
    | VerifyPredicate(router: RouterState, seal: Seal, digest: Bytes32, index: u8, nullifier: Bytes32)
    | InitializeRegistry(authority: Bytes32)
    | RecordVerification(nullifier: Bytes32)

  datatype LedgerError =
    | AccountInUse
    | AccountMissing
    | JournalTooLarge
    | JournalDigestMismatch
    | DecodeFailed(error: JournalError)
    | NullifierMismatch
    | ProofRejected

  function SaturatingIncrement(x: u64): u64 { if x == U64_MAX then x else x + 1 }

  function Record(a: Accounts): Result<Accounts, LedgerError> {
    match a.registry
    case None => Err(AccountMissing)
    case Some(r) => Ok(a.(registry := Some(r.(verifiedCount := SaturatingIncrement(r.verifiedCount)))))
  }

  /** The account constraints are checked first, then the handler runs. */
  function Verify(w: World, a: Accounts, ix: Instruction): Result<Accounts, LedgerError>
    requires ix.VerifyPredicate?
  {
    if a.config.None? || ix.digest !in a.journals then Err(AccountMissing)
    else if ix.nullifier in a.spent then Err(AccountInUse)
    else
      var data, config := a.journals[ix.digest], a.config.value;
      if w.sha256(data) != ix.digest then Err(JournalDigestMismatch)
      else
        match Decode(data, ix.index)
        case Err(e) => Err(DecodeFailed(e))
        case Ok(nullifier) =>
          if nullifier != ix.nullifier then Err(NullifierMismatch)
          else if !w.accepts(ix.router, ix.seal, config.imageId, ix.digest) then Err(ProofRejected)
          else Record(a.(config := Some(config.(verifiedCount := SaturatingIncrement(config.verifiedCount))),
                         spent := a.spent + {ix.nullifier}))
  }

  function Exec(w: World, a: Accounts, ix: Instruction): Result<Accounts, LedgerError> {
    match ix
    case InitializeConfig(imageId, authority) =>
      if a.config.Some? then Err(AccountInUse) else Ok(a.(config := Some(Config(imageId, authority, 0))))
    case StoreJournal(journal) =>
      if w.sha256(journal) in a.journals then Err(AccountInUse)
      else if |journal| > MAX_JOURNAL_LEN then Err(JournalTooLarge)
      else Ok(a.(journals := a.journals[w.sha256(journal) := journal]))
    case VerifyPredicate(_, _, _, _, _) => Verify(w, a, ix)
    case InitializeRegistry(authority) =>
      if a.registry.Some? then Err(AccountInUse) else Ok(a.(registry := Some(Registry(0, authority))))
    case RecordVerification(_) => Record(a)
  }

  function Step(w: World, a: Accounts, ix: Instruction): Accounts {
    match Exec(w, a, ix)
    case Ok(a') => a'
    case Err(_) => a
  }

  const Genesis: Accounts := Accounts(None, map[], {}, None)

  /** The accounts after a history of instructions, successful or not. */
  function After(w: World, ixs: seq<Instruction>): Accounts
    decreases |ixs|
  {
    if ixs == [] then Genesis else Step(w, After(w, ixs[..|ixs| - 1]), ixs[|ixs| - 1])
  }

  /** Instruction k of the history succeeded. */
  predicate Succeeds(w: World, ixs: seq<Instruction>, k: nat)
    requires k < |ixs|
  {
    Exec(w, After(w, ixs[..k]), ixs[k]).Ok?
  }

  /** Instruction k is a successful verification. */
  predicate Verifies(w: World, ixs: seq<Instruction>, k: nat)
    requires k < |ixs|
  {
    ixs[k].VerifyPredicate? && Succeeds(w, ixs, k)
  }

  // ---- The invariant ----

  /** min(n, 2^64 - 1) */
  function Saturated(n: nat): u64 { if n <= U64_MAX then n else U64_MAX }

  predicate Inv(w: World, a: Accounts) {
    // The store is self-certifying and bounded.
    && (forall d | d in a.journals :: w.sha256(a.journals[d]) == d && |a.journals[d]| <= MAX_JOURNAL_LEN)
    // Nothing is spent before both programs are set up.
    && (a.spent != {} ==> a.config.Some? && a.registry.Some?)
    // The counter counts the spent nullifiers, and the consumer keeps up.
    && (a.config.Some? ==> a.config.value.verifiedCount == Saturated(|a.spent|))
    && (a.config.Some? && a.registry.Some? ==> a.config.value.verifiedCount <= a.registry.value.verifiedCount)
  }

  lemma StepKeepsInv(w: World, a: Accounts, ix: Instruction)
    requires Inv(w, a)
    ensures Inv(w, Step(w, a, ix))
  {
    hide Decode;
  }

  /** Over every history: the store is self-certifying and bounded, the counter is
      min(number of spent nullifiers, 2^64 - 1), the registry is never behind. */
  lemma {:induction false} InvariantHolds(w: World, ixs: seq<Instruction>)
    ensures Inv(w, After(w, ixs))
    decreases |ixs|
  {
    hide Exec, Inv;
    if ixs == [] {
      GenesisInv(w);
    } else {
      InvariantHolds(w, ixs[..|ixs| - 1]);
      StepKeepsInv(w, After(w, ixs[..|ixs| - 1]), ixs[|ixs| - 1]);
    }
  }

  lemma GenesisInv(w: World)
    ensures Inv(w, Genesis)
  {}

  // ---- What is never undone ----

  predicate Extends(a: Accounts, b: Accounts) {
    && (a.config.Some? ==> b.config.Some? && b.config.value.imageId == a.config.value.imageId
                           && b.config.value.authority == a.config.value.authority
                           && b.config.value.verifiedCount >= a.config.value.verifiedCount)
    && (forall d | d in a.journals :: d in b.journals && b.journals[d] == a.journals[d])
    && a.spent <= b.spent
    && (a.registry.Some? ==> b.registry.Some? && b.registry.value.authority == a.registry.value.authority
                             && b.registry.value.verifiedCount >= a.registry.value.verifiedCount)
  }

  lemma StepExtends(w: World, a: Accounts, ix: Instruction)
    ensures Extends(a, Step(w, a, ix))
  {
    hide Decode;
  }

  lemma ExtendsTransitive(a: Accounts, b: Accounts, c: Accounts)
    requires Extends(a, b) && Extends(b, c)
    ensures Extends(a, c)
  {}

  /** The image id and the authority are fixed at initialization, journals are
      immutable, spent nullifiers stay spent, counters never fall. */
  lemma {:induction false} HistoryExtends(w: World, ixs: seq<Instruction>, k: nat)
    requires k <= |ixs|
    ensures Extends(After(w, ixs[..k]), After(w, ixs))
    decreases |ixs| - k
  {
    hide Exec, Extends;
    if k == |ixs| {
      assert ixs[..k] == ixs;
      ExtendsReflexive(After(w, ixs));
    } else {
      HistoryExtends(w, ixs, k + 1);
      assert ixs[..k + 1][..k] == ixs[..k];
      StepExtends(w, After(w, ixs[..k]), ixs[k]);
      ExtendsTransitive(After(w, ixs[..k]), After(w, ixs[..k + 1]), After(w, ixs));
    }
  }

  lemma ExtendsReflexive(a: Accounts)
    ensures Extends(a, a)
  {}

  // ---- Provenance ----

  /** Instruction k proves where its nullifier comes from: a journal stored under the
      digest holds it at the index, and the router accepted the digest under the
      configured image id. */
  predicate Justifies(w: World, a: Accounts, ix: Instruction, n: Bytes32) {
    && ix.VerifyPredicate? && ix.nullifier == n
    && a.config.Some? && ix.digest in a.journals
    && w.sha256(a.journals[ix.digest]) == ix.digest
    && Decode(a.journals[ix.digest], ix.index) == Ok(n)
    && w.accepts(ix.router, ix.seal, a.config.value.imageId, ix.digest)
  }

  lemma NewlySpentIsJustified(w: World, a: Accounts, ix: Instruction, n: Bytes32)
    requires n in Step(w, a, ix).spent && n !in a.spent
    ensures Exec(w, a, ix).Ok? && Justifies(w, Step(w, a, ix), ix, n)
  {
    hide Decode;
  }

  lemma JustifiesExtends(w: World, a: Accounts, b: Accounts, ix: Instruction, n: Bytes32)
    requires Justifies(w, a, ix, n) && Extends(a, b)
    ensures Justifies(w, b, ix, n)
  {}

  /** Provenance: every nullifier spent by a history was spent by a verification in
      it that the final accounts still justify. */
  lemma {:induction false} SpentIsJustified(w: World, ixs: seq<Instruction>, n: Bytes32) returns (k: nat)
    requires n in After(w, ixs).spent
    ensures k < |ixs| && Verifies(w, ixs, k) && Justifies(w, After(w, ixs), ixs[k], n)
    decreases |ixs|
  {
    hide Exec, Justifies, Extends;
    var last := |ixs| - 1;
    var before := After(w, ixs[..last]);
    StepExtends(w, before, ixs[last]);
    if n in before.spent {
      k := SpentIsJustified(w, ixs[..last], n);
      assert ixs[..last][..k] == ixs[..k];
      JustifiesExtends(w, before, After(w, ixs), ixs[k], n);
    } else {
      k := last;
      NewlySpentIsJustified(w, before, ixs[last], n);
      JustifiedIsVerify(w, After(w, ixs), ixs[last], n);
    }
  }

  lemma JustifiedIsVerify(w: World, a: Accounts, ix: Instruction, n: Bytes32)
    requires Justifies(w, a, ix, n)
    ensures ix.VerifyPredicate? && ix.nullifier == n
  {}

  // ---- Once, and at most eight times per journal ----

  lemma VerifyEffect(w: World, a: Accounts, ix: Instruction)
    requires ix.VerifyPredicate? && Exec(w, a, ix).Ok?
    ensures ix.nullifier !in a.spent && Step(w, a, ix).spent == a.spent + {ix.nullifier}
    ensures ix.digest in a.journals && Decode(a.journals[ix.digest], ix.index) == Ok(ix.nullifier)
  {
    hide Decode;
  }

  lemma OthersDoNotSpend(w: World, a: Accounts, ix: Instruction)
    requires !(ix.VerifyPredicate? && Exec(w, a, ix).Ok?)
    ensures Step(w, a, ix).spent == a.spent
  {}

  /** No two verifications of a history spend the same nullifier. */
  lemma SpentOnce(w: World, ixs: seq<Instruction>, j: nat, k: nat)
    requires j < k < |ixs| && Verifies(w, ixs, j) && Verifies(w, ixs, k)
    ensures ixs[j].nullifier != ixs[k].nullifier
  {
    hide Exec, Extends;
    VerifyEffect(w, After(w, ixs[..j]), ixs[j]);
    VerifyEffect(w, After(w, ixs[..k]), ixs[k]);
    assert ixs[..j + 1][..j] == ixs[..j];
    assert ixs[..k][..j + 1] == ixs[..j + 1];
    HistoryExtends(w, ixs[..k], j + 1);
    ExtendsSpent(After(w, ixs[..j + 1]), After(w, ixs[..k]));
  }

  lemma ExtendsSpent(a: Accounts, b: Accounts)
    requires Extends(a, b)
    ensures a.spent <= b.spent
    ensures forall d | d in a.journals :: d in b.journals && b.journals[d] == a.journals[d]
  {}

  /** The successful verifications of a history that name a digest. */
  function UsesOf(w: World, ixs: seq<Instruction>, digest: Bytes32): set<nat> {
    set k: nat | k < |ixs| && Verifies(w, ixs, k) && ixs[k].digest == digest
  }

  /** A use decodes its nullifier from the journal that the final accounts hold. */
  lemma UseDecodes(w: World, ixs: seq<Instruction>, k: nat)
    requires k < |ixs| && Verifies(w, ixs, k)
    ensures var a := After(w, ixs);
            ixs[k].digest in a.journals && Decode(a.journals[ixs[k].digest], ixs[k].index) == Ok(ixs[k].nullifier)
  {
    hide Exec, Extends, Decode;
    VerifyEffect(w, After(w, ixs[..k]), ixs[k]);
    HistoryExtends(w, ixs, k);
    ExtendsSpent(After(w, ixs[..k]), After(w, ixs));
  }

  lemma {:induction false} Pigeonhole(s: set<nat>, f: nat -> nat, bound: nat)
    requires forall x | x in s :: f(x) < bound
    requires forall x, y | x in s && y in s && f(x) == f(y) :: x == y
    ensures |s| <= bound
    decreases bound
  {
    if s != {} {
      var top := set x | x in s && f(x) == bound - 1;
      if top == {} {
        assert forall x | x in s :: x !in top;
        Pigeonhole(s, f, bound - 1);
      } else {
        var x :| x in top;
        assert forall y | y in s - {x} :: y !in top;
        Pigeonhole(s - {x}, f, bound - 1);
      }
    }
  }
}
