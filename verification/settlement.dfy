/** What journals and ledger together guarantee over every history. */
module Settlement {
  import opened Words
  import opened Journal
  import opened JournalGrammar
  import opened Ledger

  // ---- At most eight uses per journal ----

  /** A journal small enough to be stored has room for the indices 0..7 only. */
  lemma StoredIndexBound(data: Bytes, index: u8)
    requires |data| <= MAX_JOURNAL_LEN && Decode(data, index).Ok?
    ensures index < 8
  {
    AcceptedLength(WordsOf(data), index);
    hide DecodeWords;
  }

  function IndexOf(ixs: seq<Instruction>): nat -> nat {
    (k: nat) => if k < |ixs| && ixs[k].VerifyPredicate? then ixs[k].index else 0
  }

  /** Over every history, at most 8 verifications succeed for one journal digest. */
  lemma AtMostEightUses(w: World, ixs: seq<Instruction>, digest: Bytes32)
    ensures |UsesOf(w, ixs, digest)| <= 8
  {
    hide Exec, Decode, Inv;
    var uses := UsesOf(w, ixs, digest);
    forall k | k in uses ensures IndexOf(ixs)(k) < 8 {
      UseDecodes(w, ixs, k);
      InvariantHolds(w, ixs);
      InvBoundsJournals(w, After(w, ixs), digest);
      StoredIndexBound(After(w, ixs).journals[digest], ixs[k].index);
    }
    forall j, k | j in uses && k in uses && IndexOf(ixs)(j) == IndexOf(ixs)(k) ensures j == k {
      UseDecodes(w, ixs, j);
      UseDecodes(w, ixs, k);
      if j < k {
        SpentOnce(w, ixs, j, k);
      } else if k < j {
        SpentOnce(w, ixs, k, j);
      }
    }
    Pigeonhole(uses, IndexOf(ixs), 8);
  }

  lemma InvBoundsJournals(w: World, a: Accounts, digest: Bytes32)
    requires Inv(w, a) && digest in a.journals
    ensures |a.journals[digest]| <= MAX_JOURNAL_LEN
  {}

  // ---- Conservation ----

  function Verifications(w: World, ixs: seq<Instruction>): set<nat> {
    set k: nat | k < |ixs| && Verifies(w, ixs, k)
  }

  /** There are as many spent nullifiers as successful verifications. */
  lemma {:induction false} SpentCountsVerifications(w: World, ixs: seq<Instruction>)
    ensures |After(w, ixs).spent| == |Verifications(w, ixs)|
    decreases |ixs|
  {
    hide Exec;
    if ixs != [] {
      var last := |ixs| - 1;
      var before := ixs[..last];
      SpentCountsVerifications(w, before);
      VerificationsGrow(w, ixs);
      hide Verifications;
      if Verifies(w, ixs, last) {
        VerifyEffect(w, After(w, before), ixs[last]);
      } else {
        OthersDoNotSpend(w, After(w, before), ixs[last]);
      }
    }
  }

  lemma VerificationsGrow(w: World, ixs: seq<Instruction>)
    requires ixs != []
    ensures var last := |ixs| - 1;
            && last !in Verifications(w, ixs[..last])
            && Verifications(w, ixs) == Verifications(w, ixs[..last]) + if Verifies(w, ixs, last) then {last} else {}
  {
    hide Exec, After;
    var before := ixs[..|ixs| - 1];
    forall k: nat | k < |before| ensures Verifies(w, before, k) <==> Verifies(w, ixs, k) {
      assert before[..k] == ixs[..k];
    }
  }

  /** The on-chain counter is the number of successful verifications, saturated. */
  lemma CounterCountsVerifications(w: World, ixs: seq<Instruction>)
    requires After(w, ixs).config.Some?
    ensures After(w, ixs).config.value.verifiedCount == Saturated(|Verifications(w, ixs)|)
  {
    SpentCountsVerifications(w, ixs);
    InvariantHolds(w, ixs);
    hide After, Verifications;
  }

  // ---- Redeemability ----

  /** Everything a verification needs. */
  predicate Redeemable(w: World, a: Accounts, ix: Instruction) {
    && ix.VerifyPredicate?
    && a.config.Some? && a.registry.Some?
    && ix.digest in a.journals && Decode(a.journals[ix.digest], ix.index) == Ok(ix.nullifier)
    && w.accepts(ix.router, ix.seal, a.config.value.imageId, ix.digest)
    && ix.nullifier !in a.spent
  }

  /** After any history a verification succeeds exactly when it is redeemable; in
      particular the digest re-check never fails. */
  lemma SucceedsIffRedeemable(w: World, ixs: seq<Instruction>, ix: Instruction)
    requires ix.VerifyPredicate?
    ensures Exec(w, After(w, ixs), ix).Ok? <==> Redeemable(w, After(w, ixs), ix)
    ensures Exec(w, After(w, ixs), ix) != Err(JournalDigestMismatch)
  {
    InvariantHolds(w, ixs);
    hide After, Decode;
  }

  /** What is redeemable stays so, whatever else happens, until it is spent. */
  lemma StaysRedeemable(w: World, ixs: seq<Instruction>, k: nat, ix: Instruction)
    requires k <= |ixs| && Redeemable(w, After(w, ixs[..k]), ix)
    ensures Redeemable(w, After(w, ixs), ix) <==> ix.nullifier !in After(w, ixs).spent
  {
    HistoryExtends(w, ixs, k);
    hide After, Decode;
  }

  /** The accounts after a list of instructions, from given accounts. */
  function Replay(w: World, a: Accounts, ixs: seq<Instruction>): Accounts
    decreases |ixs|
  {
    if ixs == [] then a else Step(w, Replay(w, a, ixs[..|ixs| - 1]), ixs[|ixs| - 1])
  }

  predicate AllRedeemable(w: World, a: Accounts, ixs: seq<Instruction>) {
    && (forall k | 0 <= k < |ixs| :: Redeemable(w, a, ixs[k]))
    && (forall j, k | 0 <= j < k < |ixs| :: ixs[j].nullifier != ixs[k].nullifier)
  }

  function Nullifiers(ixs: seq<Instruction>): set<Bytes32>
    requires forall k | 0 <= k < |ixs| :: ixs[k].VerifyPredicate?
  {
    set k | 0 <= k < |ixs| :: ixs[k].nullifier
  }

  /** Each instruction of the list succeeds in its turn. */
  predicate AllSucceed(w: World, a: Accounts, ixs: seq<Instruction>) {
    forall k | 0 <= k < |ixs| :: Exec(w, Replay(w, a, ixs[..k]), ixs[k]).Ok?
  }

  lemma OneMoreSucceeds(w: World, a: Accounts, ixs: seq<Instruction>)
    requires ixs != [] && AllSucceed(w, a, ixs[..|ixs| - 1])
    requires Exec(w, Replay(w, a, ixs[..|ixs| - 1]), ixs[|ixs| - 1]).Ok?
    ensures AllSucceed(w, a, ixs)
  {
    hide Exec, Replay;
    var before := ixs[..|ixs| - 1];
    forall k | 0 <= k < |ixs| ensures Exec(w, Replay(w, a, ixs[..k]), ixs[k]).Ok? {
      if k < |before| { assert before[..k] == ixs[..k]; }
    }
  }

  /** Pairwise different redeemable nullifiers are all redeemed, in any order. */
  lemma {:induction false} AllRedeem(w: World, a: Accounts, ixs: seq<Instruction>)
    requires (forall d | d in a.journals :: w.sha256(a.journals[d]) == d)
    requires AllRedeemable(w, a, ixs)
    ensures AllSucceed(w, a, ixs)
    ensures Replay(w, a, ixs).spent == a.spent + Nullifiers(ixs)
    ensures SameSetup(a, Replay(w, a, ixs))
    decreases |ixs|
  {
    hide Exec, Step, Decode, AllSucceed, SameSetup;
    if ixs == [] {
      SameSetupReflexive(a);
      assert AllSucceed(w, a, ixs) by { NoneSucceeds(w, a); }
    } else {
      var last := |ixs| - 1;
      var before := ixs[..last];
      AllRedeem(w, a, before);
      NullifiersGrow(ixs);
      RedeemOne(w, a, Replay(w, a, before), ixs[last]);
      OneMoreSucceeds(w, a, ixs);
    }
  }

  lemma NoneSucceeds(w: World, a: Accounts)
    ensures AllSucceed(w, a, [])
  {}

  lemma SameSetupReflexive(a: Accounts)
    ensures SameSetup(a, a)
  {}

  lemma NullifiersGrow(ixs: seq<Instruction>)
    requires ixs != [] && forall k | 0 <= k < |ixs| :: ixs[k].VerifyPredicate?
    ensures Nullifiers(ixs) == Nullifiers(ixs[..|ixs| - 1]) + {ixs[|ixs| - 1].nullifier}
  {}

  /** Same image id, same journals, registry present. */
  predicate SameSetup(a: Accounts, b: Accounts) {
    && a.config.Some? == b.config.Some? && (a.config.Some? ==> a.config.value.imageId == b.config.value.imageId)
    && a.journals == b.journals && a.registry.Some? == b.registry.Some?
  }

  lemma RedeemOne(w: World, a: Accounts, b: Accounts, ix: Instruction)
    requires Redeemable(w, a, ix) && SameSetup(a, b) && ix.nullifier !in b.spent
    requires forall d | d in a.journals :: w.sha256(a.journals[d]) == d
    ensures Exec(w, b, ix).Ok? && SameSetup(a, Step(w, b, ix))
    ensures Step(w, b, ix).spent == b.spent + {ix.nullifier}
  {
    hide Decode;
  }

  // ---- The bound of eight is attained ----

  function Repeated(i: u8): Bytes32 { seq<u8>(32, _ => i) }

  /** Eight entries whose nullifiers are 00.., 01.., .., 07... */
  function FullWords(): (ws: seq<u32>)
    ensures |ws| == 485
  {
    [0, 0, 0, 0, 8] + seq<u32>(480, j requires 0 <= j < 480 => j / 64)
  }

  lemma FullDecodes(i: u8)
    requires i < 8
    ensures Decode(Serialize(FullWords()), i) == Ok(Repeated(i))
  {
    hide Serialize, DecodeWords;
    var rest := seq<u32>(480, j requires 0 <= j < 480 => j / 64);
    assert Splits(FullWords(), [], [], 8, rest);
    forall k | 0 <= k < 32 ensures rest[64 * (i as nat) + k] == Repeated(i)[k] {
      assert (64 * (i as nat) + k) / 64 == i;
    }
    assert Spells(rest, 64 * (i as nat), Repeated(i));
    assert Grammatical(FullWords(), i, Repeated(i));
    WordsOfSerialize(FullWords());
    AcceptsWordsIff(FullWords(), i, Repeated(i));
  }

  function TrustingWorld(): World { World(_ => Repeated(0), (_, _, _, _) => true) }

  function SetUp(): (ixs: seq<Instruction>)
    ensures |ixs| == 3
  {
    [InitializeConfig(Repeated(0), Repeated(0)), InitializeRegistry(Repeated(0)), StoreJournal(Serialize(FullWords()))]
  }

  function Redemptions(n: nat): (r: seq<Instruction>)
    requires n <= 8
    ensures |r| == n && forall k :: 0 <= k < n ==> r[k] == VerifyPredicate(0, [], Repeated(0), k, Repeated(k))
  {
    seq<Instruction>(n, k requires 0 <= k < n => VerifyPredicate(0, [], Repeated(0), k, Repeated(k)))
  }

  lemma SetUpState()
    ensures var a := After(TrustingWorld(), SetUp());
            a.config.Some? && a.registry.Some? && a.spent == {}
            && a.journals == map[Repeated(0) := Serialize(FullWords())]
            && a.config.value.imageId == Repeated(0)
  {
    hide Serialize, FullWords;
    var w, ixs := TrustingWorld(), SetUp();
    assert ixs[..2][..1][..0] == [];
    assert ixs[..2][..1] == ixs[..1];
    assert ixs[..1][..0] == [];
    assert After(w, ixs[..1]).config.Some?;
    assert After(w, ixs[..2]).registry.Some?;
  }

  /** A history in which one digest is verified eight times. */
  lemma EightUsesArePossible()
    ensures exists w: World, ixs: seq<Instruction>, digest: Bytes32 :: |UsesOf(w, ixs, digest)| == 8
  {
    var w, ixs := TrustingWorld(), SetUp() + Redemptions(8);
    hide UsesOf, SetUp;
    forall k | 3 <= k < 11 ensures k in UsesOf(w, ixs, Repeated(0)) {
      UseIsPossible(k);
    }
    IntervalSize(UsesOf(w, ixs, Repeated(0)), 3, 11);
    AtMostEightUses(w, ixs, Repeated(0));
  }

  lemma {:induction false} IntervalSize(s: set<nat>, lo: nat, hi: nat)
    requires lo <= hi && forall k | lo <= k < hi :: k in s
    ensures |s| >= hi - lo
    decreases hi
  {
    if lo < hi {
      IntervalSize(s - {hi - 1}, lo, hi - 1);
    }
  }

  lemma UseIsPossible(k: nat)
    requires 3 <= k < 11
    ensures k in UsesOf(TrustingWorld(), SetUp() + Redemptions(8), Repeated(0))
  {
    var w, all := TrustingWorld(), SetUp() + Redemptions(8);
    var ixs := Redemptions(k - 2);
    SetUpState();
    hide Decode, After, Exec, SetUp, Serialize, Replay, AllRedeemable, TrustingWorld, Repeated, FullWords, UsesOf;
    var a := After(w, SetUp());
    RedemptionsAreRedeemable(a, k - 2);
    RedemptionSucceeds(a, k - 3);
    ReplayIsAfter(w, SetUp(), ixs[..k - 3]);
    PrefixOfHistory(SetUp(), k);
    IsUse(w, all, k);
  }

  lemma IsUse(w: World, ixs: seq<Instruction>, k: nat)
    requires k < |ixs| && Verifies(w, ixs, k)
    ensures k in UsesOf(w, ixs, ixs[k].digest)
  {
    hide Exec, After;
  }

  lemma PrefixOfHistory(first: seq<Instruction>, k: nat)
    requires |first| == 3 && 3 <= k < 11
    ensures var all, ixs := first + Redemptions(8), Redemptions(k - 2);
            all[..k] == first + ixs[..k - 3] && all[k] == ixs[k - 3]
  {
    hide Repeated;
  }

  lemma RedemptionSucceeds(a: Accounts, k: nat)
    requires k < 8 && AllRedeemable(TrustingWorld(), a, Redemptions(k + 1))
    requires a.journals == map[Repeated(0) := Serialize(FullWords())]
    ensures var ixs := Redemptions(k + 1); Exec(TrustingWorld(), Replay(TrustingWorld(), a, ixs[..k]), ixs[k]).Ok?
  {
    hide Decode, Exec, Serialize, Replay, AllRedeemable, FullWords;
    AllRedeem(TrustingWorld(), a, Redemptions(k + 1));
  }

  lemma RedemptionsAreRedeemable(a: Accounts, n: nat)
    requires n <= 8 && a.config.Some? && a.registry.Some? && a.spent == {}
    requires a.journals == map[Repeated(0) := Serialize(FullWords())]
    ensures AllRedeemable(TrustingWorld(), a, Redemptions(n))
  {
    hide Decode, Serialize, FullWords;
    var w, ixs := TrustingWorld(), Redemptions(n);
    forall k | 0 <= k < n ensures Redeemable(w, a, ixs[k]) {
      FullDecodes(k);
    }
    forall i, j | 0 <= i < j < n ensures ixs[i].nullifier != ixs[j].nullifier {
      assert Repeated(i)[0] != Repeated(j)[0];
    }
  }

  lemma {:induction false} ReplayIsAfter(w: World, first: seq<Instruction>, then_: seq<Instruction>)
    ensures After(w, first + then_) == Replay(w, After(w, first), then_)
    decreases |then_|
  {
    hide Step;
    if then_ == [] {
      assert first + then_ == first;
    } else {
      var n := |then_| - 1;
      assert (first + then_)[..|first| + n] == first + then_[..n];
      ReplayIsAfter(w, first, then_[..n]);
    }
  }
}
