/** What the journal walker accepts: its grammar, its errors, and an encoder it inverts. */
module JournalGrammar {
  import opened Words
  import opened Journal

  // ---- The grammar ----

  /** Counted lists of words, one behind the other. */
  function Lists(lists: seq<seq<u32>>): seq<u32>
    requires forall l | l in lists :: |l| < 0x1_0000_0000
  {
    if lists == [] then [] else [|lists[0]|] + lists[0] + Lists(lists[1..])
  }

  /** Two empty vectors, the ciphertexts, a block of 32-word commitments. */
  function Head(lists: seq<seq<u32>>, block: seq<u32>): seq<u32>
    requires |lists| < 0x1_0000_0000 && (forall l | l in lists :: |l| < 0x1_0000_0000)
    requires |block| % 32 == 0 && |block| / 32 < 0x1_0000_0000
  {
    [0, 0, |lists|] + Lists(lists) + [|block| / 32] + block
  }

  /** A head, a nullifier count above the index, and 64 * index words further on the
      32 words that spell v. Nothing is said about the other words. */
  ghost predicate Grammatical(ws: seq<u32>, index: u8, v: Bytes32) {
    exists lists: seq<seq<u32>>, block: seq<u32>, count: u32, rest: seq<u32> ::
      Splits(ws, lists, block, count, rest) && index < count && Spells(rest, 64 * (index as nat), v)
  }

  predicate Splits(ws: seq<u32>, lists: seq<seq<u32>>, block: seq<u32>, count: u32, rest: seq<u32>) {
    && |lists| < 0x1_0000_0000 && (forall l | l in lists :: |l| < 0x1_0000_0000)
    && |block| % 32 == 0 && |block| / 32 < 0x1_0000_0000
    && ws == Head(lists, block) + [count] + rest
  }

  predicate Spells(ws: seq<u32>, at: nat, v: seq<u8>) {
    at + |v| <= |ws| && forall k :: 0 <= k < |v| ==> ws[at + k] == v[k]
  }

  // ---- Acceptance ----

  lemma {:induction false} BytesAtSpells(ws: seq<u32>, at: nat, n: nat, v: seq<u8>)
    requires |v| == n > 0
    ensures BytesAt(ws, at, n) == Ok(v) <==> Spells(ws, at, v)
    decreases n
  {
    if n == 1 {
      assert v == [] + [v[0]];
      assert at < |ws| ==> ws[at + 0] == ws[at];
    } else {
      BytesAtSpells(ws, at, n - 1, v[..n - 1]);
      assert v == v[..n - 1] + [v[n - 1]];
    }
  }

  /** The skipped words are a counted list of counted lists. */
  lemma {:induction false} SkipListsInverse(ws: seq<u32>, at: nat, count: nat) returns (lists: seq<seq<u32>>)
    requires at <= |ws| && SkipLists(ws, at, count).Some? && SkipLists(ws, at, count).value <= |ws|
    ensures |lists| == count && (forall l | l in lists :: |l| < 0x1_0000_0000)
    ensures at <= SkipLists(ws, at, count).value
    ensures ws[at..SkipLists(ws, at, count).value] == Lists(lists)
    decreases count
  {
    if count == 0 {
      lists := [];
    } else {
      var next := at + 1 + ws[at];
      SkipListsGrows(ws, next, count - 1);
      var p := SkipLists(ws, at, count).value;
      var rest := SkipListsInverse(ws, next, count - 1);
      var l := ws[at + 1..next];
      lists := [l] + rest;
      assert lists[1..] == rest;
      assert ws[at..p] == [ws[at]] + l + ws[next..p];
    }
  }

  lemma {:induction false} SkipListsGrows(ws: seq<u32>, at: nat, count: nat)
    ensures SkipLists(ws, at, count).Some? ==> SkipLists(ws, at, count).value >= at + count
    decreases count
  {
    if count > 0 && at < |ws| { SkipListsGrows(ws, at + 1 + ws[at], count - 1); }
  }

  lemma {:induction false} SkipListsOver(pre: seq<u32>, lists: seq<seq<u32>>, post: seq<u32>)
    requires forall l | l in lists :: |l| < 0x1_0000_0000
    ensures SkipLists(pre + Lists(lists) + post, |pre|, |lists|) == Some(|pre| + |Lists(lists)|)
    decreases |lists|
  {
    if lists != [] {
      var first: seq<u32> := [|lists[0]|] + lists[0];
      var rest := Lists(lists[1..]);
      SkipListsOver(pre + first, lists[1..], post);
      Reassociate(pre, first, rest, post);
      assert Lists(lists) == first + rest;
      hide Lists;
    }
  }

  lemma Reassociate(a: seq<u32>, b: seq<u32>, c: seq<u32>, d: seq<u32>)
    ensures a + (b + c) + d == (a + b) + c + d
    ensures b != [] ==> ((a + b) + c + d)[|a|] == b[0]
  {}

  /** Both directions at once: parsing a split stream is decided by the rest. */
  lemma DecodeSplit(ws: seq<u32>, lists: seq<seq<u32>>, block: seq<u32>, count: u32, rest: seq<u32>, index: u8)
    requires Splits(ws, lists, block, count, rest)
    ensures DecodeWords(ws, index) ==
            if index >= count then Err(NullifierIndexOutOfRange)
            else match BytesAt(rest, 64 * (index as nat), 32) { case Ok(bs) => Ok(bs) case Err(e) => Err(e) }
  {
    hide Lists, BytesAt;
    var pre: seq<u32> := [0, 0, |lists|];
    var post: seq<u32> := [|block| / 32] + block + [count] + rest;
    assert ws == pre + Lists(lists) + post;
    SkipListsOver(pre, lists, post);
    var p := 3 + |Lists(lists)|;
    var q := p + 1 + |block|;
    assert ws[p] == post[0] && ws[q] == post[1 + |block|];
    assert ws == ws[..q + 1] + rest;
    BytesAtShifts(ws[..q + 1], rest, 64 * (index as nat), 32);
  }

  lemma {:induction false} BytesAtShifts(pre: seq<u32>, rest: seq<u32>, at: nat, n: nat)
    ensures BytesAt(pre + rest, |pre| + at, n) == BytesAt(rest, at, n)
    decreases n
  {
    if n > 0 { BytesAtShifts(pre, rest, at, n - 1); }
  }

  /** Every stream that is walked through to an entry splits. */
  lemma ParsedSplits(ws: seq<u32>, index: u8)
    returns (lists: seq<seq<u32>>, block: seq<u32>, count: u32, rest: seq<u32>)
    requires DecodeWords(ws, index).Ok? || DecodeWords(ws, index).error in {NullifierIndexOutOfRange, InvalidByteWord}
    ensures Splits(ws, lists, block, count, rest)
  {
    var p := SkipLists(ws, 3, ws[2]).value;
    var q := p + 1 + 32 * (ws[p] as nat);
    lists := SkipListsInverse(ws, 3, ws[2]);
    block, count, rest := ws[p + 1..q], ws[q], ws[q + 1..];
    SplitAround(ws, p, q);
    hide Lists;
    assert [ws[0], ws[1], ws[2]] == [0, 0, |lists|];
  }

  lemma SplitAround(ws: seq<u32>, p: nat, q: nat)
    requires 3 <= p < q < |ws|
    ensures ws == [ws[0], ws[1], ws[2]] + ws[3..p] + [ws[p]] + ws[p + 1..q] + [ws[q]] + ws[q + 1..]
  {}

  /** Exact acceptance: the walker returns v if and only if the journal is word-aligned
      and its words are grammatical with v at the index. */
  lemma AcceptsIff(journal: Bytes, index: u8, v: Bytes32)
    ensures Decode(journal, index) == Ok(v) <==> |journal| % 4 == 0 && Grammatical(WordsOf(journal), index, v)
  {
    if |journal| % 4 == 0 { AcceptsWordsIff(WordsOf(journal), index, v); }
  }

  lemma AcceptsWordsIff(ws: seq<u32>, index: u8, v: Bytes32)
    ensures DecodeWords(ws, index) == Ok(v) <==> Grammatical(ws, index, v)
  {
    if DecodeWords(ws, index) == Ok(v) {
      var lists, block, count, rest := ParsedSplits(ws, index);
      DecodeSplit(ws, lists, block, count, rest, index);
      BytesAtSpells(rest, 64 * (index as nat), 32, v);
      hide Splits, DecodeWords;
      assert Splits(ws, lists, block, count, rest);
    } else if Grammatical(ws, index, v) {
      hide Splits, DecodeWords;
      var lists: seq<seq<u32>>, block: seq<u32>, count: u32, rest: seq<u32> :|
        Splits(ws, lists, block, count, rest) && index < count && Spells(rest, 64 * (index as nat), v);
      DecodeSplit(ws, lists, block, count, rest, index);
      BytesAtSpells(rest, 64 * (index as nat), 32, v);
    }
  }

  /** The index error is reported exactly for a split stream with too small a count. */
  lemma OutOfRangeIff(ws: seq<u32>, index: u8)
    ensures DecodeWords(ws, index) == Err(NullifierIndexOutOfRange) <==>
            exists lists: seq<seq<u32>>, block: seq<u32>, count: u32, rest: seq<u32> ::
              Splits(ws, lists, block, count, rest) && index >= count
  {
    if DecodeWords(ws, index) == Err(NullifierIndexOutOfRange) {
      var lists, block, count, rest := ParsedSplits(ws, index);
      DecodeSplit(ws, lists, block, count, rest, index);
      NoRangeError(rest, 64 * (index as nat), 32);
      hide Splits, DecodeWords;
      assert Splits(ws, lists, block, count, rest);
    } else {
      hide Splits, DecodeWords;
      forall lists: seq<seq<u32>>, block: seq<u32>, count: u32, rest: seq<u32> | Splits(ws, lists, block, count, rest)
        ensures index < count
      {
        DecodeSplit(ws, lists, block, count, rest, index);
      }
    }
  }

  lemma {:induction false} NoRangeError(ws: seq<u32>, at: nat, n: nat)
    ensures BytesAt(ws, at, n).Err? ==> BytesAt(ws, at, n).error in {JournalTooShort, InvalidByteWord}
    decreases n
  {
    if n > 0 { NoRangeError(ws, at, n - 1); }
  }

  /** The other two refusals: a first or second count that is not zero, ... */
  lemma UnsupportedShapeIff(ws: seq<u32>, index: u8)
    ensures DecodeWords(ws, index) == Err(UnsupportedShape) <==>
            (|ws| >= 1 && ws[0] != 0) || (|ws| >= 2 && ws[0] == 0 && ws[1] != 0)
  {
    if |ws| >= 3 && ws[0] == 0 && ws[1] == 0 { DecodeFromErrors(ws, index); }
  }

  lemma DecodeFromErrors(ws: seq<u32>, index: u8)
    requires |ws| >= 3 && ws[0] == 0 && ws[1] == 0
    ensures DecodeWords(ws, index) != Err(UnsupportedShape) && DecodeWords(ws, index) != Err(NotWordAligned)
  {
    hide BytesAt;
    var end := SkipLists(ws, 3, ws[2]);
    if end.Some? && end.value < |ws| && end.value + 1 + 32 * (ws[end.value] as nat) < |ws| {
      NoRangeError(ws, end.value + 2 + 32 * (ws[end.value] as nat) + 64 * (index as nat), 32);
    }
  }

  predicate AllBytes(ws: seq<u32>, from: nat, to: nat) {
    to <= |ws| && forall p | from <= p < to :: ws[p] <= 0xFF
  }

  /** The words from `at` on are bytes up to position p, where a larger one stands. */
  predicate SpoiltAt(ws: seq<u32>, at: nat, p: nat) { at <= p < |ws| && ws[p] > 0xFF && AllBytes(ws, at, p) }

  ghost predicate Spoilt(ws: seq<u32>, at: nat, n: nat) { exists p: nat :: p < at + n && SpoiltAt(ws, at, p) }

  lemma {:induction false} BytesAtSpoilt(ws: seq<u32>, at: nat, n: nat)
    ensures BytesAt(ws, at, n).Ok? <==> n == 0 || AllBytes(ws, at, at + n)
    ensures BytesAt(ws, at, n) == Err(InvalidByteWord) <==> Spoilt(ws, at, n)
    decreases n
  {
    if n > 0 {
      BytesAtSpoilt(ws, at, n - 1);
      var last := at + n - 1;
      if BytesAt(ws, at, n - 1).Ok? && last < |ws| && ws[last] > 0xFF {
        assert SpoiltAt(ws, at, last);
      }
      if Spoilt(ws, at, n - 1) {
        var p: nat :| p < last && SpoiltAt(ws, at, p);
        assert p < at + n;
      }
    }
  }

  /** ... and an entry in which a word above 0xFF comes before the journal's end. */
  lemma InvalidByteWordIff(ws: seq<u32>, index: u8)
    ensures DecodeWords(ws, index) == Err(InvalidByteWord) <==>
            exists lists: seq<seq<u32>>, block: seq<u32>, count: u32, rest: seq<u32> ::
              Splits(ws, lists, block, count, rest) && index < count && Spoilt(rest, 64 * (index as nat), 32)
  {
    if DecodeWords(ws, index) == Err(InvalidByteWord) {
      var lists, block, count, rest := ParsedSplits(ws, index);
      DecodeSplit(ws, lists, block, count, rest, index);
      BytesAtSpoilt(rest, 64 * (index as nat), 32);
      hide Splits, DecodeWords;
      assert Splits(ws, lists, block, count, rest);
    } else {
      hide Splits, DecodeWords, Spoilt;
      forall lists: seq<seq<u32>>, block: seq<u32>, count: u32, rest: seq<u32>
        | Splits(ws, lists, block, count, rest) && index < count
        ensures !Spoilt(rest, 64 * (index as nat), 32)
      {
        DecodeSplit(ws, lists, block, count, rest, index);
        BytesAtSpoilt(rest, 64 * (index as nat), 32);
      }
    }
  }

  /** NotWordAligned is reported exactly for bytes that are not whole words, before
      anything else is looked at. */
  lemma NotWordAlignedIff(journal: Bytes, index: u8)
    ensures Decode(journal, index) == Err(NotWordAligned) <==> |journal| % 4 != 0
  {
    var ws := WordsOf(journal);
    if |ws| >= 3 && ws[0] == 0 && ws[1] == 0 { DecodeFromErrors(ws, index); }
  }

  /** An entry at an index needs 5 + 64 * index + 32 words. */
  lemma AcceptedLength(ws: seq<u32>, index: u8)
    requires DecodeWords(ws, index).Ok?
    ensures |ws| >= 37 + 64 * (index as nat)
  {
    var lists, block, count, rest := ParsedSplits(ws, index);
    DecodeSplit(ws, lists, block, count, rest, index);
    BytesAtSpells(rest, 64 * (index as nat), 32, DecodeWords(ws, index).value);
    hide DecodeWords, Lists;
  }

  // ---- Too short means incomplete ----

  lemma {:induction false} SkipListsExtends(ws: seq<u32>, more: seq<u32>, at: nat, count: nat)
    requires SkipLists(ws, at, count).Some?
    ensures SkipLists(ws + more, at, count) == SkipLists(ws, at, count)
    decreases count
  {
    if count > 0 { SkipListsExtends(ws, more, at + 1 + ws[at], count - 1); }
  }

  lemma {:induction false} BytesAtExtends(ws: seq<u32>, more: seq<u32>, at: nat, n: nat)
    requires BytesAt(ws, at, n) != Err(JournalTooShort)
    ensures BytesAt(ws + more, at, n) == BytesAt(ws, at, n)
    decreases n
  {
    if n > 0 { BytesAtExtends(ws, more, at, n - 1); }
  }

  /** Appending words never changes an answer other than JournalTooShort. */
  lemma AppendingIsStable(ws: seq<u32>, more: seq<u32>, index: u8)
    requires DecodeWords(ws, index) != Err(JournalTooShort)
    ensures DecodeWords(ws + more, index) == DecodeWords(ws, index)
  {
    if |ws| >= 3 && ws[0] == 0 && ws[1] == 0 {
      var p := SkipLists(ws, 3, ws[2]).value;
      SkipListsExtends(ws, more, 3, ws[2]);
      var q := p + 1 + 32 * (ws[p] as nat);
      if index < ws[q] {
        BytesAtExtends(ws, more, q + 1 + 64 * (index as nat), 32);
      }
    }
  }

  function Zeroes(n: nat): (z: seq<u32>)
    ensures |z| == n && forall i :: 0 <= i < n ==> z[i] == 0
  {
    seq<u32>(n, _ => 0)
  }

  /** A walk that runs off the words ends just behind enough padding. */
  lemma {:induction false} PadLists(ws: seq<u32>, at: nat, count: nat) returns (pad: nat)
    requires SkipLists(ws, at, count).Some? ==> SkipLists(ws, at, count).value >= |ws|
    ensures SkipLists(ws + Zeroes(pad), at, count) == Some(|ws| + pad)
    decreases count
  {
    if count == 0 {
      pad := at - |ws|;
    } else if at < |ws| {
      pad := PadLists(ws, at + 1 + ws[at], count - 1);
    } else {
      if count > 1 { assert SkipLists(ws, at + 1, count - 1).None?; }
      pad := PadLists(ws, at + 1, count - 1);
      SkipListsGrows(ws + Zeroes(pad), at + 1, count - 1);
      assert (ws + Zeroes(pad))[at] == 0;
    }
  }

  lemma {:induction false} ZeroBytes(ws: seq<u32>, at: nat, n: nat, m: nat)
    requires n <= m && BytesAt(ws, at, n).Ok? && at + n >= |ws|
    ensures forall pad: nat :: at + m <= |ws| + pad ==> BytesAt(ws + Zeroes(pad), at, m).Ok?
    decreases m
  {
    forall pad: nat | at + m <= |ws| + pad ensures BytesAt(ws + Zeroes(pad), at, m).Ok? {
      BytesAtExtends(ws, Zeroes(pad), at, n);
      if m > n {
        ZeroBytes(ws, at, n, m - 1);
        assert (ws + Zeroes(pad))[at + m - 1] == 0;
      }
    }
  }

  /** Where a byte block runs short, its existing words are all bytes. */
  lemma {:induction false} ShortBytes(ws: seq<u32>, at: nat, m: nat) returns (n: nat)
    requires BytesAt(ws, at, m) == Err(JournalTooShort)
    ensures n <= m && BytesAt(ws, at, n).Ok? && at + n >= |ws|
    decreases m
  {
    if BytesAt(ws, at, m - 1).Ok? {
      n := m - 1;
    } else {
      n := ShortBytes(ws, at, m - 1);
    }
  }

  /** The words that complete a stream whose nullifier block starts at its end. */
  function Entry(index: u8): seq<u32> { [0, index as u32 + 1] + Zeroes(64 * (index as nat) + 32) }

  lemma CompleteFromBlock(ws: seq<u32>, index: u8)
    requires |ws| >= 3 && ws[0] == 0 && ws[1] == 0 && SkipLists(ws, 3, ws[2]) == Some(|ws|)
    ensures DecodeWords(ws + Entry(index), index).Ok?
  {
    var all := ws + Entry(index);
    SkipListsExtends(ws, Entry(index), 3, ws[2]);
    var lead := ws + [0, index as u32 + 1];
    var tail := Zeroes(64 * (index as nat) + 32);
    assert all == lead + tail;
    BytesAtShifts(lead, tail, 64 * (index as nat), 32);
    AllZeroBytes(tail, 64 * (index as nat), 32);
    assert all[|ws|] == 0 && all[|ws| + 1] == index as u32 + 1;
  }

  lemma {:induction false} AllZeroBytes(ws: seq<u32>, at: nat, n: nat)
    requires at + n <= |ws| && forall i :: 0 <= i < |ws| ==> ws[i] == 0
    ensures BytesAt(ws, at, n).Ok?
    decreases n
  {
    if n > 0 { AllZeroBytes(ws, at, n - 1); }
  }

  /** JournalTooShort is reported exactly for the streams that are not accepted yet
      but are a prefix of an accepted one. */
  lemma TooShortIff(ws: seq<u32>, index: u8)
    ensures DecodeWords(ws, index) == Err(JournalTooShort) <==>
            DecodeWords(ws, index).Err? && exists more :: DecodeWords(ws + more, index).Ok?
  {
    if DecodeWords(ws, index) == Err(JournalTooShort) {
      var more := Completion(ws, index);
    } else {
      forall more ensures DecodeWords(ws + more, index) == DecodeWords(ws, index) {
        AppendingIsStable(ws, more, index);
      }
    }
  }

  lemma Completion(ws: seq<u32>, index: u8) returns (more: seq<u32>)
    requires DecodeWords(ws, index) == Err(JournalTooShort)
    ensures DecodeWords(ws + more, index).Ok?
  {
    if |ws| < 3 {
      var start := Zeroes(3 - |ws|);
      CompleteFromBlock(ws + start, index);
      more := start + Entry(index);
      assert ws + more == (ws + start) + Entry(index);
    } else {
      var end := SkipLists(ws, 3, ws[2]);
      if end.None? || end.value >= |ws| {
        var pad := PadLists(ws, 3, ws[2]);
        CompleteFromBlock(ws + Zeroes(pad), index);
        more := Zeroes(pad) + Entry(index);
        assert ws + more == (ws + Zeroes(pad)) + Entry(index);
      } else {
        more := CompleteCommitments(ws, index, end.value);
      }
    }
  }

  lemma CompleteCommitments(ws: seq<u32>, index: u8, p: nat) returns (more: seq<u32>)
    requires |ws| >= 3 && ws[0] == 0 && ws[1] == 0 && SkipLists(ws, 3, ws[2]) == Some(p) && p < |ws|
    requires DecodeFrom(ws, p, index) == Err(JournalTooShort)
    ensures DecodeWords(ws + more, index).Ok?
  {
    hide SkipLists, BytesAt;
    var q := p + 1 + 32 * (ws[p] as nat);
    if q >= |ws| {
      more := CompleteCount(ws, index, p, q);
    } else {
      more := Zeroes(q + 33 + 64 * (index as nat));
      SkipListsExtends(ws, more, 3, ws[2]);
      CompleteEntry(ws, q + 1 + 64 * (index as nat), |more|);
    }
  }

  lemma CompleteCount(ws: seq<u32>, index: u8, p: nat, q: nat) returns (more: seq<u32>)
    requires |ws| >= 3 && ws[0] == 0 && ws[1] == 0 && SkipLists(ws, 3, ws[2]) == Some(p) && p < |ws| <= q
    requires q == p + 1 + 32 * (ws[p] as nat)
    ensures DecodeWords(ws + more, index).Ok?
  {
    var lead := ws + Zeroes(q - |ws|) + [index as u32 + 1];
    var tail := Zeroes(64 * (index as nat) + 32);
    more := Zeroes(q - |ws|) + [index as u32 + 1] + tail;
    assert ws + more == lead + tail;
    SkipListsExtends(ws, more, 3, ws[2]);
    BytesAtShifts(lead, tail, 64 * (index as nat), 32);
    AllZeroBytes(tail, 64 * (index as nat), 32);
    hide SkipLists, BytesAt;
    assert (ws + more)[q] == index as u32 + 1;
  }

  lemma CompleteEntry(ws: seq<u32>, e: nat, pad: nat)
    requires BytesAt(ws, e, 32) == Err(JournalTooShort) && e + 32 <= |ws| + pad
    ensures BytesAt(ws + Zeroes(pad), e, 32).Ok?
  {
    var n := ShortBytes(ws, e, 32);
    ZeroBytes(ws, e, n, 32);
  }

  // ---- The encoder ----

  function Spread(bs: seq<u8>): (ws: seq<u32>)
    ensures |ws| == |bs| && forall i :: 0 <= i < |bs| ==> ws[i] == bs[i]
  {
    seq<u32>(|bs|, i requires 0 <= i < |bs| => bs[i] as u32)
  }

  function SpreadAll(vectors: seq<seq<u8>>): (r: seq<seq<u32>>)
    requires forall v | v in vectors :: |v| < 0x1_0000_0000
    ensures |r| == |vectors| && forall l | l in r :: |l| < 0x1_0000_0000
  {
    if vectors == [] then [] else [Spread(vectors[0])] + SpreadAll(vectors[1..])
  }

  function Blocks(items: seq<Bytes32>): (ws: seq<u32>)
    ensures |ws| == 32 * |items|
  {
    if items == [] then [] else Spread(items[0]) + Blocks(items[1..])
  }

  /** (nullifier, commitment-set digest) pairs. */
  function Entries(entries: seq<(Bytes32, Bytes32)>): (ws: seq<u32>)
    ensures |ws| == 64 * |entries|
  {
    if entries == [] then [] else Spread(entries[0].0) + Spread(entries[0].1) + Entries(entries[1..])
  }

  predicate Encodable(ciphertexts: seq<seq<u8>>, commitments: seq<Bytes32>, entries: seq<(Bytes32, Bytes32)>) {
    && |ciphertexts| < 0x1_0000_0000 && (forall c | c in ciphertexts :: |c| < 0x1_0000_0000)
    && |commitments| < 0x1_0000_0000 && |entries| < 0x1_0000_0000
  }

  /** The risc0-serde stream of a circuit output with empty public states. */
  function EncodeWords(ciphertexts: seq<seq<u8>>, commitments: seq<Bytes32>,
                       entries: seq<(Bytes32, Bytes32)>, trailing: seq<u32>): seq<u32>
    requires Encodable(ciphertexts, commitments, entries)
  {
    Head(SpreadAll(ciphertexts), Blocks(commitments)) + [|entries|] + (Entries(entries) + trailing)
  }

  lemma {:induction false} EntrySpells(entries: seq<(Bytes32, Bytes32)>, trailing: seq<u32>, i: nat)
    requires i < |entries|
    ensures Spells(Entries(entries) + trailing, 64 * i, entries[i].0)
    decreases i
  {
    var first, rest := Spread(entries[0].0) + Spread(entries[0].1), Entries(entries[1..]);
    if i > 0 {
      EntrySpells(entries[1..], trailing, i - 1);
      forall k | 0 <= k < 32 ensures (Entries(entries) + trailing)[64 * i + k] == entries[i].0[k] {
        assert (first + rest + trailing)[64 * i + k] == (rest + trailing)[64 * (i - 1) + k];
      }
    }
  }

  /** Round trip: whatever is encoded, with any trailing words, decoding at an index
      below the number of entries returns that entry's nullifier. */
  lemma DecodesEncoding(ciphertexts: seq<seq<u8>>, commitments: seq<Bytes32>,
                        entries: seq<(Bytes32, Bytes32)>, trailing: seq<u32>, index: u8)
    requires Encodable(ciphertexts, commitments, entries) && index < |entries|
    requires |EncodeWords(ciphertexts, commitments, entries, trailing)| < 0x2000_0000_0000_0000
    ensures Decode(Serialize(EncodeWords(ciphertexts, commitments, entries, trailing)), index) == Ok(entries[index].0)
  {
    var ws := EncodeWords(ciphertexts, commitments, entries, trailing);
    var rest := Entries(entries) + trailing;
    EntrySpells(entries, trailing, index);
    assert Splits(ws, SpreadAll(ciphertexts), Blocks(commitments), |entries|, rest);
    hide Splits, DecodeWords, EncodeWords, Serialize;
    assert Grammatical(ws, index, entries[index].0);
    AcceptsWordsIff(ws, index, entries[index].0);
    WordsOfSerialize(ws);
  }

  /** The shape of the deployed artifact: one 68-byte ciphertext, one commitment, one
      entry and four trailing words make 696 bytes. */
  lemma ArtifactLength(ciphertext: seq<u8>, commitment: Bytes32, entry: (Bytes32, Bytes32), trailing: seq<u32>)
    requires |ciphertext| == 68 && |trailing| == 4
    ensures |Serialize(EncodeWords([ciphertext], [commitment], [entry], trailing))| == 696
  {
    var lists := SpreadAll([ciphertext]);
    assert Lists(lists[1..]) == [];
  }
}
