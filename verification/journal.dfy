/** The on-chain walker that finds one nullifier in a proof journal.

    A journal is a stream of little-endian 32-bit words. The walker's imperative
    form is proved equal to a parser over the word sequence; the parser is then
    characterised against the journal's grammar and an encoder. */
module Journal {
  import opened Words

  datatype JournalError =
    | JournalTooShort
    | NotWordAligned
    | UnsupportedShape
    | NullifierIndexOutOfRange
    | InvalidByteWord

  type Bytes = s: seq<u8> | |s| < 0x8000_0000_0000_0000
  type Bytes32 = s: seq<u8> | |s| == 32 witness seq(32, _ => 0)

  // ---- Bytes and words ----

  function Serialize(ws: seq<u32>): (bs: seq<u8>)
    ensures |bs| == 4 * |ws|
  {
    if ws == [] then [] else LeBytes(ws[0], 4) + Serialize(ws[1..])
  }

  function WordOf(bs: seq<u8>): u32
    requires |bs| == 4
  {
    LeNatBound(bs);
    Pow2Words();
    LeNat(bs)
  }

  /** The complete words of a byte string. */
  function WordsOf(bs: seq<u8>): (ws: seq<u32>)
    ensures |ws| == |bs| / 4
    ensures forall i :: 0 <= i < |ws| ==> ws[i] == WordOf(bs[4 * i..4 * i + 4])
  {
    seq<u32>(|bs| / 4, i requires 0 <= i < |bs| / 4 => WordOf(bs[4 * i..4 * i + 4]))
  }

  lemma {:induction false} SerializedAt(ws: seq<u32>, i: nat)
    requires i < |ws|
    ensures Serialize(ws)[4 * i..4 * i + 4] == LeBytes(ws[i], 4)
  {
    hide LeBytes;
    var head, rest := LeBytes(ws[0], 4), Serialize(ws[1..]);
    if i == 0 {
      assert (head + rest)[0..4] == head;
    } else {
      SerializedAt(ws[1..], i - 1);
      assert (head + rest)[4 * i..4 * i + 4] == rest[4 * (i - 1)..4 * (i - 1) + 4];
    }
  }

  /** Word-aligned byte strings and word sequences are the same thing. */
  lemma WordsOfSerialize(ws: seq<u32>)
    ensures WordsOf(Serialize(ws)) == ws
  {
    hide LeBytes, LeNat, Serialize;
    forall i: nat | i < |ws| ensures WordsOf(Serialize(ws))[i] == ws[i] {
      SerializedAt(ws, i);
      Pow2Words();
      LeNatOfLeBytes(ws[i], 4);
    }
  }

  lemma SerializeWordsOf(bs: seq<u8>)
    requires |bs| % 4 == 0
    ensures Serialize(WordsOf(bs)) == bs
  {
    hide LeBytes, LeNat, Serialize;
    var ws := WordsOf(bs);
    forall k: nat | k < |bs| ensures Serialize(ws)[k] == bs[k] {
      var i := k / 4;
      SerializedAt(ws, i);
      LeBytesOfLeNat(bs[4 * i..4 * i + 4]);
      assert Serialize(ws)[k] == Serialize(ws)[4 * i..4 * i + 4][k - 4 * i];
      assert bs[k] == bs[4 * i..4 * i + 4][k - 4 * i];
    }
  }

  // ---- The walker ----

  /** The word at index i; both products are checked for overflow. */
  function ReadWord(journal: Bytes, i: u64): (r: Result<u32, JournalError>)
    ensures r == if i < |WordsOf(journal)| then Ok(WordsOf(journal)[i]) else Err(JournalTooShort)
  {
    if i as nat * 4 >= 0x1_0000_0000_0000_0000 then Err(JournalTooShort)
    else if i as nat * 4 + 4 >= 0x1_0000_0000_0000_0000 then Err(JournalTooShort)
    else if i * 4 + 4 > |journal| then Err(JournalTooShort)
    else Ok(WordOf(journal[i * 4..i * 4 + 4]))
  }

  function ReadU8Word(journal: Bytes, i: u64): Result<u8, JournalError> {
    match ReadWord(journal, i)
    case Err(e) => Err(e)
    case Ok(w) => if w <= 0xFF then Ok(w) else Err(InvalidByteWord)
  }

  /** Fills a 32-byte buffer. The sum `i + k` is never out of range, because word
      i + k - 1 was read. */
  method ReadBytes32(journal: Bytes, i: u64) returns (r: Result<Bytes32, JournalError>)
    ensures r == BytesAt(WordsOf(journal), i, 32)
  {
    hide ReadWord, WordsOf;
    var out := new u8[32](_ => 0);
    for k := 0 to 32
      invariant i + k < 0x1_0000_0000_0000_0000
      invariant BytesAt(WordsOf(journal), i, k) == Ok(out[..k])
    {
      var w := ReadU8Word(journal, i + k);
      match w {
        case Err(e) =>
          FirstBadByte(WordsOf(journal), i, k, 32);
          return Err(e);
        case Ok(b) =>
          out[k] := b;
          assert out[..k + 1] == out[..k] + [b];
      }
    }
    assert out[..32] == out[..];
    r := Ok(out[..]);
  }

  function CheckedAdd(a: u64, b: nat): Option<u64> {
    if a + b < 0x1_0000_0000_0000_0000 then Some(a + b) else None
  }

  /** decode_nullifier_from_journal. Neither the plain additions `word + 1` nor the
      checked ones can overflow. The walk takes at most one turn of its loop per
      journal word, whatever count is claimed. */
  method DecodeNullifier(journal: Bytes, entryIndex: u8) returns (r: Result<Bytes32, JournalError>, ghost turns: nat)
    ensures r == Decode(journal, entryIndex)
    ensures 4 * turns <= |journal|
  {
    hide ReadWord, WordsOf, SkipLists, DecodeFrom;
    turns := 0;
    if |journal| % 4 != 0 { return Err(NotWordAligned), 0; }
    if |journal| < 4 { return Err(JournalTooShort), 0; }
    var word: u64 := 0;
    var preLen := ReadWord(journal, word);
    assert preLen.Ok?;
    if preLen.value != 0 { return Err(UnsupportedShape), 0; }
    word := word + 1;
    var postLen := ReadWord(journal, word);
    if postLen.Err? { return Err(postLen.error), 0; }
    if postLen.value != 0 { return Err(UnsupportedShape), 0; }
    word := word + 1;
    var ciphertexts := ReadWord(journal, word);
    if ciphertexts.Err? { return Err(ciphertexts.error), 0; }
    word := word + 1;
    var end;
    end, turns := SkipCiphertexts(journal, ciphertexts.value);
    match end
    case Err(e) => r := Err(e);
    case Ok(p) => r := DecodeRest(journal, p, entryIndex);
  }

  /** The data-driven loop over the ciphertexts, from word 3 on. */
  method SkipCiphertexts(journal: Bytes, count: u32) returns (end: Result<u64, JournalError>, ghost turns: nat)
    ensures match SkipLists(WordsOf(journal), 3, count)
            case Some(p) => end == Ok(p) && p < 0x4000_0000_0000_0000
            case None => end == Err(JournalTooShort)
    ensures 4 * turns <= |journal|
  {
    hide ReadWord, WordsOf;
    ghost var ws := WordsOf(journal);
    var word: u64 := 3;
    turns := 0;
    for k := 0 to count
      invariant turns == k && 4 * turns <= |journal|
      invariant SkipLists(ws, 3, count) == SkipLists(ws, word, count - k)
      invariant 3 + k <= word <= |ws| + 0x1_0000_0003
    {
      var innerLen := ReadWord(journal, word);
      if innerLen.Err? { return Err(innerLen.error), turns; }
      word := word + 1;
      var next := CheckedAdd(word, innerLen.value);
      assert next.Some?;
      word := next.value;
      turns := turns + 1;
    }
    end := Ok(word);
  }

  /** The walk behind the ciphertexts. */
  method DecodeRest(journal: Bytes, start: u64, entryIndex: u8) returns (r: Result<Bytes32, JournalError>)
    ensures r == DecodeFrom(WordsOf(journal), start, entryIndex)
  {
    hide ReadWord, WordsOf, BytesAt;
    var word := start;
    var commitments := ReadWord(journal, word);
    if commitments.Err? { return Err(commitments.error); }
    word := word + 1;
    var next := CheckedAdd(word, commitments.value as nat * 32);
    assert next.Some?;
    word := next.value;
    var nullifiers := ReadWord(journal, word);
    if nullifiers.Err? { return Err(nullifiers.error); }
    word := word + 1;
    if entryIndex >= nullifiers.value { return Err(NullifierIndexOutOfRange); }
    var entry := CheckedAdd(word, entryIndex as nat * 64);
    assert entry.Some?;
    r := ReadBytes32(journal, entry.value);
  }

  // ---- The parser ----

  /** The index behind `count` counted lists that start at `at`; None when a list's
      count lies beyond the words. */
  function SkipLists(ws: seq<u32>, at: nat, count: nat): Option<nat>
    decreases count
  {
    if count == 0 then Some(at)
    else if at < |ws| then SkipLists(ws, at + 1 + ws[at], count - 1)
    else None
  }

  /** The bytes in the `n` words from `at` on; the first bad word decides the error. */
  function BytesAt(ws: seq<u32>, at: nat, n: nat): (r: Result<seq<u8>, JournalError>)
    ensures r.Ok? ==> |r.value| == n
  {
    if n == 0 then Ok([])
    else
      match BytesAt(ws, at, n - 1)
      case Err(e) => Err(e)
      case Ok(bs) =>
        if at + n - 1 >= |ws| then Err(JournalTooShort)
        else if ws[at + n - 1] > 0xFF then Err(InvalidByteWord)
        else Ok(bs + [ws[at + n - 1]])
  }

  function DecodeFrom(ws: seq<u32>, p: nat, index: u8): Result<Bytes32, JournalError> {
    if p >= |ws| then Err(JournalTooShort)
    else
      var q := p + 1 + 32 * (ws[p] as nat);
      if q >= |ws| then Err(JournalTooShort)
      else if index >= ws[q] then Err(NullifierIndexOutOfRange)
      else
        match BytesAt(ws, q + 1 + 64 * (index as nat), 32)
        case Ok(bs) => Ok(bs)
        case Err(e) => Err(e)
  }

  function DecodeWords(ws: seq<u32>, index: u8): Result<Bytes32, JournalError> {
    if |ws| < 1 then Err(JournalTooShort)
    else if ws[0] != 0 then Err(UnsupportedShape)
    else if |ws| < 2 then Err(JournalTooShort)
    else if ws[1] != 0 then Err(UnsupportedShape)
    else if |ws| < 3 then Err(JournalTooShort)
    else
      match SkipLists(ws, 3, ws[2])
      case None => Err(JournalTooShort)
      case Some(p) => DecodeFrom(ws, p, index)
  }

  function Decode(journal: Bytes, index: u8): Result<Bytes32, JournalError> {
    if |journal| % 4 != 0 then Err(NotWordAligned) else DecodeWords(WordsOf(journal), index)
  }

  lemma {:induction false} FirstBadByte(ws: seq<u32>, at: nat, k: nat, n: nat)
    requires k < n && BytesAt(ws, at, k).Ok? && BytesAt(ws, at, k + 1).Err?
    ensures BytesAt(ws, at, n) == Err(BytesAt(ws, at, k + 1).error)
    decreases n
  {
    if k + 1 < n { FirstBadByte(ws, at, k, n - 1); }
  }
}
