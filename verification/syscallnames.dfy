/** The dispatcher's hashes against the names they stand for. The documentation says
    that a syscall is dispatched by the 32-bit MurmurHash3 of its name. */
module SyscallNames {
  import opened Words
  import opened Isa
  import opened Machine
  import opened HostGuest
  import opened Semantics

  // ---- MurmurHash3 with seed 0, over the characters that syscall names use ----

  type word = bv32

  function Scrambled(k: word): word {
    var x: word := k * 0xcc9e2d51;
    ((x << 15) | (x >> 17)) * 0x1b873593
  }

  function Absorbed(h: word, k: word): word {
    var x := h ^ Scrambled(k);
    ((x << 13) | (x >> 19)) * 5 + 0xe6546b64
  }

  function Finished(h: word): word {
    var a := (h ^ (h >> 16)) * 0x85ebca6b;
    var b := (a ^ (a >> 13)) * 0xc2b2ae35;
    b ^ (b >> 16)
  }

  /** ASCII codes. */
  function Code(c: char): word {
    match c
    case '_' => 0x5f case 'a' => 0x61 case 'c' => 0x63 case 'd' => 0x64 case 'e' => 0x65 case 'g' => 0x67
    case 'i' => 0x69 case 'l' => 0x6c case 'm' => 0x6d case 'n' => 0x6e case 'o' => 0x6f case 'p' => 0x70
    case 'r' => 0x72 case 's' => 0x73 case 't' => 0x74 case 'u' => 0x75 case 'v' => 0x76 case 'y' => 0x79
    case _ => 0
  }

  function CodeAt(s: string, i: nat): word { if i < |s| then Code(s[i]) else 0 }

  /** Up to four characters, little-endian. */
  function Packed(s: string): word {
    CodeAt(s, 0) | (CodeAt(s, 1) << 8) | (CodeAt(s, 2) << 16) | (CodeAt(s, 3) << 24)
  }

  function Length(n: word, s: string): word {
    if |s| == 0 then n else if |s| == 1 then n + 1 else if |s| == 2 then n + 2 else n + 3
  }

  /** n counts the characters before s. */
  function Blocks(h: word, s: string, n: word): word
    decreases |s|
  {
    if |s| >= 4 then Blocks(Absorbed(h, Packed(s[..4])), s[4..], n + 4)
    else h ^ Scrambled(Packed(s)) ^ Length(n, s)
  }

  function Murmur3(s: string): word { Finished(Blocks(0, s, 0)) }

  // ---- The documented names ----

  lemma FirstBlock(h: word, s: string, n: word, first: string, rest: string)
    requires |first| == 4 && s == first + rest
    ensures Blocks(h, s, n) == Blocks(Absorbed(h, Packed(first)), rest, n + 4)
  {
    hide Absorbed, Packed, Scrambled;
    assert s[..4] == first && s[4..] == rest;
  }

  lemma LastBlock(h: word, s: string, n: word)
    requires |s| < 4
    ensures Blocks(h, s, n) == h ^ Scrambled(Packed(s)) ^ Length(n, s)
  {
    hide Absorbed, Packed, Scrambled, Length;
  }

  lemma PackedNothing()
    ensures Packed("") == 0
  {}

  lemma Packed1()
    ensures Packed("sol_") == 0x5f6c6f73
    ensures Packed("log_") == 0x5f676f6c
    ensures Packed("pani") == 0x696e6170
    ensures Packed("c_") == 0x5f63
  {}

  lemma Packed2()
    ensures Packed("memc") == 0x636d656d
    ensures Packed("py_") == 0x5f7970
    ensures Packed("mems") == 0x736d656d
    ensures Packed("et_") == 0x5f7465
  {}

  lemma Packed3()
    ensures Packed("memm") == 0x6d6d656d
    ensures Packed("ove_") == 0x5f65766f
    ensures Packed("set_") == 0x5f746573
    ensures Packed("retu") == 0x75746572
  {}

  lemma Packed4()
    ensures Packed("rn_d") == 0x645f6e72
    ensures Packed("ata") == 0x617461
  {}

  lemma LogWords()
    ensures Finished(Absorbed(Absorbed(0, 0x5f6c6f73), 0x5f676f6c) ^ Scrambled(0) ^ 8) == 0x207559bd
  {}

  lemma LogHash()
    ensures Murmur3("sol_log_") == 0x207559bd
  {
    hide Absorbed, Packed, Scrambled, Finished, Blocks;
    LogWords();
    PackedNothing();
    Packed1();
    FirstBlock(0, "sol_log_", 0, "sol_", "log_");
    var h1 := Absorbed(0, 0x5f6c6f73);
    FirstBlock(h1, "log_", 4, "log_", "");
    var h2 := Absorbed(h1, 0x5f676f6c);
    LastBlock(h2, "", 8);
  }

  lemma PanicWords()
    ensures Finished(Absorbed(Absorbed(0, 0x5f6c6f73), 0x696e6170) ^ Scrambled(0x5f63) ^ 10) == 0x686093bb
  {}

  lemma PanicHash()
    ensures Murmur3("sol_panic_") == 0x686093bb
  {
    hide Absorbed, Packed, Scrambled, Finished, Blocks;
    PanicWords();
    Packed1();
    FirstBlock(0, "sol_panic_", 0, "sol_", "panic_");
    var h1 := Absorbed(0, 0x5f6c6f73);
    FirstBlock(h1, "panic_", 4, "pani", "c_");
    var h2 := Absorbed(h1, 0x696e6170);
    LastBlock(h2, "c_", 8);
  }

  lemma MemcpyWords()
    ensures Finished(Absorbed(Absorbed(0, 0x5f6c6f73), 0x636d656d) ^ Scrambled(0x5f7970) ^ 11) == 0x717cc4a3
  {}

  lemma MemcpyHash()
    ensures Murmur3("sol_memcpy_") == 0x717cc4a3
  {
    hide Absorbed, Packed, Scrambled, Finished, Blocks;
    MemcpyWords();
    Packed1();
    Packed2();
    FirstBlock(0, "sol_memcpy_", 0, "sol_", "memcpy_");
    var h1 := Absorbed(0, 0x5f6c6f73);
    FirstBlock(h1, "memcpy_", 4, "memc", "py_");
    var h2 := Absorbed(h1, 0x636d656d);
    LastBlock(h2, "py_", 8);
  }

  lemma MemsetWords()
    ensures Finished(Absorbed(Absorbed(0, 0x5f6c6f73), 0x736d656d) ^ Scrambled(0x5f7465) ^ 11) == 0x3770fb22
  {}

  lemma MemsetHash()
    ensures Murmur3("sol_memset_") == 0x3770fb22
  {
    hide Absorbed, Packed, Scrambled, Finished, Blocks;
    MemsetWords();
    Packed1();
    Packed2();
    FirstBlock(0, "sol_memset_", 0, "sol_", "memset_");
    var h1 := Absorbed(0, 0x5f6c6f73);
    FirstBlock(h1, "memset_", 4, "mems", "et_");
    var h2 := Absorbed(h1, 0x736d656d);
    LastBlock(h2, "et_", 8);
  }

  lemma MemmoveWords()
    ensures Finished(Absorbed(Absorbed(Absorbed(0, 0x5f6c6f73), 0x6d6d656d), 0x5f65766f) ^ Scrambled(0) ^ 12) == 0x434371f8
  {}

  lemma MemmoveHash()
    ensures Murmur3("sol_memmove_") == 0x434371f8
  {
    hide Absorbed, Packed, Scrambled, Finished, Blocks;
    MemmoveWords();
    PackedNothing();
    Packed1();
    Packed3();
    FirstBlock(0, "sol_memmove_", 0, "sol_", "memmove_");
    var h1 := Absorbed(0, 0x5f6c6f73);
    FirstBlock(h1, "memmove_", 4, "memm", "ove_");
    var h2 := Absorbed(h1, 0x6d6d656d);
    FirstBlock(h2, "ove_", 8, "ove_", "");
    var h3 := Absorbed(h2, 0x5f65766f);
    LastBlock(h3, "", 12);
  }

  lemma SetReturnDataWords()
    ensures Finished(Absorbed(Absorbed(Absorbed(Absorbed(0, 0x5f6c6f73), 0x5f746573), 0x75746572), 0x645f6e72) ^ Scrambled(0x617461) ^ 19) == 0xa226d3eb
  {}

  lemma SetReturnDataBlocks(h: word)
    ensures Blocks(h, "return_data", 8) == Absorbed(Absorbed(h, 0x75746572), 0x645f6e72) ^ Scrambled(0x617461) ^ 19
  {
    hide Absorbed, Packed, Scrambled, Blocks;
    Packed3();
    Packed4();
    FirstBlock(h, "return_data", 8, "retu", "rn_data");
    FirstBlock(Absorbed(h, 0x75746572), "rn_data", 12, "rn_d", "ata");
    LastBlock(Absorbed(Absorbed(h, 0x75746572), 0x645f6e72), "ata", 16);
  }

  lemma SetReturnDataHash()
    ensures Murmur3("sol_set_return_data") == 0xa226d3eb
  {
    hide Absorbed, Packed, Scrambled, Finished, Blocks;
    SetReturnDataWords();
    Packed1();
    Packed3();
    FirstBlock(0, "sol_set_return_data", 0, "sol_", "set_return_data");
    FirstBlock(Absorbed(0, 0x5f6c6f73), "set_return_data", 4, "set_", "return_data");
    SetReturnDataBlocks(Absorbed(Absorbed(0, 0x5f6c6f73), 0x5f746573));
  }

  datatype Service = SolLog | SolPanic | SolMemcpy | SolMemset | SolMemmove | SolSetReturnData

  function NameOf(v: Service): string {
    match v
    case SolLog => "sol_log_"
    case SolPanic => "sol_panic_"
    case SolMemcpy => "sol_memcpy_"
    case SolMemset => "sol_memset_"
    case SolMemmove => "sol_memmove_"
    case SolSetReturnData => "sol_set_return_data"
  }

  function HashOf(v: Service): u32 {
    match v
    case SolLog => 0x207559bd
    case SolPanic => 0x686093bb
    case SolMemcpy => 0x717cc4a3
    case SolMemset => 0x3770fb22
    case SolMemmove => 0x434371f8
    case SolSetReturnData => 0xa226d3eb
  }

  /** These are the hashes of the names. */
  lemma HashOfName(v: Service)
    ensures Murmur3(NameOf(v)) as int == HashOf(v)
  {
    hide Murmur3;
    match v
    case SolLog => LogHash();
    case SolPanic => PanicHash();
    case SolMemcpy => MemcpyHash();
    case SolMemset => MemsetHash();
    case SolMemmove => MemmoveHash();
    case SolSetReturnData => SetReturnDataHash();
  }

  /** Only memset is dispatched to its own service. The hash of `sol_panic_` arrives at the
      logging arm, and a program that calls one of the other four by its hash calls an
      unknown syscall, which does nothing. */
  lemma SyscallByName(b: Build, text: Text, s: State, i: Insn, v: Service)
    requires At(text, s, i) && IsSyscall(i) && Low32(i.imm) == HashOf(v)
    ensures match v
            case SolMemset => Low32(i.imm) == SOL_MEMSET
            case SolPanic => Low32(i.imm) == SOL_LOG && Step(b, text, s) == Running(Behind(text, s).(regs := s.regs[0 := 0]))
            case _ => Step(b, text, s) == Running(Behind(text, s))
  {
    hide Step, Low32, Behind;
    QuietSyscallStep(b, text, s, i);
  }
}
