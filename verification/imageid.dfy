/** Image ids: eight 32-bit words, written as 64 hex characters by the prover and as
    32 little-endian bytes by the client. */
module ImageId {
  import opened Words
  import opened Journal

  /** Strings are ASCII, so that byte and character positions coincide. */
  type Ascii = s: string | forall i | 0 <= i < |s| :: s[i] as int < 128 witness ""

  type Id = ws: seq<u32> | |ws| == 8 witness seq(8, _ => 0)

  // ---- Formatting: `{w:08x}` ----

  function HexDigit(d: nat): (c: char)
    requires d < 16
    ensures c as int < 128 && !IsSpace(c) && c != '+'
    ensures DigitValue(c) == Some(d) && LowerChar(c) == c
  {
    if d < 10 then ('0' as int + d) as char else ('a' as int + d - 10) as char
  }

  /** The last n hex digits of v. */
  function Digits(v: nat, n: nat): (s: Ascii)
    ensures |s| == n
    ensures forall i | 0 <= i < n :: !IsSpace(s[i]) && s[i] != '+'
  {
    if n == 0 then "" else Digits(v / 16, n - 1) + [HexDigit(v % 16)]
  }

  /** image_id_to_hex, for any number of words. */
  function ToHex(ws: seq<u32>): (s: Ascii)
    ensures |s| == 8 * |ws|
    ensures forall i | 0 <= i < |s| :: !IsSpace(s[i])
    decreases |ws|
  {
    if ws == [] then "" else ToHex(ws[..|ws| - 1]) + Digits(ws[|ws| - 1], 8)
  }

  // ---- Parsing ----

  predicate IsSpace(c: char) { '\t' <= c <= '\r' || c == ' ' }

  function TrimEnd(s: Ascii): (t: Ascii)
    decreases |s|
  {
    if s != "" && IsSpace(s[|s| - 1]) then TrimEnd(s[..|s| - 1]) else s
  }

  function Trim(s: Ascii): (t: Ascii)
    decreases |s|
  {
    if s != "" && IsSpace(s[0]) then Trim(s[1..]) else TrimEnd(s)
  }

  function DigitValue(c: char): Option<nat> {
    if '0' <= c <= '9' then Some(c as int - '0' as int)
    else if 'a' <= c <= 'f' then Some(c as int - 'a' as int + 10)
    else if 'A' <= c <= 'F' then Some(c as int - 'A' as int + 10)
    else None
  }

  /** The value of a string of hex digits. */
  function HexValue(s: string): Option<nat> {
    if s == "" then Some(0)
    else
      match (HexValue(s[..|s| - 1]), DigitValue(s[|s| - 1]))
      case (Some(v), Some(d)) => Some(16 * v + d)
      case _ => None
  }

  /** `u32::from_str_radix(s, 16)`: one leading '+' is allowed before the digits. */
  function FromHex(s: string): Option<u32> {
    var digits := if |s| > 1 && s[0] == '+' then s[1..] else s;
    if digits == "" then None
    else
      match HexValue(digits)
      case Some(v) => if v < 0x1_0000_0000 then Some(v) else None
      case None => None
  }

  /** The first n 8-character chunks. */
  function Chunks(s: string, n: nat): (r: Option<seq<u32>>)
    requires 8 * n <= |s|
    ensures r.Some? ==> |r.value| == n
  {
    if n == 0 then Some([])
    else
      match (Chunks(s, n - 1), FromHex(s[8 * (n - 1)..8 * n]))
      case (Some(ws), Some(w)) => Some(ws + [w])
      case _ => None
  }

  datatype ParseError = WrongLength(len: nat) | BadWord(i: nat)

  /** The prover's parser fills an eight-word array and stops at the first bad word. */
  method ParseImageId(hex: Ascii) returns (r: Result<Id, ParseError>)
    ensures var t := Trim(hex);
            if |t| != 64 then r == Err(WrongLength(|t|))
            else match Chunks(t, 8)
                 case Some(ws) => r == Ok(ws)
                 case None => r.Err? && r.error.BadWord? && r.error.i < 8
                              && FromHex(t[8 * r.error.i..8 * r.error.i + 8]).None?
  {
    hide FromHex, Trim;
    var t := Trim(hex);
    if |t| != 64 { return Err(WrongLength(|t|)); }
    var id := new u32[8](_ => 0);
    for i := 0 to 8
      invariant Chunks(t, i) == Some(id[..i])
    {
      var w := FromHex(t[i * 8..(i + 1) * 8]);
      if w.None? {
        BadChunk(t, i, 8);
        return Err(BadWord(i));
      }
      id[i] := w.value;
      assert id[..i + 1] == id[..i] + [w.value];
    }
    assert id[..8] == id[..];
    r := Ok(id[..]);
  }

  lemma {:induction false} BadChunk(s: string, i: nat, n: nat)
    requires i < n && 8 * n <= |s| && FromHex(s[8 * i..8 * i + 8]).None?
    ensures Chunks(s, n).None?
    decreases n
  {
    if i < n - 1 { BadChunk(s, i, n - 1); }
  }

  /** The client's parser: no length check, and a panic (None) on anything it cannot
      slice or parse. */
  function ClientImageId(hex: Ascii): Option<seq<u8>> {
    var t := Trim(hex);
    if |t| < 64 then None
    else
      match Chunks(t, 8)
      case None => None
      case Some(ws) => Some(Serialize(ws))
  }

  // ---- What the parsers accept ----

  predicate AllSpace(s: string) { forall i | 0 <= i < |s| :: IsSpace(s[i]) }

  /** s is t between white space. */
  predicate Padded(s: string, t: string, pre: string, post: string) {
    s == pre + t + post && AllSpace(pre) && AllSpace(post)
  }

  predicate Tight(t: string) { t != "" ==> !IsSpace(t[0]) && !IsSpace(t[|t| - 1]) }

  lemma {:induction false} TrimEndSplits(s: Ascii) returns (post: string)
    ensures s == TrimEnd(s) + post && AllSpace(post)
    ensures TrimEnd(s) != "" ==> !IsSpace(TrimEnd(s)[|TrimEnd(s)| - 1])
    decreases |s|
  {
    if s != "" && IsSpace(s[|s| - 1]) {
      var rest := TrimEndSplits(s[..|s| - 1]);
      post := rest + [s[|s| - 1]];
    } else {
      post := "";
    }
  }

  lemma {:induction false} TrimSplits(s: Ascii) returns (pre: string, post: string)
    ensures Padded(s, Trim(s), pre, post) && Tight(Trim(s))
    decreases |s|
  {
    if s != "" && IsSpace(s[0]) {
      var t := Trim(s[1..]);
      pre, post := TrimSplits(s[1..]);
      assert s == [s[0]] + (pre + t + post);
      pre := [s[0]] + pre;
      hide Trim;
      assert s == pre + t + post;
    } else {
      post := TrimEndSplits(s);
      pre := "";
    }
  }

  lemma {:induction false} TrimEndOver(t: Ascii, post: Ascii)
    requires Tight(t) && AllSpace(post)
    ensures TrimEnd(t + post) == t
    decreases |post|
  {
    if post == "" {
      assert t + post == t;
    } else {
      assert (t + post)[..|t + post| - 1] == t + post[..|post| - 1];
      TrimEndOver(t, post[..|post| - 1]);
    }
  }

  lemma {:induction false} TrimOver(pre: Ascii, t: Ascii, post: Ascii)
    requires Tight(t) && AllSpace(pre) && AllSpace(post)
    ensures Trim(pre + t + post) == t
    decreases |pre| + |post|
  {
    if pre != "" {
      assert (pre + t + post)[1..] == pre[1..] + t + post;
      TrimOver(pre[1..], t, post);
    } else if t == "" && post != "" {
      assert (pre + t + post)[1..] == pre + t + post[1..];
      TrimOver(pre, t, post[1..]);
    } else {
      assert pre + t + post == t + post;
      TrimEndOver(t, post);
    }
  }

  /** Trimming removes the white space around the rest, and no more. */
  lemma TrimIff(s: Ascii, t: Ascii)
    ensures Trim(s) == t <==> Tight(t) && exists pre: string, post: string :: Padded(s, t, pre, post)
  {
    if Trim(s) == t {
      var pre, post := TrimSplits(s);
    } else if Tight(t) {
      forall pre: string, post: string | Padded(s, t, pre, post) ensures false {
        TrimOver(pre, t, post);
      }
    }
  }

  lemma {:induction false} ValueIgnoresCase(s: string)
    ensures HexValue(Lower(s)) == HexValue(s)
    decreases |s|
  {
    if s != "" {
      var n := |s| - 1;
      ValueIgnoresCase(s[..n]);
      assert Lower(s)[..n] == Lower(s[..n]);
      assert DigitValue(LowerChar(s[n])) == DigitValue(s[n]);
    }
  }

  lemma {:induction false} LeadingZero(s: string)
    ensures HexValue("0" + s) == HexValue(s)
    decreases |s|
  {
    if s == "" {
      assert "0" + s == "0" && "0"[..0] == "";
    } else {
      var n := |s| - 1;
      assert ("0" + s)[..n + 1] == "0" + s[..n];
      LeadingZero(s[..n]);
    }
  }

  /** A sign counts as a leading zero. */
  function PlusAsZero(s: string): string {
    if s != "" && s[0] == '+' then "0" + s[1..] else s
  }

  lemma FromHexIsValue(s: string)
    requires |s| == 8
    ensures FromHex(s) == match HexValue(PlusAsZero(s))
                          case Some(v) => if v < 0x1_0000_0000 then Some(v) else None
                          case None => None
  {
    LeadingZero(s[1..]);
    hide HexValue;
  }

  /** A chunk parses as w exactly when it is the eight hex digits of w, in either case,
      possibly with a plus sign in place of a leading zero. */
  lemma WordParsesIff(s: string, w: u32)
    requires |s| == 8
    ensures FromHex(s) == Some(w) <==> Lower(PlusAsZero(s)) == Digits(w, 8)
  {
    FromHexIsValue(s);
    var z := PlusAsZero(s);
    hide FromHex, HexValue, Digits, PlusAsZero;
    if FromHex(s) == Some(w) {
      assert |z| == 8 by { PlusKeepsLength(s); }
      ValueThenDigits(z);
    } else if Lower(z) == Digits(w, 8) {
      Pow2Words();
      DigitsThenValue(w, 8);
      ValueIgnoresCase(z);
    }
  }

  lemma PlusKeepsLength(s: string)
    ensures |PlusAsZero(s)| == |s|
  {}

  lemma {:induction false} ChunksIff(s: string, n: nat, ws: seq<u32>)
    requires 8 * n <= |s|
    ensures Chunks(s, n) == Some(ws) <==> |ws| == n && forall i | 0 <= i < n :: FromHex(s[8 * i..8 * i + 8]) == Some(ws[i])
    decreases n
  {
    hide FromHex;
    if n > 0 {
      assert 8 * (n - 1) + 8 == 8 * n;
      if |ws| == n {
        ChunksIff(s, n - 1, ws[..n - 1]);
        assert ws == ws[..n - 1] + [ws[n - 1]];
      }
    }
  }

  /** Exact acceptance: the prover's parser gives the id if and only if the trimmed input
      is the 64 hex digits of its words in order. */
  lemma ParsesIff(hex: Ascii, id: Id)
    ensures Parsed(hex) == Some(id) <==>
            var t := Trim(hex);
            |t| == 64 && forall i | 0 <= i < 8 :: Lower(PlusAsZero(t[8 * i..8 * i + 8])) == Digits(id[i], 8)
  {
    var t := Trim(hex);
    if |t| == 64 {
      ChunksIff(t, 8, id);
      forall i | 0 <= i < 8
        ensures FromHex(t[8 * i..8 * i + 8]) == Some(id[i]) <==> Lower(PlusAsZero(t[8 * i..8 * i + 8])) == Digits(id[i], 8)
      {
        WordParsesIff(t[8 * i..8 * i + 8], id[i]);
      }
    }
    hide FromHex, Digits, PlusAsZero, Trim;
  }

  // ---- Round trips ----

  lemma {:induction false} DigitsThenValue(v: nat, n: nat)
    requires v < Pow2(4 * n)
    ensures HexValue(Digits(v, n)) == Some(v)
  {
    if n > 0 {
      DigitsShrink(v, n);
      DigitsThenValue(v / 16, n - 1);
      hide Pow2, HexValue, HexDigit;
      OneMoreDigit(Digits(v / 16, n - 1), v / 16, v % 16);
    }
  }

  lemma DigitsShrink(v: nat, n: nat)
    requires n > 0 && v < Pow2(4 * n)
    ensures v / 16 < Pow2(4 * (n - 1))
  {
    Pow2Adds(4, 4 * n - 4);
    assert Pow2(4) == 16;
    hide Pow2;
  }

  lemma OneMoreDigit(s: string, v: nat, d: nat)
    requires HexValue(s) == Some(v) && d < 16
    ensures HexValue(s + [HexDigit(d)]) == Some(16 * v + d)
  {
    assert (s + [HexDigit(d)])[..|s|] == s;
    hide HexDigit;
  }

  lemma WordRoundTrip(w: u32)
    ensures FromHex(Digits(w, 8)) == Some(w)
  {
    Pow2Words();
    DigitsThenValue(w, 8);
    hide HexValue, Pow2;
  }

  lemma {:induction false} ChunksOfHex(ws: seq<u32>, n: nat)
    requires n <= |ws|
    ensures Chunks(ToHex(ws), n) == Some(ws[..n])
    decreases |ws|, n
  {
    hide FromHex, ToHex, Digits;
    if n > 0 {
      ChunksOfHex(ws, n - 1);
      HexChunk(ws, n - 1);
      WordRoundTrip(ws[n - 1]);
      assert 8 * (n - 1) + 8 == 8 * n;
      assert ws[..n] == ws[..n - 1] + [ws[n - 1]];
    }
  }

  lemma {:induction false} HexChunk(ws: seq<u32>, i: nat)
    requires i < |ws|
    ensures ToHex(ws)[8 * i..8 * i + 8] == Digits(ws[i], 8)
    decreases |ws|
  {
    var n := |ws| - 1;
    var init, last := ToHex(ws[..n]), Digits(ws[n], 8);
    if i < n {
      HexChunk(ws[..n], i);
      assert (init + last)[8 * i..8 * i + 8] == init[8 * i..8 * i + 8];
    } else {
      assert (init + last)[8 * i..8 * i + 8] == last;
    }
  }

  /** What the prover's parser accepts, as a function. */
  function Parsed(hex: Ascii): Option<seq<u32>> {
    if |Trim(hex)| == 64 then Chunks(Trim(hex), 8) else None
  }

  /** Parsing the hex of an id gives the id back, and the client's bytes for it are its
      words in little-endian order. */
  lemma IdRoundTrip(id: Id)
    ensures Parsed(ToHex(id)) == Some(id)
    ensures ClientImageId(ToHex(id)) == Some(Serialize(id))
  {
    assert Trim(ToHex(id)) == ToHex(id);
    ChunksOfHex(id, 8);
    assert id[..8] == id;
  }

  /** The two parsers agree, except that the client ignores what follows 64 characters. */
  lemma ClientAgreesWithProver(hex: Ascii)
    ensures Parsed(hex).Some? <==> ClientImageId(hex).Some? && |Trim(hex)| == 64
    ensures Parsed(hex).Some? ==> ClientImageId(hex) == Some(Serialize(Parsed(hex).value))
  {
    hide Serialize;
  }

  /** What follows the first 64 characters does not matter to the client. */
  lemma ClientIgnoresTail(hex: Ascii, other: Ascii)
    requires |Trim(hex)| >= 64 && |Trim(other)| >= 64 && Trim(hex)[..64] == Trim(other)[..64]
    ensures ClientImageId(hex) == ClientImageId(other)
  {
    ChunksOfPrefix(Trim(hex), 8);
    ChunksOfPrefix(Trim(other), 8);
    hide Chunks;
  }

  lemma {:induction false} ChunksOfPrefix(s: string, n: nat)
    requires 8 * n <= |s|
    ensures Chunks(s[..8 * n], n) == Chunks(s, n)
    decreases n
  {
    hide FromHex;
    if n > 0 {
      ChunksOfPrefix(s, n - 1);
      ChunksOfPrefix(s[..8 * n], n - 1);
      assert s[..8 * n][..8 * (n - 1)] == s[..8 * (n - 1)];
      assert s[..8 * n][8 * (n - 1)..8 * n] == s[8 * (n - 1)..8 * n];
    }
  }

  function LowerChar(c: char): char {
    if 'A' <= c <= 'Z' then (c as int + 32) as char else c
  }

  function Lower(s: string): (r: string)
    ensures |r| == |s| && forall i :: 0 <= i < |s| ==> r[i] == LowerChar(s[i])
  {
    seq<char>(|s|, i requires 0 <= i < |s| => LowerChar(s[i]))
  }

  lemma {:induction false} ValueThenDigits(s: string)
    requires HexValue(s).Some?
    ensures Digits(HexValue(s).value, |s|) == Lower(s)
    decreases |s|
  {
    if s != "" {
      var n := |s| - 1;
      ValueThenDigits(s[..n]);
      var v, d := HexValue(s[..n]).value, DigitValue(s[n]).value;
      QuotientIs(16 * v + d, 16, v, d);
      assert HexDigit(d) == LowerChar(s[n]);
      assert Lower(s) == Lower(s[..n]) + [LowerChar(s[n])];
    }
  }

  /** A chunk is reproduced, in lower case, unless it begins with '+'. */
  lemma ChunkReproducedIff(s: string)
    requires |s| == 8 && FromHex(s).Some?
    ensures Digits(FromHex(s).value, 8) == Lower(s) <==> s[0] != '+'
  {
    if s[0] == '+' {
      assert Digits(FromHex(s).value, 8)[0] != '+';
      assert Lower(s)[0] == '+';
    } else {
      ValueThenDigits(s);
    }
  }

  predicate NoPlus(s: string, n: nat)
    requires 8 * n <= |s|
  {
    forall i | 0 <= i < n :: s[8 * i] != '+'
  }

  /** The other direction: writing a parsed id back gives the trimmed input in lower
      case if and only if no word of it begins with '+'. */
  lemma HexReproducedIff(hex: Ascii)
    requires Parsed(hex).Some?
    ensures ToHex(Parsed(hex).value) == Lower(Trim(hex)) <==> NoPlus(Trim(hex), 8)
  {
    PrefixReproducedIff(Trim(hex), 8);
    assert Lower(Trim(hex))[..64] == Lower(Trim(hex));
  }

  lemma {:induction false} PrefixReproducedIff(s: string, n: nat)
    requires 8 * n <= |s| && Chunks(s, n).Some?
    ensures ToHex(Chunks(s, n).value) == Lower(s)[..8 * n] <==> NoPlus(s, n)
    decreases n
  {
    hide FromHex, Digits;
    if n > 0 {
      PrefixReproducedIff(s, n - 1);
      var chunk := s[8 * (n - 1)..8 * n];
      ChunkReproducedIff(chunk);
      var ws, w := Chunks(s, n - 1).value, FromHex(chunk).value;
      assert Chunks(s, n).value[..n - 1] == ws;
      assert Lower(s)[8 * (n - 1)..8 * n] == Lower(chunk);
      SplitsAt(ToHex(ws), Digits(w, 8), Lower(s)[..8 * n], 8 * (n - 1));
    }
  }

  lemma SplitsAt(a: string, b: string, s: string, n: nat)
    requires |a| == n && |a| + |b| == |s|
    ensures a + b == s <==> a == s[..n] && b == s[n..]
  {
    if a + b == s { assert (a + b)[..n] == a && (a + b)[n..] == b; }
  }
}
