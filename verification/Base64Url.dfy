/** The base64url codec of `src/utils.rs` (sections 3.5 and 5 of RFC 4648).

    Text is the sequence of its UTF-8 bytes, as the source indexes it.  The encoder works
    on chunks of three bytes and the decoder streams six bits at a time through a 32-bit
    accumulator whose high bits are shifted off.  Both are proved against closed forms
    (which bits of which input unit make up output unit number k), and the closed forms
    against the RFC's bit-regrouping definition and against each other. */
module Base64Url {
  import opened Bytes
  import opened Wrappers

  const UPPER: string := "ABCDEFGHIJKLMNOPQRSTUVWXYZ"
  const LOWER: string := "abcdefghijklmnopqrstuvwxyz"
  const DIGITS: string := "0123456789"
  const TABLE: string := UPPER + LOWER + DIGITS + "-_"
  const TWO_TO_THE_32: int := 0x1_0000_0000
  const PAD: Byte := '=' as int
  const ZERO_SYMBOL: Byte := 'A' as int

  datatype DecodeError =
    | InvalidLength
    | InvalidByte(index: nat, offending: Byte)
    | NonCanonicalTrailingBits

  datatype DecodeResult = Ok(bytes: seq<Byte>) | Err(error: DecodeError)

  // ---------- the alphabet ----------

  lemma UpperAt(v: nat)
    requires v < 26
    ensures |UPPER| == 26 && UPPER[v] as int == v + 'A' as int
  {
  }

  lemma LowerAt(v: nat)
    requires v < 26
    ensures |LOWER| == 26 && LOWER[v] as int == v + 'a' as int
  {
  }

  lemma DigitAt(v: nat)
    requires v < 10
    ensures |DIGITS| == 10 && DIGITS[v] as int == v + '0' as int
  {
  }

  lemma TableAt(v: nat)
    requires v < 64
    ensures |TABLE| == 64
    ensures TABLE[v] as int == if v < 26 then v + 'A' as int else if v < 52 then v - 26 + 'a' as int
                               else if v < 62 then v - 52 + '0' as int
                               else if v == 62 then '-' as int else '_' as int
  {
    if v < 26 {
      UpperAt(v);
    } else if v < 52 {
      LowerAt(v - 26);
    } else if v < 62 {
      DigitAt(v - 52);
    }
  }

  function Symbol(v: nat): Byte
    requires v < 64
  {
    TableAt(v);
    TABLE[v] as int
  }

  /** The decoder's inverse table, by ranges. */
  function Val(c: Byte): Option<nat> {
    if 'A' as int <= c <= 'Z' as int then Some(c - 'A' as int)
    else if 'a' as int <= c <= 'z' as int then Some(c - 'a' as int + 26)
    else if '0' as int <= c <= '9' as int then Some(c - '0' as int + 52)
    else if c == '-' as int then Some(62)
    else if c == '_' as int then Some(63)
    else None
  }

  /** The 64-character table of the encoder and the range test of the decoder are inverse:
      a byte has a value exactly when it is the symbol of that value. */
  lemma SymbolVal(c: Byte, v: nat)
    requires v < 64
    ensures Val(c) == Some(v) <==> c == Symbol(v)
  {
    TableAt(v);
  }

  // ---------- closed forms ----------

  /** Input byte `i`, with the zeros the encoder shifts in past the end. */
  function ByteOrZero(b: seq<Byte>, i: nat): Byte {
    if i < |b| then b[i] else 0
  }

  /** Value of symbol `i`, zero past the end. */
  function SextetOrZero(t: seq<Byte>, i: nat): (v: nat)
    ensures v < 64
  {
    if i < |t| && Val(t[i]).Some? then Val(t[i]).value else 0
  }

  /** Six-bit group `r` of a 24-bit group of three bytes. */
  function SextetOf(x: Byte, y: Byte, z: Byte, r: nat): (v: nat)
    ensures v < 64
  {
    if r == 0 then x / 4
    else if r == 1 then x % 4 * 16 + y / 16
    else if r == 2 then y % 16 * 4 + z / 64
    else z % 64
  }

  /** Byte `r` of a 24-bit group of four six-bit groups. */
  function ByteOf(s0: nat, s1: nat, s2: nat, s3: nat, r: nat): Byte
    requires s0 < 64 && s1 < 64 && s2 < 64 && s3 < 64
  {
    if r == 0 then s0 * 4 + s1 / 16
    else if r == 1 then s1 % 16 * 16 + s2 / 4
    else s2 % 4 * 64 + s3
  }

  function SextetAt(b: seq<Byte>, m: nat): (v: nat)
    ensures v < 64
  {
    var i := 3 * (m / 4);
    SextetOf(ByteOrZero(b, i), ByteOrZero(b, i + 1), ByteOrZero(b, i + 2), m % 4)
  }

  function ByteAt(t: seq<Byte>, k: nat): Byte {
    var i := 4 * (k / 3);
    ByteOf(SextetOrZero(t, i), SextetOrZero(t, i + 1), SextetOrZero(t, i + 2), SextetOrZero(t, i + 3), k % 3)
  }

  /** Symbols for `n` bytes: four to a full group, one more than the bytes of a partial one. */
  function EncodedLength(n: nat): nat {
    4 * (n / 3) + if n % 3 == 0 then 0 else n % 3 + 1
  }

  /** Full bytes in `n` symbols. */
  function DecodedLength(n: nat): nat {
    3 * (n / 4) + if n % 4 == 0 then 0 else n % 4 - 1
  }

  function Encoded(b: seq<Byte>): seq<Byte> {
    seq(EncodedLength(|b|), m requires 0 <= m < EncodedLength(|b|) => Symbol(SextetAt(b, m)))
  }

  /** The first `n` bytes of the symbol stream `t`. */
  function BytesOf(t: seq<Byte>, n: nat): seq<Byte> {
    seq(n, k requires 0 <= k < n => ByteAt(t, k))
  }

  /** The bits of the first `n` symbols left over after the last full byte. */
  function TailBits(t: seq<Byte>, n: nat): nat {
    if n % 4 == 0 then 0
    else if n % 4 == 1 then SextetOrZero(t, n - 1)
    else if n % 4 == 2 then SextetOrZero(t, n - 1) % 16
    else SextetOrZero(t, n - 1) % 4
  }

  /** Index of the first byte outside the alphabet, or the length. */
  function FirstBad(t: seq<Byte>): (i: nat)
    ensures i <= |t|
    ensures i < |t| ==> Val(t[i]).None?
    ensures forall j :: 0 <= j < i ==> Val(t[j]).Some?
  {
    if t == [] || Val(t[0]).None? then 0
    else
      var r := FirstBad(t[1..]);
      assert forall j :: 0 < j < r + 1 ==> t[j] == t[1..][j - 1];
      r + 1
  }

  function TrimPad(s: seq<Byte>): (t: seq<Byte>)
    ensures |t| <= |s| && t == s[..|t|]
    ensures forall j :: |t| <= j < |s| ==> s[j] == PAD
    ensures t != [] ==> t[|t| - 1] != PAD
  {
    if s != [] && s[|s| - 1] == PAD then TrimPad(s[..|s| - 1]) else s
  }

  function DecodedTrimmed(t: seq<Byte>): DecodeResult {
    var bad := FirstBad(t);
    if bad < |t| then Err(InvalidByte(bad, t[bad]))
    else if TailBits(t, |t|) != 0 then Err(NonCanonicalTrailingBits)
    else Ok(BytesOf(t, DecodedLength(|t|)))
  }

  /** The length test looks at the text before the padding is trimmed. */
  function Decoded(s: seq<Byte>): DecodeResult {
    if |s| % 4 == 1 then Err(InvalidLength) else DecodedTrimmed(TrimPad(s))
  }

  // ---------- the two loops ----------

  /** `(acc << 6) | v` on 32 bits: the high bits fall off and the low six are free for `v`. */
  function Push(acc: nat, v: nat): nat {
    acc * 64 % TWO_TO_THE_32 + v
  }

  /** `((acc >> bits) & 0xff) as u8`, for the shifts that occur. */
  function Cut(acc: nat, bits: nat): Byte {
    (if bits == 0 then acc else if bits == 2 then acc / 4 else acc / 16) % 256
  }

  /** `n & ((1 << bits) - 1)`, for the shifts that occur. */
  function LowBits(n: nat, bits: nat): nat {
    if bits == 0 then 0 else if bits == 2 then n % 4 else if bits == 4 then n % 16 else n % 64
  }

  lemma ChunkSextets(x: Byte, y: Byte, z: Byte)
    ensures var n: int := x * 0x1_0000 + y * 0x100 + z;
            && n / 0x4_0000 % 64 == SextetOf(x, y, z, 0) && n / 0x1000 % 64 == SextetOf(x, y, z, 1)
            && n / 0x40 % 64 == SextetOf(x, y, z, 2) && n % 64 == SextetOf(x, y, z, 3)
  {
    var n: int := x * 0x1_0000 + y * 0x100 + z;
    ChunkShifts(x, y, z);
    Mod64(n / 0x4_0000, 0, x / 4);
    Mod64(n / 0x1000, x / 4, x % 4 * 16 + y / 16);
    Mod64(n / 0x40, x * 16 + y / 16, y % 16 * 4 + z / 64);
    Mod64(n, x * 1024 + y * 4 + z / 64, z % 64);
  }

  lemma ChunkShifts(x: Byte, y: Byte, z: Byte)
    ensures var n: int := x * 0x1_0000 + y * 0x100 + z;
            n / 0x4_0000 == x / 4 && n / 0x1000 == x * 16 + y / 16 && n / 0x40 == x * 1024 + y * 4 + z / 64
  {
  }

  method Encode(bytes: seq<Byte>) returns (out: seq<Byte>)
    ensures out == Encoded(bytes)
  {
    hide SextetOf, SextetAt, EncodedLength, Symbol;
    out := [];
    ghost var q := 0;
    var i := 0;
    while i < |bytes|
      invariant i == 3 * q && i < |bytes| + 3
      invariant |out| == if i <= |bytes| then 4 * q else EncodedLength(|bytes|)
      invariant forall m :: 0 <= m < |out| ==> out[m] == Symbol(SextetAt(bytes, m))
    {
      var chunk := bytes[i..if i + 3 <= |bytes| then i + 3 else |bytes|];
      var b0: Byte := chunk[0];
      var b1: Byte := if |chunk| > 1 then chunk[1] else 0;
      var b2: Byte := if |chunk| > 2 then chunk[2] else 0;
      var n: int := b0 * 0x1_0000 + b1 * 0x100 + b2;
      ChunkSextets(b0, b1, b2);
      GroupSextets(bytes, q);
      PartialLength(|bytes|, q);
      out := out + [Symbol(n / 0x4_0000 % 64), Symbol(n / 0x1000 % 64)];
      if |chunk| > 1 {
        out := out + [Symbol(n / 0x40 % 64)];
      }
      if |chunk| > 2 {
        out := out + [Symbol(n % 64)];
      }
      i := i + 3;
      q := q + 1;
    }
    PartialLength(|bytes|, q);
    assert out == Encoded(bytes);
  }

  lemma PartialLength(n: nat, q: nat)
    ensures n == 3 * q ==> EncodedLength(n) == 4 * q
    ensures n == 3 * q + 1 ==> EncodedLength(n) == 4 * q + 2
    ensures n == 3 * q + 2 ==> EncodedLength(n) == 4 * q + 3
  {
    if 3 * q <= n < 3 * q + 3 {
      assert n / 3 == q;
    }
  }

  lemma GroupSextets(b: seq<Byte>, q: nat)
    ensures SextetAt(b, 4 * q) == SextetOf(ByteOrZero(b, 3 * q), ByteOrZero(b, 3 * q + 1), ByteOrZero(b, 3 * q + 2), 0)
    ensures SextetAt(b, 4 * q + 1)
         == SextetOf(ByteOrZero(b, 3 * q), ByteOrZero(b, 3 * q + 1), ByteOrZero(b, 3 * q + 2), 1)
    ensures SextetAt(b, 4 * q + 2)
         == SextetOf(ByteOrZero(b, 3 * q), ByteOrZero(b, 3 * q + 1), ByteOrZero(b, 3 * q + 2), 2)
    ensures SextetAt(b, 4 * q + 3)
         == SextetOf(ByteOrZero(b, 3 * q), ByteOrZero(b, 3 * q + 1), ByteOrZero(b, 3 * q + 2), 3)
  {
    DivMod4(4 * q, q, 0);
    DivMod4(4 * q + 1, q, 1);
    DivMod4(4 * q + 2, q, 2);
    DivMod4(4 * q + 3, q, 3);
  }

  lemma GroupBytes(t: seq<Byte>, q: nat)
    ensures ByteAt(t, 3 * q)
         == ByteOf(SextetOrZero(t, 4 * q), SextetOrZero(t, 4 * q + 1), SextetOrZero(t, 4 * q + 2),
                   SextetOrZero(t, 4 * q + 3), 0)
    ensures ByteAt(t, 3 * q + 1)
         == ByteOf(SextetOrZero(t, 4 * q), SextetOrZero(t, 4 * q + 1), SextetOrZero(t, 4 * q + 2),
                   SextetOrZero(t, 4 * q + 3), 1)
    ensures ByteAt(t, 3 * q + 2)
         == ByteOf(SextetOrZero(t, 4 * q), SextetOrZero(t, 4 * q + 1), SextetOrZero(t, 4 * q + 2),
                   SextetOrZero(t, 4 * q + 3), 2)
  {
    assert (3 * q) / 3 == (3 * q + 1) / 3 == (3 * q + 2) / 3 == q;
  }

  // Remainders by the constants of the codec, one to a lemma to keep the arithmetic small.

  lemma DivMod4(a: int, k: int, r: int)
    requires a == 4 * k + r && 0 <= r < 4
    ensures a / 4 == k && a % 4 == r
  {
  }

  lemma Mod16(a: int, k: int, r: int)
    requires a == 16 * k + r && 0 <= r < 16
    ensures a % 16 == r
  {
  }

  lemma Mod64(a: int, k: int, r: int)
    requires a == 64 * k + r && 0 <= r < 64
    ensures a % 64 == r
  {
  }

  lemma Mod256(a: int, k: int, r: int)
    requires a == 256 * k + r && 0 <= r < 256
    ensures a % 256 == r
  {
  }

  lemma Mod4096(a: int, k: int, r: int)
    requires a == 0x1000 * k + r && 0 <= r < 0x1000
    ensures a % 0x1000 == r
  {
  }

  lemma ModU32(a: int, k: int, r: int)
    requires a == TWO_TO_THE_32 * k + r && 0 <= r < TWO_TO_THE_32
    ensures a % TWO_TO_THE_32 == r
  {
  }

  /** Symbol `i - 1`, zero before the start. */
  function Previous(t: seq<Byte>, i: nat): (v: nat)
    ensures v < 64
  {
    if i == 0 then 0 else SextetOrZero(t, i - 1)
  }

  /** The last two sextets of the first `n`: all of the accumulator a byte can still be cut from. */
  function Window(t: seq<Byte>, n: nat): nat {
    if n == 0 then 0 else Previous(t, n - 1) * 64 + SextetOrZero(t, n - 1)
  }

  ghost predicate Tracks(acc: nat, t: seq<Byte>, n: nat) {
    acc < TWO_TO_THE_32 && acc % 0x1000 == Window(t, n)
  }

  method Decode(text: seq<Byte>) returns (r: DecodeResult)
    ensures r == Decoded(text)
  {
    hide *;
    Outcomes(text);
    if |text| % 4 == 1 {
      return Err(InvalidLength);
    }
    DecodeAtStart(TrimPad(text));
    var s := TrimPad(text);
    var out: seq<Byte> := [];
    var acc: nat, bits: nat := 0, 0;
    for i := 0 to |s|
      invariant i <= FirstBad(s)
      invariant Tracks(acc, s, i)
      invariant bits == BitsLeft(i)
      invariant out == BytesOf(s, DecodedLength(i))
      invariant i == |s| ==> TailBits(s, i) == 0
    {
      if Val(s[i]).None? {
        return Err(InvalidByte(i, s[i]));
      }
      var v := SextetOrZero(s, i);
      Accumulate(s, i, acc);
      acc := Push(acc, v);
      LengthsAfter(i);
      bits := bits + 6;
      if bits >= 8 {
        bits := bits - 8;
        CutByte(s, i, acc);
        BytesOfNext(s, DecodedLength(i));
        out := out + [Cut(acc, bits)];
      }
      TailOfAccumulator(s, i + 1, acc);
      assert bits == BitsLeft(i + 1) && out == BytesOf(s, DecodedLength(i + 1));
      if i == |s| - 1 && bits > 0 && LowBits(acc, bits) != 0 {
        return Err(NonCanonicalTrailingBits);
      }
    }
    r := Ok(out);
  }

  /** The outcomes of the decoder, told apart as the loop meets them. */
  lemma Outcomes(text: seq<Byte>)
    ensures |text| % 4 == 1 ==> Decoded(text) == Err(InvalidLength)
    ensures var s := TrimPad(text);
            |text| % 4 != 1 ==>
              && (FirstBad(s) < |s| ==> Decoded(text) == Err(InvalidByte(FirstBad(s), s[FirstBad(s)])))
              && (FirstBad(s) == |s| && TailBits(s, |s|) != 0 ==> Decoded(text) == Err(NonCanonicalTrailingBits))
              && (FirstBad(s) == |s| && TailBits(s, |s|) == 0 ==> Decoded(text) == Ok(BytesOf(s, DecodedLength(|s|))))
  {
  }

  /** Bits of the first `n` symbols not yet cut into bytes. */
  function BitsLeft(n: nat): nat {
    if n % 4 == 0 then 0 else 8 - 2 * (n % 4)
  }

  lemma DecodeAtStart(s: seq<Byte>)
    ensures BitsLeft(0) == 0 && TailBits(s, 0) == 0 && Tracks(0, s, 0) && BytesOf(s, DecodedLength(0)) == []
  {
  }

  lemma BytesOfNext(s: seq<Byte>, n: nat)
    ensures BytesOf(s, n + 1) == BytesOf(s, n) + [ByteAt(s, n)]
  {
  }

  lemma LengthsAfter(i: nat)
    ensures BitsLeft(i) + 6 < 8 ==> BitsLeft(i + 1) == BitsLeft(i) + 6 && DecodedLength(i + 1) == DecodedLength(i)
    ensures BitsLeft(i) + 6 >= 8
            ==> BitsLeft(i + 1) == BitsLeft(i) + 6 - 8 && DecodedLength(i + 1) == DecodedLength(i) + 1
  {
    var q, r := i / 4, i % 4;
    assert i == 4 * q + r;
    if r == 3 {
      DivMod4(i + 1, q + 1, 0);
    } else {
      DivMod4(i + 1, q, r + 1);
    }
  }

  lemma Accumulate(s: seq<Byte>, i: nat, acc: nat)
    requires i < |s| && Tracks(acc, s, i)
    ensures Tracks(Push(acc, SextetOrZero(s, i)), s, i + 1)
  {
    ShiftIn(acc, if i == 0 then 0 else Previous(s, i - 1), Previous(s, i), SextetOrZero(s, i));
  }

  lemma ShiftIn(acc: nat, w1: nat, w0: nat, v: nat)
    requires acc < TWO_TO_THE_32 && acc % 0x1000 == w1 * 64 + w0 && w1 < 64 && w0 < 64 && v < 64
    ensures (acc * 64 % TWO_TO_THE_32 + v) % 0x1000 == w0 * 64 + v
    ensures acc * 64 % TWO_TO_THE_32 + v < TWO_TO_THE_32
  {
    var h, l, k := acc / 0x400_0000, acc % 0x400_0000, acc / 0x1000;
    ModU32(acc * 64, h, l * 64);
    assert l * 64 + v == 0x1000 * (64 * k + w1 - 0x10_0000 * h) + (w0 * 64 + v);
    Mod4096(l * 64 + v, 64 * k + w1 - 0x10_0000 * h, w0 * 64 + v);
  }

  /** Bits shifted out of the 32-bit accumulator never reach an output byte. */
  lemma CutByte(s: seq<Byte>, i: nat, acc: nat)
    requires Tracks(acc, s, i + 1) && BitsLeft(i) + 6 >= 8
    ensures Cut(acc, BitsLeft(i) + 6 - 8) == ByteAt(s, DecodedLength(i))
  {
    hide ByteAt, SextetOrZero;
    var q, r := i / 4, i % 4;
    assert i == 4 * q + r;
    GroupBytes(s, q);
    assert DecodedLength(i) == 3 * q + (r - 1);
    CutWindow(acc, SextetOrZero(s, i - 1), SextetOrZero(s, i));
  }

  lemma CutWindow(acc: nat, s0: nat, s1: nat)
    requires acc % 0x1000 == s0 * 64 + s1 && s0 < 64 && s1 < 64
    ensures acc / 16 % 256 == s0 * 4 + s1 / 16
    ensures acc / 4 % 256 == s0 % 16 * 16 + s1 / 4
    ensures acc % 256 == s0 % 4 * 64 + s1
  {
    var k := acc / 0x1000;
    assert acc == 0x1000 * k + 64 * s0 + s1;
    WindowBy16(k, s0, s1);
    WindowBy4(k, s0, s1);
    Mod256(acc / 16, k, s0 * 4 + s1 / 16);
    Mod256(acc / 4, 4 * k + s0 / 16, s0 % 16 * 16 + s1 / 4);
    Mod256(acc, 16 * k + s0 / 4, s0 % 4 * 64 + s1);
  }

  lemma WindowBy16(k: int, s0: nat, s1: nat)
    requires s1 < 64
    ensures (0x1000 * k + 64 * s0 + s1) / 16 == 256 * k + 4 * s0 + s1 / 16
  {
  }

  lemma WindowBy4(k: int, s0: nat, s1: nat)
    requires s1 < 64
    ensures (0x1000 * k + 64 * s0 + s1) / 4 == 1024 * k + 16 * s0 + s1 / 4
  {
  }

  lemma TailOfAccumulator(s: seq<Byte>, n: nat, acc: nat)
    requires n > 0 && Tracks(acc, s, n)
    ensures LowBits(acc, BitsLeft(n)) == TailBits(s, n) && (BitsLeft(n) == 0 ==> TailBits(s, n) == 0)
  {
    LowOfWindow(acc, Previous(s, n - 1), SextetOrZero(s, n - 1));
  }

  lemma LowOfWindow(acc: nat, s0: nat, s1: nat)
    requires acc % 0x1000 == s0 * 64 + s1 && s0 < 64 && s1 < 64
    ensures acc % 64 == s1 && acc % 16 == s1 % 16 && acc % 4 == s1 % 4
  {
    var h := 64 * (acc / 0x1000) + s0;
    assert acc == 64 * h + s1;
    Mod64(acc, h, s1);
    Mod16(acc, 4 * h + s1 / 16, s1 % 16);
    DivMod4(acc, 16 * h + s1 / 4, s1 % 4);
  }

  // ---------- what the codec is for ----------

  /** Three bytes, and four six-bit groups, each read as one 24-bit number. */
  function Value3(x: Byte, y: Byte, z: Byte): int { x * 0x1_0000 + y * 0x100 + z }

  function Value4(s0: nat, s1: nat, s2: nat, s3: nat): int { s0 * 0x4_0000 + s1 * 0x1000 + s2 * 0x40 + s3 }

  lemma SextetsValue(x: Byte, y: Byte, z: Byte)
    ensures Value4(SextetOf(x, y, z, 0), SextetOf(x, y, z, 1), SextetOf(x, y, z, 2), SextetOf(x, y, z, 3))
         == Value3(x, y, z)
  {
  }

  lemma BytesValue(s0: nat, s1: nat, s2: nat, s3: nat)
    requires s0 < 64 && s1 < 64 && s2 < 64 && s3 < 64
    ensures Value3(ByteOf(s0, s1, s2, s3, 0), ByteOf(s0, s1, s2, s3, 1), ByteOf(s0, s1, s2, s3, 2))
         == Value4(s0, s1, s2, s3)
  {
  }

  lemma BytesUnique(x: Byte, y: Byte, z: Byte, x': Byte, y': Byte, z': Byte)
    requires Value3(x, y, z) == Value3(x', y', z')
    ensures x == x' && y == y' && z == z'
  {
  }

  lemma SextetsUnique(s0: nat, s1: nat, s2: nat, s3: nat, s0': nat, s1': nat, s2': nat, s3': nat)
    requires s0 < 64 && s1 < 64 && s2 < 64 && s3 < 64 && s0' < 64 && s1' < 64 && s2' < 64 && s3' < 64
    requires Value4(s0, s1, s2, s3) == Value4(s0', s1', s2', s3')
    ensures s0 == s0' && s1 == s1' && s2 == s2' && s3 == s3'
  {
  }

  /** Section 4 of RFC 4648, which section 5 reuses: every 24-bit group of three input bytes,
      padded with zeros at the end, read as four six-bit groups, is what the symbols spell;
      and there are no more symbols than the input bits need. */
  lemma EncodingRegroupsBits(b: seq<Byte>, q: nat)
    ensures var t := Encoded(b);
            Value4(SextetOrZero(t, 4 * q), SextetOrZero(t, 4 * q + 1), SextetOrZero(t, 4 * q + 2),
                   SextetOrZero(t, 4 * q + 3))
            == Value3(ByteOrZero(b, 3 * q), ByteOrZero(b, 3 * q + 1), ByteOrZero(b, 3 * q + 2))
    ensures forall m :: 0 <= m < |Encoded(b)| ==> Val(Encoded(b)[m]).Some?
    ensures 8 * |b| <= 6 * |Encoded(b)| < 8 * |b| + 6
  {
    EncodedSymbols(b);
    GroupOfEncoding(b, q);
    SextetsValue(ByteOrZero(b, 3 * q), ByteOrZero(b, 3 * q + 1), ByteOrZero(b, 3 * q + 2));
  }

  lemma ZeroBits(x: Byte, y: Byte)
    ensures SextetOf(0, 0, 0, 0) == SextetOf(0, 0, 0, 1) == SextetOf(x, 0, 0, 2) == SextetOf(x, y, 0, 3) == 0
  {
  }

  /** Past the end of the text there are only zero bits. */
  lemma GroupOfEncoding(b: seq<Byte>, q: nat)
    ensures var t, x, y, z := Encoded(b), ByteOrZero(b, 3 * q), ByteOrZero(b, 3 * q + 1), ByteOrZero(b, 3 * q + 2);
            && SextetOrZero(t, 4 * q) == SextetOf(x, y, z, 0) && SextetOrZero(t, 4 * q + 1) == SextetOf(x, y, z, 1)
            && SextetOrZero(t, 4 * q + 2) == SextetOf(x, y, z, 2) && SextetOrZero(t, 4 * q + 3) == SextetOf(x, y, z, 3)
  {
    hide SextetOf, SextetAt, Val;
    ZeroBits(ByteOrZero(b, 3 * q), ByteOrZero(b, 3 * q + 1));
    EncodedSymbols(b);
    GroupSextets(b, q);
    PartialLength(|b|, q);
    var n := |Encoded(b)|;
    if |b| >= 3 * q + 3 {
      assert n >= 4 * q + 4;
    } else if |b| < 3 * q {
      assert n <= 4 * q;
    }
  }

  lemma EncodedLengths(n: nat)
    ensures EncodedLength(n) % 4 != 1 && DecodedLength(EncodedLength(n)) == n
    ensures n % 3 == 0 ==> EncodedLength(n) % 4 == 0
  {
    var q := n / 3;
    PartialLength(n, q);
    if n == 3 * q {
      DivMod4(EncodedLength(n), q, 0);
    } else if n == 3 * q + 1 {
      DivMod4(EncodedLength(n), q, 2);
    } else {
      DivMod4(EncodedLength(n), q, 3);
    }
  }

  lemma EncodedSymbols(b: seq<Byte>)
    ensures FirstBad(Encoded(b)) == |Encoded(b)|
    ensures forall m :: 0 <= m < |Encoded(b)|
                        ==> Val(Encoded(b)[m]).Some? && SextetOrZero(Encoded(b), m) == SextetAt(b, m)
    ensures TrimPad(Encoded(b)) == Encoded(b) && PAD !in Encoded(b)
    ensures |Encoded(b)| % 4 != 1 && DecodedLength(|Encoded(b)|) == |b|
    ensures |b| % 3 == 0 ==> |Encoded(b)| % 4 == 0
  {
    hide SextetAt, Symbol;
    var t := Encoded(b);
    forall m | 0 <= m < |t| ensures Val(t[m]) == Some(SextetAt(b, m)) {
      SymbolVal(t[m], SextetAt(b, m));
    }
    assert Val(PAD).None?;
    EncodedLengths(|b|);
  }

  /** Section 5 of RFC 4648: the encoding has no padding, never has length 1 mod 4, and
      decoding undoes it for every byte sequence. */
  lemma DecodeInvertsEncode(b: seq<Byte>)
    ensures PAD !in Encoded(b) && |Encoded(b)| % 4 != 1
    ensures Decoded(Encoded(b)) == Ok(b)
  {
    hide *;
    Outcomes(Encoded(b));
    EncodedSymbols(b);
    BytesOfEncoding(b);
    LastSextet(b);
  }

  lemma BytesOfEncoding(b: seq<Byte>)
    ensures BytesOf(Encoded(b), |b|) == b
  {
    hide ByteAt, Encoded;
    var t := Encoded(b);
    forall k | 0 <= k < |b| ensures ByteAt(t, k) == b[k] {
      ByteOfEncoding(b, k / 3, k % 3);
    }
  }

  lemma ByteOfEncoding(b: seq<Byte>, q: nat, r: nat)
    requires r < 3 && 3 * q + r < |b|
    ensures ByteAt(Encoded(b), 3 * q + r) == b[3 * q + r]
  {
    hide ByteOf, SextetOf, Encoded, SextetAt, Val, Value3, Value4;
    var t := Encoded(b);
    GroupBytes(t, q);
    var s0, s1, s2, s3 := SextetOrZero(t, 4 * q), SextetOrZero(t, 4 * q + 1),
                          SextetOrZero(t, 4 * q + 2), SextetOrZero(t, 4 * q + 3);
    EncodingRegroupsBits(b, q);
    BytesValue(s0, s1, s2, s3);
    BytesUnique(ByteAt(t, 3 * q), ByteAt(t, 3 * q + 1), ByteAt(t, 3 * q + 2),
                ByteOrZero(b, 3 * q), ByteOrZero(b, 3 * q + 1), ByteOrZero(b, 3 * q + 2));
  }

  lemma PadBits(x: Byte, y: Byte)
    ensures SextetOf(x, 0, 0, 1) % 16 == 0 && SextetOf(x, y, 0, 2) % 4 == 0
  {
    Mod16(SextetOf(x, 0, 0, 1), x % 4, 0);
    DivMod4(SextetOf(x, y, 0, 2), y % 16, 0);
  }

  lemma LastSextet(b: seq<Byte>)
    ensures TailBits(Encoded(b), |Encoded(b)|) == 0
  {
    hide SextetOf, SextetOrZero, EncodedLength, SextetAt;
    var q := |b| / 3;
    GroupOfEncoding(b, q);
    PartialLength(|b|, q);
    PadBits(ByteOrZero(b, 3 * q), ByteOrZero(b, 3 * q + 1));
    if |b| == 3 * q {
      DivMod4(|Encoded(b)|, q, 0);
    } else if |b| == 3 * q + 1 {
      DivMod4(|Encoded(b)|, q, 2);
    } else {
      DivMod4(|Encoded(b)|, q, 3);
    }
  }

  /** Text of alphabet symbols whose tail bits are zero, and whose length an encoding can have,
      is the encoding of the bytes it decodes to. */
  lemma EncodeInvertsDecode(t: seq<Byte>, b: seq<Byte>)
    requires DecodedTrimmed(t) == Ok(b) && |t| % 4 != 1
    ensures t == Encoded(b)
  {
    hide SextetAt, ByteAt, Symbol, TailBits;
    assert |Encoded(b)| == |t|;
    forall m | 0 <= m < |t| ensures t[m] == Symbol(SextetAt(b, m)) {
      SextetOfDecoding(t, b, m / 4, m % 4);
      SymbolVal(t[m], SextetAt(b, m));
    }
  }

  lemma SextetOfDecoding(t: seq<Byte>, b: seq<Byte>, q: nat, r: nat)
    requires DecodedTrimmed(t) == Ok(b) && |t| % 4 != 1
    requires r < 4 && 4 * q + r < |t|
    ensures SextetAt(b, 4 * q + r) == SextetOrZero(t, 4 * q + r)
  {
    hide *;
    var s0, s1, s2, s3 := SextetOrZero(t, 4 * q), SextetOrZero(t, 4 * q + 1),
                          SextetOrZero(t, 4 * q + 2), SextetOrZero(t, 4 * q + 3);
    GroupOfDecoding(t, b, q);
    var x, y, z := ByteOrZero(b, 3 * q), ByteOrZero(b, 3 * q + 1), ByteOrZero(b, 3 * q + 2);
    GroupSextets(b, q);
    BytesValue(s0, s1, s2, s3);
    SextetsValue(x, y, z);
    SextetsUnique(s0, s1, s2, s3,
                  SextetAt(b, 4 * q), SextetAt(b, 4 * q + 1), SextetAt(b, 4 * q + 2), SextetAt(b, 4 * q + 3));
  }

  /** The bytes past the end of the decoded text that a group would give are zero, because its
      tail bits are. */
  lemma GroupOfDecoding(t: seq<Byte>, b: seq<Byte>, q: nat)
    requires DecodedTrimmed(t) == Ok(b) && |t| % 4 != 1 && 4 * q < |t|
    ensures var s0, s1, s2, s3 := SextetOrZero(t, 4 * q), SextetOrZero(t, 4 * q + 1),
                                  SextetOrZero(t, 4 * q + 2), SextetOrZero(t, 4 * q + 3);
            && ByteOrZero(b, 3 * q) == ByteOf(s0, s1, s2, s3, 0)
            && ByteOrZero(b, 3 * q + 1) == ByteOf(s0, s1, s2, s3, 1)
            && ByteOrZero(b, 3 * q + 2) == ByteOf(s0, s1, s2, s3, 2)
  {
    hide ByteAt, Val;
    GroupBytes(t, q);
    assert |b| == DecodedLength(|t|);
    assert forall j :: 0 <= j < |b| ==> b[j] == ByteAt(t, j);
    if |t| == 4 * q + 1 {
      DivMod4(|t|, q, 1);
    } else if |t| == 4 * q + 2 {
      DivMod4(|t|, q, 2);
    } else if |t| == 4 * q + 3 {
      DivMod4(|t|, q, 3);
    } else {
      assert |b| >= 3 * q + 3;
    }
  }

  /** The one surplus spelling that the length test lets through: after trimming, a single
      zero symbol may follow a whole number of groups. */
  lemma SurplusZeroSymbol(t: seq<Byte>, b: seq<Byte>)
    requires |t| % 4 == 1
    ensures DecodedTrimmed(t) == Ok(b) <==> t == Encoded(b) + [ZERO_SYMBOL] && |b| % 3 == 0
  {
    hide *;
    var u := t[..|t| - 1];
    assert t == u + [t[|t| - 1]];
    SurplusSymbolIgnored(u, t[|t| - 1]);
    if DecodedTrimmed(t) == Ok(b) {
      EncodeInvertsDecode(u, b);
    }
    if t == Encoded(b) + [ZERO_SYMBOL] && |b| % 3 == 0 {
      assert u == Encoded(b);
      EncodingTrimmed(b);
    }
  }

  lemma SurplusSymbolIgnored(u: seq<Byte>, c: Byte)
    requires |u| % 4 == 0
    ensures forall b :: DecodedTrimmed(u + [c]) == Ok(b) <==> DecodedTrimmed(u) == Ok(b) && c == ZERO_SYMBOL
    ensures forall b :: DecodedTrimmed(u) == Ok(b) ==> |b| % 3 == 0
  {
    hide FirstBad, TailBits, BytesOf, SextetOrZero, Val;
    SurplusBytes(u, c);
    SurplusBad(u, c);
    SurplusTail(u, c);
  }

  lemma SurplusBytes(u: seq<Byte>, c: Byte)
    requires |u| % 4 == 0
    ensures DecodedLength(|u + [c]|) == DecodedLength(|u|) && DecodedLength(|u|) % 3 == 0
    ensures BytesOf(u, DecodedLength(|u|)) == BytesOf(u + [c], DecodedLength(|u|))
    ensures |BytesOf(u, DecodedLength(|u|))| == DecodedLength(|u|)
  {
    hide ByteOf;
    var t, q := u + [c], |u| / 4;
    DivMod4(|t|, q, 1);
    assert DecodedLength(|t|) == DecodedLength(|u|) == 3 * q;
    forall j | 0 <= j < |u| ensures SextetOrZero(u, j) == SextetOrZero(t, j) {
    }
    forall k | 0 <= k < 3 * q ensures ByteAt(u, k) == ByteAt(t, k) {
      assert k / 3 < q;
    }
  }

  /** The first byte outside the alphabet is the same, or there is none but perhaps the last. */
  lemma SurplusBad(u: seq<Byte>, c: Byte)
    ensures FirstBad(u) < |u| ==> FirstBad(u + [c]) < |u + [c]|
    ensures FirstBad(u) == |u| ==> (FirstBad(u + [c]) == |u + [c]| <==> Val(c).Some?)
  {
    hide Val;
    var t := u + [c];
    assert t[|u|] == c && forall j :: 0 <= j < |u| ==> t[j] == u[j];
  }

  lemma SurplusTail(u: seq<Byte>, c: Byte)
    requires |u| % 4 == 0
    ensures TailBits(u, |u|) == 0
    ensures Val(c).Some? && TailBits(u + [c], |u + [c]|) == 0 <==> c == ZERO_SYMBOL
  {
    SymbolVal(c, 0);
    TableAt(0);
    assert (u + [c])[|u|] == c;
  }

  lemma EncodingTrimmed(b: seq<Byte>)
    ensures DecodedTrimmed(Encoded(b)) == Ok(b)
  {
    hide Encoded, DecodedTrimmed, TrimPad;
    DecodeInvertsEncode(b);
    EncodedSymbols(b);
  }

  /** Every text that decodes, exactly: its trimmed form is the encoding of the result, or
      that encoding with one surplus zero symbol (as in `A===`). */
  lemma DecodesExactly(s: seq<Byte>, b: seq<Byte>)
    ensures Decoded(s) == Ok(b) <==>
            && |s| % 4 != 1
            && (TrimPad(s) == Encoded(b) || (|b| % 3 == 0 && TrimPad(s) == Encoded(b) + [ZERO_SYMBOL]))
  {
    TrimmedDecodesExactly(TrimPad(s), b);
  }

  lemma TrimmedDecodesExactly(t: seq<Byte>, b: seq<Byte>)
    ensures DecodedTrimmed(t) == Ok(b) <==> t == Encoded(b) || (|b| % 3 == 0 && t == Encoded(b) + [ZERO_SYMBOL])
  {
    hide *;
    EncodedSymbols(b);
    if |t| % 4 == 1 {
      SurplusZeroSymbol(t, b);
    } else {
      if DecodedTrimmed(t) == Ok(b) {
        EncodeInvertsDecode(t, b);
      }
      if t == Encoded(b) {
        EncodingTrimmed(b);
      } else if |b| % 3 == 0 && t == Encoded(b) + [ZERO_SYMBOL] {
        DivMod4(|t|, |Encoded(b)| / 4, 1);
      }
    }
  }

  /** Section 3.5 of RFC 4648: on input without padding the decoder accepts exactly the
      encodings, so re-encoding gives the text back. */
  lemma CanonicalWithoutPadding(s: seq<Byte>)
    requires PAD !in s
    ensures Decoded(s).Ok? <==> exists b: seq<Byte> :: s == Encoded(b)
    ensures Decoded(s).Ok? ==> Encoded(Decoded(s).bytes) == s
  {
    assert TrimPad(s) == s;
    if Decoded(s).Ok? {
      EncodeInvertsDecode(s, Decoded(s).bytes);
    }
    if b: seq<Byte> :| s == Encoded(b) {
      DecodeInvertsEncode(b);
    }
  }

  /** Section 3.5 of RFC 4648: distinct texts without padding never decode to the same bytes. */
  lemma DecodeInjectiveWithoutPadding(s: seq<Byte>, s': seq<Byte>)
    requires PAD !in s && PAD !in s' && Decoded(s).Ok? && Decoded(s) == Decoded(s')
    ensures s == s'
  {
    CanonicalWithoutPadding(s);
    CanonicalWithoutPadding(s');
  }

  // ---------- uniqueness among texts of one length ----------

  function Pads(n: nat): (p: seq<Byte>)
    ensures |p| == n && forall i :: 0 <= i < n ==> p[i] == PAD
  {
    seq(n, _ => PAD)
  }

  predicate EndsWithoutPad(u: seq<Byte>) { u == [] || u[|u| - 1] != PAD }

  /** A text is its trimmed form followed by padding. */
  lemma TrimSplit(s: seq<Byte>)
    ensures var t := TrimPad(s); |t| <= |s| && EndsWithoutPad(t) && s == t + Pads(|s| - |t|)
  {
  }

  lemma {:induction false} TrimOf(u: seq<Byte>, n: nat)
    requires EndsWithoutPad(u)
    ensures TrimPad(u + Pads(n)) == u
  {
    var s := u + Pads(n);
    if n == 0 {
      assert s == u;
    } else {
      assert s[..|s| - 1] == u + Pads(n - 1);
      TrimOf(u, n - 1);
    }
  }

  lemma EncodingEndsWithoutPad(b: seq<Byte>)
    ensures EndsWithoutPad(Encoded(b)) && EndsWithoutPad(Encoded(b) + [ZERO_SYMBOL])
  {
    hide Encoded;
    EncodedSymbols(b);
  }

  lemma WholeGroups(b: seq<Byte>)
    ensures |b| % 3 == 0 <==> |Encoded(b)| % 4 == 0
    ensures |Encoded(b)| % 4 != 1
    ensures |b| % 3 == 0 ==> |Encoded(b) + [ZERO_SYMBOL]| % 4 == 1
  {
    hide Encoded;
    EncodedSymbols(b);
    EncodedSize(b);
    var q := |b| / 3;
    PartialLength(|b|, q);
    if |b| == 3 * q + 1 {
      DivMod4(|Encoded(b)|, q, 2);
    } else if |b| == 3 * q + 2 {
      DivMod4(|Encoded(b)|, q, 3);
    } else {
      DivMod4(|Encoded(b)| + 1, q, 1);
    }
  }

  lemma EncodedSize(b: seq<Byte>)
    ensures |Encoded(b)| == EncodedLength(|b|)
  {
  }

  /** A letter, a digit, a hyphen or an underscore. */
  predicate InAlphabet(c: Byte) {
    || 'A' as int <= c <= 'Z' as int || 'a' as int <= c <= 'z' as int || '0' as int <= c <= '9' as int
    || c == '-' as int || c == '_' as int
  }

  /** Which error a text gets: for its length, padding included; else for its first byte outside the
      alphabet, by place and value; else, when no bytes have this spelling, for its last bits. */
  lemma ErrorsExactly(s: seq<Byte>)
    ensures var t := TrimPad(s);
            && (Decoded(s) == Err(InvalidLength) <==> |s| % 4 == 1)
            && (forall i: nat, c: Byte ::
                  Decoded(s) == Err(InvalidByte(i, c))
                  <==> && |s| % 4 != 1 && i < |t| && t[i] == c && !InAlphabet(c)
                       && forall j :: 0 <= j < i ==> InAlphabet(t[j]))
            && (Decoded(s) == Err(NonCanonicalTrailingBits)
                <==> && |s| % 4 != 1 && (forall j :: 0 <= j < |t| ==> InAlphabet(t[j]))
                     && forall b: seq<Byte> :: Decoded(s) != Ok(b))
  {
    hide TailBits, BytesOf, TrimPad;
    forall c: Byte ensures InAlphabet(c) <==> Val(c).Some? {
    }
  }

  /** No other text of the same length decodes to the same bytes. */
  ghost predicate UniqueAtLength(s: seq<Byte>) {
    forall s': seq<Byte> :: |s'| == |s| && Decoded(s') == Decoded(s) ==> s' == s
  }

  lemma NoPads(t: seq<Byte>)
    ensures t + Pads(0) == t
  {
  }

  lemma Spelled(u: seq<Byte>, n: nat, b: seq<Byte>)
    requires u == Encoded(b) || (|b| % 3 == 0 && u == Encoded(b) + [ZERO_SYMBOL])
    requires |u + Pads(n)| % 4 != 1
    ensures Decoded(u + Pads(n)) == Ok(b)
  {
    hide Decoded, TrimPad, Encoded, Pads;
    EncodingEndsWithoutPad(b);
    TrimOf(u, n);
    DecodesExactly(u + Pads(n), b);
  }

  /** A surplus zero symbol in the place of a padding symbol makes another text of the same length. */
  lemma SurplusForPad(e: seq<Byte>, n: nat)
    requires n > 0
    ensures |e + [ZERO_SYMBOL] + Pads(n - 1)| == |e + Pads(n)|
    ensures e + [ZERO_SYMBOL] + Pads(n - 1) != e + Pads(n)
  {
    assert (e + [ZERO_SYMBOL] + Pads(n - 1))[|e|] == ZERO_SYMBOL && (e + Pads(n))[|e|] == PAD;
  }

  /** The other spelling of whole groups that are followed by padding: with a surplus zero symbol in
      place of one padding symbol, or without it. */
  lemma OtherSpelling(s: seq<Byte>, b: seq<Byte>) returns (s': seq<Byte>)
    requires Decoded(s) == Ok(b) && PAD in s && |TrimPad(s)| % 4 < 2
    ensures |s'| == |s| && s' != s && Decoded(s') == Ok(b)
  {
    hide *;
    var t, e := TrimPad(s), Encoded(b);
    DecodesExactly(s, b);
    TrimSplit(s);
    WholeGroups(b);
    NoPadInside(b);
    var n: nat := |s| - |t|;
    assert n == 0 ==> s == t by {
      NoPads(t);
    }
    if t == e {
      SurplusForPad(e, n);
      s' := e + [ZERO_SYMBOL] + Pads(n - 1);
      Spelled(e + [ZERO_SYMBOL], n - 1, b);
    } else {
      SurplusForPad(e, n + 1);
      s' := e + Pads(n + 1);
      Spelled(e, n + 1, b);
    }
  }

  lemma NoPadInside(b: seq<Byte>)
    ensures PAD !in Encoded(b) && PAD !in Encoded(b) + [ZERO_SYMBOL]
  {
    hide Encoded;
    EncodedSymbols(b);
  }

  lemma SameSpelling(s: seq<Byte>, s': seq<Byte>, b: seq<Byte>)
    requires Decoded(s) == Ok(b) && Decoded(s') == Ok(b) && |s| == |s'|
    requires PAD !in s || |TrimPad(s)| % 4 >= 2
    ensures s == s'
  {
    hide Decoded, Encoded;
    DecodesExactly(s, b);
    DecodesExactly(s', b);
    WholeGroups(b);
    TrimSplit(s);
    TrimSplit(s');
    if PAD !in s {
      assert TrimPad(s) == s;
    }
  }

  /** A decoding text is the only one of its length for its bytes exactly when it has no padding or
      does not consist of whole groups. */
  lemma UniqueAtLengthExactly(s: seq<Byte>)
    requires Decoded(s).Ok?
    ensures UniqueAtLength(s) <==> PAD !in s || |TrimPad(s)| % 4 >= 2
  {
    hide Decoded, TrimPad;
    var b := Decoded(s).bytes;
    if PAD !in s || |TrimPad(s)| % 4 >= 2 {
      forall s': seq<Byte> | |s'| == |s| && Decoded(s') == Decoded(s) ensures s' == s {
        SameSpelling(s, s', b);
      }
    } else {
      var s' := OtherSpelling(s, b);
      assert !UniqueAtLength(s);
    }
  }

  /** For example, three spellings of no bytes at all. */
  lemma PaddedSpellingsCollide()
    ensures Decoded([ZERO_SYMBOL, PAD, PAD, PAD]) == Decoded([PAD, PAD, PAD, PAD]) == Decoded([]) == Ok([])
  {
    var e: seq<Byte> := [];
    var x: seq<Byte> := [ZERO_SYMBOL, PAD, PAD, PAD];
    var y: seq<Byte> := [PAD, PAD, PAD, PAD];
    assert Encoded(e) == e;
    var tx, ty := TrimPad(x), TrimPad(y);
    assert |ty| == 0 by {
      assert forall j :: 0 <= j < 4 ==> y[j] == PAD;
    }
    assert |tx| == 1 by {
      assert x[0] != PAD;
      assert forall j :: 1 <= j < 4 ==> x[j] == PAD;
    }
    assert tx == [ZERO_SYMBOL] == Encoded(e) + [ZERO_SYMBOL];
    DecodesExactly(x, e);
    DecodesExactly(y, e);
    DecodesExactly(e, e);
  }
}
