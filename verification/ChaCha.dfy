/** The ChaCha20 stream cipher of section 2.4 of RFC 8439.  A block is 320 half steps over
    sixteen words; the specification lists them, and the code runs them in place. */
module ChaCha {
  import opened Words

  type State = s: seq<u32> | |s| == 16 witness seq(16, _ => 0)

  // ----- the block function -----

  /** The rotation by c bits, as 2^c and 2^(32-c). */
  datatype Rotation = R16 | R12 | R8 | R7

  function Rotl(v: u32, c: Rotation): u32
  {
    match c
    case R16 => v % 0x1_0000 * 0x1_0000 + v / 0x1_0000
    case R12 => v % 0x10_0000 * 0x1000 + v / 0x10_0000
    case R8 => v % 0x100_0000 * 0x100 + v / 0x100_0000
    case R7 => v % 0x200_0000 * 0x80 + v / 0x200_0000
  }

  function Xor32(x: u32, y: u32): u32
  {
    Pow2Values();
    XorBound(x, y, 32);
    Xor(x, y)
  }

  function Add32(x: u32, y: u32): u32 { (x as int + y) % 0x1_0000_0000 }

  /** Half a step of a quarter round: a += b; d ^= a; d <<<= c. */
  datatype Half = Half(a: nat, b: nat, d: nat, c: Rotation)
  type Step = h: Half | h.a < 16 && h.b < 16 && h.d < 16 witness Half(0, 0, 0, R16)

  function Apply(s: State, h: Step): State
  {
    var t := s[h.a := Add32(s[h.a], s[h.b])];
    t[h.d := Rotl(Xor32(t[h.d], t[h.a]), h.c)]
  }

  /** The state after a list of half steps. */
  function Run(s: State, p: seq<Step>): State
  {
    if |p| == 0 then s else Apply(Run(s, p[..|p| - 1]), p[|p| - 1])
  }

  lemma RunOne(s: State, p: seq<Step>, h: Step)
    ensures Run(s, p + [h]) == Apply(Run(s, p), h)
  {
    assert (p + [h])[..|p|] == p;
  }

  lemma {:induction false} RunAppend(s: State, p: seq<Step>, q: seq<Step>)
    ensures Run(s, p + q) == Run(Run(s, p), q)
  {
    if |q| == 0 {
      assert p + q == p;
    } else {
      RunAppend(s, p, q[..|q| - 1]);
      assert (p + q)[..|p + q| - 1] == p + q[..|q| - 1];
    }
  }

  /** The quarter round on words a, b, c and d (section 2.1). */
  function Quarter(a: nat, b: nat, c: nat, d: nat): seq<Step>
    requires a < 16 && b < 16 && c < 16 && d < 16
  {
    [Half(a, b, d, R16)] + [Half(c, d, b, R12)] + [Half(a, b, d, R8)] + [Half(c, d, b, R7)]
  }

  function Columns(): seq<Step>
  {
    Quarter(0, 4, 8, 12) + Quarter(1, 5, 9, 13) + Quarter(2, 6, 10, 14) + Quarter(3, 7, 11, 15)
  }

  function Diagonals(): seq<Step>
  {
    Quarter(0, 5, 10, 15) + Quarter(1, 6, 11, 12) + Quarter(2, 7, 8, 13) + Quarter(3, 4, 9, 14)
  }

  /** n double rounds: a column round and a diagonal round each (section 2.3). */
  function Turned(s: State, n: nat): State
  {
    if n == 0 then s else Run(Run(Turned(s, n - 1), Columns()), Diagonals())
  }

  /** Twenty rounds, then the input added back. */
  function Block(s: State): (r: State)
  {
    seq(16, i requires 0 <= i < 16 => Add32(Turned(s, 10)[i], s[i]))
  }

  method HalfStep(x: array<u32>, h: Step)
    requires x.Length == 16
    modifies x
    ensures x[..] == Run(old(x[..]), [h])
  {
    RunOne(x[..], [], h);
    x[h.a] := Add32(x[h.a], x[h.b]);
    x[h.d] := Xor32(x[h.d], x[h.a]);
    x[h.d] := Rotl(x[h.d], h.c);
    assert [] + [h] == [h];
  }

  lemma RunFour(s: State, p0: seq<Step>, p1: seq<Step>, p2: seq<Step>, p3: seq<Step>)
    ensures Run(Run(Run(Run(s, p0), p1), p2), p3) == Run(s, p0 + p1 + p2 + p3)
  {
    RunAppend(s, p0, p1);
    RunAppend(s, p0 + p1, p2);
    RunAppend(s, p0 + p1 + p2, p3);
  }

  /** chacha20_quarter. */
  method QuarterStep(x: array<u32>, a: nat, b: nat, c: nat, d: nat)
    requires x.Length == 16 && a < 16 && b < 16 && c < 16 && d < 16
    modifies x
    ensures x[..] == Run(old(x[..]), Quarter(a, b, c, d))
  {
    var h0, h1, h2, h3 := Half(a, b, d, R16), Half(c, d, b, R12), Half(a, b, d, R8), Half(c, d, b, R7);
    RunFour(x[..], [h0], [h1], [h2], [h3]);
    HalfStep(x, h0);
    HalfStep(x, h1);
    HalfStep(x, h2);
    HalfStep(x, h3);
  }

  method ColumnStep(x: array<u32>)
    requires x.Length == 16
    modifies x
    ensures x[..] == Run(old(x[..]), Columns())
  {
    RunFour(x[..], Quarter(0, 4, 8, 12), Quarter(1, 5, 9, 13), Quarter(2, 6, 10, 14), Quarter(3, 7, 11, 15));
    QuarterStep(x, 0, 4, 8, 12);
    QuarterStep(x, 1, 5, 9, 13);
    QuarterStep(x, 2, 6, 10, 14);
    QuarterStep(x, 3, 7, 11, 15);
  }

  method DiagonalStep(x: array<u32>)
    requires x.Length == 16
    modifies x
    ensures x[..] == Run(old(x[..]), Diagonals())
  {
    RunFour(x[..], Quarter(0, 5, 10, 15), Quarter(1, 6, 11, 12), Quarter(2, 7, 8, 13), Quarter(3, 4, 9, 14));
    QuarterStep(x, 0, 5, 10, 15);
    QuarterStep(x, 1, 6, 11, 12);
    QuarterStep(x, 2, 7, 8, 13);
    QuarterStep(x, 3, 4, 9, 14);
  }

  method TurnIn(x: array<u32>, n: nat)
    requires x.Length == 16
    modifies x
    ensures x[..] == Turned(old(x[..]), n)
  {
    ghost var s := x[..];
    for i := 0 to n
      invariant x[..] == Turned(s, i)
    {
      ColumnStep(x);
      DiagonalStep(x);
    }
  }

  /** chacha20_block: ten double rounds on a copy, then the input added back. */
  method BlockOf(s: State) returns (r: State)
    ensures r == Block(s)
  {
    var x := new u32[16](i requires 0 <= i < 16 => s[i]);
    assert x[..] == s;
    TurnIn(x, 10);
    r := AddBack(x[..], s);
  }

  method AddBack(x: State, s: State) returns (r: State)
    ensures forall i :: 0 <= i < 16 ==> r[i] == Add32(x[i], s[i])
  {
    var out: seq<u32> := [];
    for i := 0 to 16
      invariant |out| == i && forall j :: 0 <= j < i ==> out[j] == Add32(x[j], s[j])
    {
      out := out + [Add32(x[i], s[i])];
    }
    r := out;
  }

  // ----- the key stream -----

  /** chacha20_init_state: constants, key, block counter, nonce. */
  function Initial(key: seq<u8>, nonce: seq<u8>, counter: u32): (s: State)
    requires |key| == 32 && |nonce| == 12
  {
    [0x6170_7865, 0x3320_646e, 0x7962_2d32, 0x6b20_6574]
    + seq(8, i requires 0 <= i < 8 => Load32(key[4 * i..4 * i + 4]))
    + [counter, Load32(nonce[0..4]), Load32(nonce[4..8]), Load32(nonce[8..12])]
  }

  /** The 64 bytes of key stream of one block: its words, least significant byte first. */
  function KeyBlock(key: seq<u8>, nonce: seq<u8>, counter: u32): (b: seq<u8>)
    requires |key| == 32 && |nonce| == 12
    ensures |b| == 64
  {
    Bytes(Block(Initial(key, nonce, counter)))
  }

  function Bytes(ws: State): (b: seq<u8>)
    ensures |b| == 64
  {
    seq(64, i requires 0 <= i < 64 => Store32(ws[i / 4])[i % 4])
  }

  method StoreWords(ws: State) returns (b: seq<u8>)
    ensures b == Bytes(ws)
  {
    b := [];
    for i := 0 to 16
      invariant |b| == 4 * i && forall j :: 0 <= j < 4 * i ==> b[j] == Store32(ws[j / 4])[j % 4]
    {
      b := b + Store32(ws[i]);
    }
  }

  type Keystream = u32 -> seq<u8>

  ghost predicate Blocks(ks: Keystream)
  {
    forall c: u32 :: |ks(c)| == 64
  }

  /** Every byte xored with the key-stream byte at its own position, counting from block
      `counter`; the block counter wraps. */
  ghost function Masked(data: seq<u8>, ks: Keystream, counter: u32): (r: seq<u8>)
    requires Blocks(ks)
    ensures |r| == |data|
  {
    seq(|data|, i requires 0 <= i < |data| => XorByte(data[i], ks((counter + i / 64) % 0x1_0000_0000)[i % 64]))
  }

  ghost function Stream(key: seq<u8>, nonce: seq<u8>): (ks: Keystream)
    requires |key| == 32 && |nonce| == 12
    ensures Blocks(ks)
  {
    (c: u32) => KeyBlock(key, nonce, c)
  }

  method Chunk(data: seq<u8>, ks: seq<u8>) returns (r: seq<u8>)
    requires |data| <= |ks|
    ensures |r| == |data| && forall i :: 0 <= i < |data| ==> r[i] == XorByte(data[i], ks[i])
  {
    r := [];
    for i := 0 to |data|
      invariant |r| == i && forall j :: 0 <= j < i ==> r[j] == XorByte(data[j], ks[j])
    {
      r := r + [XorByte(data[i], ks[i])];
    }
  }

  /** The chunk at a block boundary, in terms of the whole stream. */
  lemma ChunkInStream(data: seq<u8>, ks: Keystream, counter: u32, done: nat, b: nat, i: nat)
    requires Blocks(ks) && done == 64 * b && done + i < |data| && i < 64
    ensures Masked(data, ks, counter)[done + i] == XorByte(data[done + i], ks((counter + b) % 0x1_0000_0000)[i])
  {
    assert (64 * b + i) / 64 == b && (64 * b + i) % 64 == i;
  }

  method NextChunk(data: seq<u8>, ghost ks: Keystream, ghost counter: u32, blk: seq<u8>, done: nat, ghost b: nat)
    returns (r: seq<u8>)
    requires Blocks(ks) && done == 64 * b && done < |data|
    requires blk == ks((counter + b) % 0x1_0000_0000)
    ensures |r| == if |data| - done > 64 then 64 else |data| - done
    ensures r == Masked(data, ks, counter)[done..done + |r|]
  {
    var n := if |data| - done > 64 then 64 else |data| - done;
    r := Chunk(data[done..done + n], blk);
    forall i | 0 <= i < n
      ensures r[i] == Masked(data, ks, counter)[done + i]
    {
      ChunkInStream(data, ks, counter, done, b, i);
    }
  }

  method KeyBytes(key: seq<u8>, nonce: seq<u8>, c: u32) returns (b: seq<u8>)
    requires |key| == 32 && |nonce| == 12
    ensures b == Stream(key, nonce)(c)
  {
    var ws := BlockOf(Initial(key, nonce, c));
    b := StoreWords(ws);
  }

  /** out is what the stream gives up to some block boundary, or all of it. */
  ghost predicate Progress(out: seq<u8>, m: seq<u8>, c: u32, counter: u32, b: nat)
  {
    out <= m && (|out| == 64 * b || out == m) && c == (counter + b) % 0x1_0000_0000
  }

  lemma Finished(out: seq<u8>, m: seq<u8>, c: u32, counter: u32, b: nat)
    requires Progress(out, m, c, counter, b) && |out| >= |m|
    ensures out == m
  {
  }

  lemma Advance(out: seq<u8>, m: seq<u8>, c: u32, counter: u32, b: nat, r: seq<u8>)
    requires Progress(out, m, c, counter, b) && |out| < |m|
    requires |r| == if |m| - |out| > 64 then 64 else |m| - |out|
    requires r == m[|out|..|out| + |r|]
    ensures Progress(out + r, m, Add32(c, 1), counter, b + 1)
  {
    Counted(counter, b);
  }

  lemma Counted(counter: u32, b: nat)
    ensures Add32((counter + b) % 0x1_0000_0000, 1) == (counter + (b + 1)) % 0x1_0000_0000
  {
  }

  method NextBlock(data: seq<u8>, key: seq<u8>, nonce: seq<u8>, ghost m: seq<u8>, ghost counter: u32, c: u32, done: nat,
      ghost b: nat)
    returns (r: seq<u8>)
    requires |key| == 32 && |nonce| == 12 && m == Masked(data, Stream(key, nonce), counter)
    requires done == 64 * b && done < |data| && c == (counter + b) % 0x1_0000_0000
    ensures |r| == if |m| - done > 64 then 64 else |m| - done
    ensures r == m[done..done + |r|]
  {
    var blk := KeyBytes(key, nonce, c);
    r := NextChunk(data, Stream(key, nonce), counter, blk, done, b);
  }

  /** chacha20_xor: one block of key stream per 64 bytes, the last one cut short. */
  method XorWith(data: seq<u8>, key: seq<u8>, nonce: seq<u8>, counter: u32) returns (out: seq<u8>)
    requires |key| == 32 && |nonce| == 12
    ensures out == Masked(data, Stream(key, nonce), counter)
  {
    out := [];
    var c: u32 := counter;
    ghost var b, m := 0, Masked(data, Stream(key, nonce), counter);
    while |out| < |data|
      invariant Progress(out, m, c, counter, b)
      decreases |data| - |out|
    {
      var r := NextBlock(data, key, nonce, m, counter, c, |out|, b);
      Advance(out, m, c, counter, b, r);
      out := out + r;
      c, b := Add32(c, 1), b + 1;
    }
    Finished(out, m, c, counter, b);
  }

  // The cipher is its own inverse.
  lemma MaskedTwice(data: seq<u8>, ks: Keystream, counter: u32)
    requires Blocks(ks)
    ensures Masked(Masked(data, ks, counter), ks, counter) == data
  {
    forall i | 0 <= i < |data|
      ensures Masked(Masked(data, ks, counter), ks, counter)[i] == data[i]
    {
      XorCancel(data[i], ks((counter + i / 64) % 0x1_0000_0000)[i % 64]);
    }
  }
}
