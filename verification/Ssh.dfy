/** The SSH binary packet protocol of section 6 of RFC 4253, in the clear and under
    chacha20-poly1305, as the daemon prints and parses it. */
module Ssh {
  import opened Words
  import opened ChaCha
  import Poly1305

  datatype Option<T> = None | Some(value: T)

  const BUFFER: nat := 2048     // body[2048], enc_pl[2048]
  const LONGEST: nat := 2000    // ssh_recv's limit on the packet length

  // ----- numbers on the wire -----

  function Be32(v: u32): (b: seq<u8>)
    ensures |b| == 4
  {
    var p := Store32(v);
    [p[3], p[2], p[1], p[0]]
  }

  function FromBe(b: seq<u8>): u32
    requires |b| == 4
  {
    Load32([b[3], b[2], b[1], b[0]])
  }

  lemma BeRoundTrip(v: u32)
    ensures FromBe(Be32(v)) == v
  {
    var p := Store32(v);
    assert [p[0], p[1], p[2], p[3]] == p;
  }

  // ----- protection of one packet -----

  /** What covers one packet: nothing, or two key streams and an authenticator. */
  datatype Cover = Clear | Under(head: Keystream, body: Keystream, mac: seq<u8> -> seq<u8>)

  ghost predicate Sound(c: Cover)
  {
    c.Under? ==> Blocks(c.head) && Blocks(c.body) && forall m :: |c.mac(m)| == 16
  }

  /** A packet body on the wire. */
  ghost function Wire(body: seq<u8>, c: Cover): seq<u8>
    requires Sound(c) && |body| < 0x1_0000_0000
  {
    match c
    case Clear => Be32(|body|) + body
    case Under(head, pl, mac) =>
      var e := Masked(Be32(|body|), head, 0) + Masked(body, pl, 1);
      e + mac(e)
  }

  datatype Packet = Bad | Good(body: seq<u8>, rest: seq<u8>)

  ghost function LengthOf(wire: seq<u8>, c: Cover): u32
    requires Sound(c) && |wire| >= 4
  {
    FromBe(if c.Under? then Masked(wire[..4], c.head, 0) else wire[..4])
  }

  /** The next body off the wire: the length is in range, the bytes are there, and the tag,
      if there is one, is the tag of what precedes it. */
  ghost function Opened(wire: seq<u8>, c: Cover): Packet
    requires Sound(c)
  {
    if |wire| < 4 then Bad
    else
      var n := LengthOf(wire, c);
      if n < 5 || n > LONGEST then Bad else Contents(wire, c, n)
  }

  /** The body after a length field that says n. */
  ghost function Contents(wire: seq<u8>, c: Cover, n: nat): Packet
    requires Sound(c) && |wire| >= 4
  {
    match c
    case Clear => if |wire| < 4 + n then Bad else Good(wire[4..4 + n], wire[4 + n..])
    case Under(head, pl, mac) =>
      if |wire| < 4 + n + 16 then Bad
      else match Judged(wire[..4], wire[4..4 + n], wire[4 + n..4 + n + 16], c)
        case None => Bad
        case Some(plain) => Good(plain, wire[4 + n + 16..])
  }

  /** What a body and its tag are worth under a cover. */
  ghost function Judged(lenbuf: seq<u8>, body: seq<u8>, tag: seq<u8>, c: Cover): Option<seq<u8>>
    requires Sound(c) && c.Under?
  {
    if tag == c.mac(lenbuf + body) then Some(Masked(body, c.body, 1)) else None
  }

  lemma OpenClear(body: seq<u8>, rest: seq<u8>)
    requires 5 <= |body| < 0x1_0000_0000
    ensures Opened(Wire(body, Clear) + rest, Clear) == if |body| <= LONGEST then Good(body, rest) else Bad
  {
    var w := Wire(body, Clear) + rest;
    BeRoundTrip(|body|);
    assert w[..4] == Be32(|body|);
    assert w[4..4 + |body|] == body && w[4 + |body|..] == rest;
  }

  lemma OpenUnder(body: seq<u8>, c: Cover, rest: seq<u8>)
    requires 5 <= |body| < 0x1_0000_0000 && Sound(c) && c.Under?
    ensures Opened(Wire(body, c) + rest, c) == if |body| <= LONGEST then Good(body, rest) else Bad
  {
    var l, e := Masked(Be32(|body|), c.head, 0), Masked(body, c.body, 1);
    var t := c.mac(l + e);
    var w := Wire(body, c) + rest;
    var n := |body|;
    BeRoundTrip(|body|);
    MaskedTwice(Be32(|body|), c.head, 0);
    MaskedTwice(body, c.body, 1);
    Parts(l, e, t, rest);
    assert w == l + e + t + rest;
  }

  lemma Parts(l: seq<u8>, e: seq<u8>, t: seq<u8>, rest: seq<u8>)
    requires |l| == 4 && |t| == 16
    ensures var w := l + e + t + rest; var n := 4 + |e|;
            w[..4] == l && w[4..n] == e && w[n..n + 16] == t && w[n + 16..] == rest
  {
  }

  // ----- padding -----

  /** ssh_send's padding: up to the next multiple of 8 and never under four bytes; the length
      field is counted in only when it is in the clear. */
  function PadLen(n: nat, encrypted: bool): (pad: nat)
    ensures 4 <= pad <= 11
    ensures if encrypted then (1 + n + pad) % 8 == 0 else (4 + 1 + n + pad) % 8 == 0
  {
    var pad := 8 - (n + if encrypted then 1 else 5) % 8;
    if pad < 4 then pad + 8 else pad
  }

  /** The payloads whose packet the receiver's limit lets through. */
  predicate Fits(n: nat, encrypted: bool)
  {
    n <= if encrypted then 1995 else 1991
  }

  lemma FitsIsLimit(n: nat, encrypted: bool)
    ensures 1 + n + PadLen(n, encrypted) <= LONGEST <==> Fits(n, encrypted)
  {
    var q := (n + if encrypted then 1 else 5) / 8;
  }

  function Padded(payload: seq<u8>, noise: seq<u8>): (body: seq<u8>)
    requires |noise| < 256
    ensures |body| == 1 + |payload| + |noise|
  {
    [|noise|] + payload + noise
  }

  function Unpadded(body: seq<u8>): Option<seq<u8>>
    requires |body| > 0
  {
    if body[0] + 1 > |body| then None else Some(body[1..|body| - body[0]])
  }

  lemma UnpadPadded(payload: seq<u8>, noise: seq<u8>)
    requires |noise| < 256
    ensures Unpadded(Padded(payload, noise)) == Some(payload)
  {
  }

  // ----- whole streams -----

  datatype Message = Message(payload: seq<u8>, noise: seq<u8>)

  /** The padding bytes are random, their number is not. */
  predicate Sendable(m: Message, c: Cover)
  {
    |m.noise| == PadLen(|m.payload|, c.Under?) && |m.payload| < 0x8000_0000
  }

  ghost predicate AllSendable(ms: seq<Message>, cs: seq<Cover>)
  {
    |ms| == |cs| && forall i :: 0 <= i < |ms| ==> Sound(cs[i]) && Sendable(ms[i], cs[i])
  }

  /** The bytes of one message after another. */
  ghost function Sent(ms: seq<Message>, cs: seq<Cover>): seq<u8>
    requires AllSendable(ms, cs)
  {
    if |ms| == 0 then []
    else Wire(Padded(ms[0].payload, ms[0].noise), cs[0]) + Sent(ms[1..], cs[1..])
  }

  datatype Read = Stop | Take(payload: seq<u8>, rest: seq<u8>)

  /** One ssh_recv. */
  ghost function Received(wire: seq<u8>, c: Cover): Read
    requires Sound(c)
  {
    match Opened(wire, c)
    case Bad => Stop
    case Good(body, rest) =>
      if |body| == 0 || Unpadded(body) == None then Stop else Take(Unpadded(body).value, rest)
  }

  datatype Reads = Failed | Took(payloads: seq<seq<u8>>, rest: seq<u8>)

  /** One ssh_recv after another, as many as there are covers. */
  ghost function ReceivedAll(wire: seq<u8>, cs: seq<Cover>): Reads
    requires forall i :: 0 <= i < |cs| ==> Sound(cs[i])
  {
    if |cs| == 0 then Took([], wire)
    else match Received(wire, cs[0])
      case Stop => Failed
      case Take(payload, rest) =>
        match ReceivedAll(rest, cs[1..])
        case Failed => Failed
        case Took(ps, rest') => Took([payload] + ps, rest')
  }

  function Payloads(ms: seq<Message>): seq<seq<u8>>
  {
    if |ms| == 0 then [] else [ms[0].payload] + Payloads(ms[1..])
  }

  lemma ReceiveOne(m: Message, c: Cover, rest: seq<u8>)
    requires Sound(c) && Sendable(m, c)
    ensures Received(Wire(Padded(m.payload, m.noise), c) + rest, c)
         == if Fits(|m.payload|, c.Under?) then Take(m.payload, rest) else Stop
  {
    var body := Padded(m.payload, m.noise);
    if c.Under? { OpenUnder(body, c, rest); } else { OpenClear(body, rest); }
    FitsIsLimit(|m.payload|, c.Under?);
    UnpadPadded(m.payload, m.noise);
  }

  /** A packet of 1992 payload bytes can be sent in the clear, and the receiver drops it. */
  lemma LongPacketStops(m: Message, rest: seq<u8>)
    requires |m.payload| == 1992 && |m.noise| == 11
    ensures Sendable(m, Clear) && Sound(Clear) && 1 + 1992 + 11 <= BUFFER
    ensures Received(Wire(Padded(m.payload, m.noise), Clear) + rest, Clear) == Stop
  {
    ReceiveOne(m, Clear, rest);
  }

  ghost predicate AllFit(ms: seq<Message>, cs: seq<Cover>)
    requires |ms| == |cs|
  {
    forall i :: 0 <= i < |ms| ==> Fits(|ms[i].payload|, cs[i].Under?)
  }

  /** Whatever is sent, however it is covered, comes back unchanged and in order, and what
      follows it is left alone, exactly when every payload fits. */
  lemma {:induction false} StreamRoundTrip(ms: seq<Message>, cs: seq<Cover>, rest: seq<u8>)
    requires AllSendable(ms, cs)
    ensures ReceivedAll(Sent(ms, cs) + rest, cs) == if AllFit(ms, cs) then Took(Payloads(ms), rest) else Failed
  {
    if |ms| == 0 {
      assert Sent(ms, cs) + rest == rest;
    } else {
      var head := Wire(Padded(ms[0].payload, ms[0].noise), cs[0]);
      var more := Sent(ms[1..], cs[1..]) + rest;
      assert Sent(ms, cs) + rest == head + more;
      ReceiveOne(ms[0], cs[0], more);
      StreamRoundTrip(ms[1..], cs[1..], rest);
      AllFitSplit(ms, cs);
    }
  }

  lemma AllFitSplit(ms: seq<Message>, cs: seq<Cover>)
    requires |ms| == |cs| > 0
    ensures AllFit(ms, cs) <==> Fits(|ms[0].payload|, cs[0].Under?) && AllFit(ms[1..], cs[1..])
  {
    if AllFit(ms[1..], cs[1..]) && Fits(|ms[0].payload|, cs[0].Under?) {
      forall i | 0 <= i < |ms|
        ensures Fits(|ms[i].payload|, cs[i].Under?)
      {
        if i > 0 { assert ms[i] == ms[1..][i - 1] && cs[i] == cs[1..][i - 1]; }
      }
    }
    if AllFit(ms, cs) {
      forall i | 0 <= i < |ms| - 1
        ensures Fits(|ms[1..][i].payload|, cs[1..][i].Under?)
      {
        assert Fits(|ms[i + 1].payload|, cs[i + 1].Under?);
      }
    }
  }

  // ----- chacha20-poly1305@openssh.com -----

  /** The 96-bit nonce that stands for a 64-bit big-endian sequence number. */
  function Nonce(seqno: u32): (n: seq<u8>)
    ensures |n| == 12
  {
    Zeros(8) + Be32(seqno)
  }

  ghost function Digits(n: nat, len: nat): (b: seq<u8>)
    ensures |b| == len && (n < Pow256(len) ==> LE(b) == n)
  {
    if len == 0 then [] else
      var rest := Digits(n / 256, len - 1);
      assert n < Pow256(len) ==> n / 256 < Pow256(len - 1);
      assert ([n % 256] + rest)[1..] == rest;
      [n % 256] + rest
  }

  /** The Poly1305 tag as bytes. */
  ghost function Tag(msg: seq<u8>, key: seq<u8>): (t: seq<u8>)
    requires |key| == 32
    ensures |t| == 16
  {
    Digits(Poly1305.Mac(msg, key), 16)
  }

  lemma TagIs(msg: seq<u8>, key: seq<u8>, t: seq<u8>)
    requires |key| == 32 && |t| == 16 && LE(t) == Poly1305.Mac(msg, key)
    ensures t == Tag(msg, key)
  {
    LEBound(t);
    LEInjective(t, Tag(msg, key));
  }

  /** The authenticator key: the first 32 bytes of the payload key stream. */
  ghost function TagKey(ks: Keystream): (k: seq<u8>)
    requires Blocks(ks)
    ensures |k| == 32
  {
    Masked(Zeros(64), ks, 0)[..32]
  }

  /** The cover of packet seqno: the second half of the key hides the length, the first half
      hides and authenticates. */
  ghost function CoverOf(key: seq<u8>, seqno: u32): (c: Cover)
    requires |key| == 64
    ensures Sound(c) && c.Under?
  {
    var pl := Stream(key[..32], Nonce(seqno));
    Under(Stream(key[32..], Nonce(seqno)), pl, (m: seq<u8>) => Tag(m, TagKey(pl)))
  }

  /** The tag of a packet under the payload key. */
  method TagFor(msg: seq<u8>, key: seq<u8>, seqno: u32) returns (t: seq<u8>)
    requires |key| == 64
    ensures t == CoverOf(key, seqno).mac(msg)
  {
    var polykey := XorWith(Zeros(64), key[..32], Nonce(seqno), 0);
    t := Poly1305.Authenticate(msg, polykey[..32]);
    TagIs(msg, polykey[..32], t);
  }

  /** ossh_encrypt. */
  method Encrypt(body: seq<u8>, key: seq<u8>, seqno: u32) returns (out: seq<u8>)
    requires |key| == 64 && |body| <= BUFFER
    ensures out == Wire(body, CoverOf(key, seqno))
  {
    var l := XorWith(Be32(|body|), key[32..], Nonce(seqno), 0);
    var e := XorWith(body, key[..32], Nonce(seqno), 1);
    var t := TagFor(l + e, key, seqno);
    out := l + e + t;
  }

  // ----- comparing tags -----

  lemma {:induction false} OrZero(x: nat, y: nat)
    ensures Or(x, y) == 0 <==> x == 0 && y == 0
  {
    if x != 0 && y != 0 { OrZero(x / 2, y / 2); }
  }

  lemma {:induction false} XorZero(x: nat, y: nat)
    ensures Xor(x, y) == 0 <==> x == y
  {
    if x != 0 && y != 0 { XorZero(x / 2, y / 2); }
  }

  /** The constant-time comparison: the differences of all sixteen bytes, or-ed together. */
  method SameTag(t: seq<u8>, u: seq<u8>) returns (same: bool)
    requires |t| == |u| == 16
    ensures same <==> t == u
  {
    var diff: u8 := 0;
    for i := 0 to 16
      invariant diff == 0 <==> t[..i] == u[..i]
    {
      OrBound(diff, XorByte(t[i], u[i]), 8);
      OrZero(diff, XorByte(t[i], u[i]));
      XorZero(t[i], u[i]);
      assert t[..i + 1] == t[..i] + [t[i]] && u[..i + 1] == u[..i] + [u[i]];
      diff := Or(diff, XorByte(t[i], u[i]));
    }
    assert t[..16] == t && u[..16] == u;
    same := diff == 0;
  }

  /** ossh_decrypt on a body and the tag after it. */
  method Decrypt(lenbuf: seq<u8>, body: seq<u8>, tag: seq<u8>, key: seq<u8>, seqno: u32) returns (r: Option<seq<u8>>)
    requires |key| == 64 && |tag| == 16
    ensures r == Judged(lenbuf, body, tag, CoverOf(key, seqno))
  {
    var t := TagFor(lenbuf + body, key, seqno);
    var same := SameTag(t, tag);
    if !same { return None; }
    var plain := XorWith(body, key[..32], Nonce(seqno), 1);
    return Some(plain);
  }

  // ----- a connection -----

  class Session {
    var encrypted: bool
    var seqIn: u32
    var seqOut: u32
    var keyIn: seq<u8>
    var keyOut: seq<u8>

    ghost predicate Valid()
      reads this
    {
      |keyIn| == 64 && |keyOut| == 64
    }

    ghost function CoverIn(): (c: Cover)
      requires Valid()
      reads this
      ensures Sound(c) && c.Under? == encrypted
    {
      if encrypted then CoverOf(keyIn, seqIn) else Clear
    }

    ghost function CoverOut(): (c: Cover)
      requires Valid()
      reads this
      ensures Sound(c) && c.Under? == encrypted
    {
      if encrypted then CoverOf(keyOut, seqOut) else Clear
    }

    constructor (keyIn: seq<u8>, keyOut: seq<u8>)
      requires |keyIn| == 64 && |keyOut| == 64
      ensures Valid() && !encrypted && seqIn == 0 && seqOut == 0
      ensures this.keyIn == keyIn && this.keyOut == keyOut
    {
      encrypted, seqIn, seqOut := false, 0, 0;
      this.keyIn, this.keyOut := keyIn, keyOut;
    }

    /** ssh_send; rnd is what the random source fills its buffer with, and the socket may
        fail, which leaves the sequence number alone. */
    method Send(payload: seq<u8>, rnd: seq<u8>) returns (ok: bool, out: seq<u8>, ghost m: Message, ghost c: Cover)
      requires Valid() && |rnd| == 256 && 1 + |payload| + PadLen(|payload|, encrypted) <= BUFFER
      modifies this`seqOut
      ensures c == old(CoverOut()) && m == Message(payload, rnd[..PadLen(|payload|, encrypted)]) && Sendable(m, c)
      ensures out == Wire(Padded(m.payload, m.noise), c)
      ensures seqOut == if ok then Add32(old(seqOut), 1) else old(seqOut)
    {
      var pad := PadLen(|payload|, encrypted);
      m, c := Message(payload, rnd[..pad]), CoverOut();
      var body := Padded(payload, rnd[..pad]);
      if encrypted {
        out := Encrypt(body, keyOut, seqOut);
      } else {
        out := Be32(|body|) + body;
      }
      ok := *;
      if ok { seqOut := Add32(seqOut, 1); }
    }

    /** The packet length ssh_recv reads. */
    method PacketLength(wire: seq<u8>) returns (n: u32)
      requires Valid() && |wire| >= 4
      ensures n == LengthOf(wire, CoverIn())
    {
      var lenbuf := wire[..4];
      if encrypted { lenbuf := XorWith(lenbuf, keyIn[32..], Nonce(seqIn), 0); }
      n := FromBe(lenbuf);
    }

    /** The rest of a packet under encryption: n bytes and the tag. */
    method OpenSealed(wire: seq<u8>, n: u32) returns (p: Packet)
      requires Valid() && encrypted && |wire| >= 4
      ensures p == Contents(wire, CoverIn(), n)
    {
      if |wire| < 4 + n + 16 { return Bad; }
      var r := Decrypt(wire[..4], wire[4..4 + n], wire[4 + n..4 + n + 16], keyIn, seqIn);
      match r
      case None => p := Bad;
      case Some(plain) => p := Good(plain, wire[4 + n + 16..]);
    }

    /** The body ssh_recv reads: the bytes may run out, and the tag may be wrong. */
    method Open(wire: seq<u8>) returns (p: Packet)
      requires Valid()
      ensures p == Opened(wire, CoverIn())
    {
      if |wire| < 4 { return Bad; }
      var n := PacketLength(wire);
      if n < 5 || n > LONGEST { return Bad; }
      if encrypted {
        p := OpenSealed(wire, n);
      } else {
        if |wire| < 4 + n { return Bad; }
        p := Good(wire[4..4 + n], wire[4 + n..]);
      }
    }

    /** ssh_recv: the sequence number counts every packet that opened, whether or not its
        padding made sense. */
    method Recv(wire: seq<u8>) returns (r: Read, ghost c: Cover)
      requires Valid()
      modifies this`seqIn
      ensures c == old(CoverIn()) && r == Received(wire, c)
      ensures seqIn == if Opened(wire, c) == Bad then old(seqIn) else Add32(old(seqIn), 1)
    {
      c := CoverIn();
      var p := Open(wire);
      if p == Bad { return Stop, c; }
      seqIn := Add32(seqIn, 1);
      BodyLength(wire, c);
      var u := Unpadded(p.body);
      if u == None { return Stop, c; }
      return Take(u.value, p.rest), c;
    }
  }

  lemma BodyLength(wire: seq<u8>, c: Cover)
    requires Sound(c) && Opened(wire, c) != Bad
    ensures 5 <= |Opened(wire, c).body| <= LONGEST
  {
  }

  // ----- both ends of a connection -----

  /** The sequence number i packets on; it wraps. */
  function SeqAt(seqno: u32, i: nat): u32
  {
    if i == 0 then seqno else Add32(SeqAt(seqno, i - 1), 1)
  }

  /** The cover of packet i of a stream that starts at sequence number seqno, the first k packets in the clear. */
  ghost function CoverAt(key: seq<u8>, seqno: u32, k: nat, i: nat): (c: Cover)
    requires |key| == 64
    ensures Sound(c) && c.Under? == (i >= k)
  {
    if i < k then Clear else CoverOf(key, SeqAt(seqno, i))
  }

  ghost function Covers(key: seq<u8>, seqno: u32, k: nat, n: nat): (cs: seq<Cover>)
    requires |key| == 64
    ensures |cs| == n && forall i :: 0 <= i < n ==> Sound(cs[i]) && cs[i].Under? == (i >= k)
  {
    seq(n, i requires i >= 0 => CoverAt(key, seqno, k, i))
  }

  /** The switch to encryption after any number of packets, from any sequence number: the
      payloads come back in order exactly when none is over the limit of its packet. */
  lemma ConnectionRoundTrip(ms: seq<Message>, key: seq<u8>, seqno: u32, k: nat, rest: seq<u8>)
    requires |key| == 64
    requires forall i :: 0 <= i < |ms| ==>
              |ms[i].payload| < 0x8000_0000 && |ms[i].noise| == PadLen(|ms[i].payload|, i >= k)
    ensures AllSendable(ms, Covers(key, seqno, k, |ms|))
    ensures ReceivedAll(Sent(ms, Covers(key, seqno, k, |ms|)) + rest, Covers(key, seqno, k, |ms|))
         == if forall i :: 0 <= i < |ms| ==> Fits(|ms[i].payload|, i >= k) then Took(Payloads(ms), rest) else Failed
  {
    var cs := Covers(key, seqno, k, |ms|);
    StreamRoundTrip(ms, cs, rest);
    assert AllFit(ms, cs) <==> forall i :: 0 <= i < |ms| ==> Fits(|ms[i].payload|, i >= k);
  }

  // ----- two sessions -----

  lemma {:induction false} SentAppend(ms: seq<Message>, cs: seq<Cover>, m: Message, c: Cover)
    requires AllSendable(ms, cs) && Sound(c) && Sendable(m, c)
    ensures AllSendable(ms + [m], cs + [c])
    ensures Sent(ms + [m], cs + [c]) == Sent(ms, cs) + Wire(Padded(m.payload, m.noise), c)
  {
    if |ms| == 0 {
      assert ms + [m] == [m] && cs + [c] == [c] && [m][1..] == [] && [c][1..] == [];
    } else {
      assert (ms + [m])[1..] == ms[1..] + [m] && (cs + [c])[1..] == cs[1..] + [c];
      SentAppend(ms[1..], cs[1..], m, c);
      Assoc(Wire(Padded(ms[0].payload, ms[0].noise), cs[0]), Sent(ms[1..], cs[1..]),
          Wire(Padded(m.payload, m.noise), c));
    }
  }

  lemma Assoc(a: seq<u8>, b: seq<u8>, c: seq<u8>)
    ensures a + (b + c) == a + b + c
  {
  }

  lemma {:induction false} PayloadsAppend(ms: seq<Message>, m: Message)
    ensures Payloads(ms + [m]) == Payloads(ms) + [m.payload]
  {
    if |ms| == 0 {
      assert ms + [m] == [m] && [m][1..] == [];
    } else {
      assert (ms + [m])[1..] == ms[1..] + [m];
      PayloadsAppend(ms[1..], m);
    }
  }

  /** What a session has sent: the bytes of these messages under these covers. */
  ghost predicate Sending(ms: seq<Message>, cs: seq<Cover>, ps: seq<seq<u8>>, wire: seq<u8>)
  {
    AllSendable(ms, cs) && Payloads(ms) == ps && wire == Sent(ms, cs)
  }

  lemma SendingNext(ms: seq<Message>, cs: seq<Cover>, ps: seq<seq<u8>>, wire: seq<u8>, m: Message, c: Cover)
    requires Sending(ms, cs, ps, wire) && Sound(c) && Sendable(m, c)
    ensures Sending(ms + [m], cs + [c], ps + [m.payload], wire + Wire(Padded(m.payload, m.noise), c))
  {
    SentAppend(ms, cs, m, c);
    PayloadsAppend(ms, m);
  }

  lemma TakeNext<T>(s: seq<T>, i: nat)
    requires i < |s|
    ensures s[..i + 1] == s[..i] + [s[i]]
  {
  }

  // One message at the end of a stream; the session switches to encryption at packet k.
  method SendNext(s: Session, payload: seq<u8>, rnd: seq<u8>, ghost seqno: u32, k: nat, i: nat)
    returns (ok: bool, out: seq<u8>, ghost m: Message, ghost c: Cover)
    requires s.Valid() && s.encrypted == (i > k) && s.seqOut == SeqAt(seqno, i)
    requires |rnd| == 256 && 1 + |payload| + PadLen(|payload|, i >= k) <= BUFFER
    modifies s`encrypted, s`seqOut
    ensures s.encrypted == (i >= k) && c == CoverAt(s.keyOut, seqno, k, i) && m.payload == payload && Sendable(m, c)
    ensures out == Wire(Padded(m.payload, m.noise), c)
    ensures ok ==> s.seqOut == SeqAt(seqno, i + 1)
  {
    if i == k { s.encrypted := true; }
    ok, out, m, c := s.Send(payload, rnd);
  }

  /** A session sends some payloads, and switches to encryption before number k. */
  method SendAll(s: Session, ps: seq<seq<u8>>, rnds: seq<seq<u8>>, k: nat)
    returns (ok: bool, wire: seq<u8>, ghost ms: seq<Message>)
    requires s.Valid() && !s.encrypted && |rnds| == |ps|
    requires forall i :: 0 <= i < |ps| ==> |rnds[i]| == 256 && 1 + |ps[i]| + PadLen(|ps[i]|, i >= k) <= BUFFER
    modifies s`encrypted, s`seqOut
    ensures ok ==> Sending(ms, Covers(s.keyOut, old(s.seqOut), k, |ps|), ps, wire)
  {
    wire, ms := [], [];
    ghost var seqno := s.seqOut;
    ghost var cs := Covers(s.keyOut, seqno, k, |ps|);
    assert cs[..0] == [] && ps[..0] == [];
    for i := 0 to |ps|
      invariant s.Valid() && s.encrypted == (i > k) && s.seqOut == SeqAt(seqno, i) && s.keyOut == old(s.keyOut)
      invariant Sending(ms, cs[..i], ps[..i], wire)
    {
      var out;
      ghost var m, c;
      ok, out, m, c := SendNext(s, ps[i], rnds[i], seqno, k, i);
      if !ok { return; }
      SendingNext(ms, cs[..i], ps[..i], wire, m, c);
      TakeNext(cs, i);
      TakeNext(ps, i);
      wire, ms := wire + out, ms + [m];
    }
    assert cs[..|ps|] == cs && ps[..|ps|] == ps;
    ok := true;
  }

  /** The reads of a stream, with some payloads already taken. */
  ghost function After(got: seq<seq<u8>>, r: Reads): Reads
  {
    match r
    case Failed => Failed
    case Took(ps, rest) => Took(got + ps, rest)
  }

  lemma ReceiveNext(got: seq<seq<u8>>, wire: seq<u8>, cs: seq<Cover>, i: nat, c: Cover, r: Read)
    requires i < |cs| && (forall j :: 0 <= j < |cs| ==> Sound(cs[j])) && c == cs[i] && r == Received(wire, c)
    ensures After(got, ReceivedAll(wire, cs[i..])) ==
            match r
            case Stop => Failed
            case Take(p, rest) => After(got + [p], ReceivedAll(rest, cs[i + 1..]))
  {
    var tail := cs[i..];
    assert tail[0] == c && tail[1..] == cs[i + 1..];
    match r
    case Stop =>
    case Take(p, rest) =>
      match ReceivedAll(rest, cs[i + 1..])
      case Failed =>
      case Took(ps, _) => assert got + ([p] + ps) == got + [p] + ps;
  }

  // One packet of a stream; the session switches to encryption at packet k.
  method RecvNext(s: Session, wire: seq<u8>, ghost seqno: u32, k: nat, i: nat) returns (r: Read, ghost c: Cover)
    requires s.Valid() && s.encrypted == (i > k) && s.seqIn == SeqAt(seqno, i)
    modifies s`encrypted, s`seqIn
    ensures s.encrypted == (i >= k) && c == CoverAt(s.keyIn, seqno, k, i) && r == Received(wire, c)
    ensures r.Take? ==> s.seqIn == SeqAt(seqno, i + 1)
  {
    if i == k { s.encrypted := true; }
    r, c := s.Recv(wire);
  }

  /** A session reads n packets, and switches to encryption before number k. */
  method RecvAll(s: Session, wire: seq<u8>, n: nat, k: nat) returns (ok: bool, got: seq<seq<u8>>, rest: seq<u8>)
    requires s.Valid() && !s.encrypted
    modifies s`encrypted, s`seqIn
    ensures ReceivedAll(wire, Covers(s.keyIn, old(s.seqIn), k, n)) == if ok then Took(got, rest) else Failed
  {
    got, rest := [], wire;
    ghost var seqno := s.seqIn;
    ghost var cs := Covers(s.keyIn, seqno, k, n);
    ghost var want := ReceivedAll(wire, cs);
    assert cs[0..] == cs && want == After([], want);
    for i := 0 to n
      invariant s.Valid() && s.encrypted == (i > k) && s.seqIn == SeqAt(seqno, i) && s.keyIn == old(s.keyIn)
      invariant want == After(got, ReceivedAll(rest, cs[i..]))
    {
      var r;
      ghost var c;
      r, c := RecvNext(s, rest, seqno, k, i);
      ReceiveNext(got, rest, cs, i, c, r);
      match r
      case Stop => return false, got, rest;
      case Take(p, more) => got, rest := got + [p], more;
    }
    ok := true;
  }

  /** A connection: what one session sends, the other, with the same key and sequence number, reads in order,
      exactly if no payload is over the limit of its packet. */
  method Deliver(a: Session, b: Session, ps: seq<seq<u8>>, rnds: seq<seq<u8>>, k: nat)
    returns (sent: bool, ok: bool, got: seq<seq<u8>>)
    requires a != b && a.Valid() && b.Valid() && !a.encrypted && !b.encrypted && a.keyOut == b.keyIn
    requires a.seqOut == b.seqIn
    requires |rnds| == |ps| && forall i :: 0 <= i < |ps| ==>
              |rnds[i]| == 256 && 1 + |ps[i]| + PadLen(|ps[i]|, i >= k) <= BUFFER
    modifies a`encrypted, a`seqOut, b`encrypted, b`seqIn
    ensures sent ==> (ok <==> forall i :: 0 <= i < |ps| ==> Fits(|ps[i]|, i >= k)) && (ok ==> got == ps)
  {
    var wire, rest;
    ghost var ms;
    ghost var key, seqno := a.keyOut, a.seqOut;
    sent, wire, ms := SendAll(a, ps, rnds, k);
    ok, got := false, [];
    if !sent { return; }
    ok, got, rest := RecvAll(b, wire, |ps|, k);
    Delivered(ms, ps, Covers(key, seqno, k, |ps|), k);
    assert wire + [] == wire;
  }

  lemma {:induction false} PayloadAt(ms: seq<Message>, i: nat)
    requires i < |ms|
    ensures |Payloads(ms)| == |ms| && Payloads(ms)[i] == ms[i].payload
  {
    if |ms| > 1 { PayloadAt(ms[1..], if i > 0 then i - 1 else 0); }
  }

  lemma Delivered(ms: seq<Message>, ps: seq<seq<u8>>, cs: seq<Cover>, k: nat)
    requires AllSendable(ms, cs) && Payloads(ms) == ps && |cs| == |ps| && forall i :: 0 <= i < |cs| ==>
              cs[i].Under? == (i >= k)
    ensures ReceivedAll(Sent(ms, cs) + [], cs)
         == if forall i :: 0 <= i < |ps| ==> Fits(|ps[i]|, i >= k) then Took(ps, []) else Failed
  {
    StreamRoundTrip(ms, cs, []);
    forall i | 0 <= i < |ms|
      ensures ps[i] == ms[i].payload
    {
      PayloadAt(ms, i);
    }
    assert AllFit(ms, cs) <==> forall i :: 0 <= i < |ps| ==> Fits(|ps[i]|, i >= k);
  }

  /** Section 6 of RFC 4253: four bytes of padding at least, and a multiple of eight in all,
      not counting the length field or the tag of an encrypted packet. */
  lemma PacketShape(m: Message, c: Cover)
    requires Sound(c) && Sendable(m, c)
    ensures |m.noise| >= 4
    ensures var w := |Wire(Padded(m.payload, m.noise), c)|;
            if c.Under? then (w - 20) % 8 == 0 else w % 8 == 0
  {
  }
}
