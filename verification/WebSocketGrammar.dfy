/** The frame parser against the wire format of section 5.2 of RFC 6455, in both directions: masked or not,
    final or not, with the length in any of its three spellings, shortest or longer than needed. */
module WebSocketGrammar {
  import opened Text
  import opened WebSocketFrames

  // ---- the format, with its numbers written out

  /** Seven bits, or an escape code and two or eight bytes. */
  datatype Spelling = Short | Medium | Long

  predicate Fits(sp: Spelling, n: nat) {
    match sp
    case Short => n <= 125
    case Medium => n <= 65535
    case Long => n < 0x8000_0000_0000_0000
  }

  /** Payloads of at most 16 MiB; control frames final and of at most 125 bytes; four key bytes. */
  predicate Legal(f: Frame) {
    && |f.payload| <= 16777216
    && (f.opcode == Close || f.opcode == Ping || f.opcode == Pong ==> f.fin && |f.payload| <= 125)
    && (f.maskKey.Some? ==> |f.maskKey.value| == 4)
  }

  /** Section 5.2: FIN, three reserved bits that are clear, and the opcode. */
  predicate IsFirstByte(b: byte, f: Frame) {
    b == (if f.fin then 0x80 else 0) +
         match f.opcode
         case Continuation => 0x0
         case TextFrame => 0x1
         case Binary => 0x2
         case Close => 0x8
         case Ping => 0x9
         case Pong => 0xA
  }

  function At(bs: seq<byte>, i: nat): int
    requires i < |bs|
  {
    bs[i]
  }

  /** Section 5.2: the mask bit and the payload length, in network byte order. */
  predicate IsLengthField(bs: seq<byte>, sp: Spelling, n: nat, masked: bool) {
    var bit := if masked then 0x80 else 0;
    match sp
    case Short => |bs| == 1 && bs[0] == bit + n
    case Medium => |bs| == 3 && bs[0] == bit + 126 && n == At(bs, 1) * 256 + At(bs, 2)
    case Long =>
      && |bs| == 9 && bs[0] == bit + 127
      && n == At(bs, 1) * 0x100_0000_0000_0000 + At(bs, 2) * 0x1_0000_0000_0000 + At(bs, 3) * 0x100_0000_0000
            + At(bs, 4) * 0x1_0000_0000 + At(bs, 5) * 0x100_0000 + At(bs, 6) * 0x1_0000 + At(bs, 7) * 0x100 + At(bs, 8)
  }

  /** Bit `i` of a number, counted from the lowest. */
  function Bit(n: nat, i: nat): nat { if i == 0 then n % 2 else Bit(n / 2, i - 1) }

  /** Section 5.3: a bit on the wire differs from the payload's exactly if the key's bit is set. */
  predicate IsMasked(wire: seq<byte>, payload: seq<byte>, key: seq<byte>)
    requires |key| == 4
  {
    |wire| == |payload|
    && forall j :: 0 <= j < |payload| ==> BitsDiffer(wire[j], payload[j], key[j % 4])
  }

  predicate BitsDiffer(w: byte, p: byte, k: byte) {
    forall i :: 0 <= i < 8 ==> (Bit(w, i) != Bit(p, i) <==> Bit(k, i) == 1)
  }

  /** The mask key, if any, and the payload as it travels. */
  predicate IsCarried(bs: seq<byte>, f: Frame) {
    match f.maskKey
    case None => bs == f.payload
    case Some(key) => |key| == 4 && |bs| >= 4 && bs[..4] == key && IsMasked(bs[4..], f.payload, key)
  }

  function Start(sp: Spelling): nat { match sp case Short => 2 case Medium => 4 case Long => 10 }

  /** `bs` are the bytes of frame `f`, its length spelled this way. */
  predicate Encodes(bs: seq<byte>, f: Frame, sp: Spelling) {
    && Start(sp) <= |bs| && Fits(sp, |f.payload|) && IsFirstByte(bs[0], f)
    && IsLengthField(bs[1..Start(sp)], sp, |f.payload|, f.maskKey.Some?) && IsCarried(bs[Start(sp)..], f)
  }

  // ---- exclusive or, bit by bit

  lemma {:induction false} XorBitsAre(a: nat, b: nat, n: nat, i: nat)
    requires i < n
    ensures Bit(XorBits(a, b, n), i) == (Bit(a, i) + Bit(b, i)) % 2
  {
    var rest := XorBits(a / 2, b / 2, n - 1);
    if i == 0 {
      SumOfBits(a, b, rest);
    } else {
      XorBitsAre(a / 2, b / 2, n - 1, i - 1);
      assert ((a + b) % 2 + 2 * rest) / 2 == rest;
    }
  }

  lemma SumOfBits(a: nat, b: nat, rest: nat)
    ensures ((a + b) % 2 + 2 * rest) % 2 == (a % 2 + b % 2) % 2
  {}

  lemma {:induction false} BitIsBit(n: nat, i: nat)
    ensures Bit(n, i) < 2
  {
    if i > 0 { BitIsBit(n / 2, i - 1); }
  }

  /** Masking a byte flips exactly the bits that are set in the key. */
  lemma XorFlipsBits(a: byte, b: byte)
    ensures BitsDiffer(Xor(a, b), a, b)
  {
    forall i | 0 <= i < 8 ensures Bit(Xor(a, b), i) != Bit(a, i) <==> Bit(b, i) == 1 {
      XorBitsAre(a, b, 8, i);
      BitIsBit(a, i);
      BitIsBit(b, i);
    }
  }

  lemma {:induction false} BitsDetermine(a: nat, b: nat, n: nat)
    requires a < Pow(2, n) && b < Pow(2, n) && forall i :: 0 <= i < n ==> Bit(a, i) == Bit(b, i)
    ensures a == b
  {
    if n > 0 {
      forall i | 0 <= i < n - 1 ensures Bit(a / 2, i) == Bit(b / 2, i) {
        assert Bit(a, i + 1) == Bit(b, i + 1);
      }
      BitsDetermine(a / 2, b / 2, n - 1);
      assert Bit(a, 0) == Bit(b, 0);
    }
  }

  lemma OneByteFits(w: byte, v: byte, p: byte, k: byte)
    requires BitsDiffer(w, p, k) && BitsDiffer(v, p, k)
    ensures w == v
  {
    forall i | 0 <= i < 8 ensures Bit(w, i) == Bit(v, i) {
      BitIsBit(w, i);
      BitIsBit(v, i);
      BitIsBit(p, i);
    }
    assert Pow(2, 8) == 2 * (2 * (2 * (2 * Pow(2, 4))));
    BitsDetermine(w, v, 8);
  }

  /** The masking loops do what section 5.3 says, and nothing else does. */
  lemma MaskedIsMasked(wire: seq<byte>, payload: seq<byte>, key: seq<byte>)
    requires |key| == 4
    ensures IsMasked(wire, payload, key) <==> wire == Masked(payload, key)
  {
    hide BitsDiffer, Xor;
    forall j | 0 <= j < |payload| ensures BitsDiffer(Masked(payload, key)[j], payload[j], key[j % 4]) {
      XorFlipsBits(payload[j], key[j % 4]);
    }
    if IsMasked(wire, payload, key) {
      forall j | 0 <= j < |wire| ensures wire[j] == Masked(payload, key)[j] {
        OneByteFits(wire[j], Masked(payload, key)[j], payload[j], key[j % 4]);
      }
    }
  }

  // ---- the encoding as a function

  function LengthField(sp: Spelling, n: nat, masked: bool): (r: seq<byte>)
    requires Fits(sp, n)
    ensures |r| == if sp == Short then 1 else if sp == Medium then 3 else 9
  {
    var bit := if masked then 128 else 0;
    match sp
    case Short => [bit + n]
    case Medium => [bit + 126] + BigEndian(n, 2)
    case Long => [bit + 127] + BigEndian(n, 8)
  }

  function FirstByte(f: Frame): byte { (if f.fin then 128 else 0) + Code(f.opcode) }

  function Carried(f: Frame): seq<byte>
    requires f.maskKey.Some? ==> |f.maskKey.value| == 4
  {
    match f.maskKey
    case None => f.payload
    case Some(key) => key + Masked(f.payload, key)
  }

  function Encoding(f: Frame, sp: Spelling): seq<byte>
    requires Fits(sp, |f.payload|) && (f.maskKey.Some? ==> |f.maskKey.value| == 4)
  {
    [FirstByte(f)] + LengthField(sp, |f.payload|, f.maskKey.Some?) + Carried(f)
  }

  /** Two bytes and eight bytes in network byte order. */
  lemma NetworkOrder(bs: seq<byte>)
    ensures |bs| == 2 ==> FromBigEndian(bs) == At(bs, 0) * 256 + At(bs, 1)
    ensures |bs| == 8 ==> (
      FromBigEndian(bs)
      == At(bs, 0) * 0x100_0000_0000_0000 + At(bs, 1) * 0x1_0000_0000_0000 + At(bs, 2) * 0x100_0000_0000
         + At(bs, 3) * 0x1_0000_0000 + At(bs, 4) * 0x100_0000 + At(bs, 5) * 0x1_0000 + At(bs, 6) * 0x100 + At(bs, 7))
  {
    if bs != [] {
      LastOf(bs);
      if |bs| > 1 {
        var n := |bs|;
        forall k | 0 < k < n ensures FromBigEndian(bs[..k + 1]) == FromBigEndian(bs[..k]) * 256 + At(bs, k) {
          LastOf(bs[..k + 1]);
          assert bs[..k + 1][..k] == bs[..k];
        }
        assert bs[..n] == bs && bs[..1] == [bs[0]];
        LastOf(bs[..1]);
        assert bs[..1][..0] == [];
        hide FromBigEndian;
      }
    }
  }

  lemma LastOf(bs: seq<byte>)
    requires bs != []
    ensures FromBigEndian(bs) == FromBigEndian(bs[..|bs| - 1]) * 256 + At(bs, |bs| - 1)
    ensures FromBigEndian([]) == 0
  {}

  // ---- lengths

  lemma {:induction false} BytesAreBounded(bs: seq<byte>)
    ensures FromBigEndian(bs) < Pow(256, |bs|)
  {
    if bs != [] { BytesAreBounded(bs[..|bs| - 1]); }
  }

  lemma {:induction false} BytesAreRewritten(bs: seq<byte>)
    ensures BigEndian(FromBigEndian(bs), |bs|) == bs
  {
    if bs != [] {
      BytesAreRewritten(bs[..|bs| - 1]);
      LastByte(FromBigEndian(bs[..|bs| - 1]), bs[|bs| - 1]);
    }
  }

  lemma LastByte(n: nat, last: byte)
    ensures (n * 256 + last) / 256 == n && (n * 256 + last) % 256 == last
  {}

  lemma PowersHere()
    ensures Pow(256, 2) == 65536 && 128 * Pow(256, 7) == 0x8000_0000_0000_0000 && Pow(256, 8) == 256 * Pow(256, 7)
  {
    PowersOf256();
    assert Pow(256, 2) == 256 * (256 * Pow(256, 0));
  }

  /** Eight bytes stand for less than 2^63 exactly if the first bit is clear. */
  lemma TopBit(bs: seq<byte>)
    requires |bs| == 8
    ensures bs[0] < 128 <==> FromBigEndian(bs) < 0x8000_0000_0000_0000
  {
    PowersHere();
    hide Pow, FromBigEndian;
    TopByte(bs);
    var top: int := bs[0];
    if top < 128 { MulOrder(top + 1, 128, Pow(256, 7)); } else { MulOrder(128, top, Pow(256, 7)); }
  }

  /** A length that was read is one of its spellings. */
  lemma LengthIsSpelled(bytes: seq<byte>) returns (sp: Spelling)
    requires |bytes| >= 2 && ParseLength(bytes).Length?
    ensures var r := ParseLength(bytes);
      Fits(sp, r.value) && bytes[1..r.end] == LengthField(sp, r.value, bytes[1] >= 128)
  {
    PowersHere();
    hide FromBigEndian, BigEndian, Pow;
    var code := bytes[1] % 128;
    if code == 126 {
      sp := Medium;
      BytesAreBounded(bytes[2..4]);
      BytesAreRewritten(bytes[2..4]);
      assert bytes[1..4] == [bytes[1]] + bytes[2..4];
    } else if code == 127 {
      sp := Long;
      TopBit(bytes[2..10]);
      BytesAreRewritten(bytes[2..10]);
      assert bytes[1..10] == [bytes[1]] + bytes[2..10];
    } else {
      sp := Short;
    }
  }

  /** Every spelling of a length is read. */
  lemma SpelledLengthReads(bytes: seq<byte>, sp: Spelling, n: nat, masked: bool)
    requires Fits(sp, n) && 1 + |LengthField(sp, n, masked)| <= |bytes|
    requires bytes[1..1 + |LengthField(sp, n, masked)|] == LengthField(sp, n, masked)
    ensures ParseLength(bytes) == Length(n, 1 + |LengthField(sp, n, masked)|) && masked == (bytes[1] >= 128)
  {
    PowersHere();
    hide FromBigEndian, BigEndian, Pow;
    var field := LengthField(sp, n, masked);
    assert bytes[1] == field[0];
    if sp == Medium {
      assert bytes[2..4] == field[1..] == BigEndian(n, 2);
      BigEndianReadsBack(n, 2);
    } else if sp == Long {
      assert bytes[2..10] == field[1..] == BigEndian(n, 8);
      BigEndianReadsBack(n, 8);
      TopBit(bytes[2..10]);
    }
  }

  lemma LengthFieldIs(bs: seq<byte>, sp: Spelling, n: nat, masked: bool)
    requires Fits(sp, n)
    ensures IsLengthField(bs, sp, n, masked) <==> bs == LengthField(sp, n, masked)
  {
    hide FromBigEndian, BigEndian;
    match sp
    case Short =>
    case Medium =>
      PowersHere();
      BigEndianReadsBack(n, 2);
      NetworkOrder(BigEndian(n, 2));
      if |bs| == 3 {
        assert bs == [bs[0]] + bs[1..];
        NetworkOrder(bs[1..]);
        BytesAreRewritten(bs[1..]);
      }
    case Long =>
      PowersHere();
      BigEndianReadsBack(n, 8);
      NetworkOrder(BigEndian(n, 8));
      if |bs| == 9 {
        assert bs == [bs[0]] + bs[1..];
        NetworkOrder(bs[1..]);
        BytesAreRewritten(bs[1..]);
      }
  }

  lemma CarriedIs(bs: seq<byte>, f: Frame)
    requires f.maskKey.Some? ==> |f.maskKey.value| == 4
    ensures IsCarried(bs, f) <==> bs == Carried(f)
  {
    hide IsMasked, Masked;
    if f.maskKey.Some? {
      var key := f.maskKey.value;
      MaskedIsMasked(Masked(f.payload, key), f.payload, key);
      if |bs| >= 4 {
        MaskedIsMasked(bs[4..], f.payload, key);
        assert bs == bs[..4] + bs[4..];
      }
      if bs == Carried(f) { assert bs[..4] == key && bs[4..] == Masked(f.payload, key); }
    }
  }

  lemma FirstByteIs(b: byte, f: Frame)
    ensures IsFirstByte(b, f) <==> b == FirstByte(f)
  {}

  /** The format and the function describe the same bytes. */
  lemma EncodesIs(bs: seq<byte>, f: Frame, sp: Spelling)
    requires Fits(sp, |f.payload|) && (f.maskKey.Some? ==> |f.maskKey.value| == 4)
    ensures Encodes(bs, f, sp) <==> bs == Encoding(f, sp)
  {
    hide IsFirstByte, FirstByte, IsLengthField, LengthField, IsCarried, Carried, Fits;
    var k := Start(sp);
    var e := Encoding(f, sp);
    assert e[0] == FirstByte(f) && e[1..k] == LengthField(sp, |f.payload|, f.maskKey.Some?) && e[k..] == Carried(f);
    FirstByteIs(e[0], f);
    LengthFieldIs(e[1..k], sp, |f.payload|, f.maskKey.Some?);
    CarriedIs(e[k..], f);
    if k <= |bs| {
      FirstByteIs(bs[0], f);
      LengthFieldIs(bs[1..k], sp, |f.payload|, f.maskKey.Some?);
      CarriedIs(bs[k..], f);
      assert bs == [bs[0]] + bs[1..k] + bs[k..];
    }
  }

  // ---- frames

  lemma FirstByteReads(f: Frame)
    ensures OpcodeOf(FirstByte(f) % 16) == Some(f.opcode) && FirstByte(f) / 16 % 8 == 0 && (FirstByte(f) >= 128) == f.fin
  {}

  lemma FirstByteIsWritten(b: byte, op: Opcode)
    requires OpcodeOf(b % 16) == Some(op) && b / 16 % 8 == 0
    ensures b == (if b >= 128 then 128 else 0) + Code(op)
  {}

  /** What the parser accepts is a legal frame in one of its encodings. */
  lemma ParsedIsEncoded(bytes: seq<byte>) returns (sp: Spelling)
    requires ParseFrame(bytes).Parsed?
    ensures var r := ParseFrame(bytes);
      Legal(r.frame) && Fits(sp, |r.frame.payload|) && bytes[..r.consumed] == Encoding(r.frame, sp)
  {
    var h, r := ParseHeader(bytes), ParseFrame(bytes);
    FirstByteIsWritten(bytes[0], h.opcode);
    sp := LengthIsSpelled(bytes);
    hide OpcodeOf, LengthField, ParseLength, Masked, Fits;
    CarriedStands(bytes);
    hide Carried, ParseHeader, ParseFrame, Legal, FirstByte;
    ThreeParts(bytes, h.end, r.consumed);
  }

  lemma ThreeParts(bytes: seq<byte>, end: nat, n: nat)
    requires 1 <= end <= n <= |bytes|
    ensures bytes[..n] == [bytes[0]] + bytes[1..end] + bytes[end..n]
  {}

  /** The bytes after the header are the key and the masked payload. */
  lemma CarriedStands(bytes: seq<byte>)
    requires ParseFrame(bytes).Parsed?
    ensures var h, r := ParseHeader(bytes), ParseFrame(bytes);
      Legal(r.frame) && h.end <= r.consumed && bytes[h.end..r.consumed] == Carried(r.frame)
  {
    var h, r := ParseHeader(bytes), ParseFrame(bytes);
    hide OpcodeOf, ParseLength, Masked;
    if h.masked {
      var start := h.end + 4;
      MaskedTwice(bytes[start..r.consumed], bytes[h.end..start]);
      assert bytes[h.end..r.consumed] == bytes[h.end..start] + bytes[start..r.consumed];
    }
  }

  lemma EncodingParts(f: Frame, sp: Spelling)
    requires Legal(f) && Fits(sp, |f.payload|)
    ensures var b := Encoding(f, sp);
      var end := 1 + |LengthField(sp, |f.payload|, f.maskKey.Some?)|;
      && end <= |b| && b[0] == FirstByte(f)
      && b[1..end] == LengthField(sp, |f.payload|, f.maskKey.Some?)
      && b[end..] == Carried(f)
  {
    hide LengthField, Carried, FirstByte;
  }

  lemma EncodedHeaderReads(f: Frame, sp: Spelling)
    requires Legal(f) && Fits(sp, |f.payload|)
    ensures ParseHeader(Encoding(f, sp))
         == Header(f.fin, f.opcode, f.maskKey.Some?, |f.payload|, 1 + |LengthField(sp, |f.payload|, f.maskKey.Some?)|)
  {
    EncodingParts(f, sp);
    FirstByteReads(f);
    SpelledLengthReads(Encoding(f, sp), sp, |f.payload|, f.maskKey.Some?);
    hide OpcodeOf, LengthField, ParseLength, Encoding, FirstByte, Carried, Fits;
  }

  /** Every encoding of a legal frame is parsed, and all of it is consumed. */
  lemma EncodingParses(f: Frame, sp: Spelling)
    requires Legal(f) && Fits(sp, |f.payload|)
    ensures ParseFrame(Encoding(f, sp)) == Parsed(f, |Encoding(f, sp)|)
  {
    hide ParseHeader, LengthField, Masked, Encoding, Carried, Fits;
    var b := Encoding(f, sp);
    var end := 1 + |LengthField(sp, |f.payload|, f.maskKey.Some?)|;
    EncodingParts(f, sp);
    EncodedHeaderReads(f, sp);
    CarriedParts(f, b, end);
    if f.maskKey.Some? { MaskedTwice(f.payload, f.maskKey.value); }
  }

  /** The key and the payload where the header says they are. */
  lemma CarriedParts(f: Frame, b: seq<byte>, end: nat)
    requires Legal(f) && end <= |b| && b[end..] == Carried(f)
    ensures match f.maskKey
            case None => |b| == end + |f.payload| && b[end..|b|] == f.payload
            case Some(key) =>
              && |b| == end + 4 + |f.payload|
              && b[end..end + 4] == key && b[end + 4..|b|] == Masked(f.payload, key)
  {
    hide Masked;
    var carried := b[end..|b|];
    assert carried == Carried(f);
    if f.maskKey.Some? {
      var key := f.maskKey.value;
      SliceOfSlice(b, end, |b|, 0, 4);
      SliceOfSlice(b, end, |b|, 4, |carried|);
      assert carried[0..4] == key && carried[4..|carried|] == Masked(f.payload, key);
    }
  }

  /** On any bytes, the parser returns a frame exactly if the bytes start with an encoding of it, legal by
      sections 5.2, 5.3 and 5.5 of RFC 6455. */
  lemma ParserMatchesGrammar(bytes: seq<byte>, f: Frame, n: nat)
    requires n <= |bytes|
    ensures ParseFrame(bytes) == Parsed(f, n) <==> Legal(f) && exists sp: Spelling :: Encodes(bytes[..n], f, sp)
  {
    hide ParseFrame, Encoding, Encodes, Fits;
    if ParseFrame(bytes) == Parsed(f, n) {
      var sp := ParsedIsEncoded(bytes);
      EncodesIs(bytes[..n], f, sp);
    }
    if Legal(f) && exists sp: Spelling :: Encodes(bytes[..n], f, sp) {
      var sp: Spelling :| Encodes(bytes[..n], f, sp);
      EncodesFits(bytes[..n], f, sp);
      EncodesIs(bytes[..n], f, sp);
      EncodingParses(f, sp);
      ResultIsStable(bytes[..n], bytes[n..]);
      assert bytes == bytes[..n] + bytes[n..];
    }
  }

  lemma EncodesFits(bs: seq<byte>, f: Frame, sp: Spelling)
    requires Encodes(bs, f, sp)
    ensures Fits(sp, |f.payload|) && (f.maskKey.Some? ==> |f.maskKey.value| == 4)
  {}

  /** The builder writes a final, masked frame, with the length in its shortest spelling. */
  lemma BuiltIsShortest(op: Opcode, payload: seq<byte>, key: seq<byte>, sp: Spelling)
    requires |key| == 4 && Fits(sp, |payload|)
    ensures var f := Frame(true, op, Some(key), payload);
      && (exists best: Spelling :: Encodes(Built(op, payload, key), f, best) && Start(best) <= Start(sp))
      && forall bs :: Encodes(bs, f, sp) ==> |Built(op, payload, key)| <= |bs|
  {
    var f := Frame(true, op, Some(key), payload);
    var best := if |payload| <= 125 then Short else if |payload| <= 65535 then Medium else Long;
    hide BigEndian, Masked, Code, Encodes;
    assert LengthBytes(|payload|) == LengthField(best, |payload|, true);
    hide LengthBytes;
    assert Built(op, payload, key) == Encoding(f, best);
    EncodesIs(Built(op, payload, key), f, best);
    forall bs | Encodes(bs, f, sp) ensures |Built(op, payload, key)| <= |bs| { EncodesIs(bs, f, sp); }
  }
}
