/** WebSocket framing of section 5.2 of RFC 6455: the incremental parser, the builder and what ties them
    together. Bytes are integers below 256, so the source's single-bit masks read as comparisons and
    remainders; only the masking key needs a true bitwise operation. */
module WebSocketFrames {
  import opened Text

  type byte = x: int | 0 <= x < 256

  const MAX_PAYLOAD := 16 * 1024 * 1024

  datatype Opcode = Continuation | TextFrame | Binary | Close | Ping | Pong

  function Code(op: Opcode): byte {
    match op
    case Continuation => 0
    case TextFrame => 1
    case Binary => 2
    case Close => 8
    case Ping => 9
    case Pong => 10
  }

  function OpcodeOf(code: int): Option<Opcode> {
    match code
    case 0 => Some(Continuation)
    case 1 => Some(TextFrame)
    case 2 => Some(Binary)
    case 8 => Some(Close)
    case 9 => Some(Ping)
    case 10 => Some(Pong)
    case _ => None
  }

  datatype Frame = Frame(fin: bool, opcode: Opcode, maskKey: Option<seq<byte>>, payload: seq<byte>)

  /** More bytes could complete an incomplete frame; a malformed one never recovers. */
  datatype FrameResult = Parsed(frame: Frame, consumed: nat) | Incomplete | Malformed

  // ---- bytes

  function Xor(a: byte, b: byte): byte {
    assert Pow(2, 8) == 2 * (2 * (2 * (2 * Pow(2, 4))));
    XorBits(a, b, 8)
  }

  /** Exclusive or of the lowest `n` bits. */
  function XorBits(a: nat, b: nat, n: nat): (r: nat)
    ensures r < Pow(2, n)
  {
    if n == 0 then 0 else (a + b) % 2 + 2 * XorBits(a / 2, b / 2, n - 1)
  }

  lemma {:induction false} XorBitsTwice(a: nat, b: nat, n: nat)
    requires a < Pow(2, n)
    ensures XorBits(XorBits(a, b, n), b, n) == a
  {
    if n > 0 {
      XorBitsTwice(a / 2, b / 2, n - 1);
      XorTop(a, b, XorBits(a / 2, b / 2, n - 1));
    }
  }

  lemma XorTop(a: nat, b: nat, rest: nat)
    ensures var x := (a + b) % 2 + 2 * rest; x / 2 == rest && (x + b) % 2 == a % 2
  {}

  lemma XorTwice(a: byte, b: byte)
    ensures Xor(Xor(a, b), b) == a
  {
    assert Pow(2, 8) == 2 * (2 * (2 * (2 * Pow(2, 4))));
    XorBitsTwice(a, b, 8);
  }

  function Masked(payload: seq<byte>, key: seq<byte>): (r: seq<byte>)
    requires |key| == 4
    ensures |r| == |payload|
  {
    seq(|payload|, i requires 0 <= i < |payload| => Xor(payload[i], key[i % 4]))
  }

  lemma MaskedTwice(payload: seq<byte>, key: seq<byte>)
    requires |key| == 4
    ensures Masked(Masked(payload, key), key) == payload
  {
    forall i | 0 <= i < |payload| ensures Masked(Masked(payload, key), key)[i] == payload[i] {
      XorTwice(payload[i], key[i % 4]);
    }
  }

  /** Network byte order. */
  function BigEndian(n: nat, width: nat): (r: seq<byte>)
    ensures |r| == width
  {
    if width == 0 then [] else BigEndian(n / 256, width - 1) + [n % 256]
  }

  function FromBigEndian(bs: seq<byte>): nat {
    if bs == [] then 0 else FromBigEndian(bs[..|bs| - 1]) * 256 + bs[|bs| - 1]
  }

  lemma {:induction false} BigEndianReadsBack(n: nat, width: nat)
    requires n < Pow(256, width)
    ensures FromBigEndian(BigEndian(n, width)) == n
  {
    if width > 0 {
      assert n / 256 < Pow(256, width - 1);
      BigEndianReadsBack(n / 256, width - 1);
      assert BigEndian(n, width)[..width - 1] == BigEndian(n / 256, width - 1);
    }
  }

  // ---- the parser as a function

  datatype Header = Header(fin: bool, opcode: Opcode, masked: bool, length: nat, end: nat) | HeaderIncomplete | HeaderMalformed

  predicate IsControl(op: Opcode) { Code(op) >= 8 }

  /** The payload length and where it ends. */
  datatype Length = Length(value: nat, end: nat) | LengthIncomplete | LengthMalformed

  function ParseLength(bytes: seq<byte>): (r: Length)
    requires |bytes| >= 2
    ensures r.Length? ==> 2 <= r.end <= 10 && r.end <= |bytes|
  {
    var code := bytes[1] % 128;
    if code == 126 then
      if |bytes| < 4 then LengthIncomplete else Length(FromBigEndian(bytes[2..4]), 4)
    else if code == 127 then
      if |bytes| < 10 then LengthIncomplete
      else if bytes[2] >= 128 then LengthMalformed
      else Length(FromBigEndian(bytes[2..10]), 10)
    else Length(code, 2)
  }

  /** The first two bytes and the extended length, with every check that precedes the mask key. */
  function ParseHeader(bytes: seq<byte>): (r: Header)
    ensures r.Header? ==> 2 <= r.end <= 10 && r.end <= |bytes| && r.length <= MAX_PAYLOAD
  {
    if |bytes| < 2 then HeaderIncomplete
    else
      var opcode := OpcodeOf(bytes[0] % 16);
      if opcode.None? || bytes[0] / 16 % 8 != 0 then HeaderMalformed
      else
        match ParseLength(bytes)
        case LengthIncomplete => HeaderIncomplete
        case LengthMalformed => HeaderMalformed
        case Length(length, end) =>
          var fin := bytes[0] >= 128;
          if IsControl(opcode.value) && (!fin || length > 125) then HeaderMalformed
          else if length > MAX_PAYLOAD then HeaderMalformed
          else Header(fin, opcode.value, bytes[1] >= 128, length, end)
  }

  function ParseFrame(bytes: seq<byte>): (r: FrameResult)
    ensures r.Parsed? ==> 2 <= r.consumed <= |bytes| && |r.frame.payload| <= MAX_PAYLOAD
  {
    match ParseHeader(bytes)
    case HeaderIncomplete => Incomplete
    case HeaderMalformed => Malformed
    case Header(fin, opcode, masked, length, end) =>
      var start := if masked then end + 4 else end;
      if |bytes| < start + length then Incomplete
      else
        var raw := bytes[start..start + length];
        if masked then
          var key := bytes[end..start];
          Parsed(Frame(fin, opcode, Some(key), Masked(raw, key)), start + length)
        else Parsed(Frame(fin, opcode, None, raw), start + length)
  }

  // ---- the parser and the builder as the source runs them

  method FrameParser(bytes: seq<byte>) returns (r: FrameResult)
    ensures r == ParseFrame(bytes)
  {
    if |bytes| < 2 { return Incomplete; }
    var opcode := OpcodeOf(bytes[0] % 16);
    if opcode.None? { return Malformed; }
    if bytes[0] / 16 % 8 != 0 { return Malformed; }

    hide OpcodeOf, FromBigEndian, Masked;
    var lengthCode := bytes[1] % 128;
    var pos := 2;
    var length := lengthCode;
    if lengthCode == 126 {
      if pos + 2 > |bytes| { return Incomplete; }
      length := FromBigEndian(bytes[pos..pos + 2]);
      pos := pos + 2;
    } else if lengthCode == 127 {
      if pos + 8 > |bytes| { return Incomplete; }
      if bytes[pos] >= 128 { return Malformed; }
      length := FromBigEndian(bytes[pos..pos + 8]);
      pos := pos + 8;
    }
    var fin := bytes[0] >= 128;
    if IsControl(opcode.value) && (!fin || length > 125) { return Malformed; }
    if length > MAX_PAYLOAD { return Malformed; }
    assert ParseHeader(bytes) == Header(fin, opcode.value, bytes[1] >= 128, length, pos);

    var key := None;
    if bytes[1] >= 128 {
      if pos + 4 > |bytes| { return Incomplete; }
      key := Some(bytes[pos..pos + 4]);
      pos := pos + 4;
    }
    if length > |bytes| - pos { return Incomplete; }
    var payload := bytes[pos..pos + length];
    if key.Some? { payload := ApplyMask(payload, key.value); }
    return Parsed(Frame(fin, opcode.value, key, payload), pos + length);
  }

  method ApplyMask(payload: seq<byte>, key: seq<byte>) returns (out: seq<byte>)
    requires |key| == 4
    ensures out == Masked(payload, key)
  {
    out := payload;
    for i := 0 to |payload|
      invariant |out| == |payload|
      invariant forall k :: 0 <= k < |payload| ==> out[k] == if k < i then Masked(payload, key)[k] else payload[k]
    {
      out := out[i := Xor(out[i], key[i % 4])];
    }
  }

  function LengthBytes(n: nat): seq<byte>
    requires n <= U64_MAX
  {
    if n <= 125 then [128 + n]
    else if n <= 65535 then [128 + 126] + BigEndian(n, 2)
    else [128 + 127] + BigEndian(n, 8)
  }

  /** A client frame: FIN set, masked with `key`. */
  function Built(op: Opcode, payload: seq<byte>, key: seq<byte>): seq<byte>
    requires |payload| <= U64_MAX && |key| == 4
  {
    [128 + Code(op)] + LengthBytes(|payload|) + key + Masked(payload, key)
  }

  /** The mask key is random in the source and a parameter here; without one there is no frame. */
  method FrameBuilder(op: Opcode, payload: seq<byte>, random: Option<seq<byte>>) returns (r: Option<seq<byte>>)
    requires |payload| <= U64_MAX && (random.Some? ==> |random.value| == 4)
    ensures r == if random.Some? then Some(Built(op, payload, random.value)) else None
  {
    var out := [128 + Code(op)];
    if |payload| <= 125 {
      out := out + [128 + |payload|];
    } else if |payload| <= 65535 {
      out := out + [128 + 126];
      out := out + BigEndian(|payload|, 2);
    } else {
      out := out + [128 + 127];
      out := out + BigEndian(|payload|, 8);
    }
    if random.None? { return None; }
    var key := random.value;
    out := out + key;
    assert out == [128 + Code(op)] + LengthBytes(|payload|) + key;
    out := AppendMasked(out, payload, key);
    return Some(out);
  }

  method AppendMasked(head: seq<byte>, payload: seq<byte>, key: seq<byte>) returns (out: seq<byte>)
    requires |key| == 4
    ensures out == head + Masked(payload, key)
  {
    out := head;
    hide Xor;
    ghost var masked := Masked(payload, key);
    for i := 0 to |payload|
      invariant out == head + masked[..i]
    {
      assert masked[..i + 1] == masked[..i] + [masked[i]];
      out := out + [Xor(payload[i], key[i % 4])];
    }
    assert masked[..|payload|] == masked;
  }

  // ---- the parser on a growing buffer

  lemma LengthIsStable(bytes: seq<byte>, more: seq<byte>)
    requires |bytes| >= 2 && !ParseLength(bytes).LengthIncomplete?
    ensures ParseLength(bytes + more) == ParseLength(bytes)
  {
    var all := bytes + more;
    assert |bytes| >= 4 ==> all[2..4] == bytes[2..4];
    assert |bytes| >= 10 ==> all[2..10] == bytes[2..10];
  }

  lemma HeaderIsStable(bytes: seq<byte>, more: seq<byte>)
    requires !ParseHeader(bytes).HeaderIncomplete?
    ensures ParseHeader(bytes + more) == ParseHeader(bytes)
  {
    var all := bytes + more;
    assert all[0] == bytes[0] && all[1] == bytes[1];
    hide ParseLength, OpcodeOf;
    if !ParseLength(bytes).LengthIncomplete? { LengthIsStable(bytes, more); }
  }

  /** A frame or a malformed verdict does not change when more bytes arrive. */
  lemma ResultIsStable(bytes: seq<byte>, more: seq<byte>)
    requires !ParseFrame(bytes).Incomplete?
    ensures ParseFrame(bytes + more) == ParseFrame(bytes)
  {
    HeaderIsStable(bytes, more);
    var h := ParseHeader(bytes);
    if h.Header? {
      var all := bytes + more;
      var start := if h.masked then h.end + 4 else h.end;
      assert all[start..start + h.length] == bytes[start..start + h.length];
      assert h.masked ==> all[h.end..start] == bytes[h.end..start];
    }
  }

  /** Every strict prefix of a frame asks for more. */
  lemma PrefixIsIncomplete(bytes: seq<byte>, k: nat)
    requires ParseFrame(bytes).Parsed? && k < ParseFrame(bytes).consumed
    ensures ParseFrame(bytes[..k]).Incomplete?
  {
    assert bytes == bytes[..k] + bytes[k..];
    if !ParseFrame(bytes[..k]).Incomplete? { ResultIsStable(bytes[..k], bytes[k..]); }
  }

  /** Waiting never needs more than one byte short of the largest frame. */
  lemma IncompleteIsShort(bytes: seq<byte>)
    requires ParseFrame(bytes).Incomplete?
    ensures |bytes| <= 16777216 + 13
  {}

  // ---- the round trip

  lemma BuiltLength(op: Opcode, payload: seq<byte>, key: seq<byte>)
    requires |payload| <= U64_MAX && |key| == 4
    ensures var b := Built(op, payload, key);
      var end := 1 + |LengthBytes(|payload|)|;
      && b[0] == 128 + Code(op) && b[1] >= 128
      && |b| == end + 4 + |payload|
      && b[end..end + 4] == key && b[end + 4..] == Masked(payload, key)
      && (|payload| < 0x8000_0000_0000_0000 ==> ParseLength(b) == Length(|payload|, end))
      && (|payload| >= 0x8000_0000_0000_0000 ==> ParseLength(b) == LengthMalformed)
  {
    var n := |payload|;
    var b, l := Built(op, payload, key), LengthBytes(n);
    assert b == [128 + Code(op)] + l + key + Masked(payload, key);
    assert b[1..1 + |l|] == l;
    if 125 < n <= 65535 {
      assert b[2..4] == l[1..] == BigEndian(n, 2);
      assert Pow(256, 2) == 65536;
      BigEndianReadsBack(n, 2);
    } else if n > 65535 {
      assert b[2..10] == l[1..] == BigEndian(n, 8);
      PowersOf256();
      BigEndianReadsBack(n, 8);
      assert b[2] == BigEndian(n, 8)[0];
      TopByte(BigEndian(n, 8));
    }
  }

  lemma PowersOf256()
    ensures Pow(256, 8) == U64_MAX + 1 && Pow(256, 7) == 0x100_0000_0000_0000
  {
    assert Pow(256, 2) == 256 * (256 * Pow(256, 0));
    PowAdd(256, 2, 2);
    PowAdd(256, 4, 4);
    PowAdd(256, 4, 2);
    assert Pow(256, 7) == 256 * Pow(256, 6);
  }

  lemma TopByteStep(top: int, p: int, v: int, last: byte)
    requires top * p <= v < (top + 1) * p
    ensures top * (256 * p) <= v * 256 + last < (top + 1) * (256 * p)
  {
    assert top * (256 * p) == 256 * (top * p) && (top + 1) * (256 * p) == 256 * ((top + 1) * p);
  }

  /** The first byte counts the multiples of the highest power. */
  lemma {:induction false} TopByte(bs: seq<byte>)
    requires bs != []
    ensures var top: int := bs[0]; top * Pow(256, |bs| - 1) <= FromBigEndian(bs) < (top + 1) * Pow(256, |bs| - 1)
  {
    if |bs| > 1 {
      TopByte(bs[..|bs| - 1]);
      TopByteStep(bs[0], Pow(256, |bs| - 2), FromBigEndian(bs[..|bs| - 1]), bs[|bs| - 1]);
    } else {
      assert bs[..0] == [];
    }
  }

  /** Building and parsing returns the frame exactly when its payload is within the limits. */
  lemma FrameRoundTrip(op: Opcode, payload: seq<byte>, key: seq<byte>)
    requires |payload| <= U64_MAX && |key| == 4
    ensures var b := Built(op, payload, key);
      ParseFrame(b) == Parsed(Frame(true, op, Some(key), payload), |b|)
      <==> |payload| <= 16777216 && (op == Close || op == Ping || op == Pong ==> |payload| <= 125)
  {
    hide Built, LengthBytes, ParseLength, Masked;
    BuiltLength(op, payload, key);
    MaskedTwice(payload, key);
    assert OpcodeOf((128 + Code(op)) % 16) == Some(op);
    var b := Built(op, payload, key);
    var end := 1 + |LengthBytes(|payload|)|;
    assert b[end + 4..end + 4 + |payload|] == b[end + 4..];
  }
}
