/** The on-wire layout of a VTL frame and the VTL checksum
    (include/vtl.h, struct vtl_hdr_t and vtl_csum). */
module Wire {
  import opened Options

  type Bytes = seq<bv8>

  // 14 bytes of Ethernet, 20 of IPv4 and the 24-byte vtl_hdr_t; at most 1024 bytes of payload.
  const HDR_LEN: nat := 58
  const VTL_DATA_SIZE: nat := 0x400
  const ON_WIRE_SIZE: nat := 0x43A
  const IPPROTO_VTL: bv8 := 0xfd

  // Offsets of the fields the programs read or write.
  const PROTOCOL_AT: nat := 23
  const PKT_TYPE_AT: nat := 38
  const PAYLOAD_LEN_AT: nat := 42
  const CHECKSUM_AT: nat := 50
  const SEQ_NUM_AT: nat := 52
  const PADDING_AT: nat := 54

  /** The checksum loop starts one byte before the payload. */
  const COVERED_AT: nat := HDR_LEN - 1

  function LittleEndian(b: Bytes): nat {
    if b == [] then 0 else b[0] as nat + 256 * LittleEndian(b[1..])
  }

  function PayloadLen(b: Bytes): nat
    requires HDR_LEN <= |b|
  {
    LittleEndian(b[PAYLOAD_LEN_AT..CHECKSUM_AT])
  }

  /** The length is eight bytes from position 42 on, the low byte first. */
  lemma LengthField(b: Bytes)
    requires HDR_LEN <= |b|
    ensures PayloadLen(b) == b[42] as nat + 0x100 * (b[43] as nat) + 0x1_0000 * (b[44] as nat) + 0x100_0000 * (b[45] as nat)
                             + 0x1_0000_0000 * (b[46] as nat) + 0x100_0000_0000 * (b[47] as nat)
                             + 0x1_0000_0000_0000 * (b[48] as nat) + 0x100_0000_0000_0000 * (b[49] as nat)
  {
    hide LittleEndian;
    FourBytes(b, 42, 50);
    FourBytes(b, 46, 50);
    LittleEndianFrom(b, 49, 50);
  }

  lemma FourBytes(b: Bytes, i: nat, j: nat)
    requires i + 4 <= j <= |b|
    ensures LittleEndian(b[i..j]) == b[i] as nat + 0x100 * (b[i + 1] as nat) + 0x1_0000 * (b[i + 2] as nat) + 0x100_0000 * (b[i + 3] as nat)
                                     + 0x1_0000_0000 * LittleEndian(b[i + 4..j])
  {
    hide LittleEndian;
    LittleEndianFrom(b, i, j);
    LittleEndianFrom(b, i + 1, j);
    LittleEndianFrom(b, i + 2, j);
    LittleEndianFrom(b, i + 3, j);
  }

  lemma LittleEndianFrom(b: Bytes, i: nat, j: nat)
    requires i < j <= |b|
    ensures LittleEndian(b[i..j]) == b[i] as nat + 256 * LittleEndian(b[i + 1..j])
    ensures LittleEndian(b[j..j]) == 0
  {
    assert b[i..j][1..] == b[i + 1..j];
  }

  /** The length field of an ordinary frame: two bytes, and six of zero. */
  lemma ShortLength(b: Bytes, n: nat)
    requires HDR_LEN <= |b| && n < 0x1_0000
    requires b[42] as nat == n % 256 && b[43] as nat == n / 256 && b[44] == b[45] == b[46] == b[47] == b[48] == b[49] == 0
    ensures PayloadLen(b) == n
  {
    hide PayloadLen;
    LengthField(b);
  }

  function SeqNum(b: Bytes): nat
    requires HDR_LEN <= |b|
  {
    b[SEQ_NUM_AT] as nat + 256 * (b[SEQ_NUM_AT + 1] as nat)
  }

  function Payload(b: Bytes): Bytes
    requires HDR_LEN <= |b|
  {
    b[HDR_LEN..]
  }

  function XorAll(b: Bytes): bv8 {
    if b == [] then 0 else XorAll(b[..|b| - 1]) ^ b[|b| - 1]
  }

  lemma XorNone()
    ensures XorAll([]) == 0
  {
  }

  lemma XorNext(b: Bytes, x: bv8)
    ensures XorAll(b + [x]) == XorAll(b) ^ x
  {
    assert (b + [x])[..|b|] == b;
  }

  /** How many bytes the checksum loop folds: it leaves once y > VTL_DATA_SIZE. */
  function CoveredLen(b: Bytes): nat
    requires HDR_LEN <= |b|
  {
    if PayloadLen(b) <= VTL_DATA_SIZE then PayloadLen(b) else VTL_DATA_SIZE + 1
  }

  /** The checksum of a frame; None where vtl_csum returns -1. */
  function Checksum(b: Bytes): Option<bv8> {
    if |b| <= HDR_LEN || b[PROTOCOL_AT] != IPPROTO_VTL then None
    else if COVERED_AT + CoveredLen(b) > |b| then None
    else Some(XorAll(b[COVERED_AT..COVERED_AT + CoveredLen(b)]))
  }

  /** The checksum loop. It folds the bytes from position 57 on, as many as the length field says but at
      most 1025, and fails if there are not that many, or no VTL frame with a byte of payload at all. */
  method ComputeChecksum(b: Bytes) returns (r: Option<bv8>)
    ensures r == Checksum(b)
    ensures r.Some? <==> |b| >= 59 && b[23] == 253 && (|b| >= 57 + PayloadLen(b) || |b| >= 57 + 1025)
    ensures r.Some? ==> r.value == XorAll(b[57..if PayloadLen(b) <= 1025 then 57 + PayloadLen(b) else 57 + 1025])
  {
    hide XorAll, LittleEndian;
    if |b| <= HDR_LEN || b[PROTOCOL_AT] != IPPROTO_VTL {
      return None;
    }
    XorNone();
    assert b[COVERED_AT..COVERED_AT] == [];
    var sum: bv8 := 0;
    var y := 0;
    while y < PayloadLen(b)
      invariant y <= CoveredLen(b) && COVERED_AT + y <= |b|
      invariant sum == XorAll(b[COVERED_AT..COVERED_AT + y])
      decreases PayloadLen(b) - y
    {
      if y > VTL_DATA_SIZE {
        break;
      }
      if COVERED_AT + y + 1 > |b| {
        return None;
      }
      XorNext(b[COVERED_AT..COVERED_AT + y], b[COVERED_AT + y]);
      assert b[COVERED_AT..COVERED_AT + y + 1] == b[COVERED_AT..COVERED_AT + y] + [b[COVERED_AT + y]];
      sum := sum ^ b[COVERED_AT + y];
      y := y + 1;
    }
    return Some(sum);
  }

  /** The test of the receiving programs: the 16-bit field equals the 8-bit checksum widened. */
  predicate FieldHolds(b: Bytes, sum: bv8)
    requires HDR_LEN <= |b|
  {
    b[CHECKSUM_AT] == sum && b[CHECKSUM_AT + 1] == 0
  }

  predicate ChecksumMatches(b: Bytes) {
    Checksum(b).Some? && FieldHolds(b, Checksum(b).value)
  }

  /** What a receiving program learns from a frame: nothing when vtl_csum fails, otherwise
      whether the checksum agrees, the sequence number and the payload. */
  datatype View = Unreadable | View(good: bool, seqNum: nat, payload: Bytes)

  function Decode(b: Bytes): View {
    if Checksum(b).None? then Unreadable else View(ChecksumMatches(b), SeqNum(b), Payload(b))
  }

  /** Frame f carries application packet b under sequence number seqNum. */
  predicate Carries(f: Bytes, b: Bytes, seqNum: nat)
    requires HDR_LEN <= |b|
  {
    Decode(f) == View(true, seqNum, Payload(b)) && |f| == |b|
  }

  /** Frames as dbr_send builds them: a VTL frame whose header announces its 1 to 1024 payload bytes. */
  predicate WellFormed(b: Bytes) {
    HDR_LEN < |b| <= ON_WIRE_SIZE && b[PROTOCOL_AT] == IPPROTO_VTL && PayloadLen(b) == |b| - HDR_LEN
  }

  lemma WellFormedFacts(b: Bytes)
    requires WellFormed(b)
    ensures HDR_LEN < |b| <= ON_WIRE_SIZE && PayloadLen(b) == |b| - HDR_LEN && Checksum(b).Some?
  {
    hide LittleEndian, XorAll;
  }

  /** What a receiver finds, and where. */
  lemma DecodeBytes(b: Bytes)
    ensures match Checksum(b)
            case None => Decode(b) == Unreadable
            case Some(sum) => |b| >= 59 && Decode(b) == View(b[50] == sum && b[51] == 0, b[52] as nat + 256 * (b[53] as nat), b[58..])
  {
    hide LittleEndian, XorAll;
  }

  /** A frame with a 58-byte header that names protocol 253 and announces the n bytes that follow is well
      formed, for n from 1 to 1024. Its checksum is the fold of bytes 57 to 56 + n, and a receiver finds
      the checksum in bytes 50 and 51, the sequence number in bytes 52 and 53 and the payload after them. */
  lemma OrdinaryFrame(b: Bytes, n: nat)
    requires 1 <= n <= 1024 && |b| == 58 + n && b[23] == 253
    requires b[42] as nat == n % 256 && b[43] as nat == n / 256 && b[44] == b[45] == b[46] == b[47] == b[48] == b[49] == 0
    ensures WellFormed(b) && Checksum(b) == Some(XorAll(b[57..57 + n]))
    ensures Decode(b) == View(b[50] == XorAll(b[57..57 + n]) && b[51] == 0, b[52] as nat + 256 * (b[53] as nat), b[58..])
  {
    hide LittleEndian, XorAll, PayloadLen;
    ShortLength(b, n);
    DecodeBytes(b);
  }

  /** The fold is the exclusive or: joining buffers joins their folds, and one byte folds to itself. */
  lemma {:induction false} XorJoin(a: Bytes, b: Bytes)
    ensures XorAll(a + b) == XorAll(a) ^ XorAll(b)
  {
    hide XorAll;
    if b == [] {
      assert a + b == a;
      XorNone();
      XorAssociates(XorAll(a), 0, 0);
    } else {
      var front, x := b[..|b| - 1], b[|b| - 1];
      XorJoin(a, front);
      assert a + b == (a + front) + [x] && b == front + [x];
      XorNext(a + front, x);
      XorNext(front, x);
      XorAssociates(XorAll(a), XorAll(front), x);
    }
  }

  lemma XorOne(x: bv8)
    ensures XorAll([x]) == x
  {
    XorNext([], x);
    XorAssociates(x, 0, 0);
    assert [] + [x] == [x];
  }

  lemma XorAssociates(x: bv8, y: bv8, z: bv8)
    ensures (x ^ y) ^ z == x ^ (y ^ z) && 0 ^ x == x && x ^ 0 == x
  {
  }

  predicate AllWellFormed(packets: seq<Bytes>) {
    forall i :: 0 <= i < |packets| ==> WellFormed(packets[i])
  }

  /** The payloads of a sequence of packets, in order. */
  ghost function Payloads(packets: seq<Bytes>): (p: seq<Bytes>)
    requires AllWellFormed(packets)
    ensures |p| == |packets| && forall i :: 0 <= i < |p| ==> p[i] == Payload(packets[i])
  {
    seq(|packets|, i requires 0 <= i < |packets| => Payload(packets[i]))
  }

  /** The type of a VTL frame with a whole header is written before its checksum is computed. */
  function Typed(b: Bytes): (t: Bytes)
    ensures |t| == |b|
  {
    if |b| < HDR_LEN || b[PROTOCOL_AT] != IPPROTO_VTL then b
    else b[PKT_TYPE_AT := 1][PKT_TYPE_AT + 1 := 0][PKT_TYPE_AT + 2 := 0][PKT_TYPE_AT + 3 := 0]
  }

  /** Header fields written at egress: type DATA, checksum, sequence number. */
  function Stamp(b: Bytes, checksum: bv8, seqNum: nat): (s: Bytes)
    requires HDR_LEN <= |b| && seqNum < 16
    ensures |s| == |b|
  {
    b[PKT_TYPE_AT := 1][PKT_TYPE_AT + 1 := 0][PKT_TYPE_AT + 2 := 0][PKT_TYPE_AT + 3 := 0]
     [CHECKSUM_AT := checksum][CHECKSUM_AT + 1 := 0]
     [SEQ_NUM_AT := seqNum as bv8][SEQ_NUM_AT + 1 := 0]
  }

  /** Only a VTL frame with a whole header is touched, and only its type, which becomes DATA. */
  lemma TypedBytes(b: Bytes)
    ensures |b| < 58 || b[23] != 253 ==> Typed(b) == b
    ensures |b| >= 58 && b[23] == 253 ==> forall i :: 0 <= i < |b| ==> Typed(b)[i] == if i == 38 then 1 else if 39 <= i < 42 then 0 else b[i]
  {
  }

  lemma StampBytes(b: Bytes, checksum: bv8, seqNum: nat)
    requires HDR_LEN <= |b| && seqNum < 16
    ensures var s := Stamp(b, checksum, seqNum);
            && s[50] == checksum && s[51] == 0 && s[52] as nat == seqNum && s[53] == 0
            && forall i :: 0 <= i < |b| && !(50 <= i < 54) ==> s[i] == if i == 38 then 1 else if 39 <= i < 42 then 0 else b[i]
  {
    ByteRoundTrip(seqNum);
  }

  /** The frame that leaves the sender for application packet b under sequence number seqNum. */
  function FrameOf(b: Bytes, seqNum: nat): Bytes
    requires Checksum(b).Some? && seqNum < 16
  {
    Stamp(b, Checksum(b).value, seqNum)
  }

  /** The stamp touches no byte that the checksum or the payload length reads. */
  lemma StampFields(b: Bytes, checksum: bv8, seqNum: nat)
    requires HDR_LEN <= |b| && seqNum < 16
    ensures var s := Stamp(b, checksum, seqNum);
            && s[PROTOCOL_AT] == b[PROTOCOL_AT]
            && PayloadLen(s) == PayloadLen(b)
            && FieldHolds(s, checksum)
            && SeqNum(s) == seqNum
            && s[COVERED_AT..] == b[COVERED_AT..]
  {
    hide LittleEndian, Stamp;
    var s := Stamp(b, checksum, seqNum);
    ByteRoundTrip(seqNum);
    StampOutside(b, checksum, seqNum);
    assert s[PAYLOAD_LEN_AT..CHECKSUM_AT] == b[PAYLOAD_LEN_AT..CHECKSUM_AT];
    assert s[COVERED_AT..] == b[COVERED_AT..];
  }

  lemma StampOutside(b: Bytes, checksum: bv8, seqNum: nat)
    requires HDR_LEN <= |b| && seqNum < 16
    ensures var s := Stamp(b, checksum, seqNum);
            && (forall i :: 0 <= i < PKT_TYPE_AT || PAYLOAD_LEN_AT <= i < CHECKSUM_AT || PADDING_AT <= i < |b| ==> s[i] == b[i])
            && FieldHolds(s, checksum)
            && s[SEQ_NUM_AT] == seqNum as bv8 && s[SEQ_NUM_AT + 1] == 0
  {
  }

  lemma ByteRoundTrip(n: nat)
    requires n < 16
    ensures (n as bv8) as nat == n
  {
    match n
    case 0 => case 1 => case 2 => case 3 => case 4 => case 5 => case 6 => case 7 =>
    case 8 => case 9 => case 10 => case 11 => case 12 => case 13 => case 14 => case _ =>
  }

  /** A frame stamped at egress always verifies at ingress, and carries the same payload. */
  lemma StampVerifies(b: Bytes, seqNum: nat)
    requires Checksum(b).Some? && seqNum < 16
    ensures var f := FrameOf(b, seqNum);
            Carries(f, b, seqNum) && Checksum(f) == Checksum(b) && PayloadLen(f) == PayloadLen(b)
  {
    hide LittleEndian, XorAll, Stamp, SeqNum, PayloadLen;
    StampFields(b, Checksum(b).value, seqNum);
    var f := FrameOf(b, seqNum);
    var n := CoveredLen(b);
    assert f[COVERED_AT..][..n] == f[COVERED_AT..COVERED_AT + n];
    assert b[COVERED_AT..][..n] == b[COVERED_AT..COVERED_AT + n];
    assert f[COVERED_AT..][1..] == f[HDR_LEN..];
    assert b[COVERED_AT..][1..] == b[HDR_LEN..];
  }

  /** Replacing one folded byte changes the fold by exactly the difference of the two bytes. */
  lemma {:induction false} XorUpdate(b: Bytes, i: nat, v: bv8)
    requires i < |b|
    ensures XorAll(b[i := v]) == XorAll(b) ^ b[i] ^ v
  {
    var c := b[i := v];
    var last := |b| - 1;
    if i == last {
      assert c[..last] == b[..last];
      XorCancel(XorAll(b[..last]), b[last], v);
    } else {
      assert c[..last] == b[..last][i := v];
      XorUpdate(b[..last], i, v);
      XorSwap(XorAll(b[..last]), b[i], v, b[last]);
    }
  }

  lemma XorCancel(x: bv8, y: bv8, v: bv8)
    ensures x ^ v == (x ^ y) ^ y ^ v
  {
  }

  lemma XorSwap(x: bv8, y: bv8, v: bv8, z: bv8)
    ensures (x ^ y ^ v) ^ z == (x ^ z) ^ y ^ v
  {
  }

  lemma XorDiffers(x: bv8, y: bv8, v: bv8)
    requires y != v
    ensures x ^ y ^ v != x
  {
  }

  /** The checksum of a frame in terms of its fields. */
  lemma ChecksumOf(f: Bytes)
    requires HDR_LEN < |f|
    ensures Checksum(f).Some? <==> f[PROTOCOL_AT] == IPPROTO_VTL && COVERED_AT + CoveredLen(f) <= |f|
    ensures Checksum(f).Some? ==> Checksum(f).value == XorAll(f[COVERED_AT..COVERED_AT + CoveredLen(f)])
    ensures f[PROTOCOL_AT] == IPPROTO_VTL || Checksum(f).None?
  {
    hide XorAll, LittleEndian;
  }

  lemma LongEnough(f: Bytes)
    requires Checksum(f).Some?
    ensures HDR_LEN < |f|
  {
  }

  lemma SameLength(f: Bytes, g: Bytes)
    requires |f| == |g| && HDR_LEN <= |f| && f[PAYLOAD_LEN_AT..CHECKSUM_AT] == g[PAYLOAD_LEN_AT..CHECKSUM_AT]
    ensures CoveredLen(f) == CoveredLen(g)
  {
    hide LittleEndian;
  }

  /** What a receiving program learns depends on these parts of a frame only. */
  lemma SameView(f: Bytes, g: Bytes)
    requires |f| == |g| && HDR_LEN <= |f| && f[PROTOCOL_AT] == g[PROTOCOL_AT]
    requires f[PAYLOAD_LEN_AT..CHECKSUM_AT] == g[PAYLOAD_LEN_AT..CHECKSUM_AT] && f[COVERED_AT..] == g[COVERED_AT..]
    requires f[CHECKSUM_AT] == g[CHECKSUM_AT] && f[CHECKSUM_AT + 1] == g[CHECKSUM_AT + 1]
    ensures Checksum(g) == Checksum(f) && ChecksumMatches(g) == ChecksumMatches(f) && Payload(g) == Payload(f)
  {
    hide LittleEndian, XorAll;
    var n := COVERED_AT + CoveredLen(f);
    if n <= |f| {
      assert f[COVERED_AT..n] == f[COVERED_AT..][..n - COVERED_AT] == g[COVERED_AT..n];
    }
    assert f[HDR_LEN..] == f[COVERED_AT..][1..] == g[HDR_LEN..];
  }

  /** A frame altered in exactly one byte from the covered range onwards is told apart by the
      checksum if and only if the byte lies in the covered range: the last byte of a payload
      of at most 1024 bytes is never covered. */
  lemma SingleByteDetection(f: Bytes, i: nat, v: bv8)
    requires ChecksumMatches(f) && COVERED_AT <= i < |f| && v != f[i]
    ensures !ChecksumMatches(f[i := v]) <==> i < COVERED_AT + CoveredLen(f)
  {
    hide LittleEndian, XorAll, Checksum, CoveredLen;
    var g := f[i := v];
    LongEnough(f);
    assert g[PAYLOAD_LEN_AT..CHECKSUM_AT] == f[PAYLOAD_LEN_AT..CHECKSUM_AT];
    SameLength(f, g);
    ChecksumOf(f);
    ChecksumOf(g);
    var n := COVERED_AT + CoveredLen(f);
    var covered := f[COVERED_AT..n];
    if i < n {
      assert g[COVERED_AT..n] == covered[i - COVERED_AT := v];
      XorUpdate(covered, i - COVERED_AT, v);
      XorDiffers(XorAll(covered), f[i], v);
    } else {
      assert g[COVERED_AT..n] == covered;
    }
  }

  /** Of the header, the length field apart, only the protocol and the checksum are protected: any
      other altered byte goes unnoticed. */
  lemma HeaderByteDetection(f: Bytes, i: nat, v: bv8)
    requires ChecksumMatches(f) && i < COVERED_AT && v != f[i] && !(PAYLOAD_LEN_AT <= i < CHECKSUM_AT)
    ensures !ChecksumMatches(f[i := v]) <==> i == PROTOCOL_AT || CHECKSUM_AT <= i < SEQ_NUM_AT
  {
    hide LittleEndian, XorAll, Checksum, CoveredLen;
    LongEnough(f);
    var g := f[i := v];
    assert g[PAYLOAD_LEN_AT..CHECKSUM_AT] == f[PAYLOAD_LEN_AT..CHECKSUM_AT];
    SameLength(f, g);
    ChecksumOf(f);
    ChecksumOf(g);
    assert g[COVERED_AT..] == f[COVERED_AT..];
    var n := COVERED_AT + CoveredLen(f);
    assert g[COVERED_AT..n] == g[COVERED_AT..][..n - COVERED_AT] == f[COVERED_AT..n];
  }

  /** So a good frame can arrive under any sequence number. */
  lemma SeqNumUnprotected(f: Bytes, lo: bv8, hi: bv8)
    requires ChecksumMatches(f)
    ensures var g := f[SEQ_NUM_AT := lo][SEQ_NUM_AT + 1 := hi];
            Decode(g) == View(true, lo as nat + 256 * (hi as nat), Payload(f))
  {
    hide LittleEndian, XorAll, Checksum, Payload;
    LongEnough(f);
    var g := f[SEQ_NUM_AT := lo][SEQ_NUM_AT + 1 := hi];
    SameView(f, g);
  }

  /** What the stamp changes. */
  lemma FrameBytes(b: Bytes, seqNum: nat)
    requires seqNum < 16
    ensures |b| < 58 || b[23] != 253 ==> Checksum(b).None?
    ensures Checksum(b).Some? ==>
              && |b| >= 58
              && var f := FrameOf(b, seqNum);
                 && |f| == |b| && f[50] == Checksum(b).value && f[51] == 0 && f[52] as nat == seqNum && f[53] == 0
                 && forall i :: 0 <= i < |b| && !(50 <= i < 54) ==> f[i] == if i == 38 then 1 else if 39 <= i < 42 then 0 else b[i]
  {
    hide XorAll, LittleEndian, Stamp;
    if Checksum(b).Some? {
      StampBytes(b, Checksum(b).value, seqNum);
    }
  }

  /** The frame f that leaves the egress hook, beside the packet b that came in: type DATA, the checksum and
      the sequence number, and everything else as it was, as far as a full-sized frame goes. */
  ghost predicate Departs(f: Bytes, b: Bytes, sum: bv8, seqNum: nat) {
    && (|b| <= ON_WIRE_SIZE ==> |f| == |b|)
    && (|f| >= 58 ==> f[38] == 1 && f[39] == f[40] == f[41] == 0 && f[50] == sum && f[51] == 0 && f[52] as nat == seqNum && f[53] == 0)
    && (forall i :: 0 <= i < |f| && i < |b| && i < ON_WIRE_SIZE && !(38 <= i < 42) && !(50 <= i < 54) ==> f[i] == b[i])
  }

  /** Filling the VTL header at egress. */
  method StampFrame(b: Bytes, seqNum: nat) returns (r: Option<Bytes>)
    requires seqNum < 16
    ensures r.None? <==> Checksum(b).None?
    ensures |b| < 58 || b[23] != 253 ==> r.None?
    ensures r.Some? ==> HDR_LEN < |b| && r.value == FrameOf(b, seqNum) && Carries(r.value, b, seqNum) && PayloadLen(r.value) == PayloadLen(b)
    ensures r.Some? ==>
              && var f := r.value;
                 && |f| == |b| && f[50] == Checksum(b).value && f[51] == 0 && f[52] as nat == seqNum && f[53] == 0
                 && forall i :: 0 <= i < |b| && !(50 <= i < 54) ==> f[i] == if i == 38 then 1 else if 39 <= i < 42 then 0 else b[i]
  {
    hide XorAll, LittleEndian, Stamp;
    FrameBytes(b, seqNum);
    var sum := ComputeChecksum(b);
    if sum.None? {
      return None;
    }
    StampVerifies(b, seqNum);
    return Some(Stamp(b, sum.value, seqNum));
  }
}
