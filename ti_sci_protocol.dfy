/**
 * The TI-SCI messages that OP-TEE exchanges with the TI system-controller
 * firmware on K3 devices: the message-type codes, the header flag bits and
 * the packed layouts of the generic header, the version request/response
 * and the SA2UL DKEK request/response.
 *
 * Every struct of the protocol header is packed, so it fixes an exact byte
 * layout with no padding. Each struct is a datatype here, with an encoder
 * to that layout and a decoder back; multi-byte fields are little-endian.
 */
module TiSciProtocol {
  import opened LittleEndian

  // ---------------------------------------------------------------------
  // Message types and flags

  /** Generic message: firmware version query. */
  const TI_SCI_MSG_VERSION: uint16 := 0x0002
  /** Security management message: derive the SA2UL DKEK. */
  const TI_SCI_MSG_SA2UL_GET_DKEK: uint16 := 0x9029

  /** BIT(n): the word with only bit n set. */
  function Bit(n: nat): (r: nat)
    ensures r >= 1
  {
    if n == 0 then 1 else 2 * Bit(n - 1)
  }

  /** TI_SCI_MSG_FLAG(val) */
  function MsgFlag(val: nat): (r: uint32)
    requires val < 32
    ensures r == Bit(val)
  {
    BitBelow(val, 32);
    BitAdd(8, 8);
    BitAdd(16, 16);
    Bit(val)
  }

  lemma {:induction false} BitAdd(a: nat, b: nat)
    ensures Bit(a + b) == Bit(a) * Bit(b)
  {
    if b > 0 {
      BitAdd(a, b - 1);
    }
  }

  /** A lower bit is a smaller word. */
  lemma {:induction false} BitBelow(n: nat, m: nat)
    requires n < m
    ensures Bit(n) < Bit(m)
    decreases m - n
  {
    if n + 1 < m {
      BitBelow(n + 1, m);
    }
  }

  const TI_SCI_FLAG_REQ_GENERIC_NORESPONSE: uint32 := 0x0
  const TI_SCI_FLAG_REQ_ACK_ON_RECEIVED: uint32 := MsgFlag(0)
  const TI_SCI_FLAG_REQ_ACK_ON_PROCESSED: uint32 := MsgFlag(1)
  const TI_SCI_FLAG_RESP_GENERIC_NACK: uint32 := 0x0
  const TI_SCI_FLAG_RESP_GENERIC_ACK: uint32 := MsgFlag(1)

  /** The flag words take the values bits 0 and 1 give them. */
  lemma FlagValues()
    ensures TI_SCI_FLAG_REQ_GENERIC_NORESPONSE == 0
    ensures TI_SCI_FLAG_REQ_ACK_ON_RECEIVED == 1
    ensures TI_SCI_FLAG_REQ_ACK_ON_PROCESSED == 2
    ensures TI_SCI_FLAG_RESP_GENERIC_NACK == 0
    ensures TI_SCI_FLAG_RESP_GENERIC_ACK == TI_SCI_FLAG_REQ_ACK_ON_PROCESSED
  {
  }

  /** The two message types can be told apart, both on the wire and as values. */
  lemma MessageTypesDistinct()
    ensures TI_SCI_MSG_VERSION != TI_SCI_MSG_SA2UL_GET_DKEK
    ensures ToLe(TI_SCI_MSG_VERSION, 2) == [0x02, 0x00]
    ensures ToLe(TI_SCI_MSG_SA2UL_GET_DKEK, 2) == [0x29, 0x90]
  {
  }

  // ---------------------------------------------------------------------
  // Sizes fixed by the packed layouts

  const SECURE_MSG_HDR_SIZE: nat := 4
  const MSG_HDR_SIZE: nat := 12
  const FIRMWARE_DESCRIPTION_LENGTH: nat := 32
  const KDF_LABEL_AND_CONTEXT_LEN_MAX: nat := 41
  const SA2UL_DKEK_KEY_LEN: nat := 32

  const VERSION_REQ_SIZE: nat := MSG_HDR_SIZE
  const VERSION_RESP_SIZE: nat := MSG_HDR_SIZE + FIRMWARE_DESCRIPTION_LENGTH + 2 + 4
  const DKEK_REQ_SIZE: nat := MSG_HDR_SIZE + 3 + KDF_LABEL_AND_CONTEXT_LEN_MAX
  const DKEK_RESP_SIZE: nat := MSG_HDR_SIZE + SA2UL_DKEK_KEY_LEN

  type FirmwareDescription = s: seq<uint8> | |s| == FIRMWARE_DESCRIPTION_LENGTH
    witness seq(32, _ => 0)
  type LabelAndContext = s: seq<uint8> | |s| == KDF_LABEL_AND_CONTEXT_LEN_MAX
    witness seq(41, _ => 0)
  type DkekBytes = s: seq<uint8> | |s| == SA2UL_DKEK_KEY_LEN
    witness seq(32, _ => 0)

  // ---------------------------------------------------------------------
  // Messages

  /** struct ti_sci_secure_msg_hdr */
  datatype SecureMsgHdr = SecureMsgHdr(checksum: uint16, reserved: uint16)

  /** struct ti_sci_msg_hdr */
  datatype MsgHdr = MsgHdr(secHdr: SecureMsgHdr, msgType: uint16, host: uint8, seqNum: uint8, flags: uint32)

  /** struct ti_sci_msg_req_version */
  datatype VersionReq = VersionReq(hdr: MsgHdr)

  /** struct ti_sci_msg_resp_version */
  datatype VersionResp = VersionResp(
    hdr: MsgHdr,
    firmwareDescription: FirmwareDescription,
    firmwareRevision: uint16,
    abiMajor: uint8,
    abiMinor: uint8,
    subVersion: uint8,
    patchVersion: uint8)

  /** struct ti_sci_msg_req_sa2ul_get_dkek */
  datatype DkekReq = DkekReq(
    hdr: MsgHdr,
    sa2ulInstance: uint8,
    kdfLabelLen: uint8,
    kdfContextLen: uint8,
    kdfLabelAndContext: LabelAndContext)

  /** struct ti_sci_msg_resp_sa2ul_get_dkek */
  datatype DkekResp = DkekResp(hdr: MsgHdr, dkek: DkekBytes)

  /** A decoder fails only when the buffer is shorter than the struct. */
  datatype DecodeError = Truncated(needed: nat, available: nat)

  datatype Result<T> = Ok(value: T) | Err(error: DecodeError)

  // ---------------------------------------------------------------------
  // Secure header: checksum at 0..2, reserved at 2..4

  function EncodeSecureMsgHdr(sh: SecureMsgHdr): (r: seq<uint8>)
    ensures |r| == SECURE_MSG_HDR_SIZE
    ensures FromLe(r[0..2]) == sh.checksum && FromLe(r[2..4]) == sh.reserved
  {
    var r := ToLe(sh.checksum, 2) + ToLe(sh.reserved, 2);
    assert r[0..2] == ToLe(sh.checksum, 2) && r[2..4] == ToLe(sh.reserved, 2);
    FromLeToLe(sh.checksum, 2);
    FromLeToLe(sh.reserved, 2);
    r
  }

  function DecodeSecureMsgHdr(s: seq<uint8>): (r: Result<SecureMsgHdr>)
    ensures r.Err? <==> |s| < SECURE_MSG_HDR_SIZE
  {
    if |s| < SECURE_MSG_HDR_SIZE then Err(Truncated(SECURE_MSG_HDR_SIZE, |s|))
    else Ok(SecureMsgHdr(FromLe(s[0..2]), FromLe(s[2..4])))
  }

  lemma DecodeEncodeSecureMsgHdr(sh: SecureMsgHdr)
    ensures DecodeSecureMsgHdr(EncodeSecureMsgHdr(sh)) == Ok(sh)
  {
  }

  lemma EncodeDecodeSecureMsgHdr(s: seq<uint8>)
    requires |s| >= SECURE_MSG_HDR_SIZE
    ensures DecodeSecureMsgHdr(s).Ok?
    ensures EncodeSecureMsgHdr(DecodeSecureMsgHdr(s).value) == s[..SECURE_MSG_HDR_SIZE]
  {
    ToLeFromLe(s[0..2]);
    ToLeFromLe(s[2..4]);
    assert s[..4] == s[0..2] + s[2..4];
  }

  // ---------------------------------------------------------------------
  // Generic header: secure header at 0..4, type at 4..6, host at 6,
  // seq at 7, flags at 8..12

  function EncodeMsgHdr(h: MsgHdr): (r: seq<uint8>)
    ensures |r| == MSG_HDR_SIZE
    ensures r[..SECURE_MSG_HDR_SIZE] == EncodeSecureMsgHdr(h.secHdr)
    ensures FromLe(r[0..2]) == h.secHdr.checksum && FromLe(r[2..4]) == h.secHdr.reserved
    ensures FromLe(r[4..6]) == h.msgType
    ensures r[6] == h.host && r[7] == h.seqNum
    ensures FromLe(r[8..12]) == h.flags
  {
    var sec := EncodeSecureMsgHdr(h.secHdr);
    var r := sec + ToLe(h.msgType, 2) + [h.host, h.seqNum] + ToLe(h.flags, 4);
    assert r[0..2] == sec[0..2] && r[2..4] == sec[2..4];
    assert r[4..6] == ToLe(h.msgType, 2) && r[8..12] == ToLe(h.flags, 4);
    FromLeToLe(h.msgType, 2);
    FromLeToLe(h.flags, 4);
    r
  }

  function DecodeMsgHdr(s: seq<uint8>): (r: Result<MsgHdr>)
    ensures r.Err? <==> |s| < MSG_HDR_SIZE
  {
    if |s| < MSG_HDR_SIZE then Err(Truncated(MSG_HDR_SIZE, |s|))
    else Ok(MsgHdr(DecodeSecureMsgHdr(s).value, FromLe(s[4..6]), s[6], s[7], FromLe(s[8..12])))
  }

  /** Decoding the 12 encoded bytes gives back the header. */
  lemma DecodeEncodeMsgHdr(h: MsgHdr)
    ensures DecodeMsgHdr(EncodeMsgHdr(h)) == Ok(h)
  {
  }

  /** Every 12-byte prefix is the encoding of the header it decodes to. */
  lemma EncodeDecodeMsgHdr(s: seq<uint8>)
    requires |s| >= MSG_HDR_SIZE
    ensures DecodeMsgHdr(s).Ok?
    ensures EncodeMsgHdr(DecodeMsgHdr(s).value) == s[..MSG_HDR_SIZE]
  {
    var h := DecodeMsgHdr(s).value;
    EncodeDecodeSecureMsgHdr(s);
    ToLeFromLe(s[4..6]);
    ToLeFromLe(s[8..12]);
    assert s[..12] == s[..4] + s[4..6] + [s[6], s[7]] + s[8..12];
  }

  // ---------------------------------------------------------------------
  // Version request: the generic header alone

  function EncodeVersionReq(m: VersionReq): (r: seq<uint8>)
    ensures |r| == VERSION_REQ_SIZE == 12
    ensures r == EncodeMsgHdr(m.hdr)
  {
    EncodeMsgHdr(m.hdr)
  }

  function DecodeVersionReq(s: seq<uint8>): (r: Result<VersionReq>)
    ensures r.Err? <==> |s| < VERSION_REQ_SIZE
  {
    if |s| < VERSION_REQ_SIZE then Err(Truncated(VERSION_REQ_SIZE, |s|))
    else Ok(VersionReq(DecodeMsgHdr(s[..MSG_HDR_SIZE]).value))
  }

  lemma DecodeEncodeVersionReq(m: VersionReq)
    ensures DecodeVersionReq(EncodeVersionReq(m)) == Ok(m)
  {
    var r := EncodeVersionReq(m);
    assert r[..MSG_HDR_SIZE] == r;
    DecodeEncodeMsgHdr(m.hdr);
  }

  lemma EncodeDecodeVersionReq(s: seq<uint8>)
    requires |s| >= VERSION_REQ_SIZE
    ensures DecodeVersionReq(s).Ok?
    ensures EncodeVersionReq(DecodeVersionReq(s).value) == s[..VERSION_REQ_SIZE]
  {
    EncodeDecodeMsgHdr(s[..MSG_HDR_SIZE]);
  }

  // ---------------------------------------------------------------------
  // Version response: header at 0..12, description at 12..44, revision at
  // 44..46, abi_major 46, abi_minor 47, sub_version 48, patch_version 49

  function EncodeVersionResp(m: VersionResp): (r: seq<uint8>)
    ensures |r| == VERSION_RESP_SIZE == 50
    ensures r[..MSG_HDR_SIZE] == EncodeMsgHdr(m.hdr)
    ensures r[12..44] == m.firmwareDescription
    ensures FromLe(r[44..46]) == m.firmwareRevision
    ensures r[46] == m.abiMajor && r[47] == m.abiMinor
    ensures r[48] == m.subVersion && r[49] == m.patchVersion
  {
    var hdr := EncodeMsgHdr(m.hdr);
    var r := hdr + m.firmwareDescription + ToLe(m.firmwareRevision, 2)
             + [m.abiMajor, m.abiMinor, m.subVersion, m.patchVersion];
    assert r[..12] == hdr && r[12..44] == m.firmwareDescription;
    assert r[44..46] == ToLe(m.firmwareRevision, 2);
    FromLeToLe(m.firmwareRevision, 2);
    r
  }

  function DecodeVersionResp(s: seq<uint8>): (r: Result<VersionResp>)
    ensures r.Err? <==> |s| < VERSION_RESP_SIZE
  {
    if |s| < VERSION_RESP_SIZE then Err(Truncated(VERSION_RESP_SIZE, |s|))
    else Ok(VersionResp(DecodeMsgHdr(s[..MSG_HDR_SIZE]).value, s[12..44], FromLe(s[44..46]), s[46], s[47], s[48], s[49]))
  }

  lemma DecodeEncodeVersionResp(m: VersionResp)
    ensures DecodeVersionResp(EncodeVersionResp(m)) == Ok(m)
  {
    var r := EncodeVersionResp(m);
    DecodeEncodeMsgHdr(m.hdr);
  }

  lemma EncodeDecodeVersionResp(s: seq<uint8>)
    requires |s| >= VERSION_RESP_SIZE
    ensures DecodeVersionResp(s).Ok?
    ensures EncodeVersionResp(DecodeVersionResp(s).value) == s[..VERSION_RESP_SIZE]
  {
    var m := DecodeVersionResp(s).value;
    var e := EncodeVersionResp(m);
    EncodeDecodeMsgHdr(s[..MSG_HDR_SIZE]);
    assert e[..12] == s[..12];
    assert e[44..46] == s[44..46] by {
      ToLeFromLe(s[44..46]);
      ToLeFromLe(e[44..46]);
    }
    forall i | 0 <= i < VERSION_RESP_SIZE
      ensures e[i] == s[i]
    {
      if i < 12 {
        assert e[..12][i] == s[..12][i];
      } else if 44 <= i < 46 {
        assert e[44..46][i - 44] == s[44..46][i - 44];
      }
    }
  }

  // ---------------------------------------------------------------------
  // DKEK request: header at 0..12, sa2ul_instance 12, kdf_label_len 13,
  // kdf_context_len 14, kdf_label_and_context at 15..56

  function EncodeDkekReq(m: DkekReq): (r: seq<uint8>)
    ensures |r| == DKEK_REQ_SIZE == 56
    ensures r[..MSG_HDR_SIZE] == EncodeMsgHdr(m.hdr)
    ensures r[12] == m.sa2ulInstance && r[13] == m.kdfLabelLen && r[14] == m.kdfContextLen
    ensures r[15..56] == m.kdfLabelAndContext
  {
    var hdr := EncodeMsgHdr(m.hdr);
    var r := hdr + [m.sa2ulInstance, m.kdfLabelLen, m.kdfContextLen] + m.kdfLabelAndContext;
    assert r[..12] == hdr && r[15..56] == m.kdfLabelAndContext;
    r
  }

  function DecodeDkekReq(s: seq<uint8>): (r: Result<DkekReq>)
    ensures r.Err? <==> |s| < DKEK_REQ_SIZE
  {
    if |s| < DKEK_REQ_SIZE then Err(Truncated(DKEK_REQ_SIZE, |s|))
    else Ok(DkekReq(DecodeMsgHdr(s[..MSG_HDR_SIZE]).value, s[12], s[13], s[14], s[15..56]))
  }

  lemma DecodeEncodeDkekReq(m: DkekReq)
    ensures DecodeDkekReq(EncodeDkekReq(m)) == Ok(m)
  {
    var r := EncodeDkekReq(m);
    DecodeEncodeMsgHdr(m.hdr);
  }

  lemma EncodeDecodeDkekReq(s: seq<uint8>)
    requires |s| >= DKEK_REQ_SIZE
    ensures DecodeDkekReq(s).Ok?
    ensures EncodeDkekReq(DecodeDkekReq(s).value) == s[..DKEK_REQ_SIZE]
  {
    EncodeDecodeMsgHdr(s[..MSG_HDR_SIZE]);
    assert s[..56] == s[..12] + [s[12], s[13], s[14]] + s[15..56];
  }

  // ---------------------------------------------------------------------
  // DKEK response: header at 0..12, dkek at 12..44

  function EncodeDkekResp(m: DkekResp): (r: seq<uint8>)
    ensures |r| == DKEK_RESP_SIZE == 44
    ensures r[..MSG_HDR_SIZE] == EncodeMsgHdr(m.hdr)
    ensures r[12..44] == m.dkek
  {
    var hdr := EncodeMsgHdr(m.hdr);
    var r := hdr + m.dkek;
    assert r[..12] == hdr && r[12..44] == m.dkek;
    r
  }

  function DecodeDkekResp(s: seq<uint8>): (r: Result<DkekResp>)
    ensures r.Err? <==> |s| < DKEK_RESP_SIZE
  {
    if |s| < DKEK_RESP_SIZE then Err(Truncated(DKEK_RESP_SIZE, |s|))
    else Ok(DkekResp(DecodeMsgHdr(s[..MSG_HDR_SIZE]).value, s[12..44]))
  }

  lemma DecodeEncodeDkekResp(m: DkekResp)
    ensures DecodeDkekResp(EncodeDkekResp(m)) == Ok(m)
  {
    var r := EncodeDkekResp(m);
    DecodeEncodeMsgHdr(m.hdr);
  }

  lemma EncodeDecodeDkekResp(s: seq<uint8>)
    requires |s| >= DKEK_RESP_SIZE
    ensures DecodeDkekResp(s).Ok?
    ensures EncodeDkekResp(DecodeDkekResp(s).value) == s[..DKEK_RESP_SIZE]
  {
    EncodeDecodeMsgHdr(s[..MSG_HDR_SIZE]);
    assert s[..44] == s[..12] + s[12..44];
  }

  // ---------------------------------------------------------------------
  // Well-formed DKEK requests

  /**
   * The instance must be 0, and the kdfLabel and kdfContext lengths together
   * must fit the 41-byte kdf_label_and_context buffer.
   */
  predicate WellFormedDkekReq(m: DkekReq)
  {
    m.sa2ulInstance == 0 && m.kdfLabelLen + m.kdfContextLen <= KDF_LABEL_AND_CONTEXT_LEN_MAX
  }

  /** The "Label" bytes: the first kdf_label_len bytes of the buffer. */
  function KdfLabel(m: DkekReq): (r: seq<uint8>)
    requires m.kdfLabelLen + m.kdfContextLen <= KDF_LABEL_AND_CONTEXT_LEN_MAX
    ensures |r| == m.kdfLabelLen
  {
    m.kdfLabelAndContext[..m.kdfLabelLen]
  }

  /** The "Context" bytes: the kdf_context_len bytes after the kdfLabel. */
  function KdfContext(m: DkekReq): (r: seq<uint8>)
    requires m.kdfLabelLen + m.kdfContextLen <= KDF_LABEL_AND_CONTEXT_LEN_MAX
    ensures |r| == m.kdfContextLen
  {
    m.kdfLabelAndContext[m.kdfLabelLen..m.kdfLabelLen + m.kdfContextLen]
  }

  /** m is a well-formed request for this instance, kdfLabel and kdfContext. */
  predicate Carries(m: DkekReq, instance: uint8, kdfLabel: seq<uint8>, kdfContext: seq<uint8>)
  {
    WellFormedDkekReq(m) && m.sa2ulInstance == instance
    && KdfLabel(m) == kdfLabel && KdfContext(m) == kdfContext
  }

  /** The request for kdfLabel and kdfContext, the unused tail of the buffer zeroed. */
  function MakeDkekReq(hdr: MsgHdr, kdfLabel: seq<uint8>, kdfContext: seq<uint8>): (m: DkekReq)
    requires |kdfLabel| + |kdfContext| <= KDF_LABEL_AND_CONTEXT_LEN_MAX
    ensures m.hdr == hdr && Carries(m, 0, kdfLabel, kdfContext)
    ensures forall i :: |kdfLabel| + |kdfContext| <= i < KDF_LABEL_AND_CONTEXT_LEN_MAX ==> m.kdfLabelAndContext[i] == 0
  {
    var buf := kdfLabel + kdfContext + seq(KDF_LABEL_AND_CONTEXT_LEN_MAX - |kdfLabel| - |kdfContext|, _ => 0);
    var m := DkekReq(hdr, 0, |kdfLabel|, |kdfContext|, buf);
    assert KdfLabel(m) == kdfLabel;
    assert KdfContext(m) == kdfContext;
    m
  }

  /**
   * A well-formed request for an instance, kdfLabel and kdfContext exists exactly
   * when the instance is 0 and the kdfLabel and kdfContext fit the buffer together.
   */
  lemma CarriableIff(instance: uint8, kdfLabel: seq<uint8>, kdfContext: seq<uint8>)
    ensures (exists m :: Carries(m, instance, kdfLabel, kdfContext))
        <==> instance == 0 && |kdfLabel| + |kdfContext| <= KDF_LABEL_AND_CONTEXT_LEN_MAX
  {
    if instance == 0 && |kdfLabel| + |kdfContext| <= KDF_LABEL_AND_CONTEXT_LEN_MAX {
      var m := MakeDkekReq(MsgHdr(SecureMsgHdr(0, 0), TI_SCI_MSG_SA2UL_GET_DKEK, 0, 0, 0), kdfLabel, kdfContext);
      assert Carries(m, instance, kdfLabel, kdfContext);
    }
  }

  /**
   * A well-formed request keeps its kdfLabel and kdfContext at fixed offsets on
   * the wire: the kdfLabel at 15, the kdfContext right after it.
   */
  lemma WellFormedDkekReqOnWire(m: DkekReq)
    requires WellFormedDkekReq(m)
    ensures var r := EncodeDkekReq(m);
      r[15..15 + m.kdfLabelLen] == KdfLabel(m)
      && r[15 + m.kdfLabelLen..15 + m.kdfLabelLen + m.kdfContextLen] == KdfContext(m)
  {
    var r := EncodeDkekReq(m);
    var buf := m.kdfLabelAndContext;
    assert r[15..56] == buf;
    assert r[15..15 + m.kdfLabelLen] == buf[..m.kdfLabelLen];
    assert r[15 + m.kdfLabelLen..15 + m.kdfLabelLen + m.kdfContextLen]
        == buf[m.kdfLabelLen..m.kdfLabelLen + m.kdfContextLen];
  }

  /** Well-formedness survives the trip over the wire. */
  lemma WellFormedSurvivesDecode(s: seq<uint8>)
    requires |s| >= DKEK_REQ_SIZE
    ensures DecodeDkekReq(s).Ok?
    ensures WellFormedDkekReq(DecodeDkekReq(s).value) <==> s[12] == 0 && s[13] + s[14] <= KDF_LABEL_AND_CONTEXT_LEN_MAX
  {
  }
}
