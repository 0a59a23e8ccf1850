# TI-SCI messages and the K3 hardware-unique key

On TI K3 devices (AM65x, J721E), OP-TEE derives its hardware-unique key from
the system-controller firmware. It talks to that firmware with TI-SCI
messages. This project models two things:

- The TI-SCI message layouts of `ti_sci_protocol.h`. These are the message-type
  codes and the header flag bits. They are also the packed structs of the
  generic header, the version request/response and the SA2UL DKEK
  request/response. Each struct is a datatype with an encoder to its exact
  byte layout and a decoder back. Multi-byte fields are little-endian, as the
  K3 Arm cores run little-endian. Decoders fail with `Truncated` on a buffer
  shorter than the struct and ignore trailing bytes, the way a cast of a
  receive buffer to the struct would.
- `tee_otp_get_hw_unique_key` of `main.c`, as a method over arrays. It
  zero-initialises a 32-byte staging buffer. It calls secure-proxy init,
  TI-SCI init and get-DKEK (instance 0, then the strings "OP-TEE" and "DKEK")
  in that order, and returns the first non-zero code. On success it copies the
  first `HW_UNIQUE_KEY_LENGTH` bytes into the caller's key slot, wipes the
  staging buffer and returns `TEE_SUCCESS`.

The three calls go into drivers outside this model. They are the methods of
class `K3Main.Firmware`. Each appends to a call log the call, its arguments
and the code it returned. For get-DKEK the entry also names the buffer it
was handed, what that buffer held on entry and what it held on return.
Nothing else about them is promised: the codes and the bytes are
unconstrained. The routine's contract is stated against that log, so the
codes it reacts to, the code it returns and the key it installs are the
ones the calls actually produced, and the staging buffer it describes is
the one get-DKEK was handed.

Files: `little_endian.dfy` (fixed-width integers and their little-endian
bytes), `ti_sci_protocol.dfy` (the message codec), `k3_main.dfy` (the key
derivation).

The staging buffer is wiped on the success path only (`main.c:87`). The three
error returns (`main.c:73-74`, `77-78`, `81-82`) leave it as it is. The
contract of `TeeOtpGetHwUniqueKey` states this for the buffer named in
the get-DKEK log entry: it was all zeros when handed over (`main.c:67`), it is
all zeros again after success, and after a failed get-DKEK it holds exactly
the bytes get-DKEK left in it. `StagingResidueOnlyAfterDkekFailure` draws the
consequence: key material can remain in that buffer only on that path.

## Model

| member | source | states |
|---|---|---|
| `LittleEndian.FromLeToLe` | core/arch/arm/plat-k3/drivers/ti_sci_protocol.h:28-53 | reading back the n-byte little-endian encoding of a value below 256^n gives the value |
| `LittleEndian.ToLeFromLe` | core/arch/arm/plat-k3/drivers/ti_sci_protocol.h:28-53 | every byte string is the little-endian encoding of its own value |
| `LittleEndian.ToLeInjective` | core/arch/arm/plat-k3/drivers/ti_sci_protocol.h:28-53 | distinct field values encode to distinct bytes |
| `TiSciProtocol.MsgFlag` | core/arch/arm/plat-k3/drivers/ti_sci_protocol.h:45 | TI_SCI_MSG_FLAG(val) is BIT(val) and fits the 32-bit flags field for every val below 32 |
| `TiSciProtocol.FlagValues` | core/arch/arm/plat-k3/drivers/ti_sci_protocol.h:45-50 | NORESPONSE = 0, ACK_ON_RECEIVED = 1, ACK_ON_PROCESSED = 2, GENERIC_NACK = 0, GENERIC_ACK = ACK_ON_PROCESSED |
| `TiSciProtocol.MessageTypesDistinct` | core/arch/arm/plat-k3/drivers/ti_sci_protocol.h:16-19 | VERSION (0x0002) and SA2UL_GET_DKEK (0x9029) differ and go on the wire as 02 00 and 29 90 |
| `TiSciProtocol.EncodeSecureMsgHdr` | core/arch/arm/plat-k3/drivers/ti_sci_protocol.h:28-31 | the secure header is 4 bytes: checksum read back from 0..2, reserved from 2..4 |
| `TiSciProtocol.DecodeSecureMsgHdr` | core/arch/arm/plat-k3/drivers/ti_sci_protocol.h:28-31 | decoding fails exactly when fewer than 4 bytes are given |
| `TiSciProtocol.DecodeEncodeSecureMsgHdr` | core/arch/arm/plat-k3/drivers/ti_sci_protocol.h:28-31 | decoding an encoded secure header gives it back |
| `TiSciProtocol.EncodeDecodeSecureMsgHdr` | core/arch/arm/plat-k3/drivers/ti_sci_protocol.h:28-31 | any 4-byte prefix decodes, and re-encodes to itself |
| `TiSciProtocol.EncodeMsgHdr` | core/arch/arm/plat-k3/drivers/ti_sci_protocol.h:40-53 | the header is 12 bytes: checksum at 0..2, reserved at 2..4, type at 4..6, host at 6, seq at 7, flags at 8..12 |
| `TiSciProtocol.DecodeMsgHdr` | core/arch/arm/plat-k3/drivers/ti_sci_protocol.h:40-53 | decoding fails exactly when fewer than 12 bytes are given |
| `TiSciProtocol.DecodeEncodeMsgHdr` | core/arch/arm/plat-k3/drivers/ti_sci_protocol.h:40-53 | decoding an encoded header gives it back |
| `TiSciProtocol.EncodeDecodeMsgHdr` | core/arch/arm/plat-k3/drivers/ti_sci_protocol.h:40-53 | any 12-byte prefix decodes, and re-encodes to itself |
| `TiSciProtocol.EncodeVersionReq` | core/arch/arm/plat-k3/drivers/ti_sci_protocol.h:61-63 | a version request is exactly its 12-byte header |
| `TiSciProtocol.DecodeVersionReq` | core/arch/arm/plat-k3/drivers/ti_sci_protocol.h:61-63 | decoding fails exactly when fewer than 12 bytes are given |
| `TiSciProtocol.DecodeEncodeVersionReq` | core/arch/arm/plat-k3/drivers/ti_sci_protocol.h:61-63 | decoding an encoded version request gives it back |
| `TiSciProtocol.EncodeDecodeVersionReq` | core/arch/arm/plat-k3/drivers/ti_sci_protocol.h:61-63 | any 12-byte prefix decodes, and re-encodes to itself |
| `TiSciProtocol.EncodeVersionResp` | core/arch/arm/plat-k3/drivers/ti_sci_protocol.h:81-90 | a version response is 50 bytes: header at 0..12, description at 12..44, revision at 44..46, abi_major, abi_minor, sub_version, patch_version at 46..49 |
| `TiSciProtocol.DecodeVersionResp` | core/arch/arm/plat-k3/drivers/ti_sci_protocol.h:81-90 | decoding fails exactly when fewer than 50 bytes are given |
| `TiSciProtocol.DecodeEncodeVersionResp` | core/arch/arm/plat-k3/drivers/ti_sci_protocol.h:81-90 | decoding an encoded version response gives it back |
| `TiSciProtocol.EncodeDecodeVersionResp` | core/arch/arm/plat-k3/drivers/ti_sci_protocol.h:81-90 | any 50-byte prefix decodes, and re-encodes to itself |
| `TiSciProtocol.EncodeDkekReq` | core/arch/arm/plat-k3/drivers/ti_sci_protocol.h:102-109 | a DKEK request is 56 bytes: header at 0..12, instance at 12, label length at 13, context length at 14, the 41-byte buffer at 15..56 |
| `TiSciProtocol.DecodeDkekReq` | core/arch/arm/plat-k3/drivers/ti_sci_protocol.h:102-109 | decoding fails exactly when fewer than 56 bytes are given |
| `TiSciProtocol.DecodeEncodeDkekReq` | core/arch/arm/plat-k3/drivers/ti_sci_protocol.h:102-109 | decoding an encoded DKEK request gives it back |
| `TiSciProtocol.EncodeDecodeDkekReq` | core/arch/arm/plat-k3/drivers/ti_sci_protocol.h:102-109 | any 56-byte prefix decodes, and re-encodes to itself |
| `TiSciProtocol.EncodeDkekResp` | core/arch/arm/plat-k3/drivers/ti_sci_protocol.h:118-122 | a DKEK response is 44 bytes: header at 0..12, the 32-byte key at 12..44 |
| `TiSciProtocol.DecodeDkekResp` | core/arch/arm/plat-k3/drivers/ti_sci_protocol.h:118-122 | decoding fails exactly when fewer than 44 bytes are given |
| `TiSciProtocol.DecodeEncodeDkekResp` | core/arch/arm/plat-k3/drivers/ti_sci_protocol.h:118-122 | decoding an encoded DKEK response gives it back |
| `TiSciProtocol.EncodeDecodeDkekResp` | core/arch/arm/plat-k3/drivers/ti_sci_protocol.h:118-122 | any 44-byte prefix decodes, and re-encodes to itself |
| `TiSciProtocol.KdfLabel` | core/arch/arm/plat-k3/drivers/ti_sci_protocol.h:96-98 | when the label and context lengths add up to at most 41, the label is the first kdf_label_len buffer bytes |
| `TiSciProtocol.KdfContext` | core/arch/arm/plat-k3/drivers/ti_sci_protocol.h:96-98 | when the label and context lengths add up to at most 41, the context is the kdf_context_len bytes after the label, inside the buffer |
| `TiSciProtocol.MakeDkekReq` | core/arch/arm/plat-k3/drivers/ti_sci_protocol.h:95-108 | a label and context that fit 41 bytes together give a well-formed instance-0 request carrying them, with the unused tail zero |
| `TiSciProtocol.CarriableIff` | core/arch/arm/plat-k3/drivers/ti_sci_protocol.h:95-108 | a well-formed request for an instance, label and context exists exactly when the instance is 0 and label plus context length is at most 41 |
| `TiSciProtocol.WellFormedDkekReqOnWire` | core/arch/arm/plat-k3/drivers/ti_sci_protocol.h:102-109 | in the encoding of a well-formed request the label starts at byte 15 and the context follows it |
| `TiSciProtocol.WellFormedSurvivesDecode` | core/arch/arm/plat-k3/drivers/ti_sci_protocol.h:95-108 | a decoded request is well-formed exactly when byte 12 is 0 and bytes 13 and 14 add up to at most 41 |
| `K3Main.ToTeeResult` | core/arch/arm/plat-k3/main.c:72-74 | returning the int code as TEE_Result converts it modulo 2^32, and a non-zero code stays non-zero |
| `K3Main.Firmware.SecProxyInit` | core/arch/arm/plat-k3/main.c:72 | k3_sec_proxy_init is logged with the code it returns; the code is unconstrained |
| `K3Main.Firmware.TiSciInit` | core/arch/arm/plat-k3/main.c:76 | ti_sci_init is logged with the code it returns; the code is unconstrained |
| `K3Main.Firmware.TiSciGetDkek` | core/arch/arm/plat-k3/main.c:80 | ti_sci_get_dkek is logged with its instance, its two strings, the buffer it was handed, what that buffer held on entry and on return, and the code it returns; code and bytes are unconstrained |
| `K3Main.MemCpy` | core/arch/arm/plat-k3/main.c:85 | memcpy copies the first n bytes and leaves the rest of the destination as it was |
| `K3Main.MemzeroExplicit` | core/arch/arm/plat-k3/main.c:87 | memzero_explicit leaves the whole buffer zero |
| `K3Main.TeeOtpGetHwUniqueKey` | core/arch/arm/plat-k3/main.c:65-89 | the calls logged by the run are secure-proxy init, TI-SCI init, get-DKEK(0, "OP-TEE", "DKEK"), each made only if the one before returned 0; the result is the logged code of the last call made, TEE_SUCCESS exactly when all three returned 0; the key slot gets the first 16 bytes get-DKEK wrote on success and is untouched otherwise; get-DKEK is handed the routine's fresh staging buffer while it is all zeros, and that buffer is zero when get-DKEK was not called, holds what get-DKEK wrote when it failed, and is zero after success |
| `K3Main.DkekCoversHwKey` | core/arch/arm/plat-k3/main.c:70 | SA2UL_DKEK_KEY_LEN >= HW_UNIQUE_KEY_LENGTH, so the copy stays inside the staging buffer |
| `K3Main.HukSucceedsIffAllCallsSucceed` | core/arch/arm/plat-k3/main.c:72-88 | over the routine's call trace: the result is the code of the last call made, and it is TEE_SUCCESS exactly when all three calls were made and returned 0 |
| `K3Main.HukCallsOrdered` | core/arch/arm/plat-k3/main.c:72-82 | over the routine's call trace: secure-proxy init first, TI-SCI init second, get-DKEK(0, "OP-TEE", "DKEK") third, handed the staging buffer while it is all zeros; every call but the last returned 0, and fewer than three calls means the last one failed |
| `K3Main.HwKeyAllOrNothing` | core/arch/arm/plat-k3/main.c:80-85 | the key slot is unchanged unless the result is TEE_SUCCESS, and then holds exactly the first 16 bytes the logged get-DKEK wrote |
| `K3Main.StagingResidueOnlyAfterDkekFailure` | core/arch/arm/plat-k3/main.c:67-87 | the staging buffer, the one the logged get-DKEK was handed, is zero after success and when get-DKEK was not called, holds what get-DKEK wrote when it failed, and is non-zero only on that path |
| `K3Main.HukDkekRequestWellFormed` | core/arch/arm/plat-k3/main.c:80 | get-DKEK gets instance 0 with "OP-TEE" and "DKEK", 10 bytes together, which a well-formed DKEK request carries whichever string is the label |

## Left out

- Interrupt-controller and console bring-up (`main.c:41-62`): hardware I/O with no logic.
- The physical-memory registrations (`main.c:30-39`): boot-time declarations, not code.
- The bodies of `k3_sec_proxy_init`, `ti_sci_init` and `ti_sci_get_dkek`: the drivers that hold them are not part of this model. Their contracts say only what is logged; the codes and bytes they produce are unconstrained.
- Which of "OP-TEE" and "DKEK" `ti_sci_get_dkek` uses as the KDF label and which as the context: its prototype in `core/arch/arm/plat-k3/drivers/ti_sci.h` is not part of this model. The strings are modelled by position, and `HukDkekRequestWellFormed` covers both assignments.
- How the TI-SCI driver builds, sends and matches messages (sequence numbers, response matching, timeouts, version checks): that driver is not part of this model, so the codec is not connected to `ti_sci_get_dkek`.
- The checksum algorithm: only the 16-bit field exists in the layout, so the checksum is an opaque value.
- `HW_UNIQUE_KEY_LENGTH`: `core/include/kernel/tee_common_otp.h` is not part of this model; the constant is taken as OP-TEE's 16.
- The `IMSG` log line and the `PLATFORM_FLAVOR` guard: logging and build configuration. The routine exists only on AM65x and J721E builds.
- Concurrency and locking around the transport: the model is sequential.
- `char firmware_description[32]` is modelled as 32 bytes, with no string semantics.
