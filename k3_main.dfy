/**
 * The hardware-unique key of K3 platforms (AM65x and J721E): OP-TEE asks
 * the system-controller firmware for the SA2UL DKEK and keeps its first
 * HW_UNIQUE_KEY_LENGTH bytes as the hardware-unique key.
 *
 * The secure-proxy transport and the TI-SCI driver are outside this model;
 * the three calls into them are the methods of class Firmware, whose
 * contracts only record each call in a log: its arguments, the code it
 * returned and, for get-DKEK, the buffer it was handed, what that buffer
 * held on entry and what it held on return. The codes and the bytes
 * get-DKEK writes are left unconstrained.
 */
module K3Main {
  import opened LittleEndian
  import opened TiSciProtocol

  /** Size of tee_hw_unique_key.data (OP-TEE's tee_common_otp.h). */
  const HW_UNIQUE_KEY_LENGTH: nat := 16

  /** C `int`, the type of the codes the three calls return. */
  type int32 = x: int | -0x8000_0000 <= x < 0x8000_0000

  /** TEE_Result, an unsigned 32-bit word. */
  type TeeResult = uint32

  const TEE_SUCCESS: TeeResult := 0

  /**
   * `return ret` in a function returning TEE_Result: the int is converted
   * to the unsigned type modulo 2^32, so a non-zero code stays non-zero.
   */
  function ToTeeResult(ret: int32): (r: TeeResult)
    ensures (r - ret) % 0x1_0000_0000 == 0
    ensures r == TEE_SUCCESS <==> ret == 0
  {
    if ret < 0 then ret + 0x1_0000_0000 else ret
  }

  /**
   * The two strings tee_otp_get_hw_unique_key passes to get-DKEK, in the
   * order it passes them. Which of them the driver uses as the KDF label
   * and which as the context is decided by the driver.
   */
  const HUK_DKEK_ARG1: string := "OP-TEE"
  const HUK_DKEK_ARG2: string := "DKEK"

  /** The bytes of a string whose characters all fit in a byte. */
  function AsciiBytes(s: string): (r: seq<uint8>)
    requires forall i :: 0 <= i < |s| ==> s[i] as int < 0x100
    ensures |r| == |s|
    ensures forall i :: 0 <= i < |s| ==> r[i] == s[i] as int
  {
    if s == [] then [] else [s[0] as int] + AsciiBytes(s[1..])
  }

  function Zeros(n: nat): (r: seq<uint8>)
    ensures |r| == n && forall i :: 0 <= i < n ==> r[i] == 0
  {
    seq(n, _ => 0)
  }

  // ---------------------------------------------------------------------
  // External collaborators

  /**
   * A call into the secure-proxy or TI-SCI driver: its arguments, the code
   * it returned and, for get-DKEK, the buffer it was handed (`buf`), what
   * that buffer held on entry (`given`) and what it held on return
   * (`written`).
   */
  datatype ExternalCall =
    | CallSecProxyInit(ret: int32)
    | CallTiSciInit(ret: int32)
    | CallTiSciGetDkek(instance: uint8, arg1: string, arg2: string, buf: array<uint8>,
                       given: seq<uint8>, ret: int32, written: seq<uint8>)

  /**
   * The secure-proxy transport and the TI-SCI driver, seen from main.c.
   * `log` records every call made so far and what it did. Callers rely only
   * on the contracts, which leave each code and the bytes get-DKEK writes
   * unconstrained; the bodies answer from fixed outcomes, one possible
   * firmware.
   */
  class Firmware {
    var log: seq<ExternalCall>
    const proxyInitRet: int32
    const sciInitRet: int32
    const getDkekRet: int32
    const derivedKey: seq<uint8>

    constructor (proxyInitRet: int32, sciInitRet: int32, getDkekRet: int32, derivedKey: seq<uint8>)
      ensures log == []
      ensures this.proxyInitRet == proxyInitRet && this.sciInitRet == sciInitRet
      ensures this.getDkekRet == getDkekRet && this.derivedKey == derivedKey
    {
      this.proxyInitRet := proxyInitRet;
      this.sciInitRet := sciInitRet;
      this.getDkekRet := getDkekRet;
      this.derivedKey := derivedKey;
      log := [];
    }

    /** k3_sec_proxy_init() */
    method SecProxyInit() returns (ret: int32)
      modifies this
      ensures log == old(log) + [CallSecProxyInit(ret)]
    {
      ret := proxyInitRet;
      log := log + [CallSecProxyInit(ret)];
    }

    /** ti_sci_init() */
    method TiSciInit() returns (ret: int32)
      modifies this
      ensures log == old(log) + [CallTiSciInit(ret)]
    {
      ret := sciInitRet;
      log := log + [CallTiSciInit(ret)];
    }

    /** ti_sci_get_dkek(instance, arg1, arg2, dkek): may write dkek. */
    method TiSciGetDkek(instance: uint8, arg1: string, arg2: string, dkek: array<uint8>)
      returns (ret: int32)
      requires dkek.Length == SA2UL_DKEK_KEY_LEN
      modifies this, dkek
      ensures log == old(log) + [CallTiSciGetDkek(instance, arg1, arg2, dkek, old(dkek[..]), ret, dkek[..])]
    {
      var given := dkek[..];
      ret := getDkekRet;
      if ret == 0 && |derivedKey| == dkek.Length {
        forall i | 0 <= i < dkek.Length {
          dkek[i] := derivedKey[i];
        }
      }
      log := log + [CallTiSciGetDkek(instance, arg1, arg2, dkek, given, ret, dkek[..])];
    }
  }

  // ---------------------------------------------------------------------
  // memcpy and memzero_explicit

  /** memcpy(dst, src, n) over distinct buffers. */
  method MemCpy(dst: array<uint8>, src: array<uint8>, n: nat)
    requires n <= dst.Length && n <= src.Length && dst != src
    modifies dst
    ensures dst[..n] == src[..n] && dst[n..] == old(dst[n..])
  {
    var i := 0;
    while i < n
      invariant 0 <= i <= n
      invariant dst[..i] == src[..i] && dst[i..] == old(dst[i..])
    {
      dst[i] := src[i];
      i := i + 1;
    }
  }

  /** memzero_explicit(buf, size of buf) */
  method MemzeroExplicit(buf: array<uint8>)
    modifies buf
    ensures buf[..] == Zeros(buf.Length)
  {
    var i := 0;
    while i < buf.Length
      invariant 0 <= i <= buf.Length
      invariant buf[..i] == Zeros(i)
    {
      buf[i] := 0;
      i := i + 1;
    }
  }

  // ---------------------------------------------------------------------
  // tee_otp_get_hw_unique_key

  /**
   * The calls the routine makes, given its staging buffer, the codes the
   * calls return and what get-DKEK writes: a call is made only when the one
   * before it returned 0, and get-DKEK is handed the zeroed staging buffer.
   */
  function HukCalls(staging: array<uint8>, proxyRet: int32, sciRet: int32, dkekRet: int32, written: seq<uint8>): seq<ExternalCall>
  {
    if proxyRet != 0 then [CallSecProxyInit(proxyRet)]
    else if sciRet != 0 then [CallSecProxyInit(0), CallTiSciInit(sciRet)]
    else [CallSecProxyInit(0), CallTiSciInit(0),
          CallTiSciGetDkek(0, HUK_DKEK_ARG1, HUK_DKEK_ARG2, staging, Zeros(SA2UL_DKEK_KEY_LEN), dkekRet, written)]
  }

  predicate HukSucceeded(proxyRet: int32, sciRet: int32, dkekRet: int32)
  {
    proxyRet == 0 && sciRet == 0 && dkekRet == 0
  }

  /** The code returned: that of the first call that failed, else TEE_SUCCESS. */
  function HukResult(proxyRet: int32, sciRet: int32, dkekRet: int32): TeeResult
  {
    ToTeeResult(if proxyRet != 0 then proxyRet else if sciRet != 0 then sciRet else dkekRet)
  }

  /** The key slot afterwards: the first bytes of the DKEK on success, else untouched. */
  function HwKeyAfter(proxyRet: int32, sciRet: int32, dkekRet: int32, before: seq<uint8>, written: seq<uint8>): seq<uint8>
    requires |written| >= HW_UNIQUE_KEY_LENGTH
  {
    if HukSucceeded(proxyRet, sciRet, dkekRet) then written[..HW_UNIQUE_KEY_LENGTH] else before
  }

  /**
   * The staging buffer afterwards: wiped on success, all zeros when get-DKEK
   * was not called, and what get-DKEK left in it when get-DKEK failed.
   */
  function StagingAfter(proxyRet: int32, sciRet: int32, dkekRet: int32, written: seq<uint8>): seq<uint8>
  {
    if proxyRet != 0 || sciRet != 0 || dkekRet == 0 then Zeros(SA2UL_DKEK_KEY_LEN) else written
  }

  /**
   * tee_otp_get_hw_unique_key(hwkey). The ghost results name what C keeps
   * local: the staging buffer `dkek`, the codes of the calls made (0 for a
   * call not made) and `written`, the staging buffer's contents right after
   * get-DKEK (all zeros when it is not called). The log ties every one of
   * them to what the calls returned and wrote.
   */
  method TeeOtpGetHwUniqueKey(fw: Firmware, hwkey: array<uint8>)
    returns (res: TeeResult, ghost dkek: array<uint8>,
             ghost proxyRet: int32, ghost sciRet: int32, ghost dkekRet: int32,
             ghost written: seq<uint8>)
    requires hwkey.Length == HW_UNIQUE_KEY_LENGTH
    modifies fw, hwkey
    ensures fresh(dkek) && dkek.Length == SA2UL_DKEK_KEY_LEN
    ensures |written| == SA2UL_DKEK_KEY_LEN
    ensures fw.log == old(fw.log) + HukCalls(dkek, proxyRet, sciRet, dkekRet, written)
    ensures res == HukResult(proxyRet, sciRet, dkekRet)
    ensures hwkey[..] == HwKeyAfter(proxyRet, sciRet, dkekRet, old(hwkey[..]), written)
    ensures dkek[..] == StagingAfter(proxyRet, sciRet, dkekRet, written)
    // The same, read off the calls logged by this run alone:
    ensures var made := fw.log[|old(fw.log)|..];
      && 1 <= |made| <= 3
      && res == ToTeeResult(made[|made| - 1].ret)
      && (res == TEE_SUCCESS <==> |made| == 3 && forall i :: 0 <= i < |made| ==> made[i].ret == 0)
      && (res != TEE_SUCCESS ==> hwkey[..] == old(hwkey[..]))
      && (|made| == 3 ==>
            && made[2].CallTiSciGetDkek? && made[2].buf == dkek
            && made[2].given == Zeros(SA2UL_DKEK_KEY_LEN)
            && dkek[..] == (if res == TEE_SUCCESS then Zeros(SA2UL_DKEK_KEY_LEN) else made[2].written))
  {
    var buf := new uint8[SA2UL_DKEK_KEY_LEN](_ => 0);
    dkek := buf;
    written := buf[..];
    proxyRet, sciRet, dkekRet := 0, 0, 0;
    DkekCoversHwKey();
    ghost var before := fw.log;

    var ret := fw.SecProxyInit();
    proxyRet := ret;
    if ret != 0 {
      res := ToTeeResult(ret);
    } else {
      ret := fw.TiSciInit();
      sciRet := ret;
      if ret != 0 {
        res := ToTeeResult(ret);
      } else {
        assert buf[..] == Zeros(SA2UL_DKEK_KEY_LEN);
        ret := fw.TiSciGetDkek(0, HUK_DKEK_ARG1, HUK_DKEK_ARG2, buf);
        dkekRet := ret;
        written := buf[..];
        if ret != 0 {
          res := ToTeeResult(ret);
        } else {
          MemCpy(hwkey, buf, hwkey.Length);
          MemzeroExplicit(buf);
          res := TEE_SUCCESS;
        }
      }
    }
    assert fw.log[|before|..] == HukCalls(dkek, proxyRet, sciRet, dkekRet, written);
    HukSucceedsIffAllCallsSucceed(dkek, proxyRet, sciRet, dkekRet, written);
    HwKeyAllOrNothing(dkek, proxyRet, sciRet, dkekRet, old(hwkey[..]), written);
    StagingResidueOnlyAfterDkekFailure(dkek, proxyRet, sciRet, dkekRet, written);
  }

  // ---------------------------------------------------------------------
  // Properties of tee_otp_get_hw_unique_key

  /** The DKEK is long enough for the key slot, so the copy stays in bounds. */
  lemma DkekCoversHwKey()
    ensures SA2UL_DKEK_KEY_LEN >= HW_UNIQUE_KEY_LENGTH
  {
  }

  /**
   * The code returned is that of the last call made, and it is TEE_SUCCESS
   * exactly when all three calls were made and all three returned 0.
   */
  lemma HukSucceedsIffAllCallsSucceed(staging: array<uint8>, proxyRet: int32, sciRet: int32, dkekRet: int32, written: seq<uint8>)
    ensures var calls := HukCalls(staging, proxyRet, sciRet, dkekRet, written);
      && 1 <= |calls| <= 3
      && HukResult(proxyRet, sciRet, dkekRet) == ToTeeResult(calls[|calls| - 1].ret)
      && (HukResult(proxyRet, sciRet, dkekRet) == TEE_SUCCESS
          <==> |calls| == 3 && forall i :: 0 <= i < |calls| ==> calls[i].ret == 0)
  {
  }

  /**
   * The calls are made in order and stop at the first failure: TI-SCI init
   * only after secure-proxy init returned 0, get-DKEK only after both did,
   * and get-DKEK asks for instance 0 with "OP-TEE" and "DKEK".
   */
  lemma HukCallsOrdered(staging: array<uint8>, proxyRet: int32, sciRet: int32, dkekRet: int32, written: seq<uint8>)
    ensures var calls := HukCalls(staging, proxyRet, sciRet, dkekRet, written);
      && 1 <= |calls| <= 3
      && calls[0].CallSecProxyInit?
      && (|calls| >= 2 ==> calls[1].CallTiSciInit?)
      && (|calls| == 3 ==>
            (calls[2].CallTiSciGetDkek? && calls[2].instance == 0
             && calls[2].arg1 == HUK_DKEK_ARG1 && calls[2].arg2 == HUK_DKEK_ARG2
             && calls[2].buf == staging && calls[2].given == Zeros(SA2UL_DKEK_KEY_LEN)))
      && (forall i :: 0 <= i < |calls| - 1 ==> calls[i].ret == 0)
      && (|calls| < 3 ==> calls[|calls| - 1].ret != 0)
  {
  }

  /**
   * The key slot is untouched unless the routine succeeds, and then holds
   * exactly the first HW_UNIQUE_KEY_LENGTH bytes get-DKEK wrote.
   */
  lemma HwKeyAllOrNothing(staging: array<uint8>, proxyRet: int32, sciRet: int32, dkekRet: int32, before: seq<uint8>, written: seq<uint8>)
    requires |written| == SA2UL_DKEK_KEY_LEN
    ensures var after := HwKeyAfter(proxyRet, sciRet, dkekRet, before, written);
      var calls := HukCalls(staging, proxyRet, sciRet, dkekRet, written);
      && (HukResult(proxyRet, sciRet, dkekRet) != TEE_SUCCESS ==> after == before)
      && (HukResult(proxyRet, sciRet, dkekRet) == TEE_SUCCESS ==>
            (|calls| == 3 && calls[2].CallTiSciGetDkek? && |after| == HW_UNIQUE_KEY_LENGTH
             && forall i :: 0 <= i < HW_UNIQUE_KEY_LENGTH ==> after[i] == calls[2].written[i]))
  {
  }

  /**
   * What is left in the staging buffer, the one handed to get-DKEK: it is
   * wiped after success and zero when get-DKEK was not called; after a
   * failed get-DKEK it keeps exactly what get-DKEK wrote, so key material
   * can remain only on that path.
   */
  lemma StagingResidueOnlyAfterDkekFailure(staging: array<uint8>, proxyRet: int32, sciRet: int32, dkekRet: int32, written: seq<uint8>)
    ensures var after := StagingAfter(proxyRet, sciRet, dkekRet, written);
      var calls := HukCalls(staging, proxyRet, sciRet, dkekRet, written);
      && (HukResult(proxyRet, sciRet, dkekRet) == TEE_SUCCESS ==> after == Zeros(SA2UL_DKEK_KEY_LEN))
      && (|calls| < 3 ==> after == Zeros(SA2UL_DKEK_KEY_LEN))
      && (|calls| == 3 ==> calls[2].CallTiSciGetDkek? && calls[2].buf == staging)
      && (|calls| == 3 && calls[2].ret != 0 ==> after == calls[2].written)
      && (after != Zeros(SA2UL_DKEK_KEY_LEN) ==> |calls| == 3 && calls[2].ret != 0)
  {
  }

  /**
   * get-DKEK is asked for instance 0 with "OP-TEE" and "DKEK", 10 bytes
   * together: a well-formed DKEK request carries them whichever of the two
   * is the label.
   */
  lemma HukDkekRequestWellFormed()
    ensures |HUK_DKEK_ARG1| + |HUK_DKEK_ARG2| == 10 <= KDF_LABEL_AND_CONTEXT_LEN_MAX
    ensures exists m :: Carries(m, 0, AsciiBytes(HUK_DKEK_ARG1), AsciiBytes(HUK_DKEK_ARG2))
    ensures exists m :: Carries(m, 0, AsciiBytes(HUK_DKEK_ARG2), AsciiBytes(HUK_DKEK_ARG1))
  {
    CarriableIff(0, AsciiBytes(HUK_DKEK_ARG1), AsciiBytes(HUK_DKEK_ARG2));
    CarriableIff(0, AsciiBytes(HUK_DKEK_ARG2), AsciiBytes(HUK_DKEK_ARG1));
  }
}
