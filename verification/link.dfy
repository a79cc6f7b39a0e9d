/**
 The fixed-layout decoder of the kernel's 32-bit link statistics block
 (`struct rtnl_link_stats`, 24 `u32` counters), as `LinkStats::<u32>::from_bytes`
 in src/reader/link.rs does it.

 Two behaviours of that function are modelled as written:
 - the length guard compares against 30 bytes (`LINK_MAP_LEN`) although the
   reads reach byte 96 (`LINK_STATS32_LEN`), so a 30..95 byte buffer passes the
   guard and then an out-of-range slice panics;
 - `rx_errors` is read from the slice 12..20, and a `u32` read takes the first
   four bytes of its slice, so `rx_errors` repeats `tx_bytes`.
 `FromBytes` is the function as written; `FromBytesChecked` is the evidently
 intended decoder (guard at 96 bytes, field i at bytes 4i..4i+4), which
 `ToBytes` inverts.
 */
module Link {
  import opened Types

  /** The byte order of the `u32` reads; the source uses the host's. */
  datatype Endian = Little | Big

  /** The guard constant, 8 * 3 + 2 + 2 * 2. */
  const LINK_MAP_LEN: nat := 30
  /** The size of the block the reads cover, 24 * 4. */
  const LINK_STATS32_LEN: nat := 96
  const FIELD_COUNT: nat := 24

  /** Declaration position of `rx_errors`, the field read from the wrong slice. */
  const RX_ERRORS: nat := 4

  datatype LinkStats = LinkStats(
    rxPackets: u32,
    txPackets: u32,
    rxBytes: u32,
    txBytes: u32,
    rxErrors: u32,
    txErrors: u32,
    rxDropped: u32,
    txDropped: u32,
    multicast: u32,
    collisions: u32,
    rxLengthErrors: u32,
    rxOverErrors: u32,
    rxCrcErrors: u32,
    rxFrameErrors: u32,
    rxFifoErrors: u32,
    rxMissedErrors: u32,
    txAbortedErrors: u32,
    txCarrierErrors: u32,
    txFifoErrors: u32,
    txHeartbeatErrors: u32,
    txWindowErrors: u32,
    rxCompressed: u32,
    txCompressed: u32,
    rxNohandler: u32)

  /** The counters in declaration order. */
  function Counters(s: LinkStats): (c: seq<u32>)
    ensures |c| == FIELD_COUNT
  {
    [s.rxPackets, s.txPackets, s.rxBytes, s.txBytes,
     s.rxErrors, s.txErrors, s.rxDropped, s.txDropped,
     s.multicast, s.collisions,
     s.rxLengthErrors, s.rxOverErrors, s.rxCrcErrors,
     s.rxFrameErrors, s.rxFifoErrors, s.rxMissedErrors,
     s.txAbortedErrors, s.txCarrierErrors, s.txFifoErrors,
     s.txHeartbeatErrors, s.txWindowErrors,
     s.rxCompressed, s.txCompressed,
     s.rxNohandler]
  }

  /** The record whose counters, in declaration order, are `c`. */
  function FromCounters(c: seq<u32>): (s: LinkStats)
    requires |c| == FIELD_COUNT
    ensures Counters(s) == c
  {
    LinkStats(c[0], c[1], c[2], c[3], c[4], c[5], c[6], c[7],
              c[8], c[9], c[10], c[11], c[12], c[13], c[14], c[15],
              c[16], c[17], c[18], c[19], c[20], c[21], c[22], c[23])
  }

  /** A record is determined by its counters. */
  lemma CountersDetermine(s: LinkStats)
    ensures FromCounters(Counters(s)) == s
  {
  }

  // ---------------------------------------------------------------------------
  // u32 reads and writes
  // ---------------------------------------------------------------------------

  /** The value of the bytes `w`, least significant first. */
  function LeValue(w: seq<byte>): nat
  {
    if |w| == 0 then 0 else w[0] as nat + 256 * LeValue(w[1..])
  }

  function Pow256(n: nat): nat
  {
    if n == 0 then 1 else 256 * Pow256(n - 1)
  }

  lemma {:induction false} LeValueBound(w: seq<byte>)
    ensures LeValue(w) < Pow256(|w|)
  {
    if |w| > 0 {
      LeValueBound(w[1..]);
    }
  }

  /** The four bytes a `u32` read uses, least significant first. */
  function LeastFirst(e: Endian, b: seq<byte>): (w: seq<byte>)
    requires |b| >= 4
    ensures |w| == 4
  {
    match e
    case Little => [b[0], b[1], b[2], b[3]]
    case Big => [b[3], b[2], b[1], b[0]]
  }

  /** A `u32` read: it needs at least four bytes and uses only the first four. */
  function ReadU32(e: Endian, b: seq<byte>): (x: u32)
    requires |b| >= 4
  {
    var w := LeastFirst(e, b);
    LeValueBound(w);
    assert Pow256(4) == U32_LIMIT;
    LeValue(w) as u32
  }

  /** The four bytes of `x` in the order `e`. */
  function WriteU32(e: Endian, x: u32): (b: seq<byte>)
    ensures |b| == 4
    ensures ReadU32(e, b) == x
  {
    var n := x as int;
    var q1 := n / 256;
    var q2 := q1 / 256;
    var q3 := q2 / 256;
    var w: seq<byte> := [(n % 256) as byte, (q1 % 256) as byte, (q2 % 256) as byte, q3 as byte];
    assert LeValue(w[3..]) == q3 by {
      assert w[3..][1..] == [];
    }
    assert LeValue(w[2..]) == q2 by {
      assert w[2..][1..] == w[3..];
    }
    assert LeValue(w[1..]) == q1 by {
      assert w[1..][1..] == w[2..];
    }
    assert LeValue(w) == n;
    var b := match e
      case Little => w
      case Big => [w[3], w[2], w[1], w[0]];
    assert LeastFirst(e, b) == w;
    b
  }

  /** A read depends only on the first four bytes of its slice. */
  lemma ReadU32Prefix(e: Endian, a: seq<byte>, b: seq<byte>)
    requires |a| >= 4 && |b| >= 4
    requires a[..4] == b[..4]
    ensures ReadU32(e, a) == ReadU32(e, b)
  {
    assert a[0] == a[..4][0] && a[1] == a[..4][1] && a[2] == a[..4][2] && a[3] == a[..4][3];
    assert b[0] == b[..4][0] && b[1] == b[..4][1] && b[2] == b[..4][2] && b[3] == b[..4][3];
    assert LeastFirst(e, a) == LeastFirst(e, b);
  }

  // ---------------------------------------------------------------------------
  // The decoder as written
  // ---------------------------------------------------------------------------

  /** Start of the slice field `i` is read from: 4i, except `rx_errors` at 12. */
  function SliceStart(i: nat): nat
  {
    if i == RX_ERRORS then 12 else 4 * i
  }

  /** End of the slice field `i` is read from; always 4i + 4. */
  function SliceEnd(i: nat): nat
  {
    4 * i + 4
  }

  /** What a call of the decoder does: return a `Result`, or panic on the first
      slice (in field order) that ends beyond the buffer. */
  datatype Outcome = Returned(result: Result<LinkStats>) | Panicked(sliceEnd: nat)

  /** The first field, from `i` on, whose slice ends beyond `len`. */
  function FirstOverrun(len: nat, i: nat): (r: Option<nat>)
    requires i <= FIELD_COUNT
    ensures r.Some? ==> i <= r.value < FIELD_COUNT && SliceEnd(r.value) > len
    ensures r.Some? ==> forall j :: i <= j < r.value ==> SliceEnd(j) <= len
    ensures r.None? ==> forall j :: i <= j < FIELD_COUNT ==> SliceEnd(j) <= len
    decreases FIELD_COUNT - i
  {
    if i == FIELD_COUNT then None
    else if SliceEnd(i) > len then Some(i)
    else FirstOverrun(len, i + 1)
  }

  /** The 24 reads of the struct literal, in field order, on a buffer long
      enough for all of them. */
  function ReadFields(e: Endian, buf: seq<byte>): (c: seq<u32>)
    requires |buf| >= LINK_STATS32_LEN
    ensures |c| == FIELD_COUNT
    ensures c[RX_ERRORS] == c[3]
  {
    seq(FIELD_COUNT, i requires 0 <= i < FIELD_COUNT => ReadU32(e, buf[SliceStart(i)..SliceEnd(i)]))
  }

  /** Every field but `rx_errors` comes from its own four bytes; `rx_errors`
      comes from the bytes of `tx_bytes`. */
  lemma ReadFieldsOffsets(e: Endian, buf: seq<byte>)
    requires |buf| >= LINK_STATS32_LEN
    ensures forall i :: 0 <= i < FIELD_COUNT && i != RX_ERRORS ==>
              ReadFields(e, buf)[i] == ReadU32(e, buf[4 * i .. 4 * i + 4])
    ensures ReadFields(e, buf)[RX_ERRORS] == ReadU32(e, buf[12..16])
  {
    ReadU32Prefix(e, buf[12..20], buf[12..16]);
  }

  /** `LinkStats::<u32>::from_bytes` as written. */
  function FromBytes(e: Endian, buf: seq<byte>): (r: Outcome)
    ensures |buf| < LINK_MAP_LEN <==> r == Returned(Err(LinkStatsError(LINK_STATS32_LEN, |buf|)))
    ensures LINK_MAP_LEN <= |buf| < LINK_STATS32_LEN <==> r.Panicked?
    ensures r.Panicked? ==> |buf| < r.sliceEnd <= |buf| + 4 && r.sliceEnd % 4 == 0
    ensures |buf| >= LINK_STATS32_LEN <==> r.Returned? && r.result.Ok?
  {
    if |buf| < LINK_MAP_LEN then
      Returned(Err(LinkStatsError(LINK_STATS32_LEN, |buf|)))
    else
      match FirstOverrun(|buf|, 0)
      case Some(i) =>
        assert i > 0 ==> SliceEnd(i - 1) <= |buf|;
        Panicked(SliceEnd(i))
      case None =>
        assert SliceEnd(FIELD_COUNT - 1) <= |buf|;
        Returned(Ok(FromCounters(ReadFields(e, buf))))
  }

  /** On success, field i (in declaration order) holds bytes 4i..4i+4, for
      every field but `rx_errors`. */
  lemma FromBytesFields(e: Endian, buf: seq<byte>)
    requires |buf| >= LINK_STATS32_LEN
    ensures FromBytes(e, buf).Returned? && FromBytes(e, buf).result.Ok?
    ensures var s := FromBytes(e, buf).result.value;
            forall i :: 0 <= i < FIELD_COUNT && i != RX_ERRORS ==>
              Counters(s)[i] == ReadU32(e, buf[4 * i .. 4 * i + 4])
  {
    var s := FromBytes(e, buf).result.value;
    ReadFieldsOffsets(e, buf);
    assert Counters(s) == ReadFields(e, buf);
  }

  /** On success, `rx_bytes` holds bytes 8..12 and `tx_bytes` bytes 12..16,
      and `rx_errors` repeats `tx_bytes`. */
  lemma FromBytesRxErrorsAlias(e: Endian, buf: seq<byte>)
    requires |buf| >= LINK_STATS32_LEN
    ensures FromBytes(e, buf).Returned? && FromBytes(e, buf).result.Ok?
    ensures var s := FromBytes(e, buf).result.value;
            && s.rxBytes == ReadU32(e, buf[8..12])
            && s.txBytes == ReadU32(e, buf[12..16])
            && s.rxErrors == s.txBytes
  {
    var s := FromBytes(e, buf).result.value;
    ReadFieldsOffsets(e, buf);
    assert Counters(s) == ReadFields(e, buf);
    assert s.rxBytes == Counters(s)[2] && s.txBytes == Counters(s)[3] && s.rxErrors == Counters(s)[4];
  }

  /** The slice that panics is the first one ending past the buffer: the next
      multiple of four above its length. */
  lemma {:induction false} FromBytesPanicEnd(e: Endian, buf: seq<byte>)
    requires LINK_MAP_LEN <= |buf| < LINK_STATS32_LEN
    ensures FromBytes(e, buf) == Panicked((|buf| / 4 + 1) * 4)
  {
    var len := |buf|;
    var k := len / 4;
    var r := FirstOverrun(len, 0);
    assert k < FIELD_COUNT && SliceEnd(k) > len;
    assert r.Some?;
    var i := r.value;
    if i < k {
      assert false;
    } else if i > k {
      assert false;
    }
  }

  /** Bytes 16..20 never influence the decoder: `rx_errors` re-reads 12..16. */
  lemma {:induction false} FromBytesIgnoresRxErrorsBytes(e: Endian, a: seq<byte>, b: seq<byte>)
    requires |a| == |b|
    requires forall k :: 0 <= k < |a| && !(16 <= k < 20) ==> a[k] == b[k]
    ensures FromBytes(e, a) == FromBytes(e, b)
  {
    if |a| >= LINK_STATS32_LEN {
      ReadFieldsOffsets(e, a);
      ReadFieldsOffsets(e, b);
      forall i | 0 <= i < FIELD_COUNT
        ensures ReadFields(e, a)[i] == ReadFields(e, b)[i]
      {
        if i == RX_ERRORS {
          assert a[12..16] == b[12..16];
        } else {
          assert a[4 * i .. 4 * i + 4] == b[4 * i .. 4 * i + 4];
        }
      }
      assert ReadFields(e, a) == ReadFields(e, b);
    }
  }

  lemma SliceOfPrefix(s: seq<byte>, n: nat, lo: nat, hi: nat)
    requires lo <= hi <= n <= |s|
    ensures s[lo..hi] == s[..n][lo..hi]
  {
  }

  /** Bytes from offset 96 on never influence the decoder. */
  lemma {:induction false} FromBytesIgnoresTrailing(e: Endian, buf: seq<byte>)
    requires |buf| >= LINK_STATS32_LEN
    ensures FromBytes(e, buf) == FromBytes(e, buf[..LINK_STATS32_LEN])
  {
    var head := buf[..LINK_STATS32_LEN];
    forall i | 0 <= i < FIELD_COUNT
      ensures ReadFields(e, buf)[i] == ReadFields(e, head)[i]
    {
      SliceOfPrefix(buf, LINK_STATS32_LEN, SliceStart(i), SliceEnd(i));
    }
    assert ReadFields(e, buf) == ReadFields(e, head);
  }

  // ---------------------------------------------------------------------------
  // The intended decoder and its inverse
  // ---------------------------------------------------------------------------

  /** The reads with field i at bytes 4i..4i+4. */
  function ReadFieldsChecked(e: Endian, buf: seq<byte>): (c: seq<u32>)
    requires |buf| >= LINK_STATS32_LEN
    ensures |c| == FIELD_COUNT
  {
    seq(FIELD_COUNT, i requires 0 <= i < FIELD_COUNT => ReadU32(e, buf[4 * i .. 4 * i + 4]))
  }

  /** The decoder with the guard at 96 bytes and field i read from 4i..4i+4. */
  function FromBytesChecked(e: Endian, buf: seq<byte>): (r: Result<LinkStats>)
    ensures r.Ok? <==> |buf| >= LINK_STATS32_LEN
    ensures r.Err? ==> r.error == LinkStatsError(LINK_STATS32_LEN, |buf|)
  {
    if |buf| < LINK_STATS32_LEN then
      Err(LinkStatsError(LINK_STATS32_LEN, |buf|))
    else
      Ok(FromCounters(ReadFieldsChecked(e, buf)))
  }

  /** The counters `c`, four bytes each in the order `e`, one after the other. */
  function EncodeCounters(e: Endian, c: seq<u32>): (b: seq<byte>)
    ensures |b| == 4 * |c|
  {
    if |c| == 0 then [] else WriteU32(e, c[0]) + EncodeCounters(e, c[1..])
  }

  lemma SliceAfterPrefix(w: seq<byte>, rest: seq<byte>, lo: nat, hi: nat)
    requires |w| <= lo <= hi <= |w| + |rest|
    ensures (w + rest)[lo..hi] == rest[lo - |w| .. hi - |w|]
  {
    forall k | 0 <= k < hi - lo
      ensures (w + rest)[lo..hi][k] == rest[lo - |w| .. hi - |w|][k]
    {
    }
  }

  /** Counter i occupies bytes 4i..4i+4 of the encoding. */
  lemma {:induction false} EncodeCountersField(e: Endian, c: seq<u32>, i: nat)
    requires i < |c|
    ensures EncodeCounters(e, c)[4 * i .. 4 * i + 4] == WriteU32(e, c[i])
  {
    var w := WriteU32(e, c[0]);
    var rest := EncodeCounters(e, c[1..]);
    assert EncodeCounters(e, c) == w + rest;
    if i == 0 {
      assert (w + rest)[0..4] == w;
    } else {
      EncodeCountersField(e, c[1..], i - 1);
      SliceAfterPrefix(w, rest, 4 * i, 4 * i + 4);
    }
  }

  /** The 96-byte block holding the counters of `s`. */
  function ToBytes(e: Endian, s: LinkStats): (b: seq<byte>)
    ensures |b| == LINK_STATS32_LEN
  {
    EncodeCounters(e, Counters(s))
  }

  /** The intended decoder inverts the encoding. */
  lemma {:induction false} FromBytesCheckedRoundTrip(e: Endian, s: LinkStats)
    ensures FromBytesChecked(e, ToBytes(e, s)) == Ok(s)
  {
    var b := ToBytes(e, s);
    var c := ReadFieldsChecked(e, b);
    forall i | 0 <= i < FIELD_COUNT
      ensures c[i] == Counters(s)[i]
    {
      EncodeCountersField(e, Counters(s), i);
    }
    assert c == Counters(s);
    CountersDetermine(s);
  }

  /** The reads as written are the intended reads with position 4 repeating
      position 3. */
  lemma ReadFieldsDiffer(e: Endian, buf: seq<byte>)
    requires |buf| >= LINK_STATS32_LEN
    ensures ReadFields(e, buf) == ReadFieldsChecked(e, buf)[RX_ERRORS := ReadFieldsChecked(e, buf)[3]]
  {
    ReadFieldsOffsets(e, buf);
  }

  lemma CopyTxBytes(t: LinkStats)
    ensures Counters(t.(rxErrors := t.txBytes)) == Counters(t)[RX_ERRORS := t.txBytes]
  {
  }

  /** On a full block the decoder as written is the intended one with
      `rx_errors` overwritten by `tx_bytes`. */
  lemma {:induction false} FromBytesAgreesExceptRxErrors(e: Endian, buf: seq<byte>)
    requires |buf| >= LINK_STATS32_LEN
    ensures var t := FromBytesChecked(e, buf).value;
            FromBytes(e, buf) == Returned(Ok(t.(rxErrors := t.txBytes)))
  {
    var d := ReadFieldsChecked(e, buf);
    var t := FromBytesChecked(e, buf).value;
    var u := t.(rxErrors := t.txBytes);
    ReadFieldsDiffer(e, buf);
    CopyTxBytes(t);
    assert Counters(t) == d;
    CountersDetermine(u);
  }

  /** Counterexample to the round trip for the decoder as written: a block
      whose `rx_errors` differs from its `tx_bytes` comes back changed. */
  lemma FromBytesRoundTripFails()
    ensures var s := FromCounters(seq(FIELD_COUNT, i requires 0 <= i < FIELD_COUNT => if i == RX_ERRORS then 1 else 0));
            FromBytes(Little, ToBytes(Little, s)) != Returned(Ok(s))
  {
    var s := FromCounters(seq(FIELD_COUNT, i requires 0 <= i < FIELD_COUNT => if i == RX_ERRORS then 1 else 0));
    var r := FromBytes(Little, ToBytes(Little, s));
    assert |ToBytes(Little, s)| == LINK_STATS32_LEN;
    if r == Returned(Ok(s)) {
      assert |ToBytes(Little, s)| >= LINK_STATS32_LEN;
      FromBytesRxErrorsAlias(Little, ToBytes(Little, s));
    }
    assert s.rxErrors == 1 && s.txBytes == 0;
  }

  /** Counterexample to the guard: 30 zero bytes pass it and then the read of
      `tx_dropped` (bytes 28..32) runs past the buffer. */
  lemma FromBytesGuardTooWeak()
    ensures FromBytes(Little, seq(LINK_MAP_LEN, _ => 0 as byte)) == Panicked(32)
  {
    FromBytesPanicEnd(Little, seq(LINK_MAP_LEN, _ => 0 as byte));
  }
}
