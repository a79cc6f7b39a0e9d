/**
 The `getifaddrs`-based reader of src/reader/in_libc.rs. The C list that
 `getifaddrs` returns is an input here: a `Result` holding, in list order, one
 `RawIfaddr` per entry with its pointers already dereferenced (`None` for a
 null pointer). `LibcReader::new` fixes the interface list from one such
 snapshot; `read` fills one slot per interface from another.
 */
module InLibc {
  import opened Types
  import opened Utils
  import Link
  import opened Reader

  /** Interface flag bits tested by `from_libc_ifaddrs` (the same values on
      Linux and the BSDs). */
  const IFF_BROADCAST: nat := 0x2
  const IFF_POINTOPOINT: nat := 0x10

  /** Bit `bit` (a power of two) is set in `flags`. */
  predicate HasFlag(flags: u32, bit: nat)
    requires bit > 0
  {
    (flags as int / bit) % 2 == 1
  }

  /** A socket address already converted from its `sockaddr`. */
  datatype SockAddr = SockAddr(family: nat, bytes: seq<byte>)

  /** Byte counters of one interface. */
  datatype IfData = IfData(ibytes: u32, obytes: u32)

  /** What `ifa_data` points to: on Linux the 96-byte `rtnl_link_stats`
      block, elsewhere the BSD `if_data` struct, of which only the two byte
      counters are kept. */
  datatype IfaData =
    | LinuxStats(block: seq<byte>)
    | BsdIfData(ibytes: u32, obytes: u32)

  /** One entry of the `getifaddrs` list. `ifu` is the broadcast or
      destination address (`ifa_ifu` / `ifa_dstaddr`). */
  datatype RawIfaddr = RawIfaddr(
    name: string,
    flags: u32,
    addr: Option<SockAddr>,
    netmask: Option<SockAddr>,
    ifu: Option<SockAddr>,
    data: Option<IfaData>)

  datatype InterfaceAddress = InterfaceAddress(
    interfaceName: string,
    flags: u32,
    address: Option<SockAddr>,
    netmask: Option<SockAddr>,
    broadcast: Option<SockAddr>,
    destination: Option<SockAddr>,
    data: Option<IfData>)

  /** The pointee of `ifa_data` has the size its platform's reader assumes. */
  predicate WellSized(p: Option<IfaData>)
  {
    p.Some? && p.value.LinuxStats? ==> |p.value.block| == Link.LINK_STATS32_LEN
  }

  /** `IfData::from_ifa_data`: nothing for a null pointer, otherwise the
      received and transmitted byte counters (on Linux `rx_bytes` at bytes
      8..12 and `tx_bytes` at bytes 12..16 of the block, in host order `e`). */
  function FromIfaData(e: Link.Endian, p: Option<IfaData>): (r: Option<IfData>)
    requires WellSized(p)
    ensures r.None? <==> p.None?
    ensures p.Some? && p.value.LinuxStats? ==>
              r == Some(IfData(Link.ReadU32(e, p.value.block[8..12]), Link.ReadU32(e, p.value.block[12..16])))
    ensures p.Some? && p.value.BsdIfData? ==> r == Some(IfData(p.value.ibytes, p.value.obytes))
  {
    match p
    case None => None
    case Some(LinuxStats(block)) =>
      var s := Link.FromBytesChecked(e, block).value;
      LinuxByteCounters(e, block);
      Some(IfData(s.rxBytes, s.txBytes))
    case Some(BsdIfData(i, o)) => Some(IfData(i, o))
  }

  lemma LinuxByteCounters(e: Link.Endian, block: seq<byte>)
    requires |block| == Link.LINK_STATS32_LEN
    ensures Link.FromBytesChecked(e, block).value.rxBytes == Link.ReadU32(e, block[8..12])
    ensures Link.FromBytesChecked(e, block).value.txBytes == Link.ReadU32(e, block[12..16])
  {
    var s := Link.FromBytesChecked(e, block).value;
    assert Link.Counters(s) == Link.ReadFieldsChecked(e, block);
    assert s.rxBytes == Link.Counters(s)[2] && s.txBytes == Link.Counters(s)[3];
  }

  /** `InterfaceAddress::from_libc_ifaddrs`: the broadcast/destination address
      is stored as the destination of a point-to-point interface, else as the
      broadcast address of a broadcast interface, else not at all. */
  function FromLibcIfaddrs(e: Link.Endian, raw: RawIfaddr): (a: InterfaceAddress)
    requires WellSized(raw.data)
    ensures !(a.destination.Some? && a.broadcast.Some?)
    ensures a.destination.Some? ==> HasFlag(raw.flags, IFF_POINTOPOINT)
    ensures a.broadcast.Some? ==> !HasFlag(raw.flags, IFF_POINTOPOINT) && HasFlag(raw.flags, IFF_BROADCAST)
    ensures HasFlag(raw.flags, IFF_POINTOPOINT) ==> a.destination == raw.ifu
    ensures !HasFlag(raw.flags, IFF_POINTOPOINT) && HasFlag(raw.flags, IFF_BROADCAST) ==> a.broadcast == raw.ifu
    ensures a.interfaceName == raw.name && a.flags == raw.flags
    ensures a.address == raw.addr && a.netmask == raw.netmask
    ensures a.data == FromIfaData(e, raw.data)
    ensures a.data.Some? <==> raw.data.Some?
  {
    var base := InterfaceAddress(raw.name, raw.flags, raw.addr, raw.netmask, None, None, FromIfaData(e, raw.data));
    if HasFlag(raw.flags, IFF_POINTOPOINT) then base.(destination := raw.ifu)
    else if HasFlag(raw.flags, IFF_BROADCAST) then base.(broadcast := raw.ifu)
    else base
  }

  predicate AllWellSized(raws: seq<RawIfaddr>)
  {
    forall k :: 0 <= k < |raws| ==> WellSized(raws[k].data)
  }

  /** Iterating the list `getifaddrs` returned, or its error. */
  function GetIfaddrs(e: Link.Endian, os: Result<seq<RawIfaddr>>): (r: Result<seq<InterfaceAddress>>)
    requires os.Ok? ==> AllWellSized(os.value)
    ensures r.Err? <==> os.Err?
    ensures r.Err? ==> r.error == os.error
    ensures r.Ok? ==> |r.value| == |os.value|
    ensures r.Ok? ==> forall k :: 0 <= k < |r.value| ==> r.value[k] == FromLibcIfaddrs(e, os.value[k])
  {
    match os
    case Err(err) => Err(err)
    case Ok(raws) => Ok(seq(|raws|, k requires 0 <= k < |raws| => FromLibcIfaddrs(e, raws[k])))
  }

  // ---------------------------------------------------------------------------
  // LibcReader::new
  // ---------------------------------------------------------------------------

  datatype LibcReader = LibcReader(info: seq<InterfaceInfoItem>)

  /** The number of addresses that carry data. */
  function WithData(addrs: seq<InterfaceAddress>): (n: nat)
    ensures n <= |addrs|
  {
    if |addrs| == 0 then 0
    else WithData(addrs[1..]) + (if addrs[0].data.Some? then 1 else 0)
  }

  lemma {:induction false} WithDataSnoc(addrs: seq<InterfaceAddress>, a: InterfaceAddress)
    ensures WithData(addrs + [a]) == WithData(addrs) + (if a.data.Some? then 1 else 0)
  {
    if |addrs| > 0 {
      assert (addrs + [a])[1..] == addrs[1..] + [a];
      WithDataSnoc(addrs[1..], a);
    }
  }

  /** The names of the addresses that carry data, in list order: one entry
      per such address. */
  function InfoOf(addrs: seq<InterfaceAddress>): (info: seq<InterfaceInfoItem>)
    ensures |info| == WithData(addrs)
  {
    if |addrs| == 0 then []
    else
      var n := |addrs| - 1;
      var last := addrs[n];
      WithDataSnoc(addrs[..n], last);
      assert addrs[..n] + [last] == addrs;
      InfoOf(addrs[..n]) + (if last.data.Some? then [InterfaceInfoItem(last.interfaceName)] else [])
  }

  /** `LibcReader::new`. */
  function New(e: Link.Endian, os: Result<seq<RawIfaddr>>): (r: Result<LibcReader>)
    requires os.Ok? ==> AllWellSized(os.value)
    ensures r.Err? <==> os.Err?
    ensures r.Err? ==> r.error == os.error
    ensures r.Ok? ==> |r.value.info| <= |os.value|
    ensures r.Ok? ==> |r.value.info| == WithData(GetIfaddrs(e, os).value)
  {
    match GetIfaddrs(e, os)
    case Err(err) => Err(err)
    case Ok(addrs) => Ok(LibcReader(InfoOf(addrs)))
  }

  /** The list of a prefix is a prefix of the list. */
  lemma {:induction false} InfoOfPrefix(addrs: seq<InterfaceAddress>, k: nat)
    requires k <= |addrs|
    ensures InfoOf(addrs[..k]) <= InfoOf(addrs)
    decreases |addrs| - k
  {
    if k < |addrs| {
      var n := |addrs| - 1;
      InfoOfPrefix(addrs[..n], k);
      assert addrs[..n][..k] == addrs[..k];
    } else {
      assert addrs[..k] == addrs;
    }
  }

  /** Every address with data contributes its name, at the position given by
      the number of addresses with data before it. */
  lemma {:induction false} NewKeepsAddressesWithData(addrs: seq<InterfaceAddress>, k: nat)
    requires k < |addrs| && addrs[k].data.Some?
    ensures |InfoOf(addrs[..k])| < |InfoOf(addrs)|
    ensures InfoOf(addrs)[|InfoOf(addrs[..k])|] == InterfaceInfoItem(addrs[k].interfaceName)
  {
    InfoOfPrefix(addrs, k + 1);
    assert addrs[..k + 1][..k] == addrs[..k];
  }

  /** Every entry of the list comes from an address with data: entry `i` is
      the name of the address with data that has exactly `i` addresses with
      data before it. With `NewKeepsAddressesWithData` this pairs entries and
      addresses with data one to one, so an address without data adds no
      entry even when its name is already listed. */
  lemma {:induction false} NewOnlyAddressesWithData(addrs: seq<InterfaceAddress>, i: nat)
    requires i < |InfoOf(addrs)|
    ensures exists k :: 0 <= k < |addrs| && addrs[k].data.Some? && |InfoOf(addrs[..k])| == i
                        && addrs[k].interfaceName == InfoOf(addrs)[i].name
  {
    var n := |addrs| - 1;
    var front := InfoOf(addrs[..n]);
    if i < |front| {
      NewOnlyAddressesWithData(addrs[..n], i);
      var k :| 0 <= k < n && addrs[..n][k].data.Some? && |InfoOf(addrs[..n][..k])| == i
               && addrs[..n][k].interfaceName == front[i].name;
      assert addrs[..n][..k] == addrs[..k];
      assert addrs[k] == addrs[..n][k];
    } else {
      assert addrs[n].data.Some? && |InfoOf(addrs[..n])| == i && addrs[n].interfaceName == InfoOf(addrs)[i].name;
    }
  }

  // ---------------------------------------------------------------------------
  // LibcReader::read
  // ---------------------------------------------------------------------------

  /** The counters stored for an interface: both `u32` values widened. */
  function StatOf(d: IfData): (s: InterfaceStat)
    ensures s.rx.value as int == d.ibytes as int && s.tx.value as int == d.obytes as int
    ensures s.rx.value as int < U32_LIMIT && s.tx.value as int < U32_LIMIT
  {
    InterfaceStat(NumBytes(d.ibytes as int as u64), NumBytes(d.obytes as int as u64))
  }

  /** Address `a` has data and its name is found at position `i`. */
  predicate Writes(info: seq<InterfaceInfoItem>, a: InterfaceAddress, i: nat)
  {
    a.data.Some? && Index(info, a.interfaceName) == Some(i)
  }

  /** One step of the loop of `read`. */
  function Store(info: seq<InterfaceInfoItem>, stats: InterfaceStats, a: InterfaceAddress): (r: InterfaceStats)
    requires |stats| == |info|
    ensures |r| == |info|
    ensures a.data.Some? && Index(info, a.interfaceName).Some? ==>
              r[Index(info, a.interfaceName).value] == Some(StatOf(a.data.value))
    ensures forall j :: 0 <= j < |info| && (a.data.None? || Index(info, a.interfaceName) != Some(j)) ==> r[j] == stats[j]
    ensures a.data.None? ==> r == stats
  {
    match a.data
    case None => stats
    case Some(d) =>
      match Index(info, a.interfaceName)
      case None => stats
      case Some(i) => stats[i := Some(StatOf(d))]
  }

  /** The slots after the loop of `read` has run over `addrs`. */
  function ReadStats(info: seq<InterfaceInfoItem>, addrs: seq<InterfaceAddress>): (r: InterfaceStats)
    ensures |r| == |info|
    ensures forall i :: 0 <= i < |r| && r[i].Some? ==>
              r[i].value.rx.value as int < U32_LIMIT && r[i].value.tx.value as int < U32_LIMIT
  {
    if |addrs| == 0 then seq(|info|, _ => None)
    else Store(info, ReadStats(info, addrs[..|addrs| - 1]), addrs[|addrs| - 1])
  }

  /** `LibcReader::read`. */
  function Read(e: Link.Endian, reader: LibcReader, os: Result<seq<RawIfaddr>>): (r: Result<InterfaceStats>)
    requires os.Ok? ==> AllWellSized(os.value)
    ensures r.Err? <==> os.Err?
    ensures r.Err? ==> r.error == os.error
    ensures r.Ok? ==> |r.value| == |reader.info|
  {
    match GetIfaddrs(e, os)
    case Err(err) => Err(err)
    case Ok(addrs) => Ok(ReadStats(reader.info, addrs))
  }

  /** The last address of `addrs` that writes slot `i`. */
  function LastWriter(info: seq<InterfaceInfoItem>, addrs: seq<InterfaceAddress>, i: nat): (r: Option<nat>)
    ensures r.Some? ==> r.value < |addrs| && Writes(info, addrs[r.value], i)
    ensures r.Some? ==> forall k :: r.value < k < |addrs| ==> !Writes(info, addrs[k], i)
    ensures r.None? ==> forall k :: 0 <= k < |addrs| ==> !Writes(info, addrs[k], i)
  {
    if |addrs| == 0 then None
    else if Writes(info, addrs[|addrs| - 1], i) then Some(|addrs| - 1)
    else LastWriter(info, addrs[..|addrs| - 1], i)
  }

  /** Slot `i` holds the counters of the last address that writes it, and is
      `None` when no address does. */
  lemma {:induction false} ReadStatsSlot(info: seq<InterfaceInfoItem>, addrs: seq<InterfaceAddress>, i: nat)
    requires i < |info|
    ensures ReadStats(info, addrs)[i] ==
              match LastWriter(info, addrs, i)
              case None => None
              case Some(k) => Some(StatOf(addrs[k].data.value))
  {
    if |addrs| > 0 {
      var n := |addrs| - 1;
      ReadStatsSlot(info, addrs[..n], i);
      if !Writes(info, addrs[n], i) {
        var w := LastWriter(info, addrs[..n], i);
        if w.Some? {
          assert addrs[..n][w.value] == addrs[w.value];
        }
      }
    }
  }

  /** A slot is filled exactly when some address with data has a name found
      at that slot. */
  lemma ReadSlotFilled(info: seq<InterfaceInfoItem>, addrs: seq<InterfaceAddress>, i: nat)
    requires i < |info|
    ensures ReadStats(info, addrs)[i].Some? <==>
              exists k :: 0 <= k < |addrs| && addrs[k].data.Some? && Index(info, addrs[k].interfaceName) == Some(i)
  {
    ReadStatsSlot(info, addrs, i);
    var w := LastWriter(info, addrs, i);
    if w.Some? {
      assert Writes(info, addrs[w.value], i);
    }
  }

  /** An address without data, or whose name is not in the list, changes no
      slot: dropping it from the snapshot gives the same result. */
  lemma ReadIgnoresAddress(info: seq<InterfaceInfoItem>, addrs: seq<InterfaceAddress>, k: nat)
    requires k < |addrs|
    requires addrs[k].data.None? || Index(info, addrs[k].interfaceName).None?
    ensures ReadStats(info, addrs[..k] + addrs[k + 1..]) == ReadStats(info, addrs)
  {
    var rest := addrs[..k] + addrs[k + 1..];
    forall i | 0 <= i < |info|
      ensures ReadStats(info, rest)[i] == ReadStats(info, addrs)[i]
    {
      ReadStatsSlot(info, addrs, i);
      ReadStatsSlot(info, rest, i);
      LastWriterSkip(info, addrs, k, i);
    }
  }

  /** Dropping an address that writes nothing maps the last writer of each
      slot to the same address. */
  lemma {:induction false} LastWriterSkip(info: seq<InterfaceInfoItem>, addrs: seq<InterfaceAddress>, k: nat, i: nat)
    requires k < |addrs| && !Writes(info, addrs[k], i)
    ensures var rest := addrs[..k] + addrs[k + 1..];
            var a := LastWriter(info, addrs, i);
            var b := LastWriter(info, rest, i);
            a.Some? == b.Some? && (a.Some? ==> addrs[a.value] == rest[b.value])
  {
    var rest := addrs[..k] + addrs[k + 1..];
    var a := LastWriter(info, addrs, i);
    var b := LastWriter(info, rest, i);
    if a.Some? {
      var j := a.value;
      var j' := if j < k then j else j - 1;
      assert rest[j'] == addrs[j];
      if b.None? {
        assert false;
      }
      var m := b.value;
      var m' := if m < k then m else m + 1;
      assert rest[m] == addrs[m'];
      assert m' <= j;
      assert m == j';
    }
  }

  /** When two list entries share a name, only the first one is ever filled. */
  lemma ReadDuplicateSlotEmpty(info: seq<InterfaceInfoItem>, addrs: seq<InterfaceAddress>, i: nat, j: nat)
    requires j < i < |info| && info[j].name == info[i].name
    ensures ReadStats(info, addrs)[i].None?
  {
    ReadSlotFilled(info, addrs, i);
  }

  /** Reading the snapshot the reader was built from fills exactly the first
      entry of each name. */
  lemma ReadAfterNew(addrs: seq<InterfaceAddress>, i: nat)
    requires i < |InfoOf(addrs)|
    ensures var info := InfoOf(addrs);
            ReadStats(info, addrs)[i].Some? <==> forall j :: 0 <= j < i ==> info[j].name != info[i].name
  {
    var info := InfoOf(addrs);
    ReadSlotFilled(info, addrs, i);
    if forall j :: 0 <= j < i ==> info[j].name != info[i].name {
      NewOnlyAddressesWithData(addrs, i);
      var k :| 0 <= k < |addrs| && addrs[k].data.Some? && addrs[k].interfaceName == info[i].name;
      IndexOfFirstOccurrence(info, i);
    }
  }
}
