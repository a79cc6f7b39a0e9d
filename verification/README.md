# mone reader model

A Dafny model of the reading side of `mone`, a per-interface network
byte-counter monitor:

- **Link statistics decoder** (`Link`). `LinkStats::<u32>::from_bytes` reads the 24
  `u32` counters of the kernel's `rtnl_link_stats` block at fixed offsets. The
  byte order is the host's, so here it is a parameter (`Endian`). The model keeps
  the function's three outcomes apart:
  - an `Err(LinkStatsError)` for a buffer shorter than the guard;
  - a panic for a slice that runs past the buffer;
  - a decoded record.
- **Interface-indexed snapshots** (`Reader`, `InLibc`).
  - `Read::index` is a first-match lookup.
  - `LibcReader::new` fixes the list of interfaces that have data.
  - `LibcReader::read` fills one `Option` slot per list entry from a fresh
    `getifaddrs` snapshot. The snapshot is an input: a `Result` holding the
    list's entries in order, with every pointer already dereferenced.
  - `InterfaceAddress::from_libc_ifaddrs` sets the destination or the broadcast
    address from the interface flags.
  - `IfData::from_ifa_data` maps a null data pointer to `None`.
- **Byte-unit choice** (`Utils`). `integer_len` counts decimal digits.
  `NumBytes::pretty` picks the first binary unit in which the value is below
  1024 and decides whether to print decimals and how many. Values are exact
  reals, so dividing by 1024 loses nothing. The characters written are not
  modelled.

`Types` holds the machine integer widths (`byte`, `u32`, `u64` as newtypes),
`Option`, `Result` and the crate's `Error`.

## Model

| member | source | states |
|---|---|---|
| `Link.FromBytes` | src/reader/link.rs:58-98 | A buffer under 30 bytes, and only such a buffer, gives `Err(LinkStatsError)` reporting 96 wanted and the actual length. Exactly the lengths 30..95 panic, on a slice ending within four bytes past the buffer at a multiple of four. Exactly the buffers of 96 bytes or more decode. |
| `Link.FirstOverrun` | src/reader/link.rs:73-96 | The reads run in field order, and the panicking one is the first from a given field on whose slice ends past the buffer. All earlier slices fit. `None` means every slice from there on fits. |
| `Link.ReadFields` | src/reader/link.rs:73-96 | On a buffer long enough for every slice, the 24 reads give 24 counters, and the `rx_errors` read gives the same value as the `tx_bytes` read. |
| `Link.FromBytesFields` | src/reader/link.rs:73-96 | A buffer of at least 96 bytes decodes, and every field except `rx_errors` holds the `u32` at bytes 4i..4i+4, where i is its declaration position. |
| `Link.FromBytesRxErrorsAlias` | src/reader/link.rs:75-77 | A buffer of at least 96 bytes decodes; `rx_bytes` comes from bytes 8..12 and `tx_bytes` from bytes 12..16, and `rx_errors` always equals `tx_bytes`. |
| `Link.ReadFieldsOffsets` | src/reader/link.rs:73-96 | Each of the 24 reads covers bytes 4i..4i+4. The exception is the `rx_errors` read, which yields the value at bytes 12..16. |
| `Link.ReadU32Prefix` | src/reader/link.rs:77 | A `u32` read depends only on the first four bytes of its slice, so the 8-byte slice 12..20 reads as 12..16. |
| `Link.FromBytesPanicEnd` | src/reader/link.rs:64-96 | A buffer of 30..95 bytes passes the guard. It then panics on the first slice that ends past it, at the next multiple of four above its length. |
| `Link.FromBytesIgnoresRxErrorsBytes` | src/reader/link.rs:76-78 | Two buffers of equal length that differ only in bytes 16..20 decode identically, whatever the outcome. |
| `Link.FromBytesIgnoresTrailing` | src/reader/link.rs:73-96 | Bytes from offset 96 on never change the decoded value. |
| `Link.FromBytesChecked` | src/reader/link.rs:60-96 | The corrected decoder succeeds exactly for buffers of at least 96 bytes. Otherwise it reports `LinkStatsError` with 96 and the actual length. |
| `Link.FromBytesCheckedRoundTrip` | src/reader/link.rs:62-98 | Encoding any record as 96 bytes and decoding with the corrected decoder gives back the same record. |
| `Link.FromBytesAgreesExceptRxErrors` | src/reader/link.rs:72-97 | On a full block, the decoder as written gives exactly the corrected decoder's record with `rx_errors` overwritten by `tx_bytes`. |
| `Link.FromBytesRoundTripFails` | src/reader/link.rs:77 | A block whose `rx_errors` (1) differs from its `tx_bytes` (0) does not round-trip through the decoder as written. |
| `Link.FromBytesGuardTooWeak` | src/reader/link.rs:58-80 | Thirty zero bytes pass the guard, then the read of `tx_dropped` panics at slice end 32. |
| `Reader.Index` | src/reader/mod.rs:8-10 | `Some(i)` only when i is in range and item i has the name, and no earlier item does. `None` exactly when no item has the name. |
| `InLibc.FromIfaData` | src/reader/in_libc.rs:17-47 | A null data pointer gives `None`, and any other pointer gives `Some`. On Linux the counters are `rx_bytes` (bytes 8..12) and `tx_bytes` (bytes 12..16) of the stats block. Elsewhere they are `ifi_ibytes`/`ifi_obytes`. |
| `InLibc.FromLibcIfaddrs` | src/reader/in_libc.rs:82-106 | Destination and broadcast are never both set. Destination is set only under `IFF_POINTOPOINT`, and then it is the `ifu` address. Broadcast is set only without `IFF_POINTOPOINT` and with `IFF_BROADCAST`. Name, flags, address and netmask are kept. The data is `from_ifa_data` of the pointer, so it is present exactly when the pointer is non-null and carries that block's byte counters. |
| `InLibc.GetIfaddrs` | src/reader/in_libc.rs:120-149 | An error from `getifaddrs` comes through unchanged. Otherwise there is one converted address per list entry, in list order. |
| `InLibc.New` | src/reader/in_libc.rs:156-171 | A `getifaddrs` error propagates with no reader. Otherwise the list has exactly one entry per address with data, so at most one per address. |
| `InLibc.InfoOfPrefix` | src/reader/in_libc.rs:159-168 | The list built from a prefix of the snapshot is a prefix of the list built from the whole, so entries are pushed in iteration order. |
| `InLibc.NewKeepsAddressesWithData` | src/reader/in_libc.rs:160-166 | Every address with data contributes its name. Its position is the number of addresses with data before it. |
| `InLibc.NewOnlyAddressesWithData` | src/reader/in_libc.rs:160-166 | Entry i is the name of the address with data that has exactly i addresses with data before it. Together with `InLibc.NewKeepsAddressesWithData`, entries and addresses with data correspond one to one, in order. An address without data adds no entry, even when its name is already listed. |
| `InLibc.InfoOf` | src/reader/in_libc.rs:159-168 | The push loop of `new` gives a list with exactly as many entries as the snapshot has addresses with data. |
| `InLibc.StatOf` | src/reader/in_libc.rs:188-191 | The stored `rx`/`tx` equal the `u32` counters widened to `u64`, so each is below 2^32. |
| `InLibc.Store` | src/reader/in_libc.rs:184-193 | One step of `read`: an address with data whose name `index` finds sets that slot to its widened counters. Every other slot keeps its value, including a later entry with the same name. An address without data changes nothing. |
| `InLibc.ReadStats` | src/reader/in_libc.rs:180-195 | The result has exactly one slot per list entry. Every filled slot has `rx` and `tx` below 2^32. |
| `InLibc.Read` | src/reader/in_libc.rs:179-198 | A `getifaddrs` error propagates with no partial result. Otherwise the vector's length equals the reader's list length. |
| `InLibc.LastWriter` | src/reader/in_libc.rs:182-194 | The reference for a slot: the latest address with data whose name `index` maps to that slot, or none if no address does. |
| `InLibc.ReadStatsSlot` | src/reader/in_libc.rs:180-197 | A slot holds the counters of the last address (in iteration order) that writes it, and stays `None` if none does: the last write wins. |
| `InLibc.ReadSlotFilled` | src/reader/in_libc.rs:183-191 | A slot is `Some` exactly when some address with data has a name that `index` maps to that slot. |
| `InLibc.ReadIgnoresAddress` | src/reader/in_libc.rs:184-186 | An address without data, or with a name not in the list, affects no slot: removing it from the snapshot gives the same result. |
| `InLibc.ReadDuplicateSlotEmpty` | src/reader/in_libc.rs:185-188 | When a name appears twice in the list, the later entry's slot is never filled, because `index` returns the first match. |
| `InLibc.ReadAfterNew` | src/reader/in_libc.rs:156-197 | Reading the same snapshot the reader was built from fills a slot exactly when it holds the first occurrence of its name. |
| `Utils.TruncToU64` | src/utils.rs:14 | `v.trunc() as u64` is below 2^64. It is the integer part of any value in range, 0 for any value below 1, and 2^64 - 1 for any value at or above 2^64. |
| `Utils.IntegerLenFrom` | src/utils.rs:15-21 | The counting loop stops at the least length l with the value below 10^l. |
| `Utils.IntegerLen` | src/utils.rs:13-23 | `integer_len` is the decimal digit count of the truncated value: the least l >= 1 with the value below 10^l, so 0..9 give 1. |
| `Utils.DigitCountUnique` | src/utils.rs:16-19 | Only one length satisfies the digit-count condition, so the first length the loop accepts is the only one. |
| `Utils.IntegerLenBelow1024` | src/utils.rs:32-45 | A value below 1024 has 1 to 4 digits, so the `_ => Err` arm of the match is unreachable. |
| `Utils.IntegerLenExample` | src/utils.rs:72-74 | `integer_len(573.0458984375) == 3`. |
| `Utils.ScaleStep` | src/utils.rs:32-49 | Dividing the k-times-scaled value by 1024 gives the value divided by 1024^(k+1). The scaled value is below 1024 exactly when the value is below 1024^(k+1). |
| `Utils.SelectUnit` | src/utils.rs:31-50 | The unit loop stops at the first index k at which the value divided by 1024^k is below 1024, and returns that scaled value. It finds no unit exactly when no index among the nine qualifies. |
| `Utils.Pretty` | src/utils.rs:29-52 | A successful choice names a unit from `UNITS`, together with that unit's index. |
| `Utils.PrettyChoice` | src/utils.rs:26-52 | `pretty` succeeds exactly for values below 1024^9. It uses the first unit in which the value is below 1024, with the value scaled by 1/1024^k. For 1 or 2 digits the precision is `VALUE_LEN - l - 1` (2 or 1), with no underflow. For 3 or 4 digits the integer part is printed without decimals. |
| `Utils.PrettyU64` | src/utils.rs:26-51 | Every `u64` value gets a unit with index at most 6, so the final `Err` is unreachable for `NumBytes<u64>`. |
| `Utils.PrettyExamples` | src/utils.rs:77-85 | 1263 selects KiB with 1 digit and 2 decimals. 123 and 1023 select B without decimals. 600882176 selects MiB with value 573.0458984375, printed as 573. |

## Findings

| source | as written | input that shows it | evidently intended | confidence | as-written member | corrected member |
|---|---|---|---|---|---|---|
| src/reader/link.rs:58-64 | the guard rejects only buffers shorter than `LINK_MAP_LEN` = 30, but the reads reach byte 96 | 30 zero bytes pass the guard, then `&buf[28..32]` panics | guard on `LINK_STATS32_LEN` (96), the length the error message already names | high (not executed) | `Link.FromBytesGuardTooWeak` | `Link.FromBytesChecked` |
| src/reader/link.rs:77 | `rx_errors` is read from `buf[12..20]`, whose first four bytes are `tx_bytes` | a block with `tx_bytes` = 0 and `rx_errors` = 1 decodes with `rx_errors` = 0 | `buf[16..20]` | high (not executed) | `Link.FromBytesRoundTripFails` | `Link.FromBytesChecked` |

`Link.FromBytes` stays as written. Its contract states the guard behaviour
by length. `Link.FromBytesRxErrorsAlias` and
`Link.FromBytesAgreesExceptRxErrors` state the `rx_errors` behaviour. Neither
finding reaches a running program: src/reader/mod.rs declares only the
`in_libc` module, so link.rs is never compiled.

## Left out

- `InLibc.FromIfaData`: on Linux the source reads the two counters through the external rtnetlink crate (`LinkStatsBuffer::rx_bytes`/`tx_bytes`), not through link.rs. That crate is not part of this model. The model reads them with `Link.FromBytesChecked`, which assumes the `rtnl_link_stats` layout: `rx_bytes` at bytes 8..12 and `tx_bytes` at bytes 12..16, in host byte order.
- src/reader/link.rs is not declared as a module (src/reader/mod.rs declares only `in_libc`), so `from_bytes` is never compiled or called. It is modelled because its behaviour as written is still well defined.
- `Link.ReadU32` stands for the byteorder crate's `NativeEndian::read_u32`, which is not part of this model. It is assumed to panic on fewer than four bytes (here a `requires`) and otherwise to read the first four bytes in host order. The byte order is the parameter `Endian`.
- The C list handling is not modelled: `getifaddrs`/`freeifaddrs`, the `Drop` and `Iterator` of the list, `CStr` lossy name conversion, `SockAddr::from_libc_sockaddr` and the pointer casts. The list is an input of converted entries (`RawIfaddr`), with `None` for each null pointer.
- `InLibc.FromIfaData` requires a Linux data block of exactly 96 bytes. The source reinterprets the pointer as a 96-byte array and does not check the length.
- `InLibc.FromLibcIfaddrs` keeps the raw flag word. `InterfaceFlags::from_bits_truncate` would clear unknown bits, but it never clears the two bits tested.
- The `Read` trait is not modelled. `LibcReader` is its only implementation, so `index` and `read` are plain functions of the reader's list.
- `Utils.IntegerLen`: the source's `u64` bound `p *= 10` overflows for truncated values of 10^19 or more. The model lets the bound grow without limit. The only caller passes values below 1024.
- `Utils.TruncToU64`: NaN and infinities are not modelled, because values are reals.
- `Utils.Pretty`: the `f64` arithmetic is not modelled. This includes the rounding in `to_f64` for integers above 2^53 and the width/precision text formatting. The model returns the layout decision instead.
- `Utils.Pretty` takes any natural number, where the source is generic over numeric types. The reader uses `NumBytes<u64>`, which `Utils.PrettyU64` covers. The unit tests use non-negative `i32` literals, which are natural numbers too. Negative values of a signed type are not modelled: the source would print them with the unit `B` (for example `-5.00 B`).
- The crate's `Error` enum in src/lib.rs has no `LinkStatsError` variant, although link.rs constructs one. The model adds the variant, and carries the two lengths in place of the formatted message.
- src/in_libc.rs is an older duplicate of the reader and is not declared as a module, so it is not part of this model.
- src/monitor/events.rs and src/monitor/mod.rs are not modelled. They hold the tick thread, channel, Ctrl+C handler and event loop, which are about timing and concurrency rather than computation.
- src/writer/*.rs, src/main.rs and the `Display`/`run` printing code of src/lib.rs are output and startup code, and are not modelled.
