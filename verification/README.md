# ip-announce host report: a Dafny model

ip-announce is a host-discovery beacon. Once a second it broadcasts a *host report* over UDP: the
host name, plus every non-loopback network interface that has at least one address, with the
interface's name, MAC address and IP networks. This project models the pure core of that
program:

- building the report from what the operating system enumerates (module `HostReport`);
- the *envelope* of `src/report.rs` (module `Envelope`). This is a one-byte flag followed by the
  CBOR payload, either raw (flag 0) or LZMA-compressed (flag 1). The module models the encoders
  `new_inner`, `new` and `new_compressed` and the decoder `decode`;
- the binary of `src/main.rs`, the version the crate actually builds (module `Beacon`). It
  broadcasts the serialized report with no flag byte.

The error types of `src/error.rs` are the datatypes of module `Errors`. The foreign libraries
(serde_cbor and lzma_rs) are arbitrary functions bundled in `Codecs.Libraries`. So every property
below holds whatever those libraries compute. Round-trip results are stated under the explicit
hypotheses `Codecs.CborRoundTrips` and `Codecs.LzmaRoundTrips`. The rejection of the binary's
broadcast is stated under `Codecs.OpensWithEvenHeader`: every serialization is at least two bytes
long and its first byte has bit 0 clear, as a CBOR map header does. The `compress` cargo feature is the
boolean parameter `compressFeature`. The two operating-system queries (host name, interface list)
are the `HostSnapshot` argument.

`src/main.rs` repeats two parts of `src/report.rs`:

- its report construction, verbatim (main.rs:42-59 = report.rs:25-42);
- its decoder (main.rs:75-97 against report.rs:62-84), line for line. The only differences are
  visibility (no `pub`), one `let mut data` for `let data`, and a local copy of `DecodeError`
  (main.rs:16-26). None of these changes behaviour.

Each of these is defined once. `HostReport.BuildReport` and the lemmas about `CollectInterfaces`
model both copies of the construction. `Envelope.Decode` models both decoders. The same filtering
properties therefore hold for main.rs:46-55: no loopback interface, a non-empty address list, and
enumeration order with name, MAC and addresses copied unchanged. So do the decode properties for
main.rs:77-95: `BadFormat` below two bytes, `Unsupported` for a clear bit 0 in the default build,
and `deserialize(buf[1..])` otherwise.

Two behaviours of the code are worth stating directly:

- In the default build, decoding `[0x00, 0xFF, 0xFF]` gives `Unsupported`
  (`Envelope.GarbageBehindRawFlag`).
- The binary's broadcast has no flag byte (`Beacon.New`, `Beacon.BroadcastLacksFlagByte`).

## Model

| member | source | states |
|---|---|---|
| HostReport.ReportedHostname | src/report.rs:25-28 | the report has a host name exactly when the lookup succeeded and gave valid Unicode, and then it is that name |
| HostReport.DropLoopback | src/report.rs:31 | the first filter never lengthens the list and keeps no loopback interface (what it keeps, and in which order, is pinned down for the whole pipeline by `CollectedAreKeptInOrder`) |
| HostReport.AsInterfaces | src/report.rs:32-36 | one report interface per enumerated interface, in the same order, each the field-for-field copy of its source (name, mac, addrs = ips) |
| HostReport.DropUnaddressed | src/report.rs:37 | the second filter never lengthens the list and keeps only interfaces with a non-empty address list |
| HostReport.CollectInterfaces | src/report.rs:29-38 | the pipeline never lengthens the list, and every interface it returns has at least one address |
| HostReport.KeptPositions | src/report.rs:31-37 | reference definition: the strictly increasing positions of exactly those enumerated interfaces that are not loopback and have an address |
| HostReport.CollectedAreKeptInOrder | src/report.rs:29-38 | `Corresponds`: as many interfaces are reported as are kept, and the k-th reported interface is the field-for-field copy (name, mac, addrs = ips) of the k-th kept enumerated interface, so order is preserved and nothing else appears |
| HostReport.ReportedExactlyTheKept | src/report.rs:31-37 | `CopiesKept`: every reported interface copies an enumerated interface that is neither loopback nor address-less; and every such interface is reported |
| HostReport.NothingDroppedWhenAllKept | src/report.rs:32-36 | with nothing to filter, the report lists every enumerated interface, copied unchanged and in order |
| HostReport.FilteringScenario | src/report.rs:29-38 | from [loopback lo, eth0 with an address, wlan0 without one] only eth0 is reported, with its name, MAC and address |
| HostReport.BuildReport | src/report.rs:25-42 | the built report carries the looked-up host name exactly when there was one, and every listed interface has an address |
| Envelope.NewInner | src/report.rs:43 | encoding succeeds exactly when CBOR serialization does and yields its bytes; a serializer error is returned as `EncodeError::Serialize` with that cause |
| Envelope.New | src/report.rs:46-50 | the raw envelope is one byte longer than the payload: flag byte 0 followed by the payload; an encode error passes through unchanged and no bytes are produced |
| Envelope.NewCompressed | src/report.rs:53-59 | the compressed envelope is flag byte 1 followed by the compressed payload; an encode error passes through unchanged |
| Envelope.FromCbor | src/report.rs:80-82 | a deserialized report is returned as is, and a CBOR error surfaces as `DecodeError::Deserialize` with that cause |
| Envelope.Decode | src/report.rs:62-84 | a buffer shorter than 2 bytes is `BadFormat` whatever its flag. Otherwise, with bit 0 clear, the default build returns `Unsupported` and a `compress` build is unspecified. With bit 0 set, the result is exactly `deserialize(buf[1..])`. `BadLzma` is never returned |
| Envelope.DecodeReadsOnlyBitZero | src/report.rs:67-68 | two buffers that agree on bit 0 of the flag byte and on the payload decode identically: no other flag bit is consulted |
| Envelope.DefaultBuildRejectsOwnEnvelope | src/report.rs:46-78 | decoding the default build's own raw envelope never yields a report, and is `Unsupported` whenever the payload is non-empty |
| Envelope.CompressedEnvelopeReadAsRaw | src/report.rs:53-82 | a compressed envelope is decoded by deserializing the compressed bytes directly, without decompression |
| Envelope.GarbageBehindRawFlag | src/report.rs:64-78 | `[0x00, 0xFF, 0xFF]` decodes to `Unsupported` in the default build; the payload is never inspected |
| Envelope.DecodeIntended | src/report.rs:62-84 | corrected decoder. Below 2 bytes: `BadFormat`. Bit 0 clear: `deserialize(buf[1..])`. Bit 0 set: `Unsupported` without the feature; with it, `BadLzma` on a corrupt stream, otherwise the deserialized decompression |
| Envelope.AsWrittenInvertsBitZero | src/report.rs:67 | in the default build, the decoder as written equals the corrected decoder applied to the buffer with bit 0 of the flag byte inverted |
| Envelope.IntendedRawRoundTrip | src/report.rs:46-50 | if CBOR round-trips and the payload is non-empty, the corrected decoder returns exactly the report that `new` encoded, in either build |
| Envelope.IntendedCompressedRoundTrip | src/report.rs:53-59 | if CBOR and LZMA round-trip and the compressed payload is non-empty, the corrected decoder of a `compress` build returns exactly the report `new_compressed` encoded |
| Beacon.New | src/main.rs:41-73 | the broadcast bytes are exactly the serialized report (compressed in a `compress` build) with no flag byte; a serialization failure is a panic with message "cannot serialize" |
| Beacon.BroadcastLacksFlagByte | src/main.rs:60-65 | the default binary's broadcast is the raw envelope of src/report.rs with its leading flag byte removed, and each succeeds exactly when the other does |
| Beacon.BroadcastRejectedByOwnDecoder | src/main.rs:60-95 | if every serialization opens with a header byte whose bit 0 is clear (as the CBOR map header 0xA2 does) and is at least two bytes long, the binary's own decoder rejects its default-build broadcast as `Unsupported`, for every host |

## Left out

- The UDP socket, the broadcast address and port, and the send-and-sleep loop of `main` (src/main.rs:100-111) are I/O and timing.
- The operating-system queries `hostname::get()` and `pnet::datalink::interfaces()` are not called. Their results are the `HostSnapshot` argument. The `OsString`-to-`String` conversion is folded into the three outcomes of `HostnameLookup`.
- The CBOR and LZMA algorithms (serde_cbor, lzma_rs) are foreign libraries. They are arbitrary functions in `Codecs.Libraries`, and no round-trip law is assumed except as a stated lemma hypothesis.
- The decompression branch of `decode` in a `compress` build (src/report.rs:69-76, src/main.rs:82-89) refers to an undefined `data` and would not compile. It also `unwrap`s the decompression result. `Envelope.Decode` returns `Unspecified` there.
- Envelope.NewCompressed: an I/O error from `lzma_compress` (src/report.rs:56) is not modelled, because compression is a total function here. The source's `?` there has no conversion into `EncodeError` anyway.
- Beacon.New: the `unwrap` on `lzma_compress` (src/main.rs:69) is not modelled as a panic, because compression is a total function here.
- The internal structure of `IpNetwork`, `MacAddr` and the CBOR error type is left out. They are opaque types.
- `decode` is generic over `AsRef<[u8]>`. The model takes a `seq<bv8>`.

## Findings

| source | as written | input that shows it | evidently intended | confidence | as-written member | corrected member |
|---|---|---|---|---|---|---|
| src/report.rs:67-68 | `buf[0] & 0x01 == 0` is taken to mean "compressed", but `new` writes flag 0 for a raw payload | the output of `new` for any report with a non-empty CBOR payload, `[0x00, p0, …]`, decodes to `Unsupported` in the default build | bit 0 set means compressed, so `decode(new(r))` returns `r` | not executed; high | Envelope.DefaultBuildRejectsOwnEnvelope | Envelope.DecodeIntended |
| src/main.rs:60-65 | the binary broadcasts the bare CBOR payload, while its own decoder expects a flag byte in front | any broadcast: its first CBOR byte is read as the flag (a CBOR map header such as `0xA2` has bit 0 clear, giving `Unsupported`) | broadcast the flag-framed envelope of src/report.rs:46-50 | not executed; medium | Beacon.BroadcastRejectedByOwnDecoder | Envelope.New with Envelope.DecodeIntended |

For the first row, `Envelope.IntendedRawRoundTrip` and `Envelope.IntendedCompressedRoundTrip` prove
the intended round trips for the corrected decoder. `Envelope.AsWrittenInvertsBitZero` shows that
the code as written differs from it only by the inverted bit.

For the second row, `Beacon.BroadcastLacksFlagByte` relates the binary's broadcast to
`Envelope.New`. Framing alone does not fix the binary: its decoder as written (main.rs:80-81, the
same inverted test as report.rs:67-68) still rejects a zero-flagged envelope
(`Envelope.DefaultBuildRejectsOwnEnvelope`). The fix needs both the flag byte of `Envelope.New` and
the corrected decoder `Envelope.DecodeIntended`. `Envelope.IntendedRawRoundTrip` proves the
round trip for that pair.
