/** The wire envelope of src/report.rs: one flag byte followed by the CBOR payload,
    raw or LZMA-compressed. The `compress` cargo feature is the parameter
    `compressFeature`; the operating-system queries are the `HostSnapshot` argument. */
module Envelope {
  import opened Wrappers
  import opened HostReport
  import opened Codecs
  import opened Errors

  /** Flag byte written in front of a raw payload. */
  const RAW_FLAG: bv8 := 0

  /** Flag byte written in front of a compressed payload. */
  const COMPRESSED_FLAG: bv8 := 1

  /** Shortest buffer the decoder looks into: a flag byte and one payload byte. */
  const MIN_LEN := 2

  /** What decoding yields. `Unspecified` stands for the decompression branch of a
      build with the `compress` feature, which refers to an undefined variable and so
      has no behaviour to model. */
  datatype Decoded = Decoded(report: Report) | Rejected(error: DecodeError) | Unspecified

  /** The serialized report of one host snapshot (`Report::new_inner`). */
  function NewInner(lib: Libraries, host: HostSnapshot): (r: Result<seq<bv8>, EncodeError>)
    ensures r.Ok? <==> lib.serialize(BuildReport(host)).Ok?
    ensures r.Ok? ==> r.value == lib.serialize(BuildReport(host)).value
    ensures r.Err? ==> r.error == Serialize(lib.serialize(BuildReport(host)).error)
  {
    match lib.serialize(BuildReport(host))
    case Ok(bytes) => Ok(bytes)
    case Err(e) => Err(Serialize(e))
  }

  /** The raw envelope (`Report::new`): the payload with a zero flag byte in front. */
  function New(lib: Libraries, host: HostSnapshot): (r: Result<seq<bv8>, EncodeError>)
    ensures r.Ok? <==> NewInner(lib, host).Ok?
    ensures r.Err? ==> r.error == NewInner(lib, host).error
    ensures r.Ok? ==> |r.value| == |NewInner(lib, host).value| + 1
    ensures r.Ok? ==> r.value[0] == RAW_FLAG && r.value[1..] == NewInner(lib, host).value
  {
    match NewInner(lib, host)
    case Err(e) => Err(e)
    case Ok(payload) => Ok([RAW_FLAG] + payload)
  }

  /** The compressed envelope (`Report::new_compressed`, built only with the `compress`
      feature): the compressed payload with flag byte 1 in front. */
  function NewCompressed(lib: Libraries, host: HostSnapshot): (r: Result<seq<bv8>, EncodeError>)
    ensures r.Ok? <==> NewInner(lib, host).Ok?
    ensures r.Err? ==> r.error == NewInner(lib, host).error
    ensures r.Ok? ==> |r.value| == |lib.compress(NewInner(lib, host).value)| + 1
    ensures r.Ok? ==> r.value[0] == COMPRESSED_FLAG
    ensures r.Ok? ==> r.value[1..] == lib.compress(NewInner(lib, host).value)
  {
    match NewInner(lib, host)
    case Err(e) => Err(e)
    case Ok(payload) => Ok([COMPRESSED_FLAG] + lib.compress(payload))
  }

  /** A deserialization result as the decoder returns it: a CBOR error becomes `Deserialize`. */
  function FromCbor(res: Result<Report, CborError>): (d: Decoded)
    ensures d.Decoded? <==> res.Ok?
    ensures d.Decoded? ==> d.report == res.value
    ensures d.Rejected? ==> d.error == Deserialize(res.error)
    ensures !d.Unspecified?
  {
    match res
    case Ok(r) => Decoded(r)
    case Err(e) => Rejected(Deserialize(e))
  }

  /** `Report::decode` as written. The source computes `buf[0] & 0x01 == 0`, which Rust
      reads as `(buf[0] & 1) == 0`, and takes that as "compressed": so a clear bit 0
      selects the decompression branch and a set bit 0 the raw branch. */
  function Decode(compressFeature: bool, lib: Libraries, buf: seq<bv8>): (d: Decoded)
    ensures |buf| < MIN_LEN ==> d == Rejected(BadFormat)
    ensures |buf| >= MIN_LEN && buf[0] & 1 == 0 && !compressFeature ==> d == Rejected(Unsupported)
    ensures |buf| >= MIN_LEN && buf[0] & 1 == 1 ==> d == FromCbor(lib.deserialize(buf[1..]))
    ensures d.Unspecified? <==> compressFeature && |buf| >= MIN_LEN && buf[0] & 1 == 0
    ensures d != Rejected(BadLzma)
  {
    if |buf| < MIN_LEN then Rejected(BadFormat)
    else
      var compressed := (buf[0] & 0x01) == 0;
      if compressed then
        if compressFeature then Unspecified else Rejected(Unsupported)
      else
        FromCbor(lib.deserialize(buf[1..]))
  }

  /** Only bit 0 of the flag byte influences decoding. */
  lemma DecodeReadsOnlyBitZero(compressFeature: bool, lib: Libraries, a: seq<bv8>, b: seq<bv8>)
    requires |a| >= 1 && |b| >= 1
    requires a[0] & 1 == b[0] & 1 && a[1..] == b[1..]
    ensures Decode(compressFeature, lib, a) == Decode(compressFeature, lib, b)
  {
  }

  /** The default build cannot read the raw envelopes it writes: decoding the output
      of `New` never yields a report, and for any non-empty payload it is `Unsupported`. */
  lemma DefaultBuildRejectsOwnEnvelope(lib: Libraries, host: HostSnapshot)
    requires New(lib, host).Ok?
    ensures Decode(false, lib, New(lib, host).value).Rejected?
    ensures |NewInner(lib, host).value| > 0 ==>
              Decode(false, lib, New(lib, host).value) == Rejected(Unsupported)
  {
  }

  /** A compressed envelope is handed to the CBOR deserializer without being decompressed. */
  lemma CompressedEnvelopeReadAsRaw(compressFeature: bool, lib: Libraries, host: HostSnapshot)
    requires NewCompressed(lib, host).Ok?
    requires |lib.compress(NewInner(lib, host).value)| > 0
    ensures Decode(compressFeature, lib, NewCompressed(lib, host).value)
         == FromCbor(lib.deserialize(lib.compress(NewInner(lib, host).value)))
  {
  }

  /** The garbage-payload scenario: behind a zero flag byte the default build reports
      `Unsupported` and never looks at the payload. */
  lemma GarbageBehindRawFlag(lib: Libraries)
    ensures Decode(false, lib, [0x00, 0xFF, 0xFF]) == Rejected(Unsupported)
  {
  }

  // ---------------------------------------------------------------------------
  // The decoder as evidently intended: bit 0 set means compressed, the compressed
  // branch decompresses the payload and reports a corrupt stream as `BadLzma`.
  // ---------------------------------------------------------------------------

  function DecodeIntended(compressFeature: bool, lib: Libraries, buf: seq<bv8>): (d: Decoded)
    ensures |buf| < MIN_LEN ==> d == Rejected(BadFormat)
    ensures |buf| >= MIN_LEN && buf[0] & 1 == 0 ==> d == FromCbor(lib.deserialize(buf[1..]))
    ensures |buf| >= MIN_LEN && buf[0] & 1 == 1 && !compressFeature ==> d == Rejected(Unsupported)
    ensures |buf| >= MIN_LEN && buf[0] & 1 == 1 && compressFeature ==>
              if lib.decompress(buf[1..]).None? then d == Rejected(BadLzma)
              else d == FromCbor(lib.deserialize(lib.decompress(buf[1..]).value))
    ensures !d.Unspecified?
  {
    if |buf| < MIN_LEN then Rejected(BadFormat)
    else if (buf[0] & 0x01) == 1 then
      if !compressFeature then Rejected(Unsupported)
      else
        match lib.decompress(buf[1..])
        case None => Rejected(BadLzma)
        case Some(serialized) => FromCbor(lib.deserialize(serialized))
    else
      FromCbor(lib.deserialize(buf[1..]))
  }

  /** In the default build the decoder as written is the intended one with bit 0 of
      the flag byte inverted. */
  lemma AsWrittenInvertsBitZero(lib: Libraries, buf: seq<bv8>)
    requires |buf| >= 1
    ensures Decode(false, lib, buf) == DecodeIntended(false, lib, [buf[0] ^ 1] + buf[1..])
  {
  }

  /** The intended decoder reads back any raw envelope, in either build, whenever
      deserialization inverts serialization and the payload is not empty. */
  lemma IntendedRawRoundTrip(compressFeature: bool, lib: Libraries, host: HostSnapshot)
    requires CborRoundTrips(lib)
    requires New(lib, host).Ok?
    requires |NewInner(lib, host).value| > 0
    ensures DecodeIntended(compressFeature, lib, New(lib, host).value) == Decoded(BuildReport(host))
  {
  }

  /** The intended decoder of a `compress` build reads back any compressed envelope
      whenever both libraries invert their encoders and the compressed payload is not empty. */
  lemma IntendedCompressedRoundTrip(lib: Libraries, host: HostSnapshot)
    requires CborRoundTrips(lib) && LzmaRoundTrips(lib)
    requires NewCompressed(lib, host).Ok?
    requires |lib.compress(NewInner(lib, host).value)| > 0
    ensures DecodeIntended(true, lib, NewCompressed(lib, host).value) == Decoded(BuildReport(host))
  {
  }
}
