/** The beacon binary (src/main.rs), which is what the crate actually builds: its
    `Report::new` serializes the same report as src/report.rs but broadcasts the
    payload with no flag byte in front, while its `Report::decode` is the same code as
    `Envelope.Decode`. */
module Beacon {
  import opened Wrappers
  import opened HostReport
  import opened Codecs
  import Errors
  import Envelope

  /** A panic, carrying the message the source passes to `expect`. */
  datatype Panic = Panic(message: string)

  /** The bytes the beacon broadcasts (`Report::new` of src/main.rs): the serialized
      report, compressed in a `compress` build, with no flag byte; a serialization
      failure panics with "cannot serialize". */
  function New(compressFeature: bool, lib: Libraries, host: HostSnapshot): (r: Result<seq<bv8>, Panic>)
    ensures r.Err? <==> lib.serialize(BuildReport(host)).Err?
    ensures r.Err? ==> r.error == Panic("cannot serialize")
    ensures r.Ok? && !compressFeature ==> r.value == lib.serialize(BuildReport(host)).value
    ensures r.Ok? && compressFeature ==> r.value == lib.compress(lib.serialize(BuildReport(host)).value)
  {
    match lib.serialize(BuildReport(host))
    case Err(_) => Err(Panic("cannot serialize"))
    case Ok(serialized) =>
      if compressFeature then Ok(lib.compress(serialized)) else Ok(serialized)
  }

  /** The default build of the binary broadcasts exactly the raw envelope of
      src/report.rs without its leading flag byte. */
  lemma BroadcastLacksFlagByte(lib: Libraries, host: HostSnapshot)
    ensures New(false, lib, host).Ok? <==> Envelope.New(lib, host).Ok?
    ensures New(false, lib, host).Ok? ==>
              Envelope.New(lib, host).value == [Envelope.RAW_FLAG] + New(false, lib, host).value
  {
  }

  /** A receiver that runs the beacon's own decoder on a default-build broadcast takes
      the first byte of the CBOR payload for the flag byte. When that byte is a map
      header with bit 0 clear, the broadcast is rejected as `Unsupported`, for every host. */
  lemma BroadcastRejectedByOwnDecoder(lib: Libraries, host: HostSnapshot)
    requires OpensWithEvenHeader(lib)
    requires New(false, lib, host).Ok?
    ensures Envelope.Decode(false, lib, New(false, lib, host).value) == Envelope.Rejected(Errors.Unsupported)
  {
  }
}
