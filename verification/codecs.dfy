/** The foreign serialization and compression libraries the envelope calls: CBOR
    (de)serialization and LZMA (de)compression. Their algorithms are not modelled; each
    is an arbitrary function handed to the envelope, so every property proved about the
    envelope holds whatever these libraries do. */
module Codecs {
  import opened Wrappers
  import opened HostReport

  /** A CBOR library error; its contents are not modelled. */
  type CborError(==, !new)

  datatype Libraries = Libraries(
    /** `serde_cbor::to_vec` */
    serialize: Report -> Result<seq<bv8>, CborError>,
    /** `serde_cbor::from_slice` */
    deserialize: seq<bv8> -> Result<Report, CborError>,
    /** `lzma_rs::lzma_compress` */
    compress: seq<bv8> -> seq<bv8>,
    /** `lzma_rs::lzma_decompress`, `None` on a corrupt stream */
    decompress: seq<bv8> -> Option<seq<bv8>>)

  /** Deserializing what serialization produced gives back the report. */
  ghost predicate CborRoundTrips(lib: Libraries)
  {
    forall r :: lib.serialize(r).Ok? ==> lib.deserialize(lib.serialize(r).value) == Ok(r)
  }

  /** Decompressing what compression produced gives back the input. */
  ghost predicate LzmaRoundTrips(lib: Libraries)
  {
    forall b :: lib.decompress(lib.compress(b)) == Some(b)
  }

  /** Every successful serialization is at least two bytes long and starts with a byte
      whose bit 0 is clear, as the CBOR map header 0xA2 that opens a two-field struct is. */
  ghost predicate OpensWithEvenHeader(lib: Libraries)
  {
    forall r :: lib.serialize(r).Ok? ==>
      |lib.serialize(r).value| >= 2 && lib.serialize(r).value[0] & 1 == 0
  }
}
