/**
 * The structured encoding a file-backed cache stores one value in.
 * The JSON format itself is not modelled: a codec is a pair of functions,
 * an encoder that may fail (JSONEncoder throws) and a partial decoder.
 */
module Codec {
  import opened Wrappers

  type Bytes = seq<bv8>

  datatype Codec<!T(!new)> = Codec(encode: T -> Option<Bytes>, decode: Bytes -> Option<T>) {

    /** The round-trip law every codec for a cached type must obey:
        whatever the encoder produces, the decoder turns back into the same value. */
    ghost predicate RoundTrips() {
      forall v :: encode(v).Some? ==> decode(encode(v).value) == Some(v)
    }
  }
}
