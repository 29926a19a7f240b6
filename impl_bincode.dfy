/** The bincode encoding of `Timestamp` and `Monotonic` in integer mode
    (src/impl_bincode.rs): one u64 of nanoseconds each way. The encoder's output and
    the decoder's input are modelled as sequences of the u64 values on the wire; their
    byte layout is bincode's own. */
module Bincode {
  import opened Ints
  import opened Wrappers
  import opened Common

  /** The decoder errors this model produces: the input ran out before a u64. */
  datatype DecodeError = UnexpectedEnd

  class Encoder {
    var written: seq<u64>

    constructor ()
      ensures written == []
    {
      written := [];
    }
  }

  class Decoder {
    var remaining: seq<u64>

    constructor (input: seq<u64>)
      ensures remaining == input
    {
      remaining := input;
    }
  }

  /** The value `encode` writes: the nanosecond count narrowed to u64. The source
      `unwrap`s that narrowing, so a count that does not fit is required away. */
  function EncodedValue<K>(t: Stamp<K>): (n: u64)
    requires AsNanos(t) <= U64_MAX
    ensures FromNanos<K>(n) == t
  {
    FromNanosAsNanos(t);
    AsNanos(t)
  }

  /** The value `decode` builds from a u64: `from_nanos` of it. */
  function DecodedValue<K>(n: u64): (t: Stamp<K>)
    ensures AsNanos(t) == n
  {
    FromNanos(n)
  }

  /** `Encode::encode` for both types. */
  method Encode<K>(t: Stamp<K>, encoder: Encoder)
    requires AsNanos(t) <= U64_MAX
    modifies encoder
    ensures encoder.written == old(encoder.written) + [EncodedValue(t)]
  {
    encoder.written := encoder.written + [EncodedValue(t)];
  }

  /** `Decode::decode` for both types: reads one u64 and takes it as nanoseconds. */
  method Decode<K>(decoder: Decoder) returns (r: Result<Stamp<K>, DecodeError>)
    modifies decoder
    ensures old(decoder.remaining) == [] ==> r == Err(UnexpectedEnd) && decoder.remaining == []
    ensures old(decoder.remaining) != [] ==>
      r == Ok(DecodedValue(old(decoder.remaining)[0])) && decoder.remaining == old(decoder.remaining)[1..]
  {
    if decoder.remaining == [] {
      r := Err(UnexpectedEnd);
    } else {
      r := Ok(DecodedValue(decoder.remaining[0]));
      decoder.remaining := decoder.remaining[1..];
    }
  }

  /** Decoding what was encoded gives the value back. */
  lemma RoundTrip<K>(t: Stamp<K>)
    requires AsNanos(t) <= U64_MAX
    ensures DecodedValue<K>(EncodedValue(t)) == t
  {
  }

  /** Encoding to a fresh buffer and decoding from it, as the crate's tests do. */
  method EncodeThenDecode<K>(t: Stamp<K>) returns (r: Result<Stamp<K>, DecodeError>)
    requires AsNanos(t) <= U64_MAX
    ensures r == Ok(t)
  {
    var encoder := new Encoder();
    Encode(t, encoder);
    var decoder := new Decoder(encoder.written);
    r := Decode(decoder);
  }

  /** The two fixtures of the crate's tests: 1.5 s as a `Timestamp` and 2.5 s as a
      `Monotonic` are written as their nanosecond counts and read back unchanged. */
  lemma Fixtures()
    ensures EncodedValue(FromNanos<Wall>(1_500_000_000)) == 1_500_000_000
    ensures DecodedValue<Wall>(EncodedValue(FromNanos<Wall>(1_500_000_000))) == FromNanos<Wall>(1_500_000_000)
    ensures EncodedValue(FromNanos<Mono>(2_500_000_000)) == 2_500_000_000
    ensures DecodedValue<Mono>(EncodedValue(FromNanos<Mono>(2_500_000_000))) == FromNanos<Mono>(2_500_000_000)
  {
  }
}
