/** What the storage engine needs of a record type (the IRecord interface):
    a fixed serialized size, an encoder, a decoder that may fail, and the
    logical key that isEqual compares. Records are values, so createCopy is
    the identity on them. */
module Records {

  import opened Wrappers
  import opened Bytes

  datatype RecordCodec<!R, K> = RecordCodec(
    size: nat,
    encode: R -> seq<Byte>,
    decode: seq<Byte> -> Option<R>,
    key: R -> K)

  /** getSize is positive and every encoding has exactly getSize bytes. */
  ghost predicate ValidCodec<R(!new), K>(c: RecordCodec<R, K>)
  {
    c.size > 0 && forall r :: |c.encode(r)| == c.size
  }

  /** isEqual: equality of logical keys, not of all fields. */
  predicate IsEqual<R, K(==)>(c: RecordCodec<R, K>, a: R, b: R)
  {
    c.key(a) == c.key(b)
  }
}
