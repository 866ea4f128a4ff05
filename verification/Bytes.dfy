/** Byte buffers. A `Buffer` of the modelled code is a sequence of numbers below 256. */
module Bytes {

  type byte = x: int | 0 <= x < 256

  type Buffer = seq<byte>

  /** The output type of keccak-256, the only thing assumed about the hash function. */
  type Digest = b: Buffer | |b| == 32 witness seq(32, _ => 0)

  /** The hash function is a parameter of everything that hashes. */
  type Hash = Buffer -> Digest

  /** The concatenation of a list of buffers, in order. */
  function Flatten(parts: seq<Buffer>): Buffer {
    if parts == [] then [] else parts[0] + Flatten(parts[1..])
  }

  lemma FlattenFirst(first: Buffer, parts: seq<Buffer>)
    ensures Flatten([first] + parts) == first + Flatten(parts)
  {
    assert ([first] + parts)[1..] == parts;
  }

  lemma {:induction false} FlattenAppend(parts: seq<Buffer>, last: Buffer)
    ensures Flatten(parts + [last]) == Flatten(parts) + last
  {
    if parts == [] {
      assert parts + [last] == [last];
    } else {
      assert (parts + [last])[1..] == parts[1..] + [last];
      FlattenAppend(parts[1..], last);
    }
  }
}
