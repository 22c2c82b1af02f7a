/** The values shared by the encoder and the decoder of the byte-pair codec. */
module BytePair {

  /** An unsigned 8-bit value. */
  type Byte = b: int | 0 <= b < 256

  /** A signed 32-bit value, the width of the dictionary's fields. */
  type Int32 = v: int | -0x8000_0000 <= v < 0x8000_0000

  /** One slot of the encoder's working buffer: either a byte that is still part of the
      data, or a tombstone for a byte that was absorbed into the substitute code that
      follows it. `Encode` in `bytepair.go` writes the tombstone as the integer -1. */
  datatype Slot = Tomb | Live(b: Byte)

  /** One substitution: `key` is the substitute code, `value` the bigram it stands for,
      packed with the first byte in bits 8..15 and the second byte in bits 0..7. */
  datatype Entry = Entry(key: Int32, value: Int32)

  /** The substitutions in the order the encoder discovered them. */
  type Dictionary = seq<Entry>

  datatype Option<T> = None | Some(value: T)

  /** The packed value of a pair of two bytes, `first << 8 | second` in `bytepair.go`:
      the first byte in bits 8..15, the second in bits 0..7. */
  function PackLive(first: Byte, second: Byte): int
  {
    first * 256 + second
  }

  /** A run of `n` copies of one live byte. */
  function Run(a: Byte, n: nat): seq<Slot>
  {
    seq(n, _ => Live(a))
  }

  /** The bytes a working buffer still holds, in order: its tombstones dropped. */
  function LiveBytes(s: seq<Slot>): seq<Byte>
  {
    if s == [] then []
    else LiveBytes(s[..|s| - 1]) + (if s[|s| - 1].Live? then [s[|s| - 1].b] else [])
  }

  lemma {:induction false} LiveBytesAppend(a: seq<Slot>, b: seq<Slot>)
    ensures LiveBytes(a + b) == LiveBytes(a) + LiveBytes(b)
    decreases |b|
  {
    if b == [] {
      assert a + b == a;
    } else {
      var b' := b[..|b| - 1];
      assert (a + b)[..|a + b| - 1] == a + b';
      LiveBytesAppend(a, b');
    }
  }

  /** Dropping the tombstones shortens the buffer by exactly their number. */
  lemma {:induction false} LiveBytesLength(s: seq<Slot>)
    ensures |LiveBytes(s)| + multiset(s)[Tomb] == |s|
  {
    if s != [] {
      var s' := s[..|s| - 1];
      assert s == s' + [s[|s| - 1]];
      LiveBytesLength(s');
    }
  }

  /** A byte is among the live bytes exactly when some slot holds it. */
  lemma {:induction false} LiveBytesMember(s: seq<Slot>, x: Byte)
    ensures x in LiveBytes(s) <==> Live(x) in s
  {
    if s != [] {
      var s' := s[..|s| - 1];
      assert s == s' + [s[|s| - 1]];
      LiveBytesMember(s', x);
    }
  }

  /** A buffer without tombstones holds exactly its bytes. */
  lemma {:induction false} LiveBytesOfAllLive(s: seq<Slot>, bytes: seq<Byte>)
    requires |s| == |bytes|
    requires forall i :: 0 <= i < |s| ==> s[i] == Live(bytes[i])
    ensures LiveBytes(s) == bytes
  {
    if s != [] {
      LiveBytesOfAllLive(s[..|s| - 1], bytes[..|bytes| - 1]);
    }
  }
}
