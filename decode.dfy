/** Decoding: replaying a dictionary from its last entry to its first. */
module Decoding {
  import opened BytePair

  /** Bits 8..15 of a packed bigram (`Value >> 8 & 0xff`): the first byte of the pair. */
  function High(v: int): Byte { (v / 256) % 256 }

  /** Bits 0..7 of a packed bigram (`Value & 0xff`): the second byte of the pair. */
  function Low(v: int): Byte { v % 256 }

  /** What one byte becomes under one entry: its bigram if it is the entry's key,
      otherwise itself. */
  function Substitute(b: Byte, e: Entry): seq<Byte>
  {
    if b == e.key then [High(e.value), Low(e.value)] else [b]
  }

  /** One decoding pass: every byte of `s` substituted under `e`, in order. */
  function Expand(s: seq<Byte>, e: Entry): seq<Byte>
  {
    if s == [] then [] else Expand(s[..|s| - 1], e) + Substitute(s[|s| - 1], e)
  }

  /** The result of decoding `s` with `dict`: the last entry is expanded first. */
  function Decoded(s: seq<Byte>, dict: Dictionary): seq<Byte>
    decreases |dict|
  {
    if dict == [] then s
    else Decoded(Expand(s, dict[|dict| - 1]), dict[..|dict| - 1])
  }

  /** `Decode` as `bytepair.go` writes it: one fresh output buffer per entry, from the last
      entry to the first, each appending either the byte or the two bytes of its bigram. */
  method Decode(input: seq<Byte>, dict: Dictionary) returns (out: seq<Byte>)
    ensures out == Decoded(input, dict)
  {
    var cur := input;
    var i := |dict|;
    assert dict[..i] == dict;
    while i > 0
      invariant 0 <= i <= |dict|
      invariant Decoded(cur, dict[..i]) == Decoded(input, dict)
    {
      i := i - 1;
      var e := dict[i];
      var next: seq<Byte> := [];
      var j := 0;
      while j < |cur|
        invariant 0 <= j <= |cur|
        invariant next == Expand(cur[..j], e)
      {
        var b := cur[j];
        if b != e.key {
          next := next + [b];
        } else {
          next := next + [High(e.value), Low(e.value)];
        }
        assert cur[..j + 1][..j] == cur[..j];
        j := j + 1;
      }
      assert cur[..j] == cur;
      assert dict[..i + 1][..i] == dict[..i];
      cur := next;
    }
    assert dict[..0] == [];
    out := cur;
  }

  /** An empty dictionary leaves the input as it is. */
  lemma DecodedEmpty(s: seq<Byte>)
    ensures Decoded(s, []) == s
  {
  }

  /** Appending an entry to a dictionary means expanding it before everything else. */
  lemma DecodedSnoc(s: seq<Byte>, dict: Dictionary, e: Entry)
    ensures Decoded(s, dict + [e]) == Decoded(Expand(s, e), dict)
  {
    assert (dict + [e])[..|dict|] == dict;
  }

  /** Expansion works byte by byte, so it distributes over concatenation. */
  lemma {:induction false} ExpandAppend(a: seq<Byte>, b: seq<Byte>, e: Entry)
    ensures Expand(a + b, e) == Expand(a, e) + Expand(b, e)
    decreases |b|
  {
    if b == [] {
      assert a + b == a;
    } else {
      var b' := b[..|b| - 1];
      assert (a + b)[..|a + b| - 1] == a + b';
      ExpandAppend(a, b', e);
    }
  }

  /** Every occurrence of the key becomes two bytes; nothing else changes length. */
  lemma {:induction false} ExpandLength(s: seq<Byte>, e: Entry)
    requires 0 <= e.key < 256
    ensures |Expand(s, e)| == |s| + multiset(s)[e.key]
  {
    if s != [] {
      var s' := s[..|s| - 1];
      assert s == s' + [s[|s| - 1]];
      ExpandLength(s', e);
    }
  }

  /** An entry whose key does not occur leaves the buffer unchanged. */
  lemma {:induction false} ExpandAbsentKey(s: seq<Byte>, e: Entry)
    requires forall i :: 0 <= i < |s| ==> s[i] != e.key
    ensures Expand(s, e) == s
  {
    if s != [] {
      var s' := s[..|s| - 1];
      assert s == s' + [s[|s| - 1]];
      ExpandAbsentKey(s', e);
    }
  }

  /** Once an entry whose bigram does not contain its own key has been expanded, the
      key no longer occurs. */
  lemma {:induction false} ExpandRemovesKey(s: seq<Byte>, e: Entry)
    requires High(e.value) != e.key && Low(e.value) != e.key
    ensures forall i :: 0 <= i < |Expand(s, e)| ==> Expand(s, e)[i] != e.key
  {
    if s != [] {
      ExpandRemovesKey(s[..|s| - 1], e);
    }
  }

  /** Decoding works byte by byte too: decoding a concatenation decodes each part. */
  lemma {:induction false} DecodedAppend(a: seq<Byte>, b: seq<Byte>, dict: Dictionary)
    ensures Decoded(a + b, dict) == Decoded(a, dict) + Decoded(b, dict)
    decreases |dict|
  {
    if dict != [] {
      var e := dict[|dict| - 1];
      ExpandAppend(a, b, e);
      DecodedAppend(Expand(a, e), Expand(b, e), dict[..|dict| - 1]);
    }
  }
}
