/** Encoding: repeated passes that count pairs, pick a winner and a free code, and
    rewrite the working buffer, followed by the compaction of the buffer. */
module Encoding {
  import opened BytePair
  import opened Decoding
  import opened PairScan
  import opened Rewriting

  /** The result of `Encode` within a bound on its passes: either the result of `Encode`
      in `bytepair.go`, or `OutOfFuel` when that `Encode` would still be looping after that many passes. */
  datatype Encoded = Done(out: seq<Byte>, dict: Dictionary) | OutOfFuel

  /** The working buffer made from the input: one live slot per byte. */
  method StringToSlots(blob: seq<Byte>) returns (ints: seq<Slot>)
    ensures |ints| == |blob|
    ensures forall i :: 0 <= i < |blob| ==> ints[i] == Live(blob[i])
  {
    ints := [];
    for i := 0 to |blob|
      invariant |ints| == i
      invariant forall j :: 0 <= j < i ==> ints[j] == Live(blob[j])
    {
      ints := ints + [Live(blob[i])];
    }
  }

  /** The usage counts: how often each byte value occurs in the input. */
  method CountUsage(input: seq<Byte>) returns (used: array<int>)
    ensures fresh(used) && used.Length == 256
    ensures forall b :: 0 <= b < 256 ==> used[b] == multiset(input)[b]
  {
    used := new int[256](_ => 0);
    for i := 0 to |input|
      invariant forall b :: 0 <= b < 256 ==> used[b] == multiset(input[..i])[b]
    {
      assert input[..i + 1] == input[..i] + [input[i]];
      used[input[i]] := used[input[i]] + 1;
    }
    assert input[..|input|] == input;
  }

  /** The smallest index whose count is zero, or -1 when every count is nonzero. */
  method GetUnused(counts: seq<int>) returns (r: int)
    ensures -1 <= r < |counts|
    ensures r == -1 <==> forall i :: 0 <= i < |counts| ==> counts[i] != 0
    ensures r >= 0 ==> counts[r] == 0 && forall i :: 0 <= i < r ==> counts[i] != 0
  {
    for i := 0 to |counts|
      invariant forall j :: 0 <= j < i ==> counts[j] != 0
    {
      if counts[i] == 0 {
        return i;
      }
    }
    return -1;
  }

  /** The output: the bytes of the working buffer with its tombstones dropped. */
  method Compact(ints: array<Slot>) returns (out: seq<Byte>)
    ensures out == LiveBytes(ints[..])
    ensures |out| == ints.Length - multiset(ints[..])[Tomb]
  {
    out := [];
    for i := 0 to ints.Length
      invariant out == LiveBytes(ints[..i])
    {
      assert ints[..i + 1][..i] == ints[..i];
      if ints[i].Live? {
        out := out + [ints[i].b];
      }
    }
    assert ints[..ints.Length] == ints[..];
    LiveBytesLength(ints[..]);
  }

  /** A dictionary entry as the encoder makes it: a byte-valued key that does not occur
      in the input, and a packed pair of two bytes. */
  ghost predicate FreshEntry(e: Entry, input: seq<Byte>)
  {
    0 <= e.key < 256 && 0 <= e.value < 0x1_0000 &&
    forall i :: 0 <= i < |input| ==> input[i] != e.key
  }

  /** What holds of the encoder's state between passes: every live byte and every input
      byte has a nonzero usage count, every entry is fresh, and decoding the live bytes
      with the dictionary so far gives back the input. */
  ghost predicate Consistent(input: seq<Byte>, s: seq<Slot>, used: seq<int>, dict: Dictionary)
  {
    |s| == |input| && |used| == 256 &&
    (forall j :: 0 <= j < |s| && s[j].Live? ==> used[s[j].b] > 0) &&
    (forall i :: 0 <= i < |input| ==> used[input[i]] > 0) &&
    (forall i :: 0 <= i < |dict| ==> FreshEntry(dict[i], input)) &&
    Decoded(LiveBytes(s), dict) == input
  }

  /** The state right after the buffer and the usage counts were set up. */
  lemma InitialConsistent(input: seq<Byte>, s: seq<Slot>, used: seq<int>)
    requires |s| == |input| && forall i :: 0 <= i < |input| ==> s[i] == Live(input[i])
    requires |used| == 256 && forall b :: 0 <= b < 256 ==> used[b] == multiset(input)[b]
    ensures Consistent(input, s, used, [])
  {
    LiveBytesOfAllLive(s, input);
    forall i | 0 <= i < |input|
      ensures used[input[i]] > 0
    {
      assert input[i] in multiset(input);
    }
  }

  /** A pass that appends an entry keeps the state consistent, provided the code it
      picked has a zero usage count. */
  lemma PassConsistent(input: seq<Byte>, s: seq<Slot>, used: seq<int>,
                       dict: Dictionary, pair: int, code: Byte)
    requires Consistent(input, s, used, dict)
    requires 0 <= pair < 0x1_0000 && used[code] == 0
    ensures var s' := Rewritten(s, pair, code);
      var used' := used[code := MatchCount(s, pair, code)];
      Consistent(input, s', used', dict + [Entry(code, pair)])
  {
    PassCounts(input, s, used, pair, code);
    var s' := Rewritten(s, pair, code);
    assert Live(code) !in s;
    RewrittenExpands(s, pair, code);
    DecodedSnoc(LiveBytes(s'), dict, Entry(code, pair));
  }

  /** After a pass, every live byte and every input byte still has a nonzero usage
      count, and the code is not an input byte. */
  lemma PassCounts(input: seq<Byte>, s: seq<Slot>, used: seq<int>, pair: int, code: Byte)
    requires |used| == 256 && used[code] == 0
    requires forall j :: 0 <= j < |s| && s[j].Live? ==> used[s[j].b] > 0
    requires forall i :: 0 <= i < |input| ==> used[input[i]] > 0
    ensures var s' := Rewritten(s, pair, code);
      var used' := used[code := MatchCount(s, pair, code)];
      && (forall j :: 0 <= j < |s'| && s'[j].Live? ==> used'[s'[j].b] > 0)
      && (forall i :: 0 <= i < |input| ==> input[i] != code && used'[input[i]] > 0)
  {
    var s' := Rewritten(s, pair, code);
    var used' := used[code := MatchCount(s, pair, code)];
    forall j | 0 <= j < |s'| && s'[j].Live?
      ensures used'[s'[j].b] > 0
    {
      RewrittenLive(s, pair, code, s'[j].b);
    }
  }

  /** What one substitution does to a consistent state, on values: the new state is
      consistent with the entry appended, it has one more tombstone per rewritten pair,
      and a substitution that rewrote nothing changed nothing. */
  lemma PassEffect(input: seq<Byte>, s: seq<Slot>, used: seq<int>,
                   dict: Dictionary, pair: int, code: Byte)
    requires Consistent(input, s, used, dict)
    requires 0 <= pair < 0x1_0000 && used[code] == 0
    ensures var s', m := Rewritten(s, pair, code), MatchCount(s, pair, code);
      && Consistent(input, s', used[code := m], dict + [Entry(code, pair)])
      && multiset(s')[Tomb] == multiset(s)[Tomb] + m <= |s|
      && (m == 0 ==> s' == s && used[code := m] == used)
  {
    PassConsistent(input, s, used, dict, pair, code);
    RewrittenTombs(s, pair, code);
    LiveBytesLength(Rewritten(s, pair, code));
    if MatchCount(s, pair, code) == 0 {
      RewrittenNoMatch(s, pair, code);
    }
  }

  /** The rewriting half of a pass: `pair` becomes `code` throughout the buffer, and the
      usage count of `code` becomes the number of pairs rewritten. */
  method ApplyEntry(ints: array<Slot>, used: array<int>, pair: int, code: Byte,
                    ghost input: seq<Byte>, ghost dict: Dictionary)
    returns (matched: nat)
    requires used.Length == 256 && 0 <= pair < 0x1_0000 && used[code] == 0
    requires Consistent(input, ints[..], used[..], dict)
    modifies ints, used
    ensures ints[..] == Rewritten(old(ints[..]), pair, code)
    ensures matched == MatchCount(old(ints[..]), pair, code)
    ensures used[..] == old(used[..])[code := matched]
    ensures matched == 0 ==> ints[..] == old(ints[..]) && used[..] == old(used[..])
    ensures Consistent(input, ints[..], used[..], dict + [Entry(code, pair)])
    ensures multiset(ints[..])[Tomb] == old(multiset(ints[..])[Tomb]) + matched <= ints.Length
  {
    PassEffect(input, ints[..], used[..], dict, pair, code);
    ghost var used0 := used[..];
    RewritePairs(ints, used, pair, code);
    matched := used[code];
    assert used[..] == used0[code := matched];
  }

  /** The state the encoder's loop starts from: the working buffer made from the input
      and the usage counts of the input. */
  method Setup(input: seq<Byte>) returns (ints: array<Slot>, used: array<int>)
    ensures fresh(ints) && fresh(used)
    ensures ints.Length == |input| && forall i :: 0 <= i < |input| ==> ints[i] == Live(input[i])
    ensures used.Length == 256 && forall b :: 0 <= b < 256 ==> used[b] == multiset(input)[b]
    ensures Consistent(input, ints[..], used[..], [])
  {
    var slots := StringToSlots(input);
    ints := new Slot[|slots|](i requires 0 <= i < |slots| => slots[i]);
    used := CountUsage(input);
    InitialConsistent(input, ints[..], used[..]);
  }

  /** One pass of the encoder's loop: count the pairs, and unless that ends the loop,
      pick the first unused code, and rewrite the buffer. `added` is the entry the pass
      appends to the dictionary (none when the loop ends), `matched` the number of pairs
      it rewrote. */
  method EncodePass(ints: array<Slot>, used: array<int>, p0: int,
                    ghost input: seq<Byte>, ghost dict: Dictionary)
    returns (p: int, added: Option<Entry>, matched: nat)
    requires ints.Length > 0 && used.Length == 256
    requires Consistent(input, ints[..], used[..], dict)
    modifies ints, used
    ensures var st := Scan(old(ints[0]), p0, old(ints[1..]));
      && p == st.p
      && (added.None? <==> st.maxCnt == 0 || forall b :: 0 <= b < 256 ==> old(used[b]) != 0)
      && (added.Some? ==> added.value.value == st.maxPair)
    ensures added.None? ==> matched == 0
    ensures matched == 0 ==> ints[..] == old(ints[..]) && used[..] == old(used[..])
    ensures added.Some? ==>
      var code := added.value.key;
      && 0 <= code < 256 && old(used[code]) == 0
      && (forall b :: 0 <= b < code ==> old(used[b]) != 0)
      && ints[..] == Rewritten(old(ints[..]), added.value.value, code)
      && matched == MatchCount(old(ints[..]), added.value.value, code)
      && used[..] == old(used[..])[code := matched]
    ensures Consistent(input, ints[..], used[..], if added.Some? then dict + [added.value] else dict)
    ensures multiset(ints[..])[Tomb] == old(multiset(ints[..])[Tomb]) + matched <= ints.Length
  {
    LiveBytesLength(ints[..]);
    var maxCnt, maxPair;
    maxCnt, maxPair, p := CountPairs(ints, p0);
    if maxCnt == 0 {
      return p, None, 0;
    }
    var unused := GetUnused(used[..]);
    if unused == -1 {
      return p, None, 0;
    }
    matched := ApplyEntry(ints, used, maxPair, unused, input, dict);
    added := Some(Entry(unused, maxPair));
  }

  /** `Encode` as `bytepair.go` writes it, run for at most `fuel` passes of its loop.
      The loop there has no bound, and on some inputs it never ends (see
      `StuckPassRepeats`); every result it does return is `Done` for a large enough
      `fuel`. */
  method Encode(input: seq<Byte>, fuel: nat) returns (r: Encoded)
    ensures |input| < 4 ==> r == Done(input, [])
    ensures r.Done? ==> Decoded(r.out, r.dict) == input
    ensures r.Done? ==> |r.out| <= |input|
    ensures r.Done? ==> forall i :: 0 <= i < |r.dict| ==> FreshEntry(r.dict[i], input)
  {
    if |input| < 4 {
      return Done(input, []);
    }
    var ints, used := Setup(input);
    var p := NoBigram;
    var dict: Dictionary := [];
    var passes := 0;
    while passes < fuel
      invariant ints.Length == |input| && used.Length == 256
      invariant Consistent(input, ints[..], used[..], dict)
    {
      var added, matched;
      p, added, matched := EncodePass(ints, used, p, input, dict);
      if added.None? {
        var out := Compact(ints);
        return Done(out, dict);
      }
      dict := dict + [added.value];
      passes := passes + 1;
    }
    return OutOfFuel;
  }

  /** Every key of `dict` is a byte with a nonzero usage count, and no two are equal. */
  ghost predicate DistinctKeys(dict: Dictionary, used: seq<int>)
  {
    |used| == 256 &&
    (forall i :: 0 <= i < |dict| ==> 0 <= dict[i].key < 256 && used[dict[i].key] > 0) &&
    (forall i, j :: 0 <= i < j < |dict| ==> dict[i].key != dict[j].key)
  }

  /** The keys of the entries kept by `EncodeTotal` stay distinct: each has a nonzero
      usage count, and the next key is picked where the count is zero. */
  lemma KeysStayDistinct(dict: Dictionary, used: seq<int>, e: Entry, matched: nat)
    requires DistinctKeys(dict, used)
    requires 0 <= e.key < 256 && used[e.key] == 0 && matched > 0
    ensures DistinctKeys(dict + [e], used[e.key := matched])
  {
  }

  /** Encode with the loop made to end: a pass that rewrote nothing ends the loop instead
      of appending its entry. Every pass that goes on removes at least one byte, so the
      loop ends, and no code is picked twice. */
  method EncodeTotal(input: seq<Byte>) returns (out: seq<Byte>, dict: Dictionary)
    ensures |input| < 4 ==> out == input && dict == []
    ensures Decoded(out, dict) == input
    ensures |out| <= |input|
    ensures forall i :: 0 <= i < |dict| ==> FreshEntry(dict[i], input)
    ensures forall i, j :: 0 <= i < j < |dict| ==> dict[i].key != dict[j].key
  {
    if |input| < 4 {
      return input, [];
    }
    var ints, used := Setup(input);
    dict := PassesUntilNoMatch(ints, used, input);
    out := Compact(ints);
  }

  /** The loop of `EncodeTotal`: passes until one ends the loop or rewrites nothing. */
  method PassesUntilNoMatch(ints: array<Slot>, used: array<int>, ghost input: seq<Byte>)
    returns (dict: Dictionary)
    requires ints.Length > 0 && used.Length == 256
    requires Consistent(input, ints[..], used[..], [])
    modifies ints, used
    ensures Consistent(input, ints[..], used[..], dict)
    ensures forall i, j :: 0 <= i < j < |dict| ==> dict[i].key != dict[j].key
  {
    LiveBytesLength(ints[..]);
    var p := NoBigram;
    dict := [];
    while true
      invariant Consistent(input, ints[..], used[..], dict)
      invariant DistinctKeys(dict, used[..])
      invariant multiset(ints[..])[Tomb] <= ints.Length
      decreases ints.Length - multiset(ints[..])[Tomb]
    {
      ghost var used0 := used[..];
      var added, matched;
      p, added, matched := EncodePass(ints, used, p, input, dict);
      if matched == 0 {
        break;
      }
      KeysStayDistinct(dict, used0, added.value, matched);
      dict := dict + [added.value];
    }
  }
}
