/** The rewriting pass of the encoder: every raw adjacent match of the winning pair
    becomes a tombstone followed by the substitute code. */
module Rewriting {
  import opened BytePair
  import opened Decoding

  /** Whether two raw adjacent slots form the packed pair `pair`. A slot holding a
      tombstone never forms a pair: the value `Encode` computes for it is then negative. */
  predicate Matches(x: Slot, y: Slot, pair: int)
  {
    x.Live? && y.Live? && PackLive(x.b, y.b) == pair
  }

  /** The buffer after the rewriting pass, scanning left to right: a match at the front
      turns into a tombstone, and the code it leaves in the next slot takes part in the
      comparison that follows. */
  function Rewritten(s: seq<Slot>, pair: int, code: Byte): (r: seq<Slot>)
    ensures |r| == |s|
    decreases |s|
  {
    if |s| < 2 then s
    else if Matches(s[0], s[1], pair) then [Tomb] + Rewritten([Live(code)] + s[2..], pair, code)
    else [s[0]] + Rewritten(s[1..], pair, code)
  }

  /** The number of matches that pass rewrites. */
  function MatchCount(s: seq<Slot>, pair: int, code: Byte): nat
    decreases |s|
  {
    if |s| < 2 then 0
    else if Matches(s[0], s[1], pair) then 1 + MatchCount([Live(code)] + s[2..], pair, code)
    else MatchCount(s[1..], pair, code)
  }

  /** The rewriting loop as `Encode` in `bytepair.go` runs it, in place on the buffer; each match also
      counts one more use of the code. */
  method RewritePairs(ints: array<Slot>, used: array<int>, pair: int, code: Byte)
    requires used.Length == 256
    modifies ints, used
    ensures ints[..] == Rewritten(old(ints[..]), pair, code)
    ensures used[code] == old(used[code]) + MatchCount(old(ints[..]), pair, code)
    ensures forall b :: 0 <= b < 256 && b != code ==> used[b] == old(used[b])
  {
    ghost var orig := ints[..];
    var n := ints.Length;
    var i := 0;
    while i + 1 < n
      invariant 0 <= i <= n
      invariant n == 0 || i < n
      invariant RewriteProgress(ints[..], i, orig, pair, code)
      invariant used[code] + MatchCount(ints[i..], pair, code) ==
                old(used[code]) + MatchCount(orig, pair, code)
      invariant forall b :: 0 <= b < 256 && b != code ==> used[b] == old(used[b])
    {
      ghost var before := ints[..];
      if Matches(ints[i], ints[i + 1], pair) {
        ints[i] := Tomb;
        ints[i + 1] := Live(code);
        used[code] := used[code] + 1;
      }
      AdvanceRewrite(before, ints[..], i, orig, pair, code);
      i := i + 1;
    }
    FinishRewrite(ints[..], i, orig, pair, code);
  }

  /** The loop invariant of the rewriting pass: the slots before `i` are final, the slot
      at `i` is the current one, and the slots after it are untouched. */
  ghost predicate RewriteProgress(cur: seq<Slot>, i: nat, orig: seq<Slot>, pair: int, code: Byte)
  {
    |cur| == |orig| && i <= |cur| &&
    cur[..i] + Rewritten(cur[i..], pair, code) == Rewritten(orig, pair, code) &&
    (i < |cur| ==> cur[i + 1..] == orig[i + 1..])
  }

  lemma AdvanceRewrite(before: seq<Slot>, after: seq<Slot>, i: nat, orig: seq<Slot>,
                       pair: int, code: Byte)
    requires i + 1 < |before| && RewriteProgress(before, i, orig, pair, code)
    requires after == if Matches(before[i], before[i + 1], pair)
                      then before[i := Tomb][i + 1 := Live(code)] else before
    ensures RewriteProgress(after, i + 1, orig, pair, code)
    ensures MatchCount(before[i..], pair, code) ==
            MatchCount(after[i + 1..], pair, code) +
            (if Matches(before[i], before[i + 1], pair) then 1 else 0)
  {
    if Matches(before[i], before[i + 1], pair) {
      AdvanceOnMatch(before, after, i, orig, pair, code);
    } else {
      AdvancePast(before, i, orig, pair, code);
    }
  }

  /** A step of the rewriting loop at a match. */
  lemma AdvanceOnMatch(before: seq<Slot>, after: seq<Slot>, i: nat, orig: seq<Slot>,
                       pair: int, code: Byte)
    requires i + 1 < |before| && RewriteProgress(before, i, orig, pair, code)
    requires Matches(before[i], before[i + 1], pair)
    requires after == before[i := Tomb][i + 1 := Live(code)]
    ensures RewriteProgress(after, i + 1, orig, pair, code)
    ensures MatchCount(before[i..], pair, code) == MatchCount(after[i + 1..], pair, code) + 1
  {
    var t := before[i..];
    var u := [Live(code)] + before[i + 2..];
    RewrittenAtMatch(t, pair, code);
    assert t[2..] == before[i + 2..];
    assert after[i + 1..] == u;
    assert after[..i + 1] == before[..i] + [Tomb];
    SplitAfterHead(before[..i], Tomb, Rewritten(u, pair, code));
  }

  /** The front of a buffer that starts with a match. */
  lemma RewrittenAtMatch(t: seq<Slot>, pair: int, code: Byte)
    requires |t| >= 2 && Matches(t[0], t[1], pair)
    ensures Rewritten(t, pair, code) == [Tomb] + Rewritten([Live(code)] + t[2..], pair, code)
    ensures MatchCount(t, pair, code) == 1 + MatchCount([Live(code)] + t[2..], pair, code)
  {
  }

  lemma SplitAfterHead(a: seq<Slot>, x: Slot, b: seq<Slot>)
    ensures (a + [x]) + b == a + ([x] + b)
  {
  }

  /** A step of the rewriting loop past a slot that does not start a match. */
  lemma AdvancePast(before: seq<Slot>, i: nat, orig: seq<Slot>, pair: int, code: Byte)
    requires i + 1 < |before| && RewriteProgress(before, i, orig, pair, code)
    requires !Matches(before[i], before[i + 1], pair)
    ensures RewriteProgress(before, i + 1, orig, pair, code)
    ensures MatchCount(before[i..], pair, code) == MatchCount(before[i + 1..], pair, code)
  {
    var t := before[i..];
    assert t[0] == before[i] && t[1] == before[i + 1] && t[1..] == before[i + 1..];
    assert before[..i + 1] == before[..i] + [before[i]];
  }

  lemma FinishRewrite(cur: seq<Slot>, i: nat, orig: seq<Slot>, pair: int, code: Byte)
    requires RewriteProgress(cur, i, orig, pair, code)
    requires |cur| == 0 || i + 1 == |cur|
    ensures cur == Rewritten(orig, pair, code) && MatchCount(cur[i..], pair, code) == 0
  {
    assert cur[..i] + cur[i..] == cur;
  }

  /** A pass whose pair does not match anywhere changes nothing. */
  lemma {:induction false} RewrittenNoMatch(s: seq<Slot>, pair: int, code: Byte)
    requires MatchCount(s, pair, code) == 0
    ensures Rewritten(s, pair, code) == s
    decreases |s|
  {
    if |s| >= 2 {
      RewrittenNoMatch(s[1..], pair, code);
      assert s == [s[0]] + s[1..];
    }
  }

  /** Every slot of the rewritten buffer is what it was, a tombstone, or the code. */
  lemma {:induction false} RewrittenSlots(s: seq<Slot>, pair: int, code: Byte)
    ensures var r := Rewritten(s, pair, code);
      forall j :: 0 <= j < |s| ==> r[j] == s[j] || r[j] == Tomb || r[j] == Live(code)
    decreases |s|
  {
    if |s| >= 2 {
      var r := Rewritten(s, pair, code);
      if Matches(s[0], s[1], pair) {
        var t := [Live(code)] + s[2..];
        RewrittenSlots(t, pair, code);
        assert r == [Tomb] + Rewritten(t, pair, code);
        assert forall j :: 1 < j < |s| ==> t[j - 1] == s[j];
      } else {
        RewrittenSlots(s[1..], pair, code);
        assert r == [s[0]] + Rewritten(s[1..], pair, code);
      }
    }
  }

  /** A pass adds exactly one tombstone per match. */
  lemma {:induction false} RewrittenTombs(s: seq<Slot>, pair: int, code: Byte)
    ensures multiset(Rewritten(s, pair, code))[Tomb] == multiset(s)[Tomb] + MatchCount(s, pair, code)
    decreases |s|
  {
    if |s| >= 2 {
      var r := Rewritten(s, pair, code);
      if Matches(s[0], s[1], pair) {
        var t := [Live(code)] + s[2..];
        RewrittenTombs(t, pair, code);
        RewrittenAtMatch(s, pair, code);
        FrontSlots(s);
        assert multiset(s)[Tomb] == multiset(s[2..])[Tomb] == multiset(t)[Tomb];
      } else {
        RewrittenTombs(s[1..], pair, code);
        FrontSlots(s);
      }
    }
  }

  /** The bytes left live after a pass were live before, except the code, which is
      left only if something was rewritten. */
  lemma {:induction false} RewrittenLive(s: seq<Slot>, pair: int, code: Byte, x: Byte)
    requires Live(x) in Rewritten(s, pair, code)
    ensures Live(x) in s || (x == code && MatchCount(s, pair, code) > 0)
    decreases |s|
  {
    if |s| >= 2 {
      if Matches(s[0], s[1], pair) {
        var t := [Live(code)] + s[2..];
        RewrittenLive(t, pair, code, x);
        if x != code {
          assert Live(x) in s[2..];
        }
      } else {
        if Live(x) != s[0] {
          RewrittenLive(s[1..], pair, code, x);
        }
      }
    }
  }

  /** The two halves of a packed pair. */
  lemma PackedHalves(pair: int, x: Byte, y: Byte)
    requires pair == PackLive(x, y)
    ensures High(pair) == x && Low(pair) == y
  {
  }

  lemma FrontSlots(s: seq<Slot>)
    requires |s| >= 2
    ensures s == [s[0], s[1]] + s[2..] && s == [s[0]] + s[1..]
  {
  }

  /** What one slot contributes to the expanded live bytes. */
  function SlotExpansion(x: Slot, e: Entry): seq<Byte>
  {
    if x.Live? then Substitute(x.b, e) else []
  }

  /** Expanding the live bytes of a buffer splits at its first slot. */
  lemma ExpandLiveCons(x: Slot, r: seq<Slot>, e: Entry)
    ensures Expand(LiveBytes([x] + r), e) == SlotExpansion(x, e) + Expand(LiveBytes(r), e)
  {
    LiveBytesAppend([x], r);
    ExpandAppend(LiveBytes([x]), LiveBytes(r), e);
    assert [x][..0] == [];
    if x.Live? {
      assert [x.b][..0] == [];
    }
  }

  /** ... and at its first two slots. */
  lemma ExpandFront(x: Slot, y: Slot, rest: seq<Slot>, e: Entry)
    ensures Expand(LiveBytes([x, y] + rest), e) ==
            SlotExpansion(x, e) + SlotExpansion(y, e) + Expand(LiveBytes(rest), e)
  {
    TwoFront(x, y, rest);
    ExpandLiveCons(x, [y] + rest, e);
    ExpandLiveCons(y, rest, e);
    ConcatAssoc(SlotExpansion(x, e), SlotExpansion(y, e), Expand(LiveBytes(rest), e));
  }

  lemma TwoFront(x: Slot, y: Slot, rest: seq<Slot>)
    ensures [x, y] + rest == [x] + ([y] + rest)
  {
  }

  lemma ConcatAssoc(a: seq<Byte>, b: seq<Byte>, c: seq<Byte>)
    ensures a + (b + c) == a + b + c
  {
  }

  /** A match expands back: the tombstone disappears and the code becomes the pair. */
  lemma MatchExpands(x: Byte, y: Byte, rest: seq<Slot>, pair: int, code: Byte)
    requires pair == PackLive(x, y)
    requires x != code && y != code
    ensures Expand(LiveBytes([Tomb, Live(code)] + rest), Entry(code, pair)) ==
            Expand(LiveBytes([Live(x), Live(y)] + rest), Entry(code, pair))
  {
    PackedHalves(pair, x, y);
    ExpandFront(Tomb, Live(code), rest, Entry(code, pair));
    ExpandFront(Live(x), Live(y), rest, Entry(code, pair));
  }

  /** The round-trip step from the front of a buffer whose first slot may already hold
      the code (it was left by the match before), provided the code cannot start a
      match. */
  lemma {:induction false} RewrittenExpandsFrom(s: seq<Slot>, pair: int, code: Byte)
    requires 0 <= pair < 0x1_0000
    requires forall j :: 1 <= j < |s| ==> s[j] != Live(code)
    requires |s| > 0 && s[0] == Live(code) ==> High(pair) != code
    ensures Expand(LiveBytes(Rewritten(s, pair, code)), Entry(code, pair)) ==
            Expand(LiveBytes(s), Entry(code, pair))
    decreases |s|
  {
    var e := Entry(code, pair);
    if |s| >= 2 {
      FrontSlots(s);
      if Matches(s[0], s[1], pair) {
        var t := [Live(code)] + s[2..];
        PackedHalves(pair, s[0].b, s[1].b);
        RewrittenExpandsFrom(t, pair, code);
        ExpandLiveCons(Tomb, Rewritten(t, pair, code), e);
        ExpandLiveCons(Tomb, t, e);
        assert [Tomb] + t == [Tomb, Live(code)] + s[2..];
        MatchExpands(s[0].b, s[1].b, s[2..], pair, code);
      } else {
        RewrittenExpandsFrom(s[1..], pair, code);
        ExpandLiveCons(s[0], Rewritten(s[1..], pair, code), e);
        ExpandLiveCons(s[0], s[1..], e);
      }
    }
  }

  /** The round trip of one pass: when the code does not occur in the buffer, expanding
      the code of the rewritten buffer gives back the bytes of the buffer before. */
  lemma RewrittenExpands(s: seq<Slot>, pair: int, code: Byte)
    requires 0 <= pair < 0x1_0000
    requires Live(code) !in s
    ensures Expand(LiveBytes(Rewritten(s, pair, code)), Entry(code, pair)) == LiveBytes(s)
  {
    RewrittenExpandsFrom(s, pair, code);
    LiveBytesMember(s, code);
    ExpandAbsentKey(LiveBytes(s), Entry(code, pair));
  }

  /** Matches never overlap: when the code does not occur in the buffer, every slot the
      pass turns into a tombstone is followed by the code. */
  lemma {:induction false} TombFollowedByCode(s: seq<Slot>, pair: int, code: Byte, j: nat)
    requires forall i :: 1 <= i < |s| ==> s[i] != Live(code)
    requires |s| > 0 && s[0] == Live(code) ==> pair / 256 != code
    requires j < |s| && s[j] != Tomb && Rewritten(s, pair, code)[j] == Tomb
    ensures j + 1 < |s| && Rewritten(s, pair, code)[j + 1] == Live(code)
    decreases |s|
  {
    if Matches(s[0], s[1], pair) {
      var t := [Live(code)] + s[2..];
      if j == 0 {
        assert Rewritten(t, pair, code)[0] == Live(code);
      } else {
        assert t[j - 1] != Tomb;
        TombFollowedByCode(t, pair, code, j - 1);
      }
    } else {
      TombFollowedByCode(s[1..], pair, code, j - 1);
    }
  }

  /** `k` times a tombstone followed by the code `c`. */
  function TombCodes(c: Byte, k: nat): seq<Slot>
  {
    if k == 0 then [] else [Tomb, Live(c)] + TombCodes(c, k - 1)
  }

  /** A run of `2k` copies of a byte, rewritten with its own pair "aa" and a code other
      than the byte, becomes `k` tombstone-code pairs: each match consumes two bytes,
      and the code it leaves never starts the next match. */
  lemma {:induction false} RewrittenRun(a: Byte, c: Byte, k: nat)
    requires a != c
    ensures Rewritten(Run(a, 2 * k), a * 257, c) == TombCodes(c, k)
    ensures MatchCount(Run(a, 2 * k), a * 257, c) == k
  {
    if k > 0 {
      var s := Run(a, 2 * k);
      var u := [Live(c)] + s[2..];
      assert s[2..] == Run(a, 2 * k - 2);
      RewrittenAtMatch(s, a * 257, c);
      RewrittenRun(a, c, k - 1);
      if k > 1 {
        assert !Matches(u[0], u[1], a * 257);
        assert u[1..] == Run(a, 2 * (k - 1));
      }
    }
  }
}
