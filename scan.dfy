/** The counting pass of the encoder: one scan of the working buffer that tallies
    adjacent pairs and picks the winner of the pass. */
module PairScan {
  import opened BytePair

  /** The tracker value meaning "no previous bigram". */
  const NoBigram: int := -1

  /** The integer `Encode` in `bytepair.go` computes for `b1<<8 | b2` while counting. The second
      byte is always live; the first is a tombstone only when the buffer starts with
      one, and then its value is `b2 - 256` (note that this is `NoBigram`
      when `b2` is 255). */
  function Pack(b1: Slot, b2: Byte): int
  {
    if b1.Tomb? then b2 - 256 else PackLive(b1.b, b2)
  }

  /** The state of the scan: the first byte of the next bigram, the previous-bigram
      tracker, the tally map, the best count and pair so far, and the sequence of
      bigrams tallied so far (a history kept for the specification only). */
  datatype ScanState = ScanState(
    b1: Slot, p: int, bp: map<int, int>, maxCnt: int, maxPair: int, counted: seq<int>)

  /** The scan before its first step. */
  function Start(b1: Slot, p: int): ScanState
  {
    ScanState(b1, p, map[], 0, 0, [])
  }

  /** One step of the scan, over the next slot `b2`. */
  function Step(st: ScanState, b2: Slot): ScanState
  {
    if b2.Tomb? then st
    else
      var bigram := Pack(st.b1, b2.b);
      if st.p == bigram then st.(p := NoBigram)
      else
        var n := (if bigram in st.bp then st.bp[bigram] else 0) + 1;
        var better := n > 1 && n > st.maxCnt;
        ScanState(b2, bigram, st.bp[bigram := n],
                  if better then n else st.maxCnt,
                  if better then bigram else st.maxPair,
                  st.counted + [bigram])
  }

  /** The scan over the slots `s` that follow the first slot `b1`, with the tracker
      left by the previous pass. */
  function Scan(b1: Slot, p: int, s: seq<Slot>): ScanState
  {
    if s == [] then Start(b1, p) else Step(Scan(b1, p, s[..|s| - 1]), s[|s| - 1])
  }

  /** The counting pass as `Encode` in `bytepair.go` runs it: the tracker `p` comes from the previous
      pass and is handed on to the next one. */
  method CountPairs(ints: array<Slot>, p0: int) returns (maxCnt: int, maxPair: int, p: int)
    requires ints.Length > 0
    ensures var st := Scan(ints[0], p0, ints[1..]);
      maxCnt == st.maxCnt && maxPair == st.maxPair && p == st.p
    ensures maxCnt == 0 || maxCnt > 1
    ensures maxCnt > 0 ==> 0 <= maxPair < 0x1_0000
  {
    var bp: map<int, int> := map[];
    var b1 := ints[0];
    maxCnt, maxPair, p := 0, 0, p0;
    var i := 1;
    while i < ints.Length
      invariant 1 <= i <= ints.Length
      invariant var st := Scan(ints[0], p0, ints[1..i]);
        b1 == st.b1 && p == st.p && bp == st.bp && maxCnt == st.maxCnt && maxPair == st.maxPair
    {
      assert ints[1..i + 1][..i - 1] == ints[1..i];
      var b2 := ints[i];
      i := i + 1;
      if b2.Tomb? {
        continue;
      }
      var bigram := Pack(b1, b2.b);
      if p == bigram {
        p := NoBigram;
        continue;
      } else {
        p := bigram;
      }
      b1 := b2;
      var n := (if bigram in bp then bp[bigram] else 0) + 1;
      bp := bp[bigram := n];
      if n > 1 && n > maxCnt {
        maxCnt := n;
        maxPair := bigram;
      }
    }
    assert ints[1..i] == ints[1..];
    WinnerRule(ints[0], p0, ints[1..]);
  }

  /** The invariant of the scan, in terms of the history of tallied bigrams. */
  ghost predicate Tallied(st: ScanState)
  {
    TallyMap(st) && TalliedKeys(st) && BestSoFar(st)
  }

  /** The tally map counts exactly the history. */
  ghost predicate TallyMap(st: ScanState)
  {
    (forall k :: k in st.bp <==> k in st.counted) &&
    (forall k :: k in st.bp ==> st.bp[k] == multiset(st.counted)[k])
  }

  /** Only the very first bigram of a pass can have a tombstone as its first byte, so a
      negative bigram is tallied at most once. */
  ghost predicate TalliedKeys(st: ScanState)
  {
    (st.b1.Tomb? ==> st.counted == []) &&
    (forall k :: k in st.counted ==> -256 <= k < 0x1_0000) &&
    (forall k :: k < 0 ==> multiset(st.counted)[k] <= 1)
  }

  /** `maxCnt` and `maxPair` describe the best tally of the history. */
  ghost predicate BestSoFar(st: ScanState)
  {
    BestOf(st.counted, st.maxCnt, st.maxPair)
  }

  /** `maxCnt` is 0 when no bigram of `counted` occurs twice, and otherwise the largest
      tally, reached first by `maxPair`. */
  ghost predicate BestOf(counted: seq<int>, maxCnt: int, maxPair: int)
  {
    var m := multiset(counted);
    (maxCnt == 0 || maxCnt > 1) &&
    (maxCnt == 0 ==> forall k :: m[k] <= 1) &&
    (maxCnt > 0 ==> m[maxPair] == maxCnt && 0 <= maxPair < 0x1_0000) &&
    (maxCnt > 0 ==> forall k :: m[k] <= maxCnt) &&
    (maxCnt > 0 ==> FirstToReach(counted, maxPair, maxCnt))
  }

  /** Whenever any other pair had been tallied `n` times, `w` had been too: `w` was the
      first pair to reach `n`. */
  ghost predicate FirstToReach(counted: seq<int>, w: int, n: int)
  {
    forall j, k :: 0 <= j <= |counted| && k != w && multiset(counted[..j])[k] >= n ==>
      multiset(counted[..j])[w] >= n
  }

  lemma PrefixMultiset(s: seq<int>, j: nat)
    requires j <= |s|
    ensures multiset(s[..j]) <= multiset(s)
  {
    assert s == s[..j] + s[j..];
  }

  lemma StartTallied(b1: Slot, p: int)
    ensures Tallied(Start(b1, p))
  {
  }

  /** The step that tallies `bigram`, in the terms of the history. */
  lemma TallyStep(st: ScanState, b2: Slot)
    requires b2.Live? && st.p != Pack(st.b1, b2.b)
    requires TallyMap(st)
    ensures var bigram := Pack(st.b1, b2.b);
      var st' := Step(st, b2);
      && st'.counted == st.counted + [bigram]
      && multiset(st'.counted) == multiset(st.counted) + multiset{bigram}
      && multiset(st'.counted)[bigram] == (if bigram in st.bp then st.bp[bigram] else 0) + 1
      && TallyMap(st')
  {
  }

  lemma StepKeys(st: ScanState, b2: Slot)
    requires b2.Live? && st.p != Pack(st.b1, b2.b)
    requires TallyMap(st) && TalliedKeys(st)
    ensures TalliedKeys(Step(st, b2))
  {
    TallyStep(st, b2);
    if st.b1.Tomb? {
      assert st.counted == [];
    }
  }

  /** Appending to a history leaves its earlier prefixes as they were. */
  lemma PrefixesKept(L: seq<int>, x: int)
    ensures forall j :: 0 <= j <= |L| ==> (L + [x])[..j] == L[..j]
    ensures (L + [x])[..|L| + 1] == L + [x] && L[..|L|] == L
  {
    forall j | 0 <= j <= |L|
      ensures (L + [x])[..j] == L[..j]
    {
    }
  }

  /** A step whose tally beats the best so far makes its bigram the new winner. */
  lemma StepBestNew(st: ScanState, b2: Slot)
    requires b2.Live? && st.p != Pack(st.b1, b2.b)
    requires TallyMap(st) && TalliedKeys(st) && BestSoFar(st)
    requires var n := multiset(Step(st, b2).counted)[Pack(st.b1, b2.b)];
      n > 1 && n > st.maxCnt
    ensures BestSoFar(Step(st, b2))
  {
    TallyStep(st, b2);
    StepKeys(st, b2);
    var bigram := Pack(st.b1, b2.b);
    var L, L' := st.counted, Step(st, b2).counted;
    var n := multiset(L')[bigram];
    forall j, k | 0 <= j <= |L'| && k != bigram
      ensures multiset(L'[..j])[k] < n
    {
      PrefixMultiset(L', j);
      assert multiset(L')[k] == multiset(L)[k];
    }
  }

  /** A tally that does not beat the best so far keeps the winner. */
  lemma KeepBest(L: seq<int>, x: int, maxCnt: int, maxPair: int)
    requires BestOf(L, maxCnt, maxPair)
    requires var n := multiset(L + [x])[x]; !(n > 1 && n > maxCnt)
    ensures BestOf(L + [x], maxCnt, maxPair)
  {
    var L' := L + [x];
    assert multiset(L') == multiset(L) + multiset{x};
    PrefixesKept(L, x);
    if maxCnt > 0 {
      forall j, k | 0 <= j <= |L'| && k != maxPair && multiset(L'[..j])[k] >= maxCnt
        ensures multiset(L'[..j])[maxPair] >= maxCnt
      {
        if j <= |L| {
          assert L'[..j] == L[..j];
        }
      }
    }
  }

  /** A step whose tally does not beat the best so far keeps the winner. */
  lemma StepBestKeep(st: ScanState, b2: Slot)
    requires b2.Live? && st.p != Pack(st.b1, b2.b)
    requires TallyMap(st) && TalliedKeys(st) && BestSoFar(st)
    requires var n := multiset(Step(st, b2).counted)[Pack(st.b1, b2.b)];
      !(n > 1 && n > st.maxCnt)
    ensures BestSoFar(Step(st, b2))
  {
    TallyStep(st, b2);
    KeepBest(st.counted, Pack(st.b1, b2.b), st.maxCnt, st.maxPair);
  }

  lemma StepBest(st: ScanState, b2: Slot)
    requires b2.Live? && st.p != Pack(st.b1, b2.b)
    requires TallyMap(st) && TalliedKeys(st) && BestSoFar(st)
    ensures BestSoFar(Step(st, b2))
  {
    var n := multiset(Step(st, b2).counted)[Pack(st.b1, b2.b)];
    if n > 1 && n > st.maxCnt {
      StepBestNew(st, b2);
    } else {
      StepBestKeep(st, b2);
    }
  }

  lemma StepTallied(st: ScanState, b2: Slot)
    requires Tallied(st)
    ensures Tallied(Step(st, b2))
  {
    if b2.Live? && st.p != Pack(st.b1, b2.b) {
      TallyStep(st, b2);
      StepKeys(st, b2);
      StepBest(st, b2);
    }
  }

  lemma {:induction false} ScanTallied(b1: Slot, p: int, s: seq<Slot>)
    ensures Tallied(Scan(b1, p, s))
  {
    if s == [] {
      StartTallied(b1, p);
    } else {
      ScanTallied(b1, p, s[..|s| - 1]);
      StepTallied(Scan(b1, p, s[..|s| - 1]), s[|s| - 1]);
    }
  }

  /** The winner of a pass. A pass ends with `maxCnt == 0` exactly when no bigram was
      tallied twice; otherwise `maxCnt` is the largest tally, `maxPair` is a bigram of
      two live bytes with that tally, and it reached that tally before any other
      bigram did (a later tie does not displace it). */
  lemma WinnerRule(b1: Slot, p: int, s: seq<Slot>)
    ensures var st := Scan(b1, p, s);
      var m := multiset(st.counted);
      && (st.maxCnt == 0 <==> forall k :: m[k] <= 1)
      && (st.maxCnt > 0 ==> st.maxCnt > 1 && m[st.maxPair] == st.maxCnt)
      && (st.maxCnt > 0 ==> 0 <= st.maxPair < 0x1_0000)
      && (forall k :: m[k] <= st.maxCnt || m[k] <= 1)
      && (st.maxCnt > 0 ==> FirstToReach(st.counted, st.maxPair, st.maxCnt))
  {
    ScanTallied(b1, p, s);
  }

  /** The overlap rule on a run: after the byte `a`, a run of `n` more copies of `a` has
      its bigram `aa` tallied only every other time, so exactly the non-overlapping
      occurrences count (`aaa` tallies `aa` once, `aaaa` twice). */
  lemma {:induction false} RunTalliedEveryOther(a: Byte, p: int, n: nat)
    requires p != a * 257
    ensures var st := Scan(Live(a), p, Run(a, n));
      && st.counted == seq((n + 1) / 2, _ => a * 257)
      && st.b1 == Live(a)
      && st.p == (if n == 0 then p else if n % 2 == 1 then a * 257 else NoBigram)
  {
    if n > 0 {
      assert Run(a, n)[..n - 1] == Run(a, n - 1);
      RunTalliedEveryOther(a, p, n - 1);
      var st := Scan(Live(a), p, Run(a, n - 1));
      if (n - 1) % 2 == 0 {
        assert st.counted + [a * 257] == seq((n + 1) / 2, _ => a * 257);
      }
    }
  }
}
