/** Inputs on which the encoder's loop never ends: eight equal bytes, such as
    "aaaaaaaa". */
module EncoderLoop {
  import opened BytePair
  import opened PairScan
  import opened Rewriting
  import opened Encoding

  /** Eight copies of the byte `a`. */
  function EightOf(a: Byte): seq<Byte>
  {
    seq(8, _ => a)
  }

  /** The working buffer after the first pass has rewritten the run to the code 0: four
      times a tombstone followed by 0. */
  const StuckBuffer: seq<Slot> := [Tomb, Live(0), Tomb, Live(0), Tomb, Live(0), Tomb, Live(0)]

  /** The packed pair "00": the code 0 twice, with a tombstone in between. */
  const PairZeros: int := 0

  /** The scan over a buffer, one slot further. */
  lemma ScanPrefix(b1: Slot, p: int, s: seq<Slot>, k: nat)
    requires 0 < k <= |s|
    ensures Scan(b1, p, s[..k]) == Step(Scan(b1, p, s[..k - 1]), s[k - 1])
  {
    assert s[..k][..k - 1] == s[..k - 1];
  }

  /** The first pass: of the seven overlapping pairs "aa" of the run, the four that do
      not overlap are tallied, so "aa" wins with four, and the tracker ends at "aa". */
  lemma FirstScan(a: Byte)
    ensures var st := Scan(Live(a), NoBigram, Run(a, 7));
      st.maxCnt == 4 && st.maxPair == a * 257 && st.p == a * 257
  {
    RunTalliedEveryOther(a, NoBigram, 7);
    WinnerRule(Live(a), NoBigram, Run(a, 7));
    var st := Scan(Live(a), NoBigram, Run(a, 7));
    assert st.counted == [a * 257, a * 257, a * 257, a * 257];
    assert multiset(st.counted) == multiset{a * 257, a * 257, a * 257, a * 257};
  }

  /** The rewrite of the first pass turns the run into four tombstone-code pairs. */
  lemma FirstRewrite(a: Byte)
    requires a != 0
    ensures Rewritten(Run(a, 8), a * 257, 0) == StuckBuffer
    ensures MatchCount(Run(a, 8), a * 257, 0) == 4
  {
    RewrittenRun(a, 0, 4);
    assert TombCodes(0, 4) == StuckBuffer;
  }

  /** The tally map after "00" was tallied once. */
  const TalliedOnce: map<int, int> := map[-256 := 1][0 := 1]

  /** The first two steps of a later pass that change the scan's state. */
  lemma LaterFrontSteps(p: int)
    requires p != -256
    ensures Step(Start(Tomb, p), Live(0)) == ScanState(Live(0), -256, map[-256 := 1], 0, 0, [-256])
    ensures Step(ScanState(Live(0), -256, map[-256 := 1], 0, 0, [-256]), Live(0)) ==
            ScanState(Live(0), 0, TalliedOnce, 0, 0, [-256, 0])
  {
    assert [-256] + [0] == [-256, 0];
  }

  /** The last two: the overlap rule skips "00" once, and then "00" is tallied again. */
  lemma LaterBackSteps()
    ensures Step(ScanState(Live(0), 0, TalliedOnce, 0, 0, [-256, 0]), Live(0)) ==
            ScanState(Live(0), NoBigram, TalliedOnce, 0, 0, [-256, 0])
    ensures Step(ScanState(Live(0), NoBigram, TalliedOnce, 0, 0, [-256, 0]), Live(0)) ==
            ScanState(Live(0), 0, TalliedOnce[0 := 2], 2, 0, [-256, 0, 0])
  {
    assert [-256, 0] + [0] == [-256, 0, 0];
  }

  /** The first four slots of a later pass. */
  lemma LaterScanFront(p: int)
    requires p != -256
    ensures Scan(Tomb, p, StuckBuffer[1..5]) == ScanState(Live(0), 0, TalliedOnce, 0, 0, [-256, 0])
  {
    var s := StuckBuffer[1..5];
    assert s == [Live(0), Tomb, Live(0), Tomb];
    assert s[..0] == [];
    LaterFrontSteps(p);
    ScanPrefix(Tomb, p, s, 1);
    ScanPrefix(Tomb, p, s, 2);
    ScanPrefix(Tomb, p, s, 3);
    ScanPrefix(Tomb, p, s, 4);
    assert s[..4] == s;
  }

  /** The scan of every later pass, whatever tracker it starts from ("aa" after the
      first pass, "00" after any other): the leading tombstone makes the first bigram
      negative, the overlap rule skips the middle "00", and "00" is tallied twice. */
  lemma LaterScan(p: int)
    requires p != -256
    ensures var st := Scan(StuckBuffer[0], p, StuckBuffer[1..]);
      st.maxCnt == 2 && st.maxPair == PairZeros && st.p == PairZeros
  {
    var s := StuckBuffer[1..];
    assert s == [Live(0), Tomb, Live(0), Tomb, Live(0), Tomb, Live(0)];
    assert s[..4] == StuckBuffer[1..5];
    LaterScanFront(p);
    LaterBackSteps();
    ScanPrefix(Tomb, p, s, 5);
    ScanPrefix(Tomb, p, s, 6);
    ScanPrefix(Tomb, p, s, 7);
    assert s[..7] == s;
  }

  /** The rewrite of every later pass finds no raw "00": a tombstone sits between any
      two codes. */
  lemma LaterRewrite()
    ensures MatchCount(StuckBuffer, PairZeros, 1) == 0
    ensures Rewritten(StuckBuffer, PairZeros, 1) == StuckBuffer
  {
    var s := StuckBuffer;
    assert s[1..][1..][1..][1..][1..][1..][1..] == [Live(0)];
    RewrittenNoMatch(s, PairZeros, 1);
  }

  /** The state every later pass starts from and leaves behind. */
  ghost predicate StuckState(s: seq<Slot>, used: seq<int>, p: int)
  {
    s == StuckBuffer && |used| == 256 && used[0] > 0 && used[1] == 0 && p != -256
  }

  /** The state `Encode` sets up for eight copies of a byte other than 0 and 1: a run of
      eight live slots, and neither 0 nor 1 in use. */
  method SetupOfRun(a: Byte) returns (ints: array<Slot>, used: array<int>)
    requires a > 1
    ensures fresh(ints) && fresh(used) && ints.Length == 8 && used.Length == 256
    ensures ints[..] == Run(a, 8) && used[0] == 0 && used[1] == 0
    ensures Consistent(EightOf(a), ints[..], used[..], [])
  {
    ints, used := Setup(EightOf(a));
    assert ints[..] == Run(a, 8);
    assert used[0] == 0 && used[1] == 0 by {
      assert 0 !in multiset(EightOf(a)) && 1 !in multiset(EightOf(a));
    }
  }

  /** What the first pass's contract amounts to on the run: the code 0 is the first
      free one, "aa" wins, and its four matches become four tombstone-code pairs. */
  lemma FirstPassOutcome(a: Byte, used0: seq<int>, s: seq<Slot>, used: seq<int>, p: int,
                         added: Option<Entry>, matched: nat)
    requires a > 1 && |used0| == 256 && used0[0] == 0 && used0[1] == 0
    requires var st := Scan(Live(a), NoBigram, Run(a, 7));
      && p == st.p
      && (added.None? <==> st.maxCnt == 0 || forall b :: 0 <= b < 256 ==> used0[b] != 0)
      && (added.Some? ==> added.value.value == st.maxPair)
    requires added.Some? ==>
      var code := added.value.key;
      && 0 <= code < 256 && used0[code] == 0
      && (forall b :: 0 <= b < code ==> used0[b] != 0)
      && s == Rewritten(Run(a, 8), added.value.value, code)
      && matched == MatchCount(Run(a, 8), added.value.value, code)
      && used == used0[code := matched]
    ensures StuckState(s, used, p) && added == Some(Entry(0, a * 257))
  {
    FirstScan(a);
    FirstRewrite(a);
    assert used0[0] == 0;
    assert added.Some? && added.value.key == 0;
  }

  /** The first pass of `Encode` on the run: it appends the entry (0, "aa") and leaves
      the state every later pass starts from. */
  method FirstPassOfRun(a: Byte, ints: array<Slot>, used: array<int>)
    returns (p: int, added: Option<Entry>)
    requires a > 1 && ints.Length == 8 && used.Length == 256
    requires ints[..] == Run(a, 8) && used[0] == 0 && used[1] == 0
    requires Consistent(EightOf(a), ints[..], used[..], [])
    modifies ints, used
    ensures StuckState(ints[..], used[..], p) && added == Some(Entry(0, a * 257))
    ensures Consistent(EightOf(a), ints[..], used[..], [Entry(0, a * 257)])
  {
    assert ints[0] == Live(a) && ints[1..] == Run(a, 7);
    ghost var used0 := used[..];
    var matched;
    p, added, matched := EncodePass(ints, used, NoBigram, EightOf(a), []);
    FirstPassOutcome(a, used0, ints[..], used[..], p, added, matched);
  }

  /** Every later pass of `Encode` on the run picks the pair "00" and the code 1,
      rewrites nothing, appends the entry (1, "00") once more, and leaves the buffer,
      the usage counts and the tracker in the state it found them: the loop of `Encode`
      in `bytepair.go` never ends, and its dictionary grows without bound. */
  method StuckPassRepeats(a: Byte, ints: array<Slot>, used: array<int>, p0: int,
                          ghost dict: Dictionary)
    returns (p: int, added: Option<Entry>, matched: nat)
    requires ints.Length > 0 && used.Length == 256
    requires StuckState(ints[..], used[..], p0)
    requires Consistent(EightOf(a), ints[..], used[..], dict)
    modifies ints, used
    ensures StuckState(ints[..], used[..], p) && ints[..] == old(ints[..]) && used[..] == old(used[..])
    ensures added == Some(Entry(1, PairZeros)) && matched == 0
    ensures Consistent(EightOf(a), ints[..], used[..], dict + [Entry(1, PairZeros)])
  {
    LaterScan(p0);
    LaterRewrite();
    ghost var used0 := used[..];
    assert ints[0] == Tomb && ints[1..] == StuckBuffer[1..];
    assert used0[0] != 0 && used0[1] == 0;
    p, added, matched := EncodePass(ints, used, p0, EightOf(a), dict);
    assert added.Some? && added.value.key == 1;
    assert used[..] == used0[1 := 0] == used0;
  }
}
