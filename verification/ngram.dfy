/** Bigram next-character prediction (`NGramPrediction` in src/algo/n-gram.ts).

    The source counts adjacent character pairs in a plain object whose keys
    enumerate in insertion order, apart from integer-like keys, collects the
    second characters of the pairs that start with the string's last
    character, and keeps the one with the highest count, the earliest one
    winning a tie. The count table is modelled as an ordered association
    list so that this tie-break stays observable.
 */
module NGram {

  /** The bigram table: two-character keys with their counts, in the order in
      which each key was first inserted. */
  type Table = seq<(seq<char>, nat)>

  /** Number of adjacent pairs visited by the scan `i < str.length - 1`. */
  function NumPairs(s: seq<char>): nat {
    if |s| < 2 then 0 else |s| - 1
  }

  /** The key `str[i] + str[i + 1]`. */
  function PairAt(s: seq<char>, i: nat): seq<char>
    requires i < NumPairs(s)
  {
    [s[i], s[i + 1]]
  }

  /** Whether `k` is a key of the table. */
  ghost predicate HasKey(t: Table, k: seq<char>) {
    exists j :: 0 <= j < |t| && t[j].0 == k
  }

  ghost predicate DistinctKeys(t: Table) {
    forall j1, j2 :: 0 <= j1 < j2 < |t| ==> t[j1].0 != t[j2].0
  }

  ghost predicate PositiveCounts(t: Table) {
    forall j :: 0 <= j < |t| ==> t[j].1 >= 1
  }

  ghost predicate PairKeys(t: Table) {
    forall j :: 0 <= j < |t| ==> |t[j].0| == 2
  }

  /** Sum of all counts in the table. */
  function Total(t: Table): nat {
    if |t| == 0 then 0 else t[0].1 + Total(t[1..])
  }

  /** `table[k] || 0`: the count stored under `k`, or 0 when `k` is absent. */
  function Lookup(t: Table, k: seq<char>): (n: nat)
    ensures !HasKey(t, k) ==> n == 0
    ensures DistinctKeys(t) ==> forall j :: 0 <= j < |t| && t[j].0 == k ==> n == t[j].1
  {
    if |t| == 0 then 0
    else if t[0].0 == k then t[0].1
    else
      assert forall j :: 1 <= j < |t| ==> t[j] == t[1..][j - 1];
      Lookup(t[1..], k)
  }

  /** `table[k] = (table[k] || 0) + 1`: an existing key keeps its position and
      gains one; a new key is appended with count 1. */
  function Bump(t: Table, k: seq<char>): (r: Table)
    ensures |r| == if HasKey(t, k) then |t| else |t| + 1
    ensures forall j :: 0 <= j < |t| ==> r[j].0 == t[j].0
    ensures !HasKey(t, k) ==> r[|t|] == (k, 1)
  {
    if |t| == 0 then [(k, 1)]
    else if t[0].0 == k then [(k, t[0].1 + 1)] + t[1..]
    else
      assert forall j :: 1 <= j < |t| ==> t[j] == t[1..][j - 1];
      assert HasKey(t, k) <==> HasKey(t[1..], k);
      [t[0]] + Bump(t[1..], k)
  }

  /** Bumping `k` adds one to its count and to the total, and leaves every
      other key's count alone. */
  lemma {:induction false} BumpCounts(t: Table, k: seq<char>)
    ensures Lookup(Bump(t, k), k) == Lookup(t, k) + 1
    ensures forall k' :: k' != k ==> Lookup(Bump(t, k), k') == Lookup(t, k')
    ensures Total(Bump(t, k)) == Total(t) + 1
  {
    if |t| > 0 && t[0].0 != k {
      BumpCounts(t[1..], k);
      var r := Bump(t, k);
      assert r[1..] == Bump(t[1..], k);
    }
  }

  /** The table after the first `n` iterations of the counting loop. */
  function Tally(s: seq<char>, n: nat): (t: Table)
    requires n <= NumPairs(s)
    ensures |t| <= n
  {
    if n == 0 then [] else Bump(Tally(s, n - 1), PairAt(s, n - 1))
  }

  /** Reference count: how many of the first `n` adjacent pairs equal `k`. */
  function Occ(s: seq<char>, k: seq<char>, n: nat): nat
    requires n <= NumPairs(s)
  {
    if n == 0 then 0 else Occ(s, k, n - 1) + (if PairAt(s, n - 1) == k then 1 else 0)
  }

  /** How often the pair `c x` occurs in `s`. */
  function PairCount(s: seq<char>, c: char, x: char): nat {
    Occ(s, [c, x], NumPairs(s))
  }

  /** The least position `>= i` where the pair `k` occurs, or `NumPairs(s)`. */
  function FirstFrom(s: seq<char>, k: seq<char>, i: nat): (r: nat)
    requires i <= NumPairs(s)
    ensures i <= r <= NumPairs(s)
    ensures r < NumPairs(s) ==> PairAt(s, r) == k
    ensures forall m :: i <= m < r ==> PairAt(s, m) != k
    decreases NumPairs(s) - i
  {
    if i == NumPairs(s) then i
    else if PairAt(s, i) == k then i
    else FirstFrom(s, k, i + 1)
  }

  /** Position of the first occurrence of the pair `k`, or `NumPairs(s)`. */
  function FirstAt(s: seq<char>, k: seq<char>): nat {
    FirstFrom(s, k, 0)
  }

  /** Table keys appear in the order of their first occurrence in `s`. */
  ghost predicate InFirstOccurrenceOrder(s: seq<char>, t: Table) {
    forall j1, j2 :: 0 <= j1 < j2 < |t| ==> FirstAt(s, t[j1].0) < FirstAt(s, t[j2].0)
  }

  /** Every count equals the reference count over the first `n` pairs. */
  ghost predicate CountsMatch(s: seq<char>, n: nat, t: Table)
    requires n <= NumPairs(s)
  {
    forall k :: Lookup(t, k) == Occ(s, k, n)
  }

  /** The keys are exactly the pairs occurring among the first `n`. */
  ghost predicate KeysMatch(s: seq<char>, n: nat, t: Table)
    requires n <= NumPairs(s)
  {
    forall k :: HasKey(t, k) <==> FirstAt(s, k) < n
  }

  /** What the counting loop maintains after `n` iterations. */
  ghost predicate TallyInvariant(s: seq<char>, n: nat, t: Table)
    requires n <= NumPairs(s)
  {
    && DistinctKeys(t)
    && PositiveCounts(t)
    && CountsMatch(s, n, t)
    && KeysMatch(s, n, t)
    && InFirstOccurrenceOrder(s, t)
    && Total(t) == n
  }

  /** One iteration of the counting loop preserves its invariant. */
  lemma TallyStep(s: seq<char>, n: nat, t: Table)
    requires 0 < n <= NumPairs(s)
    requires TallyInvariant(s, n - 1, t)
    ensures TallyInvariant(s, n, Bump(t, PairAt(s, n - 1)))
  {
    BumpCounts(t, PairAt(s, n - 1));
    StepCounts(s, n, t);
    StepKeys(s, n, t);
    StepOrder(s, n, t);
    StepPositive(s, n, t);
  }

  lemma StepCounts(s: seq<char>, n: nat, t: Table)
    requires 0 < n <= NumPairs(s)
    requires CountsMatch(s, n - 1, t)
    ensures CountsMatch(s, n, Bump(t, PairAt(s, n - 1)))
  {
    BumpCounts(t, PairAt(s, n - 1));
  }

  lemma StepKeys(s: seq<char>, n: nat, t: Table)
    requires 0 < n <= NumPairs(s)
    requires KeysMatch(s, n - 1, t)
    ensures KeysMatch(s, n, Bump(t, PairAt(s, n - 1)))
  {
    var p := PairAt(s, n - 1);
    var r := Bump(t, p);
    assert FirstAt(s, p) <= n - 1;
    forall k ensures HasKey(r, k) <==> FirstAt(s, k) < n {
      if HasKey(r, k) {
        var j :| 0 <= j < |r| && r[j].0 == k;
        if j < |t| { assert HasKey(t, k); }
      }
    }
  }

  lemma StepOrder(s: seq<char>, n: nat, t: Table)
    requires 0 < n <= NumPairs(s)
    requires KeysMatch(s, n - 1, t) && DistinctKeys(t) && InFirstOccurrenceOrder(s, t)
    ensures DistinctKeys(Bump(t, PairAt(s, n - 1)))
    ensures InFirstOccurrenceOrder(s, Bump(t, PairAt(s, n - 1)))
  {
    var p := PairAt(s, n - 1);
    var r := Bump(t, p);
    if !HasKey(t, p) {
      assert FirstAt(s, p) == n - 1;
      forall j | 0 <= j < |t| ensures FirstAt(s, t[j].0) < n - 1 {
        assert HasKey(t, t[j].0);
      }
    }
  }

  lemma StepPositive(s: seq<char>, n: nat, t: Table)
    requires 0 < n <= NumPairs(s)
    requires DistinctKeys(t) && PositiveCounts(t)
    requires DistinctKeys(Bump(t, PairAt(s, n - 1)))
    ensures PositiveCounts(Bump(t, PairAt(s, n - 1)))
  {
    var p := PairAt(s, n - 1);
    var r := Bump(t, p);
    BumpCounts(t, p);
    forall j | 0 <= j < |r| ensures r[j].1 >= 1 {
      if r[j].0 != p {
        assert t[j].0 == r[j].0;
        assert Lookup(t, r[j].0) == t[j].1;
      }
      assert Lookup(r, r[j].0) == r[j].1;
    }
  }

  lemma {:induction false} TallyMaintains(s: seq<char>, n: nat)
    requires n <= NumPairs(s)
    ensures TallyInvariant(s, n, Tally(s, n))
  {
    if n > 0 {
      TallyMaintains(s, n - 1);
      TallyStep(s, n, Tally(s, n - 1));
    }
  }

  /** The full bigram table of `s` (src/algo/n-gram.ts, the first loop). */
  function Bigrams(s: seq<char>): (t: Table)
    ensures |s| < 2 ==> t == []
    ensures DistinctKeys(t) && PositiveCounts(t)
    ensures forall j :: 0 <= j < |t| ==>
      FirstAt(s, t[j].0) < NumPairs(s) && t[j].0 == PairAt(s, FirstAt(s, t[j].0))
    ensures forall k :: Lookup(t, k) == Occ(s, k, NumPairs(s))
    ensures forall k :: HasKey(t, k) <==> FirstAt(s, k) < NumPairs(s)
    ensures InFirstOccurrenceOrder(s, t)
    ensures Total(t) == NumPairs(s)
  {
    TallyMaintains(s, NumPairs(s));
    var t := Tally(s, NumPairs(s));
    assert forall j :: 0 <= j < |t| ==> HasKey(t, t[j].0);
    t
  }

  /** Second characters of the keys whose first character is `c`, in table order. */
  function Candidates(t: Table, c: char): (r: seq<char>)
    requires PairKeys(t)
    ensures forall x :: x in r <==> HasKey(t, [c, x])
  {
    if |t| == 0 then []
    else
      assert forall j :: 1 <= j < |t| ==> t[j] == t[1..][j - 1];
      assert t[0].0 == [t[0].0[0], t[0].0[1]];
      (if t[0].0[0] == c then [t[0].0[1]] else []) + Candidates(t[1..], c)
  }

  /** The count `table[c + x]` consulted by the selection loop. */
  function Freq(t: Table, c: char, x: char): nat {
    Lookup(t, [c, x])
  }

  /** Position `j` holds the highest count among `cands`, and every earlier
      position holds a strictly lower one. */
  ghost predicate FirstMax(t: Table, c: char, cands: seq<char>, j: int) {
    && 0 <= j < |cands|
    && (forall i :: 0 <= i < |cands| ==> Freq(t, c, cands[i]) <= Freq(t, c, cands[j]))
    && (forall i :: 0 <= i < j ==> Freq(t, c, cands[i]) < Freq(t, c, cands[j]))
  }

  /** The selection loop: `best` and `maxFreq` are `nextChar` and `maxFreq`,
      replaced only when a candidate's count is strictly greater. */
  function Choose(t: Table, c: char, cands: seq<char>, best: seq<char>, maxFreq: nat): (r: seq<char>)
    ensures r == best || (|r| == 1 && r[0] in cands)
  {
    if |cands| == 0 then best
    else if Freq(t, c, cands[0]) > maxFreq then
      Choose(t, c, cands[1..], [cands[0]], Freq(t, c, cands[0]))
    else
      Choose(t, c, cands[1..], best, maxFreq)
  }

  /** The selection keeps its start value when no count exceeds it. */
  lemma {:induction false} ChooseKeeps(t: Table, c: char, cands: seq<char>, best: seq<char>, maxFreq: nat)
    requires forall i :: 0 <= i < |cands| ==> Freq(t, c, cands[i]) <= maxFreq
    ensures Choose(t, c, cands, best, maxFreq) == best
  {
    if |cands| > 0 {
      var rest := cands[1..];
      assert forall i :: 0 <= i < |rest| ==> rest[i] == cands[i + 1];
      ChooseKeeps(t, c, rest, best, maxFreq);
    }
  }

  /** When some count (that of `cands[i]`) exceeds the start value, the
      selection returns the first candidate with the highest count. */
  lemma {:induction false} ChooseFirstMax(t: Table, c: char, cands: seq<char>, best: seq<char>, maxFreq: nat, i: nat)
    requires i < |cands| && Freq(t, c, cands[i]) > maxFreq
    ensures exists j :: FirstMax(t, c, cands, j) && Freq(t, c, cands[j]) > maxFreq &&
                        Choose(t, c, cands, best, maxFreq) == [cands[j]]
  {
    var rest := cands[1..];
    var f0 := Freq(t, c, cands[0]);
    if f0 > maxFreq {
      if exists i' :: 0 <= i' < |rest| && Freq(t, c, rest[i']) > f0 {
        var i' :| 0 <= i' < |rest| && Freq(t, c, rest[i']) > f0;
        ChooseFirstMax(t, c, rest, [cands[0]], f0, i');
        var j' :| FirstMax(t, c, rest, j') && Freq(t, c, rest[j']) > f0 &&
                  Choose(t, c, rest, [cands[0]], f0) == [rest[j']];
        FirstMaxLater(t, c, cands, j');
      } else {
        ChooseKeeps(t, c, rest, [cands[0]], f0);
        FirstMaxHead(t, c, cands);
      }
    } else {
      assert rest[i - 1] == cands[i];
      ChooseFirstMax(t, c, rest, best, maxFreq, i - 1);
      var j' :| FirstMax(t, c, rest, j') && Freq(t, c, rest[j']) > maxFreq &&
                Choose(t, c, rest, best, maxFreq) == [rest[j']];
      FirstMaxLater(t, c, cands, j');
    }
  }

  /** The first maximum of the tail is the first maximum of the whole when
      the head's count is strictly smaller. */
  lemma FirstMaxLater(t: Table, c: char, cands: seq<char>, j: int)
    requires |cands| > 0 && FirstMax(t, c, cands[1..], j)
    requires Freq(t, c, cands[0]) < Freq(t, c, cands[1..][j])
    ensures FirstMax(t, c, cands, j + 1)
  {
    assert forall i :: 1 <= i < |cands| ==> cands[i] == cands[1..][i - 1];
  }

  /** The head is the first maximum when no later count exceeds it. */
  lemma FirstMaxHead(t: Table, c: char, cands: seq<char>)
    requires |cands| > 0
    requires forall i :: 0 <= i < |cands[1..]| ==> Freq(t, c, cands[1..][i]) <= Freq(t, c, cands[0])
    ensures FirstMax(t, c, cands, 0)
  {
    assert forall i :: 1 <= i < |cands| ==> cands[i] == cands[1..][i - 1];
  }

  /** Candidates inherit the first-occurrence order of the table's keys. */
  lemma {:induction false} CandidatesInOrder(s: seq<char>, t: Table, c: char)
    requires PairKeys(t) && InFirstOccurrenceOrder(s, t)
    ensures FollowersInOrder(s, c, Candidates(t, c))
  {
    if |t| > 0 {
      var rest := t[1..];
      CandidatesInOrder(s, rest, c);
      var cr := Candidates(rest, c);
      assert t[0].0 == [t[0].0[0], t[0].0[1]];
      if t[0].0[0] == c {
        assert Candidates(t, c) == [t[0].0[1]] + cr;
        forall y | y in cr ensures FirstAt(s, [c, t[0].0[1]]) < FirstAt(s, [c, y]) {
          HeadFirst(s, t, c, y);
        }
        InOrderCons(s, c, t[0].0[1], cr);
      } else {
        assert Candidates(t, c) == cr;
      }
    }
  }

  /** The pairs `c x` for the characters `x` of `xs` first occur in the
      order in which the characters are listed. */
  ghost predicate FollowersInOrder(s: seq<char>, c: char, xs: seq<char>) {
    forall i1, i2 :: 0 <= i1 < i2 < |xs| ==> FirstAt(s, [c, xs[i1]]) < FirstAt(s, [c, xs[i2]])
  }

  lemma InOrderCons(s: seq<char>, c: char, x: char, xs: seq<char>)
    requires FollowersInOrder(s, c, xs)
    requires forall y :: y in xs ==> FirstAt(s, [c, x]) < FirstAt(s, [c, y])
    ensures FollowersInOrder(s, c, [x] + xs)
  {
    var r := [x] + xs;
    forall i1, i2 | 0 <= i1 < i2 < |r| ensures FirstAt(s, [c, r[i1]]) < FirstAt(s, [c, r[i2]]) {
      assert r[i2] == xs[i2 - 1];
      if i1 > 0 {
        assert r[i1] == xs[i1 - 1];
      }
    }
  }

  /** A key `c y` further down the table first occurs after the head key. */
  lemma HeadFirst(s: seq<char>, t: Table, c: char, y: char)
    requires |t| > 0 && PairKeys(t) && InFirstOccurrenceOrder(s, t)
    requires y in Candidates(t[1..], c)
    ensures FirstAt(s, t[0].0) < FirstAt(s, [c, y])
  {
    var rest := t[1..];
    var j :| 0 <= j < |rest| && rest[j].0 == [c, y];
    assert t[j + 1].0 == [c, y];
  }

  /** `NGramPrediction(str)`: the predicted next character, or "" when there is none. */
  function Predict(s: seq<char>): (r: seq<char>)
    ensures |r| <= 1
  {
    if |s| == 0 then ""
    else
      var t := Bigrams(s);
      var last := Last(s);
      Choose(t, last, Candidates(t, last), "", 0)
  }

  /** `str[str.length - 1]`. */
  function Last(s: seq<char>): char
    requires |s| > 0
  {
    s[|s| - 1]
  }

  /** Whether some adjacent pair of `s` starts with `c`. */
  ghost predicate HasFollower(s: seq<char>, c: char) {
    exists i :: 0 <= i < NumPairs(s) && s[i] == c
  }

  /** No pair starting with `c` occurs more often than `c x`. */
  ghost predicate MostFrequentAfter(s: seq<char>, c: char, x: char) {
    forall y :: PairCount(s, c, y) <= PairCount(s, c, x)
  }

  /** Every other pair `c y` as frequent as `c x` first occurs later than `c x`. */
  ghost predicate EarliestAmongEqual(s: seq<char>, c: char, x: char) {
    forall y :: y != x && PairCount(s, c, y) == PairCount(s, c, x) ==>
      FirstAt(s, [c, x]) < FirstAt(s, [c, y])
  }

  /** The candidates after `c` are exactly the characters `x` whose pair
      `c x` occurs, and the count consulted for each is its pair count. */
  lemma CandidatesOccur(s: seq<char>, c: char)
    ensures forall x :: x in Candidates(Bigrams(s), c) <==> FirstAt(s, [c, x]) < NumPairs(s)
    ensures forall x :: x in Candidates(Bigrams(s), c) <==> PairCount(s, c, x) > 0
    ensures forall x :: Freq(Bigrams(s), c, x) == PairCount(s, c, x)
  {
    var t := Bigrams(s);
    var cands := Candidates(t, c);
    forall x ensures (x in cands <==> FirstAt(s, [c, x]) < NumPairs(s))
                  && (x in cands <==> PairCount(s, c, x) > 0)
                  && Freq(t, c, x) == PairCount(s, c, x)
    {
      var k := [c, x];
      assert Freq(t, c, x) == Lookup(t, k) == Occ(s, k, NumPairs(s));
      assert x in cands <==> HasKey(t, k);
      if HasKey(t, k) {
        var j :| 0 <= j < |t| && t[j].0 == k;
        assert Lookup(t, k) == t[j].1 >= 1;
      }
    }
  }

  /** For a non-empty string the prediction is "" when no pair starts with
      the last character, and otherwise the first candidate of highest count. */
  lemma PredictSelects(s: seq<char>)
    requires |s| > 0
    ensures !HasFollower(s, Last(s)) ==> Predict(s) == ""
    ensures HasFollower(s, Last(s)) ==>
              exists j :: FirstMax(Bigrams(s), Last(s), Candidates(Bigrams(s), Last(s)), j) &&
                          PairCount(s, Last(s), Candidates(Bigrams(s), Last(s))[j]) > 0 &&
                          Predict(s) == [Candidates(Bigrams(s), Last(s))[j]]
  {
    var t := Bigrams(s);
    var last := Last(s);
    var cands := Candidates(t, last);
    CandidatesOccur(s, last);
    if HasFollower(s, last) {
      var i :| 0 <= i < NumPairs(s) && s[i] == last;
      assert PairAt(s, i) == [last, s[i + 1]];
      assert FirstAt(s, [last, s[i + 1]]) <= i;
      var i0 :| 0 <= i0 < |cands| && cands[i0] == s[i + 1];
      assert Freq(t, last, cands[i0]) > 0;
      ChooseFirstMax(t, last, cands, "", 0, i0);
    } else {
      ChooseKeeps(t, last, cands, "", 0);
    }
  }

  /** The prediction is "" exactly when no adjacent pair starts with the last
      character; since every count is at least one, the `maxFreq = 0` start
      value never hides a real candidate. */
  lemma PredictEmptyIff(s: seq<char>)
    requires |s| > 0
    ensures Predict(s) == "" <==> !HasFollower(s, Last(s))
  {
    PredictSelects(s);
  }

  /** A non-empty prediction is one character `x` such that `last x` is an
      adjacent pair of the input. */
  lemma PredictOccurs(s: seq<char>)
    requires |s| > 0 && Predict(s) != ""
    ensures |Predict(s)| == 1
    ensures exists i :: 0 <= i < NumPairs(s) && PairAt(s, i) == [Last(s), Predict(s)[0]]
  {
    PredictSelects(s);
    CandidatesOccur(s, Last(s));
    var x := Predict(s)[0];
    assert PairAt(s, FirstAt(s, [Last(s), x])) == [Last(s), x];
  }

  /** No pair starting with the last character occurs more often than the
      predicted one. */
  lemma PredictMostFrequent(s: seq<char>)
    requires |s| > 0 && Predict(s) != ""
    ensures MostFrequentAfter(s, Last(s), Predict(s)[0])
  {
    PredictSelects(s);
    var t := Bigrams(s);
    var last := Last(s);
    var cands := Candidates(t, last);
    CandidatesOccur(s, last);
    var j :| FirstMax(t, last, cands, j) && Predict(s) == [cands[j]];
    forall y ensures PairCount(s, last, y) <= PairCount(s, last, cands[j]) {
      if y in cands {
        var k :| 0 <= k < |cands| && cands[k] == y;
      }
    }
  }

  /** Ties go to the pair that occurs first in the input, because the
      selection only replaces on a strictly greater count. */
  lemma PredictEarliestOnTie(s: seq<char>)
    requires |s| > 0 && Predict(s) != ""
    ensures EarliestAmongEqual(s, Last(s), Predict(s)[0])
  {
    PredictSelects(s);
    var t := Bigrams(s);
    var last := Last(s);
    var cands := Candidates(t, last);
    CandidatesOccur(s, last);
    CandidatesInOrder(s, t, last);
    var j :| FirstMax(t, last, cands, j) && PairCount(s, last, cands[j]) > 0 && Predict(s) == [cands[j]];
    var x0 := cands[j];
    forall y | y != x0 && PairCount(s, last, y) == PairCount(s, last, x0)
      ensures FirstAt(s, [last, x0]) < FirstAt(s, [last, y])
    {
      var k :| 0 <= k < |cands| && cands[k] == y;
      assert k != j;
    }
  }

  /** Empty and single-character strings have no pair, so no prediction. */
  lemma ShortInputPredictsNothing(s: seq<char>)
    requires |s| < 2
    ensures Predict(s) == ""
  {
    if |s| == 1 {
      assert Candidates(Bigrams(s), s[0]) == [];
    }
  }

  function Ind(b: bool): nat {
    if b then 1 else 0
  }

  /** Pair counts after 'l' in the demonstration string: "lo" twice, "ll" once. */
  lemma HeloCounts(x: char)
    ensures PairCount("helo helo  hell", 'l', x) == 2 * Ind(x == 'o') + Ind(x == 'l')
  {
    var s := "helo helo  hell";
    // The running count after each of the 14 adjacent pairs.
    assert Occ(s, ['l', x], 1) == 0 * Ind(x == 'o') + 0 * Ind(x == 'l');
    assert Occ(s, ['l', x], 2) == 0 * Ind(x == 'o') + 0 * Ind(x == 'l');
    assert Occ(s, ['l', x], 3) == 1 * Ind(x == 'o') + 0 * Ind(x == 'l');
    assert Occ(s, ['l', x], 4) == 1 * Ind(x == 'o') + 0 * Ind(x == 'l');
    assert Occ(s, ['l', x], 5) == 1 * Ind(x == 'o') + 0 * Ind(x == 'l');
    assert Occ(s, ['l', x], 6) == 1 * Ind(x == 'o') + 0 * Ind(x == 'l');
    assert Occ(s, ['l', x], 7) == 1 * Ind(x == 'o') + 0 * Ind(x == 'l');
    assert Occ(s, ['l', x], 8) == 2 * Ind(x == 'o') + 0 * Ind(x == 'l');
    assert Occ(s, ['l', x], 9) == 2 * Ind(x == 'o') + 0 * Ind(x == 'l');
    assert Occ(s, ['l', x], 10) == 2 * Ind(x == 'o') + 0 * Ind(x == 'l');
    assert Occ(s, ['l', x], 11) == 2 * Ind(x == 'o') + 0 * Ind(x == 'l');
    assert Occ(s, ['l', x], 12) == 2 * Ind(x == 'o') + 0 * Ind(x == 'l');
    assert Occ(s, ['l', x], 13) == 2 * Ind(x == 'o') + 0 * Ind(x == 'l');
    assert Occ(s, ['l', x], 14) == 2 * Ind(x == 'o') + 1 * Ind(x == 'l');
  }

  /** A follower whose pair is strictly more frequent than every other pair
      after the last character is the prediction. */
  lemma PredictUniqueMax(s: seq<char>, x: char)
    requires |s| > 0
    requires forall y :: y != x ==> PairCount(s, Last(s), y) < PairCount(s, Last(s), x)
    ensures Predict(s) == [x]
  {
    var c := Last(s);
    var other := if x == 'a' then 'b' else 'a';
    assert PairCount(s, c, x) > PairCount(s, c, other);
    FollowerOfCount(s, c, x);
    PredictEmptyIff(s);
    PredictOccurs(s);
    PredictMostFrequent(s);
    var y := Predict(s)[0];
    assert PairCount(s, c, x) <= PairCount(s, c, y);
  }

  /** A pair `c x` that occurs makes `c` a character with a follower. */
  lemma FollowerOfCount(s: seq<char>, c: char, x: char)
    requires PairCount(s, c, x) > 0
    ensures HasFollower(s, c)
  {
    var t := Bigrams(s);
    assert Lookup(t, [c, x]) > 0;
    var p := FirstAt(s, [c, x]);
    assert PairAt(s, p) == [c, x];
    assert s[p] == c;
  }

  /** The demonstration string: "lo" occurs twice and "ll" once, so the
      prediction after the final 'l' is 'o' (not 'l'). */
  lemma HeloExample()
    ensures Predict("helo helo  hell") == "o"
  {
    var s := "helo helo  hell";
    forall y | y != 'o' ensures PairCount(s, Last(s), y) < PairCount(s, Last(s), 'o') {
      HeloCounts(y);
      HeloCounts('o');
    }
    PredictUniqueMax(s, 'o');
  }
}
