/** TF-IDF scoring of a corpus (`TFIDF`, `calculateTF`, `calculateIDF` and
    `_normalize` in src/algo/tf-idf.ts).

    Words are compared after splitting on a single space and lowercasing.
    Term frequencies are exact ratios of naturals. `Math.log` is not modelled:
    it is passed in as the parameter `ln`, and the inverse document frequency
    is stated through its argument `size / frequency`.
 */
module TfIdf {

  type Word = seq<char>

  /** A word-to-number record, as produced by the source. */
  type Scores = map<Word, real>

  // ---------------------------------------------------------------------
  // Normalisation (`_normalize`): split on single spaces, lowercase each piece
  // ---------------------------------------------------------------------

  /** Lowercasing, restricted to the ASCII letters 'A'..'Z'. */
  function Lower(c: char): char {
    if 'A' <= c <= 'Z' then (c as int + 32) as char else c
  }

  function LowerWord(w: Word): (r: Word)
    ensures |r| == |w|
  {
    if |w| == 0 then [] else [Lower(w[0])] + LowerWord(w[1..])
  }

  /** `LowerWord` lowercases each character in place. */
  lemma {:induction false} LowerWordAt(w: Word)
    ensures forall i :: 0 <= i < |w| ==> LowerWord(w)[i] == Lower(w[i])
  {
    if |w| > 0 {
      LowerWordAt(w[1..]);
      assert forall i :: 1 <= i < |w| ==> w[i] == w[1..][i - 1];
    }
  }

  /** Number of space characters in `s`. */
  function Spaces(s: seq<char>): nat {
    if |s| == 0 then 0 else (if s[0] == ' ' then 1 else 0) + Spaces(s[1..])
  }

  /** `s.split(" ")`: the maximal space-free runs between single spaces,
      including empty ones; "" splits into [""]. */
  function Split(s: seq<char>): (ws: seq<Word>)
    ensures |ws| == Spaces(s) + 1
    ensures forall i :: 0 <= i < |ws| ==> ' ' !in ws[i]
  {
    if |s| == 0 then [""]
    else
      var rest := Split(s[1..]);
      if s[0] == ' ' then [""] + rest
      else
        assert forall i :: 1 <= i < |rest| ==> ([[s[0]] + rest[0]] + rest[1..])[i] == rest[i];
        [[s[0]] + rest[0]] + rest[1..]
  }

  /** `words.join(" ")`, the inverse of `Split`. */
  function Join(ws: seq<Word>): seq<char>
    requires |ws| > 0
  {
    if |ws| == 1 then ws[0] else ws[0] + " " + Join(ws[1..])
  }

  /** Joining the pieces of a split gives back the string. */
  lemma {:induction false} JoinSplit(s: seq<char>)
    ensures Join(Split(s)) == s
  {
    if |s| > 0 {
      JoinSplit(s[1..]);
      var rest := Split(s[1..]);
      if s[0] == ' ' {
        assert Split(s)[1..] == rest;
      } else {
        var ws := Split(s);
        assert ws[1..] == rest[1..];
        if |rest| > 1 {
          assert Join(rest) == rest[0] + " " + Join(rest[1..]);
        }
      }
    }
  }

  /** Splitting a space-free word followed by more text. */
  lemma {:induction false} SplitAfterWord(w: Word, u: seq<char>)
    requires ' ' !in w
    ensures Split(w + u) == [w + Split(u)[0]] + Split(u)[1..]
  {
    if |w| > 0 {
      SplitAfterWord(w[1..], u);
      assert w[0] in w;
      assert (w + u)[0] == w[0] && (w + u)[1..] == w[1..] + u;
      var rest := Split(w[1..] + u);
      assert rest[0] == w[1..] + Split(u)[0];
      assert rest[1..] == Split(u)[1..];
      assert [w[0]] + (w[1..] + Split(u)[0]) == w + Split(u)[0];
    } else {
      assert w + u == u && w + Split(u)[0] == Split(u)[0];
    }
  }

  /** Splitting a join of space-free words gives back the words. */
  lemma {:induction false} SplitJoin(ws: seq<Word>)
    requires |ws| > 0
    requires forall i :: 0 <= i < |ws| ==> ' ' !in ws[i]
    ensures Split(Join(ws)) == ws
  {
    if |ws| == 1 {
      SplitAfterWord(ws[0], "");
      assert ws[0] + "" == ws[0];
    } else {
      SplitJoin(ws[1..]);
      var u := " " + Join(ws[1..]);
      assert ws[0] + " " + Join(ws[1..]) == ws[0] + u;
      SplitAfterWord(ws[0], u);
      assert u[1..] == Join(ws[1..]);
      assert Split(u) == [""] + ws[1..];
      assert ws[0] + "" == ws[0];
      assert ws == [ws[0]] + ws[1..];
    }
  }

  /** Each word lowercased, in order. */
  function LowerAll(ws: seq<Word>): (r: seq<Word>)
    ensures |r| == |ws|
  {
    seq(|ws|, i requires 0 <= i < |ws| => LowerWord(ws[i]))
  }

  /** `_normalize(s)`: split on " ", then lowercase every piece. */
  function Normalize(s: seq<char>): (ws: seq<Word>)
    ensures |ws| == Spaces(s) + 1
  {
    LowerAll(Split(s))
  }

  lemma {:induction false} LowerWordAppend(a: Word, b: Word)
    ensures LowerWord(a + b) == LowerWord(a) + LowerWord(b)
  {
    if |a| > 0 {
      LowerWordAppend(a[1..], b);
      assert (a + b)[0] == a[0] && (a + b)[1..] == a[1..] + b;
      assert LowerWord(a + b) == [Lower(a[0])] + LowerWord(a[1..] + b);
      assert LowerWord(a) == [Lower(a[0])] + LowerWord(a[1..]);
      assert [Lower(a[0])] + (LowerWord(a[1..]) + LowerWord(b)) == ([Lower(a[0])] + LowerWord(a[1..])) + LowerWord(b);
    } else {
      assert a + b == b;
    }
  }

  lemma {:induction false} JoinLowered(ws: seq<Word>)
    requires |ws| > 0
    ensures Join(LowerAll(ws)) == LowerWord(Join(ws))
  {
    if |ws| > 1 {
      var tl := ws[1..];
      JoinLowered(tl);
      assert LowerAll(ws)[1..] == LowerAll(tl);
      LowerWordAppend(ws[0], " ");
      LowerWordAppend(ws[0] + " ", Join(tl));
      assert LowerWord(" ") == " ";
    }
  }

  /** The normalised words, joined back with spaces, are the lowercased
      document: normalisation loses nothing but case. */
  lemma NormalizeJoin(s: seq<char>)
    ensures Join(Normalize(s)) == LowerWord(s)
    ensures Normalize("") == [""]
  {
    JoinSplit(s);
    JoinLowered(Split(s));
  }

  // ---------------------------------------------------------------------
  // Term frequency (`calculateTF`)
  // ---------------------------------------------------------------------

  /** `tf[word] = (tf[word] || 0) + 1` over the words, in order. */
  function Counts(ws: seq<Word>): (m: map<Word, nat>)
    ensures m.Keys == set w | w in ws
    ensures forall w :: w in m ==> m[w] == multiset(ws)[w]
  {
    if |ws| == 0 then map[]
    else
      var init := ws[..|ws| - 1];
      var w := ws[|ws| - 1];
      assert ws == init + [w];
      var m := Counts(init);
      m[w := (if w in m then m[w] else 0) + 1]
  }

  lemma {:induction false} OccurrencesAtMostLength(ws: seq<Word>, w: Word)
    ensures multiset(ws)[w] <= |ws|
  {
    if |ws| > 0 {
      OccurrencesAtMostLength(ws[1..], w);
      assert ws == [ws[0]] + ws[1..];
    }
  }

  /** `calculateTF(d)`: one entry per word of the normalised document. */
  function TermFrequency(d: seq<char>): (tf: Scores)
    ensures tf.Keys == set w | w in Normalize(d)
  {
    var ws := Normalize(d);
    var c := Counts(ws);
    map w | w in c :: c[w] as real / |ws| as real
  }

  /** Each term frequency is the word's number of occurrences divided by the
      number of words, so it lies in (0, 1]. */
  lemma TermFrequencyValues(d: seq<char>)
    ensures forall w :: w in TermFrequency(d) ==>
              TermFrequency(d)[w] == multiset(Normalize(d))[w] as real / |Normalize(d)| as real
    ensures forall w :: w in TermFrequency(d) ==> 0.0 < TermFrequency(d)[w] <= 1.0
  {
    var ws := Normalize(d);
    var tf := TermFrequency(d);
    forall w | w in tf ensures 0.0 < tf[w] <= 1.0 {
      OccurrencesAtMostLength(ws, w);
      RatioInUnit(multiset(ws)[w], |ws|);
    }
  }

  lemma RatioInUnit(a: nat, n: nat)
    requires 1 <= a <= n
    ensures 0.0 < a as real / n as real <= 1.0
  {
    var q := a as real / n as real;
    assert q * n as real == a as real;
  }

  /** The words of `ws` without repetition, in order of first occurrence
      (the iteration order of `new Set(words)`). */
  function Distinct(ws: seq<Word>): (d: seq<Word>)
    ensures forall w :: w in d <==> w in ws
    ensures forall i, j :: 0 <= i < j < |d| ==> d[i] != d[j]
  {
    if |ws| == 0 then []
    else
      var init := ws[..|ws| - 1];
      assert forall w :: w in ws <==> w in init || w == ws[|ws| - 1];
      var d := Distinct(init);
      if ws[|ws| - 1] in d then d else d + [ws[|ws| - 1]]
  }

  /** Position of the first occurrence of `w` in `ws`. */
  function FirstIndex(ws: seq<Word>, w: Word): (i: nat)
    requires w in ws
    ensures i < |ws| && ws[i] == w
    ensures forall k :: 0 <= k < i ==> ws[k] != w
  {
    if ws[0] == w then 0 else 1 + FirstIndex(ws[1..], w)
  }

  /** A word occurring in a prefix first occurs at the same position in the
      whole sequence. */
  lemma FirstIndexPrefix(ws: seq<Word>, n: nat, w: Word)
    requires n <= |ws| && w in ws[..n]
    ensures w in ws && FirstIndex(ws, w) == FirstIndex(ws[..n], w)
  {
    assert ws[FirstIndex(ws[..n], w)] == w;
  }

  /** `Distinct` lists the words in the order of their first occurrence. */
  lemma {:induction false} DistinctInOrder(ws: seq<Word>)
    ensures forall i, j :: 0 <= i < j < |Distinct(ws)| ==>
              FirstIndex(ws, Distinct(ws)[i]) < FirstIndex(ws, Distinct(ws)[j])
  {
    if |ws| > 0 {
      var n := |ws| - 1;
      var init := ws[..n];
      var d := Distinct(init);
      DistinctInOrder(init);
      forall x | x in d ensures FirstIndex(ws, x) == FirstIndex(init, x) {
        FirstIndexPrefix(ws, n, x);
      }
      if ws[n] !in d {
        assert ws[n] !in init;
        assert FirstIndex(ws, ws[n]) == n;
        assert Distinct(ws) == d + [ws[n]];
      }
    }
  }

  /** Sum of the occurrence counts in `ws` of the words listed in `d`. */
  function SumCounts(d: seq<Word>, ws: seq<Word>): nat {
    if |d| == 0 then 0 else SumCounts(d[..|d| - 1], ws) + multiset(ws)[d[|d| - 1]]
  }

  /** Sum of the values stored under the words listed in `d`. */
  function SumValues(d: seq<Word>, m: Scores): real
    requires forall i :: 0 <= i < |d| ==> d[i] in m
  {
    if |d| == 0 then 0.0 else SumValues(d[..|d| - 1], m) + m[d[|d| - 1]]
  }

  lemma {:induction false} SumCountsExtend(d: seq<Word>, ws: seq<Word>, x: Word)
    ensures SumCounts(d, ws + [x]) == SumCounts(d, ws) + multiset(d)[x]
  {
    if |d| > 0 {
      var init := d[..|d| - 1];
      SumCountsExtend(init, ws, x);
      assert d == init + [d[|d| - 1]];
    }
  }

  lemma DistinctOnce(d: seq<Word>, x: Word)
    requires forall i, j :: 0 <= i < j < |d| ==> d[i] != d[j]
    ensures multiset(d)[x] == if x in d then 1 else 0
  {
    if |d| > 0 {
      var init := d[..|d| - 1];
      DistinctOnce(init, x);
      assert d == init + [d[|d| - 1]];
    }
  }

  /** Each distinct word contributes its count, and the counts add up to the
      number of words. */
  lemma {:induction false} DistinctCountsSum(ws: seq<Word>)
    ensures SumCounts(Distinct(ws), ws) == |ws|
  {
    if |ws| > 0 {
      var init := ws[..|ws| - 1];
      var x := ws[|ws| - 1];
      assert ws == init + [x];
      DistinctCountsSum(init);
      var d := Distinct(init);
      SumCountsExtend(d, init, x);
      DistinctOnce(d, x);
      if x !in d {
        var d' := d + [x];
        assert d'[..|d'| - 1] == d;
      }
    }
  }

  lemma AddRatios(a: real, b: real, n: real)
    requires n > 0.0
    ensures a / n + b / n == (a + b) / n
  {
    var qa := a / n;
    var qb := b / n;
    assert qa * n == a && qb * n == b;
    assert (qa + qb) * n == a + b;
  }

  lemma DivSelf(n: real)
    requires n > 0.0
    ensures n / n == 1.0
  {
  }

  lemma {:induction false} SumValuesOfRatios(d: seq<Word>, ws: seq<Word>, tf: Scores)
    requires |ws| > 0
    requires forall i :: 0 <= i < |d| ==> d[i] in tf
    requires forall w :: w in tf ==> tf[w] == multiset(ws)[w] as real / |ws| as real
    ensures SumValues(d, tf) == SumCounts(d, ws) as real / |ws| as real
  {
    if |d| > 0 {
      var init := d[..|d| - 1];
      var x := d[|d| - 1];
      SumValuesOfRatios(init, ws, tf);
      AddRatios(SumCounts(init, ws) as real, multiset(ws)[x] as real, |ws| as real);
    }
  }

  /** The term frequencies of a document sum to exactly 1: every distinct word
      is counted once, in first-occurrence order. */
  lemma TermFrequencySumsToOne(doc: seq<char>)
    ensures forall i :: 0 <= i < |Distinct(Normalize(doc))| ==>
              Distinct(Normalize(doc))[i] in TermFrequency(doc)
    ensures SumValues(Distinct(Normalize(doc)), TermFrequency(doc)) == 1.0
  {
    var ws := Normalize(doc);
    var tf := TermFrequency(doc);
    TermFrequencyValues(doc);
    var d := Distinct(ws);
    forall i | 0 <= i < |d| ensures d[i] in tf {
      assert d[i] in ws;
    }
    SumValuesOfRatios(d, ws, tf);
    DistinctCountsSum(ws);
    var n := |ws| as real;
    assert SumCounts(d, ws) as real == n;
    DivSelf(n);
  }

  // ---------------------------------------------------------------------
  // Document frequency and inverse document frequency (`calculateIDF`)
  // ---------------------------------------------------------------------

  /** Whether document `d` contains the word `w` after normalisation. */
  predicate Mentions(d: seq<char>, w: Word) {
    w in Normalize(d)
  }

  /** Reference count: the number of documents that mention `w`. */
  function Containing(docs: seq<seq<char>>, w: Word): (n: nat)
    ensures n <= |docs|
  {
    if |docs| == 0 then 0
    else Containing(docs[..|docs| - 1], w) + (if Mentions(docs[|docs| - 1], w) then 1 else 0)
  }

  /** `uniqueWords.forEach(word => counts[word] = (counts[word] || 0) + 1)`. */
  function AddEach(m: map<Word, nat>, us: seq<Word>): (r: map<Word, nat>)
    requires forall i, j :: 0 <= i < j < |us| ==> us[i] != us[j]
    ensures r.Keys == m.Keys + set w | w in us
    ensures forall w :: w in r ==> r[w] == (if w in m then m[w] else 0) + (if w in us then 1 else 0)
  {
    if |us| == 0 then m
    else
      var init := us[..|us| - 1];
      var w := us[|us| - 1];
      assert forall v :: v in us <==> v in init || v == w;
      var r := AddEach(m, init);
      r[w := (if w in r then r[w] else 0) + 1]
  }

  /** `documentCounts` after the loop over all documents. */
  function DocumentCounts(docs: seq<seq<char>>): (df: map<Word, nat>)
    ensures forall w :: w in df <==> Containing(docs, w) > 0
    ensures forall w :: w in df ==> df[w] == Containing(docs, w)
  {
    if |docs| == 0 then map[]
    else
      var m := DocumentCounts(docs[..|docs| - 1]);
      AddEach(m, Distinct(Normalize(docs[|docs| - 1])))
  }

  /** A word counts for at most one per document: its document frequency is
      between 1 and the corpus size, and it is a key exactly when some
      document mentions it. */
  lemma DocumentCountsBounds(docs: seq<seq<char>>, w: Word)
    ensures w in DocumentCounts(docs) <==> exists j :: 0 <= j < |docs| && Mentions(docs[j], w)
    ensures w in DocumentCounts(docs) ==> 1 <= DocumentCounts(docs)[w] <= |docs|
  {
    ContainingPositive(docs, w);
  }

  lemma {:induction false} ContainingPositive(docs: seq<seq<char>>, w: Word)
    ensures Containing(docs, w) > 0 <==> exists j :: 0 <= j < |docs| && Mentions(docs[j], w)
  {
    if |docs| > 0 {
      var init := docs[..|docs| - 1];
      ContainingPositive(init, w);
      assert forall j :: 0 <= j < |init| ==> init[j] == docs[j];
      if Containing(init, w) > 0 {
        var j :| 0 <= j < |init| && Mentions(init[j], w);
        assert Mentions(docs[j], w);
      }
    }
  }

  /** A word's document frequency equals the corpus size exactly when every
      document mentions it. */
  lemma {:induction false} ContainingAll(docs: seq<seq<char>>, w: Word)
    ensures Containing(docs, w) == |docs| <==> forall j :: 0 <= j < |docs| ==> Mentions(docs[j], w)
  {
    if |docs| > 0 {
      var init := docs[..|docs| - 1];
      ContainingAll(init, w);
      assert forall j :: 0 <= j < |init| ==> init[j] == docs[j];
    }
  }

  lemma {:induction false} ContainingAppend(a: seq<seq<char>>, b: seq<seq<char>>, w: Word)
    ensures Containing(a + b, w) == Containing(a, w) + Containing(b, w)
  {
    if |b| == 0 {
      assert a + b == a;
    } else {
      var bi := b[..|b| - 1];
      ContainingAppend(a, bi, w);
      assert (a + b)[..|a + b| - 1] == a + bi;
    }
  }

  /** Removing document `i` takes its contribution, if any, off the count. */
  lemma ContainingRemove(docs: seq<seq<char>>, i: nat, w: Word)
    requires i < |docs|
    ensures Containing(docs, w) ==
              Containing(docs[..i] + docs[i + 1..], w) + (if Mentions(docs[i], w) then 1 else 0)
  {
    assert docs == docs[..i] + [docs[i]] + docs[i + 1..];
    ContainingAppend(docs[..i] + [docs[i]], docs[i + 1..], w);
    ContainingAppend(docs[..i], [docs[i]], w);
    ContainingAppend(docs[..i], docs[i + 1..], w);
    assert [docs[i]][..0] == [];
  }

  /** The number of documents mentioning a word does not depend on the order
      of the documents. */
  lemma {:induction false} ContainingReorder(a: seq<seq<char>>, b: seq<seq<char>>, w: Word)
    requires multiset(a) == multiset(b)
    ensures Containing(a, w) == Containing(b, w)
  {
    if |a| > 0 {
      var x := a[|a| - 1];
      var ai := a[..|a| - 1];
      assert a == ai + [x];
      assert x in multiset(b);
      var i :| 0 <= i < |b| && b[i] == x;
      var bi := b[..i] + b[i + 1..];
      assert b == b[..i] + [x] + b[i + 1..];
      assert multiset(ai) == multiset(a) - multiset{x};
      assert multiset(b) == multiset(b[..i]) + multiset{x} + multiset(b[i + 1..]);
      assert multiset(bi) == multiset(b) - multiset{x};
      ContainingReorder(ai, bi, w);
      ContainingRemove(b, i, w);
    }
  }

  /** Document frequencies are a property of the corpus as a multiset:
      processing the documents in another order gives the same table. */
  lemma DocumentCountsReorder(a: seq<seq<char>>, b: seq<seq<char>>)
    requires multiset(a) == multiset(b)
    ensures DocumentCounts(a) == DocumentCounts(b)
  {
    forall w ensures Containing(a, w) == Containing(b, w) {
      ContainingReorder(a, b, w);
    }
  }

  /** The argument `size / frequency` handed to `Math.log` for each word. */
  function IdfRatio(docs: seq<seq<char>>): (q: Scores)
    ensures q.Keys == DocumentCounts(docs).Keys
    ensures forall w :: w in q ==> q[w] == |docs| as real / Containing(docs, w) as real
  {
    var df := DocumentCounts(docs);
    assert forall w :: w in df ==> df[w] > 0;
    map w | w in df :: |docs| as real / df[w] as real
  }

  /** `calculateIDF(docs)`, with `Math.log` given as `ln`. */
  function Idf(docs: seq<seq<char>>, ln: real -> real): (idf: Scores)
    ensures forall w :: w in idf <==> Containing(docs, w) > 0
    ensures forall w :: w in idf ==> idf[w] == ln(|docs| as real / Containing(docs, w) as real)
  {
    var q := IdfRatio(docs);
    map w | w in q :: ln(q[w])
  }

  lemma RatioAtLeastOne(n: real, c: real)
    requires 0.0 < c <= n
    ensures n / c >= 1.0
    ensures n / c == 1.0 <==> c == n
  {
    var q := n / c;
    assert q * c == n;
    if q == 1.0 {
      assert c == n;
    }
  }

  /** The logarithm's argument is at least 1, and it is exactly 1 when every
      document mentions the word. */
  lemma IdfRatioAtLeastOne(docs: seq<seq<char>>, w: Word)
    requires Containing(docs, w) > 0
    ensures w in IdfRatio(docs)
    ensures IdfRatio(docs)[w] >= 1.0
    ensures IdfRatio(docs)[w] == 1.0 <==> DocumentCounts(docs)[w] == |docs|
    ensures IdfRatio(docs)[w] == 1.0 <==> forall j :: 0 <= j < |docs| ==> Mentions(docs[j], w)
  {
    ContainingAll(docs, w);
    RatioAtLeastOne(|docs| as real, Containing(docs, w) as real);
  }

  /** With a logarithm that is non-negative from 1 on and zero only at 1,
      every IDF is non-negative, and it is zero exactly for the words that
      every document mentions. */
  lemma IdfNonNegative(docs: seq<seq<char>>, ln: real -> real, w: Word)
    requires forall x :: x >= 1.0 ==> ln(x) >= 0.0
    requires forall x :: x >= 1.0 ==> (ln(x) == 0.0 <==> x == 1.0)
    requires Containing(docs, w) > 0
    ensures w in Idf(docs, ln)
    ensures Idf(docs, ln)[w] >= 0.0
    ensures Idf(docs, ln)[w] == 0.0 <==> forall j :: 0 <= j < |docs| ==> Mentions(docs[j], w)
  {
    IdfRatioAtLeastOne(docs, w);
  }

  /** A word found in exactly one document has ratio `size`, so its IDF is
      `ln(size)`. */
  lemma IdfOfSingleDocumentWord(docs: seq<seq<char>>, ln: real -> real, w: Word)
    requires Containing(docs, w) == 1
    ensures w in Idf(docs, ln) && Idf(docs, ln)[w] == ln(|docs| as real)
  {
    assert w in DocumentCounts(docs);
    var q := IdfRatio(docs);
    assert q[w] == |docs| as real / 1.0;
  }

  // ---------------------------------------------------------------------
  // Combination (`TFIDF`)
  // ---------------------------------------------------------------------

  /** The per-document record `tfIdfDoc` once its loop has finished:
      `tf[word] * (idf[word] || 0)` for every word of the document. */
  function DocumentScores(d: seq<char>, idf: Scores): (r: Scores)
    ensures r.Keys == set w | w in Normalize(d)
  {
    var tf := TermFrequency(d);
    map w | w in tf :: Weight(tf[w], IdfOrZero(idf, w))
  }

  /** `tf[word] * idf[word]`. */
  function Weight(tf: real, idf: real): real {
    tf * idf
  }

  /** `idf[word] || 0`. */
  function IdfOrZero(idf: Scores, w: Word): real {
    if w in idf then idf[w] else 0.0
  }

  /** Every word of every document of the corpus is a key of its IDF table,
      so the `|| 0` fallback never applies and each score is `tf * idf`; the
      document's record holds exactly the document's words. */
  lemma ScoresUseIdf(docs: seq<seq<char>>, ln: real -> real, j: nat, w: Word)
    requires j < |docs| && w in TermFrequency(docs[j])
    ensures DocumentScores(docs[j], Idf(docs, ln)).Keys == TermFrequency(docs[j]).Keys
    ensures w in Idf(docs, ln)
    ensures Idf(docs, ln)[w] == ln(|docs| as real / Containing(docs, w) as real)
    ensures w in DocumentScores(docs[j], Idf(docs, ln))
    ensures DocumentScores(docs[j], Idf(docs, ln))[w] == Weight(TermFrequency(docs[j])[w], Idf(docs, ln)[w])
  {
    var tf := TermFrequency(docs[j]);
    var idf := Idf(docs, ln);
    assert Mentions(docs[j], w);
    DocumentCountsBounds(docs, w);
    assert w in idf;
    var sc := DocumentScores(docs[j], idf);
    assert sc[w] == Weight(tf[w], idf[w]);
  }

  /** Number of words the source loops over for document `d`: its number of
      distinct normalised words. */
  function Width(d: seq<char>): nat {
    |TermFrequency(d).Keys|
  }

  /** A document's entry count is its number of distinct normalised words. */
  lemma WidthCountsWords(d: seq<char>)
    ensures Width(d) == |set w | w in Normalize(d)|
  {
  }

  /** Every normalised document has at least one word (possibly ""), so every
      document has at least one entry. */
  lemma WidthPositive(d: seq<char>)
    ensures Width(d) >= 1
  {
    var ws := Normalize(d);
    assert ws[0] in TermFrequency(d);
  }

  function Widths(docs: seq<seq<char>>): (ns: seq<nat>)
    ensures |ns| == |docs|
  {
    seq(|docs|, j requires 0 <= j < |docs| => Width(docs[j]))
  }

  function Sum(ns: seq<nat>): nat {
    if |ns| == 0 then 0 else Sum(ns[..|ns| - 1]) + ns[|ns| - 1]
  }

  lemma SumStep(ns: seq<nat>, j: nat)
    requires j < |ns|
    ensures Sum(ns[..j]) + ns[j] == Sum(ns[..j + 1])
  {
    assert ns[..j + 1][..j] == ns[..j];
  }

  function Repeat<T>(x: T, n: nat): (r: seq<T>)
    ensures |r| == n && forall i :: 0 <= i < n ==> r[i] == x
  {
    if n == 0 then [] else [x] + Repeat(x, n - 1)
  }

  /** Each `xs[j]` repeated `ns[j]` times, in order. */
  function Expand<T>(xs: seq<T>, ns: seq<nat>): seq<T>
    requires |xs| == |ns|
  {
    if |xs| == 0 then []
    else Expand(xs[..|xs| - 1], ns[..|ns| - 1]) + Repeat(xs[|xs| - 1], ns[|ns| - 1])
  }

  lemma {:induction false} ExpandLength<T>(xs: seq<T>, ns: seq<nat>)
    requires |xs| == |ns|
    ensures |Expand(xs, ns)| == Sum(ns)
  {
    if |xs| > 0 {
      ExpandLength(xs[..|xs| - 1], ns[..|ns| - 1]);
    }
  }

  /** Copy `k` of `xs[j]` sits after the `Sum(ns[..j])` entries of the
      earlier groups. */
  lemma {:induction false} ExpandGroup(xs: seq<Scores>, ns: seq<nat>, j: nat, k: nat)
    requires |xs| == |ns| && j < |xs| && k < ns[j]
    ensures Sum(ns[..j]) + k < |Expand(xs, ns)|
    ensures Expand(xs, ns)[Sum(ns[..j]) + k] == xs[j]
  {
    var last := |xs| - 1;
    var xi, ni := xs[..last], ns[..last];
    var e := Expand(xi, ni);
    ExpandLength(xi, ni);
    ExpandLength(xs, ns);
    if j == last {
      assert ns[..j] == ni;
    } else {
      ExpandGroup(xi, ni, j, k);
      assert ni[..j] == ns[..j];
      assert Sum(ns[..j]) + k < |e|;
    }
  }

  /** `TFIDF(documents)` as the code returns it (Math.log given as `ln`):
      the record of each document is pushed once per word, and since all
      pushes of one document share that record, each reads as its final
      value. */
  function TfIdfAsWritten(docs: seq<seq<char>>, ln: real -> real): (r: seq<Scores>)
    ensures |r| == Sum(Widths(docs))
  {
    ExpandLength(TfIdfPerDocument(docs, ln), Widths(docs));
    Expand(TfIdfPerDocument(docs, ln), Widths(docs))
  }

  /** The evidently intended output: one final record per document, in
      document order. */
  function TfIdfPerDocument(docs: seq<seq<char>>, ln: real -> real): (r: seq<Scores>)
    ensures |r| == |docs|
  {
    var idf := Idf(docs, ln);
    seq(|docs|, j requires 0 <= j < |docs| => DocumentScores(docs[j], idf))
  }

  lemma PerDocumentAt(docs: seq<seq<char>>, ln: real -> real, j: nat)
    requires j < |docs|
    ensures TfIdfPerDocument(docs, ln)[j] == DocumentScores(docs[j], Idf(docs, ln))
  {
  }

  /** Record `j` scores exactly the words of document `j`, each as its term
      frequency times `log(size / df)`; no word scores 0 for lack of an IDF. */
  lemma PerDocumentScores(docs: seq<seq<char>>, ln: real -> real, j: nat)
    requires j < |docs|
    ensures TfIdfPerDocument(docs, ln)[j].Keys == set w | w in Normalize(docs[j])
    ensures forall w :: w in TfIdfPerDocument(docs, ln)[j] ==>
              w in TermFrequency(docs[j]) && Containing(docs, w) > 0
    ensures forall w :: w in TfIdfPerDocument(docs, ln)[j] ==>
              TfIdfPerDocument(docs, ln)[j][w] ==
                Weight(TermFrequency(docs[j])[w], ln(|docs| as real / Containing(docs, w) as real))
  {
    var r := TfIdfPerDocument(docs, ln)[j];
    var sc := DocumentScores(docs[j], Idf(docs, ln));
    PerDocumentAt(docs, ln, j);
    forall w | w in r
      ensures w in TermFrequency(docs[j]) && Containing(docs, w) > 0
      ensures r[w] == Weight(TermFrequency(docs[j])[w], ln(|docs| as real / Containing(docs, w) as real))
    {
      assert w in sc && r[w] == sc[w];
      ScoresUseIdf(docs, ln, j, w);
    }
  }

  /** An empty corpus gives an empty output. */
  lemma TfIdfLength(docs: seq<seq<char>>, ln: real -> real)
    ensures docs == [] ==> TfIdfAsWritten(docs, ln) == []
  {
  }

  /** Entry `k` of document `j`'s group, which starts after the entries of
      the documents before it, is that document's one final record; the
      group ends where the group of document `j + 1` starts, so the groups
      follow the input order. */
  lemma TfIdfGroups(docs: seq<seq<char>>, ln: real -> real, j: nat, k: nat)
    requires j < |docs| && k < Width(docs[j])
    ensures Sum(Widths(docs)[..j]) + k < |TfIdfAsWritten(docs, ln)|
    ensures TfIdfAsWritten(docs, ln)[Sum(Widths(docs)[..j]) + k] == TfIdfPerDocument(docs, ln)[j]
    ensures Sum(Widths(docs)[..j]) + Width(docs[j]) == Sum(Widths(docs)[..j + 1])
  {
    ExpandGroup(TfIdfPerDocument(docs, ln), Widths(docs), j, k);
    SumStep(Widths(docs), j);
  }

  // ---------------------------------------------------------------------
  // Normalising words joined by spaces
  // ---------------------------------------------------------------------

  /** Normalising space-joined, space-free words lowercases each of them. */
  lemma {:induction false} NormalizeWords(ws: seq<Word>)
    requires |ws| > 0 && forall i :: 0 <= i < |ws| ==> ' ' !in ws[i]
    ensures Normalize(Join(ws)) == LowerAll(ws)
  {
    SplitJoin(ws);
  }

  lemma LowerAllCons(w: Word, ws: seq<Word>)
    ensures LowerAll([w] + ws) == [LowerWord(w)] + LowerAll(ws)
  {
    assert LowerAll([w] + ws)[1..] == LowerAll(ws);
  }

  /** A word without ASCII capitals is its own lowercase form. */
  lemma LowercaseWord(w: Word)
    requires forall i :: 0 <= i < |w| ==> !('A' <= w[i] <= 'Z')
    ensures LowerWord(w) == w
  {
    LowerWordAt(w);
  }

  /** Words without ASCII capitals are left unchanged by lowercasing. */
  lemma LowercaseWords(ws: seq<Word>)
    requires forall i, k :: 0 <= i < |ws| && 0 <= k < |ws[i]| ==> !('A' <= ws[i][k] <= 'Z')
    ensures LowerAll(ws) == ws
  {
    forall i | 0 <= i < |ws| {
      LowercaseWord(ws[i]);
    }
  }

  // ---------------------------------------------------------------------
  // A one-document corpus
  // ---------------------------------------------------------------------

  /** In a one-document corpus every word is in every document, so every
      ratio is 1 and every IDF is `ln(1)`. */
  lemma SingleDocumentIdf(d: seq<char>, ln: real -> real, w: Word)
    requires w in Normalize(d)
    ensures w in IdfRatio([d]) && IdfRatio([d])[w] == 1.0
    ensures Idf([d], ln)[w] == ln(1.0)
  {
    assert Mentions([d][0], w);
    DocumentCountsBounds([d], w);
    IdfRatioAtLeastOne([d], w);
  }

  // ---------------------------------------------------------------------
  // Examples: concrete inputs worked through the model. The lemmas here
  // without a doc comment only evaluate literal strings step by step.
  // ---------------------------------------------------------------------

  // A two-word document (the repeated record)

  lemma TwoWordNormalize()
    ensures Normalize("a b") == ["a", "b"]
  {
    var ws: seq<Word> := ["a", "b"];
    assert Join(ws) == "a b";
    NormalizeWords(ws);
    LowercaseWords(ws);
  }

  lemma TwoWordWidth()
    ensures Width("a b") == 2
  {
    TwoWordNormalize();
    WidthCountsWords("a b");
    DistinctPair("a", "b");
  }

  lemma DistinctPair(x: Word, y: Word)
    requires x != y
    ensures |set w | w in [x, y]| == 2
  {
    assert (set w | w in [x, y]) == {x, y};
  }

  /** A one-document corpus with two distinct words: the code returns two
      copies of the document's record where one was meant. */
  lemma RepeatedRecordExample(ln: real -> real)
    ensures |TfIdfAsWritten(["a b"], ln)| == 2
    ensures |TfIdfPerDocument(["a b"], ln)| == 1
  {
    var d := "a b";
    TwoWordWidth();
    var ns := Widths([d]);
    assert ns == [2];
    assert ns[..0] == [];
    assert Sum(ns) == 2;
  }

  // The three-document corpus of the demo page

  lemma CapitalisedWords()
    ensures LowerWord("The") == "the" && LowerWord("My") == "my" && LowerWord("Mat") == "mat"
  {
  }


  const FirstWords: seq<Word> := ["The", "cat"]
  const SecondWords: seq<Word> := ["The", "cat", "sat", "on", "the", "mat"]
  const ThirdWords: seq<Word> := ["My", "name", "is", "Mat"]

  lemma FirstDocumentJoin()
    ensures Join(FirstWords) == "The cat"
    ensures forall i :: 0 <= i < |FirstWords| ==> ' ' !in FirstWords[i]
  {
  }

  lemma LowerFirstDocument()
    ensures LowerAll(FirstWords) == ["the", "cat"]
  {
    CapitalisedWords();
    LowercaseWord("cat");
    LowerAllCons("cat", []);
    LowerAllCons("The", ["cat"]);
  }

  lemma SecondDocumentJoin()
    ensures Join(SecondWords) == "The cat sat on the mat"
  {
  }

  lemma SecondDocumentSpaceFree()
    ensures forall i :: 0 <= i < |SecondWords| ==> ' ' !in SecondWords[i]
  {
  }

  lemma LowerSecondDocument()
    ensures LowerAll(SecondWords) == ["the", "cat", "sat", "on", "the", "mat"]
  {
    var tail := ["cat", "sat", "on", "the", "mat"];
    assert SecondWords == ["The"] + tail;
    LowercaseWords(tail);
    CapitalisedWords();
    LowerAllCons("The", tail);
  }

  lemma ThirdDocumentJoin()
    ensures Join(ThirdWords) == "My name is Mat"
    ensures forall i :: 0 <= i < |ThirdWords| ==> ' ' !in ThirdWords[i]
  {
  }

  lemma LowerThirdDocument()
    ensures LowerAll(ThirdWords) == ["my", "name", "is", "mat"]
  {
    CapitalisedWords();
    LowercaseWord("name");
    LowercaseWord("is");
    LowerAllCons("Mat", []);
    LowerAllCons("is", ["Mat"]);
    LowerAllCons("name", ["is", "Mat"]);
    LowerAllCons("My", ["name", "is", "Mat"]);
  }

  lemma NormalizeFirstDocument()
    ensures Normalize("The cat") == ["the", "cat"]
  {
    FirstDocumentJoin();
    LowerFirstDocument();
    NormalizeWords(FirstWords);
  }

  lemma NormalizeSecondDocument()
    ensures Normalize("The cat sat on the mat") == ["the", "cat", "sat", "on", "the", "mat"]
  {
    SecondDocumentJoin();
    SecondDocumentSpaceFree();
    LowerSecondDocument();
    NormalizeWords(SecondWords);
  }

  /** Lowercasing turns the capitalised "Mat" into "mat". */
  lemma NormalizeThirdDocument()
    ensures Normalize("My name is Mat") == ["my", "name", "is", "mat"]
  {
    ThirdDocumentJoin();
    LowerThirdDocument();
    NormalizeWords(ThirdWords);
  }

  lemma ContainingOfThree(a: seq<char>, b: seq<char>, c: seq<char>, w: Word)
    ensures Containing([a, b, c], w) ==
              (if Mentions(a, w) then 1 else 0) + (if Mentions(b, w) then 1 else 0) + (if Mentions(c, w) then 1 else 0)
  {
    assert [a][..0] == [];
    assert Containing([a], w) == (if Mentions(a, w) then 1 else 0);
    assert [a, b][..1] == [a];
    assert Containing([a, b], w) == Containing([a], w) + (if Mentions(b, w) then 1 else 0);
    assert [a, b, c][..2] == [a, b];
  }

  lemma NotMentioned(d: seq<char>, w: Word, ws: seq<Word>)
    requires Normalize(d) == ws && w !in ws
    ensures !Mentions(d, w)
  {
  }

  /** Document frequencies of "the" and "mat" in any three documents that
      normalise like the example corpus below. */
  lemma TwoOfThree(d1: seq<char>, d2: seq<char>, d3: seq<char>)
    requires Normalize(d1) == ["the", "cat"]
    requires Normalize(d2) == ["the", "cat", "sat", "on", "the", "mat"]
    requires Normalize(d3) == ["my", "name", "is", "mat"]
    ensures Containing([d1, d2, d3], "mat") == 2
    ensures Containing([d1, d2, d3], "the") == 2
  {
    assert Normalize(d1)[0] == "the" && Normalize(d2)[0] == "the";
    assert Normalize(d2)[5] == "mat" && Normalize(d3)[3] == "mat";
    NotMentioned(d1, "mat", ["the", "cat"]);
    NotMentioned(d3, "the", ["my", "name", "is", "mat"]);
    ContainingOfThree(d1, d2, d3, "mat");
    ContainingOfThree(d1, d2, d3, "the");
  }

  /** A word found in two of three documents gets `log(3 / 2)`. */
  lemma IdfTwoOfThree(docs: seq<seq<char>>, ln: real -> real, w: Word)
    requires |docs| == 3 && Containing(docs, w) == 2
    ensures w in Idf(docs, ln) && Idf(docs, ln)[w] == ln(3.0 / 2.0)
  {
    assert |docs| as real / Containing(docs, w) as real == 3.0 / 2.0 by {
      assert |docs| as real == 3.0 && Containing(docs, w) as real == 2.0;
    }
  }

  /** In the corpus `["The cat", "The cat sat on the mat", "My name is Mat"]`
      both "the" and "mat" are found in two documents, because lowercasing
      turns the third document's "Mat" into "mat". So "mat" gets
      `log(3 / 2)`, not `log(3)`. */
  lemma ThreeDocumentIdf(ln: real -> real)
    ensures Containing(["The cat", "The cat sat on the mat", "My name is Mat"], "the") == 2
    ensures "mat" in Idf(["The cat", "The cat sat on the mat", "My name is Mat"], ln)
    ensures Idf(["The cat", "The cat sat on the mat", "My name is Mat"], ln)["mat"] == ln(3.0 / 2.0)
  {
    NormalizeFirstDocument();
    NormalizeSecondDocument();
    NormalizeThirdDocument();
    TwoOfThree("The cat", "The cat sat on the mat", "My name is Mat");
    IdfTwoOfThree(["The cat", "The cat sat on the mat", "My name is Mat"], ln, "mat");
  }
}
