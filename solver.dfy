/** The word preprocessing and the backtracking search of
    internal/core/solver.go. The metric is a parameter of the solver: a
    function from the grid's cells to a score. */
module Solvers {
  import opened Sorting
  import opened Text
  import opened GridSpec
  import opened Grids

  // ---------------------------------------------------------------------
  // Preprocessing

  /** preprocessWord: upper case, then trimmed. */
  function PreprocessWord(w: string): string {
    TrimSpace(ToUpper(w))
  }

  /** A preprocessed word has no lower-case letter, does not start or end
      with white space, and is a stretch of the upper-cased input. */
  lemma PreprocessFacts(w: string)
    ensures var r := PreprocessWord(w);
      && (forall k :: 0 <= k < |r| ==> !IsLower(r[k]))
      && (r == [] || (!IsSpace(r[0]) && !IsSpace(r[|r| - 1])))
      && (exists i, j :: 0 <= i <= j <= |w| && r == ToUpper(w)[i..j])
  {
    UpperSlices(ToUpper(w));
    TrimSpaceFacts(ToUpper(w));
  }

  /** Every stretch of an upper-cased string is free of lower-case letters. */
  lemma UpperSlices(u: string)
    requires forall k :: 0 <= k < |u| ==> !IsLower(u[k])
    ensures forall i, j :: 0 <= i <= j <= |u| ==> forall k :: 0 <= k < j - i ==> !IsLower(u[i..j][k])
  {
    forall i, j, k | 0 <= i <= j <= |u| && 0 <= k < j - i ensures !IsLower(u[i..j][k]) {
      assert u[i..j][k] == u[i + k];
    }
  }

  /** A word that is already upper case and trimmed is left as it is. */
  lemma PreprocessFixed(w: string)
    requires forall k :: 0 <= k < |w| ==> !IsLower(w[k])
    requires w == [] || (!IsSpace(w[0]) && !IsSpace(w[|w| - 1]))
    ensures PreprocessWord(w) == w
  {
    UpperFixed(w);
    TrimFixed(w);
  }

  /** Preprocessing is idempotent. */
  lemma PreprocessIdempotent(w: string)
    ensures PreprocessWord(PreprocessWord(w)) == PreprocessWord(w)
  {
    PreprocessFacts(w);
    PreprocessFixed(PreprocessWord(w));
  }

  /** Every word of the list preprocessed, in order. */
  function PreprocessAll(ws: seq<string>): (r: seq<string>)
    ensures |r| == |ws|
    decreases |ws|
  {
    if ws == [] then [] else PreprocessAll(ws[..|ws| - 1]) + [PreprocessWord(ws[|ws| - 1])]
  }

  lemma {:induction false} PreprocessAllAt(ws: seq<string>, i: nat)
    requires i < |ws|
    ensures PreprocessAll(ws)[i] == PreprocessWord(ws[i])
    decreases |ws|
  {
    if i < |ws| - 1 {
      PreprocessAllAt(ws[..|ws| - 1], i);
    }
  }

  /** The loop of preprocessWords: every word preprocessed, in order. */
  method PreprocessEach(ws: seq<string>) returns (processed: seq<string>)
    ensures processed == PreprocessAll(ws)
  {
    processed := [];
    var i := 0;
    while i < |ws|
      invariant 0 <= i <= |ws| && processed == PreprocessAll(ws[..i])
    {
      assert ws[..i + 1][..i] == ws[..i];
      processed := processed + [PreprocessWord(ws[i])];
      i := i + 1;
    }
    assert ws[..|ws|] == ws;
  }

  /** preprocessWords: every word preprocessed, in the input order.
      sortByCrossability is called and its result thrown away, as in the
      source, so the order is the input order. */
  method PreprocessWords(ws: seq<string>) returns (processed: seq<string>)
    ensures |processed| == |ws|
    ensures forall i :: 0 <= i < |ws| ==> processed[i] == PreprocessWord(ws[i])
  {
    processed := PreprocessEach(ws);
    forall i | 0 <= i < |ws| ensures processed[i] == PreprocessWord(ws[i]) {
      PreprocessAllAt(ws, i);
    }
    var discarded := SortByCrossability(processed);
  }

  // ---------------------------------------------------------------------
  // Letter frequencies and the crossability score

  /** A count in a Go map: 0 for a missing key. */
  function Get(freq: map<char, int>, c: char): int {
    if c in freq then freq[c] else 0
  }

  /** The counts of `freq` after counting every letter of `w`, in order. */
  function CountLetters(freq: map<char, int>, w: string): map<char, int>
    decreases |w|
  {
    if w == [] then freq
    else
      var f := CountLetters(freq, w[..|w| - 1]);
      var c := w[|w| - 1];
      f[c := Get(f, c) + 1]
  }

  /** computeLetterFrequency: the letters of every word counted, word by
      word. */
  function LetterFrequency(ws: seq<string>): map<char, int>
    decreases |ws|
  {
    if ws == [] then map[] else CountLetters(LetterFrequency(ws[..|ws| - 1]), ws[|ws| - 1])
  }

  /** The number of times `c` occurs in `w`. */
  function Count(w: string, c: char): nat
    decreases |w|
  {
    if w == [] then 0 else Count(w[..|w| - 1], c) + (if w[|w| - 1] == c then 1 else 0)
  }

  /** The number of times `c` occurs in all the words. */
  function Occurrences(ws: seq<string>, c: char): nat
    decreases |ws|
  {
    if ws == [] then 0 else Occurrences(ws[..|ws| - 1], c) + Count(ws[|ws| - 1], c)
  }

  /** The number of letters of all the words together. */
  function TotalLength(ws: seq<string>): nat
    decreases |ws|
  {
    if ws == [] then 0 else TotalLength(ws[..|ws| - 1]) + |ws[|ws| - 1]|
  }

  lemma {:induction false} CountLettersAt(freq: map<char, int>, w: string, c: char)
    ensures Get(CountLetters(freq, w), c) == Get(freq, c) + Count(w, c)
    decreases |w|
  {
    if w != [] {
      CountLettersAt(freq, w[..|w| - 1], c);
    }
  }

  /** Every letter is counted as often as it occurs in the words. */
  lemma {:induction false} FrequencyCounts(ws: seq<string>, c: char)
    ensures Get(LetterFrequency(ws), c) == Occurrences(ws, c)
    decreases |ws|
  {
    if ws != [] {
      FrequencyCounts(ws[..|ws| - 1], c);
      CountLettersAt(LetterFrequency(ws[..|ws| - 1]), ws[|ws| - 1], c);
    }
  }

  /** The sum of all the counts of a map. */
  ghost function SumValues(m: map<char, int>): int
    decreases |m|
  {
    if |m| == 0 then 0
    else
      var c := Pick(m);
      RemoveKey(m, c);
      m[c] + SumValues(m - {c})
  }

  /** The sum does not depend on which key is taken out first. */
  lemma {:induction false} SumRemove(m: map<char, int>, c: char)
    requires c in m
    ensures SumValues(m) == m[c] + SumValues(m - {c})
    decreases |m|
  {
    var d := Pick(m);
    RemoveKey(m, d);
    if d != c {
      RemoveKey(m, c);
      SumRemove(m - {d}, c);
      SumRemove(m - {c}, d);
      assert (m - {d}) - {c} == (m - {c}) - {d};
    }
  }

  /** Setting one count changes the sum by the difference. */
  lemma SumUpdate(m: map<char, int>, c: char, v: int)
    ensures SumValues(m[c := v]) == SumValues(m) - Get(m, c) + v
  {
    SumRemove(m[c := v], c);
    if c in m {
      SumRemove(m, c);
      assert m[c := v] - {c} == m - {c};
    } else {
      assert m[c := v] - {c} == m;
    }
  }

  lemma {:induction false} CountLettersTotal(freq: map<char, int>, w: string)
    ensures SumValues(CountLetters(freq, w)) == SumValues(freq) + |w|
    decreases |w|
  {
    if w != [] {
      CountLettersTotal(freq, w[..|w| - 1]);
      var f := CountLetters(freq, w[..|w| - 1]);
      SumUpdate(f, w[|w| - 1], Get(f, w[|w| - 1]) + 1);
    }
  }

  /** All the counts together are the number of letters of all the words. */
  lemma {:induction false} FrequencyTotal(ws: seq<string>)
    ensures SumValues(LetterFrequency(ws)) == TotalLength(ws)
    decreases |ws|
  {
    if ws != [] {
      FrequencyTotal(ws[..|ws| - 1]);
      CountLettersTotal(LetterFrequency(ws[..|ws| - 1]), ws[|ws| - 1]);
    }
  }

  /** wordCrossScore: the sum over the letters of `w` of their count
      minus one. */
  function CrossScore(w: string, freq: map<char, int>): int
    decreases |w|
  {
    if w == [] then 0 else CrossScore(w[..|w| - 1], freq) + Get(freq, w[|w| - 1]) - 1
  }

  lemma {:induction false} CountAt(w: string, k: nat)
    requires k < |w|
    ensures Count(w, w[k]) >= 1
    decreases |w|
  {
    if k < |w| - 1 {
      assert w[..|w| - 1][k] == w[k];
      CountAt(w[..|w| - 1], k);
    }
  }

  lemma {:induction false} OccurrencesOfMember(ws: seq<string>, w: string, c: char)
    requires w in ws
    ensures Occurrences(ws, c) >= Count(w, c)
    decreases |ws|
  {
    if ws[|ws| - 1] != w {
      assert w in ws[..|ws| - 1] by {
        var k :| 0 <= k < |ws| && ws[k] == w;
        assert ws[..|ws| - 1][k] == w;
      }
      OccurrencesOfMember(ws[..|ws| - 1], w, c);
    }
  }

  lemma {:induction false} CrossScoreBound(w: string, freq: map<char, int>)
    requires forall k :: 0 <= k < |w| ==> Get(freq, w[k]) >= 1
    ensures CrossScore(w, freq) >= 0
    decreases |w|
  {
    if w != [] {
      var front := w[..|w| - 1];
      assert forall k :: 0 <= k < |front| ==> front[k] == w[k];
      CrossScoreBound(front, freq);
    }
  }

  /** A word of the list scores at least 0 against the list's frequencies:
      each of its letters occurs at least once, in the word itself. */
  lemma CrossScoreNonNegative(ws: seq<string>, w: string)
    requires w in ws
    ensures CrossScore(w, LetterFrequency(ws)) >= 0
  {
    var freq := LetterFrequency(ws);
    forall k | 0 <= k < |w| ensures Get(freq, w[k]) >= 1 {
      FrequencyCounts(ws, w[k]);
      OccurrencesOfMember(ws, w, w[k]);
      CountAt(w, k);
    }
    CrossScoreBound(w, freq);
  }

  predicate HigherCross(a: (string, int), b: (string, int)) {
    a.1 > b.1
  }

  function WordOf(e: (string, int)): string {
    e.0
  }

  /** The first loop of sortByCrossability: every word paired with its
      score. */
  method CrossScored(ws: seq<string>, freq: map<char, int>) returns (scored: seq<(string, int)>)
    ensures |scored| == |ws|
    ensures forall k :: 0 <= k < |ws| ==> scored[k] == (ws[k], CrossScore(ws[k], freq))
  {
    scored := [];
    var i := 0;
    while i < |ws|
      invariant 0 <= i <= |ws| && |scored| == i
      invariant forall k :: 0 <= k < i ==> scored[k] == (ws[k], CrossScore(ws[k], freq))
    {
      scored := scored + [(ws[i], CrossScore(ws[i], freq))];
      i := i + 1;
    }
  }

  /** The last loop of sortByCrossability: the words of the sorted pairs. */
  method Unpair(sorted: seq<(string, int)>) returns (res: seq<string>)
    ensures res == MapSeq(WordOf, sorted)
  {
    res := [];
    var i := 0;
    while i < |sorted|
      invariant 0 <= i <= |sorted| && |res| == i
      invariant forall k :: 0 <= k < i ==> res[k] == sorted[k].0
    {
      res := res + [sorted[i].0];
      i := i + 1;
    }
    MapSeqAt(WordOf, sorted);
  }

  /** sortByCrossability: a new list holding the same words, highest
      crossability score first; the input is a value and stays as it is. */
  method SortByCrossability(ws: seq<string>) returns (res: seq<string>)
    ensures |res| == |ws| && multiset(res) == multiset(ws)
    ensures forall i, j :: 0 <= i < j < |res| ==>
      CrossScore(res[i], LetterFrequency(ws)) >= CrossScore(res[j], LetterFrequency(ws))
  {
    var freq := LetterFrequency(ws);
    var scored := CrossScored(ws, freq);
    assert StrictOrderOn(scored, HigherCross);
    var sorted := Sort(scored, HigherCross);
    res := Unpair(sorted);
    assert multiset(res) == multiset(ws) by {
      MapSeqAt(WordOf, scored);
      assert MapSeq(WordOf, scored) == ws;
      MapPermutation(WordOf, scored, sorted);
    }
    MapSeqAt(WordOf, sorted);
    forall k | 0 <= k < |sorted| ensures sorted[k].1 == CrossScore(res[k], freq) {
      assert sorted[k] in multiset(scored);
    }
  }

  // ---------------------------------------------------------------------
  // The search

  /** The cells are what placing the words in order gives, each placement
      accepted by canPlace on the grid it was put on. */
  ghost predicate Built(cells: Cells, ws: seq<string>)
    decreases |ws|
  {
    if ws == [] then cells == map[]
    else exists prev: Cells, p: Placement ::
      && cells == Place(prev, p)
      && p.word == ws[|ws| - 1]
      && Placeable(prev, p)
      && Built(prev, ws[..|ws| - 1])
  }

  /** The last placement of a built grid, and the grid it was made on. */
  lemma BuiltLast(cells: Cells, ws: seq<string>) returns (prev: Cells, p: Placement)
    requires ws != [] && Built(cells, ws)
    ensures cells == Place(prev, p) && p.word == ws[|ws| - 1] && Placeable(prev, p)
    ensures Built(prev, ws[..|ws| - 1])
  {
    prev, p :| cells == Place(prev, p) && p.word == ws[|ws| - 1] && Placeable(prev, p) && Built(prev, ws[..|ws| - 1]);
  }

  lemma BuiltStep(prev: Cells, p: Placement, ws: seq<string>, n: nat)
    requires n < |ws| && Built(prev, ws[..n]) && p.word == ws[n] && Placeable(prev, p)
    ensures Built(Place(prev, p), ws[..n + 1])
  {
    assert ws[..n + 1][..n] == ws[..n];
  }

  /** A word accepted on the grid holding one word shares a letter with it:
      it has to cross it, and the crossing cell holds both letters. */
  lemma SharedLetter(p0: Placement, p: Placement)
    requires |p0.word| > 0 && Placeable(Place(map[], p0), p)
    ensures exists i, j :: 0 <= i < |p.word| && 0 <= j < |p0.word| && p.word[i] == p0.word[j]
  {
    var prev := Place(map[], p0);
    StampFacts(map[], p0, p0.word, |p0.word|);
    assert Cell(p0, 0) in prev;
    var i :| 0 <= i < |p.word| && Cell(p, i) in prev;
    var j :| 0 <= j < |p0.word| && Cell(p, i) == Cell(p0, j);
    assert Fits(prev, p, i);
  }

  /** No letter of `a` occurs in `b`. */
  predicate NoCommonLetter(a: string, b: string) {
    forall i, j :: 0 <= i < |a| && 0 <= j < |b| ==> a[i] != b[j]
  }

  /** Two words without a common letter cannot both be placed: the second
      has to cross the first. */
  lemma Unarrangeable(a: string, b: string, cells: Cells)
    requires |a| > 0
    requires NoCommonLetter(a, b)
    ensures !Built(cells, [a, b])
  {
    if Built(cells, [a, b]) {
      var prev, p := BuiltLast(cells, [a, b]);
      assert [a, b][..1] == [a];
      var prev0, p0 := BuiltLast(prev, [a]);
      assert [a][..0] == [];
      SharedLetter(p0, p);
    }
  }

  /** HashOf(cells, ws) for every `n`, reached through a count-down of `n`
      steps. The search only compares hashes for equality and membership in
      `seen`, and this indirection keeps the verifier from unfolding the
      whole hash definition wherever a key is mentioned; KeyIsHash recovers
      HashOf where the definition is needed. */
  ghost function HashAfter(cells: Cells, ws: seq<Placement>, n: nat): string
    decreases n
  {
    if n == 0 then HashOf(cells, ws) else HashAfter(cells, ws, n - 1)
  }

  /** The hash a grid is recorded under in `seen`: HashOf(g.data, g.words),
      which is what Grid.Hash returns (KeyIsHash). */
  ghost function Key(g: Grid): string
    reads g
  {
    HashAfter(g.data, g.words, 1)
  }

  lemma KeyIsHash(g: Grid)
    ensures Key(g) == HashOf(g.data, g.words)
  {
    assert HashAfter(g.data, g.words, 1) == HashAfter(g.data, g.words, 0);
  }

  ghost predicate DistinctKeys(gs: seq<Grid>)
    reads gs
  {
    forall i, j :: 0 <= i < j < |gs| ==> Key(gs[i]) != Key(gs[j])
  }

  /** The hashes of the grids of `gs` from `base` on are in `seen`. */
  ghost predicate KeysSeen(gs: seq<Grid>, base: nat, seen: set<string>)
    reads gs
  {
    forall i :: base <= i < |gs| ==> Key(gs[i]) in seen
  }

  /** The grids of `gs` from `base` on have distinct hashes. */
  ghost predicate KeysApart(gs: seq<Grid>, base: nat)
    reads gs
  {
    forall i, j :: base <= i < j < |gs| ==> Key(gs[i]) != Key(gs[j])
  }

  /** The grids of `gs` from `base` on are built from all the words. */
  ghost predicate AllBuilt(gs: seq<Grid>, ws: seq<string>, base: nat)
    reads gs
  {
    forall i :: base <= i < |gs| ==> Built(gs[i].data, ws)
  }

  /** What the search keeps true of the grids it has added to `gs` since
      `base`: their hashes are in `seen` and distinct, and each is built
      from all the words. */
  ghost predicate KeptOn(gs: seq<Grid>, ws: seq<string>, base: nat, seen: set<string>)
    reads gs
  {
    base <= |gs| && KeysSeen(gs, base, seen) && KeysApart(gs, base) && AllBuilt(gs, ws, base)
  }

  lemma KeptGrows(gs: seq<Grid>, ws: seq<string>, base: nat, seen: set<string>, more: set<string>)
    requires KeptOn(gs, ws, base, seen) && seen <= more
    ensures KeptOn(gs, ws, base, more)
  {
  }

  lemma SeenAppend(gs: seq<Grid>, base: nat, seen: set<string>, g: Grid)
    requires base <= |gs| && KeysSeen(gs, base, seen)
    ensures KeysSeen(gs + [g], base, seen + {Key(g)})
  {
    var r := gs + [g];
    forall i | base <= i < |r| ensures Key(r[i]) in seen + {Key(g)} {
      if i < |gs| {
        assert r[i] == gs[i];
      }
    }
  }

  lemma ApartAppend(gs: seq<Grid>, base: nat, seen: set<string>, g: Grid)
    requires base <= |gs| && KeysSeen(gs, base, seen) && KeysApart(gs, base) && Key(g) !in seen
    ensures KeysApart(gs + [g], base)
  {
    var r := gs + [g];
    forall i, j | base <= i < j < |r| ensures Key(r[i]) != Key(r[j]) {
      assert r[i] == gs[i];
      if j < |gs| {
        assert r[j] == gs[j];
      }
    }
  }

  lemma BuiltAppend(gs: seq<Grid>, ws: seq<string>, base: nat, g: Grid)
    requires base <= |gs| && AllBuilt(gs, ws, base) && Built(g.data, ws)
    ensures AllBuilt(gs + [g], ws, base)
  {
    var r := gs + [g];
    forall i | base <= i < |r| ensures Built(r[i].data, ws) {
      if i < |gs| {
        assert r[i] == gs[i];
      }
    }
  }

  /** The grids of `gs` from `base` on carry the metric's value as their
      score, as Evaluate leaves it. */
  ghost predicate AllScored(gs: seq<Grid>, base: nat, metric: Cells -> real)
    reads gs
  {
    forall i :: base <= i < |gs| ==> gs[i].score == metric(gs[i].data)
  }

  lemma ScoredAppend(gs: seq<Grid>, base: nat, metric: Cells -> real, g: Grid)
    requires base <= |gs| && AllScored(gs, base, metric) && g.score == metric(g.data)
    ensures AllScored(gs + [g], base, metric)
  {
    var r := gs + [g];
    forall i | base <= i < |r| ensures r[i].score == metric(r[i].data) {
      if i < |gs| {
        assert r[i] == gs[i];
      }
    }
  }

  /** `best` is the shared best score after a search that started with
      `best0` and appended the grids of `gs` from `from` on: never lower
      than `best0`, at least every new solution's metric, and either
      `best0` or one of those metrics. */
  ghost predicate BestOf(gs: seq<Grid>, from: nat, metric: Cells -> real, best0: real, best: real)
    reads gs
  {
    && best0 <= best
    && (forall i :: from <= i < |gs| ==> metric(gs[i].data) <= best)
    && (best == best0 || exists i :: from <= i < |gs| && best == metric(gs[i].data))
  }

  /** Nothing appended leaves the best score as it was. */
  lemma BestNone(gs: seq<Grid>, metric: Cells -> real, best: real)
    ensures BestOf(gs, |gs|, metric, best, best)
  {
  }

  /** One search after another: the best scores chain. */
  lemma {:induction false} BestChain(gs1: seq<Grid>, gs2: seq<Grid>, from: nat, metric: Cells -> real,
                                     b0: real, b1: real, b2: real)
    requires from <= |gs1| && gs1 <= gs2
    requires BestOf(gs1, from, metric, b0, b1) && BestOf(gs2, |gs1|, metric, b1, b2)
    ensures BestOf(gs2, from, metric, b0, b2)
  {
    forall i | from <= i < |gs2| ensures metric(gs2[i].data) <= b2 {
      if i < |gs1| {
        assert gs2[i] == gs1[i];
      }
    }
    if b2 != b0 {
      if b2 == b1 {
        var i :| from <= i < |gs1| && b1 == metric(gs1[i].data);
        assert gs2[i] == gs1[i];
      }
    }
  }

  /** A grid with a new hash, built from all the words, can be added. */
  lemma KeptAppend(gs: seq<Grid>, ws: seq<string>, base: nat, seen: set<string>, g: Grid)
    requires KeptOn(gs, ws, base, seen) && Key(g) !in seen && Built(g.data, ws)
    ensures KeptOn(gs + [g], ws, base, seen + {Key(g)})
  {
    SeenAppend(gs, base, seen, g);
    ApartAppend(gs, base, seen, g);
    BuiltAppend(gs, ws, base, g);
  }

  /** After a search that started from `before`: no more solutions than
      the cap allows, the earlier ones kept, every new one built from all
      the words in order and scored by the metric, distinct hashes when the
      search started from none, and the grids ordered by score, highest
      first. */
  ghost predicate OutcomeOn(gs: seq<Grid>, before: seq<Grid>, ws: seq<string>, cap: int, metric: Cells -> real)
    reads gs
  {
    && |gs| <= Max(|before|, cap)
    && multiset(before) <= multiset(gs)
    && (forall g :: g in gs && g !in before ==> Built(g.data, ws))
    && (before == [] ==> DistinctKeys(gs))
    && (forall g :: g in gs && g !in before ==> g.score == metric(g.data))
    && (forall i, j :: 0 <= i < j < |gs| ==> gs[i].score >= gs[j].score)
  }

  /** Sorting what the search found by score gives that outcome. */
  lemma SortedOutcome(before: seq<Grid>, found: seq<Grid>, sorted: seq<Grid>, ws: seq<string>, cap: int,
                       metric: Cells -> real)
    requires before <= found && |found| <= Max(|before|, cap)
    requires forall i :: |before| <= i < |found| ==> Built(found[i].data, ws)
    requires forall i :: |before| <= i < |found| ==> found[i].score == metric(found[i].data)
    requires before == [] ==> DistinctKeys(found)
    requires multiset(sorted) == multiset(found)
    requires forall i, j :: 0 <= i < j < |sorted| ==> sorted[i].score >= sorted[j].score
    ensures OutcomeOn(sorted, before, ws, cap, metric)
    ensures |sorted| == |found|
    ensures |found| == 1 ==> sorted == found
  {
    assert found == before + found[|before|..];
    forall g | g in sorted && g !in before ensures Built(g.data, ws) && g.score == metric(g.data) {
      assert g in multiset(found);
      var i :| 0 <= i < |found| && found[i] == g;
    }
    if before == [] {
      DistinctKeysPermutation(found, sorted);
    }
    if |found| == 1 {
      assert found == [found[0]];
      assert |sorted| == 1 && sorted[0] in multiset(found);
    }
  }

  /** `g` carries its metric's value as its score, and no grid of `gs` has
      a higher metric. */
  ghost predicate Leads(g: Grid, gs: seq<Grid>, metric: Cells -> real)
    reads g, gs
  {
    g.score == metric(g.data) && forall i :: 0 <= i < |gs| ==> metric(gs[i].data) <= metric(g.data)
  }

  /** After a search that started without solutions, the first solution
      carries its metric's value as its score, and that value is the
      highest metric among all the solutions. */
  lemma BestFirst(gs: seq<Grid>, ws: seq<string>, cap: int, metric: Cells -> real)
    requires OutcomeOn(gs, [], ws, cap, metric) && |gs| > 0
    ensures Leads(gs[0], gs, metric)
  {
    forall i | 0 <= i < |gs| ensures metric(gs[i].data) <= metric(gs[0].data) {
      assert gs[i] in gs && gs[0] in gs;
    }
  }

  /** A permutation of grids with distinct hashes has distinct hashes. */
  lemma DistinctKeysPermutation(s: seq<Grid>, r: seq<Grid>)
    requires multiset(r) == multiset(s) && DistinctKeys(s)
    ensures DistinctKeys(r)
  {
    assert NoDup(s);
    NoDupPermutation(s, r);
    forall i, j | 0 <= i < j < |r| ensures Key(r[i]) != Key(r[j]) {
      assert r[i] in multiset(s) && r[j] in multiset(s);
      var a :| 0 <= a < |s| && s[a] == r[i];
      var b :| 0 <= b < |s| && s[b] == r[j];
      assert a != b;
    }
  }

  predicate HigherGridScore(a: (Grid, real), b: (Grid, real)) {
    a.1 > b.1
  }

  function GridOf(e: (Grid, real)): Grid {
    e.0
  }

  /** Each grid paired with its score, in order. */
  method ScoreEach(gs: seq<Grid>) returns (scored: seq<(Grid, real)>)
    ensures |scored| == |gs|
    ensures forall u :: 0 <= u < |gs| ==> scored[u] == (gs[u], gs[u].score)
  {
    scored := [];
    var t := 0;
    while t < |gs|
      invariant 0 <= t <= |gs| && |scored| == t
      invariant forall u :: 0 <= u < t ==> scored[u] == (gs[u], gs[u].score)
    {
      scored := scored + [(gs[t], gs[t].score)];
      t := t + 1;
    }
  }

  /** Reordering the pairs of grids and their scores reorders the grids. */
  lemma RankedPermutation(gs: seq<Grid>, scored: seq<(Grid, real)>, sorted: seq<(Grid, real)>)
    requires |scored| == |gs| && forall u :: 0 <= u < |gs| ==> scored[u] == (gs[u], gs[u].score)
    requires multiset(sorted) == multiset(scored)
    ensures multiset(MapSeq(GridOf, sorted)) == multiset(gs)
  {
    MapSeqAt(GridOf, scored);
    assert MapSeq(GridOf, scored) == gs;
    MapPermutation(GridOf, scored, sorted);
  }

  /** The grids of the pairs sorted by score come highest score first. */
  lemma RankedOrder(gs: seq<Grid>, scored: seq<(Grid, real)>, sorted: seq<(Grid, real)>)
    requires |scored| == |gs| && forall u :: 0 <= u < |gs| ==> scored[u] == (gs[u], gs[u].score)
    requires multiset(sorted) == multiset(scored) && SortedBy(sorted, HigherGridScore)
    ensures var r := MapSeq(GridOf, sorted);
      forall i, j :: 0 <= i < j < |r| ==> r[i].score >= r[j].score
  {
    var r := MapSeq(GridOf, sorted);
    MapSeqAt(GridOf, sorted);
    forall i | 0 <= i < |sorted| ensures sorted[i].1 == r[i].score {
      assert sorted[i] in multiset(scored);
    }
  }

  /** The final sort of FindSolutions: the same grids, highest score
      first. */
  method SortByScore(gs: seq<Grid>) returns (r: seq<Grid>)
    ensures multiset(r) == multiset(gs)
    ensures forall i, j :: 0 <= i < j < |r| ==> r[i].score >= r[j].score
  {
    var scored := ScoreEach(gs);
    assert StrictOrderOn(scored, HigherGridScore);
    var sorted := Sort(scored, HigherGridScore);
    r := MapSeq(GridOf, sorted);
    RankedPermutation(gs, scored, sorted);
    RankedOrder(gs, scored, sorted);
  }

  /** `newGrid := grid.Copy(); newGrid.PlaceWord(placement)`: a new grid
      holding the grid's cells with an accepted placement made, and the
      same placements and score. */
  method Child(grid: Grid, p: Placement) returns (newGrid: Grid)
    requires Placeable(grid.data, p)
    ensures fresh(newGrid)
    ensures newGrid.data == Place(grid.data, p) && newGrid.words == grid.words && newGrid.score == grid.score
  {
    newGrid := grid.Copy();
    var placed := newGrid.PlaceWord(p);
  }

  /** The empty root grid and the grid holding one word: the root hashes
      to "", and the word's grid hashes to something else exactly when the
      word is not empty. */
  lemma OneWordHashes(root: Grid, cells: Cells, w: string)
    requires root.data == map[] && root.words == []
    requires cells == Place(map[], Placement(w, Point(0, 0), Horiz))
    ensures Key(root) == ""
    ensures HashAfter(cells, [], 1) != "" <==> |w| > 0
  {
    KeyIsHash(root);
    HashNonEmpty(map[], []);
    HashNonEmpty(cells, []);
    assert HashAfter(cells, [], 1) == HashOf(cells, []);
    var p := Placement(w, Point(0, 0), Horiz);
    StampFacts(map[], p, w, |w|);
    if |w| > 0 {
      assert Cell(p, 0) in cells;
    }
  }

  class Solver {
    const words: seq<string>
    const minQualityThreshold: real
    const maxSolutions: int
    var bestGrid: Grid?
    var solutions: seq<Grid>
    const metric: Cells -> real

    /** NewSolver: the words preprocessed, no solutions and no best grid
        yet. */
    constructor (ws: seq<string>, maxSolutions: int, minQualityThreshold: real, metric: Cells -> real)
      ensures |words| == |ws| && forall i :: 0 <= i < |ws| ==> words[i] == PreprocessWord(ws[i])
      ensures this.maxSolutions == maxSolutions && this.minQualityThreshold == minQualityThreshold
      ensures this.metric == metric
      ensures solutions == [] && bestGrid == null
    {
      var processed := PreprocessWords(ws);
      words := processed;
      this.maxSolutions := maxSolutions;
      this.minQualityThreshold := minQualityThreshold;
      this.metric := metric;
      solutions := [];
      bestGrid := null;
    }

    /** The tests a finished grid passes before it is kept: room under the
        cap, a hash not seen before, and (past the first word) a score not
        more than the threshold below the best one. */
    ghost predicate Admitted(cells: Cells, placed: seq<Placement>, index: nat, seen: set<string>,
                             bestScore: real, count: nat)
    {
      && count < maxSolutions
      && HashAfter(cells, placed, 1) !in seen
      && !(index > 0 && bestScore - metric(cells) > minQualityThreshold)
    }

    /** What the search from the empty grid gives for a single word, from
        no earlier solutions and under a cap of at least one: the grid
        holding the word across at (0, 0), alone, unless the word is empty
        (its grid is the empty grid again, whose hash is already seen) or
        that grid's metric is more than the threshold below the starting
        best score 0. */
    ghost predicate OneWord()
      requires |words| == 1
      reads this, solutions
    {
      var cells := Place(map[], Placement(words[0], Point(0, 0), Horiz));
      if |words[0]| == 0 || 0.0 - metric(cells) > minQualityThreshold then solutions == []
      else |solutions| == 1 && solutions[0].data == cells
    }

    /** The solutions after the last word has been placed on a grid,
        giving `cells` with placements `placed`, and the search has gone
        on: that grid appended when it is admitted, and nothing otherwise. */
    ghost predicate LastPlaced(before: seq<Grid>, cells: Cells, placed: seq<Placement>, index: nat,
                               seen: set<string>, bestScore: real)
      reads this, solutions
    {
      if Admitted(cells, placed, index + 1, seen, bestScore, |before|)
      then before <= solutions && |solutions| == |before| + 1 && solutions[|before|].data == cells
      else solutions == before
    }

    /** What the search keeps true of the solutions it has added since
        `base`, and their scores are the metric's values. */
    ghost predicate Kept(base: nat, seen: set<string>)
      reads this, solutions
    {
      KeptOn(solutions, words, base, seen) && AllScored(solutions, base, metric)
    }

    /** The append of a finished grid to Solutions, which records its hash. */
    method Keep(grid: Grid, ghost base: nat, ghost seen: set<string>)
      requires grid !in solutions && Kept(base, seen)
      requires Key(grid) !in seen && Built(grid.data, words) && grid.score == metric(grid.data)
      modifies this`solutions
      ensures solutions == old(solutions) + [grid] && Kept(base, seen + {Key(grid)})
    {
      KeptAppend(solutions, words, base, seen, grid);
      ScoredAppend(solutions, base, metric, grid);
      solutions := solutions + [grid];
    }

    /** The helper closure of FindSolutions, with `seen` and `bestScore`
        passed in and handed back. `base` marks where this search's own
        solutions start. */
    method Search(grid: Grid, index: nat, depth: nat, seen: set<string>, bestScore: real, ghost base: nat)
      returns (seenOut: set<string>, bestOut: real)
      requires index <= |words|
      requires grid !in solutions
      requires Built(grid.data, words[..index])
      requires Kept(base, seen)
      modifies this`solutions, grid`score
      ensures old(solutions) <= solutions
      ensures |solutions| <= Max(|old(solutions)|, maxSolutions)
      ensures seen <= seenOut && Kept(base, seenOut)
      ensures BestOf(solutions, |old(solutions)|, metric, bestScore, bestOut)
      ensures grid.score == if |old(solutions)| >= maxSolutions || Key(grid) in seen
                            then old(grid.score) else metric(grid.data)
      ensures index == |words| ==>
        solutions == (if Admitted(grid.data, grid.words, index, seen, bestScore, |old(solutions)|)
                      then old(solutions) + [grid] else old(solutions))
      ensures index + 1 == |words| && grid.data == map[] ==>
        if Admitted(grid.data, grid.words, index, seen, bestScore, |old(solutions)|)
        then LastPlaced(old(solutions), Place(map[], Placement(words[index], Point(0, 0), Horiz)),
                   grid.words, index,
                   seen + {Key(grid)}, bestScore)
        else solutions == old(solutions)
      decreases |words| - index, 5
    {
      seenOut, bestOut := seen, bestScore;
      BestNone(solutions, metric, bestScore);
      if |solutions| >= maxSolutions {
        return;
      }
      var hash := grid.Hash();
      KeyIsHash(grid);
      if hash in seen {
        return;
      }
      seenOut, bestOut := Assess(grid, hash, index, depth, seen, bestScore, base);
    }

    /** The helper's next step for a grid under the cap with an unseen hash:
        its hash recorded, its score evaluated, and the grid pruned when,
        past the first word, it scores more than the threshold below the
        best; otherwise the search proceeds. */
    method Assess(grid: Grid, hash: string, index: nat, depth: nat, seen: set<string>,
                  bestScore: real, ghost base: nat)
      returns (seenOut: set<string>, bestOut: real)
      requires index <= |words| && |solutions| < maxSolutions
      requires grid !in solutions
      requires Built(grid.data, words[..index])
      requires hash == Key(grid) && hash !in seen && Kept(base, seen)
      modifies this`solutions, grid`score
      ensures old(solutions) <= solutions
      ensures |solutions| <= Max(|old(solutions)|, maxSolutions)
      ensures seen + {hash} <= seenOut && Kept(base, seenOut)
      ensures BestOf(solutions, |old(solutions)|, metric, bestScore, bestOut)
      ensures grid.score == metric(grid.data)
      ensures index == |words| ==>
        solutions == (if index > 0 && bestScore - metric(grid.data) > minQualityThreshold
                      then old(solutions) else old(solutions) + [grid])
      ensures index + 1 == |words| && grid.data == map[] ==>
        if index > 0 && bestScore - metric(grid.data) > minQualityThreshold
        then solutions == old(solutions)
        else LastPlaced(old(solutions), Place(map[], Placement(words[index], Point(0, 0), Horiz)),
                   grid.words, index,
                   seen + {hash}, bestScore)
      decreases |words| - index, 4
    {
      var currentScore := grid.Evaluate(metric);
      if index > 0 && bestScore - currentScore > minQualityThreshold {
        seenOut, bestOut := seen + {hash}, bestScore;
        BestNone(solutions, metric, bestScore);
        return;
      }
      seenOut, bestOut := Proceed(grid, hash, index, depth, seen, bestScore, currentScore, base);
    }

    /** The rest of the helper, for a grid that passed its tests: its hash
        recorded, then either kept as a solution (every word placed) or
        extended by the next word. */
    method Proceed(grid: Grid, hash: string, index: nat, depth: nat, seen: set<string>,
                   bestScore: real, currentScore: real, ghost base: nat)
      returns (seenOut: set<string>, bestOut: real)
      requires index <= |words| && |solutions| < maxSolutions
      requires grid !in solutions
      requires Built(grid.data, words[..index])
      requires hash == Key(grid) && hash !in seen && Kept(base, seen)
      requires currentScore == grid.score == metric(grid.data)
      modifies this`solutions
      ensures old(solutions) <= solutions
      ensures |solutions| <= Max(|old(solutions)|, maxSolutions)
      ensures seen + {hash} <= seenOut && Kept(base, seenOut)
      ensures BestOf(solutions, |old(solutions)|, metric, bestScore, bestOut)
      ensures index == |words| ==> solutions == old(solutions) + [grid]
      ensures index + 1 == |words| && grid.data == map[] ==>
        LastPlaced(old(solutions), Place(map[], Placement(words[index], Point(0, 0), Horiz)),
                   grid.words, index,
                   seen + {hash}, bestScore)
      decreases |words| - index, 3
    {
      seenOut, bestOut := seen + {hash}, bestScore;
      if index >= |words| {
        assert words[..index] == words;
        Keep(grid, base, seen);
        if currentScore > bestOut {
          bestOut := currentScore;
        }
        assert solutions[|old(solutions)|] == grid;
        return;
      }
      KeptGrows(solutions, words, base, seen, seenOut);
      var candidates := grid.PositionsList(words[index]);
      forall p | p in candidates ensures p.word == words[index] && Placeable(grid.data, p) {
        if |grid.data| == 0 {
          EmptyGridAccepts(p);
        }
      }
      seenOut, bestOut := Explore(grid, candidates, index, depth, seenOut, bestOut, base);
    }

    /** What the loop over the placements keeps true after trying the
        first `k` of them, starting from the solutions `start`, the hashes
        `seen0` and the best score `best0`: the earlier solutions kept,
        within the cap, the invariant of the search, the best score
        threaded along, and, when the placements are of the last word, at
        most one solution per placement tried and, after the first, that
        placement's grid appended exactly when it is admitted. */
    ghost predicate Explored(start: seq<Grid>, grid: Grid, candidates: seq<Placement>, k: nat, index: nat,
                             base: nat, seen0: set<string>, best0: real, seen: set<string>, best: real)
      reads this, solutions, grid
    {
      && k <= |candidates|
      && start <= solutions
      && |solutions| <= Max(|start|, maxSolutions)
      && seen0 <= seen && Kept(base, seen)
      && BestOf(solutions, |start|, metric, best0, best)
      && (index + 1 == |words| ==> |solutions| <= |start| + k)
      && (k == 0 ==> seen == seen0 && best == best0 && solutions == start)
      && (index + 1 == |words| && k == 1 ==>
            LastPlaced(start, Place(grid.data, candidates[0]), grid.words, index, seen0, best0))
    }

    /** The loop of the helper over the placements PositionsList offers. */
    method Explore(grid: Grid, candidates: seq<Placement>, index: nat, depth: nat,
                   seen: set<string>, bestScore: real, ghost base: nat)
      returns (seenOut: set<string>, bestOut: real)
      requires index < |words|
      requires Built(grid.data, words[..index])
      requires forall p :: p in candidates ==> p.word == words[index] && Placeable(grid.data, p)
      requires Kept(base, seen)
      modifies this`solutions
      ensures old(solutions) <= solutions
      ensures |solutions| <= Max(|old(solutions)|, maxSolutions)
      ensures seen <= seenOut && Kept(base, seenOut)
      ensures BestOf(solutions, |old(solutions)|, metric, bestScore, bestOut)
      ensures index + 1 == |words| ==> |solutions| <= |old(solutions)| + |candidates|
      ensures index + 1 == |words| && |candidates| == 1 ==>
        LastPlaced(old(solutions), Place(grid.data, candidates[0]), grid.words, index, seen, bestScore)
      decreases |words| - index, 2
    {
      seenOut, bestOut := seen, bestScore;
      BestNone(solutions, metric, bestScore);
      ghost var start := solutions;
      var k := 0;
      while k < |candidates|
        invariant Explored(start, grid, candidates, k, index, base, seen, bestScore, seenOut, bestOut)
      {
        seenOut, bestOut := ExploreStep(grid, candidates, k, index, depth, seenOut, bestOut,
                                        start, seen, bestScore, base);
        k := k + 1;
      }
    }

    /** One turn of that loop: placement k tried, and what the loop keeps
        true carried from k to k + 1. */
    method ExploreStep(grid: Grid, candidates: seq<Placement>, k: nat, index: nat, depth: nat,
                       seen: set<string>, bestScore: real,
                       ghost start: seq<Grid>, ghost seen0: set<string>, ghost best0: real, ghost base: nat)
      returns (seenOut: set<string>, bestOut: real)
      requires index < |words| && k < |candidates|
      requires Built(grid.data, words[..index])
      requires forall p :: p in candidates ==> p.word == words[index] && Placeable(grid.data, p)
      requires Explored(start, grid, candidates, k, index, base, seen0, best0, seen, bestScore)
      modifies this`solutions
      ensures Explored(start, grid, candidates, k + 1, index, base, seen0, best0, seenOut, bestOut)
      decreases |words| - index, 1
    {
      assert candidates[k] in candidates;
      ghost var prev := solutions;
      seenOut, bestOut := Extend(grid, candidates[k], index, depth, seen, bestScore, base);
      BestChain(prev, solutions, |start|, metric, best0, bestScore, bestOut);
    }

    /** One step of that loop: a copy of the grid with the placement made,
        searched from the next word on. */
    method Extend(grid: Grid, p: Placement, index: nat, depth: nat,
                  seen: set<string>, bestScore: real, ghost base: nat)
      returns (seenOut: set<string>, bestOut: real)
      requires index < |words|
      requires Built(grid.data, words[..index])
      requires p.word == words[index] && Placeable(grid.data, p)
      requires Kept(base, seen)
      modifies this`solutions
      ensures old(solutions) <= solutions
      ensures |solutions| <= Max(|old(solutions)|, maxSolutions)
      ensures seen <= seenOut && Kept(base, seenOut)
      ensures BestOf(solutions, |old(solutions)|, metric, bestScore, bestOut)
      ensures index + 1 == |words| ==>
        LastPlaced(old(solutions), Place(grid.data, p), grid.words, index, seen, bestScore)
      decreases |words| - index, 0
    {
      var newGrid := Child(grid, p);
      BuiltStep(grid.data, p, words, index);
      seenOut, bestOut := Search(newGrid, index + 1, depth + 1, seen, bestScore, base);
    }

    /** The search from the empty grid: the earlier solutions kept, no more
        than the cap allows, every new one built from all the words, and
        distinct hashes when there were none before. With no words, the
        empty grid is the one solution. */
    method SearchAll()
      modifies this`solutions
      ensures old(solutions) <= solutions
      ensures |solutions| <= Max(|old(solutions)|, maxSolutions)
      ensures forall i :: |old(solutions)| <= i < |solutions| ==> Built(solutions[i].data, words)
      ensures forall i :: |old(solutions)| <= i < |solutions| ==> solutions[i].score == metric(solutions[i].data)
      ensures old(solutions) == [] ==> DistinctKeys(solutions)
      ensures |words| == 0 && maxSolutions >= 1 && old(solutions) == [] ==>
        |solutions| == 1 && solutions[0].data == map[]
      ensures |words| == 1 && maxSolutions >= 1 && old(solutions) == [] ==> OneWord()
    {
      var root := new Grid();
      assert Built(root.data, words[..0]);
      ghost var before := solutions;
      var seen, best := Search(root, 0, 0, {}, 0.0, |solutions|);
      if |words| == 1 && maxSolutions >= 1 && before == [] {
        OneWordFrom(root);
      }
    }

    /** The search of the root over a single word, seen from outside: the
        root's hash is "", so the word's grid is new exactly when the word
        is not empty. */
    lemma OneWordFrom(root: Grid)
      requires |words| == 1 && maxSolutions >= 1 && root.data == map[] && root.words == []
      requires LastPlaced([], Place(map[], Placement(words[0], Point(0, 0), Horiz)), [], 0, {Key(root)}, 0.0)
      ensures OneWord()
    {
      OneWordHashes(root, Place(map[], Placement(words[0], Point(0, 0), Horiz)), words[0]);
    }

    /** SearchAll followed by the sort by score that FindSolutions and
        FindSolutionsChecked share. */
    method SearchAndSort()
      modifies this`solutions
      ensures OutcomeOn(solutions, old(solutions), words, maxSolutions, metric)
      ensures old(solutions) == [] && |solutions| > 0 ==> Leads(solutions[0], solutions, metric)
      ensures |words| == 0 && maxSolutions >= 1 && old(solutions) == [] ==>
        |solutions| == 1 && solutions[0].data == map[]
      ensures |words| == 1 && maxSolutions >= 1 && old(solutions) == [] ==> OneWord()
    {
      ghost var before := solutions;
      SearchAll();
      var found := solutions;
      var sorted := SortByScore(found);
      solutions := sorted;
      SortedOutcome(before, found, solutions, words, maxSolutions, metric);
      if before == [] && |solutions| > 0 {
        BestFirst(solutions, words, maxSolutions, metric);
      }
    }

    /** FindSolutions as written: after the search and the sort it takes
        Solutions[0] as the best grid, which fails (`panicked`) when no
        solution was found. */
    method FindSolutions() returns (panicked: bool)
      modifies this`solutions, this`bestGrid
      ensures OutcomeOn(solutions, old(solutions), words, maxSolutions, metric)
      ensures panicked <==> |solutions| == 0
      ensures !panicked ==> bestGrid == solutions[0]
      ensures panicked ==> bestGrid == old(bestGrid)
      ensures !panicked && old(solutions) == [] ==> Leads(solutions[0], solutions, metric)
      ensures |words| == 1 && maxSolutions >= 1 && old(solutions) == [] ==> OneWord()
    {
      SearchAndSort();
      panicked := TakeFirst();
    }

    /** FindSolutions with the missing check: the best grid is the first
        solution, or none when there is no solution. */
    method FindSolutionsChecked()
      modifies this`solutions, this`bestGrid
      ensures OutcomeOn(solutions, old(solutions), words, maxSolutions, metric)
      ensures |solutions| == 0 ==> bestGrid == null
      ensures |solutions| > 0 ==> bestGrid == solutions[0]
      ensures old(solutions) == [] && |solutions| > 0 ==> Leads(solutions[0], solutions, metric)
      ensures |words| == 0 && maxSolutions >= 1 && old(solutions) == [] ==>
        |solutions| == 1 && solutions[0].data == map[]
      ensures |words| == 1 && maxSolutions >= 1 && old(solutions) == [] ==> OneWord()
    {
      SearchAndSort();
      PickBest();
    }

    /** `s.BestGrid = s.Solutions[0]`: the first solution becomes the best
        grid, and the index fails (`panicked`), writing nothing, when there
        is none. */
    method TakeFirst() returns (panicked: bool)
      modifies this`bestGrid
      ensures panicked <==> |solutions| == 0
      ensures !panicked ==> bestGrid == solutions[0]
      ensures panicked ==> bestGrid == old(bestGrid)
    {
      panicked := |solutions| == 0;
      if !panicked {
        bestGrid := solutions[0];
      }
    }

    /** The best grid: the first of the sorted solutions, or none when
        there is no solution. Solutions are left as they are. */
    method PickBest()
      modifies this`bestGrid
      ensures bestGrid == if |solutions| == 0 then null else solutions[0]
    {
      bestGrid := if |solutions| == 0 then null else solutions[0];
    }
  }

  /** When two words share no letter, a search that started without
      solutions ends without any. */
  lemma NoSolution(gs: seq<Grid>, ws: seq<string>, cap: int, metric: Cells -> real)
    requires |ws| == 2 && |ws[0]| > 0
    requires NoCommonLetter(ws[0], ws[1])
    requires OutcomeOn(gs, [], ws, cap, metric)
    ensures gs == []
  {
    if gs != [] {
      assert gs[0] in gs && ws == [ws[0], ws[1]];
      Unarrangeable(ws[0], ws[1], gs[0].data);
    }
  }

  /** "CAT" and "DOG" are left as they are by preprocessing and have no
      letter in common. */
  lemma CatDogWords()
    ensures PreprocessWord("CAT") == "CAT" && PreprocessWord("DOG") == "DOG"
    ensures NoCommonLetter("CAT", "DOG")
  {
    PreprocessFixed("CAT");
    PreprocessFixed("DOG");
  }

  /** A search over the preprocessed "CAT" and "DOG" that started without
      solutions ends without any. */
  lemma NoCatDogSolution(gs: seq<Grid>, ws: seq<string>, cap: int, metric: Cells -> real)
    requires |ws| == 2 && ws[0] == PreprocessWord("CAT") && ws[1] == PreprocessWord("DOG")
    requires OutcomeOn(gs, [], ws, cap, metric)
    ensures gs == []
  {
    CatDogWords();
    NoSolution(gs, ws, cap, metric);
  }

  /** "CAT" and "DOG" have no common letter, so no grid holds both and
      FindSolutions fails on them, whatever the metric and cap. */
  method CatDogPanics(metric: Cells -> real, maxSolutions: int) returns (panicked: bool)
    ensures panicked
  {
    var s := new Solver(["CAT", "DOG"], maxSolutions, 0.5, metric);
    panicked := s.FindSolutions();
    NoCatDogSolution(s.solutions, s.words, s.maxSolutions, s.metric);
  }

  /** With the check, the same search ends without a best grid. */
  method CatDogChecked(metric: Cells -> real, maxSolutions: int) returns (best: Grid?)
    ensures best == null
  {
    var s := new Solver(["CAT", "DOG"], maxSolutions, 0.5, metric);
    s.FindSolutionsChecked();
    best := s.bestGrid;
    NoCatDogSolution(s.solutions, s.words, s.maxSolutions, s.metric);
  }

  /** A single word is found: "ALPHA", with a cap of one, a threshold of 0
      and a metric scoring every grid 1, ends with the grid holding ALPHA
      across at (0, 0) as the best grid, and FindSolutions as written does
      not fail on it. */
  method AlphaFound() returns (best: Grid?, panicked: bool)
    ensures best != null && best.data == Place(map[], Placement("ALPHA", Point(0, 0), Horiz))
    ensures !panicked
  {
    PreprocessFixed("ALPHA");
    var s := new Solver(["ALPHA"], 1, 0.0, c => 1.0);
    s.FindSolutionsChecked();
    best := s.bestGrid;
    var t := new Solver(["ALPHA"], 1, 0.0, c => 1.0);
    panicked := t.FindSolutions();
  }
}
