/** The fuzzy tier of `highlightWords`: every window of at least two
    characters of a word is compared with the query by edit distance, in
    the order start = 0, 1, ... and, for each start, length = 2, 3, ...;
    a window replaces the best one so far when it is strictly closer, or
    equally close and strictly longer. The result is the closest window,
    the longest among the closest, and the earliest among those. */
module FuzzyWindow {
  import opened Optional
  import opened Levenshtein

  datatype Best = Best(dist: nat, start: nat, len: nat)

  /** A window of at least two characters of a word of length `n`. */
  predicate IsWindow(n: nat, s: nat, l: nat) {
    2 <= l && s + l <= n
  }

  function WindowDist(w: string, q: string, s: nat, l: nat): nat
    requires s + l <= |w|
  {
    Distance(w[s..s + l], q)
  }

  /** Window (s', l') is enumerated before position (s, l). */
  predicate Before(s': nat, l': nat, s: nat, l: nat) {
    s' < s || (s' == s && l' < l)
  }

  /** Window (d, l, s) is at least as good as (d', l', s'): closer, or as
      close and longer, or as close, as long and no later. */
  predicate NoWorse(d: nat, l: nat, s: nat, d': nat, l': nat, s': nat) {
    d < d' || (d == d' && (l > l' || (l == l' && s <= s')))
  }

  /** The update test of the loop in `highlightWords`. */
  predicate Replaces(d: nat, l: nat, acc: Option<Best>) {
    acc.None? || d < acc.value.dist || (d == acc.value.dist && l > acc.value.len)
  }

  /** The enumeration from position (s, l) on, with best-so-far `acc`. */
  function Scan(w: string, q: string, s: nat, l: nat, acc: Option<Best>): Option<Best>
    decreases |w| - s, |w| + 2 - l
  {
    if s >= |w| then acc
    else if l > |w| - s then Scan(w, q, s + 1, 2, acc)
    else
      var d := WindowDist(w, q, s, l);
      Scan(w, q, s, l + 1, if Replaces(d, l, acc) then Some(Best(d, s, l)) else acc)
  }


  /** `b` is the best window of `w`: a window, with its true distance, at
      least as good as every window of `w`. */
  ghost predicate Optimal(w: string, q: string, b: Best) {
    && IsWindow(|w|, b.start, b.len)
    && b.dist == WindowDist(w, q, b.start, b.len)
    && forall s', l' :: IsWindow(|w|, s', l') ==> NoWorse(b.dist, b.len, b.start, WindowDist(w, q, s', l'), l', s')
  }

  /** `acc` is the best of the windows enumerated before (s, l). */
  ghost predicate BestSoFar(w: string, q: string, s: nat, l: nat, acc: Option<Best>) {
    && (acc.None? ==> forall s', l' :: IsWindow(|w|, s', l') ==> !Before(s', l', s, l))
    && (acc.Some? ==>
         var b := acc.value;
         && IsWindow(|w|, b.start, b.len) && Before(b.start, b.len, s, l)
         && b.dist == WindowDist(w, q, b.start, b.len)
         && forall s', l' :: IsWindow(|w|, s', l') && Before(s', l', s, l) ==>
              NoWorse(b.dist, b.len, b.start, WindowDist(w, q, s', l'), l', s'))
  }

  /** Skipping to the next start loses no window. */
  lemma NextStart(w: string, q: string, s: nat, l: nat, acc: Option<Best>)
    requires s < |w| && l > |w| - s
    requires BestSoFar(w, q, s, l, acc)
    ensures BestSoFar(w, q, s + 1, 2, acc)
  {
  }

  /** Comparing the window at (s, l) keeps the best-so-far property. */
  lemma Step(w: string, q: string, s: nat, l: nat, acc: Option<Best>)
    requires 2 <= l && s + l <= |w|
    requires BestSoFar(w, q, s, l, acc)
    ensures var d := WindowDist(w, q, s, l);
      BestSoFar(w, q, s, l + 1, if Replaces(d, l, acc) then Some(Best(d, s, l)) else acc)
  {
  }

  /** Once past the last start, the first window has been enumerated. */
  lemma EndOfScan(w: string, s: nat, l: nat)
    requires s >= |w|
    ensures |w| >= 2 ==> IsWindow(|w|, 0, 2) && Before(0, 2, s, l)
  {
  }

  lemma {:induction false} ScanOptimal(w: string, q: string, s: nat, l: nat, acc: Option<Best>)
    requires 2 <= l
    requires BestSoFar(w, q, s, l, acc)
    ensures Scan(w, q, s, l, acc).None? ==> acc.None? && |w| < 2
    ensures Scan(w, q, s, l, acc).Some? ==> Optimal(w, q, Scan(w, q, s, l, acc).value)
    decreases |w| - s, |w| + 2 - l
  {
    if s >= |w| {
      EndOfScan(w, s, l);
    } else if l > |w| - s {
      NextStart(w, q, s, l, acc);
      ScanOptimal(w, q, s + 1, 2, acc);
    } else {
      Step(w, q, s, l, acc);
      var d := WindowDist(w, q, s, l);
      ScanOptimal(w, q, s, l + 1, if Replaces(d, l, acc) then Some(Best(d, s, l)) else acc);
    }
  }

  /** The window the fuzzy tier settles on; `None` when the word has no
      window of two characters (the script's `bestStart === -1`). The
      enumeration finds the optimal window. */
  function BestWindow(w: string, q: string): (r: Option<Best>)
    ensures r.None? <==> |w| < 2
    ensures r.Some? ==> Optimal(w, q, r.value)
  {
    ScanOptimal(w, q, 0, 2, None);
    Scan(w, q, 0, 2, None)
  }

  /** There is only one optimal window, so `Optimal` defines it. */
  lemma OptimalUnique(w: string, q: string, b: Best, b': Best)
    requires Optimal(w, q, b) && Optimal(w, q, b')
    ensures b == b'
  {
    assert NoWorse(b.dist, b.len, b.start, b'.dist, b'.len, b'.start);
    assert NoWorse(b'.dist, b'.len, b'.start, b.dist, b.len, b.start);
  }

  /** Some window lies within distance `maxDistance` exactly when the best one does. */
  lemma BestWithin(w: string, q: string, maxDistance: int)
    requires |w| >= 2
    ensures BestWindow(w, q).Some?
    ensures BestWindow(w, q).value.dist <= maxDistance
        <==> exists s, l :: IsWindow(|w|, s, l) && WindowDist(w, q, s, l) <= maxDistance
  {
    var b := BestWindow(w, q).value;
    assert IsWindow(|w|, b.start, b.len);
  }
}
