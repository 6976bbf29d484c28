/** Levenshtein edit distance with a case-insensitive substitution cost, as
    used by the fuzzy tiers of the highlighter and the excerpt builder.
    `Table` is the recurrence `levenshteinDistance` fills its matrix with; the method
    `ComputeDistance` is that matrix algorithm, proved to agree with it. */
module Levenshtein {
  import opened Text

  /** Substitution cost: 0 when the characters agree ignoring case. */
  function Cost(x: char, y: char): nat {
    if Lower(x) == Lower(y) then 0 else 1
  }

  function Min3(x: nat, y: nat, z: nat): nat
  {
    if x <= y && x <= z then x else if y <= z then y else z
  }

  /** The edit distance between the prefixes `a[..i]` and `b[..j]`: row 0
      and column 0 count insertions/deletions, every other cell is the
      minimum of a deletion, an insertion and a (case-insensitive) substitution. */
  function Table(a: string, b: string, i: nat, j: nat): nat
    requires i <= |a| && j <= |b|
    decreases i + j
  {
    if i == 0 then j
    else if j == 0 then i
    else Min3(Table(a, b, i - 1, j) + 1,
              Table(a, b, i, j - 1) + 1,
              Table(a, b, i - 1, j - 1) + Cost(a[i - 1], b[j - 1]))
  }

  /** `levenshteinDistance(a, b)`. */
  function Distance(a: string, b: string): nat {
    Table(a, b, |a|, |b|)
  }

  /** One interior cell of the matrix, computed from its three neighbours. */
  lemma TableCell(a: string, b: string, i: nat, j: nat, up: nat, left: nat, diag: nat)
    requires 0 < i <= |a| && 0 < j <= |b|
    requires up == Table(a, b, i - 1, j) && left == Table(a, b, i, j - 1) && diag == Table(a, b, i - 1, j - 1)
    ensures Table(a, b, i, j) == Min3(up + 1, left + 1, diag + if Lower(a[i - 1]) == Lower(b[j - 1]) then 0 else 1)
  {
  }

  /** The dynamic-programming algorithm of `levenshteinDistance` over an (|a|+1) x (|b|+1) matrix. */
  method ComputeDistance(a: string, b: string) returns (d: nat)
    ensures d == Distance(a, b)
  {
    var m := new nat[|a| + 1, |b| + 1];
    var i := 0;
    while i <= |a|
      invariant 0 <= i <= |a| + 1
      invariant forall i', j' {:trigger m[i', j']} :: 0 <= i' < i && 0 <= j' <= |b| ==> m[i', j'] == Table(a, b, i', j')
    {
      var j := 0;
      while j <= |b|
        invariant 0 <= j <= |b| + 1
        invariant forall i', j' {:trigger m[i', j']} :: 0 <= i' < i && 0 <= j' <= |b| ==> m[i', j'] == Table(a, b, i', j')
        invariant forall j' {:trigger m[i, j']} :: 0 <= j' < j ==> m[i, j'] == Table(a, b, i, j')
      {
        if i == 0 {
          m[i, j] := j;
        } else if j == 0 {
          m[i, j] := i;
        } else {
          var cost := if Lower(a[i - 1]) == Lower(b[j - 1]) then 0 else 1;
          TableCell(a, b, i, j, m[i - 1, j], m[i, j - 1], m[i - 1, j - 1]);
          m[i, j] := Min3(m[i - 1, j] + 1, m[i, j - 1] + 1, m[i - 1, j - 1] + cost);
        }
        j := j + 1;
      }
      i := i + 1;
    }
    d := m[|a|, |b|];
  }

  /** One step of the symmetry induction: a cell agrees with its transposed
      cell whenever its three predecessors do. */
  ghost predicate SymmetricCell(a: string, b: string, i: nat, j: nat)
    requires i <= |a| && j <= |b|
  {
    Table(a, b, i, j) == Table(b, a, j, i)
  }

  lemma TableSymmetricStep(a: string, b: string, i: nat, j: nat)
    requires 0 < i <= |a| && 0 < j <= |b|
    ensures SymmetricCell(a, b, i - 1, j) && SymmetricCell(a, b, i, j - 1) && SymmetricCell(a, b, i - 1, j - 1)
         ==> SymmetricCell(a, b, i, j)
  {
    assert Cost(a[i - 1], b[j - 1]) == Cost(b[j - 1], a[i - 1]);
  }

  lemma {:induction false} TableSymmetric(a: string, b: string, i: nat, j: nat)
    requires i <= |a| && j <= |b|
    ensures SymmetricCell(a, b, i, j)
    decreases i + j
  {
    if i == 0 || j == 0 {
    } else {
      TableSymmetric(a, b, i - 1, j);
      TableSymmetric(a, b, i, j - 1);
      TableSymmetric(a, b, i - 1, j - 1);
      TableSymmetricStep(a, b, i, j);
    }
  }

  /** The distance is symmetric. */
  lemma DistanceSymmetric(a: string, b: string)
    ensures Distance(a, b) == Distance(b, a)
  {
    TableSymmetric(a, b, |a|, |b|);
    assert SymmetricCell(a, b, |a|, |b|);
  }

  ghost predicate BoundedCell(a: string, b: string, i: nat, j: nat)
    requires i <= |a| && j <= |b|
  {
    i - j <= Table(a, b, i, j) && j - i <= Table(a, b, i, j) && Table(a, b, i, j) <= Max(i, j)
  }

  lemma TableBoundsStep(a: string, b: string, i: nat, j: nat)
    requires 0 < i <= |a| && 0 < j <= |b|
    ensures BoundedCell(a, b, i - 1, j) && BoundedCell(a, b, i, j - 1) && BoundedCell(a, b, i - 1, j - 1)
         ==> BoundedCell(a, b, i, j)
  {
  }

  lemma {:induction false} TableBounds(a: string, b: string, i: nat, j: nat)
    requires i <= |a| && j <= |b|
    ensures BoundedCell(a, b, i, j)
    decreases i + j
  {
    if i == 0 || j == 0 {
    } else {
      TableBounds(a, b, i - 1, j);
      TableBounds(a, b, i, j - 1);
      TableBounds(a, b, i - 1, j - 1);
      TableBoundsStep(a, b, i, j);
    }
  }

  /** The length difference bounds the distance from below and the longer
      length bounds it from above; in particular the distance from the
      empty string is the other string's length. */
  lemma DistanceBounds(a: string, b: string)
    ensures |a| - |b| <= Distance(a, b) && |b| - |a| <= Distance(a, b)
    ensures Distance(a, b) <= Max(|a|, |b|)
    ensures |a| == 0 ==> Distance(a, b) == |b|
  {
    TableBounds(a, b, |a|, |b|);
  }

  /** The strings agree, ignoring case, on their first `i` characters. */
  ghost predicate AgreeUpTo(a: string, b: string, i: nat)
    requires i <= |a| && i <= |b|
  {
    forall k :: 0 <= k < i ==> Lower(a[k]) == Lower(b[k])
  }

  ghost predicate ZeroCell(a: string, b: string, i: nat)
    requires i <= |a| && i <= |b|
  {
    Table(a, b, i, i) == 0
  }

  lemma TableZeroStep(a: string, b: string, i: nat)
    requires 0 < i <= |a| && i <= |b|
    requires BoundedCell(a, b, i - 1, i) && BoundedCell(a, b, i, i - 1)
    ensures ZeroCell(a, b, i) <==> ZeroCell(a, b, i - 1) && Lower(a[i - 1]) == Lower(b[i - 1])
  {
  }

  lemma {:induction false} TableZeroIff(a: string, b: string, i: nat)
    requires i <= |a| && i <= |b|
    ensures ZeroCell(a, b, i) <==> AgreeUpTo(a, b, i)
  {
    if i > 0 {
      TableZeroIff(a, b, i - 1);
      TableBounds(a, b, i - 1, i);
      TableBounds(a, b, i, i - 1);
      TableZeroStep(a, b, i);
    }
  }

  /** Distance zero means equal ignoring case, and conversely; so d(a, a) = 0. */
  lemma DistanceZeroIff(a: string, b: string)
    ensures Distance(a, b) == 0 <==> LowerStr(a) == LowerStr(b)
  {
    TableBounds(a, b, |a|, |b|);
    if |a| == |b| {
      TableZeroIff(a, b, |a|);
      assert ZeroCell(a, b, |a|) <==> AgreeUpTo(a, b, |a|);
      if LowerStr(a) == LowerStr(b) {
        forall k | 0 <= k < |a| ensures Lower(a[k]) == Lower(b[k]) {
          assert LowerStr(a)[k] == LowerStr(b)[k];
        }
      }
    }
  }

  /** Strings that agree position by position ignoring case. */
  ghost predicate SameIgnoringCase(a: string, a': string) {
    |a| == |a'| && forall p :: 0 <= p < |a| ==> Lower(a'[p]) == Lower(a[p])
  }

  ghost predicate CongruentCell(a: string, b: string, a': string, b': string, i: nat, j: nat)
    requires SameIgnoringCase(a, a') && SameIgnoringCase(b, b')
    requires i <= |a| && j <= |b|
  {
    Table(a, b, i, j) == Table(a', b', i, j)
  }

  lemma TableCongruentStep(a: string, b: string, a': string, b': string, i: nat, j: nat)
    requires SameIgnoringCase(a, a') && SameIgnoringCase(b, b')
    requires 0 < i <= |a| && 0 < j <= |b|
    ensures CongruentCell(a, b, a', b', i - 1, j) && CongruentCell(a, b, a', b', i, j - 1)
         && CongruentCell(a, b, a', b', i - 1, j - 1)
         ==> CongruentCell(a, b, a', b', i, j)
  {
    assert Cost(a[i - 1], b[j - 1]) == Cost(a'[i - 1], b'[j - 1]);
  }

  /** The table only looks at the characters through `Lower`. */
  lemma {:induction false} TableCongruent(a: string, b: string, a': string, b': string, i: nat, j: nat)
    requires SameIgnoringCase(a, a') && SameIgnoringCase(b, b')
    requires i <= |a| && j <= |b|
    ensures CongruentCell(a, b, a', b', i, j)
    decreases i + j
  {
    if i == 0 || j == 0 {
    } else {
      TableCongruent(a, b, a', b', i - 1, j);
      TableCongruent(a, b, a', b', i, j - 1);
      TableCongruent(a, b, a', b', i - 1, j - 1);
      TableCongruentStep(a, b, a', b', i, j);
    }
  }

  /** Characters are compared case-insensitively. */
  lemma DistanceIgnoresCase(a: string, b: string)
    ensures Distance(a, b) == Distance(LowerStr(a), LowerStr(b))
  {
    TableCongruent(a, b, LowerStr(a), LowerStr(b), |a|, |b|);
    assert CongruentCell(a, b, LowerStr(a), LowerStr(b), |a|, |b|);
  }

  /** The number of positions below `i` where the strings differ ignoring case. */
  function Mismatches(a: string, b: string, i: nat): nat
    requires i <= |a| && i <= |b|
  {
    if i == 0 then 0 else Mismatches(a, b, i - 1) + Cost(a[i - 1], b[i - 1])
  }

  lemma {:induction false} TableAtMostMismatches(a: string, b: string, i: nat)
    requires i <= |a| && i <= |b|
    ensures Table(a, b, i, i) <= Mismatches(a, b, i)
  {
    if i > 0 {
      TableAtMostMismatches(a, b, i - 1);
    }
  }

  lemma {:induction false} MismatchesOne(a: string, b: string, i: nat, k: nat)
    requires i <= |a| && i <= |b| && k < i
    requires Lower(a[k]) != Lower(b[k])
    requires forall p :: 0 <= p < i && p != k ==> Lower(a[p]) == Lower(b[p])
    ensures Mismatches(a, b, i) == 1
  {
    if i - 1 > k {
      MismatchesOne(a, b, i - 1, k);
    } else {
      MismatchesNone(a, b, k);
    }
  }

  lemma {:induction false} MismatchesNone(a: string, b: string, i: nat)
    requires i <= |a| && i <= |b|
    requires forall p :: 0 <= p < i ==> Lower(a[p]) == Lower(b[p])
    ensures Mismatches(a, b, i) == 0
  {
    if i > 0 {
      MismatchesNone(a, b, i - 1);
    }
  }

  /** Two equal-length strings that differ (ignoring case) in exactly one
      position are at distance 1. */
  lemma SingleSubstitution(a: string, b: string, k: nat)
    requires |a| == |b| && k < |a|
    requires Lower(a[k]) != Lower(b[k])
    requires forall p :: 0 <= p < |a| && p != k ==> Lower(a[p]) == Lower(b[p])
    ensures Distance(a, b) == 1
  {
    TableAtMostMismatches(a, b, |a|);
    MismatchesOne(a, b, |a|, k);
    TableZeroIff(a, b, |a|);
    assert !AgreeUpTo(a, b, |a|);
  }
}
