/** Column letters and numbers, and the order in which the report script
    deletes columns: letters become 1-based numbers and are sorted from the
    highest down (`sort((a, b) => b - a)`). */
module Columns {
  import opened Text

  /** `letter.charCodeAt(0) - 'A'.charCodeAt(0) + 1`: the column number of a
      letter, `A` being 1. */
  function LetterIndex(letter: char): int
  {
    (letter as int) - ('A' as int) + 1
  }

  /** The letter of column `col` for the first 26 columns. */
  function ColumnLetter(col: int): (letter: char)
    requires 1 <= col <= 26
    ensures 'A' <= letter <= 'Z'
  {
    (('A' as int) + col - 1) as char
  }

  /** Letters and column numbers translate into one another. */
  lemma LetterIndexOfColumnLetter(col: int)
    requires 1 <= col <= 26
    ensures LetterIndex(ColumnLetter(col)) == col
  {
  }

  /** `columnLetters.map(...)`: the column number of each letter. Each
      letter `A..Z` becomes the number of the column it names, and distinct
      letters give distinct numbers. */
  function ColumnIndices(letters: seq<char>): (cs: seq<int>)
    ensures |cs| == |letters|
    ensures forall i | 0 <= i < |letters| && 'A' <= letters[i] <= 'Z' ::
      1 <= cs[i] <= 26 && ColumnLetter(cs[i]) == letters[i]
    ensures NoDuplicates(letters) ==> NoDuplicates(cs)
  {
    seq(|letters|, i requires 0 <= i < |letters| => LetterIndex(letters[i]))
  }

  /** Distinct letters name distinct columns. */
  lemma ColumnIndicesDistinct(letters: seq<char>)
    requires NoDuplicates(letters)
    ensures NoDuplicates(ColumnIndices(letters))
  {
  }

  /** Each element is at least as large as every element after it. */
  predicate NonIncreasing(xs: seq<int>)
  {
    forall i, j | 0 <= i < j < |xs| :: xs[i] >= xs[j]
  }

  /** `x` placed into the descending sequence `xs` before the first element
      it is not smaller than. */
  function InsertDescending(x: int, xs: seq<int>): (r: seq<int>)
    ensures multiset(r) == multiset(xs) + multiset{x}
    ensures |r| == |xs| + 1
    ensures r[0] == x || (xs != [] && r[0] == xs[0])
  {
    if xs == [] || x >= xs[0] then [x] + xs
    else
      assert xs == [xs[0]] + xs[1..];
      [xs[0]] + InsertDescending(x, xs[1..])
  }

  /** Inserting into a descending sequence keeps it descending. */
  lemma {:induction false} InsertDescendingSorted(x: int, xs: seq<int>)
    requires NonIncreasing(xs)
    ensures NonIncreasing(InsertDescending(x, xs))
  {
    var r := InsertDescending(x, xs);
    if xs == [] || x >= xs[0] {
      forall i, j | 0 <= i < j < |r| ensures r[i] >= r[j] {
        assert r[j] == xs[j - 1];
        if i > 0 {
          assert r[i] == xs[i - 1];
        }
      }
    } else {
      var rest := InsertDescending(x, xs[1..]);
      InsertDescendingSorted(x, xs[1..]);
      InsertDescendingBound(x, xs[1..], xs[0]);
      assert r == [xs[0]] + rest;
      forall i, j | 0 <= i < j < |r| ensures r[i] >= r[j] {
        assert r[j] == rest[j - 1];
        if i > 0 {
          assert r[i] == rest[i - 1];
        }
      }
    }
  }

  /** Inserting a value no larger than `b` among values no larger than `b`
      gives values no larger than `b`. */
  lemma {:induction false} InsertDescendingBound(x: int, xs: seq<int>, b: int)
    requires x <= b && forall i | 0 <= i < |xs| :: xs[i] <= b
    ensures forall i | 0 <= i < |InsertDescending(x, xs)| :: InsertDescending(x, xs)[i] <= b
  {
    var r := InsertDescending(x, xs);
    if xs == [] || x >= xs[0] {
      forall i | 0 <= i < |r| ensures r[i] <= b {
        if i > 0 {
          assert r[i] == xs[i - 1];
        }
      }
    } else {
      var rest := InsertDescending(x, xs[1..]);
      InsertDescendingBound(x, xs[1..], b);
      assert r == [xs[0]] + rest;
      forall i | 0 <= i < |r| ensures r[i] <= b {
        if i > 0 {
          assert r[i] == rest[i - 1];
        }
      }
    }
  }

  /** `xs.sort((a, b) => b - a)`: the numbers of `xs` from the highest down. */
  function SortDescending(xs: seq<int>): (r: seq<int>)
    ensures multiset(r) == multiset(xs)
    ensures NonIncreasing(r)
  {
    if xs == [] then []
    else
      assert xs == [xs[0]] + xs[1..];
      var rest := SortDescending(xs[1..]);
      InsertDescendingSorted(xs[0], rest);
      InsertDescending(xs[0], rest)
  }

  /** A sequence without repeats has each value once in its multiset. */
  lemma {:induction false} NoDuplicatesCount(xs: seq<int>, v: int)
    requires NoDuplicates(xs)
    ensures multiset(xs)[v] <= 1
  {
    if xs != [] {
      assert xs == [xs[0]] + xs[1..];
      NoDuplicatesCount(xs[1..], v);
      if xs[0] == v {
        assert v !in xs[1..];
      }
    }
  }

  /** A value at two positions occurs at least twice. */
  lemma RepeatCount(xs: seq<int>, i: int, j: int)
    requires 0 <= i < j < |xs| && xs[i] == xs[j]
    ensures multiset(xs)[xs[i]] >= 2
  {
    assert xs == xs[..i] + [xs[i]] + xs[i + 1..j] + [xs[j]] + xs[j + 1..];
  }

  /** Sorting distinct numbers from the highest down gives a strictly
      decreasing sequence of the same numbers. */
  lemma SortDistinctStrict(xs: seq<int>)
    requires NoDuplicates(xs)
    ensures forall i, j | 0 <= i < j < |SortDescending(xs)| ::
      SortDescending(xs)[i] > SortDescending(xs)[j]
    ensures forall x :: x in SortDescending(xs) <==> x in xs
  {
    var r := SortDescending(xs);
    forall i, j | 0 <= i < j < |r| ensures r[i] > r[j] {
      if r[i] == r[j] {
        RepeatCount(r, i, j);
        NoDuplicatesCount(xs, r[i]);
        assert false;
      }
    }
    forall x ensures x in r <==> x in xs {
      assert x in r <==> x in multiset(r);
      assert x in xs <==> x in multiset(xs);
    }
  }

  /** Sorting a sequence that is already in descending order leaves it as it is. */
  lemma {:induction false} SortDescendingSorted(xs: seq<int>)
    requires NonIncreasing(xs)
    ensures SortDescending(xs) == xs
  {
    if xs != [] {
      SortDescendingSorted(xs[1..]);
      assert xs == [xs[0]] + xs[1..];
    }
  }
}
