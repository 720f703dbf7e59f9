/**
 * The two Kotlin standard-library operations the archive code leans on:
 * `CharSequence.chunked(size)` (split a text into consecutive pieces of `size` code units;
 * stated here for any sequence, and used on Kotlin strings) and `Iterable.sortedBy(key)`
 * (a stable sort by an integer key).
 */
module KotlinCollections {

  /** Concatenation of a list of texts (the inverse of chunking). */
  function Concat<T>(pieces: seq<seq<T>>): seq<T>
    decreases |pieces|
  {
    if pieces == [] then [] else pieces[0] + Concat(pieces[1..])
  }

  /**
   * `chunked(size)`: consecutive pieces of exactly `size` characters, the last one possibly
   * shorter; the empty text has no pieces.
   */
  function Chunked<T>(s: seq<T>, size: nat): seq<seq<T>>
    requires 0 < size
    decreases |s|
  {
    if s == [] then []
    else if |s| <= size then [s]
    else [s[..size]] + Chunked(s[size..], size)
  }

  /** Concatenating the pieces gives back the text. */
  lemma {:induction false} ChunkedConcat<T>(s: seq<T>, size: nat)
    requires 0 < size
    ensures Concat(Chunked(s, size)) == s
    decreases |s|
  {
    if |s| > size {
      ChunkedConcat(s[size..], size);
      assert s == s[..size] + s[size..];
    }
  }

  /** Every piece is non-empty and at most `size` long; all but the last are exactly `size`. */
  lemma {:induction false} ChunkedSizes<T>(s: seq<T>, size: nat)
    requires 0 < size
    ensures forall i :: 0 <= i < |Chunked(s, size)| ==> 0 < |Chunked(s, size)[i]| <= size
    ensures forall i :: 0 <= i < |Chunked(s, size)| - 1 ==> |Chunked(s, size)[i]| == size
    decreases |s|
  {
    if |s| > size {
      ChunkedSizes(s[size..], size);
      var rest := Chunked(s[size..], size);
      var r := [s[..size]] + rest;
      assert Chunked(s, size) == r;
      assert |r[0]| == size;
      assert forall i :: 1 <= i < |r| ==> r[i] == rest[i - 1];
    }
  }

  /** A non-empty text of n characters gives k pieces with (k - 1) * size < n <= k * size. */
  lemma {:induction false} ChunkedCountBounds<T>(s: seq<T>, size: nat)
    requires 0 < size
    ensures var k := |Chunked(s, size)|;
      (s == [] ==> k == 0) && (s != [] ==> (k - 1) * size < |s| <= k * size)
    decreases |s|
  {
    if |s| > size {
      ChunkedCountBounds(s[size..], size);
      var k' := |Chunked(s[size..], size)|;
      assert |Chunked(s, size)| == k' + 1;
      assert (k' + 1) * size == k' * size + size;
    }
  }

  lemma MultiplyMonotone(x: int, y: int, b: int)
    requires x <= y && 0 <= b
    ensures x * b <= y * b
  {
    assert (y - x) * b >= 0;
    assert y * b - x * b == (y - x) * b;
  }

  lemma DivisionIsUnique(a: int, b: int, q: int)
    requires 0 < b && q * b <= a < (q + 1) * b
    ensures a / b == q
  {
    var d := a / b;
    assert a == d * b + a % b && 0 <= a % b < b;
    if d > q {
      MultiplyMonotone(q + 1, d, b);
    } else if d < q {
      MultiplyMonotone(d + 1, q, b);
    }
  }

  /** The number of pieces is the length divided by `size`, rounded up. */
  lemma ChunkedCount<T>(s: seq<T>, size: nat)
    requires 0 < size
    ensures |Chunked(s, size)| == (|s| + size - 1) / size
  {
    ChunkedCountBounds(s, size);
    var k := |Chunked(s, size)|;
    if s == [] {
      DivisionIsUnique(size - 1, size, 0);
    } else {
      assert (k + 1) * size == k * size + size;
      DivisionIsUnique(|s| + size - 1, size, k);
    }
  }

  /** A text of exactly `size` characters is one piece: itself. */
  lemma ChunkedWhole<T>(s: seq<T>, size: nat)
    requires 0 < size && 0 < |s| <= size
    ensures Chunked(s, size) == [s]
  {
  }

  predicate SortedBy<T>(s: seq<T>, key: T -> int) {
    forall i, j :: 0 <= i < j < |s| ==> key(s[i]) <= key(s[j])
  }

  /** Insert x into a sorted list before the first element whose key is not smaller. */
  function InsertBy<T>(x: T, s: seq<T>, key: T -> int): seq<T>
    decreases |s|
  {
    if s == [] || key(x) <= key(s[0]) then [x] + s
    else [s[0]] + InsertBy(x, s[1..], key)
  }

  /** `sortedBy(key)`: a stable insertion sort. */
  function SortBy<T>(s: seq<T>, key: T -> int): seq<T>
    decreases |s|
  {
    if s == [] then [] else InsertBy(s[0], SortBy(s[1..], key), key)
  }

  /** Inserting adds exactly one occurrence of x. */
  lemma {:induction false} InsertByElements<T>(x: T, s: seq<T>, key: T -> int)
    ensures multiset(InsertBy(x, s, key)) == multiset(s) + multiset{x}
    decreases |s|
  {
    if s != [] && key(x) > key(s[0]) {
      InsertByElements(x, s[1..], key);
      assert s == [s[0]] + s[1..];
    }
  }

  /** Every key in the result of InsertBy is at least a bound that x and all of s respect. */
  lemma {:induction false} InsertByLowerBound<T>(x: T, s: seq<T>, key: T -> int, bound: int)
    requires bound <= key(x)
    requires forall i :: 0 <= i < |s| ==> bound <= key(s[i])
    ensures forall i :: 0 <= i < |InsertBy(x, s, key)| ==> bound <= key(InsertBy(x, s, key)[i])
    decreases |s|
  {
    if s != [] && key(x) > key(s[0]) {
      InsertByLowerBound(x, s[1..], key, bound);
      var tail := InsertBy(x, s[1..], key);
      assert forall i :: 1 <= i < |tail| + 1 ==> ([s[0]] + tail)[i] == tail[i - 1];
    }
  }

  lemma {:induction false} InsertBySorted<T>(x: T, s: seq<T>, key: T -> int)
    requires SortedBy(s, key)
    ensures SortedBy(InsertBy(x, s, key), key)
    decreases |s|
  {
    if s != [] && key(x) > key(s[0]) {
      var tail := InsertBy(x, s[1..], key);
      assert SortedBy(s[1..], key);
      InsertBySorted(x, s[1..], key);
      InsertByLowerBound(x, s[1..], key, key(s[0]));
      var r := [s[0]] + tail;
      forall i, j | 0 <= i < j < |r| ensures key(r[i]) <= key(r[j]) {
        assert r[j] == tail[j - 1];
        if i > 0 {
          assert r[i] == tail[i - 1];
        }
      }
    }
  }

  /** The sorted list is ordered by the key ... */
  lemma {:induction false} SortBySorted<T>(s: seq<T>, key: T -> int)
    ensures SortedBy(SortBy(s, key), key)
    ensures multiset(SortBy(s, key)) == multiset(s)
    decreases |s|
  {
    if s != [] {
      SortBySorted(s[1..], key);
      InsertBySorted(s[0], SortBy(s[1..], key), key);
      InsertByElements(s[0], SortBy(s[1..], key), key);
      assert s == [s[0]] + s[1..];
    }
  }

  /** ... and sorting a list that is already in order leaves it as it is. */
  lemma {:induction false} SortByOfSorted<T>(s: seq<T>, key: T -> int)
    requires SortedBy(s, key)
    ensures SortBy(s, key) == s
    decreases |s|
  {
    if s != [] {
      var tail := s[1..];
      assert SortedBy(tail, key) by {
        forall i, j | 0 <= i < j < |tail| ensures key(tail[i]) <= key(tail[j]) {
          assert tail[i] == s[i + 1] && tail[j] == s[j + 1];
        }
      }
      SortByOfSorted(tail, key);
      assert SortBy(s, key) == InsertBy(s[0], tail, key);
      InsertAtFront(s[0], tail, key);
      assert s == [s[0]] + tail;
    }
  }

  /** An element whose key is not above the first key of the list goes in front. */
  lemma InsertAtFront<T>(x: T, s: seq<T>, key: T -> int)
    requires s == [] || key(x) <= key(s[0])
    ensures InsertBy(x, s, key) == [x] + s
  {
  }
}
