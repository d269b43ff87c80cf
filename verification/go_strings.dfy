/** The few functions of Go's `strings` package that the identity formatting
    relies on, specialised to a one-character separator: `Count`, `Index`,
    `Split`, `SplitN` and `Join`. Each scans its text by position, from a
    start position `k` onwards. Go strings are byte strings; the separators
    used here ('.' and '/') are ASCII, so splitting a `seq<char>` at them
    gives the same pieces. */
module GoStrings {

  /** `s` does not contain `c`. */
  predicate Free(s: string, c: char)
  {
    forall k :: 0 <= k < |s| ==> s[k] != c
  }

  /** No `c` at the positions `lo` up to (not including) `hi` of `s`. */
  predicate FreeBetween(s: string, c: char, lo: nat, hi: nat)
    requires hi <= |s|
  {
    forall m :: lo <= m < hi ==> s[m] != c
  }

  /** A slice is free of `c` exactly when its positions in the whole text
      are. */
  lemma FreeSlice(s: string, c: char, lo: nat, hi: nat)
    requires lo <= hi <= |s|
    ensures Free(s[lo..hi], c) <==> FreeBetween(s, c, lo, hi)
  {
    assert forall k :: 0 <= k < hi - lo ==> s[lo..hi][k] == s[lo + k];
  }

  /** A text from position `k` on is what comes before position `i`, the
      character there and what comes after it. */
  lemma Cut(s: string, k: nat, i: nat)
    requires k <= i < |s|
    ensures s[k..] == s[k..i] + [s[i]] + s[i + 1..]
  {
  }

  /** A text is what comes before position `i`, the character there and
      what comes after it. */
  lemma CutAt(s: string, i: nat)
    requires i < |s|
    ensures s == s[..i] + [s[i]] + s[i + 1..]
  {
  }

  // ---------------------------------------------------------------- Count

  /** Number of occurrences of `c` in `s` at or after position `k`. */
  function CountFrom(s: string, c: char, k: nat): nat
    requires k <= |s|
    decreases |s| - k
  {
    if k == |s| then 0
    else (if s[k] == c then 1 else 0) + CountFrom(s, c, k + 1)
  }

  /** Number of occurrences of `c` in `s` (`strings.Count` with a
      one-character separator). */
  function Count(s: string, c: char): nat
  {
    CountFrom(s, c, 0)
  }

  /** Nothing is counted exactly where there is no `c`. */
  lemma {:induction false} CountFromZero(s: string, c: char, k: nat)
    requires k <= |s|
    ensures CountFrom(s, c, k) == 0 <==> FreeBetween(s, c, k, |s|)
    decreases |s| - k
  {
    if k < |s| {
      CountFromZero(s, c, k + 1);
    }
  }

  /** `c` is counted exactly when it occurs. */
  lemma CountZero(s: string, c: char)
    ensures Count(s, c) == 0 <==> Free(s, c)
  {
    CountFromZero(s, c, 0);
  }

  /** Counting in the second part of a concatenation is counting in that
      part. */
  lemma {:induction false} CountFromShift(a: string, b: string, c: char, k: nat)
    requires k <= |b|
    ensures CountFrom(a + b, c, |a| + k) == CountFrom(b, c, k)
    decreases |b| - k
  {
    if k < |b| {
      assert (a + b)[|a| + k] == b[k];
      CountFromShift(a, b, c, k + 1);
    }
  }

  /** Counting from inside the first part of a concatenation counts the
      rest of the first part and all of the second. */
  lemma {:induction false} CountFromConcat(a: string, b: string, c: char, k: nat)
    requires k <= |a|
    ensures CountFrom(a + b, c, k) == CountFrom(a, c, k) + Count(b, c)
    decreases |a| - k
  {
    if k == |a| {
      CountFromShift(a, b, c, 0);
    } else {
      assert (a + b)[k] == a[k];
      CountFromConcat(a, b, c, k + 1);
    }
  }

  /** Occurrences of `c` in a concatenation are the occurrences in each part. */
  lemma CountConcat(a: string, b: string, c: char)
    ensures Count(a + b, c) == Count(a, c) + Count(b, c)
  {
    CountFromConcat(a, b, c, 0);
  }

  /** A stretch without `c` adds nothing to the count. */
  lemma {:induction false} CountFromSkip(s: string, c: char, k: nat, i: nat)
    requires k <= i <= |s| && FreeBetween(s, c, k, i)
    ensures CountFrom(s, c, k) == CountFrom(s, c, i)
    decreases i - k
  {
    if k < i {
      CountFromSkip(s, c, k + 1, i);
    }
  }

  // ---------------------------------------------------------------- Index

  /** Position of the first `c` in `s` at or after position `k`, or -1 when
      there is none. */
  function IndexFrom(s: string, c: char, k: nat): (i: int)
    requires k <= |s|
    ensures i == -1 || (k <= i < |s| && s[i] == c)
    decreases |s| - k
  {
    if k == |s| then -1
    else if s[k] == c then k
    else IndexFrom(s, c, k + 1)
  }

  /** Position of the first `c` in `s`, or -1 when there is none
      (`strings.Index`). */
  function Index(s: string, c: char): (i: int)
    ensures -1 <= i < |s|
    ensures i >= 0 ==> s[i] == c
  {
    IndexFrom(s, c, 0)
  }

  /** `IndexFrom` skips no `c`: none lies between `k` and the position it
      reports, and none at all after `k` when it reports -1. */
  lemma {:induction false} IndexFromFirst(s: string, c: char, k: nat)
    requires k <= |s|
    ensures IndexFrom(s, c, k) == -1 ==> FreeBetween(s, c, k, |s|)
    ensures IndexFrom(s, c, k) >= 0 ==> FreeBetween(s, c, k, IndexFrom(s, c, k))
    decreases |s| - k
  {
    if k < |s| && s[k] != c {
      IndexFromFirst(s, c, k + 1);
    }
  }

  /** `Index` finds the first occurrence: none before it, and none at all
      when it reports -1. */
  lemma IndexFirst(s: string, c: char)
    ensures Index(s, c) == -1 ==> Free(s, c)
    ensures Index(s, c) >= 0 ==> Free(s[..Index(s, c)], c)
  {
    IndexFromFirst(s, c, 0);
    if Index(s, c) >= 0 {
      FreeSlice(s, c, 0, Index(s, c));
    }
  }

  /** `IndexFrom` reports -1 exactly when nothing is counted from `k` on. */
  lemma IndexFromCounted(s: string, c: char, k: nat)
    requires k <= |s|
    ensures IndexFrom(s, c, k) == -1 <==> CountFrom(s, c, k) == 0
  {
    IndexFromFirst(s, c, k);
    CountFromZero(s, c, k);
  }

  /** Counting from `k` finds the occurrence `IndexFrom` reports and then
      counts on after it. */
  lemma CountFromAtIndex(s: string, c: char, k: nat)
    requires k <= |s| && IndexFrom(s, c, k) != -1
    ensures CountFrom(s, c, k) == CountFrom(s, c, IndexFrom(s, c, k) + 1) + 1
  {
    var i := IndexFrom(s, c, k);
    IndexFromFirst(s, c, k);
    CountFromSkip(s, c, k, i);
  }

  // ---------------------------------------------------------------- Split

  /** All the pieces of `s` from position `k` on between occurrences of
      `c`. */
  function SplitFrom(s: string, c: char, k: nat): (parts: seq<string>)
    requires k <= |s|
    ensures |parts| >= 1
    decreases |s| - k
  {
    var i := IndexFrom(s, c, k);
    if i == -1 then [s[k..]]
    else [s[k..i]] + SplitFrom(s, c, i + 1)
  }

  /** `strings.Split` with a one-character separator. */
  function Split(s: string, c: char): seq<string>
  {
    SplitFrom(s, c, 0)
  }

  /** Without a `c` from `k` on there is one piece, the whole remainder. */
  lemma SplitFromNone(s: string, c: char, k: nat)
    requires k <= |s| && IndexFrom(s, c, k) == -1
    ensures SplitFrom(s, c, k) == [s[k..]]
  {
  }

  /** With a `c` at position `i`, the text from `k` up to it is a piece and
      the pieces after it follow. */
  lemma SplitFromCons(s: string, c: char, k: nat)
    requires k <= |s| && IndexFrom(s, c, k) != -1
    ensures SplitFrom(s, c, k)
         == [s[k..IndexFrom(s, c, k)]] + SplitFrom(s, c, IndexFrom(s, c, k) + 1)
  {
  }

  /** With a `c`, the first piece ends before it and the pieces of the text
      after it follow. */
  lemma SplitFromRest(s: string, c: char, k: nat)
    requires k <= |s| && IndexFrom(s, c, k) != -1
    ensures |SplitFrom(s, c, k)| > 1
    ensures SplitFrom(s, c, k)[0] == s[k..IndexFrom(s, c, k)]
    ensures SplitFrom(s, c, k)[1..] == SplitFrom(s, c, IndexFrom(s, c, k) + 1)
  {
    SplitFromCons(s, c, k);
    var i := IndexFrom(s, c, k);
    var tail := SplitFrom(s, c, i + 1);
    assert ([s[k..i]] + tail)[1..] == tail;
  }

  /** `Split` gives a single piece exactly when there is no `c` to cut at. */
  lemma SplitOne(s: string, c: char)
    ensures |Split(s, c)| == 1 <==> Index(s, c) == -1
  {
    if Index(s, c) == -1 {
      SplitFromNone(s, c, 0);
    } else {
      SplitFromRest(s, c, 0);
    }
  }

  /** The pieces from `k` on number one more than the occurrences of `c`
      from `k` on. */
  lemma {:induction false} SplitFromCount(s: string, c: char, k: nat)
    requires k <= |s|
    ensures |SplitFrom(s, c, k)| == CountFrom(s, c, k) + 1
    decreases |s| - k
  {
    var i := IndexFrom(s, c, k);
    IndexFromCounted(s, c, k);
    if i == -1 {
      SplitFromNone(s, c, k);
    } else {
      SplitFromCount(s, c, i + 1);
      SplitFromRest(s, c, k);
      CountFromAtIndex(s, c, k);
    }
  }

  /** The pieces of `Split` number one more than the occurrences of `c`. */
  lemma SplitCount(s: string, c: char)
    ensures |Split(s, c)| == Count(s, c) + 1
  {
    SplitFromCount(s, c, 0);
  }

  /** A free first piece in front of free pieces gives free pieces. */
  lemma PiecesFreeCons(parts: seq<string>, tail: seq<string>, c: char)
    requires |parts| > 0 && parts[1..] == tail && Free(parts[0], c)
    requires forall k :: 0 <= k < |tail| ==> Free(tail[k], c)
    ensures forall k :: 0 <= k < |parts| ==> Free(parts[k], c)
  {
    assert forall k :: 1 <= k < |parts| ==> parts[k] == tail[k - 1];
  }

  /** No piece from `k` on contains the separator. */
  lemma {:induction false} SplitFromPiecesFree(s: string, c: char, k: nat)
    requires k <= |s|
    ensures forall m :: 0 <= m < |SplitFrom(s, c, k)| ==> Free(SplitFrom(s, c, k)[m], c)
    decreases |s| - k
  {
    var i := IndexFrom(s, c, k);
    IndexFromFirst(s, c, k);
    if i == -1 {
      SplitFromNone(s, c, k);
      FreeSlice(s, c, k, |s|);
      assert s[k..|s|] == s[k..];
    } else {
      SplitFromPiecesFree(s, c, i + 1);
      SplitFromRest(s, c, k);
      FreeSlice(s, c, k, i);
      PiecesFreeCons(SplitFrom(s, c, k), SplitFrom(s, c, i + 1), c);
    }
  }

  /** No piece of `Split` contains the separator. */
  lemma SplitPiecesFree(s: string, c: char)
    ensures forall m :: 0 <= m < |Split(s, c)| ==> Free(Split(s, c)[m], c)
  {
    SplitFromPiecesFree(s, c, 0);
  }

  // ---------------------------------------------------------------- SplitN

  /** At most `n` pieces from position `k` on: the first `n - 1` occurrences
      of `c` separate, the last piece is the unsplit remainder. */
  function SplitNFrom(s: string, c: char, n: nat, k: nat): (parts: seq<string>)
    requires n > 0 && k <= |s|
    ensures 1 <= |parts| <= n
    decreases n
  {
    var i := IndexFrom(s, c, k);
    if n == 1 || i == -1 then [s[k..]]
    else [s[k..i]] + SplitNFrom(s, c, n - 1, i + 1)
  }

  /** `strings.SplitN` with a one-character separator, for `n > 0`. */
  function SplitN(s: string, c: char, n: nat): seq<string>
    requires n > 0
  {
    SplitNFrom(s, c, n, 0)
  }

  /** With room for more than one piece and a `c` to cut at, `SplitN` cuts at
      the first `c` and splits the rest into one piece fewer. */
  lemma SplitNFromStep(s: string, c: char, n: nat, k: nat)
    requires n > 1 && k <= |s| && IndexFrom(s, c, k) != -1
    ensures SplitNFrom(s, c, n, k)
         == [s[k..IndexFrom(s, c, k)]] + SplitNFrom(s, c, n - 1, IndexFrom(s, c, k) + 1)
  {
  }

  /** With room for one piece only, `SplitN` does not cut. */
  lemma SplitNFromOne(s: string, c: char, k: nat)
    requires k <= |s|
    ensures SplitNFrom(s, c, 1, k) == [s[k..]]
  {
  }

  /** `SplitN(s, c, 3)` cuts at the first `c` of `s`, at position `i`, and at
      the next `c`, at position `j`. */
  lemma SplitNAt(s: string, c: char, i: nat, j: nat)
    requires i < |s| && i == IndexFrom(s, c, 0)
    requires j == IndexFrom(s, c, i + 1) && j < |s|
    ensures |SplitN(s, c, 3)| == 3
    ensures SplitN(s, c, 3)[0] == s[..i]
    ensures SplitN(s, c, 3)[1] == s[i + 1..j]
    ensures SplitN(s, c, 3)[2] == s[j + 1..]
  {
    SplitNFromOne(s, c, j + 1);
    SplitNFromStep(s, c, 2, i + 1);
    SplitNFromStep(s, c, 3, 0);
  }

  /** With two or more separators, `SplitN(s, c, 3)` cuts at the first two
      and keeps the rest whole. */
  lemma SplitNThree(s: string, c: char)
    requires Count(s, c) >= 2
    ensures Index(s, c) != -1
    ensures IndexFrom(s, c, Index(s, c) + 1) != -1
    ensures |SplitN(s, c, 3)| == 3
    ensures SplitN(s, c, 3)[0] == s[..Index(s, c)]
    ensures SplitN(s, c, 3)[1] == s[Index(s, c) + 1..IndexFrom(s, c, Index(s, c) + 1)]
    ensures SplitN(s, c, 3)[2] == s[IndexFrom(s, c, Index(s, c) + 1) + 1..]
  {
    IndexFromCounted(s, c, 0);
    var i := Index(s, c);
    CountFromAtIndex(s, c, 0);
    IndexFromCounted(s, c, i + 1);
    SplitNAt(s, c, i, IndexFrom(s, c, i + 1));
  }

  /** Cutting at two positions holding `c` loses nothing. */
  lemma CutTwice(s: string, c: char, i: nat, j: nat)
    requires i < j < |s| && s[i] == c && s[j] == c
    ensures s[..i] + [c] + s[i + 1..j] + [c] + s[j + 1..] == s
  {
    CutAt(s, i);
    Cut(s, i + 1, j);
  }

  /** The text is its three `SplitN` pieces with `c` between them, and the
      first two pieces are free of `c`. */
  lemma SplitNThreeRejoin(s: string, c: char)
    requires Count(s, c) >= 2
    ensures |SplitN(s, c, 3)| == 3
    ensures Free(SplitN(s, c, 3)[0], c) && Free(SplitN(s, c, 3)[1], c)
    ensures SplitN(s, c, 3)[0] + [c] + SplitN(s, c, 3)[1] + [c] + SplitN(s, c, 3)[2] == s
  {
    SplitNThree(s, c);
    var i := Index(s, c);
    var j := IndexFrom(s, c, i + 1);
    IndexFromFirst(s, c, 0);
    IndexFromFirst(s, c, i + 1);
    FreeSlice(s, c, 0, i);
    assert s[..i] == s[0..i];
    FreeSlice(s, c, i + 1, j);
    CutTwice(s, c, i, j);
  }

  // ---------------------------------------------------------------- Join

  /** The pieces with `c` between consecutive ones (`strings.Join`). */
  function Join(parts: seq<string>, c: char): string
  {
    if |parts| == 0 then ""
    else if |parts| == 1 then parts[0]
    else parts[0] + [c] + Join(parts[1..], c)
  }

  /** A single piece is joined to itself. */
  lemma JoinOne(p: string, c: char)
    ensures Join([p], c) == p
  {
  }

  /** Joining a piece in front of further pieces puts `c` after it. */
  lemma JoinCons(p: string, tail: seq<string>, c: char)
    requires |tail| > 0
    ensures Join([p] + tail, c) == p + [c] + Join(tail, c)
  {
    assert ([p] + tail)[1..] == tail;
  }

  /** Splitting from `k` at the first `c` and joining again rebuilds the
      text from `k` on once the text after that `c` is rebuilt. */
  lemma JoinSplitFromStep(s: string, c: char, k: nat)
    requires k <= |s| && IndexFrom(s, c, k) != -1
    requires Join(SplitFrom(s, c, IndexFrom(s, c, k) + 1), c) == s[IndexFrom(s, c, k) + 1..]
    ensures Join(SplitFrom(s, c, k), c) == s[k..]
  {
    var i := IndexFrom(s, c, k);
    SplitFromCons(s, c, k);
    JoinCons(s[k..i], SplitFrom(s, c, i + 1), c);
    Cut(s, k, i);
  }

  /** Without a `c` from `k` on, splitting and joining gives the remainder
      back. */
  lemma JoinSplitFromNone(s: string, c: char, k: nat)
    requires k <= |s| && IndexFrom(s, c, k) == -1
    ensures Join(SplitFrom(s, c, k), c) == s[k..]
  {
    SplitFromNone(s, c, k);
    JoinOne(s[k..], c);
  }

  /** Joining the pieces from `k` on rebuilds the text from `k` on. */
  lemma {:induction false} JoinSplitFrom(s: string, c: char, k: nat)
    requires k <= |s|
    ensures Join(SplitFrom(s, c, k), c) == s[k..]
    decreases |s| - k
  {
    var i := IndexFrom(s, c, k);
    if i == -1 {
      JoinSplitFromNone(s, c, k);
    } else {
      JoinSplitFrom(s, c, i + 1);
      JoinSplitFromStep(s, c, k);
    }
  }

  /** `strings.Join` undoes `strings.Split`. */
  lemma JoinSplit(s: string, c: char)
    ensures Join(Split(s, c), c) == s
  {
    JoinSplitFrom(s, c, 0);
    assert s[0..] == s;
  }

  /** With a `c`, the first piece of `Split` is the text before it and
      joining the other pieces gives the text after it. */
  lemma SplitTail(s: string, c: char)
    requires Index(s, c) != -1
    ensures |Split(s, c)| > 1
    ensures Split(s, c)[0] == s[..Index(s, c)]
    ensures Join(Split(s, c)[1..], c) == s[Index(s, c) + 1..]
  {
    SplitFromRest(s, c, 0);
    JoinSplitFrom(s, c, Index(s, c) + 1);
    assert s[0..Index(s, c)] == s[..Index(s, c)];
  }
}
