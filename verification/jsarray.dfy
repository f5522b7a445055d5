/** The two JavaScript array operations whose edge cases the game relies on:
    `findIndex` answering -1 for a missing element, and `splice` reading a
    negative start as counted from the end. */
module JsArray {

  /** `s.findIndex(e => e === x)`: the first index holding x, or -1 when there is none. */
  function FindIndex<T(==)>(s: seq<T>, x: T): (r: int)
    ensures -1 <= r < |s|
    ensures r == -1 <==> x !in s
    ensures r >= 0 ==> s[r] == x && forall i :: 0 <= i < r ==> s[i] != x
  {
    FindIndexFrom(s, x, 0)
  }

  /** The scan of `findIndex` from position k on. */
  function FindIndexFrom<T(==)>(s: seq<T>, x: T, k: nat): (r: int)
    requires k <= |s|
    ensures r == -1 || k <= r < |s|
    ensures r == -1 ==> forall i :: k <= i < |s| ==> s[i] != x
    ensures r >= 0 ==> s[r] == x && forall i :: k <= i < r ==> s[i] != x
    decreases |s| - k
  {
    if k == |s| then -1
    else if s[k] == x then k
    else FindIndexFrom(s, x, k + 1)
  }

  /** The position `splice(start, ...)` starts at: a negative start counts back from
      the end and stops at 0, a start past the end is the end. */
  function SpliceStart(len: nat, start: int): (k: nat)
    ensures k <= len
    ensures 0 <= start <= len ==> k == start
    ensures start < 0 && 0 <= start + len ==> k == start + len
    ensures start + len < 0 ==> k == 0
    ensures start > len ==> k == len
  {
    if start < 0 then (if len + start < 0 then 0 else len + start)
    else if start > len then len
    else start
  }

  /** The array left behind by `s.splice(start, 1)`: the element at the position the
      start denotes goes, and the elements after it move down by one. */
  function SpliceOne<T>(s: seq<T>, start: int): (r: seq<T>)
    ensures |r| == if start < |s| && s != [] then |s| - 1 else |s|
    ensures forall i :: 0 <= i < |r| ==> r[i] == if i < SpliceStart(|s|, start) then s[i] else s[i + 1]
  {
    var k := SpliceStart(|s|, start);
    if k < |s| then seq(|s| - 1, i requires 0 <= i < |s| - 1 => if i < k then s[i] else s[i + 1]) else s
  }

  /** The same array in slices: a start from 0 below the length removes that element,
      -1 removes the last one, and a start at or past the end leaves the array as it is. */
  lemma SpliceOneCases<T>(s: seq<T>, start: int)
    ensures 0 <= start < |s| ==> SpliceOne(s, start) == s[..start] + s[start + 1..]
    ensures start == -1 && s != [] ==> SpliceOne(s, start) == s[..|s| - 1]
    ensures start >= |s| || s == [] ==> SpliceOne(s, start) == s
  {
    if 0 <= start < |s| {
      SpliceOneAt(s, start);
    } else if start == -1 && s != [] {
      SpliceOneAt(s, |s| - 1);
    }
  }

  /** Removing the element at position k keeps the slices on both sides of it. */
  lemma SpliceOneAt<T>(s: seq<T>, k: int)
    requires 0 <= k < |s|
    ensures SpliceOne(s, k) == s[..k] + s[k + 1..]
    ensures SpliceOne(s, k - |s|) == SpliceOne(s, k)
  {
    var r := SpliceOne(s, k);
    var t := s[..k] + s[k + 1..];
    forall i | 0 <= i < |r|
      ensures r[i] == t[i]
    {
    }
  }

  /** Removing the element at a position inside the array takes exactly one copy of it
      out of the array's multiset. */
  lemma SpliceOneRemovesOne<T>(s: seq<T>, k: int)
    requires 0 <= k < |s|
    ensures multiset(SpliceOne(s, k)) == multiset(s) - multiset{s[k]}
  {
    SpliceOneAt(s, k);
    assert s[k..] == [s[k]] + s[k + 1..];
    assert s == s[..k] + s[k..];
  }

  /** A start further back than the length of the array is read as 0, so the first
      element goes. */
  lemma SpliceFarBackDropsFirst<T>(s: seq<T>, start: int)
    requires start < -|s| && s != []
    ensures SpliceOne(s, start) == s[1..]
  {
  }
}
