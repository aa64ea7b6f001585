/** The few Python list operations the ticket lock relies on, over immutable
    sequences: first-occurrence lookup, `list.remove`, negative subscripts,
    and the subsequence relation used to say that removals keep order. */
module Lists {

  /** Python's `Optional`: a value or `None`. */
  datatype Option<T> = None | Some(value: T)

  /** Position of the first occurrence of `x` in `s`. */
  function IndexOf<T(==)>(s: seq<T>, x: T): (i: nat)
    requires x in s
    ensures i < |s| && s[i] == x
    ensures forall j :: 0 <= j < i ==> s[j] != x
  {
    if s[0] == x then 0 else 1 + IndexOf(s[1..], x)
  }

  /** Python's `list.remove(x)`: deletes the first occurrence of `x`.
      Python raises ValueError when `x` is absent; every call in the lock
      passes an element it has just found in the list, so that branch is
      excluded by the precondition. */
  function RemoveFirst<T(==)>(s: seq<T>, x: T): (r: seq<T>)
    requires x in s
    ensures |r| == |s| - 1
    ensures multiset(r) == multiset(s) - multiset{x}
  {
    var i := IndexOf(s, x);
    assert s == s[..i] + [x] + s[i + 1..];
    s[..i] + s[i + 1..]
  }

  /** `list.remove` keeps the remaining elements in order. */
  lemma RemoveFirstIsSubsequence<T>(s: seq<T>, x: T)
    requires x in s
    ensures IsSubsequence(RemoveFirst(s, x), s)
  {
    DeleteAtIsSubsequence(s, IndexOf(s, x));
  }

  /** `r` is obtained from `s` by deleting zero or more elements. */
  predicate IsSubsequence<T(==)>(r: seq<T>, s: seq<T>)
    decreases |s|
  {
    r == [] ||
    (s != [] && ((r[0] == s[0] && IsSubsequence(r[1..], s[1..])) || IsSubsequence(r, s[1..])))
  }

  /** A subsequence never holds an element more often than the original. */
  lemma {:induction false} SubsequenceMultiset<T>(r: seq<T>, s: seq<T>)
    requires IsSubsequence(r, s)
    ensures multiset(r) <= multiset(s)
    decreases |s|
  {
    if r != [] {
      assert s == [s[0]] + s[1..];
      if r[0] == s[0] && IsSubsequence(r[1..], s[1..]) {
        SubsequenceMultiset(r[1..], s[1..]);
        assert r == [r[0]] + r[1..];
      } else {
        SubsequenceMultiset(r, s[1..]);
      }
    }
  }

  /** Every sequence is a subsequence of itself. */
  lemma {:induction false} SubsequenceReflexive<T>(s: seq<T>)
    ensures IsSubsequence(s, s)
    decreases |s|
  {
    if s != [] {
      SubsequenceReflexive(s[1..]);
    }
  }

  /** Deleting the element at position `i` yields a subsequence. */
  lemma {:induction false} DeleteAtIsSubsequence<T>(s: seq<T>, i: nat)
    requires i < |s|
    ensures IsSubsequence(s[..i] + s[i + 1..], s)
    decreases i
  {
    var r := s[..i] + s[i + 1..];
    if i == 0 {
      assert r == s[1..];
      SubsequenceReflexive(s[1..]);
    } else {
      DeleteAtIsSubsequence(s[1..], i - 1);
      assert r[1..] == s[1..][..i - 1] + s[1..][i..];
    }
  }

  /** The outcome of a Python list subscript `s[idx]`. */
  datatype Subscript<T> = At(value: T) | IndexError

  /** Python's `s[idx]`: a negative `idx` counts from the end; anything
      outside `-|s| <= idx < |s|` raises IndexError. */
  function PySubscript<T>(s: seq<T>, idx: int): (r: Subscript<T>)
    ensures r.At? <==> -|s| <= idx < |s|
    ensures 0 <= idx < |s| ==> r == At(s[idx])
    ensures -|s| <= idx < 0 ==> r == At(s[|s| + idx])
  {
    if 0 <= idx < |s| then At(s[idx])
    else if -|s| <= idx < 0 then At(s[|s| + idx])
    else IndexError
  }

  /** Python's `abs` on integers. */
  function Abs(x: int): (r: nat)
    ensures r == x || r == -x
  {
    if x < 0 then -x else x
  }
}
