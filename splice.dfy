/** The two uses of JavaScript's Array.prototype.splice that the drag handler
    makes: `splice(i, 1)` removes one element, `splice(j, 0, x)` inserts one.
    Both are stated for in-range indices only. */
module Splice {

  /** `s.splice(i, 1)`: the sequence without its element at index `i`. */
  function RemoveAt<T>(s: seq<T>, i: nat): (r: seq<T>)
    requires i < |s|
    ensures |r| == |s| - 1
  {
    s[..i] + s[i + 1..]
  }

  /** `s.splice(j, 0, x)`: the sequence with `x` inserted so that it lands at index `j`. */
  function InsertAt<T>(s: seq<T>, j: nat, x: T): (r: seq<T>)
    requires j <= |s|
    ensures |r| == |s| + 1
  {
    s[..j] + [x] + s[j..]
  }

  /** The elements before index `i` stay where they are, those after it move
      down by one, and exactly one occurrence of `s[i]` is gone. */
  lemma RemoveAtElements<T>(s: seq<T>, i: nat)
    requires i < |s|
    ensures forall k | 0 <= k < i :: RemoveAt(s, i)[k] == s[k]
    ensures forall k | i <= k < |s| - 1 :: RemoveAt(s, i)[k] == s[k + 1]
    ensures multiset(RemoveAt(s, i)) + multiset{s[i]} == multiset(s)
  {
    assert s == s[..i] + [s[i]] + s[i + 1..];
  }

  /** `x` sits at index `j`, the elements before it stay where they are, those
      after it move up by one, and one occurrence of `x` is added. */
  lemma InsertAtElements<T>(s: seq<T>, j: nat, x: T)
    requires j <= |s|
    ensures InsertAt(s, j, x)[j] == x
    ensures forall k | 0 <= k < j :: InsertAt(s, j, x)[k] == s[k]
    ensures forall k | j < k <= |s| :: InsertAt(s, j, x)[k] == s[k - 1]
    ensures multiset(InsertAt(s, j, x)) == multiset(s) + multiset{x}
  {
    assert s == s[..j] + s[j..];
  }

  /** Removing what was just inserted gives back the original sequence. */
  lemma RemoveAfterInsert<T>(s: seq<T>, j: nat, x: T)
    requires j <= |s|
    ensures RemoveAt(InsertAt(s, j, x), j) == s
  {
    var t := InsertAt(s, j, x);
    InsertAtElements(s, j, x);
    RemoveAtElements(t, j);
    var r := RemoveAt(t, j);
    assert |r| == |s|;
    forall k | 0 <= k < |s| ensures r[k] == s[k] {
    }
  }

  /** Putting a removed element back where it was gives back the original sequence. */
  lemma InsertAfterRemove<T>(s: seq<T>, i: nat)
    requires i < |s|
    ensures InsertAt(RemoveAt(s, i), i, s[i]) == s
  {
    var t := RemoveAt(s, i);
    RemoveAtElements(s, i);
    InsertAtElements(t, i, s[i]);
    var r := InsertAt(t, i, s[i]);
    assert |r| == |s|;
    forall k | 0 <= k < |s| ensures r[k] == s[k] {
    }
  }
}
