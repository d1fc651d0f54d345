/** Facts about sequences that the loops over `imgSizes` and `imagePositions` need. */
module Sequences {

  /** JavaScript's `a[i] = x` on an array with no holes: overwrite an element, or append at the end. */
  function Assign<T>(s: seq<T>, i: nat, x: T): (r: seq<T>)
    requires i <= |s|
    ensures |r| == if i < |s| then |s| else |s| + 1
    ensures r[i] == x
    ensures forall j :: 0 <= j < |r| && j != i ==> r[j] == s[j]
  {
    if i < |s| then s[i := x] else s + [x]
  }

  /** Growing a prefix by one element. */
  lemma PrefixSnoc<T>(s: seq<T>, i: nat)
    requires i < |s|
    ensures s[..i + 1] == s[..i] + [s[i]]
  {
  }

  /** Assigning the next element of `t` to a sequence that agrees with `t` up to `i` extends the agreement by one. */
  lemma AssignExtendsPrefix<T>(s: seq<T>, t: seq<T>, i: nat)
    requires i <= |s| && i < |t| && s[..i] == t[..i]
    ensures Assign(s, i, t[i])[..i + 1] == t[..i + 1]
  {
    var r := Assign(s, i, t[i]);
    forall j | 0 <= j < i + 1 ensures r[j] == t[j] {
      if j < i {
        assert s[..i][j] == t[..i][j];
      }
    }
  }
}
