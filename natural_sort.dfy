/** The final ordering of sample columns. The script calls `natsorted`, a
    stable sort by a natural-order key from a foreign library; here the
    order is a caller-supplied comparison `leq` and the sort a stable
    insertion sort by it. */
module NaturalSort {

  /** `leq` compares every pair of names one way or the other. */
  ghost predicate IsTotal(leq: (string, string) -> bool) {
    forall a, b :: leq(a, b) || leq(b, a)
  }

  ghost predicate IsSorted(s: seq<string>, leq: (string, string) -> bool) {
    forall i :: 0 < i < |s| ==> leq(s[i - 1], s[i])
  }

  /** `x` placed after the leading names that are `leq` to it. */
  function Insert(x: string, s: seq<string>, leq: (string, string) -> bool): (r: seq<string>)
    ensures multiset(r) == multiset(s) + multiset{x}
  {
    if s == [] then [x]
    else if leq(s[0], x) then
      assert s == [s[0]] + s[1..];
      [s[0]] + Insert(x, s[1..], leq)
    else [x] + s
  }

  /** The names sorted by `leq`; later names go after earlier ones they tie
      with. */
  function SortBy(s: seq<string>, leq: (string, string) -> bool): (r: seq<string>)
    ensures multiset(r) == multiset(s)
  {
    if s == [] then []
    else
      assert s == s[..|s| - 1] + [s[|s| - 1]];
      Insert(s[|s| - 1], SortBy(s[..|s| - 1], leq), leq)
  }

  lemma {:induction false} InsertSorted(x: string, s: seq<string>, leq: (string, string) -> bool)
    requires IsTotal(leq) && IsSorted(s, leq)
    ensures IsSorted(Insert(x, s, leq), leq)
    ensures s != [] ==> Insert(x, s, leq)[0] == s[0] || Insert(x, s, leq)[0] == x
  {
    if s != [] && leq(s[0], x) {
      InsertSorted(x, s[1..], leq);
    }
  }

  /** With a total comparison the result is in order. */
  lemma {:induction false} SortBySorted(s: seq<string>, leq: (string, string) -> bool)
    requires IsTotal(leq)
    ensures IsSorted(SortBy(s, leq), leq)
  {
    if s != [] {
      SortBySorted(s[..|s| - 1], leq);
      InsertSorted(s[|s| - 1], SortBy(s[..|s| - 1], leq), leq);
    }
  }
}
