/** Facts about sequences shared by the other modules. */
module Seqs {

  predicate Distinct<T(==)>(s: seq<T>) {
    forall i, j :: 0 <= i < j < |s| ==> s[i] != s[j]
  }

  lemma PrefixSnoc<T>(s: seq<T>, k: nat)
    requires k < |s|
    ensures s[..k + 1][..k] == s[..k] && s[..k + 1][k] == s[k]
  {
  }

  lemma AppendAssoc<T>(a: seq<T>, b: seq<T>, c: seq<T>)
    ensures (a + b) + c == a + (b + c)
  {
  }

  lemma InSnoc<T>(s: seq<T>, x: T)
    requires |s| > 0
    ensures x in s <==> x in s[..|s| - 1] || x == s[|s| - 1]
  {
    assert s == s[..|s| - 1] + [s[|s| - 1]];
  }

  /**
   * With equal multisets, the last element of `s` occurs in `t` at some index
   * i, and taking it out of both leaves equal multisets.
   */
  lemma MatchLast<T>(s: seq<T>, t: seq<T>) returns (i: nat)
    requires s != [] && multiset(s) == multiset(t)
    ensures i < |t| && t[i] == s[|s| - 1]
    ensures multiset(s[..|s| - 1]) == multiset(t[..i] + t[i + 1..])
  {
    var last := s[|s| - 1];
    assert s == s[..|s| - 1] + [last];
    assert last in multiset(t);
    i :| 0 <= i < |t| && t[i] == last;
    var front, back := t[..i], t[i + 1..];
    assert t == front + [last] + back;
    assert multiset(s) == multiset(s[..|s| - 1]) + multiset{last};
    assert multiset(t) == multiset(front + back) + multiset{last};
    assert multiset(s[..|s| - 1]) == multiset(s) - multiset{last};
  }
}
