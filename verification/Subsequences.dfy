/** Leaving elements out of a sequence: one, all but some, or any, in order. */
module Subsequences {

  /** `s` without its i-th element. */
  function Without<T>(s: seq<T>, i: nat): seq<T>
    requires i < |s|
  {
    s[..i] + s[i + 1..]
  }

  /** The position of the first element for which p holds, or the length of the sequence. */
  function First<T>(s: seq<T>, p: T -> bool): (i: nat)
    ensures i <= |s|
    ensures i < |s| ==> p(s[i])
    ensures forall j :: 0 <= j < i ==> !p(s[j])
  {
    if s == [] || p(s[0]) then 0
    else
      var i := First(s[1..], p);
      assert forall j :: 1 <= j < i + 1 ==> s[j] == s[1..][j - 1];
      i + 1
  }

  function Filter<T>(s: seq<T>, p: T -> bool): seq<T> {
    if s == [] then []
    else (if p(s[0]) then [s[0]] else []) + Filter(s[1..], p)
  }

  lemma RemoveOne<T>(s: seq<T>, i: nat)
    requires i < |s|
    ensures multiset(s) == multiset(Without(s, i)) + multiset{s[i]}
  {
    assert s == s[..i] + [s[i]] + s[i + 1..];
  }

  lemma Twice<T>(s: seq<T>, i: nat, j: nat)
    requires i < j < |s| && s[i] == s[j]
    ensures multiset(s)[s[i]] >= 2
  {
    assert s == s[..j] + [s[j]] + s[j + 1..];
    assert s[..j][i] in multiset(s[..j]);
  }

  lemma RemoveHead<T>(s: seq<T>)
    requires s != []
    ensures Without(s, 0) == s[1..]
    ensures multiset(s) == multiset(s[1..]) + multiset{s[0]}
  {
    RemoveOne(s, 0);
    assert Without(s, 0) == s[1..];
  }

  // ---- filters ----------------------------------------------------------------------------

  lemma {:induction false} FilterAppend<T>(a: seq<T>, b: seq<T>, p: T -> bool)
    ensures Filter(a + b, p) == Filter(a, p) + Filter(b, p)
  {
    hide Filter;
    if a == [] {
      assert a + b == b;
      FilterNone(a, p);
    } else {
      FilterAppend(a[1..], b, p);
      FilterHead(a, p);
      FilterHead(a + b, p);
      assert (a + b)[0] == a[0] && (a + b)[1..] == a[1..] + b;
    }
  }

  lemma FilterHead<T>(s: seq<T>, p: T -> bool)
    requires s != []
    ensures Filter(s, p) == (if p(s[0]) then [s[0]] else []) + Filter(s[1..], p)
  {
  }

  lemma FilterOne<T>(x: T, p: T -> bool)
    ensures Filter([x], p) == if p(x) then [x] else []
  {
    assert [x][1..] == [];
  }

  lemma FilterWithout<T>(s: seq<T>, i: nat, p: T -> bool)
    requires i < |s|
    ensures var j := |Filter(s[..i], p)|;
            if p(s[i]) then j < |Filter(s, p)| && Filter(s, p)[j] == s[i]
                && Filter(Without(s, i), p) == Without(Filter(s, p), j)
            else Filter(Without(s, i), p) == Filter(s, p)
  {
    assert s == s[..i] + ([s[i]] + s[i + 1..]);
    FilterAppend(s[..i], [s[i]] + s[i + 1..], p);
    FilterAppend([s[i]], s[i + 1..], p);
    FilterAppend(s[..i], s[i + 1..], p);
  }

  lemma {:induction false} FilterNone<T>(s: seq<T>, p: T -> bool)
    requires forall i :: 0 <= i < |s| ==> !p(s[i])
    ensures Filter(s, p) == []
  {
    if s == [] {
    } else {
      FilterNone(s[1..], p);
    }
  }

  /** Filtering with a test and with its opposite. */
  lemma {:induction false} FilterSplit<T>(s: seq<T>, p: T -> bool, q: T -> bool)
    requires forall i :: 0 <= i < |s| ==> (p(s[i]) <==> !q(s[i]))
    ensures multiset(Filter(s, p)) + multiset(Filter(s, q)) == multiset(s)
    ensures Filter(Filter(s, q), p) == []
  {
    hide Filter;
    if s == [] {
      FilterNone(s, p);
      FilterNone(s, q);
    } else {
      FilterSplit(s[1..], p, q);
      FilterHead(s, p);
      FilterHead(s, q);
      assert s == [s[0]] + s[1..];
      var head := if q(s[0]) then [s[0]] else [];
      FilterNone(head, p);
      FilterAppend(head, Filter(s[1..], q), p);
    }
  }

  // ---- subsequences ---------------------------------------------------------------------------

  /** `a` is `b` with some elements left out. */
  ghost predicate Subseq<T>(a: seq<T>, b: seq<T>)
    decreases |b|
  {
    if a == [] then true
    else if b == [] then false
    else
      || (a[|a| - 1] == b[|b| - 1] && Subseq(a[..|a| - 1], b[..|b| - 1]))
      || Subseq(a, b[..|b| - 1])
  }

  /** The last element of `a` is that of `b`, or `b` can do without its own. */
  lemma SubseqLast<T>(a: seq<T>, b: seq<T>)
    requires Subseq(a, b) && a != []
    ensures b != []
    ensures Subseq(a, b[..|b| - 1]) || (a[|a| - 1] == b[|b| - 1] && Subseq(a[..|a| - 1], b[..|b| - 1]))
  {
  }

  lemma SubseqAppend<T>(a: seq<T>, b: seq<T>, x: T)
    requires Subseq(a, b)
    ensures Subseq(a + [x], b + [x])
  {
    assert (a + [x])[..|a|] == a && (b + [x])[..|b|] == b;
  }

  lemma {:induction false} SubseqRefl<T>(a: seq<T>)
    ensures Subseq(a, a)
  {
    if a != [] {
      SubseqRefl(a[..|a| - 1]);
    }
  }

  lemma SubseqWiden<T>(a: seq<T>, b: seq<T>)
    requires b != [] && Subseq(a, b[..|b| - 1])
    ensures Subseq(a, b)
  {
  }

  lemma WithoutInit<T>(a: seq<T>, i: nat)
    requires i < |a| - 1
    ensures Without(a, i) == Without(a[..|a| - 1], i) + [a[|a| - 1]]
  {
  }

  lemma {:induction false} SubseqWithout<T>(a: seq<T>, b: seq<T>, i: nat)
    requires Subseq(a, b) && i < |a|
    ensures Subseq(Without(a, i), b)
    decreases |b|
  {
    hide Subseq;
    SubseqLast(a, b);
    var n, b' := |a| - 1, b[..|b| - 1];
    if Subseq(a, b') {
      SubseqWithout(a, b', i);
      SubseqWiden(Without(a, i), b);
    } else if i == n {
      assert Without(a, i) == a[..n];
      SubseqWiden(a[..n], b);
    } else {
      SubseqWithout(a[..n], b', i);
      SubseqAppend(Without(a[..n], i), b', a[n]);
      WithoutInit(a, i);
      assert b == b' + [a[n]];
    }
  }

  lemma {:induction false} SubseqPrefix<T>(a: seq<T>, c: seq<T>, b: seq<T>)
    requires Subseq(a + c, b)
    ensures Subseq(a, b)
    decreases |c|
  {
    if c == [] {
      assert a + c == a;
    } else {
      var n := |c| - 1;
      SubseqWithout(a + c, b, |a| + n);
      assert Without(a + c, |a| + n) == a + c[..n];
      SubseqPrefix(a, c[..n], b);
    }
  }

  /** Elements of a subsequence stand in the order of the whole. */
  lemma {:induction false} SubseqOrder<T>(a: seq<T>, b: seq<T>, x: nat, y: nat) returns (i: nat, j: nat)
    requires Subseq(a, b) && x < y < |a|
    ensures i < j < |b| && b[i] == a[x] && b[j] == a[y]
    decreases |b|
  {
    var n, m := |a| - 1, |b| - 1;
    if Subseq(a, b[..m]) {
      i, j := SubseqOrder(a, b[..m], x, y);
    } else if y < n {
      i, j := SubseqOrder(a[..n], b[..m], x, y);
    } else {
      i := SubseqIndex(a[..n], b[..m], x);
      j := m;
    }
  }

  lemma {:induction false} SubseqIndex<T>(a: seq<T>, b: seq<T>, x: nat) returns (i: nat)
    requires Subseq(a, b) && x < |a|
    ensures i < |b| && b[i] == a[x]
    decreases |b|
  {
    var n, m := |a| - 1, |b| - 1;
    if Subseq(a, b[..m]) {
      i := SubseqIndex(a, b[..m], x);
    } else if x == n {
      i := m;
    } else {
      i := SubseqIndex(a[..n], b[..m], x);
    }
  }
}
