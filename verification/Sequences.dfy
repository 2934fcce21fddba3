// Small vocabulary shared by the other modules.

module Options {
  datatype Option<+T> = None | Some(value: T)
}

module Sequences {

  // The newest n items of s (all of them when there are fewer).
  function LastN<T>(s: seq<T>, n: nat): (r: seq<T>)
    ensures |r| == if |s| <= n then |s| else n
  {
    if |s| <= n then s else s[|s| - n..]
  }

  lemma SplitLast<T>(s: seq<T>)
    requires s != []
    ensures s == s[..|s| - 1] + [s[|s| - 1]]
  {
  }

  lemma Regroup<T>(a: seq<T>, b: seq<T>, c: seq<T>)
    ensures a + b + c == a + (b + c)
  {
  }

  lemma NothingBehind<T>(a: seq<T>)
    ensures a + [] == a && [] + a == a
  {
  }

  lemma SplitAt<T>(s: seq<T>, k: nat)
    requires k < |s|
    ensures s == s[..k] + [s[k]] + s[k + 1..]
  {
  }

  lemma PrefixStep<T>(s: seq<T>, k: nat)
    requires 0 < k <= |s|
    ensures s[..k] == s[..k - 1] + [s[k - 1]]
  {
  }

  lemma SplitHere<T>(s: seq<T>, k: nat)
    requires k <= |s|
    ensures s == s[..k] + s[k..]
  {
  }

  lemma NothingBetween<T>(a: seq<T>, b: seq<T>)
    ensures a + [] + b == a + b
  {
  }

  lemma SplitFirst<T>(s: seq<T>)
    requires s != []
    ensures s == [s[0]] + s[1..]
  {
  }

  lemma SliceStep<T>(s: seq<T>, a: nat, b: nat)
    requires a <= b < |s|
    ensures s[a..b + 1] == s[a..b] + [s[b]]
  {
  }

  lemma TailStep<T>(s: seq<T>, k: nat)
    requires k < |s|
    ensures s[k..] == [s[k]] + s[k + 1..]
  {
  }

  lemma Pair<T>(x: T, y: T)
    ensures [x, y] == [x] + [y]
  {
  }

  ghost predicate Distinct<T>(s: seq<T>) {
    forall i, j :: 0 <= i < j < |s| ==> s[i] != s[j]
  }

  // The position of the first occurrence of x, or |s|.
  function IndexOf<T(==)>(s: seq<T>, x: T): (k: nat)
    ensures k <= |s|
    ensures k < |s| ==> s[k] == x
    ensures forall i :: 0 <= i < k ==> s[i] != x
    ensures x in s <==> k < |s|
  {
    if s == [] || s[0] == x then 0 else 1 + IndexOf(s[1..], x)
  }

  function Insert<T>(s: seq<T>, k: nat, x: T): (r: seq<T>)
    requires k <= |s|
    ensures |r| == |s| + 1
  {
    s[..k] + [x] + s[k..]
  }

  function Remove<T>(s: seq<T>, k: nat): (r: seq<T>)
    requires k < |s|
    ensures |r| == |s| - 1
  {
    s[..k] + s[k + 1..]
  }

  // The items of s, in order, for which p holds.
  function Select<T>(s: seq<T>, p: T -> bool): seq<T> {
    if s == [] then [] else (if p(s[0]) then [s[0]] else []) + Select(s[1..], p)
  }

  lemma {:induction false} SelectMember<T>(s: seq<T>, p: T -> bool, x: T)
    ensures x in Select(s, p) <==> x in s && p(x)
  {
    if s != [] {
      SelectMember(s[1..], p, x);
    }
  }

  lemma {:induction false} SelectAppend<T>(a: seq<T>, b: seq<T>, p: T -> bool)
    ensures Select(a + b, p) == Select(a, p) + Select(b, p)
  {
    if a == [] {
      assert a + b == b;
    } else {
      var h := if p(a[0]) then [a[0]] else [];
      calc {
        Select(a + b, p);
        { assert (a + b)[0] == a[0] && (a + b)[1..] == a[1..] + b; }
        h + Select(a[1..] + b, p);
        { SelectAppend(a[1..], b, p); }
        h + (Select(a[1..], p) + Select(b, p));
        h + Select(a[1..], p) + Select(b, p);
      }
    }
  }

  lemma {:induction false} SelectAll<T>(s: seq<T>, p: T -> bool)
    requires forall x :: x in s ==> p(x)
    ensures Select(s, p) == s
  {
    if s != [] {
      SelectAll(s[1..], p);
    }
  }

  lemma {:induction false} SelectNone<T>(s: seq<T>, p: T -> bool)
    requires forall x :: x in s ==> !p(x)
    ensures Select(s, p) == []
  {
    if s != [] {
      SelectNone(s[1..], p);
    }
  }

  lemma {:induction false} SelectSame<T>(s: seq<T>, p: T -> bool, q: T -> bool)
    requires forall x :: x in s ==> (p(x) <==> q(x))
    ensures Select(s, p) == Select(s, q)
  {
    if s != [] {
      SelectSame(s[1..], p, q);
    }
  }

  lemma {:induction false} SelectDistinct<T>(h: seq<T>, s: seq<T>, p: T -> bool)
    requires Distinct(h + s)
    ensures Distinct(h + Select(s, p))
    decreases s
  {
    if s != [] {
      var h', rest := h + [s[0]], Select(s[1..], p);
      assert h + s == h' + s[1..];
      SelectDistinct(h', s[1..], p);
      if p(s[0]) {
        assert h + ([s[0]] + rest) == h' + rest;
      } else {
        DropMiddle(h, s[0], rest);
        assert [] + rest == rest;
      }
    }
  }

  // An insertion behind everything that is selected.
  lemma SelectInsertLast<T>(s: seq<T>, k: nat, x: T, p: T -> bool, q: T -> bool)
    requires k <= |s| && q(x)
    requires forall y :: y in s[..k] ==> (p(y) <==> q(y))
    requires forall y :: y in s[k..] ==> !p(y) && !q(y)
    ensures Select(Insert(s, k, x), q) == Select(s, p) + [x]
  {
    var front, back := s[..k], s[k..];
    SelectSame(front, p, q);
    SelectNone(back, p);
    SelectNone(back, q);
    SelectInsert(s, k, x, p);
    SelectInsert(s, k, x, q);
    var f := Select(front, p);
    assert Select(s, p) == f + [] == f;
    assert Select(Insert(s, k, x), q) == f + [x] + [] == f + [x];
  }

  lemma DropMiddle<T>(a: seq<T>, x: T, b: seq<T>)
    requires Distinct(a + [x] + b)
    ensures Distinct(a + b)
  {
    var r, t := a + [x] + b, a + b;
    forall i, j | 0 <= i < j < |t| ensures t[i] != t[j] {
      assert t[i] == r[if i < |a| then i else i + 1];
      assert t[j] == r[if j < |a| then j else j + 1];
    }
  }

  lemma SelectInsert<T>(s: seq<T>, k: nat, x: T, p: T -> bool)
    requires k <= |s|
    ensures Select(s, p) == Select(s[..k], p) + Select(s[k..], p)
    ensures Select(Insert(s, k, x), p) == Select(s[..k], p) + (if p(x) then [x] else []) + Select(s[k..], p)
  {
    assert s == s[..k] + s[k..];
    SelectAppend(s[..k], s[k..], p);
    SelectAppend(s[..k] + [x], s[k..], p);
    SelectAppend(s[..k], [x], p);
    assert Select([x], p) == if p(x) then [x] else [];
  }

  // An item that has no copy in front of it is found where it is.
  lemma FirstIndex<T>(s: seq<T>, k: nat)
    requires k < |s| && forall j :: 0 <= j < k ==> s[j] != s[k]
    ensures s[k] in s && IndexOf(s, s[k]) == k
  {
  }

  // In a sequence without repeats an item has one position.
  lemma DistinctIndex<T>(s: seq<T>, k: nat)
    requires Distinct(s) && k < |s|
    ensures s[k] in s && IndexOf(s, s[k]) == k
  {
    FirstIndex(s, k);
  }

  lemma InsertCounts<T>(s: seq<T>, k: nat, x: T)
    requires k <= |s|
    ensures multiset(Insert(s, k, x)) == multiset(s) + multiset{x}
  {
    assert s == s[..k] + s[k..];
  }

  lemma InsertBehind<T>(h: seq<T>, s: seq<T>, k: nat, x: T, p: nat)
    requires k <= |s| && p == |h| + k
    ensures p <= |h + s| && Insert(h + s, p, x) == h + Insert(s, k, x)
  {
    assert (h + s)[..p] == h + s[..k];
    assert (h + s)[p..] == s[k..];
  }

  // Inserting into the newest n items and keeping n of them is the same as
  // inserting into the whole and keeping the newest n.
  lemma InsertThenLast<T>(s: seq<T>, n: nat, k: nat, x: T)
    requires k <= |s|
    ensures var dropped := |s| - |LastN(s, n)|;
            LastN(Insert(s, k, x), n) ==
            if k < dropped then LastN(s, n)
            else LastN(Insert(LastN(s, n), k - dropped, x), n)
  {
    if |s| >= n {
      var d := |s| - n;
      if k < d {
        InsertThenDropMore(s, d, k, x);
      } else {
        InsertThenDrop(s, d, k, x);
      }
    }
  }

  lemma InsertThenDrop<T>(s: seq<T>, d: nat, k: nat, x: T)
    requires d <= k <= |s|
    ensures Insert(s, k, x)[d + 1..] == Insert(s[d..], k - d, x)[1..]
  {
    var r, u := Insert(s, k, x), Insert(s[d..], k - d, x);
    assert forall i :: 0 <= i < |u| ==> u[i] == r[d + i];
  }

  lemma InsertThenDropMore<T>(s: seq<T>, d: nat, k: nat, x: T)
    requires k < d <= |s|
    ensures Insert(s, k, x)[d + 1..] == s[d..]
  {
    var r := Insert(s, k, x);
    assert forall i :: k < i < |r| ==> r[i] == s[i - 1];
  }
}
