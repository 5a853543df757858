/** GLib list operations as the installer uses them, and the one algorithm whose exact behaviour
    matters here: g_list_sort, a merge sort that halves the list and, on a tie, takes the left element. */
module GLists {

  datatype Option<+T> = None | Some(value: T) {
    function GetOr(default: T): T {
      if Some? then value else default
    }
  }

  function Filter<T>(keep: T -> bool, xs: seq<T>): (ys: seq<T>)
    ensures forall y :: y in ys ==> y in xs && keep(y)
    ensures forall x :: x in xs ==> keep(x) ==> x in ys
    ensures |ys| <= |xs|
  {
    if xs == [] then []
    else (if keep(xs[0]) then [xs[0]] else []) + Filter(keep, xs[1..])
  }

  function Map<S, T>(f: S -> T, xs: seq<S>): (ys: seq<T>)
    ensures |ys| == |xs|
    ensures forall i :: 0 <= i < |xs| ==> ys[i] == f(xs[i])
  {
    seq(|xs|, i requires 0 <= i < |xs| => f(xs[i]))
  }

  function Flatten<T>(xss: seq<seq<T>>): (xs: seq<T>)
    ensures forall x :: x in xs ==> exists i :: 0 <= i < |xss| && x in xss[i]
    ensures forall i :: 0 <= i < |xss| ==> forall x :: x in xss[i] ==> x in xs
  {
    if xss == [] then [] else xss[0] + Flatten(xss[1..])
  }

  function Reverse<T>(xs: seq<T>): (ys: seq<T>)
    ensures |ys| == |xs|
  {
    if xs == [] then [] else Reverse(xs[1..]) + [xs[0]]
  }

  ghost predicate NoDup<T>(xs: seq<T>) {
    forall i, j :: 0 <= i < j < |xs| ==> xs[i] != xs[j]
  }

  // ---- taking sequences apart ----

  lemma Assoc<T>(a: seq<T>, b: seq<T>, c: seq<T>)
    ensures (a + b) + c == a + (b + c)
  {
  }

  lemma AppendTail<T>(a: seq<T>, b: seq<T>)
    requires a != []
    ensures (a + b)[0] == a[0] && (a + b)[1..] == a[1..] + b
  {
  }

  lemma Uncons<T>(xs: seq<T>)
    requires xs != []
    ensures xs == [xs[0]] + xs[1..] && multiset(xs) == multiset{xs[0]} + multiset(xs[1..])
  {
    assert xs == [xs[0]] + xs[1..];
  }

  lemma TakeOne<T>(xs: seq<T>, i: nat)
    requires i < |xs|
    ensures xs[..i + 1] == xs[..i] + [xs[i]]
  {
  }

  lemma TakeAll<T>(xs: seq<T>)
    ensures xs[..|xs|] == xs
  {
  }

  lemma Unsnoc<T>(a: seq<T>, x: T)
    ensures (a + [x])[..|a|] == a && (a + [x])[|a|] == x
  {
  }

  // ---- laws of Filter, Flatten and Reverse ----

  lemma {:induction false} FilterAppend<T>(keep: T -> bool, xs: seq<T>, ys: seq<T>)
    ensures Filter(keep, xs + ys) == Filter(keep, xs) + Filter(keep, ys)
  {
    if xs == [] {
      assert xs + ys == ys;
    } else {
      FilterAppend(keep, xs[1..], ys);
      AppendTail(xs, ys);
      Assoc(if keep(xs[0]) then [xs[0]] else [], Filter(keep, xs[1..]), Filter(keep, ys));
    }
  }

  lemma {:induction false} FilterFilter<T>(p: T -> bool, q: T -> bool, both: T -> bool, xs: seq<T>)
    requires forall x :: x in xs ==> (both(x) <==> p(x) && q(x))
    ensures Filter(p, Filter(q, xs)) == Filter(both, xs)
  {
    if xs != [] {
      FilterFilter(p, q, both, xs[1..]);
      assert forall x :: x in xs[1..] ==> x in xs;
      assert xs[0] in xs;
      if q(xs[0]) {
        assert Filter(q, xs) == [xs[0]] + Filter(q, xs[1..]);
        assert ([xs[0]] + Filter(q, xs[1..]))[1..] == Filter(q, xs[1..]);
      } else {
        assert Filter(q, xs) == Filter(q, xs[1..]);
      }
    }
  }

  lemma FilterUncons<T>(keep: T -> bool, xs: seq<T>)
    requires xs != []
    ensures Filter(keep, xs) == (if keep(xs[0]) then [xs[0]] else []) + Filter(keep, xs[1..])
  {
  }

  lemma MapUncons<S, T>(f: S -> T, x: S, xs: seq<S>)
    ensures Map(f, [x] + xs) == [f(x)] + Map(f, xs)
  {
  }

  lemma MapAppend<S, T>(f: S -> T, xs: seq<S>, ys: seq<S>)
    ensures Map(f, xs + ys) == Map(f, xs) + Map(f, ys)
  {
  }

  lemma {:induction false} FilterMap<S, T>(f: S -> T, p: T -> bool, q: S -> bool, xs: seq<S>)
    requires forall x :: x in xs ==> (q(x) <==> p(f(x)))
    ensures Filter(p, Map(f, xs)) == Map(f, Filter(q, xs))
  {
    if xs != [] {
      var x, t := xs[0], xs[1..];
      assert x in xs;
      FilterMap(f, p, q, t);
      assert Map(f, xs)[0] == f(x) && Map(f, xs)[1..] == Map(f, t);
      FilterUncons(p, Map(f, xs));
      FilterUncons(q, xs);
      MapUncons(f, x, Filter(q, t));
    }
  }

  lemma {:induction false} FilterSame<T>(p: T -> bool, q: T -> bool, xs: seq<T>)
    requires forall x :: x in xs ==> p(x) == q(x)
    ensures Filter(p, xs) == Filter(q, xs)
  {
    if xs != [] {
      assert forall x :: x in xs[1..] ==> x in xs;
      assert xs[0] in xs;
      FilterSame(p, q, xs[1..]);
    }
  }

  lemma {:induction false} FilterAll<T>(p: T -> bool, xs: seq<T>)
    requires forall x :: x in xs ==> p(x)
    ensures Filter(p, xs) == xs
  {
    if xs != [] {
      assert forall x :: x in xs[1..] ==> x in xs;
      assert xs[0] in xs;
      FilterAll(p, xs[1..]);
      assert xs == [xs[0]] + xs[1..];
    }
  }

  /** Splitting a list by a test loses and invents nothing. */
  lemma {:induction false} FilterSplit<T>(p: T -> bool, q: T -> bool, xs: seq<T>)
    requires forall x :: x in xs ==> (q(x) <==> !p(x))
    ensures multiset(Filter(p, xs)) + multiset(Filter(q, xs)) == multiset(xs)
  {
    if xs != [] {
      assert forall x :: x in xs[1..] ==> x in xs;
      assert xs[0] in xs;
      FilterSplit(p, q, xs[1..]);
      Uncons(xs);
    }
  }

  lemma {:induction false} FilterSnoc<T>(keep: T -> bool, xs: seq<T>, x: T)
    ensures Filter(keep, xs + [x]) == if keep(x) then Filter(keep, xs) + [x] else Filter(keep, xs)
  {
    FilterAppend(keep, xs, [x]);
    assert [x][1..] == [];
  }

  lemma FlattenCons<T>(xs: seq<T>, xss: seq<seq<T>>)
    ensures Flatten([xs] + xss) == xs + Flatten(xss)
  {
    assert ([xs] + xss)[1..] == xss;
  }

  lemma {:induction false} FlattenAppend<T>(a: seq<seq<T>>, b: seq<seq<T>>)
    ensures Flatten(a + b) == Flatten(a) + Flatten(b)
  {
    if a == [] {
      assert a + b == b;
    } else {
      FlattenAppend(a[1..], b);
      AppendTail(a, b);
      Assoc(a[0], Flatten(a[1..]), Flatten(b));
    }
  }

  lemma {:induction false} FlattenSnoc<T>(a: seq<seq<T>>, b: seq<T>)
    ensures Flatten(a + [b]) == Flatten(a) + b
  {
    FlattenAppend(a, [b]);
    assert [b][1..] == [];
    assert Flatten([b]) == b + Flatten([b][1..]) == b;
  }

  lemma {:induction false} ReverseAppend<T>(xs: seq<T>, ys: seq<T>)
    ensures Reverse(xs + ys) == Reverse(ys) + Reverse(xs)
  {
    if xs == [] {
      assert xs + ys == ys;
      assert Reverse(ys) + [] == Reverse(ys);
    } else {
      ReverseAppend(xs[1..], ys);
      assert (xs + ys)[1..] == xs[1..] + ys;
    }
  }

  lemma {:induction false} ReverseTwice<T>(xs: seq<T>)
    ensures Reverse(Reverse(xs)) == xs
    ensures multiset(Reverse(xs)) == multiset(xs)
  {
    if xs != [] {
      ReverseTwice(xs[1..]);
      ReverseAppend(Reverse(xs[1..]), [xs[0]]);
      assert Reverse([xs[0]]) == [xs[0]] by { assert [xs[0]][1..] == []; }
      assert xs == [xs[0]] + xs[1..];
    }
  }

  // ---- g_list_sort ----

  function Merge<T>(cmp: (T, T) -> int, l: seq<T>, r: seq<T>): (m: seq<T>)
    ensures multiset(m) == multiset(l) + multiset(r)
    ensures |m| == |l| + |r|
  {
    if l == [] then r
    else if r == [] then l
    else if cmp(l[0], r[0]) <= 0 then
      assert l == [l[0]] + l[1..];
      [l[0]] + Merge(cmp, l[1..], r)
    else
      assert r == [r[0]] + r[1..];
      [r[0]] + Merge(cmp, l, r[1..])
  }

  function Sort<T>(cmp: (T, T) -> int, xs: seq<T>): (s: seq<T>)
    ensures multiset(s) == multiset(xs)
    ensures |s| == |xs|
    decreases |xs|
  {
    if |xs| < 2 then xs
    else
      var half := |xs| / 2;
      assert xs == xs[..half] + xs[half..];
      Merge(cmp, Sort(cmp, xs[..half]), Sort(cmp, xs[half..]))
  }

  lemma SortHalves<T>(cmp: (T, T) -> int, l: seq<T>, r: seq<T>)
    requires |l| + |r| >= 2 && |l| == (|l| + |r|) / 2
    ensures Sort(cmp, l + r) == Merge(cmp, Sort(cmp, l), Sort(cmp, r))
  {
    SplitAppend(l, r);
    SortSplit(cmp, l + r, |l|);
  }

  lemma SplitAppend<T>(l: seq<T>, r: seq<T>)
    ensures (l + r)[..|l|] == l && (l + r)[|l|..] == r
  {
  }

  lemma SortSplit<T>(cmp: (T, T) -> int, xs: seq<T>, half: nat)
    requires |xs| >= 2 && half == |xs| / 2
    ensures Sort(cmp, xs) == Merge(cmp, Sort(cmp, xs[..half]), Sort(cmp, xs[half..]))
  {
  }

  lemma SortOne<T>(cmp: (T, T) -> int, x: T)
    ensures Sort(cmp, [x]) == [x]
  {
  }

  lemma MergeTwo<T>(cmp: (T, T) -> int, a: T, b: T)
    ensures Merge(cmp, [a], [b]) == if cmp(a, b) <= 0 then [a, b] else [b, a]
  {
    assert [a][1..] == [] && [b][1..] == [];
  }

  /** The comparison follows a numeric key whenever it puts an element of `l` before one of `r`. */
  ghost predicate Keyed<T(!new)>(cmp: (T, T) -> int, key: T -> int, l: seq<T>, r: seq<T>) {
    forall a, b :: a in l && b in r ==> (cmp(a, b) <= 0 <==> key(a) <= key(b))
  }

  ghost predicate Ascending<T>(key: T -> int, xs: seq<T>) {
    xs == [] || ((forall x :: x in xs[1..] ==> key(xs[0]) <= key(x)) && Ascending(key, xs[1..]))
  }

  function Having<T>(key: T -> int, k: int): T -> bool {
    x => key(x) == k
  }

  lemma {:induction false} AscendingAt<T>(key: T -> int, xs: seq<T>, i: nat, j: nat)
    requires Ascending(key, xs) && i < j < |xs|
    ensures key(xs[i]) <= key(xs[j])
  {
    if i == 0 {
      assert xs[j] == xs[1..][j - 1];
    } else {
      AscendingAt(key, xs[1..], i - 1, j - 1);
    }
  }

  lemma SameMembers<T>(a: seq<T>, b: seq<T>)
    requires multiset(a) == multiset(b)
    ensures forall x :: x in a ==> x in b
    ensures forall x :: x in b ==> x in a
  {
    forall x | x in a ensures x in b { assert x in multiset(a); }
    forall x | x in b ensures x in a { assert x in multiset(b); }
  }

  lemma MergeMembers<T>(cmp: (T, T) -> int, l: seq<T>, r: seq<T>)
    ensures forall x :: x in Merge(cmp, l, r) ==> x in l || x in r
  {
    SameMembers(Merge(cmp, l, r), l + r);
  }

  lemma {:induction false} MergeAscends<T(!new)>(cmp: (T, T) -> int, key: T -> int, l: seq<T>, r: seq<T>)
    requires Keyed(cmp, key, l, r)
    requires Ascending(key, l) && Ascending(key, r)
    ensures Ascending(key, Merge(cmp, l, r))
  {
    if l != [] && r != [] {
      var m := Merge(cmp, l, r);
      if cmp(l[0], r[0]) <= 0 {
        MergeAscends(cmp, key, l[1..], r);
        MergeMembers(cmp, l[1..], r);
        assert m[1..] == Merge(cmp, l[1..], r);
      } else {
        MergeAscends(cmp, key, l, r[1..]);
        MergeMembers(cmp, l, r[1..]);
        assert m[1..] == Merge(cmp, l, r[1..]);
      }
    }
  }

  lemma {:induction false} NoneHaving<T>(key: T -> int, k: int, xs: seq<T>)
    requires forall x :: x in xs ==> key(x) != k
    ensures Filter(Having(key, k), xs) == []
  {
    if xs != [] {
      assert xs[0] in xs;
      NoneHaving(key, k, xs[1..]);
    }
  }

  lemma MergeUncons<T>(cmp: (T, T) -> int, l: seq<T>, r: seq<T>)
    requires l != [] && r != []
    ensures var m := Merge(cmp, l, r);
            m != [] &&
            if cmp(l[0], r[0]) <= 0 then m[0] == l[0] && m[1..] == Merge(cmp, l[1..], r)
            else m[0] == r[0] && m[1..] == Merge(cmp, l, r[1..])
  {
  }

  /** A list whose head is `x`: its kept elements are the head's, then the tail's. */
  lemma KeptAfter<T>(keep: T -> bool, m: seq<T>, x: T, t: seq<T>)
    requires m != [] && m[0] == x && m[1..] == t
    ensures Filter(keep, m) == Filter(keep, [x]) + Filter(keep, t)
  {
    Uncons(m);
    FilterAppend(keep, [x], t);
  }

  lemma StableLeft<T>(cmp: (T, T) -> int, keep: T -> bool, l: seq<T>, r: seq<T>)
    requires l != [] && r != [] && cmp(l[0], r[0]) <= 0
    requires Filter(keep, Merge(cmp, l[1..], r)) == Filter(keep, l[1..]) + Filter(keep, r)
    ensures Filter(keep, Merge(cmp, l, r)) == Filter(keep, l) + Filter(keep, r)
  {
    MergeUncons(cmp, l, r);
    KeptAfter(keep, Merge(cmp, l, r), l[0], Merge(cmp, l[1..], r));
    KeptAfter(keep, l, l[0], l[1..]);
    Assoc(Filter(keep, [l[0]]), Filter(keep, l[1..]), Filter(keep, r));
  }

  lemma StableRight<T>(cmp: (T, T) -> int, keep: T -> bool, l: seq<T>, r: seq<T>)
    requires l != [] && r != [] && cmp(l[0], r[0]) > 0
    requires Filter(keep, Merge(cmp, l, r[1..])) == Filter(keep, l) + Filter(keep, r[1..])
    requires Filter(keep, [r[0]]) == [] || Filter(keep, l) == []
    ensures Filter(keep, Merge(cmp, l, r)) == Filter(keep, l) + Filter(keep, r)
  {
    MergeUncons(cmp, l, r);
    KeptAfter(keep, Merge(cmp, l, r), r[0], Merge(cmp, l, r[1..]));
    KeptAfter(keep, r, r[0], r[1..]);
    OneIsEmpty(Filter(keep, [r[0]]), Filter(keep, l), Filter(keep, r[1..]));
  }

  lemma OneIsEmpty<T>(a: seq<T>, b: seq<T>, c: seq<T>)
    requires a == [] || b == []
    ensures a + (b + c) == b + (a + c)
  {
    if a == [] {
      assert a + (b + c) == b + c && a + c == c;
    } else {
      assert b + c == c && b + (a + c) == a + c;
    }
  }

  lemma {:induction false} MergeIsStable<T(!new)>(cmp: (T, T) -> int, key: T -> int, k: int, l: seq<T>, r: seq<T>)
    requires Keyed(cmp, key, l, r)
    requires Ascending(key, l)
    ensures Filter(Having(key, k), Merge(cmp, l, r)) == Filter(Having(key, k), l) + Filter(Having(key, k), r)
  {
    if l != [] && r != [] {
      if cmp(l[0], r[0]) <= 0 {
        MergeIsStable(cmp, key, k, l[1..], r);
        StableLeft(cmp, Having(key, k), l, r);
      } else {
        MergeIsStable(cmp, key, k, l, r[1..]);
        if key(r[0]) == k { NoneHaving(key, k, l); }
        StableRight(cmp, Having(key, k), l, r);
      }
    }
  }

  /** g_list_sort with a comparison that follows a key: sorted by the key, and stable. */
  lemma {:induction false} SortIsStable<T(!new)>(cmp: (T, T) -> int, key: T -> int, xs: seq<T>)
    requires Keyed(cmp, key, xs, xs)
    ensures Ascending(key, Sort(cmp, xs))
    ensures forall k :: Filter(Having(key, k), Sort(cmp, xs)) == Filter(Having(key, k), xs)
    decreases |xs|
  {
    if |xs| >= 2 {
      var half := |xs| / 2;
      var l, r := xs[..half], xs[half..];
      assert xs == l + r;
      SortIsStable(cmp, key, l);
      SortIsStable(cmp, key, r);
      SameMembers(Sort(cmp, l), l);
      SameMembers(Sort(cmp, r), r);
      MergeAscends(cmp, key, Sort(cmp, l), Sort(cmp, r));
      forall k ensures Filter(Having(key, k), Sort(cmp, xs)) == Filter(Having(key, k), xs) {
        MergeIsStable(cmp, key, k, Sort(cmp, l), Sort(cmp, r));
        FilterAppend(Having(key, k), l, r);
      }
    }
  }

  lemma HasMember<T>(xs: seq<T>)
    requires xs != []
    ensures exists x :: x in xs
  {
    assert xs[0] in xs;
  }

  ghost predicate SameSublists<T(!new)>(key: T -> int, a: seq<T>, b: seq<T>) {
    forall k :: Filter(Having(key, k), a) == Filter(Having(key, k), b)
  }

  lemma SublistsGiveMembers<T(!new)>(key: T -> int, a: seq<T>, b: seq<T>)
    requires SameSublists(key, a, b)
    ensures forall x :: x in a ==> x in b
  {
    forall x | x in a ensures x in b {
      assert x in Filter(Having(key, key(x)), a);
    }
  }

  lemma HeadsAgree<T(!new)>(key: T -> int, a: seq<T>, b: seq<T>)
    requires Ascending(key, a) && Ascending(key, b) && SameSublists(key, a, b)
    requires a != [] && b != []
    ensures a[0] == b[0]
  {
    SublistsGiveMembers(key, a, b);
    SublistsGiveMembers(key, b, a);
    assert a[0] in b && b[0] in a;
    var k := key(a[0]);
    assert key(b[0]) == k;
    assert Filter(Having(key, k), a)[0] == a[0] && Filter(Having(key, k), b)[0] == b[0];
  }

  lemma TailsAgree<T(!new)>(key: T -> int, a: seq<T>, b: seq<T>)
    requires SameSublists(key, a, b) && a != [] && b != [] && a[0] == b[0]
    ensures SameSublists(key, a[1..], b[1..])
  {
    forall k ensures Filter(Having(key, k), a[1..]) == Filter(Having(key, k), b[1..]) {
      var h := if key(a[0]) == k then [a[0]] else [];
      var fa, fb := Filter(Having(key, k), a[1..]), Filter(Having(key, k), b[1..]);
      assert h + fa == h + fb;
      assert (h + fa)[|h|..] == fa && (h + fb)[|h|..] == fb;
    }
  }

  /** An ascending list is determined by its per-key sublists. */
  lemma {:induction false} AscendingUnique<T(!new)>(key: T -> int, a: seq<T>, b: seq<T>)
    requires Ascending(key, a) && Ascending(key, b) && SameSublists(key, a, b)
    ensures a == b
  {
    SublistsGiveMembers(key, a, b);
    SublistsGiveMembers(key, b, a);
    if a != [] {
      HasMember(a);
      HeadsAgree(key, a, b);
      TailsAgree(key, a, b);
      AscendingUnique(key, a[1..], b[1..]);
      Uncons(a);
      Uncons(b);
    } else if b != [] {
      HasMember(b);
    }
  }

  lemma {:induction false} CountsOfDistinct<T>(xs: seq<T>)
    ensures NoDup(xs) <==> forall x :: multiset(xs)[x] <= 1
  {
    if xs != [] {
      var t := xs[1..];
      CountsOfDistinct(t);
      assert xs == [xs[0]] + t;
      assert forall x :: multiset(xs)[x] == multiset(t)[x] + (if x == xs[0] then 1 else 0);
      if NoDup(xs) {
        assert xs[0] !in multiset(t);
      }
      if forall x :: multiset(xs)[x] <= 1 {
        assert multiset(xs)[xs[0]] <= 1;
        assert xs[0] !in multiset(t);
        assert forall x :: multiset(t)[x] <= multiset(xs)[x];
        forall i, j | 0 <= i < j < |xs| ensures xs[i] != xs[j] {
          if i == 0 { assert t[j - 1] in multiset(t); } else { assert t[i - 1] != t[j - 1]; }
        }
      }
    }
  }

  lemma {:induction false} AtMostOneHaving<T(!new)>(key: T -> int, k: int, xs: seq<T>)
    requires NoDup(xs)
    requires forall x, y :: x in xs && y in xs && key(x) == key(y) ==> x == y
    ensures |Filter(Having(key, k), xs)| <= 1
  {
    if xs != [] {
      AtMostOneHaving(key, k, xs[1..]);
      if key(xs[0]) == k {
        assert xs[0] in xs;
        forall x | x in xs[1..] ensures key(x) != k {
          assert x != xs[0];
        }
        NoneHaving(key, k, xs[1..]);
      }
    }
  }

  /** With distinct keys the sorted list does not depend on the order the elements arrive in. */
  lemma SortIgnoresArrivalOrder<T(!new)>(cmp: (T, T) -> int, key: T -> int, xs: seq<T>, ys: seq<T>)
    requires multiset(xs) == multiset(ys) && NoDup(xs)
    requires Keyed(cmp, key, xs, xs)
    requires forall x, y :: x in xs && y in xs && key(x) == key(y) ==> x == y
    ensures Sort(cmp, xs) == Sort(cmp, ys)
  {
    SameMembers(xs, ys);
    SortIsStable(cmp, key, xs);
    SortIsStable(cmp, key, ys);
    CountsOfDistinct(xs);
    CountsOfDistinct(ys);
    forall k ensures Filter(Having(key, k), xs) == Filter(Having(key, k), ys) {
      AtMostOneHaving(key, k, xs);
      AtMostOneHaving(key, k, ys);
      SingletonsAgree(Filter(Having(key, k), xs), Filter(Having(key, k), ys));
    }
    AscendingUnique(key, Sort(cmp, xs), Sort(cmp, ys));
  }

  /** A test that singles out one element singles it out in every arrangement. */
  lemma FilterOfPerm<T(!new)>(keep: T -> bool, a: seq<T>, b: seq<T>)
    requires multiset(a) == multiset(b) && |Filter(keep, b)| <= 1
    ensures Filter(keep, a) == Filter(keep, b)
  {
    FilterPerm(keep, a, b);
    assert |Filter(keep, a)| == |multiset(Filter(keep, a))|;
    assert |Filter(keep, b)| == |multiset(Filter(keep, b))|;
    SameMembers(Filter(keep, a), Filter(keep, b));
    SingletonsAgree(Filter(keep, a), Filter(keep, b));
  }

  lemma SingletonsAgree<T>(a: seq<T>, b: seq<T>)
    requires |a| <= 1 && |b| <= 1
    requires (forall x :: x in a ==> x in b) && (forall x :: x in b ==> x in a)
    ensures a == b
  {
    if |a| == 1 { assert a[0] in b; }
    if |b| == 1 { assert b[0] in a; }
  }

  // ---- removal and permutations ----

  lemma TakeOut<T>(xs: seq<T>, x: T) returns (rest: seq<T>)
    requires x in xs
    ensures multiset(xs) == multiset(rest) + multiset{x}
    ensures |xs| == |rest| + 1
    ensures forall y :: y in xs && y != x ==> y in rest
  {
    var i :| 0 <= i < |xs| && xs[i] == x;
    rest := xs[..i] + xs[i + 1..];
    assert xs == xs[..i] + [x] + xs[i + 1..];
  }

  lemma {:induction false} FilterCounts<T>(keep: T -> bool, xs: seq<T>, x: T)
    ensures multiset(Filter(keep, xs))[x] == if keep(x) then multiset(xs)[x] else 0
  {
    if xs != [] {
      FilterCounts(keep, xs[1..], x);
      Uncons(xs);
    }
  }

  lemma FilterPerm<T(!new)>(keep: T -> bool, a: seq<T>, b: seq<T>)
    requires multiset(a) == multiset(b)
    ensures multiset(Filter(keep, a)) == multiset(Filter(keep, b))
  {
    forall x ensures multiset(Filter(keep, a))[x] == multiset(Filter(keep, b))[x] {
      FilterCounts(keep, a, x);
      FilterCounts(keep, b, x);
    }
  }

  lemma MapAround<S, T>(f: S -> T, l: seq<S>, x: S, r: seq<S>)
    ensures multiset(Map(f, l + [x] + r)) == multiset(Map(f, l + r)) + multiset{f(x)}
    ensures multiset(l + [x] + r) == multiset(l + r) + multiset{x}
  {
    assert Map(f, l + [x] + r) == Map(f, l) + [f(x)] + Map(f, r);
    assert Map(f, l + r) == Map(f, l) + Map(f, r);
  }

  lemma SameRest<T>(a: multiset<T>, b: multiset<T>, x: T)
    requires a + multiset{x} == b + multiset{x}
    ensures a == b
  {
    assert forall y :: a[y] + multiset{x}[y] == (a + multiset{x})[y] && b[y] + multiset{x}[y] == (b + multiset{x})[y];
  }

  lemma MapHead<S, T>(f: S -> T, a: seq<S>)
    requires a != []
    ensures multiset(Map(f, a)) == multiset(Map(f, a[1..])) + multiset{f(a[0])}
    ensures multiset(a) == multiset(a[1..]) + multiset{a[0]}
  {
    Uncons(a);
    Uncons(Map(f, a));
    assert Map(f, a)[1..] == Map(f, a[1..]);
  }

  lemma SplitAround<T>(b: seq<T>, x: T) returns (l: seq<T>, r: seq<T>)
    requires x in b
    ensures b == l + [x] + r
  {
    var i :| 0 <= i < |b| && b[i] == x;
    l, r := b[..i], b[i + 1..];
  }

  lemma {:induction false} MapPerm<S, T>(f: S -> T, a: seq<S>, b: seq<S>)
    requires multiset(a) == multiset(b)
    ensures multiset(Map(f, a)) == multiset(Map(f, b))
    decreases |a|
  {
    if a == [] {
      assert |multiset(b)| == 0;
    } else {
      SameMembers(a, b);
      var l, r := SplitAround(b, a[0]);
      MapHead(f, a);
      MapAround(f, l, a[0], r);
      SameRest(multiset(a[1..]), multiset(l + r), a[0]);
      MapPerm(f, a[1..], l + r);
    }
  }
}
