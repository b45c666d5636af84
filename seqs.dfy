/** Generic sequence helpers the views and stores share: keeping the
    elements that satisfy a test, and the stable sort behind `List.sort`
    with a `Comparator`. */
module Seqs {
  import opened Wrappers

  /** The elements of `s` satisfying `p`, in their original order. Defined
      from the end so that a loop over `s[..i]` extends it one step at a
      time. */
  function Filter<T(!new)>(s: seq<T>, p: T -> bool): (r: seq<T>)
    ensures |r| <= |s|
    ensures forall x :: x in r <==> x in s && p(x)
    ensures multiset(r) <= multiset(s)
  {
    if s == [] then []
    else
      var init := Filter(s[..|s| - 1], p);
      assert s == s[..|s| - 1] + [s[|s| - 1]];
      if p(s[|s| - 1]) then init + [s[|s| - 1]] else init
  }

  /** Filtering a concatenation filters each part. */
  lemma {:induction false} FilterAppend<T(!new)>(a: seq<T>, b: seq<T>, p: T -> bool)
    ensures Filter(a + b, p) == Filter(a, p) + Filter(b, p)
  {
    if b != [] {
      assert (a + b)[..|a + b| - 1] == a + b[..|b| - 1];
      FilterAppend(a, b[..|b| - 1], p);
    } else {
      assert a + b == a;
    }
  }

  /** Filtering by a test every element passes changes nothing. */
  lemma {:induction false} FilterAll<T(!new)>(s: seq<T>, p: T -> bool)
    requires forall x :: x in s ==> p(x)
    ensures Filter(s, p) == s
  {
    if s != [] {
      assert s == s[..|s| - 1] + [s[|s| - 1]];
      FilterAll(s[..|s| - 1], p);
    }
  }

  /** Filtering twice with the same test changes nothing more. */
  lemma {:induction false} FilterIdempotent<T(!new)>(s: seq<T>, p: T -> bool)
    ensures Filter(Filter(s, p), p) == Filter(s, p)
  {
    if s != [] {
      FilterIdempotent(s[..|s| - 1], p);
      var init := Filter(s[..|s| - 1], p);
      if p(s[|s| - 1]) {
        FilterAppend(init, [s[|s| - 1]], p);
        assert Filter([s[|s| - 1]], p) == [s[|s| - 1]] by {
          assert [s[|s| - 1]][..0] == [];
        }
      }
    }
  }

  /** Two positions of a filtered sequence come from two positions of the
      sequence in the same order. */
  lemma {:induction false} FilterOrder<T(!new)>(s: seq<T>, p: T -> bool, i: int, j: int)
    requires 0 <= i < j < |Filter(s, p)|
    ensures exists a, b :: 0 <= a < b < |s| && s[a] == Filter(s, p)[i] && s[b] == Filter(s, p)[j]
  {
    var r := Filter(s, p);
    var init := s[..|s| - 1];
    var ri := Filter(init, p);
    assert s == init + [s[|s| - 1]];
    if j < |ri| {
      FilterOrder(init, p, i, j);
      var a, b :| 0 <= a < b < |init| && init[a] == ri[i] && init[b] == ri[j];
      assert s[a] == r[i] && s[b] == r[j];
    } else {
      assert r == ri + [s[|s| - 1]];
      assert ri[i] in init;
      var a :| 0 <= a < |init| && init[a] == ri[i];
      assert s[a] == r[i] && s[|s| - 1] == r[j];
    }
  }

  /** Every two elements of `s`, taken in order, are related by `rel`. */
  predicate Pairwise<T>(s: seq<T>, rel: (T, T) -> bool) {
    forall i, j :: 0 <= i < j < |s| ==> rel(s[i], s[j])
  }

  /** Dropping elements keeps a pairwise property, such as distinct keys. */
  lemma FilterPairwise<T(!new)>(s: seq<T>, p: T -> bool, rel: (T, T) -> bool)
    requires Pairwise(s, rel)
    ensures Pairwise(Filter(s, p), rel)
  {
    var r := Filter(s, p);
    forall i, j | 0 <= i < j < |r| ensures rel(r[i], r[j]) {
      FilterOrder(s, p, i, j);
    }
  }

  /** The first element of `s` satisfying `p`: what a query that reads
      only its first result row returns. */
  function FindFirst<T(!new)>(s: seq<T>, p: T -> bool): (r: Option<T>)
    ensures r.None? <==> forall x :: x in s ==> !p(x)
    ensures r.Some? ==> exists i :: 0 <= i < |s| && s[i] == r.value && p(s[i]) && forall j :: 0 <= j < i ==> !p(s[j])
  {
    if s == [] then None
    else if p(s[0]) then Some(s[0])
    else
      var r := FindFirst(s[1..], p);
      assert s == [s[0]] + s[1..];
      assert r.Some? ==> exists i :: 0 <= i < |s| && s[i] == r.value && p(s[i]) && forall j :: 0 <= j < i ==> !p(s[j]) by {
        if r.Some? {
          var i :| 0 <= i < |s[1..]| && s[1..][i] == r.value && p(s[1..][i]) && forall j :: 0 <= j < i ==> !p(s[1..][j]);
          assert s[i + 1] == r.value && forall j :: 0 <= j < i + 1 ==> !p(s[j]);
        }
      }
      r
  }

  /** The first match is the head of the matches. */
  lemma {:induction false} FindFirstIsFilterHead<T(!new)>(s: seq<T>, p: T -> bool)
    ensures FindFirst(s, p) == if Filter(s, p) == [] then None else Some(Filter(s, p)[0])
  {
    if s != [] {
      FilterAppend([s[0]], s[1..], p);
      assert [s[0]] + s[1..] == s;
      assert [s[0]][..0] == [];
      FindFirstIsFilterHead(s[1..], p);
    }
  }

  /** Adding an element at the end changes the first match only when
      nothing before it matched. */
  lemma {:induction false} FindFirstAppend<T(!new)>(s: seq<T>, x: T, p: T -> bool)
    ensures FindFirst(s + [x], p) == if FindFirst(s, p).Some? then FindFirst(s, p) else if p(x) then Some(x) else None
  {
    if s != [] {
      assert (s + [x])[1..] == s[1..] + [x];
      FindFirstAppend(s[1..], x, p);
    }
  }

  /** Filtering by a stronger test after a weaker one is filtering by the
      stronger test alone. */
  lemma {:induction false} FilterFilter<T(!new)>(s: seq<T>, p: T -> bool, q: T -> bool)
    requires forall x :: q(x) ==> p(x)
    ensures Filter(Filter(s, p), q) == Filter(s, q)
  {
    if s != [] {
      var init := s[..|s| - 1];
      FilterFilter(init, p, q);
      if p(s[|s| - 1]) {
        FilterAppend(Filter(init, p), [s[|s| - 1]], q);
        assert [s[|s| - 1]][..0] == [];
      }
    }
  }

  // ---------------------------------------------------------------------
  // Updating in place

  /** The sequence after every element satisfying `p` is replaced by its
      image under `f` (an SQL `UPDATE ... WHERE`). */
  function UpdateWhere<T>(s: seq<T>, p: T -> bool, f: T -> T): (r: seq<T>)
    ensures |r| == |s|
    ensures forall i :: 0 <= i < |s| ==> r[i] == (if p(s[i]) then f(s[i]) else s[i])
  {
    seq(|s|, i requires 0 <= i < |s| => if p(s[i]) then f(s[i]) else s[i])
  }

  /** An update that touches none of the elements a filter keeps, and
      never makes an element pass it, leaves the filtered sequence alone. */
  lemma {:induction false} FilterUpdateDisjoint<T(!new)>(s: seq<T>, p: T -> bool, f: T -> T, q: T -> bool)
    requires forall x :: p(x) ==> !q(x) && !q(f(x))
    ensures Filter(UpdateWhere(s, p, f), q) == Filter(s, q)
  {
    if s != [] {
      var u := UpdateWhere(s, p, f);
      assert u[..|u| - 1] == UpdateWhere(s[..|s| - 1], p, f);
      FilterUpdateDisjoint(s[..|s| - 1], p, f, q);
    }
  }

  /** An update that keeps whether elements satisfy `q` keeps where the
      first match is, and changes it only if `p` selected it. */
  lemma {:induction false} FindFirstUpdate<T(!new)>(s: seq<T>, p: T -> bool, f: T -> T, q: T -> bool)
    requires forall x :: q(f(x)) == q(x)
    ensures FindFirst(UpdateWhere(s, p, f), q)
            == match FindFirst(s, q)
               case None => None
               case Some(x) => Some(if p(x) then f(x) else x)
  {
    if s != [] {
      var u := UpdateWhere(s, p, f);
      assert u[1..] == UpdateWhere(s[1..], p, f);
      FindFirstUpdate(s[1..], p, f, q);
    }
  }

  /** A prefix one longer is the prefix plus the next element. */
  lemma TakeOneMore<T>(s: seq<T>, i: int)
    requires 0 <= i < |s|
    ensures s[..i + 1] == s[..i] + [s[i]]
  {
  }

  // ---------------------------------------------------------------------
  // Sorting by a comparator

  /** `le` is what a Java `Comparator` promises: total and transitive. */
  ghost predicate TotalPreorder<T(!new)>(le: (T, T) -> bool) {
    && (forall a, b :: le(a, b) || le(b, a))
    && (forall a, b, c :: le(a, b) && le(b, c) ==> le(a, c))
  }

  predicate SortedBy<T>(s: seq<T>, le: (T, T) -> bool) {
    forall i, j :: 0 <= i < j < |s| ==> le(s[i], s[j])
  }

  /** Places `x` after every element of `s` that is not strictly greater,
      so equal elements keep their order. */
  function InsertBy<T(!new)>(x: T, s: seq<T>, le: (T, T) -> bool): (r: seq<T>)
    requires TotalPreorder(le) && SortedBy(s, le)
    ensures SortedBy(r, le)
    ensures multiset(r) == multiset(s) + multiset{x}
    ensures |r| == |s| + 1
  {
    if s == [] then [x]
    else if le(x, s[0]) && !le(s[0], x) then [x] + s
    else
      var rest := InsertBy(x, s[1..], le);
      assert s == [s[0]] + s[1..];
      assert forall k :: 0 <= k < |rest| ==> le(s[0], rest[k]) by {
        forall k | 0 <= k < |rest| ensures le(s[0], rest[k]) {
          assert rest[k] in multiset(rest);
          assert rest[k] == x || rest[k] in multiset(s[1..]);
          if rest[k] != x {
            var j :| 0 <= j < |s[1..]| && s[1..][j] == rest[k];
            assert le(s[0], s[j + 1]);
          }
        }
      }
      [s[0]] + rest
  }

  /** `List.sort(comparator)`: an ordered rearrangement of the input. */
  function SortBy<T(!new)>(s: seq<T>, le: (T, T) -> bool): (r: seq<T>)
    requires TotalPreorder(le)
    ensures SortedBy(r, le)
    ensures multiset(r) == multiset(s)
    ensures |r| == |s|
  {
    if s == [] then []
    else
      assert s == s[..|s| - 1] + [s[|s| - 1]];
      InsertBy(s[|s| - 1], SortBy(s[..|s| - 1], le), le)
  }
}
