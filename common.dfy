/** Generic helpers shared by the model: an Option type, an order-preserving
    filter-and-map over sequences (the shape of a SQL `WHERE` plus projection and
    of JavaScript's `Array.prototype.filter`), and an insertion sort by a total
    comparison (the shape of a SQL `ORDER BY`). */
module Common {

  datatype Option<+T> = None | Some(value: T)

  /** Keeps, in order, the image of every element that `f` maps to `Some`. */
  function Collect<T, U>(s: seq<T>, f: T -> Option<U>): (r: seq<U>)
    ensures |r| <= |s|
    decreases |s|
  {
    if s == [] then []
    else
      var init := Collect(s[..|s| - 1], f);
      match f(s[|s| - 1])
      case Some(y) => init + [y]
      case None => init
  }

  /** The positions of `s` that `f` maps to `Some`, in increasing order. */
  function Hits<T, U>(s: seq<T>, f: T -> Option<U>): seq<nat>
    decreases |s|
  {
    if s == [] then []
    else
      var init := Hits(s[..|s| - 1], f);
      if f(s[|s| - 1]).Some? then init + [|s| - 1] else init
  }

  /** Appending one element extends the collected sequence by at most that element's image. */
  lemma CollectSnoc<T, U>(s: seq<T>, x: T, f: T -> Option<U>)
    ensures Collect(s + [x], f) == Collect(s, f) + (if f(x).Some? then [f(x).value] else [])
  {
    assert (s + [x])[..|s|] == s;
  }

  /** An element is collected exactly when some element of the input maps to it. */
  lemma {:induction false} CollectMember<T, U>(s: seq<T>, f: T -> Option<U>, y: U)
    ensures y in Collect(s, f) <==> exists x :: x in s && f(x) == Some(y)
    decreases |s|
  {
    if s != [] {
      var init := s[..|s| - 1];
      assert s == init + [s[|s| - 1]];
      CollectMember(init, f, y);
      if exists x :: x in s && f(x) == Some(y) {
        var x :| x in s && f(x) == Some(y);
        if x != s[|s| - 1] {
          assert x in init;
        }
      }
    }
  }

  /** Collect keeps exactly the hit positions, one output per hit, in input order. */
  lemma {:induction false} CollectHits<T, U>(s: seq<T>, f: T -> Option<U>)
    ensures |Hits(s, f)| == |Collect(s, f)|
    ensures forall k :: 0 <= k < |Hits(s, f)| ==>
      Hits(s, f)[k] < |s| && f(s[Hits(s, f)[k]]) == Some(Collect(s, f)[k])
    ensures forall k, l :: 0 <= k < l < |Hits(s, f)| ==> Hits(s, f)[k] < Hits(s, f)[l]
    ensures forall i :: 0 <= i < |s| ==> (i in Hits(s, f) <==> f(s[i]).Some?)
    decreases |s|
  {
    if s != [] {
      var init := s[..|s| - 1];
      CollectHits(init, f);
      assert forall i :: 0 <= i < |init| ==> s[i] == init[i];
    }
  }

  /** Position of the first element satisfying `p`, if any. */
  function FirstIndex<T>(s: seq<T>, p: T -> bool): (r: Option<nat>)
    ensures r.None? <==> forall i :: 0 <= i < |s| ==> !p(s[i])
    ensures r.Some? ==> r.value < |s| && p(s[r.value])
    ensures r.Some? ==> forall j :: 0 <= j < r.value ==> !p(s[j])
    decreases |s|
  {
    if s == [] then None
    else if p(s[0]) then Some(0)
    else
      match FirstIndex(s[1..], p)
      case None => None
      case Some(i) => Some(i + 1)
  }

  ghost predicate Total<T(!new)>(le: (T, T) -> bool)
  {
    forall a, b :: le(a, b) || le(b, a)
  }

  ghost predicate Transitive<T(!new)>(le: (T, T) -> bool)
  {
    forall a, b, c :: le(a, b) && le(b, c) ==> le(a, c)
  }

  /** Every neighbouring pair is in order. */
  predicate Sorted<T>(s: seq<T>, le: (T, T) -> bool)
  {
    forall i :: 0 < i < |s| ==> le(s[i - 1], s[i])
  }

  /** Inserts `x` before the first element it may precede. */
  function Insert<T(!new)>(x: T, s: seq<T>, le: (T, T) -> bool): (r: seq<T>)
    requires Total(le)
    requires Sorted(s, le)
    ensures multiset(r) == multiset(s) + multiset{x}
    ensures |r| == |s| + 1
    ensures r[0] == x || (s != [] && r[0] == s[0])
    ensures Sorted(r, le)
    decreases |s|
  {
    if s == [] then [x]
    else if le(x, s[0]) then [x] + s
    else
      var tail := Insert(x, s[1..], le);
      assert s == [s[0]] + s[1..];
      [s[0]] + tail
  }

  /** Insertion sort: a permutation of the input whose neighbours are in order. */
  function SortBy<T(!new)>(s: seq<T>, le: (T, T) -> bool): (r: seq<T>)
    requires Total(le)
    ensures multiset(r) == multiset(s)
    ensures Sorted(r, le)
    decreases |s|
  {
    if s == [] then []
    else
      assert s == [s[0]] + s[1..];
      Insert(s[0], SortBy(s[1..], le), le)
  }

  /** For a transitive comparison, neighbour order gives order between any two positions. */
  lemma {:induction false} SortedEverywhere<T(!new)>(s: seq<T>, le: (T, T) -> bool)
    requires Transitive(le)
    requires Sorted(s, le)
    ensures forall i, j :: 0 <= i < j < |s| ==> le(s[i], s[j])
    decreases |s|
  {
    if |s| > 1 {
      var init := s[..|s| - 1];
      assert Sorted(init, le);
      SortedEverywhere(init, le);
      forall i, j | 0 <= i < j < |s|
        ensures le(s[i], s[j])
      {
        if j < |s| - 1 {
          assert s[i] == init[i] && s[j] == init[j];
        } else if i < j - 1 {
          assert le(init[i], init[j - 1]);
        }
      }
    }
  }
}
