/**
 * A JavaScript `Set` as the server uses it: a collection without duplicates
 * whose iteration order is insertion order. It is represented by a sequence
 * with no repeated element; `Add` and `Delete` are `Set.prototype.add` and
 * `Set.prototype.delete`.
 */
module OrderedSets {

  /** No element occurs twice. */
  ghost predicate NoDup<T>(s: seq<T>) {
    forall i, j :: 0 <= i < j < |s| ==> s[i] != s[j]
  }

  /** The elements of `s`, forgetting order. */
  ghost function Elems<T>(s: seq<T>): set<T> {
    set x | x in s
  }

  /** `set.add(x)`: a new element goes last; an element already present keeps its place. */
  function Add<T(==)>(s: seq<T>, x: T): (r: seq<T>)
    ensures x in r
    ensures x in s ==> r == s
    ensures x !in s ==> |r| == |s| + 1 && r[|s|] == x
  {
    if x in s then s else s + [x]
  }

  /** What `Add` keeps: every old element in its place, and no duplicate. */
  lemma AddContents<T>(s: seq<T>, x: T)
    ensures forall y :: y in Add(s, x) <==> y in s || y == x
    ensures |s| <= |Add(s, x)| && Add(s, x)[..|s|] == s
    ensures NoDup(s) ==> NoDup(Add(s, x))
  {
    if x !in s {
      assert Add(s, x) == s + [x];
    }
  }

  /** `set.delete(x)`: removes `x` if present, keeping the order of the rest. */
  function Delete<T(==)>(s: seq<T>, x: T): (r: seq<T>)
    ensures x !in r && |r| <= |s|
    ensures x !in s ==> r == s
  {
    if s == [] then []
    else if s[0] == x then Delete(s[1..], x)
    else [s[0]] + Delete(s[1..], x)
  }

  /** What `Delete` keeps: every other element, and no duplicate; one element fewer when `x` was there. */
  lemma {:induction false} DeleteContents<T>(s: seq<T>, x: T)
    ensures forall y :: y in Delete(s, x) <==> y in s && y != x
    ensures NoDup(s) ==> NoDup(Delete(s, x)) && |Delete(s, x)| == (if x in s then |s| - 1 else |s|)
  {
    if s != [] {
      DeleteContents(s[1..], x);
      if s[0] != x {
        PrependNoDup(s[0], Delete(s[1..], x));
      } else if NoDup(s) {
        assert x !in s[1..];
      }
    }
  }

  /** `set.delete(x)` keeps the other elements in their insertion order: deleting the one `x` closes the gap. */
  lemma {:induction false} DeleteKeepsOrder<T>(a: seq<T>, x: T, b: seq<T>)
    requires x !in a && x !in b
    ensures Delete(a + [x] + b, x) == a + b
  {
    if a == [] {
      assert a + [x] + b == [x] + b;
      assert ([x] + b)[1..] == b;
    } else {
      DeleteKeepsOrder(a[1..], x, b);
      assert (a + [x] + b)[1..] == a[1..] + [x] + b;
      assert a + b == [a[0]] + (a[1..] + b);
    }
  }

  /** Putting an absent element in front keeps a sequence duplicate-free. */
  lemma PrependNoDup<T>(x: T, s: seq<T>)
    ensures NoDup(s) && x !in s ==> NoDup([x] + s)
  {
    if NoDup(s) && x !in s {
      forall i, j | 0 <= i < j < |[x] + s| ensures ([x] + s)[i] != ([x] + s)[j] {
        assert ([x] + s)[j] == s[j - 1];
      }
    }
  }

  /** A duplicate-free sequence has as many elements as its set: the `size` of the `Set`. */
  lemma {:induction false} DistinctCard<T>(s: seq<T>)
    requires NoDup(s)
    ensures |Elems(s)| == |s|
  {
    if s != [] {
      DistinctCard(s[1..]);
      assert Elems(s) == Elems(s[1..]) + {s[0]};
      assert s[0] !in Elems(s[1..]);
    }
  }
}
