/** Vocabulary shared by every module of the model. */
module Common {

  datatype Option<+T> = None | Some(value: T)

  /** A pointer to a GObject. An address may be used again after its object is destroyed. */
  datatype Obj = Ptr(address: nat)

  /** The null pointer; no live object has this address. */
  const NULL := Ptr(0)

  /** One more than the largest value of an unsigned 32-bit integer. */
  const TWO_32 := 0x1_0000_0000

  /** A number narrowed to an unsigned 32-bit integer. */
  function Wrap32(n: int): (r: nat)
    ensures r < TWO_32
    ensures 0 <= n < TWO_32 ==> r == n
    ensures TWO_32 <= n < 2 * TWO_32 ==> r == n - TWO_32
    ensures TWO_32 <= n ==> r <= n - TWO_32
  {
    n % TWO_32
  }

  function Min(a: int, b: int): (m: int)
    ensures m <= a && m <= b && (m == a || m == b)
  {
    if a < b then a else b
  }

  function Max(a: int, b: int): (m: int)
    ensures m >= a && m >= b && (m == a || m == b)
  {
    if a > b then a else b
  }

  /** No value occurs twice. */
  ghost predicate Distinct<T>(s: seq<T>) {
    forall i, j :: 0 <= i < j < |s| ==> s[i] != s[j]
  }

  /** `s` without its first occurrence of `x`: g_queue_remove and g_ptr_array_remove. */
  function RemoveFirst<T(==)>(s: seq<T>, x: T): (r: seq<T>)
    ensures multiset(r) == multiset(s) - multiset{x}
    ensures x !in s ==> r == s
  {
    if s == [] then []
    else
      assert s == [s[0]] + s[1..];
      if s[0] == x then s[1..] else [s[0]] + RemoveFirst(s[1..], x)
  }

  lemma {:induction false} RemoveFirstWithin<T>(s: seq<T>, x: T)
    ensures forall y :: y in RemoveFirst(s, x) ==> y in s
  {
    if s != [] {
      assert s == [s[0]] + s[1..];
      RemoveFirstWithin(s[1..], x);
    }
  }

  lemma {:induction false} RemoveFirstDistinct<T>(s: seq<T>, x: T)
    requires Distinct(s)
    ensures Distinct(RemoveFirst(s, x))
    ensures forall y :: y in RemoveFirst(s, x) <==> y in s && y != x
  {
    if s != [] {
      var rest := s[1..];
      assert forall i :: 0 <= i < |rest| ==> rest[i] == s[i + 1];
      if s[0] != x {
        RemoveFirstDistinct(rest, x);
        assert s[0] !in RemoveFirst(rest, x);
      }
    }
  }

  /** It takes out the one position where the value first occurs. */
  lemma {:induction false} RemoveFirstDrops<T>(s: seq<T>, i: nat)
    requires i < |s| && s[i] !in s[..i]
    ensures RemoveFirst(s, s[i]) == s[..i] + s[i + 1..]
  {
    if i > 0 {
      ConsSlices(s, i);
      RemoveFirstDrops(s[1..], i - 1);
    }
  }

  lemma ConsSlices<T>(s: seq<T>, i: nat)
    requires 0 < i < |s|
    ensures s[0] in s[..i] && s[1..][i - 1] == s[i]
    ensures forall x :: x in s[1..][..i - 1] ==> x in s[..i]
    ensures [s[0]] + (s[1..][..i - 1] + s[1..][i..]) == s[..i] + s[i + 1..]
  {
  }

  /** A sequence without repetitions drawn from a finite set is no longer than the set is large. */
  lemma {:induction false} DistinctWithin<T>(s: seq<T>, universe: set<T>)
    requires Distinct(s)
    requires forall x :: x in s ==> x in universe
    ensures |s| <= |universe|
  {
    if s != [] {
      var rest := s[1..];
      assert forall x :: x in rest ==> x in s && x != s[0];
      DistinctWithin(rest, universe - {s[0]});
    }
  }
}
