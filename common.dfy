/** Shared vocabulary of the inventory model: optional values, item kinds and
    helpers on duplicate-free sequences (the model of a .NET HashSet or a
    Dictionary's keys in iteration order). */
module Common {

  datatype Option<+T> = None | Some(value: T)

  /** A kind of item (the game's TechType enumeration); 0 is TechType.None. */
  type TechType = int

  const NoTechType: TechType := 0

  /** No element occurs twice: the shape of a HashSet enumerated in order. */
  predicate NoDup<T(==)>(s: seq<T>) {
    forall i, j :: 0 <= i < j < |s| ==> s[i] != s[j]
  }

  /** What `HashSet.Remove(x)` leaves: every other element, in the same order. */
  function Without<T(==)>(s: seq<T>, x: T): (r: seq<T>)
    ensures x !in s ==> r == s
    ensures |r| <= |s|
  {
    if s == [] then []
    else (if s[0] == x then [] else [s[0]]) + Without(s[1..], x)
  }

  /** Removal drops exactly the removed element. */
  lemma {:induction false} WithoutMembers<T>(s: seq<T>, x: T)
    ensures forall y :: y in Without(s, x) <==> y in s && y != x
  {
    if s != [] {
      WithoutMembers(s[1..], x);
      assert s == [s[0]] + s[1..];
    }
  }

  /** In a duplicate-free sequence an element occurs neither before nor after its own index. */
  lemma NoDupExcludes<T>(s: seq<T>, i: nat)
    requires NoDup(s) && i < |s|
    ensures s[i] !in s[..i] && s[i] !in s[i + 1..]
  {
    var pre, post := s[..i], s[i + 1..];
    forall k | 0 <= k < |pre| ensures pre[k] != s[i] { assert pre[k] == s[k]; }
    forall k | 0 <= k < |post| ensures post[k] != s[i] { assert post[k] == s[i + 1 + k]; }
  }

  /** Dropping the head keeps a set a set. */
  lemma NoDupTail<T>(s: seq<T>)
    requires NoDup(s) && s != []
    ensures NoDup(s[1..])
  {
    var rest := s[1..];
    forall i, j | 0 <= i < j < |rest| ensures rest[i] != rest[j] {
      assert rest[i] == s[i + 1] && rest[j] == s[j + 1];
    }
  }

  /** Removal works piecewise on a concatenation. */
  lemma {:induction false} WithoutConcat<T>(a: seq<T>, b: seq<T>, x: T)
    ensures Without(a + b, x) == Without(a, x) + Without(b, x)
    decreases |a|
  {
    if a == [] {
      assert a + b == b;
    } else {
      assert (a + b)[0] == a[0];
      assert (a + b)[1..] == a[1..] + b;
      WithoutConcat(a[1..], b, x);
    }
  }

  /** Removing an element from a duplicate-free sequence closes the gap it leaves. */
  lemma {:induction false} WithoutAt<T>(s: seq<T>, i: nat)
    requires NoDup(s) && i < |s|
    ensures Without(s, s[i]) == s[..i] + s[i + 1..]
  {
    NoDupExcludes(s, i);
    assert s == s[..i] + [s[i]] + s[i + 1..];
    WithoutGap(s[..i], s[i], s[i + 1..]);
  }

  /** Removing the only occurrence of an element closes the gap it leaves. */
  lemma {:induction false} WithoutGap<T>(pre: seq<T>, x: T, post: seq<T>)
    requires x !in pre && x !in post
    ensures Without(pre + [x] + post, x) == pre + post
  {
    var t := [x] + post;
    assert pre + [x] + post == pre + t;
    assert Without(t, x) == post by {
      assert t[0] == x && t[1..] == post;
    }
    WithoutConcat(pre, t, x);
  }

  /** Removal keeps a set a set. */
  lemma {:induction false} WithoutNoDup<T>(s: seq<T>, x: T)
    requires NoDup(s)
    ensures NoDup(Without(s, x))
  {
    if s != [] {
      NoDupTail(s);
      WithoutNoDup(s[1..], x);
      var tail := Without(s[1..], x);
      var r := (if s[0] == x then [] else [s[0]]) + tail;
      WithoutMembers(s[1..], x);
      assert s[0] !in tail by {
        assert s[0] !in s[1..];
      }
      forall i, j | 0 <= i < j < |r| ensures r[i] != r[j] {
        if s[0] != x && i == 0 {
          assert r[j] in tail;
        }
      }
    }
  }

  /** Appending a new element keeps a set a set. */
  lemma AppendNoDup<T>(s: seq<T>, x: T)
    requires NoDup(s) && x !in s
    ensures NoDup(s + [x])
  {
  }

  /** The index of the first element satisfying `p`, the shape of every
      first-match scan (`Find`, `FirstOrDefault`, a loop with an early return). */
  function FirstIndex<T>(s: seq<T>, p: T -> bool): (r: Option<nat>)
    ensures r.Some? ==> r.value < |s| && p(s[r.value]) && forall j :: 0 <= j < r.value ==> !p(s[j])
    ensures r.None? <==> forall j :: 0 <= j < |s| ==> !p(s[j])
  {
    if s == [] then None
    else if p(s[0]) then Some(0)
    else match FirstIndex(s[1..], p)
      case None => None
      case Some(k) => Some(k + 1)
  }

  /** The element a first-match scan finds, if any. */
  function FirstWhere<T>(s: seq<T>, p: T -> bool): (r: Option<T>)
    ensures r.Some? ==> r.value in s && p(r.value)
    ensures r.Some? ==> exists k :: 0 <= k < |s| && s[k] == r.value && forall j :: 0 <= j < k ==> !p(s[j])
    ensures r.None? <==> forall j :: 0 <= j < |s| ==> !p(s[j])
  {
    match FirstIndex(s, p)
    case None => None
    case Some(k) => Some(s[k])
  }
}
