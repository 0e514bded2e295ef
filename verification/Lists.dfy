/** Lists the way the source edits them: first occurrence out, order kept. */
module Lists {

  /** The list without the first occurrence of x, or the list itself. */
  function RemoveFirst<T(==)>(s: seq<T>, x: T): seq<T> {
    if s == [] then []
    else if s[0] == x then s[1..]
    else [s[0]] + RemoveFirst(s[1..], x)
  }

  /** One occurrence of x goes, if there is one; every other element keeps its number. */
  lemma {:induction false} RemoveFirstCount<T>(s: seq<T>, x: T, y: T)
    ensures multiset(s)[y] == multiset(RemoveFirst(s, x))[y] + if y == x && x in s then 1 else 0
  {
    if s == [] {
    } else {
      assert s == [s[0]] + s[1..];
      assert multiset(s)[y] == multiset(s[1..])[y] + if s[0] == y then 1 else 0;
      if s[0] != x {
        RemoveFirstCount(s[1..], x, y);
        assert x in s <==> x in s[1..];
      }
    }
  }

  lemma AppendAssociates<T>(a: seq<T>, b: seq<T>, c: seq<T>)
    ensures (a + b) + c == a + (b + c)
  {
  }

  lemma CutJoins<T>(s: seq<T>, n: nat)
    requires n <= |s|
    ensures s[..n] + s[n..] == s
  {
  }

  lemma AppendCount<T>(s: seq<T>, x: T, y: T)
    ensures multiset(s + [x])[y] == multiset(s)[y] + if x == y then 1 else 0
  {
    assert multiset(s + [x]) == multiset(s) + multiset{x};
  }

  /** Cutting at an index whose element is the first of its kind is RemoveFirst. */
  lemma {:induction false} CutAtFirst<T>(s: seq<T>, i: nat)
    requires i < |s| && s[i] !in s[..i]
    ensures RemoveFirst(s, s[i]) == s[..i] + s[i + 1..]
  {
    if i == 0 {
    } else {
      assert s[0] == s[..i][0];
      assert s[1..][..i - 1] == s[..i][1..];
      CutAtFirst(s[1..], i - 1);
      assert s[..i] + s[i + 1..] == [s[0]] + (s[1..][..i - 1] + s[1..][i..]);
    }
  }

  lemma {:induction false} RemoveAbsent<T>(s: seq<T>, x: T)
    requires x !in s
    ensures RemoveFirst(s, x) == s
  {
    if s == [] {
    } else {
      RemoveAbsent(s[1..], x);
    }
  }

  /** The source's removal loop: find the element, cut it out, stop. */
  method CutFirst<T(==)>(s: seq<T>, x: T) returns (r: seq<T>)
    ensures r == RemoveFirst(s, x)
  {
    for i := 0 to |s|
      invariant x !in s[..i]
    {
      if s[i] == x {
        CutAtFirst(s, i);
        return s[..i] + s[i + 1..];
      }
    }
    RemoveAbsent(s, x);
    return s;
  }

  ghost predicate Distinct<T>(s: seq<T>) {
    forall x :: x in s ==> multiset(s)[x] == 1
  }

  /** All elements of a list of lists. */
  ghost function Flatten<T>(s: seq<seq<T>>): multiset<T> {
    if s == [] then multiset{} else multiset(s[0]) + Flatten(s[1..])
  }

  lemma {:induction false} FlattenAppend<T>(s: seq<seq<T>>, x: seq<T>)
    ensures Flatten(s + [x]) == Flatten(s) + multiset(x)
  {
    if s == [] {
      assert s + [x] == [x];
    } else {
      FlattenAppend(s[1..], x);
      assert (s + [x])[1..] == s[1..] + [x];
    }
  }

  /** Taking the head off one of the lists takes one occurrence out of the whole. */
  lemma {:induction false} FlattenPop<T>(s: seq<seq<T>>, i: nat)
    requires i < |s| && s[i] != []
    ensures Flatten(s) == Flatten(s[i := s[i][1..]]) + multiset{s[i][0]}
  {
    if i == 0 {
      assert s[0] == [s[0][0]] + s[0][1..];
      assert s[0 := s[0][1..]][1..] == s[1..];
    } else {
      FlattenPop(s[1..], i - 1);
      assert s[i := s[i][1..]][1..] == s[1..][i - 1 := s[1..][i - 1][1..]];
    }
  }
}
