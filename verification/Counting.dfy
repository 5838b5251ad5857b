/** Counting the elements of a sequence that satisfy a predicate. */
module Counting {
  function Count<T(!new)>(s: seq<T>, p: T -> bool): nat {
    if s == [] then 0 else (if p(s[0]) then 1 else 0) + Count(s[1..], p)
  }

  lemma {:induction false} CountUpdate<T(!new)>(s: seq<T>, i: nat, x: T, p: T -> bool)
    requires i < |s|
    ensures Count(s[i := x], p) == Count(s, p) - (if p(s[i]) then 1 else 0) + (if p(x) then 1 else 0)
  {
    if i == 0 {
      assert s[i := x][1..] == s[1..];
    } else {
      assert s[i := x][1..] == s[1..][i - 1 := x];
      CountUpdate(s[1..], i - 1, x, p);
    }
  }

  lemma {:induction false} CountAppend<T(!new)>(s: seq<T>, x: T, p: T -> bool)
    ensures Count(s + [x], p) == Count(s, p) + (if p(x) then 1 else 0)
  {
    if s != [] {
      assert (s + [x])[1..] == s[1..] + [x];
      CountAppend(s[1..], x, p);
    }
  }

  lemma {:induction false} CountWithout<T(!new)>(s: seq<T>, i: nat, p: T -> bool)
    requires i < |s|
    ensures Count(s, p) == Count(s[..i] + s[i + 1..], p) + (if p(s[i]) then 1 else 0)
  {
    if i == 0 {
      assert s[..0] + s[1..] == s[1..];
    } else {
      assert (s[..i] + s[i + 1..])[1..] == s[1..][..i - 1] + s[1..][i..];
      CountWithout(s[1..], i - 1, p);
    }
  }

  lemma {:induction false} CountMonotone<T(!new)>(s: seq<T>, p: T -> bool, q: T -> bool)
    requires forall x :: x in s && p(x) ==> q(x)
    ensures Count(s, p) <= Count(s, q)
  {
    if s != [] { CountMonotone(s[1..], p, q); }
  }

  lemma {:induction false} CountAll<T(!new)>(s: seq<T>, p: T -> bool)
    ensures Count(s, p) <= |s|
    ensures Count(s, p) == |s| <==> forall x :: x in s ==> p(x)
    ensures Count(s, p) == 0 <==> forall x :: x in s ==> !p(x)
  {
    if s != [] {
      CountAll(s[1..], p);
      assert forall x :: x in s <==> x == s[0] || x in s[1..];
    }
  }
}
