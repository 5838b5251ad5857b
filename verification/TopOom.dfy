/** The n highest OOM scores, kept in a small fixed array while `/proc` is read. */
module TopOom {
  datatype Entry = Entry(score: int, pid: int, comm: string)

  const CAPACITY: nat := 16

  // --- The stable descending sort, independent of the array ---

  predicate Descending(s: seq<Entry>) {
    forall i :: 0 < i < |s| ==> s[i - 1].score >= s[i].score
  }

  lemma {:induction false} DescendingPairwise(s: seq<Entry>, i: nat, j: nat)
    requires Descending(s) && i <= j < |s|
    ensures s[i].score >= s[j].score
    decreases j - i
  {
    if i < j { DescendingPairwise(s, i, j - 1); }
  }

  /** Puts `x` behind everything with at least its score. */
  function InsertBehind(s: seq<Entry>, x: Entry): seq<Entry> {
    if s == [] || s[|s| - 1].score >= x.score then s + [x]
    else InsertBehind(s[..|s| - 1], x) + [s[|s| - 1]]
  }

  function Ranked(stream: seq<Entry>): seq<Entry> {
    if stream == [] then [] else InsertBehind(Ranked(stream[..|stream| - 1]), stream[|stream| - 1])
  }

  function WithScore(s: seq<Entry>, score: int): seq<Entry> {
    if s == [] then []
    else WithScore(s[..|s| - 1], score) + if s[|s| - 1].score == score then [s[|s| - 1]] else []
  }

  lemma {:induction false} InsertPermutes(s: seq<Entry>, x: Entry)
    ensures |InsertBehind(s, x)| == |s| + 1
    ensures multiset(InsertBehind(s, x)) == multiset(s) + multiset{x}
    ensures forall e :: e in InsertBehind(s, x) <==> e in s || e == x
  {
    if s != [] && s[|s| - 1].score < x.score {
      var front := s[..|s| - 1];
      assert s == front + [s[|s| - 1]];
      InsertPermutes(front, x);
    }
  }

  lemma {:induction false} InsertDescends(s: seq<Entry>, x: Entry)
    requires Descending(s)
    ensures Descending(InsertBehind(s, x))
  {
    if s != [] && s[|s| - 1].score < x.score {
      var front, last := s[..|s| - 1], s[|s| - 1];
      InsertDescends(front, x);
      InsertPermutes(front, x);
      var shorter := InsertBehind(front, x);
      assert shorter[|shorter| - 1]
          == if front == [] || front[|front| - 1].score >= x.score then x else front[|front| - 1];
    }
  }

  lemma WithScoreLast(s: seq<Entry>, x: Entry, score: int)
    ensures WithScore(s + [x], score) == WithScore(s, score) + if x.score == score then [x] else []
  {
    assert (s + [x])[..|s|] == s;
  }

  /** Moving an entry past one with another score does not change the order within a score. */
  lemma PassingKeepsOrder(front: seq<Entry>, last: Entry, x: Entry, moved: seq<Entry>, score: int)
    requires last.score != x.score
    requires WithScore(moved, score) == WithScore(front, score) + if x.score == score then [x] else []
    ensures WithScore(moved + [last], score)
         == WithScore(front + [last], score) + if x.score == score then [x] else []
  {
    WithScoreLast(front, last, score);
    WithScoreLast(moved, last, score);
  }

  lemma {:induction false} InsertKeepsOrder(s: seq<Entry>, x: Entry, score: int)
    requires Descending(s)
    ensures WithScore(InsertBehind(s, x), score) == WithScore(s, score) + if x.score == score then [x] else []
  {
    if s == [] || s[|s| - 1].score >= x.score {
      WithScoreLast(s, x, score);
    } else {
      var front, last := s[..|s| - 1], s[|s| - 1];
      assert s == front + [last];
      InsertKeepsOrder(front, x, score);
      PassingKeepsOrder(front, last, x, InsertBehind(front, x), score);
    }
  }

  /** `Ranked` is the stable descending sort: a permutation, in descending order, and entries with equal
      scores keep the order of the stream. */
  lemma {:induction false} RankedIsStableSort(stream: seq<Entry>)
    ensures Descending(Ranked(stream))
    ensures multiset(Ranked(stream)) == multiset(stream) && |Ranked(stream)| == |stream|
    ensures forall score :: WithScore(Ranked(stream), score) == WithScore(stream, score)
  {
    if stream != [] {
      var front, x := stream[..|stream| - 1], stream[|stream| - 1];
      assert stream == front + [x];
      RankedIsStableSort(front);
      InsertPermutes(Ranked(front), x);
      InsertDescends(Ranked(front), x);
      forall score ensures WithScore(Ranked(stream), score) == WithScore(stream, score) {
        InsertKeepsOrder(Ranked(front), x, score);
        assert WithScore(front, score) == WithScore(Ranked(front), score);
      }
    }
  }

  lemma {:induction false} SameEmptiness(a: seq<Entry>, b: seq<Entry>)
    requires forall score :: WithScore(a, score) == WithScore(b, score)
    ensures a == [] <==> b == []
  {
    if a != [] { assert WithScore(a, a[|a| - 1].score) != []; }
    if b != [] { assert WithScore(b, b[|b| - 1].score) != []; }
  }

  lemma {:induction false} SameLast(a: seq<Entry>, b: seq<Entry>)
    requires a != [] && b != [] && Descending(a) && Descending(b)
    requires forall score :: WithScore(a, score) == WithScore(b, score)
    ensures a[|a| - 1] == b[|b| - 1]
  {
    LowestIsLast(a, b);
    LowestIsLast(b, a);
    var score := a[|a| - 1].score;
    assert WithScore(a, score)[|WithScore(a, score)| - 1] == a[|a| - 1];
    assert WithScore(b, score)[|WithScore(b, score)| - 1] == b[|b| - 1];
  }

  lemma FrontsAgree(a: seq<Entry>, b: seq<Entry>, x: Entry, score: int)
    requires WithScore(a + [x], score) == WithScore(b + [x], score)
    ensures WithScore(a, score) == WithScore(b, score)
  {
    WithScoreLast(a, x, score);
    WithScoreLast(b, x, score);
    SameTail(WithScore(a, score), WithScore(b, score), if x.score == score then [x] else []);
  }

  ghost predicate SameByScore(a: seq<Entry>, b: seq<Entry>) {
    forall score :: WithScore(a, score) == WithScore(b, score)
  }

  lemma FrontsAgreeByScore(a: seq<Entry>, b: seq<Entry>, x: Entry)
    requires SameByScore(a + [x], b + [x])
    ensures SameByScore(a, b)
  {
    forall score ensures WithScore(a, score) == WithScore(b, score) {
      assert WithScore(a + [x], score) == WithScore(b + [x], score);
      FrontsAgree(a, b, x, score);
    }
  }

  lemma DescendingFront(s: seq<Entry>, x: Entry)
    requires Descending(s + [x])
    ensures Descending(s)
  {
    forall i | 0 < i < |s| ensures s[i - 1].score >= s[i].score {
      assert (s + [x])[i - 1].score >= (s + [x])[i].score;
    }
  }

  lemma {:induction false} SameBackwards(a: seq<Entry>, b: seq<Entry>)
    requires Descending(a) && Descending(b) && SameByScore(a, b)
    ensures a == b
    decreases |a|
  {
    SameEmptiness(a, b);
    if a != [] {
      SameLast(a, b);
      var aFront, bFront, x := a[..|a| - 1], b[..|b| - 1], a[|a| - 1];
      assert a == aFront + [x] && b == bFront + [x];
      FrontsAgreeByScore(aFront, bFront, x);
      DescendingFront(aFront, x);
      DescendingFront(bFront, x);
      SameBackwards(aFront, bFront);
    }
  }

  /** Those three properties leave no choice. */
  lemma {:induction false} StableSortIsUnique(a: seq<Entry>, b: seq<Entry>)
    requires Descending(a) && Descending(b)
    requires forall score :: WithScore(a, score) == WithScore(b, score)
    ensures a == b
  {
    SameBackwards(a, b);
  }

  lemma SameTail(a: seq<Entry>, b: seq<Entry>, tail: seq<Entry>)
    requires a + tail == b + tail
    ensures a == b
  {
    assert |a| == |b|;
    assert a == (a + tail)[..|a|] && b == (b + tail)[..|b|];
  }

  lemma {:induction false} InSomeScore(s: seq<Entry>, score: int)
    requires WithScore(s, score) != []
    ensures exists i :: 0 <= i < |s| && s[i].score == score
  {
    if s[|s| - 1].score != score {
      InSomeScore(s[..|s| - 1], score);
    }
  }

  lemma {:induction false} LowestIsLast(a: seq<Entry>, b: seq<Entry>)
    requires a != [] && b != [] && Descending(a) && Descending(b)
    requires forall score :: WithScore(a, score) == WithScore(b, score)
    ensures a[|a| - 1].score >= b[|b| - 1].score
  {
    assert WithScore(a, a[|a| - 1].score) != [];
    InSomeScore(b, a[|a| - 1].score);
    var i :| 0 <= i < |b| && b[i].score == a[|a| - 1].score;
    DescendingPairwise(b, i, |b| - 1);
  }

  // --- Truncation ---

  function Min(a: nat, b: nat): nat { if a < b then a else b }

  function Top(s: seq<Entry>, n: nat): seq<Entry> { s[..Min(n, |s|)] }

  lemma {:induction false} InsertLength(s: seq<Entry>, x: Entry)
    ensures |InsertBehind(s, x)| == |s| + 1
  {
    if s != [] && s[|s| - 1].score < x.score { InsertLength(s[..|s| - 1], x); }
  }

  /** Cutting off the low end before inserting changes nothing in the first `n`. */
  lemma {:induction false} TopOfInsert(s: seq<Entry>, x: Entry, n: nat)
    requires Descending(s)
    ensures Top(InsertBehind(s, x), n) == Top(InsertBehind(Top(s, n), x), n)
    ensures |s| >= n > 0 && x.score <= s[n - 1].score ==> Top(InsertBehind(s, x), n) == Top(s, n)
  {
    InsertLength(s, x);
    if |s| > n {
      var front, last := s[..|s| - 1], s[|s| - 1];
      TopOfInsert(front, x, n);
      assert Top(s, n) == Top(front, n);
      InsertLength(front, x);
      if last.score >= x.score {
        InsertAtEnd(front, x);
        assert Top(InsertBehind(s, x), n) == Top(s, n);
      } else {
        assert Top(InsertBehind(s, x), n) == Top(InsertBehind(front, x), n);
      }
    } else {
      assert Top(s, n) == s;
    }
  }

  lemma {:induction false} InsertAtEnd(s: seq<Entry>, x: Entry)
    requires Descending(s)
    ensures s != [] && s[|s| - 1].score >= x.score ==> InsertBehind(s, x) == s + [x]
  {
  }

  // --- The array ---

  lemma {:induction false} InsertAtGap(s: seq<Entry>, x: Entry, i: nat)
    requires Descending(s) && i <= |s|
    requires i > 0 ==> s[i - 1].score >= x.score
    requires forall j :: i <= j < |s| ==> s[j].score < x.score
    ensures InsertBehind(s, x) == s[..i] + [x] + s[i..]
  {
    if i == |s| {
      assert s[..i] == s && s[i..] == [];
    } else {
      var front, last := s[..|s| - 1], s[|s| - 1];
      InsertAtGap(front, x, i);
      GapKept(s, x, i);
    }
  }

  lemma GapKept(s: seq<Entry>, x: Entry, i: nat)
    requires i < |s|
    ensures var front, last := s[..|s| - 1], s[|s| - 1];
            (front[..i] + [x] + front[i..]) + [last] == s[..i] + [x] + s[i..]
  {
  }

  /** `e` stands at `i` among the entries of `base`, ahead of all lower ones it has passed. */
  ghost predicate Bubbling(s: seq<Entry>, base: seq<Entry>, e: Entry, i: nat) {
    && i < |s| == |base| + 1
    && s == base[..i] + [e] + base[i..]
    && forall j :: i <= j < |base| ==> base[j].score < e.score
  }

  lemma BubbleStep(s: seq<Entry>, base: seq<Entry>, e: Entry, i: nat)
    requires Bubbling(s, base, e, i) && i > 0 && e.score > base[i - 1].score
    ensures s[i] == e && s[i - 1] == base[i - 1]
    ensures Bubbling(s[i := s[i - 1]][i - 1 := s[i]], base, e, i - 1)
  {
    var t := s[i := s[i - 1]][i - 1 := s[i]];
    assert t == base[..i - 1] + [e] + base[i - 1..];
  }

  /** The bubble-up loop: the last of `size` entries moves up while it is strictly higher. */
  method BubbleUp(top: array<Entry>, size: nat)
    requires 1 <= size <= top.Length && Descending(top[..size - 1])
    modifies top
    ensures top[..size] == InsertBehind(old(top[..size - 1]), old(top[size - 1]))
  {
    ghost var base, e := top[..size - 1], top[size - 1];
    assert top[..size] == base[..size - 1] + [e] + base[size - 1..];
    var i := size - 1;
    while i > 0 && top[i].score > top[i - 1].score
      invariant 0 <= i < size && Bubbling(top[..size], base, e, i)
    {
      ghost var before := top[..size];
      assert before[i] == e && before[i - 1] == base[i - 1];
      BubbleStep(before, base, e, i);
      top[i], top[i - 1] := top[i - 1], top[i];
      assert top[..size] == before[i := before[i - 1]][i - 1 := before[i]];
      i := i - 1;
    }
    assert top[..size][i] == e && (i > 0 ==> top[..size][i - 1] == base[i - 1]);
    InsertAtGap(base, e, i);
  }

  /** What is left of the first `n` once there is room for one more. */
  function RoomFor(before: seq<Entry>, n: nat): seq<Entry>
    requires |before| <= n && 1 <= n
  {
    if |before| < n then before else before[..n - 1]
  }

  lemma EntryPlaced(before: seq<Entry>, e: Entry, n: nat)
    requires Descending(before) && |before| <= n && 1 <= n
    requires |before| < n || e.score > before[n - 1].score
    ensures var base := RoomFor(before, n);
            && Descending(base) && Descending(InsertBehind(base, e))
            && Top(InsertBehind(before, e), n) == InsertBehind(base, e)
  {
    InsertLength(before, e);
    InsertDescends(RoomFor(before, n), e);
    InsertLength(RoomFor(before, n), e);
  }

  lemma EntryDropped(before: seq<Entry>, e: Entry, n: nat)
    requires Descending(before) && |before| == n && 1 <= n && e.score <= before[n - 1].score
    ensures Top(InsertBehind(before, e), n) == before
  {
  }

  /** The insertion of one process: append or overwrite the last, then bubble up. */
  method InsertEntry(top: array<Entry>, count: nat, n: nat, e: Entry) returns (newCount: nat)
    requires count <= n <= top.Length && 1 <= n && Descending(top[..count])
    modifies top
    ensures newCount <= n && Descending(top[..newCount])
    ensures top[..newCount] == Top(InsertBehind(old(top[..count]), e), n)
  {
    ghost var before := top[..count];
    newCount := count;
    if count < n || e.score > top[count - 1].score {
      EntryPlaced(before, e, n);
      var i := n - 1;
      if count < n {
        i := count;
        newCount := count + 1;
      }
      top[i] := e;
      assert top[..newCount - 1] == RoomFor(before, n);
      BubbleUp(top, newCount);
    } else {
      EntryDropped(before, e, n);
    }
  }

  predicate IsScored(e: Entry) { e.pid > 0 && e.score > 0 }

  /** Processes without a positive score are skipped. */
  function Scored(procs: seq<Entry>): seq<Entry> {
    if procs == [] then []
    else Scored(procs[..|procs| - 1]) + if IsScored(procs[|procs| - 1]) then [procs[|procs| - 1]] else []
  }

  /** Every process counts on its own: it is kept, in its place, when its pid and its score are positive. */
  lemma {:induction false} ScoredSplit(a: seq<Entry>, b: seq<Entry>)
    ensures Scored(a + b) == Scored(a) + Scored(b)
    ensures |b| == 1 ==> Scored(b) == if b[0].pid > 0 && b[0].score > 0 then b else []
  {
    if b == [] {
      assert a + b == a;
    } else {
      assert (a + b)[..|a + b| - 1] == a + b[..|b| - 1];
      ScoredSplit(a, b[..|b| - 1]);
      assert |b| == 1 ==> b[..0] == [] && b == [b[0]];
    }
  }

  lemma {:induction false} ScoredStep(procs: seq<Entry>, k: nat)
    requires k < |procs|
    ensures Scored(procs[..k + 1]) == Scored(procs[..k]) + if IsScored(procs[k]) then [procs[k]] else []
  {
    assert procs[..k + 1][..k] == procs[..k];
  }

  lemma {:induction false} RankedStep(stream: seq<Entry>, x: Entry, n: nat)
    ensures Descending(Ranked(stream))
    ensures Top(Ranked(stream + [x]), n) == Top(InsertBehind(Top(Ranked(stream), n), x), n)
  {
    assert (stream + [x])[..|stream|] == stream;
    RankedIsStableSort(stream);
    TopOfInsert(Ranked(stream), x, n);
  }

  /** What is printed: the first n, at most sixteen, of the stable descending sort of everything scored. */
  method ShowTopOom(procs: seq<Entry>, n: nat) returns (printed: seq<Entry>)
    requires n >= 1
    ensures var all := Ranked(Scored(procs));
            var most := if n > 16 then 16 else n;
            printed == if |all| < most then all else all[..most]
  {
    var limit := if n > CAPACITY then CAPACITY else n;
    var top := new Entry[CAPACITY](_ => Entry(0, 0, ""));
    var count: nat := 0;
    for k := 0 to |procs|
      invariant count <= limit <= top.Length && Descending(top[..count])
      invariant top[..count] == Top(Ranked(Scored(procs[..k])), limit)
    {
      ghost var stream := Scored(procs[..k]);
      ScoredStep(procs, k);
      RankedStep(stream, procs[k], limit);
      if IsScored(procs[k]) {
        count := InsertEntry(top, count, limit, procs[k]);
      } else {
        assert Scored(procs[..k + 1]) == stream;
      }
    }
    assert procs[..|procs|] == procs;
    printed := top[..count];
  }
}
