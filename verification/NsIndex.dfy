/** Processes grouped by namespace inode: the index, the linear scan, and what is listed. */
module NsIndex {
  /** `ns` holds the inode of each namespace type that could be read; Go's map reads 0 for the others. */
  datatype NsInfo = NsInfo(pid: int, comm: string, ns: map<string, nat>)

  function Inode(p: NsInfo, t: string): nat { if t in p.ns then p.ns[t] else 0 }

  /** The linear scan: the processes in namespace `ino`, in order. */
  function Members(procs: seq<NsInfo>, t: string, ino: nat): seq<NsInfo> {
    if procs == [] then []
    else
      var last := procs[|procs| - 1];
      Members(procs[..|procs| - 1], t, ino) + if Inode(last, t) == ino then [last] else []
  }

  function Inodes(procs: seq<NsInfo>, t: string): set<nat> {
    set i | 0 <= i < |procs| && Inode(procs[i], t) != 0 :: Inode(procs[i], t)
  }

  function Readable(procs: seq<NsInfo>, t: string): nat {
    if procs == [] then 0 else Readable(procs[..|procs| - 1], t) + if Inode(procs[|procs| - 1], t) != 0 then 1 else 0
  }

  predicate DistinctPids(procs: seq<NsInfo>) {
    forall i, j :: 0 <= i < j < |procs| ==> procs[i].pid != procs[j].pid
  }

  lemma MembersLast(procs: seq<NsInfo>, p: NsInfo, t: string, ino: nat)
    ensures Members(procs + [p], t, ino) == Members(procs, t, ino) + if Inode(p, t) == ino then [p] else []
  {
    assert (procs + [p])[..|procs|] == procs;
  }

  lemma InodesLast(procs: seq<NsInfo>, p: NsInfo, t: string)
    ensures Inodes(procs + [p], t) == Inodes(procs, t) + if Inode(p, t) != 0 then {Inode(p, t)} else {}
    ensures Readable(procs + [p], t) == Readable(procs, t) + if Inode(p, t) != 0 then 1 else 0
  {
    var all := procs + [p];
    assert all[..|procs|] == procs;
    forall x | x in Inodes(procs, t) ensures x in Inodes(all, t) {
      var i :| 0 <= i < |procs| && Inode(procs[i], t) == x;
      assert all[i] == procs[i];
    }
    if Inode(p, t) != 0 {
      assert all[|procs|] == p;
    }
  }

  lemma {:induction false} MembersExactly(procs: seq<NsInfo>, t: string, ino: nat)
    ensures forall p :: p in Members(procs, t, ino) <==> p in procs && Inode(p, t) == ino
    ensures Members(procs, t, ino) != [] && ino != 0 ==> ino in Inodes(procs, t)
    ensures ino in Inodes(procs, t) ==> Members(procs, t, ino) != []
  {
    if procs != [] {
      var front, last := procs[..|procs| - 1], procs[|procs| - 1];
      assert procs == front + [last];
      MembersExactly(front, t, ino);
      MembersLast(front, last, t, ino);
      InodesLast(front, last, t);
    }
  }

  predicate IsIn(p: NsInfo, t: string, ino: nat) { t in p.ns && p.ns[t] == ino && ino != 0 }

  /** Every process counts on its own, in its place. */
  lemma {:induction false} MembersSplit(a: seq<NsInfo>, b: seq<NsInfo>, t: string, ino: nat)
    ensures Members(a + b, t, ino) == Members(a, t, ino) + Members(b, t, ino)
  {
    if b == [] {
      assert a + b == a;
    } else {
      var front, last := b[..|b| - 1], b[|b| - 1];
      assert b == front + [last] && a + b == (a + front) + [last];
      MembersSplit(a, front, t, ino);
      MembersLast(a + front, last, t, ino);
      MembersLast(front, last, t, ino);
    }
  }

  lemma {:induction false} ReadableSplit(a: seq<NsInfo>, b: seq<NsInfo>, t: string)
    ensures Readable(a + b, t) == Readable(a, t) + Readable(b, t)
  {
    if b == [] {
      assert a + b == a;
    } else {
      var front, last := b[..|b| - 1], b[|b| - 1];
      assert b == front + [last] && a + b == (a + front) + [last];
      ReadableSplit(a, front, t);
      InodesLast(a + front, last, t);
      InodesLast(front, last, t);
    }
  }

  /** A process is in the scan of the inode it has, and is readable when it has one at all. */
  lemma {:induction false} OneProcess(p: NsInfo, t: string, ino: nat)
    requires ino != 0
    ensures Members([p], t, ino) == if t in p.ns && p.ns[t] == ino then [p] else []
    ensures Readable([], t) == 0 && Readable([p], t) == if t in p.ns && p.ns[t] != 0 then 1 else 0
  {
    assert [] + [p] == [p];
    MembersLast([], p, t, ino);
    InodesLast([], p, t);
  }

  /** The inodes of the index are those some process has. */
  lemma InodesAre(procs: seq<NsInfo>, t: string)
    ensures Inodes(procs, t) == set p | p in procs && t in p.ns && p.ns[t] != 0 :: p.ns[t]
  {
    forall p | p in procs && t in p.ns && p.ns[t] != 0 ensures p.ns[t] in Inodes(procs, t) {
      var i :| 0 <= i < |procs| && procs[i] == p;
      assert Inode(procs[i], t) == p.ns[t];
    }
  }

  // --- Building the index ---

  /** The index of `procs`: for each nonzero inode, the scan of that inode. */
  predicate Indexes(groups: map<nat, seq<NsInfo>>, procs: seq<NsInfo>, t: string) {
    groups.Keys == Inodes(procs, t) && forall ino <- groups :: groups[ino] == Members(procs, t, ino)
  }

  lemma IndexGrows(groups: map<nat, seq<NsInfo>>, procs: seq<NsInfo>, p: NsInfo, t: string)
    requires Indexes(groups, procs, t)
    ensures var ino := Inode(p, t);
            Indexes(if ino == 0 then groups else groups[ino := (if ino in groups then groups[ino] else []) + [p]],
                    procs + [p], t)
  {
    var ino := Inode(p, t);
    var grown := if ino == 0 then groups else groups[ino := (if ino in groups then groups[ino] else []) + [p]];
    InodesLast(procs, p, t);
    assert grown.Keys == Inodes(procs + [p], t);
    forall i <- grown ensures grown[i] == Members(procs + [p], t, i) {
      MembersLast(procs, p, t, i);
      MembersExactly(procs, t, i);
    }
  }

  method BuildGroups(procs: seq<NsInfo>, t: string) returns (groups: map<nat, seq<NsInfo>>)
    ensures groups.Keys == Inodes(procs, t)
    ensures forall ino <- groups :: groups[ino] == Members(procs, t, ino)
    ensures forall p <- procs, ino: nat :: IsIn(p, t, ino) <==> ino in groups && p in groups[ino]
  {
    groups := map[];
    for k := 0 to |procs|
      invariant Indexes(groups, procs[..k], t)
    {
      var p := procs[k];
      var ino := Inode(p, t);
      assert procs[..k + 1] == procs[..k] + [p];
      IndexGrows(groups, procs[..k], p, t);
      if ino != 0 {
        groups := groups[ino := (if ino in groups then groups[ino] else []) + [p]];
      }
    }
    assert procs[..|procs|] == procs;
    forall p <- procs, ino: nat ensures IsIn(p, t, ino) <==> ino in groups && p in groups[ino] {
      MembersExactly(procs, t, ino);
    }
  }

  method CountDistinct(procs: seq<NsInfo>, t: string) returns (count: nat)
    ensures count == |set p | p in procs && t in p.ns && p.ns[t] != 0 :: p.ns[t]|
  {
    var seen: set<nat> := {};
    for k := 0 to |procs|
      invariant seen == Inodes(procs[..k], t)
    {
      assert procs[..k + 1] == procs[..k] + [procs[k]];
      InodesLast(procs[..k], procs[k], t);
      var ino := Inode(procs[k], t);
      if ino != 0 {
        seen := seen + {ino};
      }
    }
    assert procs[..|procs|] == procs;
    InodesAre(procs, t);
    count := |seen|;
  }

  function Without(s: seq<NsInfo>, pid: int): seq<NsInfo> {
    if s == [] then [] else Without(s[..|s| - 1], pid) + if s[|s| - 1].pid != pid then [s[|s| - 1]] else []
  }

  lemma WithoutLast(s: seq<NsInfo>, p: NsInfo, pid: int)
    ensures Without(s + [p], pid) == Without(s, pid) + if p.pid != pid then [p] else []
  {
    assert (s + [p])[..|s|] == s;
  }

  lemma {:induction false} WithoutOfOne(p: NsInfo, pid: int)
    ensures Without([p], pid) == if p.pid != pid then [p] else []
  {
    assert [] + [p] == [p];
    WithoutLast([], p, pid);
  }

  /** Every process with another pid stays, in its place. */
  lemma {:induction false} WithoutSplit(a: seq<NsInfo>, b: seq<NsInfo>, pid: int)
    ensures Without(a + b, pid) == Without(a, pid) + Without(b, pid)
  {
    if b == [] {
      assert a + b == a;
    } else {
      var front, last := b[..|b| - 1], b[|b| - 1];
      assert b == front + [last] && a + b == (a + front) + [last];
      WithoutSplit(a, front, pid);
      WithoutLast(a + front, last, pid);
      WithoutLast(front, last, pid);
    }
  }

  /** The scan of `inspectPID`: the peers of a process are its group without itself. */
  method Peers(procs: seq<NsInfo>, target: NsInfo, t: string) returns (peers: seq<NsInfo>)
    requires Inode(target, t) != 0
    ensures peers == Without(Members(procs, t, Inode(target, t)), target.pid)
    ensures t in target.ns && Inode(target, t) == target.ns[t]
  {
    var targetIno := Inode(target, t);
    peers := [];
    for k := 0 to |procs|
      invariant peers == Without(Members(procs[..k], t, targetIno), target.pid)
    {
      var p := procs[k];
      assert procs[..k + 1] == procs[..k] + [p];
      ghost var group := Members(procs[..k], t, targetIno);
      MembersLast(procs[..k], p, t, targetIno);
      WithoutLast(group, p, target.pid);
      assert group + [] == group;
      if p.pid != target.pid && Inode(p, t) == targetIno {
        peers := peers + [p];
      }
    }
    assert procs[..|procs|] == procs;
  }

  lemma {:induction false} WithoutOne(s: seq<NsInfo>, pid: int)
    requires DistinctPids(s)
    ensures |Without(s, pid)| == |s| - if exists p <- s :: p.pid == pid then 1 else 0
  {
    if s != [] {
      var front, last := s[..|s| - 1], s[|s| - 1];
      assert s == front + [last];
      WithoutOne(front, pid);
      forall p | p in front ensures p.pid != last.pid {
        var i :| 0 <= i < |front| && front[i] == p;
        assert s[i] == p;
      }
      assert (exists p <- s :: p.pid == pid) <==> last.pid == pid || exists p <- front :: p.pid == pid;
    }
  }

  lemma {:induction false} MembersDistinct(procs: seq<NsInfo>, t: string, ino: nat)
    requires DistinctPids(procs)
    ensures DistinctPids(Members(procs, t, ino))
  {
    if procs != [] {
      var front, last := procs[..|procs| - 1], procs[|procs| - 1];
      MembersDistinct(front, t, ino);
      MembersExactly(front, t, ino);
      var m := Members(front, t, ino);
      forall i | 0 <= i < |m| ensures m[i].pid != last.pid {
        assert m[i] in front;
        var j :| 0 <= j < |front| && front[j] == m[i];
        assert procs[j] == m[i];
      }
    }
  }

  /** With distinct pids a process has exactly one peer fewer than its group has members. */
  lemma {:induction false} PeersAreGroupMinusSelf(procs: seq<NsInfo>, target: NsInfo, t: string)
    requires DistinctPids(procs) && target in procs
    ensures var group := Members(procs, t, Inode(target, t));
            && target in group
            && |Without(group, target.pid)| == |group| - 1
  {
    var group := Members(procs, t, Inode(target, t));
    MembersExactly(procs, t, Inode(target, t));
    MembersDistinct(procs, t, Inode(target, t));
    WithoutOne(group, target.pid);
  }

  // --- Group sizes ---

  function Sizes(procs: seq<NsInfo>, t: string, order: seq<nat>): nat {
    if order == [] then 0 else |Members(procs, t, order[0])| + Sizes(procs, t, order[1..])
  }

  predicate NoRepeats(order: seq<nat>) {
    forall i, j :: 0 <= i < j < |order| ==> order[i] != order[j]
  }

  lemma {:induction false} SizesLast(procs: seq<NsInfo>, p: NsInfo, t: string, order: seq<nat>)
    requires NoRepeats(order)
    ensures Sizes(procs + [p], t, order) == Sizes(procs, t, order) + if Inode(p, t) in order then 1 else 0
  {
    if order != [] {
      var ino, rest := order[0], order[1..];
      assert NoRepeats(rest) && ino !in rest && order == [ino] + rest;
      MembersLast(procs, p, t, ino);
      SizesLast(procs, p, t, rest);
    }
  }

  lemma {:induction false} SizesOfNone(t: string, order: seq<nat>)
    ensures Sizes([], t, order) == 0
  {
    if order != [] { SizesOfNone(t, order[1..]); }
  }

  /** However the groups are enumerated, their sizes add up to the processes with a readable inode. */
  lemma {:induction false} GroupSizesAddUp(procs: seq<NsInfo>, t: string, order: seq<nat>)
    requires NoRepeats(order) && 0 !in order
    requires Inodes(procs, t) <= set i | 0 <= i < |order| :: order[i]
    ensures Sizes(procs, t, order) == Readable(procs, t)
  {
    if procs == [] {
      SizesOfNone(t, order);
    } else {
      var front, last := procs[..|procs| - 1], procs[|procs| - 1];
      assert procs == front + [last];
      InodesLast(front, last, t);
      GroupSizesAddUp(front, t, order);
      SizesLast(front, last, t, order);
      if Inode(last, t) != 0 {
        assert Inode(last, t) in Inodes(procs, t);
      }
    }
  }

  // --- Listing ---

  function InsertBy<T>(s: seq<T>, x: T, key: T -> int): seq<T> {
    if s == [] || key(s[|s| - 1]) <= key(x) then s + [x] else InsertBy(s[..|s| - 1], x, key) + [s[|s| - 1]]
  }

  /** A result `sort.Slice` by an ascending key may return; it is free to order equal keys otherwise. */
  function SortBy<T>(s: seq<T>, key: T -> int): seq<T> {
    if s == [] then [] else InsertBy(SortBy(s[..|s| - 1], key), s[|s| - 1], key)
  }

  predicate Ascending<T>(s: seq<T>, key: T -> int) {
    forall i :: 0 < i < |s| ==> key(s[i - 1]) <= key(s[i])
  }

  lemma {:induction false} InsertPermutes<T(!new)>(s: seq<T>, x: T, key: T -> int)
    ensures multiset(InsertBy(s, x, key)) == multiset(s) + multiset{x}
    ensures |InsertBy(s, x, key)| == |s| + 1
  {
    if s != [] && key(s[|s| - 1]) > key(x) {
      var front := s[..|s| - 1];
      assert s == front + [s[|s| - 1]];
      InsertPermutes(front, x, key);
    }
  }

  function Later<T>(a: T, b: T, key: T -> int): T { if key(a) <= key(b) then b else a }

  lemma InsertLast<T(!new)>(s: seq<T>, x: T, key: T -> int)
    requires s != []
    ensures InsertBy(s, x, key) != [] && InsertBy(s, x, key)[|InsertBy(s, x, key)| - 1] == Later(s[|s| - 1], x, key)
  {
  }

  lemma {:induction false} InsertAscends<T(!new)>(s: seq<T>, x: T, key: T -> int)
    requires Ascending(s, key)
    ensures Ascending(InsertBy(s, x, key), key)
  {
    if s != [] && key(s[|s| - 1]) > key(x) {
      var front, last := s[..|s| - 1], s[|s| - 1];
      InsertAscends(front, x, key);
      if front != [] {
        assert key(s[|s| - 2]) <= key(s[|s| - 1]);
        InsertLast(front, x, key);
      }
      AscendingAppend(InsertBy(front, x, key), last, key);
    } else {
      AscendingAppend(s, x, key);
    }
  }

  lemma AscendingAppend<T(!new)>(s: seq<T>, x: T, key: T -> int)
    requires Ascending(s, key) && (s != [] ==> key(s[|s| - 1]) <= key(x))
    ensures Ascending(s + [x], key)
  {
  }

  lemma {:induction false} SortAscends<T(!new)>(s: seq<T>, key: T -> int)
    ensures Ascending(SortBy(s, key), key)
    ensures multiset(SortBy(s, key)) == multiset(s)
  {
    if s != [] {
      var front, last := s[..|s| - 1], s[|s| - 1];
      assert s == front + [last];
      SortAscends(front, key);
      InsertAscends(SortBy(front, key), last, key);
      InsertPermutes(SortBy(front, key), last, key);
    }
  }

  function InodeKey(ino: nat): int { ino }
  function PidKey(p: NsInfo): int { p.pid }

  datatype Group = Group(ino: nat, members: seq<NsInfo>)

  predicate Listed(procs: seq<NsInfo>, t: string, ino: nat) {
    ino != 0 && 2 <= |Members(procs, t, ino)| <= 8
  }

  predicate PidsAscend(members: seq<NsInfo>) {
    forall i, j :: 0 <= i < j < |members| ==> members[i].pid <= members[j].pid
  }

  lemma {:induction false} AscendingPids(members: seq<NsInfo>)
    requires Ascending(members, PidKey)
    ensures PidsAscend(members)
  {
    if members != [] {
      var front, last := members[..|members| - 1], members[|members| - 1];
      AscendingPids(front);
      forall i | 0 <= i < |front| ensures members[i].pid <= last.pid {
        assert front[i].pid <= front[|front| - 1].pid;
        assert PidKey(members[|front| - 1]) <= PidKey(members[|front|]);
      }
    }
  }

  /** Ranging over the index, in any order. */
  method CollectInodes(groups: map<nat, seq<NsInfo>>) returns (inodes: seq<nat>)
    ensures NoRepeats(inodes)
    ensures forall ino :: ino in inodes <==> ino in groups && 2 <= |groups[ino]| <= 8
  {
    inodes := [];
    var rest := groups.Keys;
    while rest != {}
      invariant rest <= groups.Keys && NoRepeats(inodes)
      invariant forall ino :: ino in inodes <==> ino in groups && ino !in rest && 2 <= |groups[ino]| <= 8
      decreases rest
    {
      var ino :| ino in rest;
      rest := rest - {ino};
      if 2 <= |groups[ino]| <= 8 {
        assert ino !in inodes;
        inodes := inodes + [ino];
      }
    }
  }

  predicate Shows(g: Group, procs: seq<NsInfo>, t: string) {
    PidsAscend(g.members) && multiset(g.members) == multiset(Members(procs, t, g.ino))
  }

  method SortByPid(members: seq<NsInfo>) returns (sorted: seq<NsInfo>)
    ensures PidsAscend(sorted) && multiset(sorted) == multiset(members)
  {
    SortAscends(members, PidKey);
    sorted := SortBy(members, PidKey);
    AscendingPids(sorted);
  }

  method SharedInodes(procs: seq<NsInfo>, t: string, groups: map<nat, seq<NsInfo>>) returns (inodes: seq<nat>)
    requires groups.Keys == Inodes(procs, t) && forall ino <- groups :: groups[ino] == Members(procs, t, ino)
    ensures forall i :: 0 < i < |inodes| ==> inodes[i - 1] < inodes[i]
    ensures forall ino :: ino in inodes <==> Listed(procs, t, ino)
    ensures forall ino <- inodes :: ino in groups
  {
    var found := CollectInodes(groups);
    inodes := SortBy(found, InodeKey);
    SortedInodes(found);
    ListedInodes(procs, t, groups, found);
  }

  /** The groups printed for one namespace type: exactly those with two to eight members, in strictly
      ascending inode order whatever order the index is ranged over, each with all its members by ascending pid. */
  method ShowSharedGroups(procs: seq<NsInfo>, t: string) returns (shown: seq<Group>)
    ensures forall i :: 0 < i < |shown| ==> shown[i - 1].ino < shown[i].ino
    ensures forall i :: 0 <= i < |shown| ==> shown[i].ino != 0 && 2 <= |shown[i].members| <= 8
    ensures forall i :: 0 <= i < |shown| ==> Shows(shown[i], procs, t)
    ensures forall ino :: ino != 0 && 2 <= |Members(procs, t, ino)| <= 8 ==>
              exists i :: 0 <= i < |shown| && shown[i].ino == ino
  {
    var groups := BuildGroups(procs, t);
    var inodes := SharedInodes(procs, t, groups);
    shown := ShowGroups(procs, t, groups, inodes);
    ShownExactly(procs, t, inodes, shown);
  }

  method ShowGroups(procs: seq<NsInfo>, t: string, groups: map<nat, seq<NsInfo>>, inodes: seq<nat>)
    returns (shown: seq<Group>)
    requires forall ino <- inodes :: ino in groups && groups[ino] == Members(procs, t, ino)
    ensures |shown| == |inodes|
    ensures forall i :: 0 <= i < |shown| ==> shown[i].ino == inodes[i] && Shows(shown[i], procs, t)
  {
    shown := [];
    for k := 0 to |inodes|
      invariant |shown| == k && forall i :: 0 <= i < k ==> shown[i].ino == inodes[i] && Shows(shown[i], procs, t)
    {
      assert inodes[k] in inodes;
      var members := SortByPid(groups[inodes[k]]);
      shown := shown + [Group(inodes[k], members)];
    }
  }

  lemma {:induction false} ShownExactly(procs: seq<NsInfo>, t: string, inodes: seq<nat>, shown: seq<Group>)
    requires |shown| == |inodes| && forall ino :: ino in inodes <==> Listed(procs, t, ino)
    requires forall i :: 0 <= i < |shown| ==> shown[i].ino == inodes[i] && Shows(shown[i], procs, t)
    ensures forall i :: 0 <= i < |shown| ==> shown[i].ino != 0 && 2 <= |shown[i].members| <= 8
    ensures forall ino :: ino != 0 && 2 <= |Members(procs, t, ino)| <= 8 ==>
              exists i :: 0 <= i < |shown| && shown[i].ino == ino
  {
    forall i | 0 <= i < |shown| ensures shown[i].ino != 0 && 2 <= |shown[i].members| <= 8 {
      assert inodes[i] in inodes && Listed(procs, t, inodes[i]);
      SameSize(shown[i].members, Members(procs, t, inodes[i]));
    }
    forall ino | ino != 0 && 2 <= |Members(procs, t, ino)| <= 8
      ensures exists i :: 0 <= i < |shown| && shown[i].ino == ino
    {
      assert Listed(procs, t, ino);
      var i :| 0 <= i < |inodes| && inodes[i] == ino;
      assert shown[i].ino == ino;
    }
  }

  lemma SameSize(a: seq<NsInfo>, b: seq<NsInfo>)
    requires multiset(a) == multiset(b)
    ensures |a| == |b|
  {
    assert |multiset(a)| == |a| && |multiset(b)| == |b|;
  }

  lemma {:induction false} ListedInodes(procs: seq<NsInfo>, t: string, groups: map<nat, seq<NsInfo>>, inodes: seq<nat>)
    requires groups.Keys == Inodes(procs, t) && forall ino <- groups :: groups[ino] == Members(procs, t, ino)
    requires forall ino :: ino in inodes <==> ino in groups && 2 <= |groups[ino]| <= 8
    ensures forall ino :: ino in inodes <==> Listed(procs, t, ino)
  {
    forall ino ensures ino in inodes <==> Listed(procs, t, ino) {
      MembersExactly(procs, t, ino);
    }
  }

  lemma {:induction false} InsertDistinct(s: seq<nat>, x: nat)
    requires NoRepeats(s) && x !in s
    ensures NoRepeats(InsertBy(s, x, InodeKey))
    ensures forall y :: y in InsertBy(s, x, InodeKey) <==> y in s || y == x
  {
    if s != [] && InodeKey(s[|s| - 1]) > InodeKey(x) {
      var front, last := s[..|s| - 1], s[|s| - 1];
      assert s == front + [last];
      InsertDistinct(front, x);
      var r := InsertBy(front, x, InodeKey);
      assert last !in front;
      forall i | 0 <= i < |r| ensures r[i] != last {
        assert r[i] in r;
      }
    }
  }

  lemma {:induction false} SortKeepsDistinct(inodes: seq<nat>)
    requires NoRepeats(inodes)
    ensures NoRepeats(SortBy(inodes, InodeKey))
    ensures forall x :: x in SortBy(inodes, InodeKey) <==> x in inodes
  {
    if inodes != [] {
      var front, last := inodes[..|inodes| - 1], inodes[|inodes| - 1];
      assert inodes == front + [last];
      SortKeepsDistinct(front);
      InsertDistinct(SortBy(front, InodeKey), last);
    }
  }

  lemma StrictlyAscending(s: seq<nat>)
    requires NoRepeats(s) && Ascending(s, InodeKey)
    ensures forall i :: 0 < i < |s| ==> s[i - 1] < s[i]
  {
    forall i | 0 < i < |s| ensures s[i - 1] < s[i] {
      assert InodeKey(s[i - 1]) <= InodeKey(s[i]);
    }
  }

  /** Sorting distinct inodes lists each once, strictly ascending. */
  lemma {:induction false} SortedInodes(inodes: seq<nat>)
    requires NoRepeats(inodes)
    ensures var s := SortBy(inodes, InodeKey);
            && (forall i :: 0 < i < |s| ==> s[i - 1] < s[i])
            && (forall x :: x in s <==> x in inodes)
  {
    SortAscends(inodes, InodeKey);
    SortKeepsDistinct(inodes);
    StrictlyAscending(SortBy(inodes, InodeKey));
  }
}
