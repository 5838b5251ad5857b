/** First-occurrence deduplication: the BPF objects of a pod, and its CPU affinities. */
module Dedup {
  /** Keeps, in order, every exempt element and the first element of each key. */
  function FirstBy<T(!new), K(!new, ==)>(s: seq<T>, key: T -> K, exempt: T -> bool): seq<T> {
    if s == [] then []
    else
      var front, last := s[..|s| - 1], s[|s| - 1];
      FirstBy(front, key, exempt) + if exempt(last) || NewKey(front, last, key) then [last] else []
  }

  predicate NewKey<T, K(==)>(front: seq<T>, x: T, key: T -> K) {
    forall i :: 0 <= i < |front| ==> key(front[i]) != key(x)
  }

  /** Nothing is invented, and no exempt element is lost. */
  lemma {:induction false} FirstByKeeps<T(!new), K(!new)>(s: seq<T>, key: T -> K, exempt: T -> bool, x: T)
    ensures x in FirstBy(s, key, exempt) ==> x in s
    ensures x in s && exempt(x) ==> x in FirstBy(s, key, exempt)
  {
    if s != [] {
      FirstByKeeps(s[..|s| - 1], key, exempt, x);
    }
  }

  /** No key is lost: every element is represented by a kept one. */
  lemma {:induction false} FirstByRepresents<T(!new), K(!new)>(s: seq<T>, key: T -> K, exempt: T -> bool, i: nat)
    returns (j: nat)
    requires i < |s|
    ensures j < |FirstBy(s, key, exempt)| && key(FirstBy(s, key, exempt)[j]) == key(s[i])
    decreases |s|, i
  {
    var front, last := s[..|s| - 1], s[|s| - 1];
    if i < |front| {
      j := FirstByRepresents(front, key, exempt, i);
    } else if exempt(last) || NewKey(front, last, key) {
      j := |FirstBy(front, key, exempt)|;
    } else {
      var k :| 0 <= k < |front| && key(front[k]) == key(last);
      j := FirstByRepresents(front, key, exempt, k);
    }
  }

  /** Of two kept elements with the same key at least the later one is exempt. */
  lemma {:induction false} KeptKeysAreNew<T(!new), K(!new)>(s: seq<T>, key: T -> K, exempt: T -> bool, i: nat, j: nat)
    requires i < j < |FirstBy(s, key, exempt)|
    ensures var f := FirstBy(s, key, exempt); key(f[i]) == key(f[j]) ==> exempt(f[j])
  {
    var front, last := s[..|s| - 1], s[|s| - 1];
    var f, g := FirstBy(s, key, exempt), FirstBy(front, key, exempt);
    if j < |g| {
      KeptKeysAreNew(front, key, exempt, i, j);
      assert f[i] == g[i] && f[j] == g[j];
    } else {
      FirstByKeeps(front, key, exempt, g[i]);
      assert g[i] in g && f[i] == g[i];
    }
  }

  predicate FirstAt<T, K(==)>(s: seq<T>, i: nat, key: T -> K)
    requires i < |s|
  {
    forall k :: 0 <= k < i ==> key(s[k]) != key(s[i])
  }

  predicate KeptAt<T, K(==)>(s: seq<T>, i: nat, key: T -> K, exempt: T -> bool)
    requires i < |s|
  {
    exempt(s[i]) || FirstAt(s, i, key)
  }

  /** The positions to keep, found by looking at each on its own. */
  function Places<T(!new), K(!new, ==)>(s: seq<T>, n: nat, key: T -> K, exempt: T -> bool): (at: seq<nat>)
    requires n <= |s|
    ensures forall j :: 0 <= j < |at| ==> at[j] < n
    ensures forall j, k :: 0 <= j < k < |at| ==> at[j] < at[k]
    ensures forall i :: 0 <= i < n ==> (i in at <==> KeptAt(s, i, key, exempt))
  {
    if n == 0 then []
    else
      var before := Places(s, n - 1, key, exempt);
      if KeptAt(s, n - 1, key, exempt) then before + [n - 1] else before
  }

  function At<T>(s: seq<T>, at: seq<nat>): seq<T>
    requires forall j :: 0 <= j < |at| ==> at[j] < |s|
  {
    seq(|at|, j requires 0 <= j < |at| => s[at[j]])
  }

  lemma AtLast<T>(s: seq<T>, at: seq<nat>, i: nat)
    requires i < |s| && forall j :: 0 <= j < |at| ==> at[j] < |s|
    ensures At(s, at + [i]) == At(s, at) + [s[i]]
  {
  }

  lemma {:induction false} FirstByTake<T(!new), K(!new)>(s: seq<T>, n: nat, key: T -> K, exempt: T -> bool)
    requires n < |s|
    ensures FirstBy(s[..n + 1], key, exempt)
         == FirstBy(s[..n], key, exempt) + if KeptAt(s, n, key, exempt) then [s[n]] else []
  {
    assert s[..n + 1][..n] == s[..n];
    assert NewKey(s[..n], s[n], key) <==> FirstAt(s, n, key);
  }

  lemma {:induction false} AtTake<T(!new), K(!new)>(s: seq<T>, n: nat, key: T -> K, exempt: T -> bool)
    requires n < |s|
    ensures At(s, Places(s, n + 1, key, exempt))
         == At(s, Places(s, n, key, exempt)) + if KeptAt(s, n, key, exempt) then [s[n]] else []
  {
    AtLast(s, Places(s, n, key, exempt), n);
  }

  ghost predicate Stands<T(!new), K(!new)>(s: seq<T>, n: nat, key: T -> K, exempt: T -> bool)
    requires n <= |s|
  {
    FirstBy(s[..n], key, exempt) == At(s, Places(s, n, key, exempt))
  }

  lemma StandsAtFirst<T(!new), K(!new)>(s: seq<T>, key: T -> K, exempt: T -> bool)
    ensures Stands(s, 0, key, exempt)
  {
    assert s[..0] == [];
  }

  lemma StandsNext<T(!new), K(!new)>(s: seq<T>, n: nat, key: T -> K, exempt: T -> bool)
    requires n < |s| && Stands(s, n, key, exempt)
    ensures Stands(s, n + 1, key, exempt)
  {
    FirstByTake(s, n, key, exempt);
    AtTake(s, n, key, exempt);
  }

  lemma {:induction false} StandsUpTo<T(!new), K(!new)>(s: seq<T>, n: nat, key: T -> K, exempt: T -> bool)
    requires n <= |s|
    ensures Stands(s, n, key, exempt)
  {
    StandsAtFirst(s, key, exempt);
    for k := 0 to n
      invariant Stands(s, k, key, exempt)
    {
      StandsNext(s, k, key, exempt);
    }
  }

  /** What is kept stands in scan order at exactly the exempt positions and the first occurrences. */
  lemma {:induction false} FirstByPositions<T(!new), K(!new)>(s: seq<T>, key: T -> K, exempt: T -> bool)
    ensures FirstBy(s, key, exempt) == At(s, Places(s, |s|, key, exempt))
  {
    StandsUpTo(s, |s|, key, exempt);
    assert s[..|s|] == s;
  }

  /** A second pass changes nothing. */
  lemma {:induction false} FirstByIdempotent<T(!new), K(!new)>(s: seq<T>, key: T -> K, exempt: T -> bool)
    ensures FirstBy(FirstBy(s, key, exempt), key, exempt) == FirstBy(s, key, exempt)
  {
    FixedPoint(FirstBy(s, key, exempt), key, exempt, s);
  }

  lemma {:induction false} FixedPoint<T(!new), K(!new)>(f: seq<T>, key: T -> K, exempt: T -> bool, s: seq<T>)
    requires f <= FirstBy(s, key, exempt)
    ensures FirstBy(f, key, exempt) == f
  {
    if f != [] {
      var front, last := f[..|f| - 1], f[|f| - 1];
      var whole := FirstBy(s, key, exempt);
      FixedPoint(front, key, exempt, s);
      assert whole[|f| - 1] == last;
      if !exempt(last) {
        forall i | 0 <= i < |front| ensures key(front[i]) != key(last) {
          assert whole[i] == front[i];
          KeptKeysAreNew(s, key, exempt, i, |f| - 1);
        }
      }
    }
  }

  /** Keys that tell the same elements apart keep the same elements. */
  lemma {:induction false} SameDistinctions<T(!new), K(!new), L(!new)>(s: seq<T>, key: T -> K, other: T -> L,
                                                                       exempt: T -> bool)
    requires forall a, b :: a in s && b in s ==> (key(a) == key(b) <==> other(a) == other(b))
    ensures FirstBy(s, key, exempt) == FirstBy(s, other, exempt)
  {
    if s != [] {
      var front, last := s[..|s| - 1], s[|s| - 1];
      SameDistinctions(front, key, other, exempt);
      assert forall i :: 0 <= i < |front| ==> front[i] in s;
      assert NewKey(front, last, key) <==> NewKey(front, last, other);
    }
  }

  // --- BPF objects ---

  datatype Prog = Prog(pid: int, fd: int, progType: int, progID: int, tag: string, jited: bool)
  datatype BpfMap = BpfMap(pid: int, fd: int, mapType: int, mapID: int, keySize: int, valueSize: int, maxEntries: int)

  /** The fd scan of one process; it fails when the process is gone. */
  datatype Scan = Gone | Scanned(progs: seq<Prog>, maps: seq<BpfMap>)

  function ProgID(p: Prog): int { p.progID }
  function MapID(m: BpfMap): int { m.mapID }
  predicate ZeroProg(p: Prog) { p.progID == 0 }
  predicate ZeroMap(m: BpfMap) { m.mapID == 0 }

  function AllProgs(scans: seq<Scan>): seq<Prog> {
    if scans == [] then []
    else
      var last := scans[|scans| - 1];
      AllProgs(scans[..|scans| - 1]) + if last.Scanned? then last.progs else []
  }

  function AllMaps(scans: seq<Scan>): seq<BpfMap> {
    if scans == [] then []
    else
      var last := scans[|scans| - 1];
      AllMaps(scans[..|scans| - 1]) + if last.Scanned? then last.maps else []
  }

  lemma ScanLast(a: seq<Scan>, x: Scan)
    ensures AllProgs(a + [x]) == AllProgs(a) + if x.Scanned? then x.progs else []
    ensures AllMaps(a + [x]) == AllMaps(a) + if x.Scanned? then x.maps else []
  {
    assert (a + [x])[..|a|] == a;
  }

  /** Every scan counts on its own, in its place. */
  lemma {:induction false} ScansSplit(a: seq<Scan>, b: seq<Scan>)
    ensures AllProgs(a + b) == AllProgs(a) + AllProgs(b) && AllMaps(a + b) == AllMaps(a) + AllMaps(b)
  {
    if b == [] {
      assert a + b == a;
    } else {
      var front, last := b[..|b| - 1], b[|b| - 1];
      assert b == front + [last] && a + b == (a + front) + [last];
      ScansSplit(a, front);
      ScanLast(a + front, last);
      ScanLast(front, last);
    }
  }

  /** A process that is gone contributes nothing. */
  lemma {:induction false} ScanOfOne(x: Scan)
    ensures AllProgs([x]) == (if x.Scanned? then x.progs else [])
    ensures AllMaps([x]) == (if x.Scanned? then x.maps else [])
  {
    ScanLast([], x);
    assert [] + [x] == [x];
  }

  /** The programs listed are those with ID 0 and the first of each other ID; the same for the maps. */
  lemma {:induction false} ObjectsListed(scans: seq<Scan>)
    ensures var all := AllProgs(scans);
            var at := Places(all, |all|, ProgID, ZeroProg);
            && FirstBy(all, ProgID, ZeroProg) == At(all, at)
            && forall i :: 0 <= i < |all| ==>
                 (i in at <==> all[i].progID == 0 || forall k :: 0 <= k < i ==> all[k].progID != all[i].progID)
    ensures var all := AllMaps(scans);
            var at := Places(all, |all|, MapID, ZeroMap);
            && FirstBy(all, MapID, ZeroMap) == At(all, at)
            && forall i :: 0 <= i < |all| ==>
                 (i in at <==> all[i].mapID == 0 || forall k :: 0 <= k < i ==> all[k].mapID != all[i].mapID)
  {
    FirstByPositions(AllProgs(scans), ProgID, ZeroProg);
    FirstByPositions(AllMaps(scans), MapID, ZeroMap);
  }

  function KeySet<T, K(==)>(s: seq<T>, key: T -> K): set<K> {
    if s == [] then {} else KeySet(s[..|s| - 1], key) + {key(s[|s| - 1])}
  }

  lemma {:induction false} InKeySet<T(!new), K>(s: seq<T>, x: T, key: T -> K)
    ensures key(x) in KeySet(s, key) <==> !NewKey(s, x, key)
  {
    if s != [] { InKeySet(s[..|s| - 1], x, key); }
  }

  /** How the seen keys and the result grow with one more element. */
  lemma FirstByLast<T(!new), K(!new)>(s: seq<T>, x: T, key: T -> K, exempt: T -> bool)
    ensures FirstBy(s + [x], key, exempt)
         == FirstBy(s, key, exempt) + if exempt(x) || key(x) !in KeySet(s, key) then [x] else []
    ensures KeySet(s + [x], key) == KeySet(s, key) + {key(x)}
  {
    InKeySet(s, x, key);
    assert (s + [x])[..|s|] == s;
  }

  /** `seen` and `kept` are what the loops hold after the elements of `s`. */
  ghost predicate Tracks<T(!new)>(seen: set<int>, kept: seq<T>, s: seq<T>, key: T -> int, exempt: T -> bool) {
    seen == KeySet(s, key) && kept == FirstBy(s, key, exempt)
  }

  lemma TrackStart<T(!new)>(seen: set<int>, kept: seq<T>, before: seq<T>, objects: seq<T>,
                            key: T -> int, exempt: T -> bool)
    requires Tracks(seen, kept, before, key, exempt)
    ensures Tracks(seen, kept, before + objects[..0], key, exempt)
  {
    assert before + objects[..0] == before;
  }

  /** What the code's test does to `seen` and the result. */
  lemma TrackNext<T(!new)>(seen: set<int>, kept: seq<T>, before: seq<T>, objects: seq<T>, k: nat,
                           key: T -> int, exempt: T -> bool)
    requires k < |objects| && (exempt(objects[k]) <==> key(objects[k]) == 0)
    requires Tracks(seen, kept, before + objects[..k], key, exempt)
    ensures var x := objects[k];
            if key(x) != 0 && key(x) in seen then Tracks(seen, kept, before + objects[..k + 1], key, exempt)
            else Tracks(seen + {key(x)}, kept + [x], before + objects[..k + 1], key, exempt)
  {
    FirstByLast(before + objects[..k], objects[k], key, exempt);
    assert before + objects[..k + 1] == before + objects[..k] + [objects[k]];
  }

  /** One inner loop: `seen` and the result grow with the objects of one process. */
  method AddNew<T(!new)>(objects: seq<T>, key: T -> int, exempt: T -> bool,
                         seen: set<int>, kept: seq<T>, ghost before: seq<T>)
    returns (newSeen: set<int>, newKept: seq<T>)
    requires forall x :: exempt(x) <==> key(x) == 0
    requires Tracks(seen, kept, before, key, exempt)
    ensures Tracks(newSeen, newKept, before + objects, key, exempt)
  {
    newSeen, newKept := seen, kept;
    TrackStart(seen, kept, before, objects, key, exempt);
    for k := 0 to |objects|
      invariant Tracks(newSeen, newKept, before + objects[..k], key, exempt)
    {
      var x := objects[k];
      TrackNext(newSeen, newKept, before, objects, k, key, exempt);
      if key(x) != 0 && key(x) in newSeen {
        continue;
      }
      newSeen := newSeen + {key(x)};
      newKept := newKept + [x];
    }
    assert objects[..|objects|] == objects;
  }

  /** Over all processes still there: every zero-ID object and exactly the first of each nonzero ID, in scan order. */
  method ListPodBPFObjects(scans: seq<Scan>) returns (progs: seq<Prog>, maps: seq<BpfMap>)
    ensures progs == FirstBy(AllProgs(scans), ProgID, ZeroProg)
    ensures maps == FirstBy(AllMaps(scans), MapID, ZeroMap)
  {
    var seenProgs, seenMaps: set<int> := {}, {};
    progs, maps := [], [];
    for k := 0 to |scans|
      invariant Tracks(seenProgs, progs, AllProgs(scans[..k]), ProgID, ZeroProg)
      invariant Tracks(seenMaps, maps, AllMaps(scans[..k]), MapID, ZeroMap)
    {
      assert scans[..k + 1][..k] == scans[..k];
      match scans[k]
      case Gone =>
        assert AllProgs(scans[..k + 1]) == AllProgs(scans[..k]) && AllMaps(scans[..k + 1]) == AllMaps(scans[..k]);
      case Scanned(ps, ms) =>
        seenProgs, progs := AddNew(ps, ProgID, ZeroProg, seenProgs, progs, AllProgs(scans[..k]));
        seenMaps, maps := AddNew(ms, MapID, ZeroMap, seenMaps, maps, AllMaps(scans[..k]));
    }
    assert scans[..|scans|] == scans;
  }

  // --- CPU affinities ---

  datatype Affinity = Affinity(pid: int, comm: string, cpus: string, mems: string)

  function JoinedKey(a: Affinity): string { a.cpus + "|" + a.mems }
  function CpusAndMems(a: Affinity): (string, string) { (a.cpus, a.mems) }
  predicate Never(a: Affinity) { false }

  method DedupAffinities(affinities: seq<Affinity>) returns (kept: seq<Affinity>)
    ensures kept == FirstBy(affinities, JoinedKey, Never)
  {
    var seen: set<string> := {};
    kept := [];
    for k := 0 to |affinities|
      invariant seen == KeySet(affinities[..k], JoinedKey)
      invariant kept == FirstBy(affinities[..k], JoinedKey, Never)
    {
      var pa := affinities[k];
      JoinedKeysGrow(affinities, k);
      var key := JoinedKey(pa);
      if key in seen {
        continue;
      }
      seen := seen + {key};
      kept := kept + [pa];
    }
    assert affinities[..|affinities|] == affinities;
  }

  lemma JoinedKeysGrow(affinities: seq<Affinity>, k: nat)
    requires k < |affinities|
    ensures var before, after, pa := affinities[..k], affinities[..k + 1], affinities[k];
            if JoinedKey(pa) in KeySet(before, JoinedKey)
            then KeySet(after, JoinedKey) == KeySet(before, JoinedKey)
                 && FirstBy(after, JoinedKey, Never) == FirstBy(before, JoinedKey, Never)
            else KeySet(after, JoinedKey) == KeySet(before, JoinedKey) + {JoinedKey(pa)}
                 && FirstBy(after, JoinedKey, Never) == FirstBy(before, JoinedKey, Never) + [pa]
  {
    FirstByLast(affinities[..k], affinities[k], JoinedKey, Never);
    assert affinities[..k + 1] == affinities[..k] + [affinities[k]];
  }

  /** The affinities listed are those of the first process with each pair of lists. */
  lemma {:induction false} AffinitiesListed(all: seq<Affinity>)
    requires forall a <- all :: '|' !in a.cpus
    ensures var at := Places(all, |all|, CpusAndMems, Never);
            && FirstBy(all, JoinedKey, Never) == At(all, at)
            && forall i :: 0 <= i < |all| ==>
                 (i in at <==> forall k :: 0 <= k < i ==> all[k].cpus != all[i].cpus || all[k].mems != all[i].mems)
  {
    OnePerCpusAndMems(all);
    FirstByPositions(all, CpusAndMems, Never);
  }

  lemma {:induction false} JoinedKeyInjective(a: Affinity, b: Affinity)
    requires '|' !in a.cpus && '|' !in b.cpus && JoinedKey(a) == JoinedKey(b)
    ensures CpusAndMems(a) == CpusAndMems(b)
  {
    var k := JoinedKey(a);
    assert k[|a.cpus|] == '|' && k[|b.cpus|] == '|';
    assert forall i :: 0 <= i < |a.cpus| ==> k[i] == a.cpus[i];
    assert forall i :: 0 <= i < |b.cpus| ==> k[i] == b.cpus[i];
    assert |a.cpus| == |b.cpus|;
    assert a.cpus == k[..|a.cpus|] == b.cpus;
    assert a.mems == k[|a.cpus| + 1..] == b.mems;
  }

  /** CPU lists hold digits, commas and dashes, so the joined key keeps one process per distinct pair. */
  lemma {:induction false} OnePerCpusAndMems(affinities: seq<Affinity>)
    requires forall a <- affinities :: '|' !in a.cpus
    ensures FirstBy(affinities, JoinedKey, Never) == FirstBy(affinities, CpusAndMems, Never)
  {
    forall a, b | a in affinities && b in affinities
      ensures JoinedKey(a) == JoinedKey(b) <==> CpusAndMems(a) == CpusAndMems(b)
    {
      if JoinedKey(a) == JoinedKey(b) { JoinedKeyInjective(a, b); }
    }
    SameDistinctions(affinities, JoinedKey, CpusAndMems, Never);
  }
}
