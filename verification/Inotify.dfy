/** The variable-length records of an inotify read. */
module InotifyRecords {
  import opened Bytes

  const HEADER: nat := 16
  const NAME_MAX: nat := 255
  const EVENT_BUF_LEN: nat := 10 * (HEADER + NAME_MAX + 1)

  /** `name` is the padded name field; its length is the header's `len`. */
  datatype Event = Event(wd: u32, mask: u32, cookie: u32, name: seq<byte>)

  predicate ValidEvent(e: Event) { |e.name| <= NAME_MAX + 1 }

  function Record(e: Event): (r: seq<byte>)
    requires ValidEvent(e)
    ensures |r| == HEADER + |e.name|
  {
    Encode32(e.wd) + Encode32(e.mask) + Encode32(e.cookie) + Encode32(|e.name|) + e.name
  }

  /** The bytes of a record, as the header of `inotify(7)` lays them out. */
  lemma {:induction false} RecordLayout(e: Event)
    requires |e.name| <= 256
    ensures var r := Record(e);
            && |r| == 16 + |e.name|
            && e.wd == r[0] as int + 0x100 * (r[1] as int) + 0x1_0000 * (r[2] as int) + 0x100_0000 * (r[3] as int)
            && e.mask == r[4] as int + 0x100 * (r[5] as int) + 0x1_0000 * (r[6] as int) + 0x100_0000 * (r[7] as int)
            && e.cookie == r[8] as int + 0x100 * (r[9] as int) + 0x1_0000 * (r[10] as int) + 0x100_0000 * (r[11] as int)
            && |e.name|
               == r[12] as int + 0x100 * (r[13] as int) + 0x1_0000 * (r[14] as int) + 0x100_0000 * (r[15] as int)
            && r[16..] == e.name
  {
    DecodeEncode32(e.wd);
    DecodeEncode32(e.mask);
    DecodeEncode32(e.cookie);
    DecodeEncode32(|e.name|);
  }

  predicate AllValid(es: seq<Event>) { forall e <- es :: ValidEvent(e) }

  /** The bytes one read returns for these events: record after record, nothing between. */
  function Pack(es: seq<Event>): (r: seq<byte>)
    requires AllValid(es)
  {
    if es == [] then [] else Record(es[0]) + Pack(es[1..])
  }

  /** The record that starts at `at`, as the cast of the walk pointer sees it. */
  function RecordAt(buf: seq<byte>, at: nat): Event
    requires at + HEADER <= |buf|
    requires at + HEADER + Decode32(buf[at + 12..at + 16]) <= |buf|
  {
    Event(Decode32(buf[at..at + 4]), Decode32(buf[at + 4..at + 8]), Decode32(buf[at + 8..at + 12]),
          buf[at + HEADER..at + HEADER + Decode32(buf[at + 12..at + 16])])
  }

  /** The bytes of `e` stand at `at`, and the casts there read it. */
  predicate StandsAt(buf: seq<byte>, at: nat, e: Event) {
    && at + HEADER <= |buf|
    && Decode32(buf[at + 12..at + 16]) == |e.name|
    && at + HEADER + |e.name| <= |buf|
    && RecordAt(buf, at) == e
  }

  lemma {:induction false} RecordReadsBack(e: Event, after: seq<byte>)
    requires ValidEvent(e)
    ensures StandsAt(Record(e) + after, 0, e)
  {
    var buf := Record(e) + after;
    assert buf[0..4] == Encode32(e.wd);
    assert buf[4..8] == Encode32(e.mask);
    assert buf[8..12] == Encode32(e.cookie);
    assert buf[12..16] == Encode32(|e.name|);
    DecodeEncode32(e.wd);
    DecodeEncode32(e.mask);
    DecodeEncode32(e.cookie);
    DecodeEncode32(|e.name|);
    assert buf[HEADER..HEADER + |e.name|] == e.name;
  }

  lemma StandsBehind(before: seq<byte>, buf: seq<byte>, e: Event)
    requires StandsAt(buf, 0, e)
    ensures StandsAt(before + buf, |before|, e)
  {
    var all, at := before + buf, |before|;
    assert all[at..at + 4] == buf[0..4] && all[at + 4..at + 8] == buf[4..8];
    assert all[at + 8..at + 12] == buf[8..12] && all[at + 12..at + 16] == buf[12..16];
    assert all[at + HEADER..at + HEADER + |e.name|] == buf[HEADER..HEADER + |e.name|];
  }

  lemma {:induction false} PackConcat(a: seq<Event>, b: seq<Event>)
    requires AllValid(a) && AllValid(b)
    ensures AllValid(a + b) && Pack(a + b) == Pack(a) + Pack(b)
  {
    if a == [] {
      assert a + b == b;
    } else {
      assert (a + b)[1..] == a[1..] + b;
      PackConcat(a[1..], b);
      assert Record(a[0]) + (Pack(a[1..]) + Pack(b)) == (Record(a[0]) + Pack(a[1..])) + Pack(b);
    }
  }

  lemma {:induction false} PackOneMore(es: seq<Event>, k: nat)
    requires AllValid(es) && k < |es|
    ensures Pack(es[..k + 1]) == Pack(es[..k]) + Record(es[k])
  {
    assert es[..k + 1] == es[..k] + [es[k]];
    PackConcat(es[..k], [es[k]]);
    assert Pack([es[k]]) == Record(es[k]) + Pack([]);
  }

  lemma {:induction false} PackAt(es: seq<Event>, k: nat)
    requires AllValid(es) && k < |es|
    ensures Pack(es) == Pack(es[..k]) + (Record(es[k]) + Pack(es[k + 1..]))
  {
    assert es == es[..k] + es[k..] && es[k..][1..] == es[k + 1..];
    PackConcat(es[..k], es[k..]);
  }

  /** Where record `k` starts. */
  function Boundary(es: seq<Event>, k: nat): nat
    requires AllValid(es) && k <= |es|
  {
    |Pack(es[..k])|
  }

  lemma {:induction false} BoundaryEnds(es: seq<Event>, k: nat)
    requires AllValid(es) && k <= |es|
    ensures Boundary(es, 0) == 0 && Boundary(es, k) <= |Pack(es)|
    ensures Boundary(es, k) == |Pack(es)| <==> k == |es|
  {
    assert es[..0] == [];
    if k < |es| {
      PackAt(es, k);
    } else {
      assert es[..k] == es;
    }
  }

  lemma {:induction false} RecordStands(es: seq<Event>, k: nat)
    requires AllValid(es) && k < |es|
    ensures StandsAt(Pack(es), Boundary(es, k), es[k])
  {
    PackAt(es, k);
    RecordReadsBack(es[k], Pack(es[k + 1..]));
    StandsBehind(Pack(es[..k]), Record(es[k]) + Pack(es[k + 1..]), es[k]);
  }

  /** A pointer on a boundary short of the end stands on a record, and the next boundary is behind its name. */
  lemma {:induction false} WalkStep(es: seq<Event>, k: nat)
    requires AllValid(es) && k <= |es| && Boundary(es, k) < |Pack(es)|
    ensures k < |es| && es[..k] + [es[k]] == es[..k + 1]
    ensures StandsAt(Pack(es), Boundary(es, k), es[k])
    ensures Boundary(es, k) + HEADER + |es[k].name| == Boundary(es, k + 1) <= |Pack(es)|
  {
    BoundaryEnds(es, k);
    BoundaryEnds(es, k + 1);
    PackOneMore(es, k);
    RecordStands(es, k);
  }

  /** One pass of the walk: the casts at `ptr`, and the next pointer. */
  method ReadRecord(buf: array<byte>, len: nat, ptr: nat) returns (ev: Event, next: nat)
    requires len <= buf.Length && ptr + HEADER <= len
    requires ptr + HEADER + Decode32(buf[..len][ptr + 12..ptr + 16]) <= len
    ensures ev == RecordAt(buf[..len], ptr) && next == ptr + HEADER + |ev.name|
  {
    assert forall i, j :: 0 <= i <= j <= len ==> buf[i..j] == buf[..len][i..j];
    var nameLen := Decode32(buf[ptr + 12..ptr + 16]);
    ev := Event(Decode32(buf[ptr..ptr + 4]), Decode32(buf[ptr + 4..ptr + 8]), Decode32(buf[ptr + 8..ptr + 12]),
                buf[ptr + HEADER..ptr + HEADER + nameLen]);
    next := ptr + HEADER + nameLen;
  }

  /** The events before the boundary `ptr` have been printed. */
  ghost predicate Walked(es: seq<Event>, printed: seq<Event>, ptr: nat)
    requires AllValid(es)
  {
    |printed| <= |es| && printed == es[..|printed|] && ptr == Boundary(es, |printed|) <= |Pack(es)|
  }

  lemma WalkedNext(es: seq<Event>, printed: seq<Event>, ptr: nat)
    requires AllValid(es) && Walked(es, printed, ptr) && ptr < |Pack(es)|
    ensures |printed| < |es| && StandsAt(Pack(es), ptr, es[|printed|])
    ensures Walked(es, printed + [es[|printed|]], ptr + HEADER + |es[|printed|].name|)
  {
    WalkStep(es, |printed|);
  }

  lemma WalkedEnds(es: seq<Event>, printed: seq<Event>, ptr: nat)
    requires AllValid(es)
    ensures Walked(es, [], 0)
    ensures Walked(es, printed, ptr) && ptr == |Pack(es)| ==> printed == es
  {
    BoundaryEnds(es, 0);
    if Walked(es, printed, ptr) && ptr == |Pack(es)| {
      BoundaryEnds(es, |printed|);
      assert es[..|es|] == es;
    }
  }

  /** The walk over one read: the events come out exactly, the pointer only ever stands on record
      boundaries, and it stops exactly at the end of the data, whatever lies behind it in the buffer. */
  method Walk(buf: array<byte>, len: nat, ghost es: seq<Event>) returns (printed: seq<Event>)
    requires AllValid(es) && len <= buf.Length && buf[..len] == Pack(es)
    ensures printed == es
  {
    printed := [];
    var ptr := 0;
    WalkedEnds(es, [], 0);
    while ptr < len
      invariant Walked(es, printed, ptr)
      decreases len - ptr
    {
      WalkedNext(es, printed, ptr);
      var ev, next := ReadRecord(buf, len, ptr);
      printed := printed + [ev];
      ptr := next;
    }
    WalkedEnds(es, printed, ptr);
  }

  /** How many events one read of `room` bytes returns: whole records while they fit. */
  function FitCount(queue: seq<Event>, room: nat): (n: nat)
    requires AllValid(queue)
    ensures n <= |queue| && |Pack(queue[..n])| <= room
    ensures n < |queue| ==> |Pack(queue[..n])| + |Record(queue[n])| > room
  {
    if queue == [] || |Record(queue[0])| > room then 0
    else
      var n := FitCount(queue[1..], room - |Record(queue[0])|);
      assert queue[..n + 1][1..] == queue[1..][..n];
      n + 1
  }

  lemma MoveOver(printed: seq<Event>, queue: seq<Event>, n: nat)
    requires n <= |queue|
    ensures (printed + queue[..n]) + queue[n..] == printed + queue
    ensures AllValid(queue) ==> AllValid(queue[n..])
  {
  }

  lemma {:induction false} PackIsBounded(es: seq<Event>)
    requires AllValid(es)
    ensures |Pack(es)| <= 272 * |es|
  {
    if es != [] {
      assert ValidEvent(es[0]);
      PackIsBounded(es[1..]);
    }
  }

  /** One read has room for ten events, however long their names. */
  lemma {:induction false} TenEventsFit(queue: seq<Event>)
    requires AllValid(queue)
    ensures FitCount(queue, EVENT_BUF_LEN) >= if |queue| < 10 then |queue| else 10
    ensures |Pack(queue[..FitCount(queue, EVENT_BUF_LEN)])| <= 2720
  {
    var n := FitCount(queue, EVENT_BUF_LEN);
    PackIsBounded(queue[..n]);
    if n < |queue| { assert ValidEvent(queue[n]); }
  }

  /** The parent's side of the watch once nothing is added any more. */
  class Watch {
    var queue: seq<Event>
    var printed: seq<Event>

    /** `read(ifd, event_buf, sizeof(event_buf))` on a queue that is not empty. */
    method ReadEvents(buf: array<byte>) returns (len: nat)
      requires AllValid(queue) && queue != [] && buf.Length == EVENT_BUF_LEN
      modifies this`queue, buf
      ensures var n := FitCount(old(queue), EVENT_BUF_LEN);
              && 0 < n && AllValid(old(queue)[..n]) && queue == old(queue)[n..]
              && len == |Pack(old(queue)[..n])| <= buf.Length && buf[..len] == Pack(old(queue)[..n])
    {
      var n := FitCount(queue, EVENT_BUF_LEN);
      assert ValidEvent(queue[0]);
      assert queue[..0] == [];
      var data := Pack(queue[..n]);
      len := |data|;
      forall i | 0 <= i < len { buf[i] := data[i]; }
      queue := queue[n..];
    }

    /** The drain loop: every queued event is printed, in order, and nothing else. */
    method Drain()
      requires AllValid(queue)
      modifies this
      ensures queue == [] && printed == old(printed) + old(queue)
    {
      var buf := new byte[EVENT_BUF_LEN](_ => 0);
      while queue != []
        invariant AllValid(queue) && printed + queue == old(printed) + old(queue)
        decreases |queue|
      {
        ghost var before, sofar := queue, printed;
        ghost var n := FitCount(queue, EVENT_BUF_LEN);
        var len := ReadEvents(buf);
        var events := Walk(buf, len, before[..n]);
        printed := printed + events;
        MoveOver(sofar, before, n);
      }
    }
  }

  /** Packing loses nothing: equal buffers come from equal event lists. */
  lemma {:induction false} PackInjective(a: seq<Event>, b: seq<Event>)
    requires AllValid(a) && AllValid(b) && Pack(a) == Pack(b)
    ensures a == b
  {
    if a != [] && b != [] {
      PackHead(a);
      PackHead(b);
      PackInjective(a[1..], b[1..]);
      assert a == [a[0]] + a[1..] && b == [b[0]] + b[1..];
    }
  }

  lemma {:induction false} PackHead(es: seq<Event>)
    requires AllValid(es) && es != []
    ensures |Pack(es)| >= HEADER + |es[0].name| && Decode32(Pack(es)[12..16]) == |es[0].name|
    ensures RecordAt(Pack(es), 0) == es[0]
    ensures AllValid(es[1..]) && Pack(es)[HEADER + |es[0].name|..] == Pack(es[1..])
  {
    assert es[..0] == [];
    RecordStands(es, 0);
  }
}

/** The child that emits events, the kernel queue, and the parent's event and drain loops. */
module InotifyLoop {
  import opened InotifyRecords

  /** Where the parent stands. `Polling` to `Readable` are the event loop, the next two the drain loop. */
  datatype Parent = Polling | TimedOut | Readable | DrainPolling | DrainReadable | Broken
                  | DrainedUntilQuiet | DrainCutShort | ReapedAfterError

  datatype State = State(parent: Parent, childExited: bool, emitted: seq<Event>, queue: seq<Event>, printed: seq<Event>)

  datatype Action = Emit(e: Event) | ChildExit | PollReady | PollTimeout | PollInterrupted | PollFailed
                  | CheckChild | Read(n: nat) | ReadInterrupted | ReadFailed | Reap

  function Start(): State { State(Polling, false, [], [], []) }

  /** A read hands over whole events from the front of the queue, as many as fit the buffer. */
  predicate CanRead(s: State, n: nat) {
    && (s.parent.Readable? || s.parent.DrainReadable?)
    && 1 <= n <= |s.queue| && AllValid(s.queue[..n]) && |Pack(s.queue[..n])| <= EVENT_BUF_LEN
  }

  /** A poll or read is interrupted only while it would wait, so never with events queued; it may fail any time. */
  predicate Enabled(s: State, a: Action) {
    match a
    case Emit(e) => !s.childExited && ValidEvent(e)
    case ChildExit => !s.childExited
    case PollReady => (s.parent.Polling? || s.parent.DrainPolling?) && s.queue != []
    case PollTimeout => (s.parent.Polling? || s.parent.DrainPolling?) && s.queue == []
    case PollInterrupted => (s.parent.Polling? || s.parent.DrainPolling?) && s.queue == []
    case PollFailed => s.parent.Polling? || s.parent.DrainPolling?
    case CheckChild => s.parent.TimedOut?
    case Read(n) => CanRead(s, n)
    case ReadInterrupted => (s.parent.Readable? || s.parent.DrainReadable?) && s.queue == []
    case ReadFailed => s.parent.Readable? || s.parent.DrainReadable?
    case Reap => s.parent.Broken? && s.childExited
  }

  /** One step of the child or the parent; a disabled step changes nothing. The drain loop has no retry: an
      interrupted poll ends it like a failed one. */
  function Apply(s: State, a: Action): State {
    if !Enabled(s, a) then s else
    match a
    case Emit(e) => s.(emitted := s.emitted + [e], queue := s.queue + [e])
    case ChildExit => s.(childExited := true)
    case PollReady => s.(parent := if s.parent.Polling? then Readable else DrainReadable)
    case PollTimeout => s.(parent := if s.parent.Polling? then TimedOut else DrainedUntilQuiet)
    case PollInterrupted => s.(parent := if s.parent.Polling? then Polling else DrainCutShort)
    case PollFailed => s.(parent := if s.parent.Polling? then Broken else DrainCutShort)
    case CheckChild => s.(parent := if s.childExited then DrainPolling else Polling)
    case Read(n) =>
      s.(parent := if s.parent.Readable? then Polling else DrainPolling,
         queue := s.queue[n..], printed := s.printed + s.queue[..n])
    case ReadInterrupted => s.(parent := if s.parent.Readable? then Polling else DrainCutShort)
    case ReadFailed => s.(parent := if s.parent.Readable? then Broken else DrainCutShort)
    case Reap => s.(parent := ReapedAfterError)
  }

  function ApplyAll(s: State, actions: seq<Action>): State
    decreases |actions|
  {
    if actions == [] then s else ApplyAll(Apply(s, actions[0]), actions[1..])
  }

  predicate ChildDonePath(p: Parent) {
    p.DrainPolling? || p.DrainReadable? || p.DrainedUntilQuiet? || p.DrainCutShort?
  }

  ghost predicate Inv(s: State) {
    && s.emitted == s.printed + s.queue
    && AllValid(s.queue)
    && (ChildDonePath(s.parent) || s.parent.ReapedAfterError? ==> s.childExited)
    && (s.parent.Readable? || s.parent.DrainReadable? ==> s.queue != [])
    && (s.parent.DrainedUntilQuiet? ==> s.queue == [])
  }

  lemma {:induction false} StepInv(s: State, a: Action)
    requires Inv(s)
    ensures Inv(Apply(s, a))
  {
    match a
    case Emit(e) =>
      assert s.printed + (s.queue + [e]) == (s.printed + s.queue) + [e];
    case Read(n) =>
      if CanRead(s, n) {
        assert s.queue[..n] + s.queue[n..] == s.queue;
        assert (s.printed + s.queue[..n]) + s.queue[n..] == s.printed + s.queue;
      }
    case _ =>
  }

  lemma {:induction false} RunInv(s: State, actions: seq<Action>)
    requires Inv(s)
    ensures Inv(ApplyAll(s, actions))
    decreases |actions|
  {
    if actions != [] {
      StepInv(s, actions[0]);
      RunInv(Apply(s, actions[0]), actions[1..]);
    }
  }

  predicate DrainOver(p: Parent) { p.DrainedUntilQuiet? || p.DrainCutShort? }

  /** A poll or read of the drain loop fails with events still queued. */
  predicate FailsWithEventsQueued(s: State, a: Action) {
    && (a.PollFailed? || a.ReadFailed?) && Enabled(s, a)
    && (s.parent.DrainPolling? || s.parent.DrainReadable?) && s.queue != []
  }

  /** The same, of some step of a run. */
  predicate DrainFailsEarly(s: State, actions: seq<Action>)
    decreases |actions|
  {
    actions != [] && (FailsWithEventsQueued(s, actions[0]) || DrainFailsEarly(Apply(s, actions[0]), actions[1..]))
  }

  lemma {:induction false} DrainOutcome(s: State, actions: seq<Action>)
    requires Inv(s)
    ensures var t := ApplyAll(s, actions);
            DrainOver(t.parent) ==>
              (t.queue == [] <==> !DrainFailsEarly(s, actions) && (DrainOver(s.parent) ==> s.queue == []))
    decreases |actions|
  {
    if actions != [] {
      StepInv(s, actions[0]);
      DrainOutcome(Apply(s, actions[0]), actions[1..]);
    }
  }

  /** In every run each event is printed at most once and in order. A run that finishes on the child-done path
      has printed every emitted event exactly when no poll or read of its drain failed with events queued. */
  lemma {:induction false} EventsPrintedInOrder(actions: seq<Action>)
    ensures var s := ApplyAll(Start(), actions);
            && s.printed <= s.emitted
            && s.emitted == s.printed + s.queue
            && (DrainOver(s.parent) ==>
                  s.childExited && (s.printed == s.emitted <==> !DrainFailsEarly(Start(), actions)))
            && (s.parent.DrainedUntilQuiet? ==> s.printed == s.emitted)
  {
    RunInv(Start(), actions);
    DrainOutcome(Start(), actions);
    var s := ApplyAll(Start(), actions);
    assert |s.emitted| == |s.printed| + |s.queue|;
  }

  /** A poll or read of the event loop fails. */
  predicate LoopCallFails(s: State, a: Action) {
    (a.PollFailed? || a.ReadFailed?) && (s.parent.Polling? || s.parent.Readable?) && Enabled(s, a)
  }

  /** The same, of some step of a run. */
  predicate LoopFails(s: State, actions: seq<Action>)
    decreases |actions|
  {
    actions != [] && (LoopCallFails(s, actions[0]) || LoopFails(Apply(s, actions[0]), actions[1..]))
  }

  predicate GaveUp(p: Parent) { p.Broken? || p.ReapedAfterError? }

  lemma {:induction false} LoopOutcome(s: State, actions: seq<Action>)
    ensures GaveUp(ApplyAll(s, actions).parent) <==> GaveUp(s.parent) || LoopFails(s, actions)
    decreases |actions|
  {
    if actions != [] { LoopOutcome(Apply(s, actions[0]), actions[1..]); }
  }

  /** The parent gives up its event loop exactly when a poll or read there failed; until then a timeout, an
      interruption or a child still running sends it back to the loop, and the drain starts only once the child
      has exited. */
  lemma {:induction false} LeavesLoopOnlyOnError(actions: seq<Action>)
    ensures var s := ApplyAll(Start(), actions);
            && (s.parent.Broken? || s.parent.ReapedAfterError? <==> LoopFails(Start(), actions))
            && (!LoopFails(Start(), actions) && !s.childExited ==>
                  s.parent.Polling? || s.parent.TimedOut? || s.parent.Readable?)
  {
    LoopOutcome(Start(), actions);
    RunInv(Start(), actions);
  }

  /** The child is never held up: while it runs it can emit any event, at the end of the queue, or exit. */
  lemma ChildIsNeverHeldUp(s: State, e: Event)
    requires !s.childExited && ValidEvent(e)
    ensures Apply(s, Emit(e)) == s.(emitted := s.emitted + [e], queue := s.queue + [e])
    ensures Apply(s, ChildExit) == s.(childExited := true)
  {
  }

  /** A poll or read may be interrupted while it has nothing to return, and may fail at any time: an interruption
      sends the event loop round again, a failure ends it, and either ends the drain. */
  lemma CallsCanGoWrong(s: State)
    ensures s.parent.Polling? ==> Apply(s, PollFailed) == s.(parent := Broken)
    ensures s.parent.Readable? ==> Apply(s, ReadFailed) == s.(parent := Broken)
    ensures s.parent.DrainPolling? ==> Apply(s, PollFailed) == s.(parent := DrainCutShort)
    ensures s.parent.DrainReadable? ==> Apply(s, ReadFailed) == s.(parent := DrainCutShort)
    ensures s.parent.Polling? ==> Apply(s, PollInterrupted) == s
    ensures s.parent.DrainPolling? && s.queue == [] ==> Apply(s, PollInterrupted) == s.(parent := DrainCutShort)
    ensures s.queue != [] ==> !Enabled(s, PollInterrupted) && !Enabled(s, ReadInterrupted)
    ensures s.parent.Broken? && s.childExited ==> Apply(s, Reap) == s.(parent := ReapedAfterError)
  {
  }

  /** A read can take as many events as the buffer holds, and prints exactly those. */
  lemma {:induction false} ReadTakesWhatFits(s: State)
    requires Inv(s) && (s.parent.Readable? || s.parent.DrainReadable?)
    ensures var n, t := FitCount(s.queue, EVENT_BUF_LEN), Apply(s, Read(FitCount(s.queue, EVENT_BUF_LEN)));
            && 0 < n && Enabled(s, Read(n))
            && t.printed == s.printed + s.queue[..n] && t.queue == s.queue[n..]
            && t.parent == if s.parent.Readable? then Polling else DrainPolling
  {
    TenEventsFit(s.queue);
  }

  /** Once the child has exited nothing can add to the queue any more. */
  lemma {:induction false} NothingAfterExit(s: State, actions: seq<Action>)
    requires s.childExited
    ensures ApplyAll(s, actions).childExited && ApplyAll(s, actions).emitted == s.emitted
    decreases |actions|
  {
    if actions != [] { NothingAfterExit(Apply(s, actions[0]), actions[1..]); }
  }

  /** The drain reports no error and does not retry, so a failed poll there ends the program with an event unread. */
  lemma {:induction false} DrainCanLoseEvents(e: Event)
    requires ValidEvent(e)
    ensures var s := ApplyAll(Start(), [PollTimeout, Emit(e), ChildExit, CheckChild, PollFailed]);
            s.parent.DrainCutShort? && s.emitted == [e] && s.printed == []
  {
    var s1 := State(TimedOut, false, [], [], []);
    var s2 := State(TimedOut, false, [e], [e], []);
    var s3 := State(TimedOut, true, [e], [e], []);
    var s4 := State(DrainPolling, true, [e], [e], []);
    var s5 := State(DrainCutShort, true, [e], [e], []);
    assert Apply(Start(), PollTimeout) == s1 && Apply(s1, Emit(e)) == s2 && Apply(s2, ChildExit) == s3;
    assert Apply(s3, CheckChild) == s4 && Apply(s4, PollFailed) == s5;
    assert ApplyAll(s4, [PollFailed]) == s5;
    assert ApplyAll(s3, [CheckChild, PollFailed]) == s5;
    assert ApplyAll(s2, [ChildExit, CheckChild, PollFailed]) == s5;
    assert ApplyAll(s1, [Emit(e), ChildExit, CheckChild, PollFailed]) == s5;
  }

  /** The parent's system calls when none is interrupted or fails. */
  predicate Undisturbed(a: Action) {
    a.PollReady? || a.PollTimeout? || a.CheckChild? || a.Read?
  }

  function Weight(p: Parent): nat {
    match p
    case Polling => 6
    case Readable => 5
    case TimedOut => 5
    case DrainPolling => 4
    case DrainReadable => 3
    case _ => 0
  }

  function Work(s: State): nat { 3 * |s.queue| + Weight(s.parent) }

  /** What an undisturbed parent does next. */
  function NextCall(s: State): Action {
    if s.parent.TimedOut? then CheckChild
    else if s.parent.Readable? || s.parent.DrainReadable? then Read(1)
    else if s.queue == [] then PollTimeout
    else PollReady
  }

  /** A schedule of the parent alone, every call of which can be made and none of which is disturbed. */
  predicate UndisturbedSchedule(s: State, actions: seq<Action>)
    decreases |actions|
  {
    actions != [] ==>
      Undisturbed(actions[0]) && Enabled(s, actions[0]) && UndisturbedSchedule(Apply(s, actions[0]), actions[1..])
  }

  /** The parent is in one of its loops, or done with a drain that ended on a quiet queue. */
  predicate OnTrack(p: Parent) { Weight(p) > 0 || p.DrainedUntilQuiet? }

  lemma {:induction false} ParentProgresses(s: State)
    requires Inv(s) && s.childExited && OnTrack(s.parent)
    ensures forall a :: Undisturbed(a) && Enabled(s, a) ==> Work(Apply(s, a)) < Work(s) && OnTrack(Apply(s, a).parent)
    ensures !s.parent.DrainedUntilQuiet? ==> Undisturbed(NextCall(s)) && Enabled(s, NextCall(s))
  {
    if s.queue != [] {
      assert s.queue[0] in s.queue && s.queue[..1] == [s.queue[0]] && s.queue[..1][1..] == [];
      assert |Pack(s.queue[..1])| <= EVENT_BUF_LEN;
    }
  }

  /** After the child exits, no undisturbed schedule of the parent is longer than its work, and one that cannot
      go on has ended the drain on a quiet queue with every event printed. */
  lemma {:induction false} UndisturbedParentPrintsAll(s: State, actions: seq<Action>)
    requires Inv(s) && s.childExited && OnTrack(s.parent) && UndisturbedSchedule(s, actions)
    ensures |actions| <= Work(s)
    ensures var t := ApplyAll(s, actions);
            && (t.parent.DrainedUntilQuiet? <==> forall a :: Undisturbed(a) ==> !Enabled(t, a))
            && (t.parent.DrainedUntilQuiet? ==> t.printed == s.emitted)
    decreases |actions|
  {
    ParentProgresses(s);
    if actions == [] {
      assert !s.parent.DrainedUntilQuiet? ==> Undisturbed(NextCall(s)) && Enabled(s, NextCall(s));
      assert s.parent.DrainedUntilQuiet? ==> s.emitted == s.printed;
    } else {
      StepInv(s, actions[0]);
      UndisturbedParentPrintsAll(Apply(s, actions[0]), actions[1..]);
    }
  }

  /** Unless a call of the event loop failed or the drain was cut short, wherever the parent stands when the child
      has exited, also between a poll timeout and the check that finds the child gone: every undisturbed
      continuation ends, and ends with all events printed. */
  lemma {:induction false} ParentFinishes(past: seq<Action>, actions: seq<Action>)
    requires !LoopFails(Start(), past)
    requires var s := ApplyAll(Start(), past);
             s.childExited && !s.parent.DrainCutShort? && UndisturbedSchedule(s, actions)
    ensures var s := ApplyAll(Start(), past);
            var t := ApplyAll(s, actions);
            && |actions| <= 3 * |s.queue| + 6
            && (t.parent.DrainedUntilQuiet? <==> forall a :: Undisturbed(a) ==> !Enabled(t, a))
            && (t.parent.DrainedUntilQuiet? ==> t.printed == s.emitted)
  {
    RunInv(Start(), past);
    LoopOutcome(Start(), past);
    UndisturbedParentPrintsAll(ApplyAll(Start(), past), actions);
  }
}
