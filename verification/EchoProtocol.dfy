/** The echo client and server over two byte streams. */
module EchoProtocol {
  import opened Bytes

  type Message = seq<byte>

  /** Both sides read into `buf[BUF_SIZE]`, keeping one byte for the terminator. */
  const READ_MAX: nat := 255

  datatype Client = Unconnected | Sending | Awaiting | Closed
  datatype Server = Accepting | Reading | Writing(buf: Message) | Finished | Aborted(buf: Message)

  /** `sent` counts written messages; `echoes` holds the result of each client read. */
  datatype State = State(client: Client, sent: nat, echoes: seq<Message>,
                         server: Server, forward: Message, back: Message)

  datatype Action = Connect | ClientWrite | ClientRead(n: nat) | ClientClose
                  | Accept | ServerRead(n: nat) | ServerWrite | ServerReset

  function Flat(ms: seq<Message>): Message {
    if ms == [] then [] else ms[0] + Flat(ms[1..])
  }

  function Start(): State {
    State(Unconnected, 0, [], Accepting, [], [])
  }

  function Min(a: nat, b: nat): nat { if a < b then a else b }

  /** When each system call can complete. A read completes with data, or with 0 once the peer has closed. */
  predicate Enabled(msgs: seq<Message>, s: State, a: Action) {
    match a
    case Connect => s.client.Unconnected?
    case ClientWrite => s.client.Sending? && s.sent < |msgs|
    case ClientRead(n) =>
      s.client.Awaiting? &&
      if s.back == [] then n == 0 && s.server.Finished? else 1 <= n <= Min(READ_MAX, |s.back|)
    case ClientClose => s.client.Sending? && s.sent == |msgs|
    case Accept => s.server.Accepting? && !s.client.Unconnected?
    case ServerRead(n) =>
      s.server.Reading? &&
      if s.forward == [] then n == 0 && s.client.Closed? else 1 <= n <= Min(READ_MAX, |s.forward|)
    case ServerWrite => s.server.Writing?
    // Closing a socket that is still owed bytes may answer the server's next call with a reset.
    case ServerReset =>
      (s.server.Reading? || s.server.Writing?) && s.client.Closed? && |Flat(s.echoes)| < |Flat(msgs)|
  }

  function Apply(msgs: seq<Message>, s: State, a: Action): State
    requires Enabled(msgs, s, a)
  {
    match a
    case Connect => s.(client := Sending)
    case ClientWrite => s.(client := Awaiting, sent := s.sent + 1, forward := s.forward + msgs[s.sent])
    case ClientRead(n) => s.(client := Sending, echoes := s.echoes + [s.back[..n]], back := s.back[n..])
    case ClientClose => s.(client := Closed)
    case Accept => s.(server := Reading)
    case ServerRead(n) =>
      if n == 0 then s.(server := Finished)
      else s.(server := Writing(s.forward[..n]), forward := s.forward[n..])
    case ServerWrite => s.(server := Reading, back := s.back + s.server.buf)
    case ServerReset => s.(server := Aborted(if s.server.Writing? then s.server.buf else []))
  }

  /** A schedule every step of which can be taken. */
  ghost predicate Legal(msgs: seq<Message>, s: State, actions: seq<Action>)
    decreases |actions|
  {
    actions != [] ==> Enabled(msgs, s, actions[0]) && Legal(msgs, Apply(msgs, s, actions[0]), actions[1..])
  }

  ghost function ApplyAll(msgs: seq<Message>, s: State, actions: seq<Action>): State
    requires Legal(msgs, s, actions)
    decreases |actions|
  {
    if actions == [] then s else ApplyAll(msgs, Apply(msgs, s, actions[0]), actions[1..])
  }

  function ServerBuffer(server: Server): Message {
    if server.Writing? || server.Aborted? then server.buf else []
  }

  predicate NonEmpty(msgs: seq<Message>) {
    forall m <- msgs :: m != []
  }

  ghost predicate Inv(msgs: seq<Message>, s: State) {
    && s.sent <= |msgs|
    // What was sent is what came back, then what is on its way back, held, and on its way out.
    && Conserved(msgs, s)
    && |s.echoes| == (if s.client.Awaiting? then s.sent - 1 else s.sent)
    && (s.client.Awaiting? ==> s.sent > 0 && |Flat(s.echoes)| <= |Flat(msgs[..s.sent - 1])|)
    && (s.client.Unconnected? ==> s.server.Accepting? && s.sent == 0)
    && (s.client.Closed? ==> s.sent == |msgs|)
    && (s.server.Writing? ==> s.server.buf != [])
    && (s.server.Accepting? ==> s.back == [])
    && (s.server.Finished? || s.server.Aborted? ==> s.client.Closed?)
    && (s.server.Finished? ==> s.forward == [])
  }

  // --- Flattening ---

  lemma {:induction false} FlatAppend(ms: seq<Message>, m: Message)
    ensures Flat(ms + [m]) == Flat(ms) + m
  {
    if ms == [] {
      assert ms + [m] == [m] && [m][1..] == [] && Flat([m]) == m + Flat([]);
    } else {
      assert (ms + [m])[1..] == ms[1..] + [m];
      FlatAppend(ms[1..], m);
      assert (ms[0] + Flat(ms[1..])) + m == ms[0] + (Flat(ms[1..]) + m);
    }
  }

  lemma {:induction false} FlatTake(ms: seq<Message>, k: nat)
    requires k < |ms|
    ensures Flat(ms[..k + 1]) == Flat(ms[..k]) + ms[k]
  {
    assert ms[..k + 1] == ms[..k] + [ms[k]];
    FlatAppend(ms[..k], ms[k]);
  }

  // --- Safety ---

  ghost predicate Conserved(msgs: seq<Message>, s: State)
    requires s.sent <= |msgs|
  {
    Flat(msgs[..s.sent]) == Flat(s.echoes) + s.back + ServerBuffer(s.server) + s.forward
  }

  lemma AppendRight(a: Message, b: Message, c: Message)
    ensures (a + b) + c == a + (b + c) == a + (b + c) + []
  {
  }

  /** The first `n` bytes on their way back are received. */
  lemma MoveLeft(a: Message, b: Message, c: Message, d: Message, n: nat)
    requires n <= |b|
    ensures a + b + c + d == (a + b[..n]) + b[n..] + c + d
  {
    assert a + b == (a + b[..n]) + b[n..];
  }

  /** The first `n` bytes under way come into the server's empty buffer. */
  lemma HandOver(a: Message, d: Message, n: nat)
    requires n <= |d|
    ensures a + [] + d == a + d[..n] + d[n..]
  {
  }

  lemma {:induction false} StepConserves(msgs: seq<Message>, s: State, a: Action)
    requires s.sent <= |msgs| && Conserved(msgs, s) && Enabled(msgs, s, a)
    ensures Apply(msgs, s, a).sent <= |msgs| && Conserved(msgs, Apply(msgs, s, a))
  {
    var echoed, buf := Flat(s.echoes), ServerBuffer(s.server);
    match a
    case ClientWrite =>
      FlatTake(msgs, s.sent);
      AppendRight(echoed + s.back + buf, s.forward, msgs[s.sent]);
    case ClientRead(n) =>
      FlatAppend(s.echoes, s.back[..n]);
      MoveLeft(echoed, s.back, buf, s.forward, n);
    case ServerRead(n) => HandOver(echoed + s.back, s.forward, n);
    case ServerWrite => AppendRight(echoed, s.back, buf);
    case _ =>
  }

  lemma {:induction false} StepInv(msgs: seq<Message>, s: State, a: Action)
    requires Inv(msgs, s) && Enabled(msgs, s, a)
    ensures Inv(msgs, Apply(msgs, s, a))
  {
    StepConserves(msgs, s, a);
  }

  /** A waiting client is owed at least the message it sent last. */
  lemma {:induction false} OwedWhileAwaiting(msgs: seq<Message>, s: State)
    requires Inv(msgs, s) && NonEmpty(msgs)
    ensures s.client.Awaiting? ==>
              s.sent > 0 && |Flat(msgs[..s.sent])| - |Flat(s.echoes)| >= |msgs[s.sent - 1]| >= 1
  {
    if s.client.Awaiting? {
      FlatTake(msgs, s.sent - 1);
      assert msgs[s.sent - 1] in msgs;
    }
  }

  lemma {:induction false} RunInv(msgs: seq<Message>, s: State, actions: seq<Action>)
    requires Inv(msgs, s) && Legal(msgs, s, actions)
    ensures Inv(msgs, ApplyAll(msgs, s, actions))
    decreases |actions|
  {
    if actions != [] {
      StepInv(msgs, s, actions[0]);
      RunInv(msgs, Apply(msgs, s, actions[0]), actions[1..]);
    }
  }

  /** In every reachable state: conservation, received is a prefix of sent, and a client that waits for read
      `i` is still owed a whole message's worth of bytes, so that read neither sees end of file nor hangs. */
  lemma {:induction false} EchoIsConserved(msgs: seq<Message>, actions: seq<Action>)
    requires NonEmpty(msgs) && Legal(msgs, Start(), actions)
    ensures var s := ApplyAll(msgs, Start(), actions);
            && s.sent <= |msgs|
            && Flat(msgs[..s.sent]) == Flat(s.echoes) + s.back + ServerBuffer(s.server) + s.forward
            && Flat(s.echoes) <= Flat(msgs[..s.sent])
            && (s.client.Awaiting? ==>
                  && s.sent > 0
                  && |Flat(msgs[..s.sent])| - |Flat(s.echoes)| >= |msgs[s.sent - 1]| >= 1
                  && !Enabled(msgs, s, ClientRead(0)))
  {
    RunInv(msgs, Start(), actions);
    var s := ApplyAll(msgs, Start(), actions);
    OwedWhileAwaiting(msgs, s);
    assert Flat(s.echoes) + s.back + ServerBuffer(s.server) + s.forward
        == Flat(s.echoes) + (s.back + ServerBuffer(s.server) + s.forward);
  }

  // --- Liveness ---

  predicate Over(s: State) {
    s.client.Closed? && (s.server.Finished? || s.server.Aborted?)
  }

  /** A step some process can take. */
  function Choose(msgs: seq<Message>, s: State): Action {
    if s.client.Unconnected? then Connect
    else if s.server.Accepting? then Accept
    else if s.server.Writing? then ServerWrite
    else if s.client.Sending? then (if s.sent < |msgs| then ClientWrite else ClientClose)
    else if s.client.Awaiting? && s.back != [] then ClientRead(1)
    else if s.forward == [] then ServerRead(0)
    else ServerRead(1)
  }

  lemma {:induction false} NeverDeadlocks(msgs: seq<Message>, s: State)
    requires Inv(msgs, s) && NonEmpty(msgs)
    ensures Over(s) <==> forall a :: !Enabled(msgs, s, a)
    ensures !Over(s) ==> Enabled(msgs, s, Choose(msgs, s))
  {
    OwedWhileAwaiting(msgs, s);
    assert Over(s) || Enabled(msgs, s, Choose(msgs, s));
  }

  function ClientWork(client: Client): nat {
    match client
    case Unconnected => 3
    case Awaiting => 2
    case Sending => 1
    case Closed => 0
  }

  function ServerWork(server: Server): nat {
    match server
    case Accepting => 2
    case Reading => 1
    case Writing(_) => 1
    case _ => 0
  }

  /** Bytes weighted by the number of hops they still have to make, plus the phases left. */
  ghost function Work(msgs: seq<Message>, s: State): int
    requires s.sent <= |msgs|
  {
    3 * (|Flat(msgs)| - |Flat(msgs[..s.sent])| + |s.forward|) + 2 * |ServerBuffer(s.server)| + |s.back|
    + 2 * (|msgs| - s.sent) + ClientWork(s.client) + ServerWork(s.server)
  }

  lemma {:induction false} FlatSplit(ms: seq<Message>, k: nat)
    requires k <= |ms|
    ensures |Flat(ms[..k])| <= |Flat(ms)|
    decreases |ms| - k
  {
    if k < |ms| {
      FlatTake(ms, k);
      FlatSplit(ms, k + 1);
    } else {
      assert ms[..k] == ms;
    }
  }

  lemma {:induction false} EveryStepProgresses(msgs: seq<Message>, s: State, a: Action)
    requires s.sent <= |msgs| && Enabled(msgs, s, a) && (s.server.Writing? ==> s.server.buf != [])
    ensures Apply(msgs, s, a).sent <= |msgs|
    ensures 0 <= Work(msgs, Apply(msgs, s, a)) < Work(msgs, s)
  {
    FlatSplit(msgs, s.sent);
    FlatSplit(msgs, Apply(msgs, s, a).sent);
    match a
    case ClientWrite =>
      FlatTake(msgs, s.sent);
      assert |Apply(msgs, s, a).forward| == |s.forward| + |msgs[s.sent]|;
    case ClientRead(n) =>
      assert |Apply(msgs, s, a).back| == |s.back| - n;
    case ServerRead(n) =>
      assert n > 0 ==> |Apply(msgs, s, a).forward| == |s.forward| - n;
    case ServerWrite =>
      assert |Apply(msgs, s, a).back| == |s.back| + |s.server.buf|;
    case _ =>
  }

  /** No schedule is longer than the work at the start, and one that cannot be extended is over. */
  lemma {:induction false} AlwaysTerminates(msgs: seq<Message>, s: State, actions: seq<Action>)
    requires NonEmpty(msgs) && Inv(msgs, s) && Legal(msgs, s, actions)
    ensures |actions| <= Work(msgs, s)
    ensures (forall a :: !Enabled(msgs, ApplyAll(msgs, s, actions), a)) ==> Over(ApplyAll(msgs, s, actions))
    decreases |actions|
  {
    if actions == [] {
      NeverDeadlocks(msgs, s);
      FlatSplit(msgs, s.sent);
    } else {
      EveryStepProgresses(msgs, s, actions[0]);
      StepInv(msgs, s, actions[0]);
      AlwaysTerminates(msgs, Apply(msgs, s, actions[0]), actions[1..]);
    }
  }

  /** Every session from the start is finite, with an explicit bound, and stops only when both sides are done. */
  lemma {:induction false} EverySessionEnds(msgs: seq<Message>, actions: seq<Action>)
    requires NonEmpty(msgs) && Legal(msgs, Start(), actions)
    ensures |actions| <= 3 * |Flat(msgs)| + 2 * |msgs| + 5
    ensures var s := ApplyAll(msgs, Start(), actions);
            Over(s) <==> forall a :: !Enabled(msgs, s, a)
  {
    assert msgs[..0] == [];
    AlwaysTerminates(msgs, Start(), actions);
    RunInv(msgs, Start(), actions);
    NeverDeadlocks(msgs, ApplyAll(msgs, Start(), actions));
  }

  // --- Whole echoes ---

  lemma {:induction false} SameCuts(a: seq<Message>, b: seq<Message>)
    requires |a| <= |b| && Flat(a) <= Flat(b)
    requires forall i :: 0 <= i < |a| ==> |a[i]| == |b[i]|
    ensures a <= b
  {
    if a != [] {
      assert Flat(a)[..|a[0]|] == a[0] && Flat(b)[..|b[0]|] == b[0];
      assert Flat(a)[|a[0]|..] == Flat(a[1..]) && Flat(b)[|b[0]|..] == Flat(b[1..]);
      var n := |a[0]|;
      assert Flat(a)[..n] == Flat(b)[..n] && Flat(a)[n..] <= Flat(b)[n..];
      assert a[0] == b[0];
      SameCuts(a[1..], b[1..]);
      assert a == [a[0]] + a[1..] && b == [b[0]] + b[1..];
    }
  }

  /** In every reachable state the echoes so far equal their messages exactly when every read was as long as
      its message; if that is so once the client closes, nothing is owed and the server cannot be reset. */
  lemma {:induction false} WholeReadsEchoExactly(msgs: seq<Message>, actions: seq<Action>)
    requires NonEmpty(msgs) && Legal(msgs, Start(), actions)
    ensures var s := ApplyAll(msgs, Start(), actions);
            && |s.echoes| <= |msgs|
            && (s.echoes <= msgs <==> forall i :: 0 <= i < |s.echoes| ==> |s.echoes[i]| == |msgs[i]|)
            && (s.client.Closed? ==> |s.echoes| == |msgs|)
            && (s.client.Closed? && s.echoes == msgs ==>
                  !Enabled(msgs, s, ServerReset) && s.back == [] && s.forward == [] && ServerBuffer(s.server) == [])
  {
    EchoIsConserved(msgs, actions);
    RunInv(msgs, Start(), actions);
    var s := ApplyAll(msgs, Start(), actions);
    if forall i :: 0 <= i < |s.echoes| ==> |s.echoes[i]| == |msgs[i]| {
      SameCuts(s.echoes, msgs[..s.sent]);
    }
    if s.client.Closed? && s.echoes == msgs { NothingOwed(msgs, s); }
  }

  lemma {:induction false} NothingOwed(msgs: seq<Message>, s: State)
    requires s.sent == |msgs| && Conserved(msgs, s) && s.echoes == msgs
    ensures !Enabled(msgs, s, ServerReset) && s.back == [] && s.forward == [] && ServerBuffer(s.server) == []
  {
    assert msgs[..s.sent] == msgs;
    assert |Flat(msgs)| == |Flat(s.echoes)| + |s.back| + |ServerBuffer(s.server)| + |s.forward|;
  }

  lemma {:induction false} SessionEnd(msgs: seq<Message>, s: State)
    requires Inv(msgs, s) && Over(s)
    ensures |s.echoes| == |msgs| && Flat(s.echoes) <= Flat(msgs)
  {
    assert msgs[..s.sent] == msgs;
    assert Flat(s.echoes) + s.back + ServerBuffer(s.server) + s.forward
        == Flat(s.echoes) + (s.back + ServerBuffer(s.server) + s.forward);
  }

  /** What holds all through a session. */
  ghost predicate InSession(msgs: seq<Message>, s: State) {
    Inv(msgs, s) && (s.server.Aborted? ==> |Flat(s.echoes)| < |Flat(msgs)|)
  }

  lemma {:induction false} SessionStep(msgs: seq<Message>, s: State, a: Action)
    requires InSession(msgs, s) && Enabled(msgs, s, a)
    ensures InSession(msgs, Apply(msgs, s, a)) && 0 <= Work(msgs, Apply(msgs, s, a)) < Work(msgs, s)
  {
    EveryStepProgresses(msgs, s, a);
    StepInv(msgs, s, a);
  }

  // --- Which reads and which sessions are possible ---

  /** A side with bytes to read can take any number of them from one up to a whole buffer, and gets exactly
      that many from the front. */
  lemma ReadsTakeAnyLength(msgs: seq<Message>, s: State, n: nat)
    ensures s.server.Reading? && s.forward != [] ==>
              && (Enabled(msgs, s, ServerRead(n)) <==> 1 <= n <= 255 && n <= |s.forward|)
              && (Enabled(msgs, s, ServerRead(n)) ==>
                    && Apply(msgs, s, ServerRead(n)).server == Writing(s.forward[..n])
                    && Apply(msgs, s, ServerRead(n)).forward == s.forward[n..])
    ensures s.client.Awaiting? && s.back != [] ==>
              && (Enabled(msgs, s, ClientRead(n)) <==> 1 <= n <= 255 && n <= |s.back|)
              && (Enabled(msgs, s, ClientRead(n)) ==>
                    && Apply(msgs, s, ClientRead(n)).echoes == s.echoes + [s.back[..n]]
                    && Apply(msgs, s, ClientRead(n)).back == s.back[n..])
  {
  }

  predicate IsClientCall(a: Action) { a.Connect? || a.ClientWrite? || a.ClientRead? || a.ClientClose? }

  /** In a reachable state a side is held up in exactly these cases. */
  lemma WhoIsHeldUp(msgs: seq<Message>, s: State)
    requires Inv(msgs, s)
    ensures (forall a :: IsClientCall(a) ==> !Enabled(msgs, s, a)) <==>
              s.client.Closed? || (s.client.Awaiting? && s.back == [])
    ensures (forall a :: !IsClientCall(a) ==> !Enabled(msgs, s, a)) <==>
              || s.server.Finished? || s.server.Aborted?
              || (s.server.Accepting? && s.client.Unconnected?)
              || (s.server.Reading? && s.forward == [] && !s.client.Closed?)
    ensures Enabled(msgs, s, ServerReset) <==>
              s.client.Closed? && |Flat(s.echoes)| < |Flat(msgs)| && (s.server.Reading? || s.server.Writing?)
  {
    if !s.client.Closed? && !(s.client.Awaiting? && s.back == []) {
      var a := if s.client.Unconnected? then Connect
               else if s.client.Awaiting? then ClientRead(1)
               else if s.sent < |msgs| then ClientWrite else ClientClose;
      assert IsClientCall(a) && Enabled(msgs, s, a);
    }
    if s.server.Accepting? && !s.client.Unconnected? {
      assert !IsClientCall(Accept) && Enabled(msgs, s, Accept);
    } else if s.server.Writing? {
      assert !IsClientCall(ServerWrite) && Enabled(msgs, s, ServerWrite);
    } else if s.server.Reading? && (s.forward != [] || s.client.Closed?) {
      var n := if s.forward == [] then 0 else 1;
      assert !IsClientCall(ServerRead(n)) && Enabled(msgs, s, ServerRead(n));
    }
  }

  lemma {:induction false} StepThen(msgs: seq<Message>, s: State, a: Action, rest: seq<Action>)
    requires Enabled(msgs, s, a) && Legal(msgs, Apply(msgs, s, a), rest)
    ensures Legal(msgs, s, [a] + rest)
    ensures ApplyAll(msgs, s, [a] + rest) == ApplyAll(msgs, Apply(msgs, s, a), rest)
  {
    assert ([a] + rest)[0] == a && ([a] + rest)[1..] == rest;
  }

  /** Between two messages, with everything echoed so far. */
  function Between(msgs: seq<Message>, k: nat): State
    requires k <= |msgs|
  {
    State(Sending, k, msgs[..k], Reading, [], [])
  }

  lemma {:induction false} WholeRound(msgs: seq<Message>, k: nat, rest: seq<Action>) returns (actions: seq<Action>)
    requires k < |msgs| && 1 <= |msgs[k]| <= 255 && Legal(msgs, Between(msgs, k + 1), rest)
    ensures Legal(msgs, Between(msgs, k), actions)
    ensures ApplyAll(msgs, Between(msgs, k), actions) == ApplyAll(msgs, Between(msgs, k + 1), rest)
  {
    var m := msgs[k];
    var s0 := Between(msgs, k);
    var s1 := State(Awaiting, k + 1, msgs[..k], Reading, m, []);
    var s2 := State(Awaiting, k + 1, msgs[..k], Writing(m), [], []);
    var s3 := State(Awaiting, k + 1, msgs[..k], Reading, [], m);
    assert [] + m == m && m[..|m|] == m && m[|m|..] == [] && msgs[..k] + [m] == msgs[..k + 1];
    assert Apply(msgs, s0, ClientWrite) == s1 && Apply(msgs, s1, ServerRead(|m|)) == s2;
    assert Apply(msgs, s2, ServerWrite) == s3 && Apply(msgs, s3, ClientRead(|m|)) == Between(msgs, k + 1);
    StepThen(msgs, s3, ClientRead(|m|), rest);
    var last := [ClientRead(|m|)] + rest;
    StepThen(msgs, s2, ServerWrite, last);
    StepThen(msgs, s1, ServerRead(|m|), [ServerWrite] + last);
    StepThen(msgs, s0, ClientWrite, [ServerRead(|m|)] + ([ServerWrite] + last));
    actions := [ClientWrite] + ([ServerRead(|m|)] + ([ServerWrite] + last));
  }

  lemma {:induction false} WholeRounds(msgs: seq<Message>, k: nat) returns (actions: seq<Action>)
    requires k <= |msgs| && forall m <- msgs :: 1 <= |m| <= 255
    ensures Legal(msgs, Between(msgs, k), actions)
    ensures var s := ApplyAll(msgs, Between(msgs, k), actions); Over(s) && s.server.Finished? && s.echoes == msgs
    decreases |msgs| - k
  {
    if k == |msgs| {
      var s0 := Between(msgs, k);
      var s1 := s0.(client := Closed);
      StepThen(msgs, s1, ServerRead(0), []);
      StepThen(msgs, s0, ClientClose, [ServerRead(0)] + []);
      actions := [ClientClose] + ([ServerRead(0)] + []);
      assert msgs[..k] == msgs;
    } else {
      var rest := WholeRounds(msgs, k + 1);
      assert msgs[k] in msgs;
      actions := WholeRound(msgs, k, rest);
    }
  }

  /** Messages that fit the buffer can all come back whole. */
  lemma {:induction false} WholeEchoIsPossible(msgs: seq<Message>) returns (actions: seq<Action>)
    requires forall m <- msgs :: 1 <= |m| <= 255
    ensures Legal(msgs, Start(), actions)
    ensures var s := ApplyAll(msgs, Start(), actions); Over(s) && s.server.Finished? && s.echoes == msgs
  {
    var rest := WholeRounds(msgs, 0);
    var s1 := Apply(msgs, Start(), Connect);
    assert Apply(msgs, s1, Accept) == Between(msgs, 0);
    StepThen(msgs, s1, Accept, rest);
    StepThen(msgs, Start(), Connect, [Accept] + rest);
    actions := [Connect] + ([Accept] + rest);
  }

  // --- A session as one loop ---

  lemma {:induction false} LegalLast(msgs: seq<Message>, s: State, actions: seq<Action>, a: Action)
    requires Legal(msgs, s, actions) && Enabled(msgs, ApplyAll(msgs, s, actions), a)
    ensures Legal(msgs, s, actions + [a])
    ensures ApplyAll(msgs, s, actions + [a]) == Apply(msgs, ApplyAll(msgs, s, actions), a)
    decreases |actions|
  {
    if actions == [] {
      StepThen(msgs, s, a, []);
      assert [] + [a] == [a] + [];
    } else {
      var t := Apply(msgs, s, actions[0]);
      LegalLast(msgs, t, actions[1..], a);
      assert actions + [a] == [actions[0]] + (actions[1..] + [a]);
      StepThen(msgs, s, actions[0], actions[1..] + [a]);
    }
  }

  lemma {:induction false} LegalTake(msgs: seq<Message>, s: State, actions: seq<Action>, k: nat)
    requires Legal(msgs, s, actions) && k < |actions|
    ensures Legal(msgs, s, actions[..k]) && Enabled(msgs, ApplyAll(msgs, s, actions[..k]), actions[k])
    decreases |actions|
  {
    if k > 0 {
      LegalTake(msgs, Apply(msgs, s, actions[0]), actions[1..], k - 1);
      assert actions[..k] == [actions[0]] + actions[1..][..k - 1];
      StepThen(msgs, s, actions[0], actions[1..][..k - 1]);
    }
  }

  /** `taken` does what `next` says wherever that is possible. */
  ghost predicate Follows(msgs: seq<Message>, taken: seq<Action>, next: nat -> Action)
    requires Legal(msgs, Start(), taken)
  {
    forall k: nat :: k < |taken| ==>
      (Legal(msgs, Start(), taken[..k]) &&
       (Enabled(msgs, ApplyAll(msgs, Start(), taken[..k]), next(k)) ==> taken[k] == next(k)))
  }

  /** `taken` led to `s`. */
  ghost predicate Took(msgs: seq<Message>, taken: seq<Action>, next: nat -> Action, s: State) {
    Legal(msgs, Start(), taken) && Follows(msgs, taken, next) && s == ApplyAll(msgs, Start(), taken)
  }

  lemma {:induction false} TookNext(msgs: seq<Message>, taken: seq<Action>, next: nat -> Action, s: State, a: Action)
    requires Took(msgs, taken, next, s)
    requires Enabled(msgs, s, a) && (Enabled(msgs, s, next(|taken|)) ==> a == next(|taken|))
    ensures Took(msgs, taken + [a], next, Apply(msgs, s, a))
  {
    LegalLast(msgs, Start(), taken, a);
    var more := taken + [a];
    forall k: nat | k < |more|
      ensures Legal(msgs, Start(), more[..k]) &&
              (Enabled(msgs, ApplyAll(msgs, Start(), more[..k]), next(k)) ==> more[k] == next(k))
    {
      assert more[..k] == if k < |taken| then taken[..k] else taken;
    }
  }

  /** A finished schedule that `next` prescribes is the one that was taken. */
  lemma {:induction false} FollowsOnlyOne(msgs: seq<Message>, taken: seq<Action>, next: nat -> Action,
                                          other: seq<Action>, k: nat)
    requires Legal(msgs, Start(), taken) && Follows(msgs, taken, next) && Legal(msgs, Start(), other)
    requires forall i :: 0 <= i < |other| ==> other[i] == next(i)
    requires k <= |taken| && k <= |other|
    ensures taken[..k] == other[..k]
  {
    if k > 0 {
      FollowsOnlyOne(msgs, taken, next, other, k - 1);
      LegalTake(msgs, Start(), other, k - 1);
      assert taken[k - 1] == next(k - 1) == other[k - 1];
      assert taken[..k] == taken[..k - 1] + [taken[k - 1]] && other[..k] == other[..k - 1] + [other[k - 1]];
    }
  }

  lemma {:induction false} OverIsTheEnd(msgs: seq<Message>, actions: seq<Action>, k: nat)
    requires NonEmpty(msgs) && Legal(msgs, Start(), actions) && k < |actions|
    ensures Legal(msgs, Start(), actions[..k]) && !Over(ApplyAll(msgs, Start(), actions[..k]))
  {
    LegalTake(msgs, Start(), actions, k);
    assert msgs[..0] == [];
    RunInv(msgs, Start(), actions[..k]);
    NeverDeadlocks(msgs, ApplyAll(msgs, Start(), actions[..k]));
  }

  /** `next` prescribes a whole session, every step of which can be taken. */
  ghost predicate Prescribed(msgs: seq<Message>, next: nat -> Action, actions: seq<Action>) {
    && Legal(msgs, Start(), actions) && Over(ApplyAll(msgs, Start(), actions))
    && forall i :: 0 <= i < |actions| ==> actions[i] == next(i)
  }

  lemma {:induction false} SameEnd(msgs: seq<Message>, taken: seq<Action>, next: nat -> Action, other: seq<Action>)
    requires NonEmpty(msgs) && Legal(msgs, Start(), taken) && Follows(msgs, taken, next)
    requires Over(ApplyAll(msgs, Start(), taken)) && Prescribed(msgs, next, other)
    ensures other == taken
  {
    var k := Min(|taken|, |other|);
    FollowsOnlyOne(msgs, taken, next, other, k);
    assert taken[..|taken|] == taken && other[..|other|] == other;
    if k < |taken| { OverIsTheEnd(msgs, taken, k); }
    if k < |other| { OverIsTheEnd(msgs, other, k); }
  }

  /** One whole session under any schedule: `next` names the step to take, and any process that can move stands
      in when that one cannot. It ends, every message is answered by one read, and what came back is a prefix of
      what was sent; the server is cut off only if something was still owed. A schedule that `next` prescribes
      to the end leads to exactly this state. */
  method RunSession(msgs: seq<Message>, next: nat -> Action) returns (s: State)
    requires NonEmpty(msgs)
    ensures Over(s) && |s.echoes| == |msgs| && Flat(s.echoes) <= Flat(msgs)
    ensures s.server.Aborted? ==> |Flat(s.echoes)| < |Flat(msgs)|
    ensures forall actions :: Prescribed(msgs, next, actions) ==> s == ApplyAll(msgs, Start(), actions)
  {
    s := Start();
    var clock := 0;
    ghost var taken: seq<Action> := [];
    while !Over(s)
      invariant InSession(msgs, s) && clock == |taken| && Took(msgs, taken, next, s)
      decreases Work(msgs, s)
    {
      NeverDeadlocks(msgs, s);
      var a := if Enabled(msgs, s, next(clock)) then next(clock) else Choose(msgs, s);
      SessionStep(msgs, s, a);
      TookNext(msgs, taken, next, s, a);
      taken := taken + [a];
      s := Apply(msgs, s, a);
      clock := clock + 1;
    }
    SessionEnd(msgs, s);
    forall actions | Prescribed(msgs, next, actions) ensures s == ApplyAll(msgs, Start(), actions) {
      SameEnd(msgs, taken, next, actions);
    }
  }

  /** The server's end of an accepted connection. */
  class Connection {
    var inbound: Message
    var outbound: Message

    /** The echo loop of `run_server` while the client goes on writing: each of `arrivals` comes in when nothing
        is left to read, or sooner if `early`, and then the client closes. Whatever each read returns,
        everything goes back, in order. */
    method Serve(arrivals: seq<Message>, early: nat -> bool, sizes: nat -> nat)
      modifies this
      ensures inbound == [] && outbound == old(outbound) + old(inbound) + Flat(arrivals)
    {
      var clock, later := 0, arrivals;
      while inbound != [] || later != []
        invariant outbound + inbound + Flat(later) == old(outbound) + old(inbound) + Flat(arrivals)
        decreases |later|, |inbound|
      {
        if later != [] && (inbound == [] || early(clock)) {
          assert (outbound + inbound) + (later[0] + Flat(later[1..]))
              == outbound + (inbound + later[0]) + Flat(later[1..]);
          inbound := inbound + later[0];
          later := later[1..];
        } else {
          var n := 1 + sizes(clock) % Min(READ_MAX, |inbound|);
          assert inbound == inbound[..n] + inbound[n..];
          assert outbound + inbound == (outbound + inbound[..n]) + inbound[n..];
          var buf := inbound[..n];
          inbound := inbound[n..];
          outbound := outbound + buf;
        }
        clock := clock + 1;
      }
    }
  }
}
