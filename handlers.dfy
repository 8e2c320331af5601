/** The effect of each handler on the two tables, as one atomic step.
    recv_data and send_data run entirely under the global mutex; the
    accept branch of main takes no lock, and its races are not modelled.
    Server.ChatServer's Accept, RecvData and SendData (and HandleEvent,
    through Dispatch.Step) are proved to produce exactly these states; the
    lemmas here say what the states mean. */
module Handlers {
  import opened Tables
  import opened Message

  /** One result of recv(sockfd, read_buf, BUFFER_SIZE - 1, 0): some bytes,
      zero (the peer closed), or -1 with errno EAGAIN. */
  datatype RecvOutcome = Data(chunk: string) | Closed | WouldBlock

  /** Index of the first outcome that ends the receive loop, or |os| if none does. */
  function StopIndex(os: seq<RecvOutcome>): (k: nat)
    ensures k <= |os|
    ensures forall j :: 0 <= j < k ==> os[j].Data?
    ensures k < |os| ==> !os[k].Data?
  {
    if os == [] || !os[0].Data? then 0 else 1 + StopIndex(os[1..])
  }

  /** A stream recv can deliver: every chunk is 1 to BUFFER_SIZE - 1 bytes
      with no NUL, and a close or a would-block comes eventually. */
  predicate WellFormedStream(os: seq<RecvOutcome>)
  {
    && StopIndex(os) < |os|
    && forall j :: 0 <= j < |os| && os[j].Data? ==> 0 < |os[j].chunk| < BUFFER_SIZE && '\0' !in os[j].chunk
  }

  /** What the identity handshake can deliver: at most USERNAME_SIZE - 1 bytes, no NUL. */
  predicate ValidIdentity(identity: string)
  {
    |identity| < USERNAME_SIZE && '\0' !in identity
  }

  /** Everything a sender's chunks broadcast, in order: one formatted
      message per chunk, concatenated. */
  function Relayed(username: string, os: seq<RecvOutcome>): string
  {
    if os == [] then ""
    else Relayed(username, os[..|os| - 1]) + (if os[|os| - 1].Data? then Format(username, os[|os| - 1].chunk) else "")
  }

  /** What a sender's chunks broadcast holds no newline when its name has none. */
  lemma {:induction false} RelayedHasNoNewline(username: string, os: seq<RecvOutcome>)
    requires '\n' !in username
    ensures '\n' !in Relayed(username, os)
  {
    if os != [] {
      RelayedHasNoNewline(username, os[..|os| - 1]);
      if os[|os| - 1].Data? {
        FormatHasNoNewline(username, os[|os| - 1].chunk);
      }
    }
  }

  /** Two runs of chunks broadcast the first run's messages, then the second's. */
  lemma {:induction false} RelayedAppend(username: string, a: seq<RecvOutcome>, b: seq<RecvOutcome>)
    ensures Relayed(username, a + b) == Relayed(username, a) + Relayed(username, b)
  {
    if b == [] {
      assert a + b == a;
    } else {
      var b' := b[..|b| - 1];
      assert (a + b)[..|a + b| - 1] == a + b';
      RelayedAppend(username, a, b');
      var last := if b[|b| - 1].Data? then Format(username, b[|b| - 1].chunk) else "";
      assert Relayed(username, a + b) == Relayed(username, a) + Relayed(username, b') + last;
    }
  }

  /** A single chunk broadcasts exactly its formatted message. */
  lemma RelayedOne(username: string, chunk: string)
    ensures Relayed(username, [Data(chunk)]) == Format(username, chunk)
  {
    assert [Data(chunk)][..0] == [];
  }

  /** Accept: the registry gains the new connection with the received
      identity and empty buffers; addfd arms it readable and one-shot.
      Nothing else changes. */
  function AfterAccept(s: ServerState, connfd: int, identity: string): (r: ServerState)
    requires connfd !in s.registry && connfd !in s.interest
    ensures r.registry.Keys == s.registry.Keys + {connfd}
    ensures r.interest.Keys == s.interest.Keys + {connfd}
    ensures r.registry[connfd].username == identity
    ensures r.registry[connfd].writeBuf == "" && r.registry[connfd].readBuf == ""
    ensures r.interest[connfd] == OneShot(false)
    ensures forall g :: g in s.registry ==> r.registry[g] == s.registry[g]
    ensures forall g :: g in s.interest ==> r.interest[g] == s.interest[g]
  {
    ServerState(s.registry[connfd := ClientInfo(identity, "", "")], Register(s.interest, connfd, true))
  }

  /** send_data: the pending bytes are handed to send and the buffer is
      cleared; modfd flips the connection back to readable. */
  function AfterSend(s: ServerState, fd: int): (r: ServerState)
    requires fd in s.registry
    ensures r.registry.Keys == s.registry.Keys && r.interest.Keys == s.interest.Keys
    ensures r.registry[fd].writeBuf == ""
    ensures r.registry[fd].username == s.registry[fd].username && r.registry[fd].readBuf == s.registry[fd].readBuf
    ensures fd in s.interest ==> r.interest[fd] == OneShot(false)
    ensures forall g :: g in s.registry && g != fd ==> r.registry[g] == s.registry[g]
    ensures forall g :: g in s.interest && g != fd ==> r.interest[g] == s.interest[g]
  {
    ServerState(s.registry[fd := s.registry[fd].(writeBuf := "")], Modify(s.interest, fd, OneShot(false)))
  }

  /** The registry once read_buf has been cleared and the chunks before the
      stop have been fanned out. */
  function DrainedRegistry(s: ServerState, sender: int, os: seq<RecvOutcome>): Registry
    requires sender in s.registry
  {
    var r0 := s.registry[sender := s.registry[sender].(readBuf := "")];
    FanOut(r0, sender, Relayed(s.registry[sender].username, os[..StopIndex(os)]))
  }

  /** The interest table once the chunks before the stop have been fanned
      out: every other connection writable if any chunk arrived. */
  function DrainedInterest(s: ServerState, sender: int, os: seq<RecvOutcome>): InterestTable
  {
    if StopIndex(os) == 0 then s.interest else ArmWritable(s.interest, s.registry.Keys - {sender})
  }

  /** recv_data over a stream of receive outcomes: the chunks before the
      first close or would-block are fanned out; then a would-block re-arms
      the sender readable and a close removes it from both tables. */
  function AfterRecv(s: ServerState, sender: int, os: seq<RecvOutcome>): ServerState
    requires sender in s.registry
    requires StopIndex(os) < |os|
  {
    var reg := DrainedRegistry(s, sender, os);
    var it := DrainedInterest(s, sender, os);
    if os[StopIndex(os)].Closed? then ServerState(reg - {sender}, it - {sender})
    else ServerState(reg, Modify(it, sender, OneShot(false)))
  }

  /** recv_data adds no fd to either table, and the sender stays registered
      exactly when the drain ends by a would-block rather than a close. */
  lemma RecvKeepsSenderIffWouldBlock(s: ServerState, sender: int, os: seq<RecvOutcome>)
    requires sender in s.registry
    requires StopIndex(os) < |os|
    ensures var r := AfterRecv(s, sender, os);
      && r.registry.Keys <= s.registry.Keys && r.interest.Keys <= s.interest.Keys
      && (sender in r.registry <==> os[StopIndex(os)].WouldBlock?)
  {
  }

  /** Who receives what: every other connection gets the sender's messages,
      in order, after the bytes it already had; its name and scratch buffer
      are untouched. */
  lemma RecvDelivers(s: ServerState, sender: int, os: seq<RecvOutcome>)
    requires sender in s.registry
    requires StopIndex(os) < |os|
    ensures var r := AfterRecv(s, sender, os);
      forall g :: g in s.registry && g != sender ==>
        && g in r.registry
        && r.registry[g].writeBuf == s.registry[g].writeBuf + Relayed(s.registry[sender].username, os[..StopIndex(os)])
        && r.registry[g].username == s.registry[g].username
        && r.registry[g].readBuf == s.registry[g].readBuf
  {
  }

  /** Every other registered connection is flipped to writable once
      something was broadcast; no other interest changes, and no fd gains
      an interest it did not have. */
  lemma RecvArmsOthers(s: ServerState, sender: int, os: seq<RecvOutcome>)
    requires sender in s.registry
    requires StopIndex(os) < |os|
    ensures var r := AfterRecv(s, sender, os);
      && r.interest.Keys <= s.interest.Keys
      && forall g :: g in s.interest && g != sender ==>
           && g in r.interest
           && r.interest[g] == if StopIndex(os) > 0 && g in s.registry then OneShot(true) else s.interest[g]
  {
  }

  /** A would-block ends the drain with the sender still registered, its
      name and pending bytes as they were, and re-armed readable. */
  lemma RecvWouldBlock(s: ServerState, sender: int, os: seq<RecvOutcome>)
    requires sender in s.registry && sender in s.interest
    requires StopIndex(os) < |os| && os[StopIndex(os)].WouldBlock?
    ensures var r := AfterRecv(s, sender, os);
      && r.registry.Keys == s.registry.Keys && r.interest.Keys == s.interest.Keys
      && r.registry[sender] == s.registry[sender].(readBuf := "")
      && r.interest[sender] == OneShot(false)
  {
  }

  /** A close removes the sender from both tables and removes nothing else. */
  lemma RecvClosed(s: ServerState, sender: int, os: seq<RecvOutcome>)
    requires sender in s.registry
    requires StopIndex(os) < |os| && os[StopIndex(os)].Closed?
    ensures var r := AfterRecv(s, sender, os);
      && r.registry.Keys == s.registry.Keys - {sender}
      && r.interest.Keys == s.interest.Keys - {sender}
  {
  }

  /** Accepting a connection keeps the invariant. */
  lemma AcceptPreservesInv(s: ServerState, listenfd: int, connfd: int, identity: string)
    requires Inv(s, listenfd)
    requires connfd !in s.interest
    ensures connfd !in s.registry
    ensures Inv(AfterAccept(s, connfd, identity), listenfd)
  {
  }

  /** Flushing a connection keeps the invariant. */
  lemma SendPreservesInv(s: ServerState, listenfd: int, fd: int)
    requires Inv(s, listenfd)
    requires fd in s.registry
    ensures Inv(AfterSend(s, fd), listenfd)
  {
  }

  /** Draining a connection keeps the invariant, whether it ends by
      would-block or by close. */
  lemma RecvPreservesInv(s: ServerState, listenfd: int, sender: int, os: seq<RecvOutcome>)
    requires Inv(s, listenfd)
    requires sender in s.registry
    requires StopIndex(os) < |os|
    ensures Inv(AfterRecv(s, sender, os), listenfd)
  {
    var reg := DrainedRegistry(s, sender, os);
    var it := DrainedInterest(s, sender, os);
    DrainedKeepsShape(s, listenfd, sender, os);
    if os[StopIndex(os)].Closed? {
      var r := ServerState(reg - {sender}, it - {sender});
      assert r.registry.Keys == r.interest.Keys - {listenfd};
      assert r == AfterRecv(s, sender, os);
    } else {
      var r := ServerState(reg, Modify(it, sender, OneShot(false)));
      assert r.interest[listenfd] == it[listenfd];
      assert r == AfterRecv(s, sender, os);
    }
  }

  /** Fanning out keeps both tables' keys, the listening socket's interest,
      the one-shot flag of every connection and the empty scratch buffers. */
  lemma DrainedKeepsShape(s: ServerState, listenfd: int, sender: int, os: seq<RecvOutcome>)
    requires Inv(s, listenfd)
    requires sender in s.registry
    ensures var reg := DrainedRegistry(s, sender, os);
      var it := DrainedInterest(s, sender, os);
      && reg.Keys == s.registry.Keys
      && it.Keys == s.interest.Keys
      && it[listenfd] == s.interest[listenfd]
      && forall fd :: fd in reg ==> it[fd].oneshot && reg[fd].readBuf == ""
  {
  }

  /** A close is final for the sender: running the removal again, as
      delfd does after recv_data's own erase, leaves the same state. */
  lemma CloseRemovesOnce(s: ServerState, sender: int, os: seq<RecvOutcome>)
    requires sender in s.registry
    requires StopIndex(os) < |os| && os[StopIndex(os)].Closed?
    ensures var r := AfterRecv(s, sender, os);
      && sender !in r.registry && sender !in r.interest
      && r.registry - {sender} == r.registry && r.interest - {sender} == r.interest
  {
    var r := AfterRecv(s, sender, os);
    assert r.registry - {sender} == r.registry;
    assert r.interest - {sender} == r.interest;
  }
}
