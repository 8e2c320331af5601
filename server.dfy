/** The server's mutable state and the handlers that update it in place:
    the connection registry (`data`) and the epoll interest table as map
    fields of one object. AddFd, DelFd, ModFd and ResetOneshot model the
    epoll_ctl wrappers; Accept, RecvData and SendData the accept branch,
    recv_data and send_data; Drain, RelayNext, RelayChunk and Broadcast
    are pieces of recv_data, not functions of the source; the constructor
    and HandleEvent cover main's startup and one turn of its event loop.
    setnonblocking has no counterpart. */
module Server {
  import opened Tables
  import opened Message
  import opened Handlers
  import opened Dispatch

  class ChatServer {
    /** The listening socket, registered at startup and never removed. */
    const listenfd: int
    /** data: client_info per connection fd. */
    var registry: Registry
    /** The epoll instance's interest list. */
    var interest: InterestTable

    function State(): ServerState
      reads this
    {
      ServerState(registry, interest)
    }

    ghost predicate Valid()
      reads this
    {
      Inv(State(), listenfd)
    }

    /** Startup: an empty registry and interest list; then addfd registers
        the listening socket readable, without EPOLLONESHOT. */
    constructor (listenfd: int)
      ensures this.listenfd == listenfd
      ensures registry == map[]
      ensures interest == map[listenfd := Interest(Readable, false)]
      ensures Valid()
    {
      this.listenfd := listenfd;
      registry := map[];
      interest := map[];
      new;
      AddFd(listenfd, false);
    }

    /** addfd: EPOLL_CTL_ADD for readable input, one-shot when asked. */
    method AddFd(fd: int, oneshot: bool)
      modifies this`interest
      ensures interest == Register(old(interest), fd, oneshot)
    {
      interest := Register(interest, fd, oneshot);
    }

    /** delfd: EPOLL_CTL_DEL, then the erase of the registry entry. Either
        removal of an fd that is absent changes nothing. */
    method DelFd(fd: int)
      modifies this
      ensures interest == old(interest) - {fd}
      ensures registry == old(registry) - {fd}
    {
      interest := interest - {fd};
      registry := registry - {fd};
    }

    /** modfd: EPOLL_CTL_MOD to writable (in2out) or readable, one-shot. */
    method ModFd(fd: int, in2out: bool)
      modifies this`interest
      ensures interest == Modify(old(interest), fd, OneShot(in2out))
    {
      interest := Modify(interest, fd, OneShot(in2out));
    }

    /** reset_oneshot: EPOLL_CTL_MOD back to readable, one-shot. */
    method ResetOneshot(fd: int)
      modifies this`interest
      ensures interest == Modify(old(interest), fd, OneShot(false))
    {
      interest := Modify(interest, fd, OneShot(false));
    }

    /** The accept branch of main, from the descriptor accept returned and
        the identity the client sent first. */
    method Accept(connfd: int, identity: string)
      requires Valid()
      requires connfd >= 0 && connfd !in interest
      requires ValidIdentity(identity)
      modifies this
      ensures Valid()
      ensures registry == old(registry)[connfd := ClientInfo(identity, "", "")]
      ensures interest == old(interest)[connfd := OneShot(false)]
      ensures State() == AfterAccept(old(State()), connfd, identity)
    {
      AcceptPreservesInv(State(), listenfd, connfd, identity);
      // data[connfd] creates a zeroed entry, strcat writes the name into it
      registry := registry[connfd := ClientInfo("", "", "")];
      registry := registry[connfd := registry[connfd].(username := registry[connfd].username + identity)];
      assert "" + identity == identity;
      AddFd(connfd, true);
    }

    /** recv_data: receive until the socket would block or the peer closes;
        each chunk, cut at its first newline and prefixed with the sender's
        name, is appended to every other connection's pending bytes, which
        are flipped to writable. Returns how many receive results it read. */
    method RecvData(sockfd: int, outcomes: seq<RecvOutcome>) returns (consumed: nat)
      requires Valid()
      requires sockfd in registry
      requires WellFormedStream(outcomes)
      modifies this
      ensures Valid()
      ensures consumed == StopIndex(outcomes) + 1
      ensures State() == AfterRecv(old(State()), sockfd, outcomes)
    {
      ghost var s0 := State();
      RecvPreservesInv(s0, listenfd, sockfd, outcomes);
      var i := Drain(sockfd, outcomes);
      ghost var reg := registry;
      ghost var it := interest;
      if outcomes[i].Closed? {
        registry := registry - {sockfd};
        DelFd(sockfd);
        RemoveIdempotent(ServerState(reg, it), sockfd);
      } else {
        ResetOneshot(sockfd);
        assert registry == reg && interest == Modify(it, sockfd, OneShot(false));
      }
      assert State() == AfterRecv(s0, sockfd, outcomes);
      consumed := i + 1;
    }

    /** The memset and the receive loop of recv_data up to the result that
        ends it: every chunk before it is relayed, in order. Returns the
        index of that result. */
    method Drain(sockfd: int, outcomes: seq<RecvOutcome>) returns (i: nat)
      requires sockfd in registry
      requires StopIndex(outcomes) < |outcomes|
      modifies this
      ensures i == StopIndex(outcomes)
      ensures registry == DrainedRegistry(old(State()), sockfd, outcomes)
      ensures interest == DrainedInterest(old(State()), sockfd, outcomes)
    {
      ghost var s0 := State();
      registry := registry[sockfd := registry[sockfd].(readBuf := "")];
      ghost var r0 := registry;
      AppendNothing(r0, r0.Keys - {sockfd});
      i := 0;
      while outcomes[i].Data?
        invariant 0 <= i <= StopIndex(outcomes)
        invariant registry == FanOut(r0, sockfd, Relayed(r0[sockfd].username, outcomes[..i]))
        invariant interest == if i == 0 then s0.interest else ArmWritable(s0.interest, r0.Keys - {sockfd})
        decreases StopIndex(outcomes) - i
      {
        RelayNext(sockfd, outcomes, i, r0, s0.interest);
        i := i + 1;
      }
      DrainedAt(s0, sockfd, outcomes, i, r0, registry, interest);
    }

    /** One turn of recv_data's receive loop on a chunk: the messages of
        the chunks before it have been fanned out, and afterwards its own
        message follows them; every other connection is writable. */
    method RelayNext(sockfd: int, outcomes: seq<RecvOutcome>, i: nat, ghost r0: Registry, ghost it0: InterestTable)
      requires i < |outcomes| && outcomes[i].Data?
      requires sockfd in r0 && r0[sockfd].readBuf == ""
      requires registry == FanOut(r0, sockfd, Relayed(r0[sockfd].username, outcomes[..i]))
      requires interest == if i == 0 then it0 else ArmWritable(it0, r0.Keys - {sockfd})
      modifies this
      ensures registry == FanOut(r0, sockfd, Relayed(r0[sockfd].username, outcomes[..i + 1]))
      ensures interest == ArmWritable(it0, r0.Keys - {sockfd})
    {
      ghost var others := r0.Keys - {sockfd};
      assert registry.Keys - {sockfd} == others;
      ghost var itPrev := interest;
      RelayChunk(sockfd, outcomes[i].chunk);
      assert interest == ArmWritable(itPrev, others);
      RelayedStep(r0, sockfd, r0[sockfd].username, outcomes, i);
      ArmWritableTwice(it0, others);
    }

    /** One received chunk in recv_data: the chunk lands in read_buf, a NUL
        is written over its first newline, the sender's name and the line
        form the message, the message goes to every other connection, and
        read_buf is cleared again. */
    method RelayChunk(sockfd: int, chunk: string)
      requires sockfd in registry && registry[sockfd].readBuf == ""
      modifies this
      ensures registry == FanOut(old(registry), sockfd, Format(old(registry[sockfd].username), chunk))
      ensures interest == ArmWritable(old(interest), old(registry).Keys - {sockfd})
    {
      ghost var r := registry;
      registry := registry[sockfd := registry[sockfd].(readBuf := chunk)];
      registry := registry[sockfd := registry[sockfd].(readBuf := Line(registry[sockfd].readBuf))];
      var withname := registry[sockfd].username + Separator + registry[sockfd].readBuf;
      ghost var before := registry;
      Broadcast(sockfd, withname);
      registry := registry[sockfd := registry[sockfd].(readBuf := "")];
      RelayChunkEffect(r, sockfd, chunk, before, withname, registry);
    }

    /** The fan-out loop of recv_data: for every registered fd other than
        the sender, modfd to writable and strcat the message onto its
        write_buf, visiting the registry in whatever order it iterates. */
    method Broadcast(sockfd: int, withname: string)
      modifies this
      ensures registry == Append(old(registry), old(registry).Keys - {sockfd}, withname)
      ensures interest == ArmWritable(old(interest), old(registry).Keys - {sockfd})
    {
      ghost var before := registry;
      ghost var itBefore := interest;
      ghost var done: set<int> := {};
      var rest := registry.Keys;
      while rest != {}
        invariant rest <= before.Keys
        invariant done == before.Keys - rest - {sockfd}
        invariant registry == Append(before, done, withname)
        invariant interest == ArmWritable(itBefore, done)
        decreases rest
      {
        EmptyOrHasElement(rest);
        var fd :| fd in rest;
        rest := rest - {fd};
        if fd != sockfd {
          ModFd(fd, true);
          AppendOne(before, done, fd, withname);
          ArmWritableOne(itBefore, done, fd);
          registry := registry[fd := registry[fd].(writeBuf := registry[fd].writeBuf + withname)];
          done := done + {fd};
        }
      }
    }

    /** send_data: the whole of write_buf is handed to send (the returned
        bytes), then cleared, and the connection is flipped back to readable. */
    method SendData(sockfd: int) returns (sent: string)
      requires Valid()
      requires sockfd in registry
      modifies this
      ensures Valid()
      ensures sent == old(registry[sockfd].writeBuf)
      ensures registry == old(registry)[sockfd := old(registry[sockfd]).(writeBuf := "")]
      ensures interest == old(interest)[sockfd := OneShot(false)]
      ensures State() == AfterSend(old(State()), sockfd)
    {
      SendPreservesInv(State(), listenfd, sockfd);
      var sendTmp := registry[sockfd].writeBuf;
      sent := sendTmp;
      registry := registry[sockfd := registry[sockfd].(writeBuf := "")];
      ModFd(sockfd, false);
    }

    /** One iteration of main's event loop body: route the ready event and
        run the handler it goes to. Returns the bytes sent, if any. */
    method HandleEvent(fd: int, events: bv32, input: Input) returns (sent: string)
      requires Valid()
      requires Admissible(State(), listenfd, fd, events, input)
      modifies this
      ensures Valid()
      ensures StepResult(State(), sent) == Step(old(State()), listenfd, fd, events, input)
    {
      sent := "";
      match Route(fd, events, listenfd) {
        case AcceptConn =>
          Accept(input.connfd, input.identity);
        case DrainConn =>
          var _ := RecvData(fd, input.outcomes);
        case FlushConn =>
          sent := SendData(fd);
        case Ignore =>
      }
    }
  }

  /** A set of descriptors is empty or has a next one to visit. */
  lemma EmptyOrHasElement(s: set<int>)
    ensures s == {} || exists x :: x in s
  {
    if forall x :: x !in s {
      assert s == {};
    }
  }

  /** Where the receive loop stops, its invariant is the drained state. */
  lemma DrainedAt(s0: ServerState, sockfd: int, outcomes: seq<RecvOutcome>, i: nat, r0: Registry, reg: Registry, it: InterestTable)
    requires sockfd in s0.registry
    requires i <= StopIndex(outcomes) && (i < |outcomes| ==> !outcomes[i].Data?)
    requires r0 == s0.registry[sockfd := s0.registry[sockfd].(readBuf := "")]
    requires reg == FanOut(r0, sockfd, Relayed(r0[sockfd].username, outcomes[..i]))
    requires it == if i == 0 then s0.interest else ArmWritable(s0.interest, r0.Keys - {sockfd})
    ensures i == StopIndex(outcomes)
    ensures reg == DrainedRegistry(s0, sockfd, outcomes)
    ensures it == DrainedInterest(s0, sockfd, outcomes)
  {
    assert r0.Keys - {sockfd} == s0.registry.Keys - {sockfd};
  }

  /** One more target of the fan-out loop gets the message. */
  lemma AppendOne(reg: Registry, done: set<int>, fd: int, msg: string)
    requires fd in reg && fd !in done
    ensures var r := Append(reg, done, msg);
      r[fd := r[fd].(writeBuf := r[fd].writeBuf + msg)] == Append(reg, done + {fd}, msg)
  {
  }

  /** One more target of the fan-out loop is flipped to writable. */
  lemma ArmWritableOne(it: InterestTable, done: set<int>, fd: int)
    ensures Modify(ArmWritable(it, done), fd, OneShot(true)) == ArmWritable(it, done + {fd})
  {
  }

  /** One chunk's round of recv_data in terms of the tables: once read_buf
      has held the chunk and its line, the line's message has been fanned
      out and read_buf has been cleared, the registry is the fan-out of
      that message. */
  lemma RelayChunkEffect(r: Registry, sockfd: int, chunk: string, before: Registry, withname: string, after: Registry)
    requires sockfd in r && r[sockfd].readBuf == ""
    requires before == r[sockfd := r[sockfd].(readBuf := Line(chunk))]
    requires withname == before[sockfd].username + Separator + before[sockfd].readBuf
    requires var b := Append(before, before.Keys - {sockfd}, withname); after == b[sockfd := b[sockfd].(readBuf := "")]
    ensures after == FanOut(r, sockfd, Format(r[sockfd].username, chunk))
  {
    var rhs := FanOut(r, sockfd, withname);
    assert after.Keys == rhs.Keys;
    forall g | g in after ensures after[g] == rhs[g] {
    }
  }

  /** The messages of the first i + 1 chunks are those of the first i, then
      the message of chunk i: fanning them out in two goes is fanning out
      their concatenation. */
  lemma RelayedStep(r0: Registry, sockfd: int, username: string, outcomes: seq<RecvOutcome>, i: nat)
    requires i < |outcomes| && outcomes[i].Data?
    ensures var a := Relayed(username, outcomes[..i]);
      FanOut(FanOut(r0, sockfd, a), sockfd, Format(username, outcomes[i].chunk))
        == FanOut(r0, sockfd, Relayed(username, outcomes[..i + 1]))
  {
    var a := Relayed(username, outcomes[..i]);
    var w := Format(username, outcomes[i].chunk);
    assert outcomes[..i + 1][..i] == outcomes[..i];
    assert Relayed(username, outcomes[..i + 1]) == a + w;
    AppendTwice(r0, r0.Keys - {sockfd}, a, w);
  }
}
