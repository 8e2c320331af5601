/** The routing in main's event loop: each ready event goes to accept, to
    recv_data or to send_data, in that order of priority, and anything
    else is only logged. Step is the effect of handling one event. */
module Dispatch {
  import opened Tables
  import opened Handlers

  /** The event bits the routing tests (Linux sys/epoll.h values). */
  const EPOLLIN: bv32 := 0x001
  const EPOLLOUT: bv32 := 0x004
  /** Set with every registration; reported when the peer shuts down its writing half. */
  const EPOLLRDHUP: bv32 := 0x2000

  datatype Action = AcceptConn | DrainConn | FlushConn | Ignore

  /** Which handler a ready event on fd with event mask events goes to. */
  function Route(fd: int, events: bv32, listenfd: int): (a: Action)
    ensures a == AcceptConn <==> fd == listenfd
    ensures a == DrainConn <==> fd != listenfd && events & EPOLLIN != 0
    ensures a == FlushConn <==> fd != listenfd && events & EPOLLIN == 0 && events & EPOLLOUT != 0
    ensures a == Ignore <==> fd != listenfd && events & (EPOLLIN | EPOLLOUT) == 0
  {
    if fd == listenfd then AcceptConn
    else if events & EPOLLIN != 0 then DrainConn
    else if events & EPOLLOUT != 0 then FlushConn
    else Ignore
  }

  /** What the environment hands the handler of one event: for an accept,
      the descriptor accept returned and the identity received on it; for
      a drain, the results its recv calls return. */
  datatype Input = Input(connfd: int, identity: string, outcomes: seq<RecvOutcome>)

  /** The effect of one event: the tables afterwards and the bytes sent. */
  datatype StepResult = StepResult(state: ServerState, sent: string)

  /** The event can be delivered (epoll only reports registered fds) and the
      environment's input is one the handler's system calls can produce. */
  predicate Admissible(s: ServerState, listenfd: int, fd: int, events: bv32, input: Input)
  {
    && fd in s.interest
    && match Route(fd, events, listenfd)
       case AcceptConn => input.connfd >= 0 && input.connfd !in s.interest && ValidIdentity(input.identity)
       case DrainConn => WellFormedStream(input.outcomes)
       case FlushConn => true
       case Ignore => true
  }

  /** Handling one ready event keeps the invariant; only a flush sends
      anything, and what it sends is the connection's pending bytes; an
      event that is neither for the listening socket nor readable nor
      writable changes no state. */
  function Step(s: ServerState, listenfd: int, fd: int, events: bv32, input: Input): (r: StepResult)
    requires Inv(s, listenfd)
    requires Admissible(s, listenfd, fd, events, input)
    ensures Inv(r.state, listenfd)
    ensures Route(fd, events, listenfd) == FlushConn ==> fd in s.registry && r.sent == s.registry[fd].writeBuf
    ensures Route(fd, events, listenfd) != FlushConn ==> r.sent == ""
    ensures Route(fd, events, listenfd) == Ignore ==> r.state == s
  {
    match Route(fd, events, listenfd)
    case AcceptConn =>
      AcceptPreservesInv(s, listenfd, input.connfd, input.identity);
      StepResult(AfterAccept(s, input.connfd, input.identity), "")
    case DrainConn =>
      RecvPreservesInv(s, listenfd, fd, input.outcomes);
      StepResult(AfterRecv(s, fd, input.outcomes), "")
    case FlushConn =>
      SendPreservesInv(s, listenfd, fd);
      StepResult(AfterSend(s, fd), s.registry[fd].writeBuf)
    case Ignore =>
      StepResult(s, "")
  }

  /** A peer's orderly close arrives as EPOLLRDHUP together with EPOLLIN and
      is routed to recv_data, where the zero-length receive tears it down. */
  lemma HangupIsDrained(fd: int, listenfd: int)
    requires fd != listenfd
    ensures Route(fd, EPOLLIN | EPOLLRDHUP, listenfd) == DrainConn
    ensures Route(fd, EPOLLOUT | EPOLLRDHUP, listenfd) == FlushConn
    ensures Route(fd, EPOLLRDHUP, listenfd) == Ignore
  {
  }
}
