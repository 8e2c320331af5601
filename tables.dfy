/** The two tables the server keeps: the connection registry (the global
    `data` map from connection fd to client_info) and the epoll interest
    table (what each registered fd is armed for). This module holds their
    types, the single-entry updates the source performs on them, and the
    invariant that ties one to the other. */
module Tables {

  /** Size of read_buf, write_buf and withname. */
  const BUFFER_SIZE: nat := 1024
  /** Size of username; an identity holds at most USERNAME_SIZE - 1 characters. */
  const USERNAME_SIZE: nat := 64

  /** client_info: the sender's name, the bytes waiting to be sent to this
      connection, and the scratch buffer recv_data receives into. The C
      arrays are modelled as unbounded strings. */
  datatype ClientInfo = ClientInfo(username: string, writeBuf: string, readBuf: string)

  datatype Direction = Readable | Writable

  /** One fd's epoll registration: EPOLLIN or EPOLLOUT, with or without
      EPOLLONESHOT (EPOLLET and EPOLLRDHUP are always set and not recorded). */
  datatype Interest = Interest(dir: Direction, oneshot: bool)

  type Registry = map<int, ClientInfo>
  type InterestTable = map<int, Interest>

  datatype ServerState = ServerState(registry: Registry, interest: InterestTable)

  /** The interest modfd(fd, in2out) installs; reset_oneshot installs the
      readable one. */
  function OneShot(in2out: bool): Interest
  {
    Interest(if in2out then Writable else Readable, true)
  }

  /** epoll_ctl(EPOLL_CTL_ADD): arms a new fd for reading; an fd that is
      already registered is refused (EEXIST) and keeps its interest. */
  function Register(it: InterestTable, fd: int, oneshot: bool): (r: InterestTable)
    ensures r.Keys == it.Keys + {fd}
    ensures r[fd] == if fd in it then it[fd] else Interest(Readable, oneshot)
    ensures forall g :: g in it && g != fd ==> r[g] == it[g]
  {
    if fd in it then it else it[fd := Interest(Readable, oneshot)]
  }

  /** epoll_ctl(EPOLL_CTL_MOD): replaces the interest of a registered fd;
      on an fd that is not registered it fails (ENOENT) and changes nothing. */
  function Modify(it: InterestTable, fd: int, v: Interest): (r: InterestTable)
    ensures r.Keys == it.Keys
    ensures fd in it ==> r[fd] == v
    ensures forall g :: g in it && g != fd ==> r[g] == it[g]
  {
    if fd in it then it[fd := v] else it
  }

  /** The interest table after modfd(g, true) for every g in targets, in any order. */
  function ArmWritable(it: InterestTable, targets: set<int>): InterestTable
  {
    map g | g in it :: if g in targets then OneShot(true) else it[g]
  }

  /** The registry after strcat(write_buf, msg) on every entry in targets. */
  function Append(reg: Registry, targets: set<int>, msg: string): Registry
  {
    map g | g in reg :: if g in targets then reg[g].(writeBuf := reg[g].writeBuf + msg) else reg[g]
  }

  /** Fan-out: msg appended to the pending bytes of every connection except the sender. */
  function FanOut(reg: Registry, sender: int, msg: string): (r: Registry)
    ensures r.Keys == reg.Keys
    ensures sender in reg ==> r[sender] == reg[sender]
    ensures forall g :: g in reg && g != sender ==>
      r[g].username == reg[g].username && r[g].readBuf == reg[g].readBuf &&
      r[g].writeBuf == reg[g].writeBuf + msg
  {
    Append(reg, reg.Keys - {sender}, msg)
  }

  /** The state between handlers: the listening socket is registered
      readable and not one-shot, the registry holds exactly the other
      registered fds, each of those is armed one-shot, and no scratch
      buffer holds anything. */
  predicate Inv(s: ServerState, listenfd: int)
  {
    && listenfd in s.interest
    && s.interest[listenfd] == Interest(Readable, false)
    && s.registry.Keys == s.interest.Keys - {listenfd}
    && forall fd :: fd in s.registry ==> s.interest[fd].oneshot && s.registry[fd].readBuf == ""
  }

  /** Under the invariant the listening socket never has a registry entry,
      and the interest table holds exactly the registry's fds and it. */
  lemma InvKeys(s: ServerState, listenfd: int)
    requires Inv(s, listenfd)
    ensures listenfd !in s.registry
    ensures s.interest.Keys == s.registry.Keys + {listenfd}
  {
  }

  /** Appending twice to the same targets is appending the concatenation:
      earlier pending bytes stay in front, in order. */
  lemma AppendTwice(reg: Registry, targets: set<int>, a: string, b: string)
    ensures Append(Append(reg, targets, a), targets, b) == Append(reg, targets, a + b)
  {
    var lhs := Append(Append(reg, targets, a), targets, b);
    var rhs := Append(reg, targets, a + b);
    forall g | g in reg ensures lhs[g] == rhs[g] {
      if g in targets {
        assert lhs[g].writeBuf == reg[g].writeBuf + a + b == rhs[g].writeBuf;
      }
    }
  }

  /** The empty message changes no pending bytes. */
  lemma AppendNothing(reg: Registry, targets: set<int>)
    ensures Append(reg, targets, "") == reg
  {
    var r := Append(reg, targets, "");
    forall g | g in reg ensures r[g] == reg[g] {
      if g in targets {
        assert r[g].writeBuf == reg[g].writeBuf + "" == reg[g].writeBuf;
      }
    }
  }

  /** Flipping the same fds to writable a second time changes nothing. */
  lemma ArmWritableTwice(it: InterestTable, targets: set<int>)
    ensures ArmWritable(ArmWritable(it, targets), targets) == ArmWritable(it, targets)
  {
  }

  /** Two modfd(g, true) sweeps, over A and then over B, arm exactly the
      fds of A + B: the order of the sweeps does not matter. */
  lemma ArmWritableUnion(it: InterestTable, a: set<int>, b: set<int>)
    ensures ArmWritable(ArmWritable(it, a), b) == ArmWritable(it, a + b)
    ensures ArmWritable(ArmWritable(it, a), b) == ArmWritable(ArmWritable(it, b), a)
  {
    var lhs := ArmWritable(ArmWritable(it, a), b);
    var rhs := ArmWritable(it, a + b);
    assert lhs.Keys == rhs.Keys;
    forall g | g in lhs ensures lhs[g] == rhs[g] {
    }
  }

  /** Erasing a connection a second time, as delfd does right after
      recv_data's own erase, is a no-op. */
  lemma {:induction false} RemoveIdempotent(s: ServerState, fd: int)
    ensures (s.registry - {fd}) - {fd} == s.registry - {fd}
    ensures (s.interest - {fd}) - {fd} == s.interest - {fd}
    ensures fd !in s.registry - {fd} && fd !in s.interest - {fd}
    ensures forall g :: g in s.registry && g != fd ==> g in s.registry - {fd} && (s.registry - {fd})[g] == s.registry[g]
  {
  }
}
