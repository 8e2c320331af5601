/** Sessions driven through the server's handlers, showing what clients
    see. */
module Scenarios {
  import opened Tables
  import opened Message
  import opened Handlers
  import opened Server

  /** The client on fd sends one chunk holding a line and, after its
      newline, more text; then its socket would block. */
  method Say(srv: ChatServer, fd: int, text: string, rest: string)
    requires srv.Valid() && fd in srv.registry
    requires '\n' !in text && |text| + 1 + |rest| < BUFFER_SIZE && '\0' !in text && '\0' !in rest
    modifies srv
    ensures srv.Valid()
    ensures srv.registry.Keys == old(srv.registry.Keys)
    ensures srv.registry[fd] == old(srv.registry[fd])
    ensures forall g :: g in old(srv.registry) && g != fd ==>
      srv.registry[g] == old(srv.registry[g]).(writeBuf := old(srv.registry[g].writeBuf) + old(srv.registry[fd].username) + Separator + text)
  {
    var chunk := text + "\n" + rest;
    var os := [Data(chunk), WouldBlock];
    assert StopIndex(os) == 1;
    assert os[..1] == [Data(chunk)];
    ghost var s0 := srv.State();
    var _ := srv.RecvData(fd, os);
    RelayedOne(s0.registry[fd].username, chunk);
    DropsAfterFirstNewline(s0.registry[fd].username, text, rest);
    RecvDelivers(s0, fd, os);
    RecvWouldBlock(s0, fd, os);
  }

  /** The client on fd closes: it leaves both tables, nobody else's entry changes. */
  method Leave(srv: ChatServer, fd: int)
    requires srv.Valid() && fd in srv.registry
    modifies srv
    ensures srv.Valid()
    ensures srv.registry == old(srv.registry) - {fd}
  {
    var os := [Closed];
    assert StopIndex(os) == 0;
    ghost var s0 := srv.State();
    var _ := srv.RecvData(fd, os);
    assert os[..0] == [];
    RecvDelivers(s0, fd, os);
    RecvClosed(s0, fd, os);
    forall g | g in srv.registry ensures srv.registry[g] == s0.registry[g] {
      assert s0.registry[g].writeBuf + "" == s0.registry[g].writeBuf;
    }
  }

  /** alice and bob connect; alice's line reaches bob without its newline
      and without what followed it, and nothing comes back to alice. */
  method AliceToBob() returns (toBob: string, toAlice: string)
    ensures toBob == "alice" + " : " + "hi bob"
    ensures toAlice == ""
  {
    var srv := new ChatServer(3);
    srv.Accept(4, "alice");
    srv.Accept(5, "bob");
    Say(srv, 4, "hi bob", "");
    assert "" + "alice" == "alice";
    toBob := srv.SendData(5);
    toAlice := srv.SendData(4);
  }

  /** alice, bob and carol connect, in that order. */
  method ThreeJoin() returns (srv: ChatServer)
    ensures fresh(srv) && srv.Valid()
    ensures srv.registry.Keys == {4, 5, 6}
    ensures srv.registry[4] == ClientInfo("alice", "", "")
    ensures srv.registry[5] == ClientInfo("bob", "", "")
    ensures srv.registry[6] == ClientInfo("carol", "", "")
  {
    srv := new ChatServer(3);
    srv.Accept(4, "alice");
    srv.Accept(5, "bob");
    srv.Accept(6, "carol");
  }

  /** alice's line reaches bob and carol; bob reads it and leaves. */
  method BobReadsAndLeaves(srv: ChatServer) returns (toBob: string)
    requires srv.Valid()
    requires srv.registry.Keys == {4, 5, 6}
    requires srv.registry[4] == ClientInfo("alice", "", "")
    requires srv.registry[5] == ClientInfo("bob", "", "")
    requires srv.registry[6] == ClientInfo("carol", "", "")
    modifies srv
    ensures srv.Valid()
    ensures toBob == "alice" + " : " + "hi"
    ensures srv.registry.Keys == {4, 6}
    ensures srv.registry[4] == ClientInfo("alice", "", "")
    ensures srv.registry[6] == ClientInfo("carol", "alice" + " : " + "hi", "")
  {
    Say(srv, 4, "hi", "");
    assert "" + "alice" == "alice";
    toBob := srv.SendData(5);
    Leave(srv, 5);
  }

  /** alice, bob and carol are connected: alice's first line reaches bob
      and carol but not alice; once bob has left, alice's next line reaches
      carol alone, behind the bytes carol had not yet been sent. */
  method CarolAloneAfterBobLeaves() returns (toBob: string, toCarol: string, toAlice: string)
    ensures toBob == "alice" + " : " + "hi"
    ensures toCarol == "alice" + " : " + "hi" + ("alice" + " : " + "bye")
    ensures toAlice == ""
  {
    var srv := ThreeJoin();
    toBob := BobReadsAndLeaves(srv);
    Say(srv, 4, "bye", "ignored");
    toCarol := srv.SendData(6);
    toAlice := srv.SendData(4);
  }
}
