# chatRoom server: connection registry, epoll interest table and broadcast

This project models the core of the chatRoom server (`server.cpp`), a
multi-client text broadcast server built on edge-triggered, one-shot
epoll. The server keeps two tables:

- the connection registry `data`, which maps each connection fd to its
  `client_info`: the user name, the bytes waiting to be sent (`write_buf`)
  and the receive scratch buffer (`read_buf`);
- the epoll interest list, which records whether each registered fd is
  armed for input or output and whether it is one-shot.

The modelled operations are:

- the four `epoll_ctl` wrappers `addfd`, `delfd`, `modfd` and `reset_oneshot`;
- `recv_data`, which drains a readable connection and fans each received
  chunk out to every other connection as `"<name> : <line>"`;
- `send_data`, which flushes a writable connection;
- the accept branch of `main`, which registers a new connection under the
  identity it sends first;
- the routing of each ready event in `main`'s event loop.

Modules:

- `Tables` holds the data model, the single-entry updates `epoll_ctl` and
  `erase` make to the two tables, and the invariant that ties the tables
  together.
- `Message` says how one received chunk becomes the broadcast message.
- `Handlers` gives the effect of each handler as a function on the pair of
  tables (`AfterAccept`, `AfterRecv`, `AfterSend`). Its lemmas say who
  receives what, which interests change, and that every handler keeps the
  invariant.
- `Dispatch` routes an event mask to a handler. Its `Step` is the effect of
  handling one event.
- `Server` holds the class `ChatServer`, whose map fields `registry` and
  `interest` are updated in place.
  - `AddFd`, `DelFd`, `ModFd` and `ResetOneshot` model the four `epoll_ctl`
    wrappers. Each is proved to make the single-entry update `Tables`
    defines for it, or the plain removal of the fd.
  - `Accept`, `RecvData` and `SendData` model the accept branch,
    `recv_data` and `send_data`. Each is proved to produce exactly the state
    the matching `Handlers` function describes.
  - `RecvData` is split into helper methods that are not functions of
    the source: `Drain` runs the receive loop, `RelayNext` is one
    turn of it, `RelayChunk` handles one chunk, and `Broadcast` runs the
    fan-out loop. Each carries its
    invariants.
  - `main` is modelled by the constructor, which covers the startup
    registration of the listening socket, and by `HandleEvent`, which
    handles one ready event.
  - `setnonblocking` has no method (see "## Left out").
- `Scenarios` drives the class through short sessions and states what each
  client is sent.

The model follows what the code does:

- A broadcast message is the sender's name, `" : "`, and the received chunk
  up to its first newline (server.cpp:113-122).
- No newline is put back on the message.
- Text after the first newline of a chunk is dropped, so a chunk holding two
  lines relays only the first.
- A line split across two receives becomes two messages.

A line-oriented client would expect one message per line it sent, each
ending in a newline, for example `"alice : hi bob\n"`. The code does not
send that. `Message.DropsAfterFirstNewline` and
`Scenarios.AliceToBob` state the code's behaviour.

Nothing from the environment is modelled as I/O. Each input becomes a
parameter:

- the descriptor `accept` returns and the identity received on it are
  parameters of `Accept`;
- the results of the successive `recv` calls are a sequence of
  `RecvOutcome`s (some bytes, a close, or a would-block) passed to `RecvData`;
- the bytes `send` is handed are `SendData`'s result;
- the event mask `epoll_wait` reports is a parameter of `HandleEvent`.

## Model

| member | source | states |
|---|---|---|
| Tables.Register | server.cpp:46-57 | EPOLL_CTL_ADD arms a new fd readable, one-shot exactly when asked. An fd that is already registered keeps its interest. Every other fd keeps its interest. |
| Tables.Modify | server.cpp:66-77 | EPOLL_CTL_MOD replaces a registered fd's interest. It adds no fd, and an unregistered fd causes no change. |
| Tables.ArmWritableUnion | server.cpp:125-127 | Of `ArmWritable`, the modfd(fd, true) sweep: sweeping A and then B arms exactly the fds of A + B, whichever sweep runs first. |
| Tables.InvKeys | server.cpp:183-205 | Of `Inv`, the invariant between handlers: the listening socket is registered readable and not one-shot, the registry holds exactly the other registered fds, each armed one-shot, and no scratch buffer holds anything. Under it, the listening socket never has a registry entry, and the interest table holds exactly the registry's fds plus the listening socket. |
| Tables.FanOut | server.cpp:125-129 | Every connection except the sender gets the message after its pending bytes, with its name and scratch buffer unchanged. The sender's entry is unchanged, and the set of fds is the same. |
| Tables.AppendTwice | server.cpp:125-129 | Of `Append`, the strcat sweep: two successive fan-outs to the same targets equal one fan-out of the concatenated messages, in order. |
| Tables.AppendNothing | server.cpp:125-129 | A fan-out of the empty message changes nothing. |
| Tables.ArmWritableTwice | server.cpp:127 | Flipping the same fds to writable a second time changes nothing. |
| Tables.RemoveIdempotent | server.cpp:101-102 | Erasing a connection again after recv_data's own erase changes nothing. The fd is gone from both tables, and the other entries are untouched. |
| Message.FirstNewline | server.cpp:115 | The cut position is at most the length. No newline comes before it, and a newline sits at it unless it is the end (strcspn). |
| Message.Line | server.cpp:113-115 | The text kept is a prefix of the chunk with no newline. It ends at the chunk's end or at a newline. |
| Message.FormatShape | server.cpp:113-122 | withname starts with the sender's name and `" : "`. The rest is a prefix of the chunk with no newline that ends at the chunk's end or at its first newline. |
| Message.LineIsLongestNewlineFreePrefix | server.cpp:113-115 | Both directions: a prefix is the kept text if and only if it has no newline and ends at the chunk's end or at a newline. |
| Message.DropsAfterFirstNewline | server.cpp:113-122 | A chunk `text + "\n" + rest` is broadcast as `name + " : " + text`. The rest is dropped and no newline is added. |
| Message.UnterminatedChunkSentWhole | server.cpp:113-122 | A chunk without a newline is broadcast whole after `name + " : "`. |
| Message.FormatHasNoNewline | server.cpp:113-122 | When the name has no newline, the broadcast message has none. |
| Handlers.StopIndex | server.cpp:96-111 | The index of the first receive result that is not data. Every earlier result is data. |
| Handlers.RelayedHasNoNewline | server.cpp:96-131 | Of `Relayed`, the concatenation of the messages a run of chunks broadcasts: when the sender's name has no newline, none of it holds a newline. The order of the messages is stated by the next two rows. |
| Handlers.RelayedAppend | server.cpp:96-131 | The messages of two runs of chunks are the first run's messages followed by the second's. |
| Handlers.RelayedOne | server.cpp:113-129 | One chunk relays exactly its formatted message. |
| Handlers.AfterAccept | server.cpp:194-205 | The new fd enters both tables with the received identity, empty buffers, and readable one-shot interest. Every other entry is unchanged. |
| Handlers.AfterSend | server.cpp:136-152 | The fd's pending bytes are cleared and its name and scratch buffer are kept. It is re-armed readable one-shot. Every other entry and both key sets are unchanged. |
| Handlers.RecvKeepsSenderIffWouldBlock | server.cpp:88-134 | Of `AfterRecv`, the effect of recv_data: no fd is added to either table. The sender stays registered if and only if the receive loop ended by a would-block and not by a close. What the others receive and how interests change are stated by the lemmas in the next rows. |
| Handlers.RecvDelivers | server.cpp:88-134 | Every other connection gets all the sender's messages, in order, after the bytes it already had. Names and scratch buffers are unchanged. |
| Handlers.RecvArmsOthers | server.cpp:125-129 | If any chunk arrived, every other registered fd is armed writable one-shot. Otherwise no interest changes. No fd gains an interest. |
| Handlers.RecvWouldBlock | server.cpp:105-110 | On a would-block, both key sets are unchanged. The sender keeps its name and pending bytes, its scratch buffer is cleared, and it is re-armed readable one-shot. |
| Handlers.RecvClosed | server.cpp:98-103 | On a zero-length receive, the sender leaves both tables and no other fd does. |
| Handlers.CloseRemovesOnce | server.cpp:101-102 | After a close, the sender is gone from both tables, and removing it again changes nothing. |
| Handlers.AcceptPreservesInv | server.cpp:194-205 | Accepting a fresh descriptor keeps the invariant. |
| Handlers.SendPreservesInv | server.cpp:136-152 | Flushing keeps the invariant. |
| Handlers.RecvPreservesInv | server.cpp:88-134 | Draining keeps the invariant, whether it ends by a close or by a would-block. |
| Handlers.DrainedKeepsShape | server.cpp:95-131 | Fanning out keeps both key sets, the listening socket's interest, every connection's one-shot flag and the empty scratch buffers. |
| Dispatch.Route | server.cpp:192-225 | Both directions, for each branch: the listening socket goes to accept. Otherwise EPOLLIN goes to recv_data, EPOLLOUT without EPOLLIN goes to send_data, and anything else is only logged. |
| Dispatch.HangupIsDrained | server.cpp:207-225 | EPOLLRDHUP with EPOLLIN goes to recv_data, with EPOLLOUT to send_data, and alone it is only logged. |
| Dispatch.Step | server.cpp:192-225 | Handling one event keeps the invariant. Only a flush sends anything, and what it sends is that connection's pending bytes. An ignored event changes nothing. |
| Server.ChatServer.constructor | server.cpp:181-183 | Startup: an empty registry, and the listening socket registered readable and not one-shot. The invariant holds. |
| Server.ChatServer.AddFd | server.cpp:46-57 | The interest table becomes the EPOLL_CTL_ADD update of the old one. |
| Server.ChatServer.DelFd | server.cpp:60-63 | The fd leaves the interest table and the registry. |
| Server.ChatServer.ModFd | server.cpp:66-77 | The interest table becomes the EPOLL_CTL_MOD update to writable or readable one-shot. |
| Server.ChatServer.ResetOneshot | server.cpp:79-85 | The interest table becomes the EPOLL_CTL_MOD update to readable one-shot. |
| Server.ChatServer.Accept | server.cpp:194-205 | The invariant is kept. The registry gains the fresh entry under the identity, and the fd is armed readable one-shot. The state is `AfterAccept` of the old one. |
| Server.ChatServer.RecvData | server.cpp:88-134 | The invariant is kept. The loop reads exactly up to the first close or would-block, and the new state is `AfterRecv` of the old one. |
| Server.ChatServer.Drain | server.cpp:95-132 | The memset and the receive loop: it stops exactly at the first close or would-block. The registry is then the fan-out of every earlier chunk's message with read_buf cleared, and other fds are armed writable if any chunk arrived. |
| Server.ChatServer.RelayNext | server.cpp:96-131 | One turn of the receive loop on a chunk: the messages of the chunks before it are followed by its own, and every other connection is armed writable. |
| Server.DrainedAt | server.cpp:96-132 | Where the receive loop stops, its invariant is exactly the drained state of `Handlers`. |
| Server.ChatServer.RelayChunk | server.cpp:112-131 | One chunk's round: the registry is the fan-out of the chunk's message, and every other registered fd is armed writable. |
| Server.ChatServer.Broadcast | server.cpp:125-129 | The fan-out loop, in any iteration order: the message is appended to every fd except the sender, and each of those is armed writable. |
| Server.ChatServer.SendData | server.cpp:136-152 | The invariant is kept. The bytes sent are the old pending bytes, and the buffer is cleared. The fd is re-armed readable one-shot, and the state is `AfterSend` of the old one. |
| Server.ChatServer.HandleEvent | server.cpp:192-225 | The invariant is kept. The new state and the bytes sent are exactly `Step` of the old state. |
| Server.RelayChunkEffect | server.cpp:113-130 | Writing the chunk, cutting it at its newline, broadcasting the message and clearing read_buf amount to fanning out the chunk's formatted message. |
| Server.RelayedStep | server.cpp:96-131 | Fanning out the first i chunks and then chunk i equals fanning out the first i + 1 chunks. |
| Server.AppendOne | server.cpp:128 | One more strcat in the fan-out loop extends the set of fds that got the message by that fd. |
| Server.ArmWritableOne | server.cpp:127 | One more modfd in the fan-out loop extends the set of writable-armed fds by that fd. |
| Scenarios.Say | server.cpp:88-134 | A line sent with trailing text reaches every other client as `name + " : " + line`. The sender's entry and the registered set are unchanged. |
| Scenarios.Leave | server.cpp:98-103 | A closing client leaves the registry, and no other entry changes. |
| Scenarios.AliceToBob | server.cpp:88-152 | alice and bob connect, and alice says "hi bob". bob is sent exactly `alice : hi bob`, and alice is sent nothing. |
| Scenarios.ThreeJoin | server.cpp:194-205 | Three accepts register three clients under their names, with empty buffers. |
| Scenarios.BobReadsAndLeaves | server.cpp:88-152 | alice's line reaches bob and carol. bob is sent it and leaves, and carol still holds it. |
| Scenarios.CarolAloneAfterBobLeaves | server.cpp:88-152 | After bob leaves, alice's next line reaches carol alone, behind the bytes carol had not yet been sent. alice is sent nothing. |

## Left out

- System calls are not modelled: socket, bind, listen, accept, recv, send, close, epoll_create, epoll_wait and fcntl. Their results are parameters, as described above.
- setnonblocking is not modelled: it only changes the file status flags, which none of the modelled state depends on.
- Threads and the mutex are not modelled. `recv_data` and `send_data` each run entirely under the global lock (server.cpp:94,133 and 142,151), and each is modelled as one atomic step. The accept branch of `main` does not take the lock, but it too is modelled as one atomic step.
- The races of the unlocked accept are not captured. `data[connfd]` at server.cpp:203 can insert into `data`, and so rehash it, while a `recv_data` thread iterates it at server.cpp:125.
- The fd-reuse race is not captured. `recv_data` closes the socket at server.cpp:99 before erasing it at 101-102. An accept that runs in between can be handed the same descriptor number, and then the erase and `delfd` destroy the new connection's entry and registration.
- Races on the shared `infds`/`outfds` argument structs (server.cpp:210-213, 218-221) are not captured: `main` can reuse them before the started thread has read them.
- Argument parsing, address setup, the usage message and every printf are not modelled: they are I/O with no effect on the tables.
- The kernel disarming a one-shot fd when it delivers an event is not modelled. The interest table records the interest last installed by epoll_ctl.
- EPOLLET and EPOLLRDHUP are always set and so are not recorded. The batch loop over the events of one epoll_wait is not modelled: HandleEvent handles a single event.
- Failed system calls in accept and send_data are not modelled. A failed identity recv (server.cpp:202) or a failed send (server.cpp:148) aborts through an assert. A failed accept (server.cpp:197) is not checked itself: it aborts only when the recv on descriptor -1 fails at server.cpp:202. Accept requires the descriptor to be non-negative and not yet registered.
- recv errors other than EAGAIN are not modelled: the source retries the receive on them. The receive stream is required to end in a close or a would-block.
- Partial sends are not modelled: send is taken to accept the whole buffer.
- Fixed-size buffers are modelled as unbounded strings. This concerns write_buf (BUFFER_SIZE), withname (BUFFER_SIZE) and username (USERNAME_SIZE). An overflow of write_buf by repeated strcat, for a client that is not being flushed, is therefore not captured.
- NUL bytes are not modelled. A received chunk and an identity are required to contain none, because strcat and strcspn stop at the first NUL.
- The edge-triggered listening socket accepts one connection per readiness event. Connections queued behind it are not modelled.
