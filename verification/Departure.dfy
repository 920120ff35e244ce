/** The end of a connection, in the server's tables and in the room. */
module Departures {
  import opened Wrappers
  import opened Framing
  import opened StreamParsing
  import opened SlotTables
  import opened ServerContexts
  import opened ServerIterations
  import Presence

  /** A registered client whose connection is gone while the room does not know. */
  ghost predicate DroppedUnreported(stx: ServerContext, room: Presence.Room, fd: int)
    requires stx.Shaped()
    reads stx, stx.pollers, stx.clientSocket, stx.clientParser, stx.clientMap
  {
    fd !in stx.View().Connected() && fd in room.users
  }

  /** The disconnect callback, which does not touch the server. */
  method Report(stx: ServerContext, chat: Presence.ChatService, fd: int, told: bool, alloc: Allocator)
    requires Ready(stx, alloc)
    modifies chat, chat.userService
    ensures Ready(stx, alloc) && stx.View() == old(stx.View())
    ensures forall j: nat | j < stx.maxClients :: ConnectionOf(stx, alloc, j) == old(ConnectionOf(stx, alloc, j))
    ensures chat.View() == Presence.OnDisconnect(old(chat.View()), fd, told)
  {
    hide Table.Agrees, InUse, Incomplete, StreamParser.Valid, StreamParser.Held, ServerContext.View;
    chat.HandleClientDisconnected(fd, told);
    forall j: nat | j < stx.maxClients
      ensures ParserReady(stx, alloc, j) && ParserObjects(stx, j) == old(ParserObjects(stx, j))
      ensures stx.clientParser[j] != null ==>
                && old(stx.clientParser[j].Valid()) && stx.clientParser[j].Valid()
                && stx.clientParser[j].Held() == old(stx.clientParser[j].Held())
    {
      assert old(ParserReady(stx, alloc, j));
    }
    forall j: nat, k: nat | j < k < stx.maxClients ensures ParsersApart(stx, j, k) {
      assert old(ParsersApart(stx, j, k));
    }
  }

  /** What serving says about the descriptor's connection. */
  lemma DroppedIsGone(stx: ServerContext, t: Table, i: nat, alloc: Allocator)
    requires Ready(stx, alloc) && t == stx.View() && i < stx.maxClients && ConnectionOf(stx, alloc, i).Some?
    ensures var fd := ConnectionOf(stx, alloc, i).value.fd;
      && t.Shape() && i < t.MaxClients()
      && fd in t.Connected() && fd !in Remove(t, i).Connected()
  {
    HasParser(stx, i);
    assert t.pollFd[i] == stx.pollers[i + FIRST_CLIENT];
    assert t.SlotAgrees(i);
    RemoveKeepsAgreement(t, i);
  }

  /** Serves one client with an event, and tells the room when the disconnect callback runs. (What the
      delivered messages ask for is not carried out here.) A registered client is dropped and not reported
      exactly when what it sent does not parse; and then its nickname and its descriptor are blocked,
      whatever happens, until a disconnection of that descriptor is reported. */
  method HandleClient(stx: ServerContext, chat: Presence.ChatService, i: nat, ready: Readiness, told: bool,
                      alloc: Allocator)
    returns (delivered: seq<Message>)
    requires Ready(stx, alloc) && i < stx.maxClients && ConnectionOf(stx, alloc, i).Some?
    requires ready.Received? ==> ready.bytes != []
    modifies stx, stx.pollers, stx.clientSocket, stx.clientParser, stx.clientMap, stx.net
    modifies ParserObjects(stx, i), chat, chat.userService
    ensures Ready(stx, alloc)
    ensures var c := old(ConnectionOf(stx, alloc, i)); var fd := c.value.fd;
      && ConnectionOf(stx, alloc, i) == Served(c, Some(ready), alloc)
      && delivered == Completed(c, Some(ready), alloc)
      && chat.View() == (if ready.Closed? || ready.Failed? then Presence.OnDisconnect(old(chat.View()), fd, told)
                         else old(chat.View()))
      && (fd in old(chat.View()).users ==>
            (DroppedUnreported(stx, chat.View(), fd)
             <==> ready.Received? && !Decode(alloc, c.value.held + ready.bytes).ok))
      && (DroppedUnreported(stx, chat.View(), fd) ==>
            forall events :: Presence.NeverReported(events, fd) ==>
              Presence.Blocked(Presence.After(chat.View(), events), fd, chat.View().users[fd]))
  {
    var fd := stx.pollers[i + FIRST_CLIENT];
    assert ConnectionOf(stx, alloc, i).value.fd == fd;
    DroppedIsGone(stx, stx.View(), i, alloc);
    hide Ready, ConnectionOf, ParserObjects, ServerContext.View, InUse, Remove, Decode;
    hide Presence.Blocked, Presence.After, Presence.NeverReported;
    var disconnect;
    delivered, disconnect := ServeClient(stx, i, Some(ready), alloc);
    if disconnect {
      Report(stx, chat, fd, told, alloc);
    }
    if DroppedUnreported(stx, chat.View(), fd) {
      forall events | Presence.NeverReported(events, fd)
        ensures Presence.Blocked(Presence.After(chat.View(), events), fd, chat.View().users[fd])
      {
        Presence.UnreportedClientKeepsNickname(chat.View(), events, fd);
      }
    }
  }
}
