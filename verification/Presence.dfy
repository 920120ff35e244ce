/** Joining and leaving: the login handler and the disconnect callback, and what the broadcasts tell. */
module Presence {
  import opened Wrappers
  import opened Strings
  import opened UserRegistry

  /** A login payload: not readable as a request, or a request whose nickname may be missing. */
  datatype LoginRequest = Unreadable | Request(nickname: Option<string>)

  datatype Response = LoginAccepted(nickname: string, client: int) | Refused(code: string) | NoResponse

  /** A presence broadcast, and the client that does not get it. */
  datatype Notice = Join(nickname: string, exclude: int) | LeaveOf(former: Option<string>)

  datatype Room = Room(users: Users, notices: seq<Notice>)

  function Tell(notices: seq<Notice>, n: Notice, delivered: bool): seq<Notice> {
    if delivered then notices + [n] else notices
  }

  /** A login request. `delivered` tells whether serialising and broadcasting succeed. */
  function OnLogin(room: Room, client: int, request: LoginRequest, delivered: bool): (Room, Response) {
    if request == Unreadable then (room, Refused("LOGIN_FAILED"))
    else if request.nickname == None then (room, NoResponse)
    else
      var requested := Trim(request.nickname.value);
      if requested == "" then (room, Refused("INVALID_NICKNAME"))
      else
        var (users, outcome) := Register(room.users, client, Some(requested));
        if outcome != LoggedIn then (room, Refused("LOGIN_FAILED"))
        else (Room(users, Tell(room.notices, Join(requested, client), delivered)),
              LoginAccepted(requested, client))
  }

  /** A disconnected client is logged out, and its departure is broadcast even if it had no nickname. */
  function OnDisconnect(room: Room, client: int, delivered: bool): Room {
    var (users, nickname) := Unregister(room.users, client);
    Room(users, Tell(room.notices, LeaveOf(nickname), delivered))
  }

  class ChatService {
    const userService: UserService
    var notices: seq<Notice>

    constructor (userService: UserService)
      ensures this.userService == userService && notices == []
    {
      this.userService := userService;
      notices := [];
    }

    ghost function View(): Room
      reads this, userService
    {
      Room(userService.loggedInUsers, notices)
    }

    method HandleLogin(client: int, request: LoginRequest, delivered: bool) returns (response: Response)
      modifies this, userService
      ensures (View(), response) == OnLogin(old(View()), client, request, delivered)
    {
      if request == Unreadable {
        return Refused("LOGIN_FAILED");
      }
      if request.nickname == None {
        return NoResponse;
      }
      var requestedNickname := Trim(request.nickname.value);
      if requestedNickname == "" {
        return Refused("INVALID_NICKNAME");
      }
      var outcome := userService.Login(client, Some(requestedNickname));
      if outcome != LoggedIn {
        return Refused("LOGIN_FAILED");
      }
      if delivered {
        notices := notices + [Join(requestedNickname, client)];
      }
      return LoginAccepted(requestedNickname, client);
    }

    method HandleClientDisconnected(client: int, delivered: bool)
      modifies this, userService
      ensures View() == OnDisconnect(old(View()), client, delivered)
    {
      var nickname := userService.Logout(client);
      if delivered {
        notices := notices + [LeaveOf(nickname)];
      }
    }
  }

  /** Whether a client gets a notice. */
  predicate Hears(n: Notice, client: int) {
    n.LeaveOf? || client != n.exclude
  }

  /** A login request: who is accepted, under which name, and who is told. */
  lemma LoginIsExact(room: Room, client: int, request: LoginRequest, delivered: bool)
    ensures var (after, response) := OnLogin(room, client, request, delivered);
      var asked := if request.Request? && request.nickname.Some? then Trim(request.nickname.value) else "";
      && (response.LoginAccepted? <==>
            && client !in room.users && IsNicknameValid(Some(asked))
            && forall c <- room.users :: room.users[c] != asked)
      && (response.LoginAccepted? ==>
            && response == LoginAccepted(asked, client)
            && after.users == room.users[client := asked]
            && (!delivered ==> after.notices == room.notices)
            && (delivered ==>
                  && |after.notices| == |room.notices| + 1 && after.notices[..|room.notices|] == room.notices
                  && after.notices[|room.notices|].Join? && after.notices[|room.notices|].nickname == asked
                  && forall c :: Hears(after.notices[|room.notices|], c) <==> c != client))
      && (!response.LoginAccepted? ==> after == room)
      && (response == NoResponse <==> request.Request? && request.nickname == None)
      && (response == Refused("INVALID_NICKNAME") <==> request.Request? && request.nickname.Some? && asked == "")
      && (response.Refused? ==> response.code == "INVALID_NICKNAME" || response.code == "LOGIN_FAILED")
  {
    hide Trim;
    if request.Request? && request.nickname.Some? {
      RegisterIsExact(room.users, client, Some(Trim(request.nickname.value)));
    }
  }

  /** A disconnection: the client is off the list, and everybody is told who left, if it had a name. */
  lemma DisconnectIsExact(room: Room, client: int, delivered: bool)
    ensures var after := OnDisconnect(room, client, delivered);
      && after.users == room.users - {client}
      && (!delivered ==> after.notices == room.notices)
      && (delivered ==>
            && (var nickname := if client in room.users then Some(room.users[client]) else None;
                after.notices == room.notices + [LeaveOf(nickname)])
            && forall c :: Hears(after.notices[|room.notices|], c))
  {}

  datatype Event =
    | LoginRequested(client: int, request: LoginRequest, delivered: bool)
    | Disconnected(client: int, delivered: bool)

  function Next(room: Room, e: Event): Room {
    match e
    case LoginRequested(client, request, delivered) => OnLogin(room, client, request, delivered).0
    case Disconnected(client, delivered) => OnDisconnect(room, client, delivered)
  }

  function After(room: Room, events: seq<Event>): Room
    decreases |events|
  {
    if events == [] then room else After(Next(room, events[0]), events[1..])
  }

  lemma {:induction false} AfterSnoc(room: Room, events: seq<Event>, e: Event)
    ensures After(room, events + [e]) == Next(After(room, events), e)
    decreases |events|
  {
    if events == [] {
      assert events + [e] == [e] && [e][1..] == [];
    } else {
      assert (events + [e])[1..] == events[1..] + [e];
      AfterSnoc(Next(room, events[0]), events[1..], e);
    }
  }

  /** What a notice does to the list of someone who hears it. */
  function Hear(present: set<string>, n: Notice): set<string> {
    match n
    case Join(nickname, _) => present + {nickname}
    case LeaveOf(former) => if former.Some? then present - {former.value} else present
  }

  /** The nicknames present, for someone who has heard the notices. */
  function Replay(notices: seq<Notice>): set<string> {
    if notices == [] then {} else Hear(Replay(notices[..|notices| - 1]), notices[|notices| - 1])
  }

  lemma ReplayOneMore(notices: seq<Notice>, n: Notice)
    ensures Replay(notices + [n]) == Hear(Replay(notices), n)
  {
    assert (notices + [n])[..|notices|] == notices;
  }

  /** Whether the event changes who is present. */
  predicate Changes(room: Room, e: Event) {
    match e
    case LoginRequested(client, request, delivered) => OnLogin(room, client, request, delivered).1.LoginAccepted?
    case Disconnected(client, _) => client in room.users
  }

  lemma NextIsUnique(room: Room, e: Event)
    requires Unique(room.users)
    ensures Unique(Next(room, e).users)
  {
    hide Trim;
  }

  /** One event keeps the notices up to date with the registry exactly when it changes nobody's presence
      or its notice is delivered. */
  lemma PresenceStep(room: Room, e: Event)
    requires Unique(room.users) && Replay(room.notices) == Nicknames(room.users)
    ensures var next := Next(room, e);
      Replay(next.notices) == Nicknames(next.users) <==> (e.delivered || !Changes(room, e))
  {
    if !Changes(room, e) {
      Unchanged(room, e);
    } else if e.LoginRequested? {
      LoginStep(room, e);
    } else {
      NicknamesAfterLogout(room.users, e.client);
      ReplayOneMore(room.notices, LeaveOf(Some(room.users[e.client])));
      assert room.users[e.client] in Nicknames(room.users);
      hide Replay, Unique, IsNicknameValid, Nicknames;
    }
  }

  lemma LoginStep(room: Room, e: Event)
    requires Replay(room.notices) == Nicknames(room.users) && e.LoginRequested? && Changes(room, e)
    ensures var next := Next(room, e);
      Replay(next.notices) == Nicknames(next.users) <==> e.delivered
  {
    LoginIsExact(room, e.client, e.request, e.delivered);
    var nickname := Trim(e.request.nickname.value);
    assert nickname !in Nicknames(room.users);
    NicknamesAfterLogin(room.users, e.client, nickname);
    ReplayOneMore(room.notices, Join(nickname, e.client));
    hide Replay, IsNicknameValid, Nicknames, Trim, Register;
    assert e.delivered ==> Next(room, e).notices == room.notices + [Join(nickname, e.client)];
  }

  lemma Unchanged(room: Room, e: Event)
    requires !Changes(room, e)
    ensures Next(room, e).users == room.users && Replay(Next(room, e).notices) == Replay(room.notices)
  {
    if e.Disconnected? {
      ReplayOneMore(room.notices, LeaveOf(None));
      assert room.users - {e.client} == room.users;
    }
    hide Replay, IsNicknameValid, Trim;
  }

  lemma {:induction false} PresenceRun(room: Room, events: seq<Event>)
    requires Unique(room.users) && Replay(room.notices) == Nicknames(room.users)
    requires forall i | 0 <= i < |events| :: events[i].delivered
    ensures var after := After(room, events);
      Unique(after.users) && Replay(after.notices) == Nicknames(after.users)
    decreases |events|
  {
    if events != [] {
      NextIsUnique(room, events[0]);
      PresenceStep(room, events[0]);
      assert forall i | 0 <= i < |events[1..]| :: events[1..][i] == events[i + 1];
      PresenceRun(Next(room, events[0]), events[1..]);
    }
  }

  /** Presence replay: after any run in which broadcasts succeed, replaying the notices gives exactly the
      registered nicknames. */
  lemma ReplayGivesRegistered(events: seq<Event>)
    requires forall i | 0 <= i < |events| :: events[i].delivered
    ensures var room := After(Room(map[], []), events);
      Replay(room.notices) == Nicknames(room.users)
  {
    PresenceRun(Room(map[], []), events);
  }

  /** It takes the uniqueness of nicknames: in any room that is up to date, a client's departure keeps it so
      exactly when nobody else has the same nickname. */
  lemma SharedNicknameBreaksReplay(room: Room, client: int)
    requires Replay(room.notices) == Nicknames(room.users) && client in room.users
    ensures var next := Next(room, Disconnected(client, true));
      Replay(next.notices) == Nicknames(next.users)
      <==> forall d <- room.users :: d != client ==> room.users[d] != room.users[client]
  {
    var next, nickname := Next(room, Disconnected(client, true)), room.users[client];
    ReplayOneMore(room.notices, LeaveOf(Some(nickname)));
    hide Replay;
    assert Replay(next.notices) == Nicknames(room.users) - {nickname};
    if d :| d in room.users && d != client && room.users[d] == nickname {
      assert next.users[d] == nickname;
    } else {
      forall c <- room.users | c != client ensures room.users[c] in Nicknames(next.users) {
        assert next.users[c] == room.users[c];
      }
      forall c <- next.users ensures next.users[c] in Nicknames(room.users) - {nickname} {
        assert room.users[c] == next.users[c];
      }
      assert Nicknames(next.users) == Nicknames(room.users) - {nickname};
    }
  }

  /** A request for `nickname`, give or take blanks around it. */
  predicate Asks(request: LoginRequest, nickname: string) {
    request.Request? && request.nickname.Some? && Trim(request.nickname.value) == nickname
  }

  /** The client's disconnection is not reported in any of the events. */
  predicate NeverReported(events: seq<Event>, client: int) {
    forall i | 0 <= i < |events| :: events[i].Disconnected? ==> events[i].client != client
  }

  /** The client is registered under the nickname; nobody else gets it, and nobody on the client's
      descriptor gets any. */
  ghost predicate Blocked(room: Room, client: int, nickname: string) {
    && client in room.users && room.users[client] == nickname
    && forall c, request, delivered :: c == client || Asks(request, nickname) ==>
         !OnLogin(room, c, request, delivered).1.LoginAccepted?
  }

  /** In plain terms, a login is refused on that descriptor, and under that nickname on any. */
  lemma BlockedMeans(room: Room, client: int, nickname: string, c: int, text: string, delivered: bool)
    requires Blocked(room, client, nickname)
    ensures client in room.users && room.users[client] == nickname
    ensures c == client || Trim(text) == nickname ==>
              !OnLogin(room, c, Request(Some(text)), delivered).1.LoginAccepted?
  {
    assert Trim(text) == nickname ==> Asks(Request(Some(text)), nickname);
    hide Trim, OnLogin;
  }

  lemma NeverReportedMeans(events: seq<Event>, client: int)
    ensures NeverReported(events, client) <==>
              forall e <- events :: e.LoginRequested? || e.client != client
  {
    if forall e <- events :: e.LoginRequested? || e.client != client {
      assert forall i | 0 <= i < |events| :: events[i] in events;
    }
  }

  /** Until its descriptor is reported disconnected, a registered client blocks both its nickname and its
      descriptor. */
  lemma {:induction false} UnreportedClientKeepsNickname(room: Room, events: seq<Event>, client: int)
    requires client in room.users && NeverReported(events, client)
    ensures Blocked(After(room, events), client, room.users[client])
    decreases |events|
  {
    if events == [] {
      forall c, request, delivered | c == client || Asks(request, room.users[client])
        ensures !OnLogin(room, c, request, delivered).1.LoginAccepted?
      {
        TrimmedOrRefused(room, c, request, delivered);
      }
    } else {
      assert forall i | 0 <= i < |events[1..]| :: events[1..][i] == events[i + 1];
      UnreportedClientKeepsNickname(Next(room, events[0]), events[1..], client);
    }
  }

  lemma TrimmedOrRefused(room: Room, c: int, request: LoginRequest, delivered: bool)
    ensures OnLogin(room, c, request, delivered).1.LoginAccepted? ==>
              && c !in room.users && request.Request? && request.nickname.Some?
              && IsNicknameValid(Some(Trim(request.nickname.value)))
              && Trim(request.nickname.value) !in Nicknames(room.users)
  {}
}
