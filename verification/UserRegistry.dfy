/** The nickname registry, in one piece and with the steps of a login spread out. */
module UserRegistry {
  import opened Wrappers

  type Users = map<int, string>

  datatype LoginOutcome = LoggedIn | AlreadyLoggedIn | InvalidNickname | NicknameTaken

  predicate IsAlphanumeric(c: char) {
    'a' <= c <= 'z' || 'A' <= c <= 'Z' || '0' <= c <= '9'
  }

  predicate IsNicknameValid(nickname: Option<string>) {
    nickname.Some? && 3 <= |nickname.value| <= 15
    && forall i | 0 <= i < |nickname.value| :: IsAlphanumeric(nickname.value[i])
  }

  /** The nicknames in use. */
  function Nicknames(users: Users): set<string> {
    set c | c in users :: users[c]
  }

  predicate IsNicknameTaken(users: Users, nickname: string) {
    exists c <- users :: users[c] == nickname
  }

  function Register(users: Users, client: int, nickname: Option<string>): (Users, LoginOutcome) {
    if client in users then (users, AlreadyLoggedIn)
    else if !IsNicknameValid(nickname) then (users, InvalidNickname)
    else if IsNicknameTaken(users, nickname.value) then (users, NicknameTaken)
    else (users[client := nickname.value], LoggedIn)
  }

  function Unregister(users: Users, client: int): (Users, Option<string>) {
    (users - {client}, if client in users then Some(users[client]) else None)
  }

  /** No two clients share a nickname, and every nickname is well formed. */
  ghost predicate Unique(users: Users) {
    && (forall c <- users, d <- users :: users[c] == users[d] ==> c == d)
    && (forall c <- users :: IsNicknameValid(Some(users[c])))
  }

  /** The rule for nicknames: 3 to 15 ASCII letters and digits. */
  lemma NicknameRule(nickname: string)
    ensures IsNicknameValid(Some(nickname)) <==>
              && 3 <= |nickname| <= 15
              && forall i | 0 <= i < |nickname| ::
                   var code := nickname[i] as int;
                   48 <= code <= 57 || 65 <= code <= 90 || 97 <= code <= 122
    ensures !IsNicknameValid(None)
  {}

  /** Who gets registered, and what the others are told. */
  lemma RegisterIsExact(users: Users, client: int, nickname: Option<string>)
    ensures var (after, outcome) := Register(users, client, nickname);
      && (outcome == LoggedIn <==>
            client !in users && IsNicknameValid(nickname) && forall c <- users :: users[c] != nickname.value)
      && (outcome == AlreadyLoggedIn <==> client in users)
      && (outcome == InvalidNickname <==> client !in users && !IsNicknameValid(nickname))
      && after.Keys == users.Keys + (if outcome == LoggedIn then {client} else {})
      && (forall c <- users :: after[c] == users[c])
      && (outcome == LoggedIn ==> after[client] == nickname.value)
  {
    hide IsNicknameValid;
  }

  /** Leaving takes just the client off, and gives its nickname. */
  lemma UnregisterIsExact(users: Users, client: int)
    ensures var (after, nickname) := Unregister(users, client);
      && after.Keys == users.Keys - {client} && (forall c <- after :: after[c] == users[c])
      && (nickname.Some? <==> client in users) && (client in users ==> nickname.value == users[client])
  {}

  class UserService {
    var loggedInUsers: Users

    constructor ()
      ensures loggedInUsers == map[]
    {
      loggedInUsers := map[];
    }

    method Login(client: int, nickname: Option<string>) returns (outcome: LoginOutcome)
      modifies this
      ensures (loggedInUsers, outcome) == Register(old(loggedInUsers), client, nickname)
    {
      if client in loggedInUsers {
        return AlreadyLoggedIn;
      }
      if !IsNicknameValid(nickname) {
        return InvalidNickname;
      }
      if IsNicknameTaken(loggedInUsers, nickname.value) {
        return NicknameTaken;
      }
      loggedInUsers := loggedInUsers[client := nickname.value];
      return LoggedIn;
    }

    method Logout(client: int) returns (nickname: Option<string>)
      modifies this
      ensures (loggedInUsers, nickname) == Unregister(old(loggedInUsers), client)
    {
      nickname := if client in loggedInUsers then Some(loggedInUsers[client]) else None;
      loggedInUsers := loggedInUsers - {client};
    }
  }

  lemma NicknamesAfterLogin(users: Users, client: int, nickname: string)
    requires client !in users
    ensures Nicknames(users[client := nickname]) == Nicknames(users) + {nickname}
  {
    var after := users[client := nickname];
    assert after[client] == nickname;
    forall c <- users ensures users[c] in Nicknames(after) {
      assert after[c] == users[c];
    }
  }

  lemma NicknamesAfterLogout(users: Users, client: int)
    requires Unique(users) && client in users
    ensures Nicknames(users - {client}) == Nicknames(users) - {users[client]}
  {
    var after := users - {client};
    forall c <- users | c != client ensures users[c] in Nicknames(after) && users[c] != users[client] {
      assert after[c] == users[c];
    }
    forall c <- after ensures after[c] in Nicknames(users) - {users[client]} {
      assert after[c] == users[c] && c != client;
    }
  }

  // A login that holds the lock but takes its steps one by one, while logouts, which take no lock,
  // happen between them.

  datatype LoginPc = AtCheckLoggedIn | AtCheckValid | AtCheckTaken | AtPut

  datatype Attempt = Attempt(client: int, nickname: Option<string>, pc: LoginPc)

  /** `finished` lists the outcomes of the logins that are over. */
  datatype Registry = Registry(users: Users, holder: Option<Attempt>, finished: seq<LoginOutcome>)

  datatype Event = Enter(client: int, nickname: Option<string>) | Step | Leave(client: int)

  predicate Enabled(r: Registry, e: Event) {
    match e
    case Enter(_, _) => r.holder == None
    case Step => r.holder.Some?
    case Leave(_) => true
  }

  function Next(r: Registry, e: Event): Registry
    requires Enabled(r, e)
  {
    match e
    case Enter(client, nickname) => r.(holder := Some(Attempt(client, nickname, AtCheckLoggedIn)))
    case Leave(client) => r.(users := Unregister(r.users, client).0)
    case Step =>
      var a := r.holder.value;
      (match a.pc
       case AtCheckLoggedIn =>
         if a.client in r.users then Finish(r, AlreadyLoggedIn) else r.(holder := Some(a.(pc := AtCheckValid)))
       case AtCheckValid =>
         if !IsNicknameValid(a.nickname) then Finish(r, InvalidNickname) else r.(holder := Some(a.(pc := AtCheckTaken)))
       case AtCheckTaken =>
         if a.nickname.Some? && IsNicknameTaken(r.users, a.nickname.value) then Finish(r, NicknameTaken)
         else r.(holder := Some(a.(pc := AtPut)))
       case AtPut =>
         Finish(r.(users := if a.nickname.Some? then r.users[a.client := a.nickname.value] else r.users), LoggedIn))
  }

  function Finish(r: Registry, outcome: LoginOutcome): Registry {
    r.(holder := None, finished := r.finished + [outcome])
  }

  /** What the checks passed so far still guarantee: only logouts can have happened since. */
  ghost predicate ChecksHold(r: Registry) {
    r.holder.Some? ==>
      var a := r.holder.value;
      && (a.pc != AtCheckLoggedIn ==> a.client !in r.users)
      && (a.pc == AtCheckTaken || a.pc == AtPut ==> IsNicknameValid(a.nickname))
      && (a.pc == AtPut ==> !IsNicknameTaken(r.users, a.nickname.value))
  }

  lemma StepKeepsUnique(r: Registry, e: Event)
    requires Unique(r.users) && ChecksHold(r) && Enabled(r, e)
    ensures Unique(Next(r, e).users) && ChecksHold(Next(r, e))
  {
    var n := Next(r, e);
    if e.Step? && r.holder.value.pc == AtPut {
      assert forall c <- r.users :: r.users[c] != r.holder.value.nickname.value;
    }
  }

  predicate IsRun(r: Registry, events: seq<Event>)
    decreases |events|
  {
    events == [] || (Enabled(r, events[0]) && IsRun(Next(r, events[0]), events[1..]))
  }

  function After(r: Registry, events: seq<Event>): Registry
    requires IsRun(r, events)
    decreases |events|
  {
    if events == [] then r else After(Next(r, events[0]), events[1..])
  }

  lemma {:induction false} RunSnoc(r: Registry, events: seq<Event>, e: Event)
    requires IsRun(r, events) && Enabled(After(r, events), e)
    ensures IsRun(r, events + [e]) && After(r, events + [e]) == Next(After(r, events), e)
    decreases |events|
  {
    if events == [] {
      assert events + [e] == [e] && [e][1..] == [];
    } else {
      assert (events + [e])[1..] == events[1..] + [e];
      RunSnoc(Next(r, events[0]), events[1..], e);
    }
  }

  function Entered(events: seq<Event>): nat {
    if events == [] then 0 else (if events[0].Enter? then 1 else 0) + Entered(events[1..])
  }

  /** Logins do not get in each other's way: at most one is under way, and every one that was begun is under
      way or has finished. A logout is never blocked, and takes its client off at once. */
  lemma {:induction false} LoginsAreConserved(r: Registry, events: seq<Event>, client: int)
    requires IsRun(r, events)
    ensures var n := After(r, events);
      && |n.finished| + (if n.holder.Some? then 1 else 0)
         == |r.finished| + (if r.holder.Some? then 1 else 0) + Entered(events)
      && Enabled(n, Leave(client)) && Next(n, Leave(client)).users == n.users - {client}
      && Next(n, Leave(client)).holder == n.holder
    decreases |events|
  {
    if events != [] {
      EnteredStep(r, events[0]);
      LoginsAreConserved(Next(r, events[0]), events[1..], client);
    }
  }

  lemma EnteredStep(r: Registry, e: Event)
    requires Enabled(r, e)
    ensures var n := Next(r, e);
      |n.finished| + (if n.holder.Some? then 1 else 0)
      == |r.finished| + (if r.holder.Some? then 1 else 0) + (if e.Enter? then 1 else 0)
  {
    hide IsNicknameValid, IsNicknameTaken;
  }

  const EMPTY: Registry := Registry(map[], None, [])

  lemma {:induction false} RunKeepsUnique(r: Registry, events: seq<Event>)
    requires Unique(r.users) && ChecksHold(r) && IsRun(r, events)
    ensures Unique(After(r, events).users) && ChecksHold(After(r, events))
    decreases |events|
  {
    if events != [] {
      StepKeepsUnique(r, events[0]);
      RunKeepsUnique(Next(r, events[0]), events[1..]);
    }
  }

  /** Nicknames stay unique and well formed in every interleaving. */
  lemma NicknamesStayUnique(events: seq<Event>)
    requires IsRun(EMPTY, events)
    ensures var users := After(EMPTY, events).users;
      && (forall c <- users, d <- users :: c != d ==> users[c] != users[d])
      && (forall c <- users ::
            && 3 <= |users[c]| <= 15
            && forall i | 0 <= i < |users[c]| ::
                 var code := users[c][i] as int;
                 48 <= code <= 57 || 65 <= code <= 90 || 97 <= code <= 122)
  {
    RunKeepsUnique(EMPTY, events);
    var users := After(EMPTY, events).users;
    forall c <- users ensures IsNicknameValid(Some(users[c])) {}
  }

  /** And a login spread over its steps is worth an atomic one: whenever it finishes, the registry and
      the outcome are those of the whole login performed at that very step. */
  lemma LoginIsAtomic(events: seq<Event>)
    requires IsRun(EMPTY, events)
    ensures var r := After(EMPTY, events);
      r.holder.Some? && Next(r, Step).holder == None ==>
        var a, n := r.holder.value, Next(r, Step);
        && |n.finished| == |r.finished| + 1
        && (n.users, n.finished[|r.finished|]) == Register(r.users, a.client, a.nickname)
  {
    RunKeepsUnique(EMPTY, events);
  }
}
