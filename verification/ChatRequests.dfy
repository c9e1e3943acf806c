/** The message dispatcher of the chat server (server.cpp, on_message), and what holds
    of the tables over every run of requests. */
module ChatRequests {
  import opened CLibrary
  import opened ChatServer
  import opened Common
  import opened IntegerText
  import opened Sql

  // ---------------------------------------------------------------------
  // Requests
  // ---------------------------------------------------------------------

  /** Dropped is a payload that no branch takes, or that raises an exception. */
  datatype Request =
    | Echo(text: string)
    | FindUser(name: string)
    | AddUser(name: string)
    | AddChat(name: string)
    | AddMessage(chat: nat, sender: nat, text: string)
    | LinkUserToChat(user: nat, chat: nat)
    | GetChatName(chat: nat)
    | GetChatId(name: string)
    | GetChatHistory(chat: nat)
    | GetChatList(user: nat)
    | SetTrelloToken(user: nat, token: string)
    | GetTrelloToken(user: nat)
    | GetChatMembers(chat: nat)
    | GetUserName(user: nat)
    | Dropped

  /** The payload behind a command of the given length and one character more, whatever
      that character is. A payload without it raises an exception. */
  function Argument(payload: string, command: string): Option<string> {
    if |payload| > |command| then Some(payload[|command| + 1..]) else None
  }

  function NameRequest(payload: string, command: string, f: string -> Request): Request {
    match Argument(payload, command)
    case None => Dropped
    case Some(name) => f(name)
  }

  /** An identifier read by stoi; a negative one wraps around. */
  function IdRequest(payload: string, command: string, f: nat -> Request): Request {
    match Argument(payload, command)
    case None => Dropped
    case Some(s) =>
      match Stoi(s)
      case None => Dropped
      case Some(n) => f(if n < 0 then n + SIZE_MAX + 1 else n)
  }

  function MessageRequest(s: string): Request {
    var (ss, chat) := Open(s).ReadSize();
    var (ss', sender) := ss.ReadSize();
    match ss'.Ignore().Remaining()
    case None => Dropped
    case Some(text) => AddMessage(chat, sender, text)
  }

  function LinkRequest(s: string): Request {
    var (ss, user) := Open(s).ReadSize();
    var (ss', chat) := ss.ReadSize();
    LinkUserToChat(user, chat)
  }

  function TokenRequest(s: string): Request {
    var (ss, user) := Open(s).ReadSize();
    SetTrelloToken(user, ss.Ignore().Line())
  }

  /** The request a payload makes, by its first matching command. */
  function RequestOf(payload: string): Request {
    if StartsWith(payload, "echo") then NameRequest(payload, "echo", s => Echo(s))
    else if StartsWith(payload, "find_user") then NameRequest(payload, "find_user", s => FindUser(s))
    else if StartsWith(payload, "add_user") then NameRequest(payload, "add_user", s => AddUser(s))
    else if StartsWith(payload, "add_chat") then NameRequest(payload, "add_chat", s => AddChat(s))
    else if StartsWith(payload, "add_message") then NameRequest(payload, "add_message", MessageRequest)
    else if StartsWith(payload, "link_user_to_chat") then NameRequest(payload, "link_user_to_chat", LinkRequest)
    else if StartsWith(payload, "get_chat_name") then IdRequest(payload, "get_chat_name", (n: nat) => GetChatName(n))
    else if StartsWith(payload, "get_chat_id") then NameRequest(payload, "get_chat_id", s => GetChatId(s))
    else if StartsWith(payload, "get_chat_history") then
      IdRequest(payload, "get_chat_history", (n: nat) => GetChatHistory(n))
    else if StartsWith(payload, "get_chat_list") then IdRequest(payload, "get_chat_list", (n: nat) => GetChatList(n))
    else if StartsWith(payload, "set_trello_token") then NameRequest(payload, "set_trello_token", TokenRequest)
    else if StartsWith(payload, "get_trello_token") then
      IdRequest(payload, "get_trello_token", (n: nat) => GetTrelloToken(n))
    else if StartsWith(payload, "get_chat_members") then
      IdRequest(payload, "get_chat_members", (n: nat) => GetChatMembers(n))
    else if StartsWith(payload, "get_user_name") then IdRequest(payload, "get_user_name", (n: nat) => GetUserName(n))
    else Dropped
  }

  /** The first letter rules out most commands. */
  lemma FirstLetter(p: string)
    requires p != []
    ensures p[0] != 'e' ==> !StartsWith(p, "echo")
    ensures p[0] != 'f' ==> !StartsWith(p, "find_user")
    ensures p[0] != 'a' ==>
              !StartsWith(p, "add_user") && !StartsWith(p, "add_chat") && !StartsWith(p, "add_message")
    ensures p[0] != 'l' ==> !StartsWith(p, "link_user_to_chat")
    ensures p[0] != 's' ==> !StartsWith(p, "set_trello_token")
  {
  }

  lemma AddLetter(p: string)
    requires |p| > 4
    ensures p[4] != 'u' ==> !StartsWith(p, "add_user")
    ensures p[4] != 'c' ==> !StartsWith(p, "add_chat")
  {
  }

  lemma GetLetter(p: string)
    requires |p| > 4
    ensures p[4] != 'c' ==>
              && !StartsWith(p, "get_chat_name") && !StartsWith(p, "get_chat_id") && !StartsWith(p, "get_chat_history")
              && !StartsWith(p, "get_chat_list") && !StartsWith(p, "get_chat_members")
    ensures p[4] != 't' ==> !StartsWith(p, "get_trello_token")
  {
  }

  lemma GetChatLetter(p: string)
    requires |p| > 9
    ensures p[9] != 'n' ==> !StartsWith(p, "get_chat_name")
    ensures p[9] != 'i' ==> !StartsWith(p, "get_chat_id")
    ensures p[9] != 'h' ==> !StartsWith(p, "get_chat_history")
    ensures p[9] != 'l' ==> !StartsWith(p, "get_chat_list")
  {
  }

  /** What a client sends: a command, a blank, and what it is about. */
  function Payload(command: string, s: string): string {
    command + " " + s
  }

  lemma OwnCommand(command: string, s: string)
    ensures var p := Payload(command, s);
      && StartsWith(p, command) && Argument(p, command) == Some(s)
      && |p| > |command| && forall i :: 0 <= i < |command| ==> p[i] == command[i]
  {
    var p := Payload(command, s);
    assert p[..|command|] == command && p[|command| + 1..] == s;
  }

  lemma NameCommandsAreRead(s: string)
    ensures RequestOf(Payload("echo", s)) == Echo(s)
    ensures RequestOf(Payload("find_user", s)) == FindUser(s)
    ensures RequestOf(Payload("add_user", s)) == AddUser(s)
    ensures RequestOf(Payload("add_chat", s)) == AddChat(s)
    ensures RequestOf(Payload("get_chat_id", s)) == GetChatId(s)
  {
    hide StartsWith, Argument, Payload;
    OwnCommand("echo", s);
    OwnCommand("find_user", s);
    OwnCommand("add_user", s);
    OwnCommand("add_chat", s);
    OwnCommand("get_chat_id", s);
    FirstLetter(Payload("find_user", s));
    FirstLetter(Payload("add_user", s));
    FirstLetter(Payload("add_chat", s));
    AddLetter(Payload("add_chat", s));
    FirstLetter(Payload("get_chat_id", s));
    GetChatLetter(Payload("get_chat_id", s));
  }

  lemma NoGet(p: string)
    requires p != [] && p[0] != 'g'
    ensures !StartsWith(p, "get_chat_name") && !StartsWith(p, "get_chat_id") && !StartsWith(p, "get_chat_history")
    ensures !StartsWith(p, "get_chat_list") && !StartsWith(p, "get_chat_members") && !StartsWith(p, "get_trello_token")
  {
  }

  lemma ListCommandsAreRead(s: string)
    ensures RequestOf(Payload("add_message", s)) == MessageRequest(s)
    ensures RequestOf(Payload("link_user_to_chat", s)) == LinkRequest(s)
    ensures RequestOf(Payload("set_trello_token", s)) == TokenRequest(s)
  {
    hide StartsWith, Argument, Payload, MessageRequest, LinkRequest, TokenRequest;
    OwnCommand("add_message", s);
    OwnCommand("link_user_to_chat", s);
    OwnCommand("set_trello_token", s);
    FirstLetter(Payload("add_message", s));
    AddLetter(Payload("add_message", s));
    FirstLetter(Payload("link_user_to_chat", s));
    FirstLetter(Payload("set_trello_token", s));
    NoGet(Payload("set_trello_token", s));
  }

  /** What stoi makes of the text behind a command that takes an identifier. */
  function Identified(s: string, f: nat -> Request): Request {
    match Stoi(s)
    case None => Dropped
    case Some(n) => f(if n < 0 then n + SIZE_MAX + 1 else n)
  }

  lemma IdCommandsAreRead(s: string)
    ensures RequestOf(Payload("get_chat_name", s)) == Identified(s, (n: nat) => GetChatName(n))
    ensures RequestOf(Payload("get_chat_history", s)) == Identified(s, (n: nat) => GetChatHistory(n))
    ensures RequestOf(Payload("get_chat_list", s)) == Identified(s, (n: nat) => GetChatList(n))
    ensures RequestOf(Payload("get_chat_members", s)) == Identified(s, (n: nat) => GetChatMembers(n))
    ensures RequestOf(Payload("get_trello_token", s)) == Identified(s, (n: nat) => GetTrelloToken(n))
    ensures RequestOf(Payload("get_user_name", s)) == Identified(s, (n: nat) => GetUserName(n))
  {
    hide StartsWith, Argument, Payload, Stoi;
    OwnCommand("get_chat_name", s);
    FirstLetter(Payload("get_chat_name", s));
    OwnCommand("get_chat_history", s);
    FirstLetter(Payload("get_chat_history", s));
    GetChatLetter(Payload("get_chat_history", s));
    OwnCommand("get_chat_list", s);
    FirstLetter(Payload("get_chat_list", s));
    GetChatLetter(Payload("get_chat_list", s));
    OwnCommand("get_chat_members", s);
    FirstLetter(Payload("get_chat_members", s));
    GetChatLetter(Payload("get_chat_members", s));
    GetLetter(Payload("get_chat_members", s));
    OwnCommand("get_trello_token", s);
    FirstLetter(Payload("get_trello_token", s));
    GetLetter(Payload("get_trello_token", s));
    OwnCommand("get_user_name", s);
    FirstLetter(Payload("get_user_name", s));
    GetLetter(Payload("get_user_name", s));
  }

  /** One request against the tables: the new tables, and the reply if there is one. */
  function Step(t: Tables, payload: string): (Tables, Option<Reply>) {
    match RequestOf(payload)
    case Echo(text) => (t, Some(Words(text)))
    case FindUser(name) => (t, Some(t.FindUser(name)))
    case AddUser(name) => var (t', r) := t.AddUser(name); (t', Some(r))
    case AddChat(name) => var (t', r) := t.AddChat(name); (t', Some(r))
    case AddMessage(chat, sender, text) => var (t', r) := t.AddMessage(chat, sender, text); (t', Some(r))
    case LinkUserToChat(user, chat) => var (t', r) := t.LinkUserToChat(user, chat); (t', Some(r))
    case GetChatName(chat) => (t, Some(t.GetChatName(chat)))
    case GetChatId(name) => (t, Some(t.GetChatId(name)))
    case GetChatHistory(chat) => (t, Some(HistoryOrNull(t.HistoryOf(chat))))
    case GetChatList(user) => (t, Some(IdsOrNull(t.ChatsOf(user))))
    case SetTrelloToken(user, token) => var (t', r) := t.SetTrelloToken(user, token); (t', Some(r))
    case GetTrelloToken(user) => (t, Some(t.GetTrelloToken(user)))
    case GetChatMembers(chat) => (t, Some(IdsOrNull(t.MembersOf(chat))))
    case GetUserName(user) => (t, Some(t.GetUserName(user)))
    case Dropped => (t, None)
  }

  /** The dispatcher. */
  method OnMessage(database: Database, payload: string) returns (reply: Option<Reply>)
    modifies database
    ensures (database.tables, reply) == Step(old(database.tables), payload)
  {
    hide RequestOf, AddName, HasId, HasToken, Select, IdsOrNull, HistoryOrNull;
    var r: Reply;
    match RequestOf(payload) {
    case Echo(text) => r := Words(text);
    case FindUser(name) => r := database.FindUser(name);
    case AddUser(name) => r := database.AddUser(name);
    case AddChat(name) => r := database.AddChat(name);
    case AddMessage(chat, sender, text) => r := database.AddMessage(chat, sender, text);
    case LinkUserToChat(user, chat) => r := database.LinkUserToChat(user, chat);
    case GetChatName(chat) => r := database.GetChatName(chat);
    case GetChatId(name) => r := database.GetChatId(name);
    case GetChatHistory(chat) => r := database.GetChatHistory(chat);
    case GetChatList(user) => r := database.GetChatList(user);
    case SetTrelloToken(user, token) => r := database.SetTrelloToken(user, token);
    case GetTrelloToken(user) => r := database.GetTrelloToken(user);
    case GetChatMembers(chat) => r := database.GetChatMembers(chat);
    case GetUserName(user) => r := database.GetUserName(user);
    case Dropped => return None;
    }
    reply := Some(r);
  }

  // ---------------------------------------------------------------------
  // Runs
  // ---------------------------------------------------------------------

  /** The tables after a run of requests. */
  function Run(t: Tables, payloads: seq<string>): Tables {
    if payloads == [] then t
    else Step(Run(t, payloads[..|payloads| - 1]), payloads[|payloads| - 1]).0
  }

  lemma IdsStay(rows: seq<Named>, more: seq<Named>, id: nat)
    requires HasId(rows, id)
    ensures HasId(rows + more, id)
  {
    var k :| 0 <= k < |rows| && rows[k].id == id;
    assert (rows + more)[k].id == id;
  }

  lemma AddNameKeeps(rows: seq<Named>, next: nat, name: string)
    requires Keyed(rows, next)
    ensures var (rows', next', r) := AddName(rows, next, name);
      Keyed(rows', next') && rows <= rows' && forall id :: HasId(rows, id) ==> HasId(rows', id)
  {
    var (rows', next', r) := AddName(rows, next, name);
    if rows' != rows {
      forall id | HasId(rows, id) ensures HasId(rows', id) {
        IdsStay(rows, rows'[|rows|..], id);
        assert rows' == rows + rows'[|rows|..];
      }
    }
  }

  /** No row of any table is ever changed or removed. */
  ghost predicate Extends(t: Tables, t': Tables) {
    && t.users <= t'.users && t.chats <= t'.chats && t.links <= t'.links
    && t.messages <= t'.messages && t.tokens <= t'.tokens
  }

  lemma StepKeeps(t: Tables, payload: string)
    requires Sound(t)
    ensures Sound(Step(t, payload).0) && Extends(t, Step(t, payload).0)
  {
    hide RequestOf, AddName, HasId;
    var t' := Step(t, payload).0;
    match RequestOf(payload)
    case AddUser(name) => AddNameKeeps(t.users, t.nextUser, name);
    case AddChat(name) => AddNameKeeps(t.chats, t.nextChat, name);
    case _ =>
  }

  /** Every run of requests keeps the tables sound; in particular it stores each link
      at most once. */
  lemma {:induction false} RunIsSound(payloads: seq<string>)
    ensures Sound(Run(EMPTY, payloads))
  {
    hide Step;
    if payloads != [] {
      RunIsSound(payloads[..|payloads| - 1]);
      StepKeeps(Run(EMPTY, payloads[..|payloads| - 1]), payloads[|payloads| - 1]);
    }
  }

  lemma {:induction false} RunExtends(t: Tables, payloads: seq<string>, more: seq<string>)
    requires Sound(t)
    ensures Sound(Run(t, payloads)) && Extends(Run(t, payloads), Run(t, payloads + more))
    decreases |payloads| + |more|
  {
    hide Step;
    if more == [] {
      assert payloads + more == payloads;
      if payloads != [] {
        RunExtends(t, payloads[..|payloads| - 1], []);
        assert payloads[..|payloads| - 1] + [] == payloads[..|payloads| - 1];
        StepKeeps(Run(t, payloads[..|payloads| - 1]), payloads[|payloads| - 1]);
      }
    } else {
      var all := payloads + more;
      var init := more[..|more| - 1];
      assert all[..|all| - 1] == payloads + init;
      RunExtends(t, payloads, init);
      RunExtends(t, payloads + init, []);
      StepKeeps(Run(t, payloads + init), all[|all| - 1]);
    }
  }

  // ---------------------------------------------------------------------
  // Membership
  // ---------------------------------------------------------------------

  lemma {:induction false} SelectKeepsDistinct(rows: seq<Link>, where: Link -> bool)
    requires Distinct(rows)
    ensures Distinct(Select(rows, where))
  {
    if rows != [] {
      var init, last := rows[..|rows| - 1], rows[|rows| - 1];
      SelectKeepsDistinct(init, where);
      assert last !in init;
      assert rows == init + [last];
      assert last !in Select(init, where);
    }
  }

  /** After any run, the chat lists and the member lists say the same, and nothing in
      them is repeated. */
  lemma ListsAgree(payloads: seq<string>, user: nat, chat: nat)
    ensures var t := Run(EMPTY, payloads);
      && Distinct(t.ChatsOf(user)) && Distinct(t.MembersOf(chat))
      && (chat in t.ChatsOf(user) <==> Link(user, chat) in t.links)
      && (user in t.MembersOf(chat) <==> Link(user, chat) in t.links)
  {
    hide Run;
    RunIsSound(payloads);
    var t := Run(EMPTY, payloads);
    var ours, theirs := Select(t.links, UserIs(user)), Select(t.links, ChatIs(chat));
    SelectKeepsDistinct(t.links, UserIs(user));
    SelectKeepsDistinct(t.links, ChatIs(chat));
    forall k | 0 <= k < |ours| ensures ours[k] in t.links && ours[k] == Link(user, t.ChatsOf(user)[k]) {
      assert ours[k] in ours && UserIs(user)(ours[k]);
    }
    forall k | 0 <= k < |theirs| ensures theirs[k] in t.links && theirs[k] == Link(t.MembersOf(chat)[k], chat) {
      assert theirs[k] in theirs && ChatIs(chat)(theirs[k]);
    }
    if Link(user, chat) in t.links {
      var i :| 0 <= i < |ours| && ours[i] == Link(user, chat);
      assert t.ChatsOf(user)[i] == chat;
      var j :| 0 <= j < |theirs| && theirs[j] == Link(user, chat);
      assert t.MembersOf(chat)[j] == user;
    }
  }

  /** The i-th request of a run linked the two, which both existed by then. */
  ghost predicate LinkedBy(payloads: seq<string>, i: nat, user: nat, chat: nat)
    requires i < |payloads|
  {
    var t := Run(EMPTY, payloads[..i]);
    RequestOf(payloads[i]) == LinkUserToChat(user, chat) && HasId(t.users, user) && HasId(t.chats, chat)
  }

  lemma LinkStep(t: Tables, payload: string, user: nat, chat: nat)
    requires Sound(t)
    ensures Link(user, chat) in Step(t, payload).0.links <==>
      || Link(user, chat) in t.links
      || (RequestOf(payload) == LinkUserToChat(user, chat) && HasId(t.users, user) && HasId(t.chats, chat))
  {
    hide RequestOf, AddName;
  }

  /** A user is in a chat exactly if some request of the run linked them after both
      had been added. */
  lemma {:induction false} LinkedIff(payloads: seq<string>, user: nat, chat: nat)
    ensures Link(user, chat) in Run(EMPTY, payloads).links <==>
      exists i :: 0 <= i < |payloads| && LinkedBy(payloads, i, user, chat)
  {
    hide Step, RequestOf, HasId;
    if payloads != [] {
      var n := |payloads| - 1;
      var init := payloads[..n];
      LinkedIff(init, user, chat);
      RunIsSound(init);
      LinkStep(Run(EMPTY, init), payloads[n], user, chat);
      assert LinkedBy(payloads, n, user, chat) <==>
        RequestOf(payloads[n]) == LinkUserToChat(user, chat)
        && HasId(Run(EMPTY, init).users, user) && HasId(Run(EMPTY, init).chats, chat);
      forall i | 0 <= i < n
        ensures LinkedBy(payloads, i, user, chat) <==> LinkedBy(init, i, user, chat)
      {
        assert payloads[..i] == init[..i];
      }
    }
  }
}
