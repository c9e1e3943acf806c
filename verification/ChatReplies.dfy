/** What the chat server (server.cpp) replies to each of the client's commands. */
module ChatReplies {
  import opened ChatRequests
  import opened ChatServer
  import opened CLibrary
  import opened Common
  import opened IntegerText
  import opened Sql

  // ---------------------------------------------------------------------
  // Messages
  // ---------------------------------------------------------------------

  /** What the client sends for a text typed into a chat. */
  function ClientMessage(chat: nat, sender: nat, text: string): string {
    Payload("add_message", Digits(chat) + " " + Digits(sender) + " " + text)
  }

  lemma MessageIsParsed(chat: nat, sender: nat, text: string)
    requires chat <= SIZE_MAX && sender <= SIZE_MAX
    ensures MessageRequest(Digits(chat) + " " + Digits(sender) + " " + text) == AddMessage(chat, sender, text)
  {
    hide Digits;
    var rest' := " " + text;
    var rest := [' '] + Digits(sender) + rest';
    assert Digits(chat) + " " + Digits(sender) + " " + text == Digits(chat) + rest;
    ReadSizeOfDigits(chat, rest);
    ReadSizeOfDigits(sender, rest');
    assert rest'[1..] == text;
  }

  /** The client's command is taken apart into what it was made of, for every text. */
  lemma ClientMessageIsRead(chat: nat, sender: nat, text: string)
    requires chat <= SIZE_MAX && sender <= SIZE_MAX
    ensures RequestOf(ClientMessage(chat, sender, text)) == AddMessage(chat, sender, text)
  {
    hide Digits, MessageRequest, RequestOf;
    ListCommandsAreRead(Digits(chat) + " " + Digits(sender) + " " + text);
    MessageIsParsed(chat, sender, text);
  }

  /** One message: stored word for word, or refused without a trace. */
  lemma MessageIsStored(t: Tables, chat: nat, sender: nat, text: string)
    requires chat <= SIZE_MAX && sender <= SIZE_MAX
    ensures Step(t, ClientMessage(chat, sender, text)) ==
      if HasId(t.chats, chat) && HasId(t.users, sender) && '\0' !in text
      then (t.(messages := t.messages + [Message(chat, sender, text)]), Some(SUCCESS))
      else (t, Some(FAIL))
  {
    hide RequestOf, HasId;
    ClientMessageIsRead(chat, sender, text);
  }

  lemma {:induction false} SelectSum<T(!new)>(a: seq<T>, b: seq<T>, where: T -> bool)
    ensures Select(a + b, where) == Select(a, where) + Select(b, where)
    decreases |b|
  {
    if b == [] {
      assert a + b == a;
    } else {
      var init := b[..|b| - 1];
      assert (a + b)[..|a + b| - 1] == a + init;
      SelectSum(a, init, where);
    }
  }

  // ---------------------------------------------------------------------
  // Requests about an identifier
  // ---------------------------------------------------------------------

  lemma IdIsRead(id: nat, f: nat -> Request)
    ensures Identified(Digits(id), f) == if id <= INT_MAX then f(id) else Dropped
  {
    hide Digits, Stoi;
    StoiOfDigits(id);
  }

  /** A negative identifier turns into the one that far below 2^64. */
  lemma NegativeIdWraps(n: nat, f: nat -> Request)
    requires 1 <= n <= INT_MAX + 1
    ensures Identified("-" + Digits(n), f) == f(SIZE_MAX + 1 - n)
  {
    hide Digits, Stoi;
    StoiOfNegative(n);
  }

  /** A reply to a question about this identifier. Links and messages take any
      identifier that fits a size_t, but these requests only one that fits an int; any
      other is dropped without a reply. */
  function IfInt(id: nat, reply: Reply): Option<Reply> {
    if id <= INT_MAX then Some(reply) else None
  }

  /** Every question gets the answer to that question and leaves the tables alone. */
  lemma QuestionsAreAnswered(t: Tables, id: nat)
    ensures Step(t, Payload("get_chat_name", Digits(id))) == (t, IfInt(id, t.GetChatName(id)))
    ensures Step(t, Payload("get_chat_history", Digits(id))) == (t, IfInt(id, HistoryOrNull(t.HistoryOf(id))))
    ensures Step(t, Payload("get_chat_list", Digits(id))) == (t, IfInt(id, IdsOrNull(t.ChatsOf(id))))
    ensures Step(t, Payload("get_chat_members", Digits(id))) == (t, IfInt(id, IdsOrNull(t.MembersOf(id))))
    ensures Step(t, Payload("get_trello_token", Digits(id))) == (t, IfInt(id, t.GetTrelloToken(id)))
    ensures Step(t, Payload("get_user_name", Digits(id))) == (t, IfInt(id, t.GetUserName(id)))
  {
    hide Digits, Identified, RequestOf, Payload, HistoryOrNull, IdsOrNull;
    IdCommandsAreRead(Digits(id));
    IdIsRead(id, (n: nat) => GetChatName(n));
    IdIsRead(id, (n: nat) => GetChatHistory(n));
    IdIsRead(id, (n: nat) => GetChatList(n));
    IdIsRead(id, (n: nat) => GetChatMembers(n));
    IdIsRead(id, (n: nat) => GetTrelloToken(n));
    IdIsRead(id, (n: nat) => GetUserName(n));
  }

  lemma EchoIsAnswered(t: Tables, text: string)
    ensures Step(t, Payload("echo", text)) == (t, Some(Words(text)))
  {
    hide RequestOf, Payload;
    NameCommandsAreRead(text);
  }

  // ---------------------------------------------------------------------
  // Histories
  // ---------------------------------------------------------------------

  lemma HistoryGrows(t: Tables, t': Tables, chat: nat)
    requires t.messages <= t'.messages
    ensures t.HistoryOf(chat) <= t'.HistoryOf(chat)
  {
    hide Select;
    var more := t'.messages[|t.messages|..];
    assert t'.messages == t.messages + more;
    SelectSum(t.messages, more, SentTo(chat));
  }

  lemma LastInHistory(t: Tables, m: Message)
    ensures t.(messages := t.messages + [m]).HistoryOf(m.chat) == t.HistoryOf(m.chat) + [m]
  {
    assert (t.messages + [m])[..|t.messages|] == t.messages;
  }

  /** A message whose chat and sender exist, and without a zero byte, is from then on
      the next one in the chat's history, behind those that were there, whatever comes
      before and after it; and a client that asks for the history is shown it. */
  lemma MessageStays(before: seq<string>, chat: nat, sender: nat, text: string, after: seq<string>)
    requires chat <= SIZE_MAX && sender <= SIZE_MAX
    requires var t := Run(EMPTY, before); HasId(t.chats, chat) && HasId(t.users, sender) && '\0' !in text
    ensures var t := Run(EMPTY, before);
      var t' := Run(EMPTY, before + [ClientMessage(chat, sender, text)] + after);
      && t.HistoryOf(chat) + [Message(chat, sender, text)] <= t'.HistoryOf(chat)
      && Step(t', Payload("get_chat_history", Digits(chat))).1 == IfInt(chat, History(t'.HistoryOf(chat)))
  {
    hide Step, HasId, ClientMessage, Payload, Digits, Select;
    var t := Run(EMPTY, before);
    var sent := before + [ClientMessage(chat, sender, text)];
    var m := Message(chat, sender, text);
    MessageIsStored(t, chat, sender, text);
    assert sent[..|sent| - 1] == before;
    RunExtends(EMPTY, sent, after);
    LastInHistory(t, m);
    var t' := Run(EMPTY, sent + after);
    HistoryGrows(Run(EMPTY, sent), t', chat);
    QuestionsAreAnswered(t', chat);
  }

  // ---------------------------------------------------------------------
  // Names
  // ---------------------------------------------------------------------

  /** What fits into a name column: 50 characters, and blanks behind them are cut off. */
  predicate Fits(name: string) {
    forall k :: 50 <= k < |name| ==> name[k] == ' '
  }

  function Fitted(name: string): (r: string)
    ensures |r| <= 50
  {
    if |name| <= 50 then name else name[..50]
  }

  /** A new user or chat is accepted exactly if its name has no zero byte, fits, and is
      not taken as it would be stored; then it gets the next identifier. */
  lemma NewNameIsAccepted(t: Tables, name: string)
    ensures var (t', r) := Step(t, Payload("add_user", name));
      && (r == Some(SUCCESS) <==> '\0' !in name && Fits(name) && !HasName(t.users, Fitted(name)))
      && (r == Some(SUCCESS) ==> t'.users == t.users + [Named(t.nextUser, Fitted(name))])
      && (r != Some(SUCCESS) ==> r == Some(FAIL) && t'.users == t.users)
      && t'.chats == t.chats
    ensures var (t', r) := Step(t, Payload("add_chat", name));
      && (r == Some(SUCCESS) <==> '\0' !in name && Fits(name) && !HasName(t.chats, Fitted(name)))
      && (r == Some(SUCCESS) ==> t'.chats == t.chats + [Named(t.nextChat, Fitted(name))])
      && (r != Some(SUCCESS) ==> r == Some(FAIL) && t'.chats == t.chats)
      && t'.users == t.users
  {
    hide RequestOf, Payload;
    NameCommandsAreRead(name);
  }

  /** A user just added is found under the same name unless blanks were cut off. */
  lemma AddedUserIsFound(payloads: seq<string>, name: string)
    requires Step(Run(EMPTY, payloads), Payload("add_user", name)).1 == Some(SUCCESS)
    ensures var t := Run(EMPTY, payloads);
      var t' := Step(t, Payload("add_user", name)).0;
      Step(t', Payload("find_user", name)).1 == Some(Row(Named(t.nextUser, name))) <==> |name| <= 50
  {
    hide RequestOf, Run, Payload;
    NameCommandsAreRead(name);
    RunIsSound(payloads);
    var t := Run(EMPTY, payloads);
    var t' := t.AddUser(name).0;
    var rows := Select(t'.users, NameIs(name));
    var row := Named(t.nextUser, name);
    assert t'.users == t.users + [Named(t.nextUser, Varchar50(name).value)];
    assert rows != [] ==> rows[0] in rows;
    if |name| <= 50 {
      assert row in t'.users;
      assert row in rows;
    }
  }

  lemma {:induction false} DoublingShows(s: string)
    ensures |Doubled(s)| >= |s|
    ensures Doubled(s) == s <==> '\'' !in s
  {
    if s != [] {
      DoublingShows(s[1..]);
      if s[0] != '\'' {
        assert Doubled(s)[1..] == Doubled(s[1..]);
        assert s == [s[0]] + s[1..];
      } else {
        assert |Doubled(s)| > |s|;
      }
    }
  }

  /** get_chat_id answers with the right identifier, but with the name that was asked
      for only if it holds no quote. */
  lemma ChatIdIsRight(payloads: seq<string>, name: string)
    requires '\0' !in name
    ensures var t := Run(EMPTY, payloads); var reply := Step(t, Payload("get_chat_id", name)).1;
      if HasName(t.chats, name)
      then reply.Some? && reply.value.Row?
        && Named(reply.value.row.id, name) in t.chats
        && (reply.value.row.name == name <==> '\'' !in name)
      else reply == Some(Null)
  {
    hide RequestOf, Run, Doubled, Payload;
    NameCommandsAreRead(name);
    DoublingShows(name);
    var t := Run(EMPTY, payloads);
    var rows := Select(t.chats, NameIs(name));
    if HasName(t.chats, name) {
      var k :| 0 <= k < |t.chats| && t.chats[k].name == name;
      assert t.chats[k] in rows;
      var last := rows[|rows| - 1];
      assert last in rows;
      assert last == Named(last.id, name);
    } else {
      assert forall x :: x in rows ==> x in t.chats && x.name == name;
      assert forall k :: 0 <= k < |rows| ==> rows[k] in rows;
    }
  }

  /** An identifier names exactly one row, whichever of the selected rows is taken. */
  lemma RowOf(rows: seq<Named>, next: nat, id: nat)
    requires Keyed(rows, next)
    ensures var found := Select(rows, IdIs(id));
      && (found == [] <==> !HasId(rows, id))
      && (found != [] ==> found[0] == found[|found| - 1] && found[0] in rows && found[0].id == id)
  {
    hide Select;
    var found := Select(rows, IdIs(id));
    if HasId(rows, id) {
      var k :| 0 <= k < |rows| && rows[k].id == id;
      assert rows[k] in found;
    }
    if found != [] {
      assert found[0] in found && found[|found| - 1] in found;
    }
  }

  /** The reply is a row of the table with this identifier, or says that there is none. */
  predicate RowOrNot(rows: seq<Named>, id: nat, reply: Option<Reply>, absent: Reply) {
    if HasId(rows, id) then
      reply.Some? && reply.value.Row? && reply.value.row in rows && reply.value.row.id == id
    else reply == Some(absent)
  }

  /** After any run, a chat or user is answered with the one name that was stored under
      its identifier. */
  lemma NameIsRight(payloads: seq<string>, id: nat)
    requires id <= INT_MAX
    ensures var t := Run(EMPTY, payloads);
      && RowOrNot(t.chats, id, Step(t, Payload("get_chat_name", Digits(id))).1, Null)
      && RowOrNot(t.users, id, Step(t, Payload("get_user_name", Digits(id))).1, NOT_FOUND)
  {
    hide Run, Step, Payload, Digits, Select, HasId;
    var t := Run(EMPTY, payloads);
    RunIsSound(payloads);
    QuestionsAreAnswered(t, id);
    RowOf(t.chats, t.nextChat, id);
    RowOf(t.users, t.nextUser, id);
  }

  /** A user is found by its stored name exactly if there is one of that name. */
  lemma UserIsFound(t: Tables, name: string)
    requires '\0' !in name
    ensures var reply := Step(t, Payload("find_user", name)).1;
      if HasName(t.users, name)
      then reply.Some? && reply.value.Row? && reply.value.row in t.users && reply.value.row.name == name
      else reply == Some(NOT_FOUND)
  {
    hide RequestOf, Payload, Select;
    NameCommandsAreRead(name);
    var rows := Select(t.users, NameIs(name));
    if HasName(t.users, name) {
      var k :| 0 <= k < |t.users| && t.users[k].name == name;
      assert t.users[k] in rows;
    }
    if rows != [] {
      assert rows[0] in rows;
    }
  }

  // ---------------------------------------------------------------------
  // Links
  // ---------------------------------------------------------------------

  lemma LinkIsParsed(user: nat, chat: nat)
    requires user <= SIZE_MAX && chat <= SIZE_MAX
    ensures LinkRequest(Digits(user) + " " + Digits(chat)) == LinkUserToChat(user, chat)
  {
    hide Digits;
    var rest := [' '] + Digits(chat);
    assert Digits(user) + " " + Digits(chat) == Digits(user) + rest;
    ReadSizeOfDigits(user, rest);
    ReadLastSize(chat);
  }

  /** The client's command to link a user to a chat does so. */
  lemma ClientLinkIsRead(user: nat, chat: nat)
    requires user <= SIZE_MAX && chat <= SIZE_MAX
    ensures RequestOf(Payload("link_user_to_chat", Digits(user) + " " + Digits(chat))) == LinkUserToChat(user, chat)
  {
    hide Digits, LinkRequest, RequestOf;
    ListCommandsAreRead(Digits(user) + " " + Digits(chat));
    LinkIsParsed(user, chat);
  }

  /** One link: confirmed if it is there, stored if both sides exist, else refused. */
  lemma LinkIsStored(t: Tables, user: nat, chat: nat)
    requires user <= SIZE_MAX && chat <= SIZE_MAX
    ensures Step(t, Payload("link_user_to_chat", Digits(user) + " " + Digits(chat))) ==
      if Link(user, chat) in t.links then (t, Some(SUCCESS))
      else if HasId(t.users, user) && HasId(t.chats, chat)
      then (t.(links := t.links + [Link(user, chat)]), Some(SUCCESS))
      else (t, Some(FAIL))
  {
    hide RequestOf, HasId, Payload, Digits;
    ClientLinkIsRead(user, chat);
  }

  /** A reply that lists identifiers lists exactly these, each once. */
  predicate ListsExactly(reply: Option<Reply>, listed: set<nat>) {
    if listed == {} then reply == Some(Null)
    else
      && reply.Some? && reply.value.Ids? && Distinct(reply.value.ids)
      && (set id | id in reply.value.ids) == listed
  }

  function ChatsWith(links: seq<Link>, user: nat): set<nat> {
    set l | l in links && l.user == user :: l.chat
  }

  function UsersIn(links: seq<Link>, chat: nat): set<nat> {
    set l | l in links && l.chat == chat :: l.user
  }

  lemma ListIsExact(ids: seq<nat>, listed: set<nat>)
    requires Distinct(ids) && forall id: nat :: id in ids <==> id in listed
    ensures ListsExactly(Some(IdsOrNull(ids)), listed)
  {
    assert (set id | id in ids) == listed;
    if ids != [] {
      assert ids[0] in listed;
    }
  }

  /** After any run, a user is shown exactly the chats it is linked to, and a chat's
      members are exactly the users linked to it. */
  lemma ListsAreRight(payloads: seq<string>, id: nat)
    requires id <= INT_MAX
    ensures var t := Run(EMPTY, payloads);
      && ListsExactly(Step(t, Payload("get_chat_list", Digits(id))).1, ChatsWith(t.links, id))
      && ListsExactly(Step(t, Payload("get_chat_members", Digits(id))).1, UsersIn(t.links, id))
  {
    hide Run, Step, Payload, Digits, ListsExactly, Distinct, IdsOrNull;
    var t := Run(EMPTY, payloads);
    QuestionsAreAnswered(t, id);
    ListsAgree(payloads, id, id);
    forall other: nat
      ensures other in t.ChatsOf(id) <==> other in ChatsWith(t.links, id)
      ensures other in t.MembersOf(id) <==> other in UsersIn(t.links, id)
    {
      ListsAgree(payloads, id, other);
      ListsAgree(payloads, other, id);
      InSets(t.links, id, other);
    }
    ListIsExact(t.ChatsOf(id), ChatsWith(t.links, id));
    ListIsExact(t.MembersOf(id), UsersIn(t.links, id));
  }

  lemma InSets(links: seq<Link>, id: nat, other: nat)
    ensures other in ChatsWith(links, id) <==> Link(id, other) in links
    ensures other in UsersIn(links, id) <==> Link(other, id) in links
  {
  }

  // ---------------------------------------------------------------------
  // Tokens
  // ---------------------------------------------------------------------

  /** The client's command to keep a token; only its first line is kept. */
  lemma ClientTokenIsRead(user: nat, token: string)
    requires user <= SIZE_MAX
    ensures RequestOf(Payload("set_trello_token", Digits(user) + " " + token)) ==
      SetTrelloToken(user, UpTo(token, '\n'))
  {
    hide Digits, RequestOf;
    var rest := " " + token;
    ListCommandsAreRead(Digits(user) + " " + token);
    assert Digits(user) + " " + token == Digits(user) + rest;
    ReadSizeOfDigits(user, rest);
    assert rest[1..] == token;
  }

  lemma {:induction false} OneLine(s: string)
    requires '\n' !in s
    ensures UpTo(s, '\n') == s
  {
    if s != [] {
      OneLine(s[1..]);
    }
  }

  /** A token of one line is accepted exactly if the user exists, nobody has it and it
      has no zero byte. */
  lemma TokenIsStored(t: Tables, user: nat, token: string)
    requires user <= SIZE_MAX && '\n' !in token
    ensures Step(t, Payload("set_trello_token", Digits(user) + " " + token)) ==
      if HasId(t.users, user) && !HasToken(t.tokens, token) && '\0' !in token
      then (t.(tokens := t.tokens + [Token(user, token)]), Some(SUCCESS))
      else (t, Some(FAIL))
  {
    hide RequestOf, HasId, HasToken, Payload, Digits;
    ClientTokenIsRead(user, token);
    OneLine(token);
  }

  /** A user's first token is the one it gets back, whatever comes before and after;
      later ones are stored and never shown. */
  lemma FirstTokenStays(before: seq<string>, user: nat, token: string, after: seq<string>)
    requires user <= SIZE_MAX && '\n' !in token && '\0' !in token
    requires var t := Run(EMPTY, before);
      HasId(t.users, user) && !HasToken(t.tokens, token) && t.GetTrelloToken(user) == Null
    ensures var payload := Payload("set_trello_token", Digits(user) + " " + token);
      var t' := Run(EMPTY, before + [payload] + after);
      Step(t', Payload("get_trello_token", Digits(user))).1 == IfInt(user, TokenText(token))
  {
    hide Step, HasId, HasToken, Payload, Digits, Select;
    var t := Run(EMPTY, before);
    var sent := before + [Payload("set_trello_token", Digits(user) + " " + token)];
    TokenIsStored(t, user, token);
    assert sent[..|sent| - 1] == before;
    RunExtends(EMPTY, sent, after);
    var s, t' := Run(EMPTY, sent), Run(EMPTY, sent + after);
    var more := t'.tokens[|s.tokens|..];
    assert t'.tokens == t.tokens + ([Token(user, token)] + more);
    SelectSum(t.tokens, [Token(user, token)] + more, OwnedBy(user));
    SelectSum([Token(user, token)], more, OwnedBy(user));
    OneSelected(Token(user, token));
    QuestionsAreAnswered(t', user);
  }

  lemma OneSelected(row: Token)
    ensures Select([row], OwnedBy(row.user)) == [row]
  {
    assert [row][..0] == [];
  }
}
