/** The chat server (server.cpp): its requests, its tables, and the way a text goes
    from the client's command through SQL into the tables. */
module ChatServer {
  import opened CLibrary
  import opened Common
  import opened IntegerText
  import opened Sql

  // ---------------------------------------------------------------------
  // The tables
  // ---------------------------------------------------------------------

  datatype Named = Named(id: nat, name: string)
  datatype Link = Link(user: nat, chat: nat)
  datatype Message = Message(chat: nat, sender: nat, text: string)
  datatype Token = Token(user: nat, text: string)

  /** Rows keep the order of their insertion. The two counters are the sequences
      behind the BIGSERIAL columns. */
  datatype Tables = Tables(
    users: seq<Named>, nextUser: nat,
    chats: seq<Named>, nextChat: nat,
    links: seq<Link>,
    messages: seq<Message>,
    tokens: seq<Token>)
  {
    /** add_message. */
    function AddMessage(chat: nat, sender: nat, text: string): (Tables, Reply) {
      if HasId(chats, chat) && HasId(users, sender) && '\0' !in text
      then (this.(messages := messages + [Message(chat, sender, text)]), SUCCESS)
      else (this, FAIL)
    }

    function AddUser(name: string): (Tables, Reply) {
      var (rows, next, reply) := AddName(users, nextUser, name);
      (this.(users := rows, nextUser := next), reply)
    }

    function AddChat(name: string): (Tables, Reply) {
      var (rows, next, reply) := AddName(chats, nextChat, name);
      (this.(chats := rows, nextChat := next), reply)
    }

    /** A link that exists is confirmed and not stored again. */
    function LinkUserToChat(user: nat, chat: nat): (Tables, Reply) {
      if Link(user, chat) in links then (this, SUCCESS)
      else if HasId(users, user) && HasId(chats, chat)
      then (this.(links := links + [Link(user, chat)]), SUCCESS)
      else (this, FAIL)
    }

    function FindUser(name: string): Reply {
      var rows := Select(users, NameIs(name));
      if '\0' in name then FAIL else if rows == [] then NOT_FOUND else Row(rows[0])
    }

    function GetUserName(id: nat): Reply {
      var rows := Select(users, IdIs(id));
      if id > BIGINT_MAX then FAIL else if rows == [] then NOT_FOUND else Row(rows[0])
    }

    function GetChatName(id: nat): Reply {
      var rows := Select(chats, IdIs(id));
      if rows == [] then Null else Row(Named(id, rows[|rows| - 1].name))
    }

    /** The name in the reply is the parameter, its quotes doubled. */
    function GetChatId(name: string): Reply {
      var rows := Select(chats, NameIs(name));
      if '\0' in name then FAIL
      else if rows == [] then Null else Row(Named(rows[|rows| - 1].id, Doubled(name)))
    }

    function ChatsOf(user: nat): seq<nat> {
      var rows := Select(links, UserIs(user));
      seq(|rows|, k requires 0 <= k < |rows| => rows[k].chat)
    }

    function MembersOf(chat: nat): seq<nat> {
      var rows := Select(links, ChatIs(chat));
      seq(|rows|, k requires 0 <= k < |rows| => rows[k].user)
    }

    function HistoryOf(chat: nat): seq<Message> {
      Select(messages, SentTo(chat))
    }

    function SetTrelloToken(user: nat, text: string): (Tables, Reply) {
      if HasId(users, user) && !HasToken(tokens, text) && '\0' !in text
      then (this.(tokens := tokens + [Token(user, text)]), SUCCESS)
      else (this, FAIL)
    }

    function GetTrelloToken(user: nat): Reply {
      var rows := Select(tokens, OwnedBy(user));
      if rows == [] then Null else TokenText(rows[0].text)
    }
  }

  const EMPTY := Tables([], 1, [], 1, [], [], [])

  const BIGINT_MAX := 0x7FFF_FFFF_FFFF_FFFF

  predicate HasId(rows: seq<Named>, id: nat) {
    exists k :: 0 <= k < |rows| && rows[k].id == id
  }

  predicate HasName(rows: seq<Named>, name: string) {
    exists k :: 0 <= k < |rows| && rows[k].name == name
  }

  predicate HasToken(rows: seq<Token>, text: string) {
    exists k :: 0 <= k < |rows| && rows[k].text == text
  }

  predicate Keyed(rows: seq<Named>, next: nat) {
    && (forall k :: 0 <= k < |rows| ==> rows[k].id < next)
    && (forall j, k :: 0 <= j < k < |rows| ==> rows[j].id != rows[k].id && rows[j].name != rows[k].name)
  }

  predicate Distinct<T(==)>(s: seq<T>) {
    forall j, k :: 0 <= j < k < |s| ==> s[j] != s[k]
  }

  /** What the declared keys demand, and that no link is stored twice: no key says
      that, it is up to the server. */
  predicate Sound(t: Tables) {
    && Keyed(t.users, t.nextUser) && Keyed(t.chats, t.nextChat)
    && (forall k :: 0 <= k < |t.links| ==> HasId(t.users, t.links[k].user) && HasId(t.chats, t.links[k].chat))
    && (forall k :: 0 <= k < |t.messages| ==>
          HasId(t.chats, t.messages[k].chat) && HasId(t.users, t.messages[k].sender))
    && Distinct(t.links)
    && (forall k :: 0 <= k < |t.tokens| ==> HasId(t.users, t.tokens[k].user))
    && (forall j, k :: 0 <= j < k < |t.tokens| ==> t.tokens[j].text != t.tokens[k].text)
  }

  // ---------------------------------------------------------------------
  // Statements, as the backend executes them
  // ---------------------------------------------------------------------

  /** A value for a VARCHAR(50) column: only blanks may be cut off. */
  function Varchar50(s: string): Option<string> {
    if |s| <= 50 then Some(s)
    else if forall k :: 50 <= k < |s| ==> s[k] == ' ' then Some(s[..50])
    else None
  }

  /** A row for Users or Chats: the rows, the counter, and whether it succeeded. The
      length of a constant is checked before the row is made, its name against the
      others after that, when the row has used up a number. */
  function InsertName(rows: seq<Named>, next: nat, values: Option<seq<Literal>>): (seq<Named>, nat, bool) {
    if values.Some? && |values.value| == 1 && values.value[0].Quoted? then
      match Varchar50(values.value[0].s)
      case None => (rows, next, false)
      case Some(name) =>
        if HasName(rows, name) then (rows, next + 1, false) else (rows + [Named(next, name)], next + 1, true)
    else (rows, next, false)
  }

  /** None is a raised error. */
  function InsertMessage(t: Tables, values: Option<seq<Literal>>): Option<Tables> {
    if values.Some? && |values.value| == 3
       && values.value[0].Number? && values.value[1].Number? && values.value[2].Quoted? then
      var chat, sender := values.value[0].n, values.value[1].n;
      if HasId(t.chats, chat) && HasId(t.users, sender)
      then Some(t.(messages := t.messages + [Message(chat, sender, values.value[2].s)])) else None
    else None
  }

  function InsertLink(t: Tables, values: Option<seq<Literal>>): Option<Tables> {
    if values.Some? && |values.value| == 2 && values.value[0].Number? && values.value[1].Number? then
      var user, chat := values.value[0].n, values.value[1].n;
      if HasId(t.users, user) && HasId(t.chats, chat)
      then Some(t.(links := t.links + [Link(user, chat)])) else None
    else None
  }

  function InsertToken(t: Tables, values: Option<seq<Literal>>): Option<Tables> {
    if values.Some? && |values.value| == 2 && values.value[0].Number? && values.value[1].Quoted? then
      var user, text := values.value[0].n, values.value[1].s;
      if HasId(t.users, user) && !HasToken(t.tokens, text)
      then Some(t.(tokens := t.tokens + [Token(user, text)])) else None
    else None
  }

  function Select<T(!new)>(rows: seq<T>, where: T -> bool): (r: seq<T>)
    ensures forall x :: x in r <==> x in rows && where(x)
    ensures |r| <= |rows|
  {
    if rows == [] then []
    else
      var init, last := rows[..|rows| - 1], rows[|rows| - 1];
      assert rows == init + [last];
      Select(init, where) + (if where(last) then [last] else [])
  }

  function NameIs(name: string): Named -> bool { (x: Named) => x.name == name }
  function IdIs(id: nat): Named -> bool { (x: Named) => x.id == id }
  function UserIs(user: nat): Link -> bool { (x: Link) => x.user == user }
  function ChatIs(chat: nat): Link -> bool { (x: Link) => x.chat == chat }
  function LinkIs(user: nat, chat: nat): Link -> bool { (x: Link) => x.user == user && x.chat == chat }
  function SentTo(chat: nat): Message -> bool { (x: Message) => x.chat == chat }
  function OwnedBy(user: nat): Token -> bool { (x: Token) => x.user == user }

  datatype Reply =
    | Words(s: string)
    | Row(row: Named)
    | Ids(ids: seq<nat>)
    | History(messages: seq<Message>)
    | TokenText(text: string)
    | Null

  const SUCCESS := Words("SUCCESS")
  const FAIL := Words("FAIL")
  const NOT_FOUND := Words("User not found")

  function IdsOrNull(ids: seq<nat>): Reply {
    if ids == [] then Null else Ids(ids)
  }

  function HistoryOrNull(rows: seq<Message>): Reply {
    if rows == [] then Null else History(rows)
  }

  /** A new row for Users or Chats: the rows, the counter, and the reply. A name that
      is taken still uses up a number; one that is cut off or too long does not. */
  function AddName(rows: seq<Named>, next: nat, name: string): (seq<Named>, nat, Reply) {
    if '\0' in name then (rows, next, FAIL)
    else
      match Varchar50(name)
      case None => (rows, next, FAIL)
      case Some(fitting) =>
        if HasName(rows, fitting) then (rows, next + 1, FAIL)
        else (rows + [Named(next, fitting)], next + 1, SUCCESS)
  }

  // ---------------------------------------------------------------------
  // The Database class
  // ---------------------------------------------------------------------

  lemma NumberThenRow(n: nat, rest: string)
    ensures ReadRow(Digits(n) + ", " + rest) ==
      match ReadRow(rest) case None => None case Some(row) => Some([Number(n)] + row)
  {
    hide Digits, ReadLiteral;
    var tail := ", " + rest;
    assert Digits(n) + ", " + rest == Digits(n) + tail;
    NumberIsRead(n, tail);
    assert StartsWith(tail, ", ") && tail[2..] == rest;
  }

  lemma LastNumber(n: nat)
    ensures ReadRow(Digits(n) + ")") == Some([Number(n)])
  {
    hide Digits, ReadLiteral;
    NumberIsRead(n, ")");
  }

  lemma LastText(text: string)
    ensures ReadRow(CString("'" + Doubled(text) + "')")) ==
      if '\0' in text then None else Some([Quoted(text)])
  {
    hide Doubled, ReadLiteral, CString;
    assert "'" + Doubled(text) + "')" == ['\''] + Doubled(text) + ['\''] + ")";
    QuotedIsRead(text, ")");
  }

  lemma LoneText(text: string)
    ensures ReadCondition(CString("'" + Doubled(text) + "'")) ==
      if '\0' in text then None else Some(Quoted(text))
  {
    hide Doubled, ReadLiteral, CString;
    assert "'" + Doubled(text) + "'" == ['\''] + Doubled(text) + ['\''] + "";
    QuotedIsRead(text, "");
  }

  lemma NumberThenText(n: nat, text: string)
    ensures ReadRow(CString(Digits(n) + ", '" + Doubled(text) + "')")) ==
      if '\0' in text then None else Some([Number(n), Quoted(text)])
  {
    hide Digits, Doubled, ReadRow, CString;
    var quoted := "'" + Doubled(text) + "')";
    var s := Digits(n) + ", '" + Doubled(text) + "')";
    assert s == (Digits(n) + ", ") + quoted;
    CutAfter(Digits(n) + ", ", quoted);
    NumberThenRow(n, CString(quoted));
    LastText(text);
    assert [Number(n)] + [Quoted(text)] == [Number(n), Quoted(text)];
  }

  lemma TwoNumbers(m: nat, n: nat)
    ensures ReadRow(CString(Digits(m) + ", " + Digits(n) + ")")) == Some([Number(m), Number(n)])
  {
    hide Digits, ReadRow, CString;
    var s := Digits(m) + ", " + Digits(n) + ")";
    var last := Digits(n) + ")";
    assert s == Digits(m) + ", " + last;
    NoZero(s);
    NumberThenRow(m, last);
    LastNumber(n);
    assert [Number(m)] + [Number(n)] == [Number(m), Number(n)];
  }

  lemma TwoNumbersThenText(m: nat, n: nat, text: string)
    ensures ReadRow(CString(Digits(m) + ", " + Digits(n) + ", '" + Doubled(text) + "')")) ==
      if '\0' in text then None else Some([Number(m), Number(n), Quoted(text)])
  {
    hide Digits, Doubled, ReadRow, CString;
    var head := Digits(m) + ", ";
    var rest := Digits(n) + ", '" + Doubled(text) + "')";
    assert Digits(m) + ", " + Digits(n) + ", '" + Doubled(text) + "')" == head + rest;
    CutAfter(head, rest);
    NumberThenRow(m, CString(rest));
    NumberThenText(n, text);
    assert [Number(m)] + [Number(n), Quoted(text)] == [Number(m), Number(n), Quoted(text)];
  }

  /** Every statement is written as text and read back by the backend; what comes of
      it is what the functions of Tables say. */
  class Database {
    var tables: Tables

    constructor ()
      ensures tables == EMPTY
    {
      tables := EMPTY;
    }

    method AddMessage(chat: nat, sender: nat, text: string) returns (reply: Reply)
      modifies this
      ensures (tables, reply) == old(tables).AddMessage(chat, sender, text)
    {
      hide ReadRow, CString, Doubled, Digits;
      var values := Digits(chat) + ", " + Digits(sender) + ", '" + Doubled(text) + "')";
      TwoNumbersThenText(chat, sender, text);
      var inserted := InsertMessage(tables, ReadRow(CString(values)));
      if inserted == None {
        return FAIL;
      }
      tables := inserted.value;
      reply := SUCCESS;
    }

    method AddChat(name: string) returns (reply: Reply)
      modifies this
      ensures (tables, reply) == old(tables).AddChat(name)
    {
      hide ReadRow, CString, Doubled;
      var values := "'" + Doubled(name) + "')";
      LastText(name);
      var (rows, next, ok) := InsertName(tables.chats, tables.nextChat, ReadRow(CString(values)));
      tables := tables.(chats := rows, nextChat := next);
      reply := if ok then SUCCESS else FAIL;
    }

    method AddUser(name: string) returns (reply: Reply)
      modifies this
      ensures (tables, reply) == old(tables).AddUser(name)
    {
      hide ReadRow, CString, Doubled;
      var values := "'" + Doubled(name) + "')";
      LastText(name);
      var (rows, next, ok) := InsertName(tables.users, tables.nextUser, ReadRow(CString(values)));
      tables := tables.(users := rows, nextUser := next);
      reply := if ok then SUCCESS else FAIL;
    }

    method LinkUserToChat(user: nat, chat: nat) returns (reply: Reply)
      modifies this
      ensures (tables, reply) == old(tables).LinkUserToChat(user, chat)
    {
      hide ReadRow, CString, Digits;
      var values := Digits(user) + ", " + Digits(chat) + ")";
      TwoNumbers(user, chat);
      var r := Select(tables.links, LinkIs(user, chat));
      var linkExists := false;
      for i := 0 to |r|
        invariant linkExists <==> i > 0
      {
        linkExists := true;
      }
      assert linkExists ==> r[0] in r;
      assert Link(user, chat) in r <==> Link(user, chat) in tables.links;
      if !linkExists {
        var inserted := InsertLink(tables, ReadRow(CString(values)));
        if inserted == None {
          return FAIL;
        }
        tables := inserted.value;
      }
      reply := SUCCESS;
    }

    method FindUser(name: string) returns (reply: Reply)
      ensures reply == tables.FindUser(name)
    {
      hide ReadCondition, CString, Doubled;
      LoneText(name);
      var condition := ReadCondition(CString("'" + Doubled(name) + "'"));
      if condition == None {
        return FAIL;
      }
      var rows := Select(tables.users, NameIs(condition.value.s));
      for i := 0 to |rows| {
        return Row(rows[i]);
      }
      reply := NOT_FOUND;
    }

    method GetChatHistory(chat: nat) returns (reply: Reply)
      ensures reply == HistoryOrNull(tables.HistoryOf(chat))
    {
      var rows := Select(tables.messages, SentTo(chat));
      reply := Null;
      for i := 0 to |rows|
        invariant reply == HistoryOrNull(rows[..i])
      {
        var row := Message(chat, rows[i].sender, rows[i].text);
        assert rows[i] in rows;
        assert rows[..i + 1] == rows[..i] + [row];
        reply := History((if reply == Null then [] else reply.messages) + [row]);
      }
      assert rows[..|rows|] == rows;
    }

    method GetChatName(id: nat) returns (reply: Reply)
      ensures reply == tables.GetChatName(id)
    {
      var rows := Select(tables.chats, IdIs(id));
      reply := Null;
      for i := 0 to |rows|
        invariant reply == if i == 0 then Null else Row(Named(id, rows[i - 1].name))
      {
        reply := Row(Named(id, rows[i].name));
      }
    }

    method GetChatId(name: string) returns (reply: Reply)
      ensures reply == tables.GetChatId(name)
    {
      hide ReadCondition, CString, Doubled;
      var chatName := Doubled(name);
      LoneText(name);
      var condition := ReadCondition(CString("'" + chatName + "'"));
      if condition == None {
        return FAIL;
      }
      var rows := Select(tables.chats, NameIs(condition.value.s));
      reply := Null;
      for i := 0 to |rows|
        invariant reply == if i == 0 then Null else Row(Named(rows[i - 1].id, chatName))
      {
        reply := Row(Named(rows[i].id, chatName));
      }
    }

    method GetChatList(user: nat) returns (reply: Reply)
      ensures reply == IdsOrNull(tables.ChatsOf(user))
    {
      var rows := Select(tables.links, UserIs(user));
      reply := Null;
      for i := 0 to |rows|
        invariant reply == IdsOrNull(tables.ChatsOf(user)[..i])
      {
        reply := Ids((if reply == Null then [] else reply.ids) + [rows[i].chat]);
      }
    }

    method GetChatMembers(chat: nat) returns (reply: Reply)
      ensures reply == IdsOrNull(tables.MembersOf(chat))
    {
      var rows := Select(tables.links, ChatIs(chat));
      reply := Null;
      for i := 0 to |rows|
        invariant reply == IdsOrNull(tables.MembersOf(chat)[..i])
      {
        reply := Ids((if reply == Null then [] else reply.ids) + [rows[i].user]);
      }
    }

    method SetTrelloToken(user: nat, text: string) returns (reply: Reply)
      modifies this
      ensures (tables, reply) == old(tables).SetTrelloToken(user, text)
    {
      hide ReadRow, CString, Doubled, Digits;
      var values := Digits(user) + ", '" + Doubled(text) + "')";
      NumberThenText(user, text);
      var inserted := InsertToken(tables, ReadRow(CString(values)));
      if inserted == None {
        return FAIL;
      }
      tables := inserted.value;
      reply := SUCCESS;
    }

    method GetTrelloToken(user: nat) returns (reply: Reply)
      ensures reply == tables.GetTrelloToken(user)
    {
      var rows := Select(tables.tokens, OwnedBy(user));
      for i := 0 to |rows| {
        return TokenText(rows[i].text);
      }
      reply := Null;
    }

    /** The identifier is written as a string constant, so it must be a bigint. */
    method GetUserName(id: nat) returns (reply: Reply)
      ensures reply == tables.GetUserName(id)
    {
      if id > BIGINT_MAX {
        return FAIL;
      }
      var rows := Select(tables.users, IdIs(id));
      for i := 0 to |rows| {
        return Row(rows[i]);
      }
      reply := NOT_FOUND;
    }
  }
}
