/**
 The in-memory chat history store: a dictionary from a chat id to the list of
 `{role, content}` records of that chat. The dictionary creates a missing chat
 with an empty list on any access, so no operation ever rejects a chat id.

 Each chat's list is an object of its own (`ChatList`), because the store hands
 out the live list: a list obtained from `GetMessages` sees later appends to its
 chat, and is detached (keeps its contents) when the chat is cleared.
 */
module MemoryStore {

  /** One stored record; role and content are kept verbatim. */
  datatype Msg = Msg(role: string, content: string)

  /** The abstract value of the store: each chat id that is present maps to its history. */
  type ChatHistories = map<int, seq<Msg>>

  /** What reading chat `c` of `h` yields: its history, or the empty list a missing chat is created with. */
  function Lookup(h: ChatHistories, c: int): seq<Msg>
  {
    if c in h then h[c] else []
  }

  /** The abstract effect of reading chat `c`: a missing chat is inserted with an empty history. */
  function AfterGet(h: ChatHistories, c: int): (r: ChatHistories)
    ensures r.Keys == h.Keys + {c}
    ensures forall d :: d in h ==> r[d] == h[d]
    ensures c !in h ==> r[c] == []
    ensures forall d :: Lookup(r, d) == Lookup(h, d)
  {
    if c in h then h else h[c := []]
  }

  /** The abstract effect of appending `m` to chat `c`: the chat is created if missing, then `m` goes last. */
  function AfterAdd(h: ChatHistories, c: int, m: Msg): (r: ChatHistories)
    ensures r.Keys == h.Keys + {c}
    ensures |r[c]| == |Lookup(h, c)| + 1
    ensures r[c][..|Lookup(h, c)|] == Lookup(h, c)
    ensures r[c][|r[c]| - 1] == m
    ensures forall d :: d in h && d != c ==> r[d] == h[d]
  {
    var g := AfterGet(h, c);
    g[c := g[c] + [m]]
  }

  /** The abstract effect of clearing chat `c`: it is bound to an empty history, present or not before. */
  function AfterClear(h: ChatHistories, c: int): (r: ChatHistories)
    ensures r.Keys == h.Keys + {c}
    ensures r[c] == []
    ensures forall d :: d in h && d != c ==> r[d] == h[d]
  {
    h[c := []]
  }

  /** A stored list of records, updated in place by `Append`. */
  class ChatList {
    var items: seq<Msg>

    constructor ()
      ensures items == []
    {
      items := [];
    }

    method Append(m: Msg)
      modifies this
      ensures items == old(items) + [m]
    {
      items := items + [m];
    }
  }

  class InMemoryChatStore {
    var chats: map<int, ChatList>

    /** Two different chats never share one list object. */
    ghost predicate Valid()
      reads this
    {
      forall c, d :: c in chats && d in chats && c != d ==> chats[c] != chats[d]
    }

    /** The contents of every stored list, by chat id. */
    ghost function History(): ChatHistories
      reads this, chats.Values
    {
      map c | c in chats :: chats[c].items
    }

    /** A new store holds no chats. */
    constructor ()
      ensures Valid()
      ensures chats == map[]
      ensures History() == map[]
    {
      chats := map[];
    }

    /** Returns the live list of chat `c`, creating an empty one if the chat is new. */
    method GetMessages(c: int) returns (l: ChatList)
      requires Valid()
      modifies this
      ensures Valid()
      ensures c in chats && l == chats[c]
      ensures l.items == Lookup(old(History()), c)
      ensures c in old(chats) ==> chats == old(chats)
      ensures c !in old(chats) ==> fresh(l) && chats == old(chats)[c := l]
      ensures History() == AfterGet(old(History()), c)
    {
      if c in chats {
        l := chats[c];
      } else {
        l := new ChatList();
        chats := chats[c := l];
      }
    }

    /** Appends the record `{role, content}` to the live list of chat `c`, which is created if the chat is new. */
    method AddMessage(c: int, role: string, content: string)
      requires Valid()
      modifies this, chats.Values
      ensures Valid()
      ensures c in chats
      ensures c in old(chats) ==> chats == old(chats)
      ensures c !in old(chats) ==> fresh(chats[c]) && chats == old(chats)[c := chats[c]]
      ensures History() == AfterAdd(old(History()), c, Msg(role, content))
    {
      var l := GetMessages(c);
      l.Append(Msg(role, content));
      assert forall d :: d in chats && d != c ==> chats[d] != l;
    }

    /** Binds chat `c` to a new empty list; a list obtained earlier is left as it was. */
    method Clear(c: int)
      requires Valid()
      modifies this
      ensures Valid()
      ensures c in chats && fresh(chats[c])
      ensures chats == old(chats)[c := chats[c]]
      ensures History() == AfterClear(old(History()), c)
    {
      var l := new ChatList();
      chats := chats[c := l];
    }
  }

  /** A list read before `Clear` keeps the history it had; the chat itself is now empty. */
  method ClearDetachesEarlierList(store: InMemoryChatStore, c: int) returns (earlier: ChatList)
    requires store.Valid()
    modifies store
    ensures store.Valid()
    ensures earlier.items == Lookup(old(store.History()), c)
    ensures c in store.chats && earlier != store.chats[c] && store.chats[c].items == []
  {
    earlier := store.GetMessages(c);
    store.Clear(c);
  }

  /** A list read before `AddMessage` is the chat's live list, so it shows the new record. */
  method AddShowsInEarlierList(store: InMemoryChatStore, c: int, role: string, content: string)
    returns (earlier: ChatList)
    requires store.Valid()
    modifies store, store.chats.Values
    ensures store.Valid()
    ensures c in store.chats && earlier == store.chats[c]
    ensures earlier.items == Lookup(old(store.History()), c) + [Msg(role, content)]
  {
    earlier := store.GetMessages(c);
    store.AddMessage(c, role, content);
  }
}
