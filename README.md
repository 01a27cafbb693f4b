# In-memory chat history store

This project models `InMemoryChatStore` from `memory_store.py` of a Telegram chat bot. The store keeps, for each
chat id, the list of `{role, content}` records of that chat in a dictionary. The dictionary is a
`defaultdict(list)`, so any access to an unknown chat creates it with an empty list instead of rejecting it. The
store has three operations: `get_messages` returns the chat's live list, `add_message` appends one record to it, and
`clear` binds the chat to a new empty list. A module-level singleton `chat_store` is created empty.

The model has two modules.

- `MemoryStore` (`memory_store.dfy`) holds the record type `Msg` and the class `InMemoryChatStore`. Its field
  `chats: map<int, ChatList>` is the dictionary. Each `ChatList` is an object with a `seq<Msg>` field, because Python
  hands out the live list:
  - a list obtained from `get_messages` sees later appends to its chat;
  - it keeps its old contents once the chat is cleared.

  `Valid()` says that two chats never share a list object. `History()` is the abstract value, of type
  `ChatHistories`: a `map<int, seq<Msg>>` from each present chat to its records. Each method ties the new `History()` to a pure effect
  function of the old one: `AfterGet`, `AfterAdd` or `AfterClear`. Each method also says exactly which key of `chats`
  changes and which list objects are new.
- `CallTrace` (`call_trace.dfy`) covers sequences of calls. `Apply` makes one call on a store and moves its
  `History()` by `Step`, and `Run` applies those effect functions in order. Its lemmas
  cover what any sequence of calls does:
  - which chats exist afterwards;
  - chat `c`'s history is its records appended since the last clear of `c`;
  - appends with no clear between them grow a chat by exactly their number;
  - calls on other chats leave a chat alone;
  - a second clear changes nothing;
  - a read changes no history.

The code has no history trimming, memory toggle, eviction or context assembly, and no code uses the style table in
config.py: history is unbounded and `get_messages` inserts the key it reads.

## Model

| member | source | states |
|---|---|---|
| MemoryStore.AfterGet | memory_store.py:14-15 | Reading a chat inserts it with an empty history if it is missing. It keeps every existing chat's history, so no chat's history as read changes. |
| MemoryStore.AfterAdd | memory_store.py:17-20 | Appending to chat `c` creates it if missing. Its history grows by exactly one record. The old records form an unchanged prefix, the new record `{role, content}` is last, whatever the role string is, and every other chat is unchanged. |
| MemoryStore.AfterClear | memory_store.py:22-23 | Clearing chat `c` binds it to an empty history, whether or not it existed. Every other chat is unchanged. |
| MemoryStore.ChatList.constructor | memory_store.py:12 | A list created for a chat starts empty. |
| MemoryStore.ChatList.Append | memory_store.py:18-20 | Appending changes only this list and puts the record after its old contents. |
| MemoryStore.InMemoryChatStore.constructor | memory_store.py:11-12 | A new store, and so the `chat_store` singleton, holds no chats and satisfies `Valid()`. |
| MemoryStore.InMemoryChatStore.GetMessages | memory_store.py:14-15 | Returns the chat's own stored list, holding its old history (empty for a new chat). A missing chat gets a fresh list under its key and nothing else changes; for an existing chat the dictionary is unchanged. |
| MemoryStore.InMemoryChatStore.AddMessage | memory_store.py:17-20 | For an existing chat it appends in place to the existing list object, and the dictionary is unchanged. A new chat gets a fresh list. The new history equals `AfterAdd` of the old one, and only lists held by the store may change. |
| MemoryStore.InMemoryChatStore.Clear | memory_store.py:22-23 | Rebinds the key to a fresh empty list and changes no list object, so only this one key of the dictionary changes. The new history equals `AfterClear` of the old one. |
| MemoryStore.ClearDetachesEarlierList | memory_store.py:14-23 | A list obtained from `get_messages` before `clear` keeps its old contents. It is no longer the chat's list, and the chat's list is now empty. |
| MemoryStore.AddShowsInEarlierList | memory_store.py:14-20 | A list obtained from `get_messages` before `add_message` is still the chat's list and shows the appended record. |
| CallTrace.StepLookup | memory_store.py:14-23 | One call clears chat `c`'s history if it is a clear of `c`. Otherwise the call leaves the history as it was followed by what it appends to `c`. |
| CallTrace.SinceLastClearIsSuffix | memory_store.py:22-23 | The calls since the last clear of `c` form a suffix of the sequence that contains no clear of `c`. The suffix is shorter than the whole sequence exactly when the sequence clears `c`, and then a clear of `c` comes right before it. |
| CallTrace.RunKeys | memory_store.py:12-23 | After any sequence of calls, the chats present are the initial ones plus every chat any call touched, reads included. No chat is ever removed. |
| CallTrace.RunHistory | memory_store.py:14-23 | After any sequence of calls, chat `c`'s history is its initial history, or nothing if `c` was cleared. That is followed by exactly the records appended to `c` since the last clear, in call order. |
| CallTrace.RunWithoutClear | memory_store.py:17-20 | With no clear of `c`, the calls extend `c`'s history by exactly the records they append to it. Its length grows by their number. |
| CallTrace.AddedByAppendsOnly | memory_store.py:17-20 | A sequence of `n` appends to `c` appends exactly `n` records, the i-th being the i-th call's role and content. |
| CallTrace.AddedCountsAppends | memory_store.py:17-20 | Whatever other calls lie between, a sequence of calls appends to chat `c` exactly one record per `add_message` call on `c`. |
| CallTrace.Apply | memory_store.py:14-23 | Making any one call on a valid store keeps it valid and moves its history by exactly that call's effect, `Step`. Every list the store holds afterwards was held before or is new. |
| CallTrace.ApplyInTurn | memory_store.py:14-23 | Two calls made one after the other on a valid store take its history to `Run` of the pair. |
| CallTrace.AppendsGrowByCount | memory_store.py:17-20 | `n` calls of `add_message` on one chat grow its history by exactly `n` and keep the earlier records as a prefix. Nothing bounds or trims it. |
| CallTrace.OtherChatsUntouched | memory_store.py:14-23 | Calls on other chats leave chat `c` exactly as it was, present with the same history or absent. |
| CallTrace.ClearTwiceIsClearOnce | memory_store.py:22-23 | Clearing a chat twice in a row leaves the same store as clearing it once. |
| CallTrace.GetKeepsEveryHistory | memory_store.py:14-15 | After a `get_messages` call, every chat's history reads the same as before it. |

## Left out

- The `chat_store` singleton (memory_store.py:26): Dafny has no module-level mutable objects. The singleton is modelled by the store constructor's postcondition: a freshly constructed store is empty.
- Chat ids are modelled as `int`, and `role` and `content` as `string`, following the annotations (memory_store.py:14-17). Python would accept any hashable chat id and store any object as role or content.
- Records are modelled as the immutable datatype `Msg`. In Python each record is a mutable `dict`, and a caller holding the live list could also change it or its records directly. The model's `ChatList.items` is a public field, so the same is possible there.
- Concurrency: the store is modelled as single-threaded. The bot's async handlers are not part of this model.
- telegram_bot.py, generation_service.py, groq_client.py, main.py and config.py are not part of this model. They are transport, an external generation client, bootstrap and constants. No code there reads the stored history, and `STYLES` and `MAX_HISTORY_MESSAGES` are unused. So the model has no style fallback, no trimming and no context assembly.
