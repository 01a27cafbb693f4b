/**
 Sequences of calls on one chat store, run from a given history. Making one
 call on the store (`Apply`) takes its `History()` to `Step` of the old history,
 so these lemmas describe what any sequence of `GetMessages`, `AddMessage` and
 `Clear` calls leaves in the store.
 */
module CallTrace {
  import opened MemoryStore

  /** One call on the store: `get_messages`, `add_message` or `clear`. */
  datatype Call =
    | GetMessagesCall(chat: int)
    | AddMessageCall(chat: int, role: string, content: string)
    | ClearCall(chat: int)

  /** The abstract effect of one call, as the store's method for it promises. */
  function Step(h: ChatHistories, call: Call): ChatHistories
  {
    match call
    case GetMessagesCall(c) => AfterGet(h, c)
    case AddMessageCall(c, role, content) => AfterAdd(h, c, Msg(role, content))
    case ClearCall(c) => AfterClear(h, c)
  }

  /** The history after the calls `calls`, made in order starting from `h`. */
  function Run(h: ChatHistories, calls: seq<Call>): ChatHistories
    decreases |calls|
  {
    if calls == [] then h else Step(Run(h, calls[..|calls| - 1]), calls[|calls| - 1])
  }

  /** The record `call` appends to chat `c`: one for an `AddMessageCall` on `c`, none otherwise. */
  function AppendedBy(call: Call, c: int): seq<Msg>
  {
    if call.AddMessageCall? && call.chat == c then [Msg(call.role, call.content)] else []
  }

  /** The records `calls` append to chat `c`, in call order. */
  function Added(calls: seq<Call>, c: int): seq<Msg>
    decreases |calls|
  {
    if calls == [] then [] else Added(calls[..|calls| - 1], c) + AppendedBy(calls[|calls| - 1], c)
  }

  /** One call empties chat `c` if it clears `c`, and otherwise appends to it what the call appends. */
  lemma StepLookup(h: ChatHistories, call: Call, c: int)
    ensures Lookup(Step(h, call), c)
         == if call == ClearCall(c) then [] else Lookup(h, c) + AppendedBy(call, c)
  {
  }

  /** The calls after the last `ClearCall(c)`, or all of `calls` if there is none. */
  function SinceLastClear(calls: seq<Call>, c: int): seq<Call>
    decreases |calls|
  {
    if calls == [] then []
    else if calls[|calls| - 1] == ClearCall(c) then []
    else SinceLastClear(calls[..|calls| - 1], c) + [calls[|calls| - 1]]
  }

  /**
   `SinceLastClear(calls, c)` is a suffix of `calls` free of `ClearCall(c)`, and it is
   shorter than `calls` exactly when `calls` clears `c`, right before the suffix.
   */
  lemma {:induction false} SinceLastClearIsSuffix(calls: seq<Call>, c: int)
    ensures |SinceLastClear(calls, c)| <= |calls|
    ensures calls == calls[..|calls| - |SinceLastClear(calls, c)|] + SinceLastClear(calls, c)
    ensures ClearCall(c) !in SinceLastClear(calls, c)
    ensures |SinceLastClear(calls, c)| < |calls| <==> ClearCall(c) in calls
    ensures |SinceLastClear(calls, c)| < |calls| ==> calls[|calls| - |SinceLastClear(calls, c)| - 1] == ClearCall(c)
    decreases |calls|
  {
    if calls != [] {
      var front, last := calls[..|calls| - 1], calls[|calls| - 1];
      assert calls == front + [last];
      if last != ClearCall(c) {
        SinceLastClearIsSuffix(front, c);
        var r := SinceLastClear(front, c);
        assert SinceLastClear(calls, c) == r + [last];
        var k := |front| - |r|;
        assert front == front[..k] + r;
        assert calls[..k] == front[..k];
        assert calls == calls[..k] + (r + [last]);
        assert ClearCall(c) in calls <==> ClearCall(c) in front;
        if |r| < |front| {
          assert calls[k - 1] == front[k - 1];
        }
      }
    }
  }

  /** The chats that `calls` touch; every kind of call creates its chat if missing. */
  function Chats(calls: seq<Call>): set<int>
  {
    set call | call in calls :: call.chat
  }

  /** Every call inserts its chat, and no call removes one. */
  lemma {:induction false} RunKeys(h: ChatHistories, calls: seq<Call>)
    ensures Run(h, calls).Keys == h.Keys + Chats(calls)
    decreases |calls|
  {
    if calls != [] {
      var front, last := calls[..|calls| - 1], calls[|calls| - 1];
      assert calls == front + [last];
      RunKeys(h, front);
      assert Chats(calls) == Chats(front) + {last.chat};
    }
  }

  /**
   The history of chat `c` after `calls` is what was appended to it since the last
   clear of `c`, following either nothing (there was a clear) or its starting history.
   */
  lemma {:induction false} RunHistory(h: ChatHistories, calls: seq<Call>, c: int)
    ensures Lookup(Run(h, calls), c)
         == (if ClearCall(c) in calls then [] else Lookup(h, c)) + Added(SinceLastClear(calls, c), c)
    decreases |calls|
  {
    if calls != [] {
      var front, last := calls[..|calls| - 1], calls[|calls| - 1];
      assert calls == front + [last];
      if last == ClearCall(c) {
        StepLookup(Run(h, front), last, c);
      } else {
        RunHistory(h, front, c);
        var start := if ClearCall(c) in front then [] else Lookup(h, c);
        assert (ClearCall(c) in calls) == (ClearCall(c) in front);
        StepLookup(Run(h, front), last, c);
        StepKeepsRecord(Lookup(Run(h, front), c), Lookup(Run(h, calls), c), start, SinceLastClear(front, c), last, c);
      }
    }
  }

  /** The inductive step of `RunHistory` for a last call that does not clear `c`. */
  lemma StepKeepsRecord(before: seq<Msg>, after: seq<Msg>, start: seq<Msg>, since: seq<Call>, last: Call, c: int)
    requires after == before + AppendedBy(last, c)
    requires before == start + Added(since, c)
    ensures after == start + Added(since + [last], c)
  {
    var sinceAll := since + [last];
    assert sinceAll[..|sinceAll| - 1] == since;
    assert Added(sinceAll, c) == Added(since, c) + AppendedBy(last, c);
  }

  /** With no clear of `c`, the calls extend `c`'s history by exactly what they append to it. */
  lemma {:induction false} RunWithoutClear(h: ChatHistories, calls: seq<Call>, c: int)
    requires ClearCall(c) !in calls
    ensures Lookup(Run(h, calls), c) == Lookup(h, c) + Added(calls, c)
    ensures |Lookup(Run(h, calls), c)| == |Lookup(h, c)| + |Added(calls, c)|
  {
    RunHistory(h, calls, c);
    SinceLastClearIsSuffix(calls, c);
  }

  /** Each of `n` appends to `c` contributes one record: nothing is dropped or trimmed. */
  lemma {:induction false} AddedByAppendsOnly(calls: seq<Call>, c: int)
    requires forall i :: 0 <= i < |calls| ==> calls[i].AddMessageCall? && calls[i].chat == c
    ensures |Added(calls, c)| == |calls|
    ensures forall i :: 0 <= i < |calls| ==> Added(calls, c)[i] == Msg(calls[i].role, calls[i].content)
    decreases |calls|
  {
    if calls != [] {
      var front := calls[..|calls| - 1];
      AddedByAppendsOnly(front, c);
    }
  }

  /** `n` calls of `AddMessage` on `c` in a row make its history `n` records longer. */
  lemma AppendsGrowByCount(h: ChatHistories, calls: seq<Call>, c: int)
    requires forall i :: 0 <= i < |calls| ==> calls[i].AddMessageCall? && calls[i].chat == c
    ensures |Lookup(Run(h, calls), c)| == |Lookup(h, c)| + |calls|
    ensures Lookup(Run(h, calls), c)[..|Lookup(h, c)|] == Lookup(h, c)
  {
    assert ClearCall(c) !in calls by {
      assert forall call :: call in calls ==> call.AddMessageCall?;
    }
    RunWithoutClear(h, calls, c);
    AddedByAppendsOnly(calls, c);
  }

  /** Calls on other chats leave chat `c` exactly as it was, present or absent. */
  lemma {:induction false} OtherChatsUntouched(h: ChatHistories, calls: seq<Call>, c: int)
    requires c !in Chats(calls)
    ensures c in Run(h, calls) <==> c in h
    ensures c in h ==> Run(h, calls)[c] == h[c]
    decreases |calls|
  {
    if calls != [] {
      var front, last := calls[..|calls| - 1], calls[|calls| - 1];
      assert last in calls;
      assert Chats(front) <= Chats(calls) by {
        forall d | d in Chats(front) ensures d in Chats(calls) {
          var call :| call in front && call.chat == d;
          assert call in calls;
        }
      }
      OtherChatsUntouched(h, front, c);
    }
  }

  /** Clearing a chat a second time right away changes nothing. */
  lemma ClearTwiceIsClearOnce(h: ChatHistories, calls: seq<Call>, c: int)
    ensures Run(h, calls + [ClearCall(c), ClearCall(c)]) == Run(h, calls + [ClearCall(c)])
  {
    var once := calls + [ClearCall(c)];
    var twice := calls + [ClearCall(c), ClearCall(c)];
    assert twice[..|twice| - 1] == once;
    assert once[..|once| - 1] == calls;
  }

  /** A read of chat `c` changes no chat's history as a later read sees it. */
  lemma GetKeepsEveryHistory(h: ChatHistories, calls: seq<Call>, c: int, d: int)
    ensures Lookup(Run(h, calls + [GetMessagesCall(c)]), d) == Lookup(Run(h, calls), d)
  {
    var after := calls + [GetMessagesCall(c)];
    assert after[..|after| - 1] == calls;
  }

  /** The positions in `calls` of the `AddMessageCall`s on chat `c`. */
  function AppendsTo(calls: seq<Call>, c: int): set<nat>
  {
    set i: nat | i < |calls| && calls[i].AddMessageCall? && calls[i].chat == c
  }

  /** `calls` append to chat `c` exactly one record per `AddMessageCall` on `c`, whatever calls lie between. */
  lemma {:induction false} AddedCountsAppends(calls: seq<Call>, c: int)
    ensures |Added(calls, c)| == |AppendsTo(calls, c)|
    decreases |calls|
  {
    if calls == [] {
      assert AppendsTo(calls, c) == {};
    } else {
      var front, last := calls[..|calls| - 1], calls[|calls| - 1];
      AddedCountsAppends(front, c);
      var n := |front|;
      assert n !in AppendsTo(front, c);
      if last.AddMessageCall? && last.chat == c {
        assert AppendsTo(calls, c) == AppendsTo(front, c) + {n};
      } else {
        assert AppendsTo(calls, c) == AppendsTo(front, c);
      }
    }
  }

  /** Makes `call` on the store; the store's history moves by exactly `Step` of its old value. */
  method Apply(store: InMemoryChatStore, call: Call)
    requires store.Valid()
    modifies store, store.chats.Values
    ensures store.Valid()
    ensures forall l :: l in store.chats.Values ==> l in old(store.chats.Values) || fresh(l)
    ensures store.History() == Step(old(store.History()), call)
  {
    match call
    case GetMessagesCall(c) =>
      var _ := store.GetMessages(c);
    case AddMessageCall(c, role, content) =>
      store.AddMessage(c, role, content);
    case ClearCall(c) =>
      store.Clear(c);
  }

  /** Two calls made one after the other take the store's history to `Run` of the pair. */
  method ApplyInTurn(store: InMemoryChatStore, first: Call, second: Call)
    requires store.Valid()
    modifies store, store.chats.Values
    ensures store.Valid()
    ensures store.History() == Run(old(store.History()), [first, second])
  {
    ghost var start := store.History();
    Apply(store, first);
    ghost var middle := store.History();
    Apply(store, second);
    assert [first][..0] == [];
    assert Run(start, [first]) == middle;
    assert [first, second][..1] == [first];
  }
}
