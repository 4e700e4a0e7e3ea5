/** The in-memory conversation store: a map from conversation id to its record,
    with sliding-window message retention and an idle-time expiry sweep.
    The clock (`datetime.now()`) and the id generator (`uuid4()`) are inputs. */
module Conversations {
  import opened Common
  import opened PythonOps

  /** A point in time, in microseconds (the resolution of Python's `datetime`). */
  type Instant = int

  const MicrosPerSecond: int := 1000000

  datatype Message = Message(role: string, content: string, timestamp: Instant, metadata: Metadata)

  datatype Conversation = Conversation(
    id: string,
    createdAt: Instant,
    updatedAt: Instant,
    messages: seq<Message>)

  /** The retention rule of `add_message`: when the list is longer than
      `maxHistory` it becomes `messages[-maxHistory:]`. */
  function Trimmed(messages: seq<Message>, maxHistory: int): seq<Message>
  {
    if |messages| > maxHistory then SliceFrom(messages, -maxHistory) else messages
  }

  /** Whether a conversation has been idle for longer than `ttl` seconds at `now`. */
  predicate Expired(c: Conversation, now: Instant, ttl: int)
  {
    now - c.updatedAt > ttl * MicrosPerSecond
  }

  /** The ids the sweep at `now` removes. */
  function ExpiredIds(conversations: map<string, Conversation>, now: Instant, ttl: int): set<string>
  {
    set id | id in conversations && Expired(conversations[id], now, ttl)
  }

  ghost predicate Distinct<T>(s: seq<T>)
  {
    forall i, j :: 0 <= i < j < |s| ==> s[i] != s[j]
  }

  /** The set of the elements of a list. */
  ghost function Elems<T>(s: seq<T>): set<T>
  {
    set x | x in s
  }

  /** A list without repetitions has as many elements as the set of them. */
  lemma {:induction false} DistinctCard<T>(s: seq<T>)
    requires Distinct(s)
    ensures |Elems(s)| == |s|
  {
    if s != [] {
      var init := s[..|s| - 1];
      var last := s[|s| - 1];
      assert Distinct(init);
      DistinctCard(init);
      assert s == init + [last];
      assert Elems(s) == Elems(init) + {last};
      assert forall i :: 0 <= i < |init| ==> init[i] == s[i] != last;
      assert last !in Elems(init);
    }
  }

  class ConversationManager {
    var conversations: map<string, Conversation>
    const maxHistory: int
    const conversationTtl: int

    /** Every record is stored under its own id, and when the window is at
        least one message wide no history is longer than it. */
    ghost predicate Valid()
      reads this
    {
      forall id :: id in conversations ==>
        conversations[id].id == id
        && (maxHistory >= 1 ==> |conversations[id].messages| <= maxHistory)
    }

    constructor (maxHistoryPerConversation: int := 10, conversationTtl: int := 3600)
      ensures Valid()
      ensures conversations == map[]
      ensures maxHistory == maxHistoryPerConversation && this.conversationTtl == conversationTtl
    {
      conversations := map[];
      maxHistory := maxHistoryPerConversation;
      this.conversationTtl := conversationTtl;
    }

    /** Registers a new, empty conversation under the id the generator gave. */
    method CreateConversation(freshId: string, now: Instant) returns (id: string)
      requires Valid()
      requires freshId !in conversations
      modifies this
      ensures Valid()
      ensures id == freshId && id !in old(conversations)
      ensures ConversationExists(id)
      ensures conversations[id].messages == [] && conversations[id].createdAt == now
      ensures conversations[id].updatedAt == now && conversations[id].id == id
      ensures conversations.Keys == old(conversations).Keys + {id}
      ensures forall other :: other in old(conversations) ==> conversations[other] == old(conversations)[other]
    {
      id := freshId;
      conversations := conversations[id := Conversation(id, now, now, [])];
    }

    /** `dict.get`: the record, or nothing for an unknown id. */
    function GetConversation(id: string): (r: Option<Conversation>)
      reads this
      ensures r.Some? <==> id in conversations
      ensures r.Some? ==> r.value == conversations[id]
      ensures Valid() && r.Some? ==> r.value.id == id
    {
      if id in conversations then Some(conversations[id]) else None
    }

    /** Appends a message to a known conversation, refreshes its `updatedAt`
        and keeps the newest `maxHistory` messages; an unknown id is ignored. */
    method AddMessage(id: string, role: string, content: string, metadata: Option<Metadata>, now: Instant)
      requires Valid()
      modifies this
      ensures Valid()
      ensures id !in old(conversations) ==> conversations == old(conversations)
      ensures id in old(conversations) ==>
        var c := old(conversations)[id];
        var m := Message(role, content, now, OrEmpty(metadata));
        conversations == old(conversations)[id := c.(updatedAt := now, messages := Trimmed(c.messages + [m], maxHistory))]
    {
      if id !in conversations {
        return;
      }
      var message := Message(role, content, now, OrEmpty(metadata));
      var c := conversations[id];
      var messages := c.messages + [message];
      if |messages| > maxHistory {
        messages := SliceFrom(messages, -maxHistory);
      }
      TrimmedBound(c.messages + [message], maxHistory);
      conversations := conversations[id := c.(updatedAt := now, messages := messages)];
    }

    /** The retained messages of a conversation: the last `limit` of them for a
        positive limit, all of them when `limit` is missing or zero, and (as
        Python's slicing does) all but the first `-limit` for a negative limit.
        An unknown id gives no messages. */
    function GetConversationHistory(id: string, limit: Option<int> := None): (r: seq<Message>)
      reads this
      ensures id !in conversations ==> r == []
      ensures id in conversations && (limit.None? || limit == Some(0)) ==> r == conversations[id].messages
      ensures id in conversations && limit.Some? && limit.value > 0 ==>
        var m := conversations[id].messages;
        r == m[|m| - Min(limit.value, |m|)..]
      ensures id in conversations && limit.Some? && limit.value < 0 ==>
        var m := conversations[id].messages;
        r == m[Min(-limit.value, |m|)..]
    {
      if id !in conversations then []
      else
        var messages := conversations[id].messages;
        if limit.Some? && limit.value != 0 then SliceFrom(messages, -limit.value) else messages
    }

    /** The history bounded to the last `maxMessages` messages (3 by default). */
    function GetRecentContext(id: string, maxMessages: int := 3): (r: seq<Message>)
      reads this
      ensures id !in conversations ==> r == []
      ensures id in conversations && maxMessages > 0 ==>
        var m := conversations[id].messages;
        |r| == Min(maxMessages, |m|) && r == m[|m| - |r|..]
      ensures id in conversations && maxMessages == 0 ==> r == conversations[id].messages
      ensures id in conversations && maxMessages < 0 ==>
        var m := conversations[id].messages;
        r == m[Min(-maxMessages, |m|)..]
    {
      GetConversationHistory(id, Some(maxMessages))
    }

    function ConversationExists(id: string): (b: bool)
      reads this
      ensures b <==> GetConversation(id).Some?
    {
      id in conversations
    }

    /** Removes every conversation idle for longer than the TTL at `now` and
        returns how many were removed. The first loop collects the expired ids,
        the second deletes them. */
    method CleanupExpiredConversations(now: Instant) returns (removed: nat)
      requires Valid()
      modifies this
      ensures Valid()
      ensures conversations == old(conversations) - ExpiredIds(old(conversations), now, conversationTtl)
      ensures removed == |ExpiredIds(old(conversations), now, conversationTtl)|
    {
      ghost var before := conversations;
      var expiredIds: seq<string> := [];
      var pending := conversations.Keys;
      while pending != {}
        invariant pending <= conversations.Keys
        invariant conversations == before
        invariant Distinct(expiredIds)
        invariant forall id :: id in expiredIds <==>
          id in conversations && id !in pending && Expired(conversations[id], now, conversationTtl)
        decreases pending
      {
        var id :| id in pending;
        if now - conversations[id].updatedAt > conversationTtl * MicrosPerSecond {
          expiredIds := expiredIds + [id];
        }
        pending := pending - {id};
      }
      assert Elems(expiredIds) == ExpiredIds(before, now, conversationTtl);
      DistinctCard(expiredIds);

      var i := 0;
      while i < |expiredIds|
        invariant 0 <= i <= |expiredIds|
        invariant conversations == before - Elems(expiredIds[..i])
      {
        assert expiredIds[..i + 1] == expiredIds[..i] + [expiredIds[i]];
        assert Elems(expiredIds[..i + 1]) == Elems(expiredIds[..i]) + {expiredIds[i]};
        conversations := conversations - {expiredIds[i]};
        i := i + 1;
      }
      assert expiredIds[..i] == expiredIds;
      removed := |expiredIds|;
    }
  }

  /** Retention drops the oldest messages only: what is kept is a suffix of
      the list, in its original order. */
  lemma TrimmedIsSuffix(messages: seq<Message>, maxHistory: int)
    ensures var t := Trimmed(messages, maxHistory);
      |t| <= |messages| && t == messages[|messages| - |t|..]
  {
  }

  /** With a window of at least one message, exactly the newest
      `min(|messages|, maxHistory)` messages are kept; with a window of zero
      the slice `[-0:]` keeps them all, so the bound does not hold. */
  lemma TrimmedBound(messages: seq<Message>, maxHistory: int)
    ensures maxHistory >= 1 ==> |Trimmed(messages, maxHistory)| == Min(|messages|, maxHistory)
    ensures maxHistory == 0 ==> Trimmed(messages, maxHistory) == messages
    ensures maxHistory < 0 ==> Trimmed(messages, maxHistory) == messages[Min(-maxHistory, |messages|)..]
  {
  }

  /** The message just appended is the newest one kept, unless the window is
      negative, in which case `[-maxHistory:]` drops from the front. */
  lemma AppendedIsNewest(messages: seq<Message>, m: Message, maxHistory: int)
    requires maxHistory >= 0
    ensures var t := Trimmed(messages + [m], maxHistory);
      |t| >= 1 && t[|t| - 1] == m && t[..|t| - 1] == messages[|messages| + 1 - |t|..]
  {
    var s := messages + [m];
    var t := Trimmed(s, maxHistory);
    assert t == s[|s| - |t|..];
  }

  /** Adding to a window that already respects the bound keeps it. */
  lemma AppendPreservesBound(messages: seq<Message>, m: Message, maxHistory: int)
    requires maxHistory >= 1 && |messages| <= maxHistory
    ensures |Trimmed(messages + [m], maxHistory)| <= maxHistory
  {
    TrimmedBound(messages + [m], maxHistory);
  }

  /** With `maxHistory == 0` a conversation grows by one message per append:
      the retention bound fails. */
  lemma ZeroWindowGrows(messages: seq<Message>, m: Message)
    ensures |Trimmed(messages + [m], 0)| == |messages| + 1
  {
  }

  /** The sweep keeps a conversation exactly when it has not been idle for
      longer than the TTL, and keeps it unchanged. */
  lemma SweepKeepsExactlyFresh(conversations: map<string, Conversation>, now: Instant, ttl: int, id: string)
    ensures var kept := conversations - ExpiredIds(conversations, now, ttl);
      (id in kept <==> id in conversations && now - conversations[id].updatedAt <= ttl * MicrosPerSecond)
      && (id in kept ==> kept[id] == conversations[id])
  {
  }

  /** A conversation touched no earlier than one the sweep keeps is kept too. */
  lemma SweepSparesNewer(c1: Conversation, c2: Conversation, now: Instant, ttl: int)
    requires !Expired(c1, now, ttl) && c2.updatedAt >= c1.updatedAt
    ensures !Expired(c2, now, ttl)
  {
  }
}
