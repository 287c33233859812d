/**
 * The chat thread store: a list of threads, the id of the thread being shown,
 * and the time of the last sync. Every message action edits the messages of
 * the threads whose id is the current one, and does nothing when there is no
 * current thread (`null`, or the empty string, which JavaScript also treats
 * as false). Fresh ids and the clock are parameters.
 */
module ChatStore {
  import opened Optional
  import Seqs

  datatype Role = User | Assistant

  datatype ChatMessage = ChatMessage(id: string, role: Role, content: string, synced: bool)

  /** A message as callers hand it in, before the store adds its `synced` flag. */
  datatype NewMessage = NewMessage(id: string, role: Role, content: string)

  datatype ChatThread = ChatThread(id: string, messages: seq<ChatMessage>, createdAt: int)

  /** What one action does to the message list of the current thread. */
  datatype Edit =
    | Append(message: ChatMessage)
    | Update(target: string, content: Option<string>)
    | Replace(messages: seq<ChatMessage>)
    | MarkSynced(ids: set<string>)

  /** `if (!currentThreadId) return;` lets the action through. */
  predicate IsCurrent(current: Option<string>) {
    current.Some? && current.value != ""
  }

  predicate Unsynced(m: ChatMessage) {
    !m.synced
  }

  /** `{ ...msg, synced: false }` */
  function Unsent(m: NewMessage): ChatMessage {
    ChatMessage(m.id, m.role, m.content, false)
  }

  function UnsentAll(ms: seq<NewMessage>): (r: seq<ChatMessage>)
    ensures |r| == |ms|
    ensures forall k :: 0 <= k < |ms| ==> r[k].id == ms[k].id && r[k].role == ms[k].role && r[k].content == ms[k].content
    ensures forall k :: 0 <= k < |r| ==> !r[k].synced
    decreases |ms|
  {
    if |ms| == 0 then [] else [Unsent(ms[0])] + UnsentAll(ms[1..])
  }

  /** `unsynced.map(m => m.id)` */
  function IdsOf(ms: seq<ChatMessage>): (r: seq<string>)
    ensures |r| == |ms|
    ensures forall k :: 0 <= k < |ms| ==> r[k] == ms[k].id
    decreases |ms|
  {
    if |ms| == 0 then [] else [ms[0].id] + IdsOf(ms[1..])
  }

  /** `messages.map(m => m.id === id ? { ...m, ...updates } : m)` */
  function UpdateContent(ms: seq<ChatMessage>, id: string, content: Option<string>): (r: seq<ChatMessage>)
    ensures |r| == |ms|
    ensures forall k :: 0 <= k < |ms| ==>
      r[k].id == ms[k].id && r[k].role == ms[k].role && r[k].synced == ms[k].synced
    ensures forall k :: 0 <= k < |ms| ==>
      r[k].content == (if ms[k].id == id && content.Some? then content.value else ms[k].content)
    decreases |ms|
  {
    if |ms| == 0 then []
    else
      var m := ms[0];
      var m' := if m.id == id && content.Some? then m.(content := content.value) else m;
      [m'] + UpdateContent(ms[1..], id, content)
  }

  /** `messages.map(m => idSet.has(m.id) ? { ...m, synced: true } : m)` */
  function MarkIds(ms: seq<ChatMessage>, ids: set<string>): (r: seq<ChatMessage>)
    ensures |r| == |ms|
    ensures forall k :: 0 <= k < |ms| ==>
      r[k].id == ms[k].id && r[k].role == ms[k].role && r[k].content == ms[k].content
    ensures forall k :: 0 <= k < |ms| ==> r[k].synced == (ms[k].synced || ms[k].id in ids)
    decreases |ms|
  {
    if |ms| == 0 then []
    else
      var m := ms[0];
      [if m.id in ids then m.(synced := true) else m] + MarkIds(ms[1..], ids)
  }

  function ApplyEdit(ms: seq<ChatMessage>, e: Edit): seq<ChatMessage> {
    match e
    case Append(m) => ms + [m]
    case Update(id, content) => UpdateContent(ms, id, content)
    case Replace(messages) => messages
    case MarkSynced(ids) => MarkIds(ms, ids)
  }

  /** `threads.map(t => t.id === currentThreadId ? { ...t, messages: <edited> } : t)` */
  function EditThreads(threads: seq<ChatThread>, current: string, e: Edit): (r: seq<ChatThread>)
    ensures |r| == |threads|
    ensures forall k :: 0 <= k < |threads| ==>
      r[k].id == threads[k].id && r[k].createdAt == threads[k].createdAt
    ensures forall k :: 0 <= k < |threads| ==>
      r[k].messages == (if threads[k].id == current then ApplyEdit(threads[k].messages, e) else threads[k].messages)
    decreases |threads|
  {
    if |threads| == 0 then []
    else
      var t := threads[0];
      [if t.id == current then t.(messages := ApplyEdit(t.messages, e)) else t]
        + EditThreads(threads[1..], current, e)
  }

  /** `threads.filter(t => t.id !== threadId)` */
  function WithoutThread(threads: seq<ChatThread>, id: string): seq<ChatThread> {
    Seqs.Filter((t: ChatThread) => t.id != id, threads)
  }

  /** `threads.find(t => t.id === id)`: the first thread with the id, if any. */
  function FindThread(threads: seq<ChatThread>, id: string): (r: Option<ChatThread>)
    ensures r.Some? ==> r.value in threads && r.value.id == id
    ensures r.None? ==> forall k :: 0 <= k < |threads| ==> threads[k].id != id
    decreases |threads|
  {
    if |threads| == 0 then None
    else if threads[0].id == id then Some(threads[0])
    else FindThread(threads[1..], id)
  }

  /** `find` returns the first thread with the id, not just any. */
  lemma {:induction false} FindFirst(threads: seq<ChatThread>, id: string, k: nat)
    requires k < |threads| && threads[k].id == id
    requires forall j :: 0 <= j < k ==> threads[j].id != id
    ensures FindThread(threads, id) == Some(threads[k])
    decreases k
  {
    if k > 0 {
      FindFirst(threads[1..], id, k - 1);
    }
  }

  /** `threads.find(t => t.id === currentThreadId)?.messages ?? []`; a `null` id matches no thread. */
  function CurrentMessages(threads: seq<ChatThread>, current: Option<string>): seq<ChatMessage> {
    match current
    case None => []
    case Some(id) =>
      match FindThread(threads, id)
      case None => []
      case Some(t) => t.messages
  }

  /** `thread?.messages.filter(m => !m.synced) ?? []` */
  function UnsyncedOf(threads: seq<ChatThread>, current: Option<string>): seq<ChatMessage> {
    Seqs.Filter(Unsynced, CurrentMessages(threads, current))
  }

  /**
   * With no thread of the current id (in particular with no current id at
   * all), there is nothing to sync. Otherwise the result is exactly the
   * unsynced messages of the first such thread, in their order: a
   * subsequence of its messages, all unsynced, as many as it has unsynced
   * messages (so duplicates are kept).
   */
  lemma UnsyncedOfFirstThread(threads: seq<ChatThread>, current: Option<string>)
    ensures current.None? ==> UnsyncedOf(threads, current) == []
    ensures current.Some? && (forall k :: 0 <= k < |threads| ==> threads[k].id != current.value) ==> UnsyncedOf(threads, current) == []
    ensures forall k ::
      (current.Some? && 0 <= k < |threads| && threads[k].id == current.value && (forall j :: 0 <= j < k ==> threads[j].id != current.value)) ==>
        var u := UnsyncedOf(threads, current);
        Seqs.IsSubsequence(u, threads[k].messages) &&
        (forall m :: m in threads[k].messages && !m.synced ==> m in u) &&
        (forall n :: 0 <= n < |u| ==> !u[n].synced) &&
        |u| == Seqs.Count(Unsynced, threads[k].messages)
  {
    forall k | current.Some? && 0 <= k < |threads| && threads[k].id == current.value && (forall j :: 0 <= j < k ==> threads[j].id != current.value)
      ensures var u := UnsyncedOf(threads, current);
        Seqs.IsSubsequence(u, threads[k].messages) &&
        (forall m :: m in threads[k].messages && !m.synced ==> m in u) &&
        (forall n :: 0 <= n < |u| ==> !u[n].synced) &&
        |u| == Seqs.Count(Unsynced, threads[k].messages)
    {
      FindFirst(threads, current.value, k);
      Seqs.FilterIsSubsequence(Unsynced, threads[k].messages);
      Seqs.FilterKeepsExactly(Unsynced, threads[k].messages);
    }
  }

  /**
   * An edit of the current thread's messages is an edit of the list `find`
   * returns: `find` still stops at the same thread, since ids are untouched.
   */
  lemma {:induction false} EditCurrentMessages(threads: seq<ChatThread>, current: string, e: Edit)
    ensures FindThread(EditThreads(threads, current, e), current).Some? == FindThread(threads, current).Some?
    ensures FindThread(threads, current).Some? ==>
      CurrentMessages(EditThreads(threads, current, e), Some(current)) == ApplyEdit(CurrentMessages(threads, Some(current)), e)
    decreases |threads|
  {
    if |threads| > 0 {
      var after := EditThreads(threads, current, e);
      assert after[1..] == EditThreads(threads[1..], current, e);
      if threads[0].id != current {
        EditCurrentMessages(threads[1..], current, e);
      }
    }
  }

  /** `addMessage` on a current thread that exists puts the message at the end of the list `find` returns. */
  lemma AppendToCurrent(threads: seq<ChatThread>, current: string, m: ChatMessage)
    requires FindThread(threads, current).Some?
    ensures FindThread(EditThreads(threads, current, Append(m)), current).Some?
    ensures CurrentMessages(EditThreads(threads, current, Append(m)), Some(current)) == CurrentMessages(threads, Some(current)) + [m]
  {
    EditCurrentMessages(threads, current, Append(m));
  }

  /** Two appends to a current thread that exists add both messages, in order. */
  lemma AppendTwice(threads: seq<ChatThread>, current: string, a: ChatMessage, b: ChatMessage)
    requires FindThread(threads, current).Some?
    ensures CurrentMessages(EditThreads(EditThreads(threads, current, Append(a)), current, Append(b)), Some(current))
      == CurrentMessages(threads, Some(current)) + [a, b]
  {
    AppendToCurrent(threads, current, a);
    AppendToCurrent(EditThreads(threads, current, Append(a)), current, b);
    AppendPair(CurrentMessages(threads, Some(current)), a, b);
  }

  lemma AppendPair(s: seq<ChatMessage>, a: ChatMessage, b: ChatMessage)
    ensures s + [a] + [b] == s + [a, b]
  {
  }

  /** Marking the same ids again changes nothing. */
  lemma {:induction false} MarkIdsIdempotent(ms: seq<ChatMessage>, ids: set<string>)
    ensures MarkIds(MarkIds(ms, ids), ids) == MarkIds(ms, ids)
    decreases |ms|
  {
    if |ms| > 0 {
      MarkIdsIdempotent(ms[1..], ids);
    }
  }

  /** Marking every unsynced message's id leaves no unsynced message. */
  lemma MarkingUnsyncedClearsAll(ms: seq<ChatMessage>)
    ensures Seqs.Filter(Unsynced, MarkIds(ms, set id | id in IdsOf(Seqs.Filter(Unsynced, ms)))) == []
  {
    var u := Seqs.Filter(Unsynced, ms);
    var ids := set id | id in IdsOf(u);
    Seqs.FilterKeepsExactly(Unsynced, ms);
    var marked := MarkIds(ms, ids);
    forall k | 0 <= k < |marked|
      ensures !Unsynced(marked[k])
    {
      if !ms[k].synced {
        assert ms[k] in ms && Unsynced(ms[k]);
        assert ms[k] in u;
        var n :| 0 <= n < |u| && u[n] == ms[k];
        assert IdsOf(u)[n] == ms[k].id;
      }
    }
    Seqs.FilterNone(Unsynced, marked);
  }

  /**
   * The sync step's proof: after marking the ids of `getUnsyncedMessages()`
   * in the current thread, `getUnsyncedMessages()` is empty.
   */
  lemma SyncLeavesNothingUnsynced(threads: seq<ChatThread>, current: string)
    ensures UnsyncedOf(EditThreads(threads, current,
      MarkSynced(set id | id in IdsOf(UnsyncedOf(threads, Some(current))))), Some(current)) == []
  {
    var ids := set id | id in IdsOf(UnsyncedOf(threads, Some(current)));
    var after := EditThreads(threads, current, MarkSynced(ids));
    EditCurrentMessages(threads, current, MarkSynced(ids));
    if FindThread(threads, current).Some? {
      var ms := CurrentMessages(threads, Some(current));
      assert CurrentMessages(after, Some(current)) == MarkIds(ms, ids);
      MarkingUnsyncedClearsAll(ms);
    } else {
      assert CurrentMessages(after, Some(current)) == [];
    }
  }

  /**
   * `deleteThread` keeps the other threads in their order, drops every thread
   * with the id, and changes nothing when no thread has it.
   */
  lemma DeleteKeepsOthers(threads: seq<ChatThread>, id: string)
    ensures Seqs.IsSubsequence(WithoutThread(threads, id), threads)
    ensures forall t :: t in WithoutThread(threads, id) ==> t.id != id
    ensures forall t :: t in threads && t.id != id ==> t in WithoutThread(threads, id)
    ensures (forall k :: 0 <= k < |threads| ==> threads[k].id != id) ==> WithoutThread(threads, id) == threads
  {
    var keep := (t: ChatThread) => t.id != id;
    Seqs.FilterIsSubsequence(keep, threads);
    Seqs.FilterKeepsExactly(keep, threads);
    if forall k :: 0 <= k < |threads| ==> threads[k].id != id {
      Seqs.FilterAll(keep, threads);
    }
  }

  /**
   * `addMessage` does not look at ids: adding the same message twice leaves
   * both copies at the end of the current thread.
   */
  lemma DuplicateIdsKept(threads: seq<ChatThread>, current: string, m: NewMessage)
    ensures var once := EditThreads(threads, current, Append(Unsent(m)));
      var twice := EditThreads(once, current, Append(Unsent(m)));
      forall k :: 0 <= k < |threads| && threads[k].id == current ==>
        twice[k].messages == threads[k].messages + [Unsent(m), Unsent(m)]
  {
    var once := EditThreads(threads, current, Append(Unsent(m)));
    var twice := EditThreads(once, current, Append(Unsent(m)));
    forall k | 0 <= k < |threads| && threads[k].id == current
      ensures twice[k].messages == threads[k].messages + [Unsent(m), Unsent(m)]
    {
      assert once[k].messages == threads[k].messages + [Unsent(m)];
      assert twice[k].messages == once[k].messages + [Unsent(m)];
    }
  }

  class Store {
    var threads: seq<ChatThread>
    var currentThreadId: Option<string>
    var lastSyncedAt: Option<int>

    /** Ids come from the store's generator, which never yields the empty string. */
    ghost predicate Valid()
      reads this
    {
      currentThreadId != Some("")
    }

    constructor ()
      ensures Valid()
      ensures threads == [] && currentThreadId == None && lastSyncedAt == None
    {
      threads := [];
      currentThreadId := None;
      lastSyncedAt := None;
    }

    /** `createThread`, with the generated id and the clock reading passed in. */
    method CreateThread(id: string, now: int) returns (r: string)
      requires Valid()
      requires id != ""
      modifies this
      ensures Valid()
      ensures r == id
      ensures threads == [ChatThread(id, [], now)] + old(threads)
      ensures currentThreadId == Some(id)
      ensures lastSyncedAt == old(lastSyncedAt)
    {
      threads := [ChatThread(id, [], now)] + threads;
      currentThreadId := Some(id);
      r := id;
    }

    method DeleteThread(threadId: string)
      requires Valid()
      modifies this
      ensures Valid()
      ensures threads == WithoutThread(old(threads), threadId)
      ensures currentThreadId == (if old(currentThreadId) == Some(threadId) then None else old(currentThreadId))
      ensures lastSyncedAt == old(lastSyncedAt)
    {
      threads := WithoutThread(threads, threadId);
      if currentThreadId == Some(threadId) {
        currentThreadId := None;
      }
    }

    /** Applies `e` to the current thread's messages, or does nothing without a current thread. */
    method EditCurrent(e: Edit)
      requires Valid()
      modifies this
      ensures Valid()
      ensures threads == (if IsCurrent(old(currentThreadId)) then EditThreads(old(threads), old(currentThreadId).value, e) else old(threads))
      ensures currentThreadId == old(currentThreadId) && lastSyncedAt == old(lastSyncedAt)
    {
      if !IsCurrent(currentThreadId) {
        return;
      }
      threads := EditThreads(threads, currentThreadId.value, e);
    }

    method AddMessage(msg: NewMessage)
      requires Valid()
      modifies this
      ensures Valid()
      ensures threads == (if IsCurrent(old(currentThreadId)) then EditThreads(old(threads), old(currentThreadId).value, Append(Unsent(msg))) else old(threads))
      ensures currentThreadId == old(currentThreadId) && lastSyncedAt == old(lastSyncedAt)
    {
      EditCurrent(Append(Unsent(msg)));
    }

    /** `updateMessage(id, updates)`; `content` is `None` when `updates` has no `content` key. */
    method UpdateMessage(id: string, content: Option<string>)
      requires Valid()
      modifies this
      ensures Valid()
      ensures threads == (if IsCurrent(old(currentThreadId)) then EditThreads(old(threads), old(currentThreadId).value, Update(id, content)) else old(threads))
      ensures currentThreadId == old(currentThreadId) && lastSyncedAt == old(lastSyncedAt)
    {
      EditCurrent(Update(id, content));
    }

    method SetMessages(msgs: seq<NewMessage>)
      requires Valid()
      modifies this
      ensures Valid()
      ensures threads == (if IsCurrent(old(currentThreadId)) then EditThreads(old(threads), old(currentThreadId).value, Replace(UnsentAll(msgs))) else old(threads))
      ensures currentThreadId == old(currentThreadId) && lastSyncedAt == old(lastSyncedAt)
    {
      EditCurrent(Replace(UnsentAll(msgs)));
    }

    /** `getUnsyncedMessages()`: the unsynced messages of the current thread, in order. */
    function GetUnsyncedMessages(): (r: seq<ChatMessage>)
      reads this
      ensures currentThreadId.None? ==> r == []
      ensures forall k :: 0 <= k < |r| ==> !r[k].synced
      ensures Seqs.IsSubsequence(r, CurrentMessages(threads, currentThreadId))
      ensures |r| == Seqs.Count(Unsynced, CurrentMessages(threads, currentThreadId))
    {
      var all := CurrentMessages(threads, currentThreadId);
      Seqs.FilterIsSubsequence(Unsynced, all);
      Seqs.FilterKeepsExactly(Unsynced, all);
      UnsyncedOf(threads, currentThreadId)
    }

    /** `markAsSynced(ids)`, with the clock reading passed in. */
    method MarkAsSynced(ids: seq<string>, now: int)
      requires Valid()
      modifies this
      ensures Valid()
      ensures IsCurrent(old(currentThreadId)) ==>
        threads == EditThreads(old(threads), old(currentThreadId).value, MarkSynced(set id | id in ids)) &&
        lastSyncedAt == Some(now)
      ensures !IsCurrent(old(currentThreadId)) ==>
        threads == old(threads) && lastSyncedAt == old(lastSyncedAt)
      ensures currentThreadId == old(currentThreadId)
    {
      if !IsCurrent(currentThreadId) {
        return;
      }
      lastSyncedAt := Some(now);
      threads := EditThreads(threads, currentThreadId.value, MarkSynced(set id | id in ids));
    }

    /** `syncToServer`, on the path where the (not yet written) upload succeeds. */
    method SyncToServer(now: int)
      requires Valid()
      modifies this
      ensures Valid()
      ensures GetUnsyncedMessages() == []
      ensures old(GetUnsyncedMessages()) == [] ==>
        threads == old(threads) && lastSyncedAt == old(lastSyncedAt)
      ensures old(GetUnsyncedMessages()) != [] ==>
        threads == EditThreads(old(threads), old(currentThreadId).value,
          MarkSynced(set id | id in IdsOf(old(GetUnsyncedMessages())))) &&
        lastSyncedAt == Some(now)
      ensures currentThreadId == old(currentThreadId)
    {
      var unsynced := GetUnsyncedMessages();
      if |unsynced| == 0 {
        return;
      }
      SyncLeavesNothingUnsynced(threads, currentThreadId.value);
      MarkAsSynced(IdsOf(unsynced), now);
    }
  }
}
