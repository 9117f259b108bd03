/**
 * The remote message store as the harvest loop of index.js:123-158 sees it:
 * the message references a list query returns, the records the loop
 * collects, the requests it issues, and an abstract mailbox that answers
 * the three requests it makes (list, get and batch-modify).
 */
module Mail {
  import opened Wrappers

  /** One entry of a list response: a message id and its thread id. */
  datatype MessageRef = MessageRef(id: string, threadId: string)

  /** What the loop pushes for each message it fetched: `{url, threadId}`. */
  datatype Record = Record(url: string, threadId: string)

  /** The system label whose removal marks a message as read. */
  const Unread: string := "UNREAD"

  /**
   * One request to the store, as the store receives it. A list request
   * records the response it got, with None for an absent `messages` field.
   */
  datatype Call =
    | ListCall(response: Option<seq<MessageRef>>)
    | GetCall(id: string)
    | BatchModifyCall(ids: seq<string>, removeLabelIds: seq<string>)

  /** `messages.map(m => m.id)`. */
  function Ids(ms: seq<MessageRef>): (r: seq<string>)
    ensures |r| == |ms|
    ensures forall k :: 0 <= k < |ms| ==> r[k] == ms[k].id
  {
    if ms == [] then [] else [ms[0].id] + Ids(ms[1..])
  }

  /** No two messages share an id, as the store guarantees of its ids. */
  ghost predicate DistinctIds(ms: seq<MessageRef>) {
    forall i, j :: 0 <= i < j < |ms| ==> ms[i].id != ms[j].id
  }

  /**
   * The unread listing once the messages with the given ids have lost
   * UNREAD: they are gone from it, every other message stays, in order.
   */
  function RemoveIds(unread: seq<MessageRef>, ids: seq<string>): (r: seq<MessageRef>)
    ensures |r| <= |unread|
    ensures unread != [] && unread[0].id in ids ==> |r| < |unread|
  {
    if unread == [] then []
    else if unread[0].id in ids then RemoveIds(unread[1..], ids)
    else [unread[0]] + RemoveIds(unread[1..], ids)
  }

  /** Exactly the messages whose ids were not removed stay unread. */
  lemma {:induction false} RemoveIdsKeeps(unread: seq<MessageRef>, ids: seq<string>)
    ensures forall m :: m in RemoveIds(unread, ids) <==> m in unread && m.id !in ids
  {
    if unread != [] {
      RemoveIdsKeeps(unread[1..], ids);
      assert unread == [unread[0]] + unread[1..];
    }
  }

  /**
   * What a list request returns: Gmail leaves `messages` out when nothing
   * matches, and otherwise returns a page of at most pageSize matches, the
   * first ones in listing order.
   */
  function Listing(unread: seq<MessageRef>, pageSize: nat): (r: Option<seq<MessageRef>>)
    requires pageSize > 0
    ensures r.None? <==> unread == []
    ensures r.Some? ==> 0 < |r.value| <= pageSize && |r.value| <= |unread| && r.value == unread[..|r.value|]
    ensures r.Some? && |unread| <= pageSize ==> r.value == unread
  {
    if unread == [] then None
    else if |unread| <= pageSize then Some(unread)
    else Some(unread[..pageSize])
  }

  /**
   * The store. `unread` is what the query `label:udemy-notifications
   * is:unread` matches, in listing order; `bodies` maps a message id to its
   * decoded body where the message has one; `calls` is the log of every
   * request received, kept for stating what the loop asks of the store.
   *
   * The harvest only ends because a message that has lost UNREAD is no
   * longer listed; BatchModify promises exactly that, and it is an
   * assumption about Gmail, not something index.js checks.
   */
  class Mailbox {
    var unread: seq<MessageRef>
    const bodies: map<string, string>
    const pageSize: nat
    ghost var calls: seq<Call>

    predicate Valid() {
      pageSize > 0
    }

    constructor (unread: seq<MessageRef>, bodies: map<string, string>, pageSize: nat)
      requires pageSize > 0
      ensures Valid()
      ensures this.unread == unread && this.bodies == bodies && this.pageSize == pageSize
      ensures calls == []
    {
      this.unread := unread;
      this.bodies := bodies;
      this.pageSize := pageSize;
      calls := [];
    }

    /** `gmail.users.messages.list`: one page of the unread listing. */
    method List() returns (messages: Option<seq<MessageRef>>)
      requires Valid()
      modifies this`calls
      ensures messages == Listing(unread, pageSize)
      ensures calls == old(calls) + [ListCall(messages)]
    {
      messages := Listing(unread, pageSize);
      calls := calls + [ListCall(messages)];
    }

    /** `gmail.users.messages.get` followed by reading the decoded body;
        None where the message has no body data to decode. */
    method Get(id: string) returns (body: Option<string>)
      modifies this`calls
      ensures body.Some? <==> id in bodies
      ensures body.Some? ==> body.value == bodies[id]
      ensures calls == old(calls) + [GetCall(id)]
    {
      body := if id in bodies then Some(bodies[id]) else None;
      calls := calls + [GetCall(id)];
    }

    /** `gmail.users.messages.batchModify`: remove labels from the given
        messages; removing UNREAD takes them out of the unread listing. */
    method BatchModify(ids: seq<string>, removeLabelIds: seq<string>)
      modifies this`unread, this`calls
      ensures unread == if Unread in removeLabelIds then RemoveIds(old(unread), ids) else old(unread)
      ensures calls == old(calls) + [BatchModifyCall(ids, removeLabelIds)]
    {
      if Unread in removeLabelIds {
        unread := RemoveIds(unread, ids);
      }
      calls := calls + [BatchModifyCall(ids, removeLabelIds)];
    }
  }

  /** The messages after the first k of a listing with distinct ids have
      distinct ids. */
  lemma DistinctSuffix(ms: seq<MessageRef>, k: nat)
    requires k <= |ms| && DistinctIds(ms)
    ensures DistinctIds(ms[k..])
  {
    var rest := ms[k..];
    forall i, j | 0 <= i < j < |rest| ensures rest[i].id != rest[j].id {
      assert rest[i] == ms[k + i] && rest[j] == ms[k + j];
    }
  }

  /**
   * With distinct ids, marking a leading page read leaves exactly the rest
   * of the listing: the next list request starts where the last page ended.
   */
  lemma {:induction false} RemovePrefixIds(unread: seq<MessageRef>, k: nat)
    requires k <= |unread|
    requires DistinctIds(unread)
    ensures RemoveIds(unread[k..], Ids(unread[..k])) == unread[k..]
    ensures RemoveIds(unread, Ids(unread[..k])) == unread[k..]
  {
    var ids := Ids(unread[..k]);
    forall m | m in unread[k..] ensures m.id !in ids {
      var j :| k <= j < |unread| && unread[j] == m;
    }
    KeepAll(unread[k..], ids);
    DropLeading(unread, k, ids);
  }

  /** Nothing is removed when no listed id is among the removed ones. */
  lemma {:induction false} KeepAll(unread: seq<MessageRef>, ids: seq<string>)
    requires forall m :: m in unread ==> m.id !in ids
    ensures RemoveIds(unread, ids) == unread
  {
    if unread != [] {
      assert unread[0] in unread;
      assert forall m :: m in unread[1..] ==> m in unread;
      KeepAll(unread[1..], ids);
    }
  }

  /** Removing a leading stretch whose ids are all removed. */
  lemma {:induction false} DropLeading(unread: seq<MessageRef>, k: nat, ids: seq<string>)
    requires k <= |unread|
    requires forall j :: 0 <= j < k ==> unread[j].id in ids
    ensures RemoveIds(unread, ids) == RemoveIds(unread[k..], ids)
  {
    if k > 0 {
      DropLeading(unread[1..], k - 1, ids);
      assert unread[1..][k - 1..] == unread[k..];
    }
  }
}
