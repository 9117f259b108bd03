/**
 * The harvest loop of `listMessages` (index.js:123-165): list the unread
 * labelled messages, fetch each one and extract its tracking URL, mark the
 * page read with one batch request, and repeat until a list request comes
 * back empty; then deduplicate by thread and keep the URLs.
 *
 * Harvest is the reference: what one run does to the store, what it asks of
 * it and what it ends with. ListMessages is the loop itself, proved to do
 * exactly that, and the lemmas state what the source promises about a run.
 */
module Harvest {
  import opened Wrappers
  import opened Mail
  import TrackingUrl
  import Uniq

  /** Why a run stops early; every such stop is caught once at the top and
      the output file is not written. */
  datatype Failure =
    | NoBody(id: string)          // `payload.body.data` is missing: `Buffer.from` throws
    | NoTrackingUrl(id: string)   // `match` returns null: `[0]` throws

  /** Fetching the messages of one page: the requests made, and the records
      collected or the failure that stopped it. */
  datatype Fetched = Fetched(calls: seq<Call>, result: Result<seq<Record>, Failure>)

  /** A whole run: the requests made, the records collected or the failure,
      and the unread listing it leaves behind. */
  datatype Run = Run(calls: seq<Call>, result: Result<seq<Record>, Failure>, unread: seq<MessageRef>)

  /** What a run produces: the list written to urls.js, or nothing. */
  datatype Outcome = Written(urls: seq<string>) | Aborted(failure: Failure)

  /** Records collected before a result are in front of it; a failure
      discards them. */
  function Prepend(rs: seq<Record>, r: Result<seq<Record>, Failure>): Result<seq<Record>, Failure> {
    match r
    case Ok(v) => Ok(rs + v)
    case Err(f) => Err(f)
  }

  /** One get request per message, in order. */
  function Gets(ms: seq<MessageRef>): (r: seq<Call>)
    ensures |r| == |ms|
    ensures forall k :: 0 <= k < |ms| ==> r[k] == GetCall(ms[k].id)
  {
    if ms == [] then [] else [GetCall(ms[0].id)] + Gets(ms[1..])
  }

  /** index.js:136-145 for one message, once its body has been fetched. */
  function FetchOne(m: MessageRef, bodies: map<string, string>): Result<Record, Failure> {
    if m.id !in bodies then Err(NoBody(m.id))
    else match TrackingUrl.Extract(bodies[m.id])
      case None => Err(NoTrackingUrl(m.id))
      case Some(url) => Ok(Record(url, m.threadId))
  }

  /** The inner `for...of` loop over the messages of a page, from the
      message at position i on. */
  function FetchFrom(ms: seq<MessageRef>, i: nat, bodies: map<string, string>): Fetched
    decreases |ms| - i
  {
    if |ms| <= i then Fetched([], Ok([]))
    else match FetchOne(ms[i], bodies)
      case Err(f) => Fetched([GetCall(ms[i].id)], Err(f))
      case Ok(rec) =>
        var rest := FetchFrom(ms, i + 1, bodies);
        Fetched([GetCall(ms[i].id)] + rest.calls, Prepend([rec], rest.result))
  }

  /** The whole inner loop over a page. */
  function Fetch(ms: seq<MessageRef>, bodies: map<string, string>): Fetched {
    FetchFrom(ms, 0, bodies)
  }

  /** `messages && messages.length`. */
  predicate HasMessages(messages: Option<seq<MessageRef>>) {
    messages.Some? && |messages.value| > 0
  }

  /** A run that first makes the given calls and collects the given records. */
  function Then(calls: seq<Call>, rs: seq<Record>, run: Run): Run {
    Run(calls + run.calls, Prepend(rs, run.result), run.unread)
  }

  /** The first page of a listing with messages, marked read, is gone from it. */
  lemma PageLeaves(unread: seq<MessageRef>, pageSize: nat)
    requires pageSize > 0 && HasMessages(Listing(unread, pageSize))
    ensures |RemoveIds(unread, Ids(Listing(unread, pageSize).value))| < |unread|
  {
    var page := Listing(unread, pageSize).value;
    assert page[0] == unread[0];
    assert Ids(page)[0] == unread[0].id;
  }

  /** The reference run of the loop on a store in the given state. */
  function Harvest(unread: seq<MessageRef>, bodies: map<string, string>, pageSize: nat): Run
    requires pageSize > 0
    decreases |unread|
  {
    var messages := Listing(unread, pageSize);
    if !HasMessages(messages) then Run([ListCall(messages)], Ok([]), unread)
    else
      var page := messages.value;
      var fetched := Fetch(page, bodies);
      match fetched.result
      case Err(f) => Run([ListCall(messages)] + fetched.calls, Err(f), unread)
      case Ok(rs) =>
        var ids := Ids(page);
        PageLeaves(unread, pageSize);
        Then([ListCall(messages)] + fetched.calls + [BatchModifyCall(ids, [Unread])], rs,
             Harvest(RemoveIds(unread, ids), bodies, pageSize))
  }

  /** index.js:157-161: deduplicate, keep the URLs, write them; or write
      nothing when the loop failed. */
  function Output(run: Run): Outcome {
    match run.result
    case Ok(rs) => Written(Uniq.Urls(Uniq.UniqBy(rs)))
    case Err(f) => Aborted(f)
  }

  /** Two runs' prefixes in a row are one prefix; a helper for the loop
      invariant of ListMessages. */
  lemma ThenThen(a: seq<Call>, x: seq<Record>, b: seq<Call>, y: seq<Record>, run: Run)
    ensures Then(a, x, Then(b, y, run)) == Then(a + b, x + y, run)
  {
    assert a + (b + run.calls) == (a + b) + run.calls;
    match run.result
    case Ok(v) => assert x + (y + v) == (x + y) + v;
    case Err(_) =>
  }

  /** Two record prefixes in a row are one; a helper for the loop invariant
      of FetchPage. */
  lemma PrependPrepend(x: seq<Record>, y: seq<Record>, r: Result<seq<Record>, Failure>)
    ensures Prepend(x, Prepend(y, r)) == Prepend(x + y, r)
  {
    match r
    case Ok(v) => assert x + (y + v) == (x + y) + v;
    case Err(_) =>
  }

  /** No records in front change nothing; a helper for FetchPage. */
  lemma PrependNothing(r: Result<seq<Record>, Failure>)
    ensures Prepend([], r) == r
  {
    match r
    case Ok(v) => assert [] + v == v;
    case Err(_) =>
  }

  /** No calls and no records in front change nothing; a helper for
      ListMessages. */
  lemma ThenNothing(run: Run)
    ensures Then([], [], run) == run
  {
    assert [] + run.calls == run.calls;
    match run.result
    case Ok(v) => assert [] + v == v;
    case Err(_) =>
  }

  /** One turn of the outer loop on a page whose messages all yielded a URL. */
  lemma HarvestPage(unread: seq<MessageRef>, bodies: map<string, string>, pageSize: nat)
    requires pageSize > 0 && HasMessages(Listing(unread, pageSize))
    requires Fetch(Listing(unread, pageSize).value, bodies).result.Ok?
    ensures var page := Listing(unread, pageSize).value;
            var fetched := Fetch(page, bodies);
            Harvest(unread, bodies, pageSize) ==
              Then([ListCall(Some(page))] + fetched.calls + [BatchModifyCall(Ids(page), [Unread])],
                   fetched.result.value,
                   Harvest(RemoveIds(unread, Ids(page)), bodies, pageSize))
  {
  }

  /** The body of the inner loop, index.js:136-145: get one message and
      extract its tracking URL. */
  method FetchMessage(box: Mailbox, message: MessageRef) returns (result: Result<Record, Failure>)
    modifies box`calls
    ensures box.calls == old(box.calls) + [GetCall(message.id)]
    ensures result == FetchOne(message, box.bodies)
  {
    var body := box.Get(message.id);
    if body.None? {
      return Err(NoBody(message.id));
    }
    var url := TrackingUrl.Extract(body.value);
    if url.None? {
      return Err(NoTrackingUrl(message.id));
    }
    result := Ok(Record(url.value, message.threadId));
  }

  /**
   * The inner `for...of` loop of index.js:135-146: one get per message in
   * order, one record per message, or the failure of the first message
   * without a body or without a tracking URL.
   */
  method FetchPage(box: Mailbox, page: seq<MessageRef>) returns (result: Result<seq<Record>, Failure>)
    modifies box`calls
    ensures box.calls == old(box.calls) + Fetch(page, box.bodies).calls
    ensures result == Fetch(page, box.bodies).result
  {
    ghost var fetched := Fetch(page, box.bodies);
    ghost var gets: seq<Call> := [];
    ghost var calls0 := box.calls;
    var urls: seq<Record> := [];
    PrependNothing(fetched.result);
    for i := 0 to |page|
      invariant box.calls == calls0 + gets
      invariant fetched.calls == gets + FetchFrom(page, i, box.bodies).calls
      invariant fetched.result == Prepend(urls, FetchFrom(page, i, box.bodies).result)
    {
      var one := FetchMessage(box, page[i]);
      ghost var rest := FetchFrom(page, i + 1, box.bodies);
      if one.Err? {
        gets := gets + [GetCall(page[i].id)];
        return Err(one.error);
      }
      assert gets + ([GetCall(page[i].id)] + rest.calls) == (gets + [GetCall(page[i].id)]) + rest.calls;
      gets := gets + [GetCall(page[i].id)];
      PrependPrepend(urls, [one.value], rest.result);
      urls := urls + [one.value];
    }
    assert urls + [] == urls;
    result := Ok(urls);
  }

  /** The last turn of the outer loop: the list request came back empty. */
  lemma HarvestStops(unread: seq<MessageRef>, bodies: map<string, string>, pageSize: nat)
    requires pageSize > 0 && !HasMessages(Listing(unread, pageSize))
    ensures Harvest(unread, bodies, pageSize) == Run([ListCall(Listing(unread, pageSize))], Ok([]), unread)
  {
  }

  /** A turn of the outer loop that stops at a message of the page. */
  lemma HarvestFails(unread: seq<MessageRef>, bodies: map<string, string>, pageSize: nat)
    requires pageSize > 0 && HasMessages(Listing(unread, pageSize))
    requires Fetch(Listing(unread, pageSize).value, bodies).result.Err?
    ensures var fetched := Fetch(Listing(unread, pageSize).value, bodies);
            Harvest(unread, bodies, pageSize) ==
              Run([ListCall(Listing(unread, pageSize))] + fetched.calls, fetched.result, unread)
  {
  }

  /** `listMessages` from index.js:123-165, run against the store. */
  method ListMessages(box: Mailbox) returns (outcome: Outcome)
    requires box.Valid()
    modifies box
    ensures box.calls == old(box.calls) + Harvest(old(box.unread), box.bodies, box.pageSize).calls
    ensures box.unread == Harvest(old(box.unread), box.bodies, box.pageSize).unread
    ensures outcome == Output(Harvest(old(box.unread), box.bodies, box.pageSize))
  {
    ghost var run0 := Harvest(box.unread, box.bodies, box.pageSize);
    ghost var calls0 := box.calls;
    ghost var done: seq<Call> := [];
    var repeat := true;
    var urls: seq<Record> := [];
    ThenNothing(run0);
    while repeat
      invariant box.calls == calls0 + done
      invariant repeat ==> run0 == Then(done, urls, Harvest(box.unread, box.bodies, box.pageSize))
      invariant !repeat ==> run0 == Run(done, Ok(urls), box.unread)
      decreases repeat, |box.unread|
    {
      ghost var unread := box.unread;
      var messages := box.List();
      if messages.Some? && |messages.value| > 0 {
        var page := messages.value;
        ghost var spec := Fetch(page, box.bodies);
        var fetched := FetchPage(box, page);
        if fetched.Err? {
          HarvestFails(unread, box.bodies, box.pageSize);
          Uniq.Assoc(done, [ListCall(messages)], spec.calls);
          Uniq.Assoc(calls0, done, [ListCall(messages)]);
          Uniq.Assoc(calls0, done + [ListCall(messages)], spec.calls);
          Uniq.Assoc(calls0, done, [ListCall(messages)] + spec.calls);
          outcome := Aborted(fetched.error);
          return;
        }
        var ids := Ids(page);
        box.BatchModify(ids, [Unread]);
        ghost var step := [ListCall(messages)] + spec.calls + [BatchModifyCall(ids, [Unread])];
        HarvestPage(unread, box.bodies, box.pageSize);
        ThenThen(done, urls, step, fetched.value, Harvest(box.unread, box.bodies, box.pageSize));
        Uniq.Assoc(calls0, done, [ListCall(messages)]);
        Uniq.Assoc(calls0, done + [ListCall(messages)], spec.calls);
        Uniq.Assoc(calls0, done + [ListCall(messages)] + spec.calls, [BatchModifyCall(ids, [Unread])]);
        Uniq.Assoc(done, [ListCall(messages)], spec.calls);
        Uniq.Assoc(done, [ListCall(messages)] + spec.calls, [BatchModifyCall(ids, [Unread])]);
        Uniq.Assoc(calls0, done, step);
        done := done + step;
        urls := urls + fetched.value;
        PageLeaves(unread, box.pageSize);
      } else {
        HarvestStops(unread, box.bodies, box.pageSize);
        repeat := false;
        Uniq.Assoc(calls0, done, [ListCall(messages)]);
        done := done + [ListCall(messages)];
        assert urls + [] == urls;
      }
    }
    outcome := Written(Uniq.Urls(Uniq.UniqBy(urls)));
  }

  /* What a run promises. */

  /** The pages a run lists, one after the other, while every message on
      them yields a URL. */
  function Pages(unread: seq<MessageRef>, pageSize: nat): seq<seq<MessageRef>>
    requires pageSize > 0
    decreases |unread|
  {
    var messages := Listing(unread, pageSize);
    if !HasMessages(messages) then []
    else
      PageLeaves(unread, pageSize);
      [messages.value] + Pages(RemoveIds(unread, Ids(messages.value)), pageSize)
  }

  /** The messages of the pages, in order. */
  function Flatten(pages: seq<seq<MessageRef>>): seq<MessageRef> {
    if pages == [] then [] else pages[0] + Flatten(pages[1..])
  }

  /** What one page costs, as index.js:128-152 issues it: a list request
      that returned it, one get per message, one batch request. */
  function PageCalls(page: seq<MessageRef>): seq<Call> {
    [ListCall(Some(page))] + Gets(page) + [BatchModifyCall(Ids(page), [Unread])]
  }

  function AllPageCalls(pages: seq<seq<MessageRef>>): seq<Call> {
    if pages == [] then [] else PageCalls(pages[0]) + AllPageCalls(pages[1..])
  }

  /** The get requests among the calls. */
  function GetCount(calls: seq<Call>): nat {
    if calls == [] then 0 else (if calls[0].GetCall? then 1 else 0) + GetCount(calls[1..])
  }

  /** The batch requests among the calls. */
  function BatchCount(calls: seq<Call>): nat {
    if calls == [] then 0 else (if calls[0].BatchModifyCall? then 1 else 0) + BatchCount(calls[1..])
  }

  /** The thread ids of the messages. */
  ghost function ThreadsOf(ms: seq<MessageRef>): set<string> {
    set m | m in ms :: m.threadId
  }

  /** Fetching that succeeds gets every message in order and yields one
      record per message. */
  lemma {:induction false} FetchFromOk(ms: seq<MessageRef>, i: nat, bodies: map<string, string>)
    requires i <= |ms| && FetchFrom(ms, i, bodies).result.Ok?
    ensures |FetchFrom(ms, i, bodies).calls| == |ms| - i
    ensures forall k :: 0 <= k < |ms| - i ==> FetchFrom(ms, i, bodies).calls[k] == GetCall(ms[i + k].id)
    ensures |FetchFrom(ms, i, bodies).result.value| == |ms| - i
    ensures forall k :: 0 <= k < |ms| - i ==> FetchOne(ms[i + k], bodies) == Ok(FetchFrom(ms, i, bodies).result.value[k])
    decreases |ms| - i
  {
    if i < |ms| {
      var rest := FetchFrom(ms, i + 1, bodies);
      FetchFromOk(ms, i + 1, bodies);
      var f := FetchFrom(ms, i, bodies);
      forall k | 0 < k < |ms| - i
        ensures f.calls[k] == GetCall(ms[i + k].id)
        ensures FetchOne(ms[i + k], bodies) == Ok(f.result.value[k])
      {
        assert f.calls[k] == rest.calls[k - 1];
        assert f.result.value[k] == rest.result.value[k - 1];
        assert i + 1 + (k - 1) == i + k;
      }
    }
  }

  /** A page fetched without failure: its calls are its gets and record k
      comes from message k. */
  lemma FetchOk(ms: seq<MessageRef>, bodies: map<string, string>)
    requires Fetch(ms, bodies).result.Ok?
    ensures Fetch(ms, bodies).calls == Gets(ms)
    ensures |Fetch(ms, bodies).result.value| == |ms|
    ensures forall k :: 0 <= k < |ms| ==> FetchOne(ms[k], bodies) == Ok(Fetch(ms, bodies).result.value[k])
  {
    FetchFromOk(ms, 0, bodies);
  }

  /** Fetching only ever issues gets, and at least one for a non-empty page. */
  lemma {:induction false} FetchFromCalls(ms: seq<MessageRef>, i: nat, bodies: map<string, string>)
    ensures forall c :: c in FetchFrom(ms, i, bodies).calls ==> c.GetCall?
    ensures i < |ms| ==> |FetchFrom(ms, i, bodies).calls| > 0
    decreases |ms| - i
  {
    if i < |ms| {
      FetchFromCalls(ms, i + 1, bodies);
    }
  }

  /** Every list request that returned messages is followed by more
      requests, and one that returned nothing is the last. */
  ghost predicate StopsAtEmpty(calls: seq<Call>) {
    forall i :: 0 <= i < |calls| && calls[i].ListCall? ==>
      (HasMessages(calls[i].response) <==> i < |calls| - 1)
  }

  /** A list request that returned messages, then requests that are not
      list requests, then the calls of a later run keep the stop rule. */
  lemma StopsAfterPage(first: Call, mid: seq<Call>, rest: seq<Call>)
    requires first.ListCall? && HasMessages(first.response)
    requires forall c :: c in mid ==> !c.ListCall?
    requires |rest| > 0 && StopsAtEmpty(rest)
    ensures StopsAtEmpty([first] + mid + rest)
  {
    var calls := [first] + mid + rest;
    forall i | 0 < i <= |mid| ensures calls[i] == mid[i - 1] {
    }
    forall i | 1 + |mid| <= i < |calls| ensures calls[i] == rest[i - 1 - |mid|] {
    }
  }

  /** A list request that returned messages followed by gets only keeps the
      stop rule when there is at least one get. */
  lemma StopsAfterFailure(first: Call, mid: seq<Call>)
    requires first.ListCall? && HasMessages(first.response)
    requires |mid| > 0 && forall c :: c in mid ==> !c.ListCall?
    ensures StopsAtEmpty([first] + mid)
  {
    var calls := [first] + mid;
    forall i | 0 < i < |calls| ensures calls[i] == mid[i - 1] {
    }
  }

  /**
   * index.js:133 and 153-154: the loop goes on after a list request exactly
   * when it returned messages. The first request is a list request; every
   * list request that returned messages is followed by more requests, and
   * one that returned none (or no `messages` field) is the last request of
   * the run.
   */
  lemma {:induction false} StopRule(unread: seq<MessageRef>, bodies: map<string, string>, pageSize: nat)
    requires pageSize > 0
    ensures |Harvest(unread, bodies, pageSize).calls| > 0
    ensures Harvest(unread, bodies, pageSize).calls[0] == ListCall(Listing(unread, pageSize))
    ensures StopsAtEmpty(Harvest(unread, bodies, pageSize).calls)
    decreases |unread|
  {
    var messages := Listing(unread, pageSize);
    if HasMessages(messages) {
      var page := messages.value;
      var fetched := Fetch(page, bodies);
      FetchFromCalls(page, 0, bodies);
      if fetched.result.Ok? {
        var mid := fetched.calls + [BatchModifyCall(Ids(page), [Unread])];
        var next := RemoveIds(unread, Ids(page));
        PageLeaves(unread, pageSize);
        StopRule(next, bodies, pageSize);
        StopsAfterPage(ListCall(messages), mid, Harvest(next, bodies, pageSize).calls);
        assert Harvest(unread, bodies, pageSize).calls ==
               [ListCall(messages)] + mid + Harvest(next, bodies, pageSize).calls;
      } else {
        StopsAfterFailure(ListCall(messages), fetched.calls);
      }
    }
  }

  /**
   * A run that ends without failure (index.js:125-156): it listed the pages
   * of Pages, each non-empty and at most a page long; for each it got every
   * message in list order and then made one batch request for exactly the
   * page's ids that removes only UNREAD; its final list request returned
   * nothing; nothing is left unread; and record k was extracted from the
   * body of the k-th message processed and carries that message's thread id,
   * so no record is dropped before deduplication.
   */
  lemma {:induction false} HarvestSucceeded(unread: seq<MessageRef>, bodies: map<string, string>, pageSize: nat)
    requires pageSize > 0 && Harvest(unread, bodies, pageSize).result.Ok?
    ensures Harvest(unread, bodies, pageSize).calls == AllPageCalls(Pages(unread, pageSize)) + [ListCall(None)]
    ensures Harvest(unread, bodies, pageSize).unread == []
    ensures forall p :: p in Pages(unread, pageSize) ==> 0 < |p| <= pageSize
    ensures var ms := Flatten(Pages(unread, pageSize));
            var rs := Harvest(unread, bodies, pageSize).result.value;
            |rs| == |ms| &&
            forall k :: 0 <= k < |ms| ==>
              ms[k].id in bodies && TrackingUrl.Extract(bodies[ms[k].id]) == Some(rs[k].url) &&
              rs[k].threadId == ms[k].threadId
    decreases |unread|
  {
    var run := Harvest(unread, bodies, pageSize);
    var messages := Listing(unread, pageSize);
    if HasMessages(messages) {
      var page := messages.value;
      var fetched := Fetch(page, bodies);
      FetchOk(page, bodies);
      var rs0 := fetched.result.value;
      var next := RemoveIds(unread, Ids(page));
      var rest := Harvest(next, bodies, pageSize);
      PageLeaves(unread, pageSize);
      HarvestSucceeded(next, bodies, pageSize);
      var pages := Pages(unread, pageSize);
      assert pages == [page] + Pages(next, pageSize);
      assert pages[1..] == Pages(next, pageSize);
      assert run.calls == PageCalls(page) + rest.calls;
      Uniq.Assoc(PageCalls(page), AllPageCalls(Pages(next, pageSize)), [ListCall(None)]);
      var ms := Flatten(pages);
      var ms' := Flatten(Pages(next, pageSize));
      assert ms == page + ms';
      var rs := run.result.value;
      var rs' := rest.result.value;
      assert rs == rs0 + rs';
      forall k | 0 <= k < |ms|
        ensures ms[k].id in bodies && TrackingUrl.Extract(bodies[ms[k].id]) == Some(rs[k].url)
        ensures rs[k].threadId == ms[k].threadId
      {
        if k < |page| {
          assert ms[k] == page[k] && rs[k] == rs0[k];
          assert FetchOne(page[k], bodies) == Ok(rs0[k]);
        } else {
          assert ms[k] == ms'[k - |page|] && rs[k] == rs'[k - |page|];
        }
      }
    }
  }

  /**
   * The loop succeeds only if every message unread at the start has a body
   * with a tracking URL: one without either aborts the run.
   */
  lemma {:induction false} SucceedsOnlyIfAllExtract(unread: seq<MessageRef>, bodies: map<string, string>, pageSize: nat)
    requires pageSize > 0 && Harvest(unread, bodies, pageSize).result.Ok?
    ensures forall m :: m in unread ==> m.id in bodies && TrackingUrl.Extract(bodies[m.id]).Some?
    decreases |unread|
  {
    var messages := Listing(unread, pageSize);
    if HasMessages(messages) {
      var page := messages.value;
      var ids := Ids(page);
      var next := RemoveIds(unread, ids);
      FetchOk(page, bodies);
      PageLeaves(unread, pageSize);
      SucceedsOnlyIfAllExtract(next, bodies, pageSize);
      RemoveIdsKeeps(unread, ids);
      forall m | m in unread ensures m.id in bodies && TrackingUrl.Extract(bodies[m.id]).Some? {
        if m.id in ids {
          var k :| 0 <= k < |ids| && ids[k] == m.id;
          assert FetchOne(page[k], bodies).Ok?;
        } else {
          assert m in next;
        }
      }
    }
  }

  /**
   * index.js:144 and 161-165: when a message unread at the start has no
   * body data or no tracking URL, the run is aborted and urls.js is not
   * written.
   */
  lemma MissingUrlAborts(unread: seq<MessageRef>, bodies: map<string, string>, pageSize: nat, m: MessageRef)
    requires pageSize > 0 && m in unread
    requires m.id !in bodies || TrackingUrl.Extract(bodies[m.id]).None?
    ensures Output(Harvest(unread, bodies, pageSize)).Aborted?
  {
    if Harvest(unread, bodies, pageSize).result.Ok? {
      SucceedsOnlyIfAllExtract(unread, bodies, pageSize);
    }
  }

  /** A page whose messages from i on all have a body with a tracking URL
      is fetched without failure. */
  lemma {:induction false} FetchFromAllOk(ms: seq<MessageRef>, i: nat, bodies: map<string, string>)
    requires forall m :: m in ms ==> m.id in bodies && TrackingUrl.Extract(bodies[m.id]).Some?
    ensures FetchFrom(ms, i, bodies).result.Ok?
    decreases |ms| - i
  {
    if i < |ms| {
      assert ms[i] in ms;
      FetchFromAllOk(ms, i + 1, bodies);
    }
  }

  /**
   * The converse of SucceedsOnlyIfAllExtract: when every message unread at
   * the start has a body with a tracking URL, the run goes through and
   * urls.js is written.
   */
  lemma {:induction false} AllExtractSucceeds(unread: seq<MessageRef>, bodies: map<string, string>, pageSize: nat)
    requires pageSize > 0
    requires forall m :: m in unread ==> m.id in bodies && TrackingUrl.Extract(bodies[m.id]).Some?
    ensures Harvest(unread, bodies, pageSize).result.Ok?
    decreases |unread|
  {
    var messages := Listing(unread, pageSize);
    if HasMessages(messages) {
      var page := messages.value;
      forall m | m in page ensures m in unread {
        var k :| 0 <= k < |page| && page[k] == m;
        assert unread[k] == page[k];
      }
      FetchFromAllOk(page, 0, bodies);
      var next := RemoveIds(unread, Ids(page));
      RemoveIdsKeeps(unread, Ids(page));
      PageLeaves(unread, pageSize);
      AllExtractSucceeds(next, bodies, pageSize);
    }
  }

  /**
   * index.js:141-165: urls.js is written exactly when every message unread
   * at the start has a body with a tracking URL.
   */
  lemma WrittenExactlyWhenAllExtract(unread: seq<MessageRef>, bodies: map<string, string>, pageSize: nat)
    requires pageSize > 0
    ensures Output(Harvest(unread, bodies, pageSize)).Written? <==>
            forall m :: m in unread ==> m.id in bodies && TrackingUrl.Extract(bodies[m.id]).Some?
  {
    if Harvest(unread, bodies, pageSize).result.Ok? {
      SucceedsOnlyIfAllExtract(unread, bodies, pageSize);
    }
    if forall m :: m in unread ==> m.id in bodies && TrackingUrl.Extract(bodies[m.id]).Some? {
      AllExtractSucceeds(unread, bodies, pageSize);
    }
  }

  /**
   * With distinct message ids the pages are consecutive stretches of the
   * listing and together they are the whole listing: every message unread
   * at the start is processed once, in listing order.
   */
  lemma {:induction false} PagesCoverListing(unread: seq<MessageRef>, pageSize: nat)
    requires pageSize > 0 && DistinctIds(unread)
    ensures Flatten(Pages(unread, pageSize)) == unread
    decreases |unread|
  {
    if HasMessages(Listing(unread, pageSize)) {
      var next := NextPage(unread, pageSize);
      PagesCoverListing(next, pageSize);
      PagesStep(unread, pageSize, next);
    }
  }

  /** The pages of a listing are its first page and the pages of the rest. */
  lemma PagesStep(unread: seq<MessageRef>, pageSize: nat, next: seq<MessageRef>)
    requires pageSize > 0 && HasMessages(Listing(unread, pageSize))
    requires var page := Listing(unread, pageSize).value;
             RemoveIds(unread, Ids(page)) == next && page + next == unread
    requires Flatten(Pages(next, pageSize)) == next
    ensures Flatten(Pages(unread, pageSize)) == unread
  {
    var pages := Pages(unread, pageSize);
    assert pages[1..] == Pages(next, pageSize);
  }

  /** With distinct ids, the messages left after a page are the rest of the
      listing, again with distinct ids. */
  lemma NextPage(unread: seq<MessageRef>, pageSize: nat) returns (next: seq<MessageRef>)
    requires pageSize > 0 && DistinctIds(unread) && HasMessages(Listing(unread, pageSize))
    ensures var page := Listing(unread, pageSize).value;
            page + next == unread &&
            RemoveIds(unread, Ids(page)) == next && DistinctIds(next)
  {
    var page := Listing(unread, pageSize).value;
    var k := |page|;
    assert page == unread[..k];
    RemovePrefixIds(unread, k);
    next := unread[k..];
    DistinctSuffix(unread, k);
    assert page + next == unread;
  }

  lemma {:induction false} CountsAppend(a: seq<Call>, b: seq<Call>)
    ensures GetCount(a + b) == GetCount(a) + GetCount(b)
    ensures BatchCount(a + b) == BatchCount(a) + BatchCount(b)
  {
    if a != [] {
      assert (a + b)[0] == a[0];
      assert (a + b)[1..] == a[1..] + b;
      CountsAppend(a[1..], b);
    } else {
      assert a + b == b;
    }
  }

  lemma {:induction false} GetsCount(ms: seq<MessageRef>)
    ensures GetCount(Gets(ms)) == |ms| && BatchCount(Gets(ms)) == 0
  {
    if ms != [] {
      assert Gets(ms)[1..] == Gets(ms[1..]);
      GetsCount(ms[1..]);
    }
  }

  lemma {:induction false} AllPageCallsCount(pages: seq<seq<MessageRef>>)
    ensures GetCount(AllPageCalls(pages)) == |Flatten(pages)|
    ensures BatchCount(AllPageCalls(pages)) == |pages|
  {
    if pages != [] {
      var p := pages[0];
      GetsCount(p);
      CountsAppend([ListCall(Some(p))], Gets(p));
      CountsAppend([ListCall(Some(p))] + Gets(p), [BatchModifyCall(Ids(p), [Unread])]);
      CountsAppend(PageCalls(p), AllPageCalls(pages[1..]));
      AllPageCallsCount(pages[1..]);
    }
  }

  /**
   * A successful run over N unread messages (distinct ids) issues exactly N
   * get requests and one batch request per page, and collects N records.
   */
  lemma RequestCounts(unread: seq<MessageRef>, bodies: map<string, string>, pageSize: nat)
    requires pageSize > 0 && DistinctIds(unread) && Harvest(unread, bodies, pageSize).result.Ok?
    ensures GetCount(Harvest(unread, bodies, pageSize).calls) == |unread|
    ensures BatchCount(Harvest(unread, bodies, pageSize).calls) == |Pages(unread, pageSize)|
    ensures |Harvest(unread, bodies, pageSize).result.value| == |unread|
  {
    HarvestSucceeded(unread, bodies, pageSize);
    PagesCoverListing(unread, pageSize);
    AllPageCallsCount(Pages(unread, pageSize));
    CountsAppend(AllPageCalls(Pages(unread, pageSize)), [ListCall(None)]);
  }

  /** Records whose thread ids follow the messages' have the same threads. */
  lemma {:induction false} ThreadsMatch(rs: seq<Record>, ms: seq<MessageRef>)
    requires |rs| == |ms| && forall k :: 0 <= k < |ms| ==> rs[k].threadId == ms[k].threadId
    ensures Uniq.Threads(rs) == ThreadsOf(ms)
  {
    if ms != [] {
      ThreadsMatch(rs[1..], ms[1..]);
      assert ms == [ms[0]] + ms[1..];
      assert ThreadsOf(ms) == {ms[0].threadId} + ThreadsOf(ms[1..]);
    }
  }

  /**
   * With distinct ids, a successful run collects one record per message
   * unread at the start, in listing order: record k holds the tracking URL
   * of message k's body and message k's thread id.
   */
  lemma RecordsFollowListing(unread: seq<MessageRef>, bodies: map<string, string>, pageSize: nat)
    requires pageSize > 0 && DistinctIds(unread) && Harvest(unread, bodies, pageSize).result.Ok?
    ensures var rs := Harvest(unread, bodies, pageSize).result.value;
            |rs| == |unread| &&
            forall k :: 0 <= k < |unread| ==>
              unread[k].id in bodies && TrackingUrl.Extract(bodies[unread[k].id]) == Some(rs[k].url) &&
              rs[k].threadId == unread[k].threadId
  {
    HarvestSucceeded(unread, bodies, pageSize);
    PagesCoverListing(unread, pageSize);
  }

  /** No message before message k is of its thread. */
  ghost predicate FirstOfThread(ms: seq<MessageRef>, k: nat)
    requires k < |ms|
  {
    forall j :: 0 <= j < k ==> ms[j].threadId != ms[k].threadId
  }

  /** Among the first n messages, those that come first in their thread, in
      listing order. */
  ghost function FirstMessagesTo(ms: seq<MessageRef>, n: nat): seq<MessageRef>
    requires n <= |ms|
  {
    if n == 0 then []
    else FirstMessagesTo(ms, n - 1) + (if FirstOfThread(ms, n - 1) then [ms[n - 1]] else [])
  }

  /** The messages that come first in their thread, in listing order. */
  ghost function FirstMessages(ms: seq<MessageRef>): seq<MessageRef> {
    FirstMessagesTo(ms, |ms|)
  }

  /** Records that follow the messages one for one pick the same firsts. */
  lemma {:induction false} FirstsFollowMessages(rs: seq<Record>, ms: seq<MessageRef>, bodies: map<string, string>, n: nat)
    requires |rs| == |ms| && n <= |ms|
    requires forall k :: 0 <= k < |ms| ==>
               ms[k].id in bodies && TrackingUrl.Extract(bodies[ms[k].id]) == Some(rs[k].url) &&
               rs[k].threadId == ms[k].threadId
    ensures |Uniq.FirstsTo(rs, n)| == |FirstMessagesTo(ms, n)|
    ensures forall i :: 0 <= i < |FirstMessagesTo(ms, n)| ==>
              FirstMessagesTo(ms, n)[i].id in bodies &&
              TrackingUrl.Extract(bodies[FirstMessagesTo(ms, n)[i].id]) == Some(Uniq.FirstsTo(rs, n)[i].url)
  {
    if n > 0 {
      FirstsFollowMessages(rs, ms, bodies, n - 1);
      assert Uniq.IsFirst(rs, n - 1) <==> FirstOfThread(ms, n - 1);
    }
  }

  /**
   * What urls.js receives (index.js:157-161), for a listing with distinct
   * ids: the tracking URL of every message that comes first in its thread
   * among the messages unread at the start, in listing order, and nothing
   * else; so one URL per thread.
   */
  lemma WrittenOutput(unread: seq<MessageRef>, bodies: map<string, string>, pageSize: nat)
    requires pageSize > 0 && DistinctIds(unread)
    requires Output(Harvest(unread, bodies, pageSize)).Written?
    ensures var urls := Output(Harvest(unread, bodies, pageSize)).urls;
            var firsts := FirstMessages(unread);
            |urls| == |firsts| &&
            forall i :: 0 <= i < |urls| ==>
              firsts[i].id in bodies && TrackingUrl.Extract(bodies[firsts[i].id]) == Some(urls[i])
    ensures |Output(Harvest(unread, bodies, pageSize)).urls| == |ThreadsOf(unread)|
    ensures forall i :: 0 <= i < |unread| && FirstOfThread(unread, i) ==>
              unread[i].id in bodies && TrackingUrl.Extract(bodies[unread[i].id]).Some? &&
              TrackingUrl.Extract(bodies[unread[i].id]).value in Output(Harvest(unread, bodies, pageSize)).urls
  {
    var rs := Harvest(unread, bodies, pageSize).result.value;
    RecordsFollowListing(unread, bodies, pageSize);
    ThreadsMatch(rs, unread);
    FirstsFollowMessages(rs, unread, bodies, |unread|);
    forall i | 0 <= i < |unread| && FirstOfThread(unread, i)
      ensures TrackingUrl.Extract(bodies[unread[i].id]).value in Uniq.Urls(Uniq.UniqBy(rs))
    {
      Uniq.FirstKept(rs, i);
    }
  }
}
