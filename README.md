# Udemy notification harvester, modelled in Dafny

The program reads a Gmail mailbox for unread messages labelled
`udemy-notifications`. It pulls the Udemy tracking link out of each
message body, marks every page of messages read, and writes the links to
`urls.js`, one per conversation thread. This project models the core of
that program, `listMessages` in `index.js` (lines 123-165), and proves what
it promises:

- **The harvest loop** (`while (repeat)`). `Harvest.ListMessages` runs it
  against `Mail.Mailbox`, a store class standing in for the Gmail API. The
  class has three requests:
  - `List` returns the first page of unread messages, or nothing;
  - `Get` returns a message's decoded body;
  - `BatchModify` removes labels.

  The loop is proved to do exactly what the reference function
  `Harvest.Harvest` describes: the same requests in the same order, the
  same final store, and the same output. The lemmas about `Harvest` state
  the rest:
  - when the loop stops;
  - one get per message, in order;
  - one batch per page, covering exactly that page's ids and removing only
    `UNREAD`;
  - one record per message, carrying its thread id;
  - an abort, with nothing written, when a message has no tracking link.

  The store's `calls` field is a log of every request made. It is the
  observation the contracts are stated over.
- **The tracking-link pattern** `/https:\/\/e2\.udemymail\.com\/ls\/click.+?(?=")/i`.
  `TrackingUrl.Extract` is a hand-written scan for this one pattern. It is
  proved to return the leftmost match of the pattern's meaning, or nothing
  when the pattern matches nowhere. The match rules are the JavaScript
  ones:
  - the prefix matches in any ASCII case;
  - at least one character follows the prefix;
  - the lazy `.+?` stops at the first `"` after that character;
  - `.` refuses the line terminators `\n`, `\r`, U+2028 and U+2029;
  - the `"` itself is not part of the match.
- **Deduplication and projection.** `Uniq.UniqBy` models `_.uniqBy(urls,
  'threadId')` and `Uniq.Urls` models `.map(url => url.url)`. `UniqBy` keeps
  the first record of each thread, in order.

The Gmail behaviour that the loop needs in order to stop is an assumption
of the model: once a message loses `UNREAD`, the query no longer lists it.
`Mailbox.BatchModify` encodes it by removing the modified ids from the
unread listing. `Listing` returns the first `pageSize` unread messages, or
no `messages` field at all when nothing is unread.

Modules:
- `Wrappers`: `Option` and `Result`.
- `TrackingUrl`: the pattern at index.js:144.
- `Mail`: message references, records, the request log and the store.
- `Uniq`: index.js:157-158.
- `Harvest`: the loop and what a run promises.

## Model

| member | source | states |
|---|---|---|
| TrackingUrl.PrefixAtMeans | index.js:144 | The scan's character-by-character prefix test holds exactly when the 33 characters of `https://e2.udemymail.com/ls/click` match in any ASCII case (`/i` without `u`) |
| TrackingUrl.CloseQuoteFinds | index.js:144 | The quote search returns the first `"` at or after its start when no line terminator comes before that quote; any such quote is the one it returns |
| TrackingUrl.TailEndFinds | index.js:144 | `.+?(?=")` after the prefix: takes one non-line-terminator character (which may be `"`), then ends at the first `"` when no line terminator comes first; the end is unique |
| TrackingUrl.MatchAtPosition | index.js:144 | At one start position, the scan's test decides whether a match starts there, and where it ends |
| TrackingUrl.ScanFromFinds | index.js:144 | Scanning from i finds the leftmost match at or after i and its unique end, or reports none exactly when no match starts at or after i |
| TrackingUrl.ExtractFinds | index.js:144 | `match(...)[0]` is absent exactly when the pattern matches nowhere. Otherwise it starts with the prefix in any case, is longer than the prefix, has no line terminator after the prefix, and has no `"` after its first character past the prefix |
| TrackingUrl.ExtractIsLeftmostMatch | index.js:144 | When a match at i ending before the quote at e is the leftmost one, the result is exactly `s[i..e]` and the next character is `"` |
| Mail.Ids | index.js:147 | `messages.map(m => m.id)`: same length, and element k is message k's id |
| Mail.RemoveIds | index.js:148-152 | Marking messages read never grows the unread listing, and it shrinks whenever the first unread message is among them |
| Mail.RemoveIdsKeeps | index.js:148-152 | After a batch request that removes UNREAD, a message is still unread exactly when it was unread and its id was not in the batch |
| Mail.Listing | index.js:127-133 | A list request omits `messages` exactly when nothing is unread; otherwise it returns a non-empty leading stretch of the unread listing, at most a page long, and the whole listing when that fits in a page |
| Mail.DistinctSuffix | index.js:127-133 | The messages after a page of a listing with distinct ids still have distinct ids |
| Mail.RemovePrefixIds | index.js:147-152 | With distinct ids, marking a leading page read leaves exactly the rest of the listing |
| Mail.KeepAll | index.js:148-152 | A batch request that names none of the listed ids leaves the listing as it was |
| Mail.DropLeading | index.js:148-152 | Leading messages whose ids are all in the batch drop out of the listing |
| Mail.Mailbox.List | index.js:128-132 | A list request returns the store's current listing and is logged; nothing else changes |
| Mail.Mailbox.Get | index.js:136-143 | A get returns the message's body exactly when it has one, and is logged |
| Mail.Mailbox.BatchModify | index.js:148-152 | Removing UNREAD drops the given ids from the unread listing; any other label change leaves it as it was; the request is logged |
| Uniq.UniqBy | index.js:157 | The result has no two records of one thread and covers exactly the threads of the input. Each record in it is the first record of its thread in the input. It is a subsequence of the input, and its length is the number of threads, at most the input's. It is exactly `Firsts`, the records with no earlier record of their thread, in input order |
| Uniq.ThreadsConcat | index.js:157 | The threads of two lists one after the other are the threads of each |
| Uniq.FirstMeansNew | index.js:157 | A record is the first of its thread exactly when its thread does not occur among the records before it |
| Uniq.UniqueFromFirstsTo | index.js:157 | Having passed the first n records, lodash's walk has kept exactly their firsts, in order, and goes on with their threads seen |
| Uniq.UniqByIdempotent | index.js:157 | Deduplicating an already deduplicated list changes nothing |
| Uniq.UniqByKeepsEarlier | index.js:157 | Of two records of one thread, the earlier is kept and no other record of that thread survives, whatever their URLs |
| Uniq.FirstKept | index.js:157-158 | The first record of each thread survives, and its URL is in the output |
| Uniq.FirstIsAt | index.js:157 | The record at the first index of a thread is that thread's first record |
| Uniq.ThreadIndex | index.js:157 | Every thread of a list occurs at some index of it |
| Uniq.Urls | index.js:158 | `map(url => url.url)`: same length and order, and element i is record i's URL |
| Harvest.Gets | index.js:135-140 | One get request per message of a page, in page order |
| Harvest.FetchPage | index.js:135-146 | The inner loop issues the gets of the reference fetch and returns its records or its failure |
| Harvest.FetchMessage | index.js:136-145 | One get, then the record holding the extracted URL and the message's thread id, or the missing-body / no-match failure |
| Harvest.FetchFromOk | index.js:135-146 | A page fetched without failure issues one get per message in order, and record k comes from message k's body |
| Harvest.FetchOk | index.js:135-146 | The same for a whole page: its calls are exactly its gets |
| Harvest.FetchFromCalls | index.js:135-146 | Fetching issues only gets, and at least one for a non-empty page |
| Harvest.PageLeaves | index.js:147-152 | Marking a listed page read shrinks the unread listing, so the loop terminates |
| Harvest.ListMessages | index.js:123-165 | The `while (repeat)` loop makes exactly the reference run's requests, leaves the store as the reference run does, and writes the deduplicated URLs or aborts with its failure |
| Harvest.StopsAfterPage | index.js:133-156 | A list request that returned messages, followed by non-list requests and a later run, keeps the stop rule |
| Harvest.StopsAfterFailure | index.js:133-146 | A run cut short inside a page ends with a get, never with a list request that returned messages |
| Harvest.StopRule | index.js:126-156 | A run starts with a list request. It goes on after a list request exactly when that request returned messages: one with no messages or no `messages` field is the last request |
| Harvest.HarvestSucceeded | index.js:125-156 | A successful run lists its pages, each non-empty and at most a page long. For each page it gets every message in order and then marks exactly the page's ids read, removing only UNREAD. Its last list request returns nothing and nothing stays unread. Record k was extracted from the k-th processed message's body and carries its thread id |
| Harvest.SucceedsOnlyIfAllExtract | index.js:141-145 | A run succeeds only if every message unread at the start has a body with a tracking URL |
| Harvest.FetchFromAllOk | index.js:135-146 | A page whose messages all have a body with a tracking URL is fetched without failure |
| Harvest.AllExtractSucceeds | index.js:126-156 | A run in which every message unread at the start has a body with a tracking URL succeeds |
| Harvest.WrittenExactlyWhenAllExtract | index.js:141-165 | `urls.js` is written exactly when every message unread at the start has a body with a tracking URL |
| Harvest.MissingUrlAborts | index.js:141-165 | A message without a body or without a tracking URL aborts the run, and `urls.js` is not written |
| Harvest.PagesCoverListing | index.js:126-156 | With distinct ids the pages, one after the other, are exactly the listing at the start |
| Harvest.PagesStep | index.js:126-156 | The pages of a listing are its first page followed by the pages of the rest |
| Harvest.NextPage | index.js:147-152 | With distinct ids, what stays unread after a page is the rest of the listing, with distinct ids |
| Harvest.CountsAppend | index.js:126-156 | Counting gets and batch requests distributes over concatenation of request logs |
| Harvest.GetsCount | index.js:135-140 | A page's gets are as many as its messages and hold no batch request |
| Harvest.AllPageCallsCount | index.js:126-156 | The pages' requests hold one get per listed message and one batch per page |
| Harvest.RequestCounts | index.js:126-156 | A successful run over N unread messages with distinct ids issues N gets and one batch per page, and collects N records |
| Harvest.ThreadsMatch | index.js:145 | Records that carry their messages' thread ids have exactly those threads |
| Harvest.RecordsFollowListing | index.js:125-156 | With distinct ids, a successful run holds one record per message unread at the start, in listing order, with that message's URL and thread id |
| Harvest.FirstsFollowMessages | index.js:145-157 | Records that follow the messages one for one pick, by thread, the same firsts in the same order, and each kept record's URL is its message's tracking URL |
| Harvest.WrittenOutput | index.js:157-161 | What `urls.js` receives: element i is the tracking URL of the i-th message, in listing order, that comes first in its thread among the messages unread at the start, and there is nothing else; so one URL per thread, including every thread's first message's URL |

## Left out

- Authorisation (`authorize`, `getNewToken`, the credentials and token files, the readline prompt): setup I/O around the core; the store is given as a value.
- The promise wrappers around `users.messages.list`, `get` and `batchModify`, and `async`/`await`: each request is one synchronous store method.
- Transport and API errors (a rejected promise from any request): only the two failures the loop itself causes are modelled, a missing `payload.body.data` and a body with no match. An error of either kind is caught at index.js:163-164 like any other.
- Base64 decoding and UTF-8 decoding of the body (index.js:141-143): `Mailbox.bodies` holds the decoded text per message id. A message whose `payload.body.data` is absent has no entry.
- `console.log` and `writeFile` (index.js:159-162): the written list is the `Written` outcome's value; a rejected write is not modelled.
- The query string `label:udemy-notifications is:unread`, `userId: 'me'` and `format: 'full'`: constants passed to the API. The store's unread listing stands for the query's result.
- A general regular-expression engine: only this one pattern is modelled, as a scan.
- JavaScript strings are UTF-16 code units. The model works on Dafny characters (Unicode scalar values), so a body with surrogate pairs is not represented.
- Mail.Listing: never answers with an empty `messages` array. The loop and the stop rule still treat one as the end, as `messages.length` does.
- Gmail's eventual consistency: a message marked read is assumed gone from the very next listing. Without that assumption the source's loop need not terminate.
- Harvest.PagesCoverListing, Harvest.NextPage, Harvest.RequestCounts, Harvest.RecordsFollowListing, Harvest.WrittenOutput: stated for listings whose message ids are distinct, as Gmail's are. With repeated ids a batch could drop a later copy of a message from the listing unseen.
- Harvest.PagesCoverListing, Harvest.NextPage, Harvest.RequestCounts, Harvest.RecordsFollowListing, Harvest.WrittenOutput, Harvest.SucceedsOnlyIfAllExtract, Harvest.AllExtractSucceeds, Harvest.WrittenExactlyWhenAllExtract, Harvest.MissingUrlAborts: "the messages unread at the start" relies on a closed store. Nothing but the run itself changes the store while it runs: no mail arrives, no other client marks mail read, and bodies do not change. The source lists again after every page to drain whatever is unread at that moment, and with a changing mailbox these lemmas do not describe what it writes.
