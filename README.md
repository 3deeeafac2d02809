# Audiobook back-office: verified model of the manager views

This project models the decision logic of `manager/views.py`, the staff back-office of an audiobook platform. Staff use it to review book requests, register new audiobooks, triage inquiries and watch subscription counts. Four pieces are modelled, each with its collaborators turned into plain Dafny state or inputs:

- **Cache-aside metadata fetch** (`naver_cache.dfy`, module `NaverCache`). `get_book_details_from_naver` looks up `book_<isbn>` in the cache. On a miss it asks the Naver book-search API, which the model takes as an input function from query term to reply. It stores the first result item's six fields for one week. The cache is the class `Cache` over a `map<string, Entry>`. The fetch is the method `FetchDetails`, proved equal to the function `Fetch`. The lemmas about `Fetch` cover a hit, a stored miss, a failed miss, a 200 reply without items and two fetches in a row. The predicate `Agrees` says a cache is consistent with an initial cache: it keeps the initial entries, and every `book_` key it holds carries what a fetch from the initial cache yields. The exact cache a loop of fetches leaves is `RequestListing.LoopCache`.
- **Ranked request listing** (`request_listing.dfy`, `paging.dfy`). `BookRequestListView.get` resolves every outstanding request and drops those whose metadata is absent. It sorts the rest by request count, highest first and stable, then cuts the list into pages of ten. The sort is `SortDesc`. `SortDescSorted`, `SortDescPerm` and `SortDescStable` prove it sorted, a permutation and stable. `StableSortUnique` proves those three properties determine the result.
- **Book registration** (`registration.dfy`). `BookRegisterCompleteView.post` is a transition over a store (`StoreState`, updated in place by the class `Store`). The store holds the book records, the outstanding requests by ISBN and the user-request rows. Five checks run in order, then the record is saved, then the request row is looked up, then one mail attempt is made per requester with an email, then the rows are deleted. `RegisterSpec` is the specification; `Store.Register` is proved to implement it.
- **Reporting** (`inquiries.dfy`, `subscriptions.dfy`). The three-way `show_answered` filter, and the twelve trailing monthly points, each counting the subscriptions whose interval contains it.

The collaborators become inputs in `Registration.Env`:
- the search API, as `NaverCache.Remote`;
- the status of the image download;
- the serializer's verdict, a Boolean on the built record;
- whether `send_async_mail` raises, per address;
- today's date.

Calendar months are integer month indices.

The registration model is the corrected workflow, with the publication date taken as today's date. The code as written raises at manager/views.py:186 instead (see "## Findings"); that path is modelled separately by `RegisterAsWritten`. Elsewhere the model follows the code as written:
- A 200 reply with an empty `items` array raises at `items[0]`. The model gives that a server-error outcome (`Fault` / `ServerError`).
- When no `BookRequest` row exists, the book is saved first and the caller then receives 404 (`RequestNotFound`).
- Mail goes once per `UserRequestBook` row whose user has an email. A user with no email gets no attempt.

## Model

| member | source | states |
|---|---|---|
| NaverCache.CacheKey | manager/views.py:43 | the key is `book_` followed by the ISBN |
| NaverCache.CacheKeyInjective | manager/views.py:43 | two ISBNs with the same cache key are the same ISBN |
| NaverCache.Extract | manager/views.py:60-68 | the stored record copies author, title, publisher, image, isbn and description from the item |
| NaverCache.Fetch | manager/views.py:40-75 | existing entries are never altered; a found value is the one now stored under the key; a failed fetch leaves the cache unchanged; the only key ever added is the ISBN's, with timeout 604800 |
| NaverCache.FetchHit | manager/views.py:43-46 | a hit returns the cached record and leaves the cache unchanged; the result is the same whatever the remote would answer, so no call is needed |
| NaverCache.FetchMissStores | manager/views.py:58-73 | a 200 miss maps the key to the first item's six fields with timeout 604800, changes no other key, and returns the stored value |
| NaverCache.FetchMissFails | manager/views.py:74-75 | a non-200 miss returns absent and leaves the cache unchanged |
| NaverCache.FetchMissEmpty | manager/views.py:58-60 | a 200 miss with no items faults (the source raises at `items[0]`) and leaves the cache unchanged |
| NaverCache.FetchTwice | manager/views.py:40-75 | after a successful fetch, a second fetch of the same ISBN is a hit, whatever the remote answers, and returns the same value |
| NaverCache.AgreesResolve | manager/views.py:40-75 | a cache reached through fetches answers every ISBN as the initial cache would |
| NaverCache.AgreesFetch | manager/views.py:40-75 | one more fetch keeps a cache consistent with the initial cache and the remote |
| NaverCache.Cache.Get | manager/views.py:44 | `cache.get` returns the stored record exactly when the key is present |
| NaverCache.Cache.Set | manager/views.py:72 | `cache.set` maps the key to the value and timeout, leaving other keys alone |
| NaverCache.Cache.constructor | manager/views.py:44 | the cache starts holding the given entries |
| NaverCache.FetchDetails | manager/views.py:40-75 | the method's result and new cache are those of `Fetch` on the old cache |
| RequestListing.MakeRow | manager/views.py:93-99 | a listing entry takes ISBN and count from the request and author, title and publisher from the metadata |
| RequestListing.Collect | manager/views.py:89-99 | the loop's entries, in request order, against the cache before the loop; never more entries than requests |
| RequestListing.CollectFails | manager/views.py:89-92 | the listing loop fails with a server error exactly when some request's fetch faults |
| RequestListing.CollectCount | manager/views.py:89-99 | a successful loop holds as many entries as there are requests whose metadata resolved |
| RequestListing.CollectRows | manager/views.py:89-99 | a successful loop holds exactly the entries of the requests whose metadata resolved, one per such request; unresolved ones are dropped |
| RequestListing.CollectPrefixFails | manager/views.py:89-92 | a fault partway through fails the whole loop |
| RequestListing.LoopCache | manager/views.py:89-92 | the cache the listing loop leaves, each fetch running on the cache the previous ones left and the loop stopping at the first fault; it keeps every earlier entry unchanged |
| RequestListing.LoopCacheStops | manager/views.py:89-92 | after the first fault the remaining requests are not fetched, so the cache stays as it was at the fault |
| RequestListing.LoopCacheAgrees | manager/views.py:89-92 | the cache the loop leaves keeps every earlier entry, and every key holds what a fetch from the earlier cache yields |
| RequestListing.LoopCacheNew | manager/views.py:58-73 | each key the loop adds belongs to a requested ISBN whose reply was 200 with items, and holds that reply's first item with timeout 604800 |
| RequestListing.LoopCacheCovers | manager/views.py:58-73 | after a successful loop, the key of every request whose metadata resolved is in the cache |
| RequestListing.LoopCacheStores | manager/views.py:58-73 | each key the loop adds belongs to a requested ISBN whose reply was 200 with items, and holds that reply's first item with timeout 604800; after a successful loop every resolved request's key is cached |
| RequestListing.SortDesc | manager/views.py:101-102 | the sorted list has as many entries as the input |
| RequestListing.SortDescSorted | manager/views.py:101-102 | the sorted list is non-increasing in request count |
| RequestListing.SortDescPerm | manager/views.py:101-102 | the sorted list is a permutation of the loop's entries |
| RequestListing.SortDescStable | manager/views.py:101-102 | entries with equal request count keep their input order |
| RequestListing.StableSortUnique | manager/views.py:101-102 | any two non-increasing lists with the same entries per count, in the same order, are equal, so the stable descending sort is unique |
| RequestListing.RankingExample | manager/views.py:101-102 | counts 5, 9, 9 (A, B, C) are ranked B, C, A |
| RequestListing.CollectRequests | manager/views.py:87-99 | the loop's result is `Collect` of the requests against the initial cache, and the new cache is exactly `LoopCache` of it |
| RequestListing.ListRequests | manager/views.py:87-107 | the view fails exactly when the loop does, and otherwise returns page `page` of the stable descending sort of the loop's entries; the new cache is `LoopCache` |
| Paging.Pages | manager/views.py:105 | there is at least one page, and the first holds at most 10 entries |
| Paging.PagesConcat | manager/views.py:105 | the pages, concatenated, are the sorted list |
| Paging.PagesCount | manager/views.py:105 | there is one page for an empty list, otherwise the ceiling of length / 10 |
| Paging.PagesSizes | manager/views.py:105 | each page holds at most 10 entries, all but the last exactly 10, none empty unless the list is |
| Paging.PagesAt | manager/views.py:105 | page i is the slice from 10 * i to 10 * (i + 1) or the end, with the page size 10 as `PageSize` |
| Paging.Page | manager/views.py:106-107 | the page with number n, in range, is the slice from 10 * (n - 1) to 10 * n or the end |
| Registration.StatusCode | manager/views.py:143-241 | 200 exactly for a registration, 500 exactly for a server error, 404 exactly for missing metadata or a missing request row (lines 159 and 215); 400 otherwise (lines 146, 169, 177, 212) |
| Registration.HasIsbn | manager/views.py:139-140 | `Book.objects.get` finds a row exactly when the ISBN is among the catalogue's ISBNs |
| Registration.HasContent | manager/views.py:171-172 | a content file counts as supplied exactly when it is present with a non-empty name |
| Registration.NewBook | manager/views.py:180-192 | the record has the form's ISBN, genre and staff id, likes 0, today's date, and title, author, publisher and description from the metadata |
| Registration.Matching | manager/views.py:216-217 | the requester rows are exactly the user-request rows for the ISBN |
| Registration.Without | manager/views.py:235-236 | after the deletion, the remaining rows are exactly those for other ISBNs |
| Registration.MatchingWithoutSplit | manager/views.py:216-236 | the deleted rows and the kept rows together are the old rows, as a multiset |
| Registration.Notify | manager/views.py:218-232 | at most one attempt per requester, each addressed to a non-empty email and recording whether dispatch to it succeeded |
| Registration.NotifyOnePerRequester | manager/views.py:218-232 | there is one mail attempt per requester with an email, each addressed to such a requester, none missed |
| Registration.NotifyCount | manager/views.py:218-232 | the number of mail attempts equals the number of requesters with an email |
| Registration.NotifyMembers | manager/views.py:218-232 | each attempt is addressed to a requester with an email, and every such requester gets one |
| Registration.SendMails | manager/views.py:218-232 | the mail loop's attempts are `Notify` of the requesters, in order |
| Registration.Precheck | manager/views.py:137-177 | a stop leaves the store unchanged and sends no mail, with neither success, a missing request row nor a validation failure as the outcome; going on means the ISBN is new, the image answered 200 and a content file was given |
| Registration.RegisterAsWritten | manager/views.py:132-192 | the code as written never changes the store and never sends mail |
| Registration.RegisterSpec | manager/views.py:132-241 | the corrected workflow never removes a book; any book it adds has the form's ISBN and no likes; request and user-request rows change only on success |
| Registration.RegisterAsWrittenNeverSaves | manager/views.py:186 | as written, no request registers a book or changes the store; every request passing the first four checks ends in a server error |
| Registration.RegisterChecksInOrder | manager/views.py:139-212 | duplicate ISBN, then absent metadata (or a fetch fault), then image status, then content file, then validation; the first failure decides the outcome |
| Registration.RegisterFailureLeavesStore | manager/views.py:139-212 | every failure before the save leaves the store unchanged and sends no mail |
| Registration.RegisterSucceeds | manager/views.py:180-241 | success holds exactly when all checks pass and a request row exists; the catalogue then gains the new record, the request and its user rows are gone, other rows stay, and the mails are `Notify` of the ISBN's requesters, one per requester with an email |
| Registration.RegisterWithoutRequest | manager/views.py:196-215 | with all checks passed and no request row, the outcome is the missing-request 404 and the catalogue gains the new record; conversely, that outcome means the ISBN was new, the book is now saved, requests and user rows are unchanged and no mail is sent |
| Registration.MailFailuresDoNotMatter | manager/views.py:218-241 | whether dispatch raises changes neither the outcome, the store nor the cache, nor the recipients attempted |
| Registration.NotifyRecipients | manager/views.py:218-232 | the attempted recipients do not depend on dispatch failures |
| Registration.RegisterTwice | manager/views.py:139-146 | once a request has saved the book, registering the same ISBN again yields the duplicate outcome |
| Registration.Store.RunChecks | manager/views.py:137-177 | the four pre-save checks, run on the store and cache in place, give `Precheck` on the old state |
| Registration.Store.Register | manager/views.py:132-241 | outcome, new store, new cache and mail attempts are those of `RegisterSpec` on the old state |
| Registration.Store.constructor | manager/views.py:132-241 | the store starts in the given state |
| Inquiries.WithFlag | manager/views.py:258-260 | the filtered rows are exactly those with the flag, each with its multiplicity |
| Inquiries.Mode | manager/views.py:256 | the `show_answered` parameter, or `all` when it is missing |
| Inquiries.ListInquiries | manager/views.py:256-262 | `answered` gives exactly the answered inquiries, `not_answered` exactly the unanswered ones, anything else (or no parameter) gives all |
| Inquiries.ListingsPartition | manager/views.py:256-262 | the answered and unanswered listings together are all inquiries |
| Subscriptions.Points | manager/views.py:295 | twelve points `today - 11` through `today` months, oldest first |
| Subscriptions.CountCovering | manager/views.py:305-308 | the count at a point is at most the number of subscriptions, and 0 when none covers it |
| Subscriptions.CountIsCovering | manager/views.py:305-308 | the count at a point is the number of subscriptions with start <= point <= end |
| Subscriptions.CountAddOne | manager/views.py:305-308 | one more subscription adds one to the count of exactly the points its interval contains, both ends included |
| Subscriptions.SubscriptionCounts | manager/views.py:294-310 | twelve strictly increasing month points ending with today's month, and for each the number of subscriptions covering it |

## Findings

| source | as written | input that shows it | evidently intended | confidence | as-written member | corrected member |
|---|---|---|---|---|---|---|
| manager/views.py:186 | `datetime.date.today()` is evaluated after line 20 has rebound `datetime` to the `datetime` class. `datetime.date` is then an instance method, which has no `today`, so `AttributeError` is raised and the request ends with HTTP 500; nothing is saved and no mail is sent | a staff POST for a new ISBN whose metadata resolves, whose image URL answers 200 and which carries a content file | the publication date is today's date; validation, save, mail and cleanup follow | high, not executed | Registration.RegisterAsWritten, Registration.RegisterAsWrittenNeverSaves | Registration.RegisterSpec, Registration.RegisterSucceeds |

## Left out

- Network I/O: the search API and the image download (manager/views.py:56, 163) are inputs. The headers with the client id and secret taken from the environment are not modelled.
- The image bytes and content file storage, the two-phase save and the asset paths (manager/views.py:200-204). The model saves the record once.
- Cache expiry: timeouts are recorded with each entry, but time does not pass in the model. The map is what the cache holds at the moment of the call.
- JSON serialisation of cache values (manager/views.py:46, 71-73) is taken as the identity on the six-field record.
- A call to `requests.get` that raises (connection error, or an empty or `None` image URL at manager/views.py:163; likewise the search call at manager/views.py:56), and `response.json()` failing on a 200 reply, end in HTTP 500 in the source. `Remote` and `imageStatus` can only report a status code, so the model has no such path. An unreachable image URL therefore gives `ImageDownloadFailed` (400) in the model where the source gives 500.
- A reply without an `items` key, and item fields that are missing (`None`), are not modelled; every field is a string.
- `Paginator.get_page` for a missing, non-numeric or out-of-range page number is library behaviour. `Paging.Page` and `RequestListing.ListRequests` cover only page numbers in range.
- `BookSerializer` validation internals and its field errors: validity is a Boolean input on the built record.
- Mail rendering and asynchronous dispatch: each attempt is recorded with its recipient and whether dispatch raised.
- The admin checks that redirect (manager/views.py:84-85, 118-119, 133-134, 287-288), template rendering, and the `print` logging.
- Calendar arithmetic: `relativedelta`, `make_aware` and `strftime` are left out. Points and subscription bounds are integer month indices, so times within a month are not modelled.
- Concurrency: the race between the duplicate check and the save, and the asynchronous mail.
- `Book.objects.get` or `get_object_or_404` meeting several rows: ISBNs are unique, and requests are a map keyed by ISBN.
- The order of `BookRequest.objects.all()` is whatever order the input sequence gives.
- `BookRegisterView.get` (a metadata preview built on `FetchDetails`), `book_view`, `book_view_count`, `faq`, `inquiry_list`, `inquiry_detail`, `InquiryDetailAPI` and `show_subscription` are constant replies, bare lookups or page renders. `InquiryDetailAPI` raising an int at manager/views.py:275 is a Python error path.
- RequestListing.CollectRows: states membership and the number of entries, not their order; the order is fixed by the definition of `Collect`, which keeps the requests' order.
