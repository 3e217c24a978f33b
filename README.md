# meguca read path: a Dafny model of `server/reader.go`

This project models the viewer-specific read path of the meguca imageboard
server. A `Reader` is bound to a board and a viewer identity. It resolves the
viewer's two capabilities ("seeMnemonics", "seeModeration") once, and then:

- `parsePost` redacts a single post for the viewer. A deleted post is
  suppressed to the zero post for a viewer without moderation rights. Such a
  viewer also loses deleted images and the moderation log. A viewer with
  mnemonic rights gets a mnemonic derived from the author's IP, and a failing
  mnemonic aborts the request. The IP is always blanked.
- `GetPost` looks a post up and redacts it.
- `GetThread` checks the thread, joins it with its OP and the derived
  counters, fetches the replies (optionally only the "last N" window),
  redacts them and indexes the survivors by stringified id.
- `GetBoard` and `GetAllBoard` read board listings and pass them through
  `parseThreads`, which drops deleted threads for viewers without moderation
  rights and shapes each row into a container without replies.

The store is an abstract in-memory value (`Model.Store`): a sequence of post
rows and a sequence of thread rows. Each store query of the source is a
function over it in `queries.dfy`. The collaborators whose code is not part
of this model are fields of `Model.Env`, as uninterpreted functions:
`checkAuth`, `validateOP`, `canAccessThread`, `canAccessBoard`,
`idToString`, `mnemonic.Mnemonic` (which may fail), `boardCounter`,
`postCounter`, and the staff board's name from the configuration.

Files:

- `outcomes.dfy`: `Option` and `Outcome` (`Ok` or `Abort`, the latter for the
  source's `throw`).
- `model.dfy`: the records (`Post`, `Image`, `Thread`, `ThreadContainer`,
  `Board`, the joined row), their zero values, the store and `Env`.
- `queries.dfy`: lookups by id, the "op" and "board" indexes, the one-index
  slice, the counters and the joins.
- `reader.dfy`: `Reader`, `ParsePost`, `GetPost`, the `GetThread`,
  `FilterReplies` and `ParseThreads` methods, the board reads, and the lemmas.

`GetThread` and `ParseThreads` are methods, as in the source. The loop of
`GetThread` over the fetched replies is the method `FilterReplies`, proved
equal to the specification function `IndexReplies`; `GetThread` itself is
proved equal to `ThreadView`, and the `for` loop of `ParseThreads` is proved
equal to `Catalog`. The lemmas state what those functions guarantee. `parsePost` edits a copy of
its argument and returns it, so it is a pure function.

Faithful quirks of the code that the model keeps:

- `parseThreads` does not redact the OP. Board listings carry the OP as
  read, IP included (`CatalogMembers`, `ListingMembers`). The blank-IP guarantee holds for
  `GetThread` and `GetPost` only.
- `imageCtr` subtracts 1 whether or not the OP has an image. It is one less
  than the number of replies with an image when the OP has none, and can be
  -1 (`CountersOfThread`, `ImageCounterCanBeNegative`).
- `lastN == 1` gives `Slice(0)`, which keeps every reply. A negative `lastN`
  gives a positive slice start, which drops leading replies, except at the
  two smallest values of Go's 64-bit `int`: there `-lastN + 1` wraps round
  to a negative start, so the window keeps the trailing `lastN - 1 + 2^64`
  replies, which is every reply of any real thread (`WrapGoInt`,
  `WindowLength`).
- A deleted OP read by a viewer without moderation rights comes back as the
  zero post inside an otherwise populated thread container.

Where the documented behaviour of the read path and the code disagree, the
model follows the code:

- The documented behaviour is that `imageCtr` counts the replies with an
  image. The code counts all posts with an image, OP included, minus one.
- The documented behaviour is that `GetBoard` on a board the viewer cannot
  access returns nothing. `GetBoard` makes no access check (server/reader.go:143-155);
  that check belongs to its callers.
- The documented behaviour is that mnemonics are computed fresh on each read,
  so a viewer without mnemonic rights sees none. `parsePost` only assigns the
  mnemonic for a viewer with that right (server/reader.go:119-123); any other
  viewer gets the mnemonic field of the stored row unchanged. `ParsePost`
  states this, so the documented guarantee holds only for a store whose rows
  carry no mnemonic.

## Model

| member | source | states |
|---|---|---|
| `Server.NewReader` | server/reader.go:16-23 | the reader's two capabilities are exactly what `checkAuth` grants the viewer for "seeMnemonics" and "seeModeration" |
| `Server.ParsePost` | server/reader.go:108-126 | a deleted post is the zero post for a viewer without moderation rights; every returned post has a blank IP and, for such a viewer, no deletion mark, no deleted image and no moderation log; id, thread, time and body are kept; the mnemonic is set from the IP exactly for mnemonic viewers; the call aborts exactly when a mnemonic viewer's mnemonic fails on a post that was not suppressed, with the mnemonic's error |
| `Server.MnemonicIsDeterministic` | server/reader.go:119-123 | two posts with the same IP, both visible to the viewer (deleted ones included for a moderator), get the same mnemonic |
| `Server.GetPost` | server/reader.go:129-140 | a read of id 0, a missing post and a deleted post read by a viewer without moderation rights all yield the zero post, and any result with id 0 is exactly the zero post; a stored post with a non-zero id that the viewer may see comes back as its redaction; a non-zero result is the redaction of a stored post with that id; the result never shows an IP; only a mnemonic viewer's read of a stored post can abort, with that post's redaction error |
| `Queries.GetPostRecord` | server/reader.go:131 | the lookup finds a post with the requested id, and finds nothing exactly when no stored post has it |
| `Queries.GetThreadRecord` | server/reader.go:77 | the lookup finds a thread with the requested id, and finds nothing exactly when no stored thread has it |
| `Queries.PostsOf` | server/reader.go:91-93 | the "op" index yields exactly the stored posts of the thread, OP included |
| `Queries.RepliesOf` | server/reader.go:45-47 | the reply query yields exactly the posts of the thread other than the OP |
| `Queries.WithImage` | server/reader.go:97-100 | the image filter keeps exactly the posts that carry an image |
| `Queries.PostsOfSplit` | server/reader.go:86-103 | the posts of a thread, and those with images, split into replies plus OP rows |
| `Queries.WithCounters` | server/reader.go:86-103 | merging the counters keeps id, board and deletion flag, and gives -1 <= imageCtr <= postCtr |
| `Queries.CountersOfThread` | server/reader.go:86-103 | with one OP row, postCtr is the number of replies and imageCtr the number of replies with an image, less one when the OP has no image |
| `Queries.ImageCounterCanBeNegative` | server/reader.go:97-101 | a thread with an imageless OP and no replies has imageCtr -1 and postCtr 0 |
| `Queries.SliceFrom` | server/reader.go:48-50 | the slice is a suffix of its input; a start k >= 0 drops k rows, a start -k keeps the last k rows (all when fewer) |
| `Queries.WindowOfReplies` | server/reader.go:44-51 | the fetched replies are a suffix of the thread's replies, never the OP nor another thread's post |
| `Queries.WrapGoInt` | server/reader.go:49 | Go's `int` arithmetic: a value in range is kept, and any value is reduced to the in-range value congruent to it modulo 2^64 |
| `Queries.WindowLength` | server/reader.go:48-50 | lastN of 0 or 1 keeps every reply; lastN >= 2 keeps the trailing min(lastN - 1, count); a negative lastN drops the first 1 - lastN, except at the two smallest `int` values, where `-lastN + 1` wraps and the trailing min(lastN - 1 + 2^64, count) are kept |
| `Queries.JoinThread` | server/reader.go:74-83 | a non-zero left half is the stored thread with that id and merged counters; a non-zero right half is the stored post with that id without its op field; each half is zero exactly when the id is 0 or no row has it |
| `Queries.ThreadsOnBoard` | server/reader.go:146-147 | the "board" index yields exactly the threads of that board |
| `Queries.ThreadsNotOnBoard` | server/reader.go:162-165 | the filter keeps exactly the threads not on the excluded board |
| `Queries.JoinThreads` | server/reader.go:167-170 | the join is no longer than its input, and each joined row's OP has the id of its thread |
| `Queries.JoinThreadsMembers` | server/reader.go:167-170 | each joined row pairs one of the threads with merged counters and a stored post of the same id without its op field; every thread that has a post of its id is joined with it |
| `Queries.JoinThreadsAppend` | server/reader.go:167-170 | the join distributes over concatenation, so it keeps the order of the thread rows |
| `Server.IndexReplies` | server/reader.go:53-61 | the reply map has at most one entry per fetched reply; each entry is redacted, has a non-zero id and is keyed by `idToString` of that id; only a mnemonic viewer's read can abort |
| `Server.IndexRepliesAborts` | server/reader.go:55-61 | building the map aborts exactly when some fetched reply's redaction aborts |
| `Server.IndexRepliesFirstAbort` | server/reader.go:56-58 | an aborted read carries the error of the first fetched reply whose redaction aborts; every reply before it was redacted |
| `Server.AbortPersists` | server/reader.go:56-58 | once a reply aborts, the whole read aborts with that error |
| `Server.IndexRepliesKeys` | server/reader.go:55-61 | a key is in the map exactly when some fetched reply survives redaction under that key |
| `Server.KeySource` | server/reader.go:58-59 | every key of the map comes from a surviving fetched reply |
| `Server.SurvivorKeyed` | server/reader.go:58-59 | every surviving fetched reply has its key in the map |
| `Server.IndexRepliesValues` | server/reader.go:55-61 | every value in the map is the redaction of a fetched reply |
| `Server.IndexRepliesComplete` | server/reader.go:55-61 | with distinct reply ids and an injective `idToString`, every surviving reply is in the map under its own key, unchanged |
| `Server.SurvivorStored` | server/reader.go:56-60 | a surviving reply is in the map under its key, unchanged, unless a later reply has the same key |
| `Server.FilterReplies` | server/reader.go:55-61 | the loop builds exactly the reply map `IndexReplies` describes, or aborts with the first failing mnemonic |
| `Server.GetThread` | server/reader.go:32-70 | the method returns exactly the thread `ThreadView` describes: the empty container on a failed check or an incomplete join, else the joined metadata, the redacted OP and the reply map, or an abort on the first failing mnemonic |
| `Server.ThreadViewEmpty` | server/reader.go:35-41 | the empty container comes back exactly when validation or access fails or the thread/OP join is incomplete, that is, when the id is 0 or the store has no thread row or no post row with that id |
| `Server.ThreadViewRedacted` | server/reader.go:63-69 | neither the OP nor any reply of a returned thread shows an IP, and for a viewer without moderation rights none shows a deletion mark, deleted image or moderation log |
| `Server.ThreadViewShape` | server/reader.go:38-69 | a non-empty thread comes from a complete join, a redacted OP and the reply map of the window |
| `Server.ThreadViewContents` | server/reader.go:43-69 | a non-empty thread holds the joined metadata of that thread, the redacted OP, and at most one entry per fetched reply, each the redaction of a reply of that thread (never the OP) keyed by its stringified id |
| `Server.ThreadViewAborts` | server/reader.go:56-66 | a thread read aborts only for a mnemonic viewer, and only when the OP's or a fetched reply's mnemonic fails; it carries the reply map's error when that aborts, else the OP's |
| `Server.ParseThreads` | server/reader.go:181-193 | the loop builds exactly the catalog of the joined rows |
| `Server.CatalogAppend` | server/reader.go:181-193 | the catalog of a concatenation is the concatenation of the catalogs, so relative order is preserved |
| `Server.CatalogMembers` | server/reader.go:184-190 | an entry is in the catalog exactly when it is some kept row's metadata and raw OP with no replies; deleted threads are absent for viewers without moderation rights |
| `Server.CatalogForModerators` | server/reader.go:181-193 | for a moderator the catalog has one entry per row, position by position |
| `Server.ListingMembers` | server/reader.go:167-193 | every listing entry is one of the queried threads with counters next to a stored OP of the same id as read, with no replies; every queried thread that has an OP row and is not hidden from the viewer has its entry |
| `Server.GetBoard` | server/reader.go:143-155 | the listing is the catalog of the board's joined threads with the board counter; every entry is on that board, carries a stored OP of its id as read, has no replies, and is not deleted unless the viewer may see moderation; every thread of the board that has an OP row and is not hidden from the viewer is listed |
| `Server.GetAllBoard` | server/reader.go:159-177 | the listing is the catalog of all joined threads with the post counter; without staff access no entry is on the staff board; every entry carries a stored OP of its id as read, has no replies and is not deleted unless the viewer may see moderation; every thread outside a hidden staff board that has an OP row and is not hidden from the viewer is listed |

## Left out

- Query construction and execution against RethinkDB (`r.Table`, `GetAllByIndex`, `EqJoin`, `Merge`, `Without`, `db()(...).All/One`): replaced by functions over the abstract store. The rows of an index or a table come back in the order of the store's sequences; the store itself gives no order guarantee.
- Storage failures: the abstract store always answers, so the query errors that `db()` may raise are not modelled.
- The race between the existence/access check and the fetch: a concurrency concern; the model reads one store snapshot.
- The collaborators `checkAuth`, `validateOP`, `canAccessThread`, `canAccessBoard`, `boardCounter`, `postCounter`, `idToString`, `mnemonic.Mnemonic` and the staff board setting are not part of this model; they are uninterpreted inputs.
- A join whose thread row is missing: the store's `Merge` on a null left half would fail the query; the model gives a zero left half instead, which leads to the same empty container.
- Post and thread ids are Go `uint64`; the model uses unbounded naturals and does not model overflow.
- `lastN` is modelled as a 64-bit Go `int` (`Model.GoInt`); a 32-bit build, where `int` is 32 bits wide, is not modelled.
- The `Ident` type and the `Post` fields not used by this code (such as the name or links) are not modelled; `Ident` is opaque.
- src/view.rs, the browser-side view renderer, is not part of this model: it is UI code driven through JavaScript interop.
