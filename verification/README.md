# A verified model of the xsl protocol and concurrency core

This project models, in Dafny, the parts of the xsl library that hold its real
protocols, and proves what they keep over every input, every interleaving and
every way a stream can be cut up. It verifies on its own:
`dafny verify dfyconfig.toml`.

## What is modelled

**DNS names** (`Basics`, `DnsWire`, `DnsText`, `DnsChain`, `DnsSearch`,
`DnsCompressor`, `DnsDecompressor`, `DnsMessage`, `DnsLost`; RFC 1035, sections
2.3.4, 3.1 and 4.1.4). `DnsWire` says what the name at an offset of a message is
(`Walk`): labels collected while pointers are followed strictly backwards.
`DnsChain` follows pointers wherever they lead, hop by hop, as the code does when it
reads a stored name, and `DnsSearch` is the search of `prepare` with such readings,
also as a machine that takes one hop at a time. The compressor's `prepare` and
`compress`, both forms of `decompress`, `prepare_rest` and `skip_dn` are methods over
a byte array, loop by loop. `DnsLost` has the messages on which the compressor fails.
Pointers into the message are indices into that array.

**Rings** (`Bits`, `Ring`, `Spsc`, `SpscQueue`, `Channel`). `ceil2pow2` and
masking are done on bit patterns. `Spsc` and `Channel` are state machines with one
step per atomic load, store or exchange (and per construction, move and
destruction of an item), run under an arbitrary sequence of turns. `SpscQueue` is
the queue as a class, called without overlap.

**Signal** (`Signal`). `MPSCSignal` with any number of producers, one step per
atomic operation and per access to the plain fields.

**Reading a message head** (`HttpHead`, `HttpDelivery`, `HttpMessage`). `HttpHead`
reads a head from the whole stream at once. `HttpMessage` is `Message::read` with
its chain of 4096-octet blocks, entry compaction, rotate, fill and both parse loops,
over a reader whose script says how large every piece is. `HttpDelivery` says where
reading leaves off, for every such script.

**Routing** (`Router`, `Service`). The trie with its exact entries, prefix
handlers and backtracking, `ServiceBuilder`, and the lookup of a request, against
a flat reading of the registrations.

**Output and the pool** (`Sendv`, `Response`, `ResponseParse`, `ThreadPool`).
Writes with partial progress, by a script of what every write comes to, the inline header map, both ways of
rendering a head, `sendto`, and the thread pool's queue protocol.

## Assumptions

- Atomic operations take effect one at a time, in some order.
- A channel and a signal have one consumer with one outstanding await, a channel
  has one producer, and that producer also closes it
  (include/xsl/coro/signal/core.h:28-31). A suspended consumer goes on only after
  its own `await_suspend` has returned; this is the guard of the step from
  `Suspended`.
- The owner of a thread pool does not schedule once it has stopped it.
- Written names are not overwritten. A name has at most 127 labels, at most 20 names
  are stored, offsets in stored names are below 0x4000.
- A stream is delivered, and a write is answered, by a script of any finite length;
  behind its end every piece is as large as it can be and every write is taken whole.

## What the model shows about the code

- `DnCompressor::prepare` resolves the pointers of stored names from the first
  stored name (src/net/dns/utils.cpp:108), while they are written relative to the base
  (src/net/dns/utils.cpp:114). It is right if the first stored name stands at the base or no
  stored name holds a pointer (`StoredResolves`). Otherwise, a DNS header before the
  first name being enough, it fails in three ways.
  - It can refuse a legal name (`FirstNameNotAtBase`), exactly when `Blocks` holds of
    some stored name (`Prepare`).
  - It can fail to come back: a pointer the compressor has written itself may, so
    resolved, lead in a circle or out of the message (`EndlessSearch`: `a.cc` and
    `qqqqqqq.cc` behind a header of twelve octets). The search comes back if and only if
    the way through every stored name it comes to, up to the first that is refused or
    holds the whole text, stays inside the message and comes to no place twice
    (`SearchReturnsExactly`, `ReturnsExactly`).
  - It can accept a name and have another one written, without an error
    (`WrittenAsAnotherName`: `q.c` is prepared, `q.bbbbbbbbbbb.c` is written). A name that
    is written decodes to its labels if and only if none of them is empty and nothing is
    shared or the place the pointer leads to reads, from the base, as the shared labels
    (`DecodesExactly`, `TextExactly`, the contract of `Compress`); `prepare` only makes
    sure that it reads so from the first stored name (`ReadBack`).
- A refused `prepare` leaves what it has found so far behind, and the next one starts
  from that (`Taken`, `Searched` in the contract of `Prepare`). No search takes it over
  as long as a stored name cannot be read (`NothingLeftIsUsed`).
- A name with an empty label does not survive compression (`RoundTripExactly`).
- `prepare_rest` reads a zero octet directly behind a second pointer as an empty
  label and reads on (`ReadIsNameExactly`, `RootBehindTwoPointers`). The compressor
  never writes such a pointer.
- The "spurious wakeup" assertion of the channel can fail. A push may be overtaken
  between publishing its item and taking the callback: the consumer pops the item,
  comes back, finds the ring empty, registers a new callback and suspends; the push
  then takes that callback and wakes it for nothing. This can happen exactly when a push takes
  a callback with the ring empty (`SpuriousExactly`), and a push can be so overtaken in
  every quiet open channel that takes items at all (`PushOvertaken`, `SpuriousRun`). Where
  assertions are compiled out the consumer then gets `nullopt` from an open channel.
- At the same price an item can be lost to the consumer without an assertion failing:
  `await_resume` loads the tail, finds nothing, and only later loads `_closed`
  (include/xsl/coro/channel/spsc.h:140-153); a push and a close in between make it report a
  channel that is closed and drained, with an accepted item left. This too can happen
  exactly when a push takes a callback with the ring empty (`EndsShortExactly`,
  `EndsShortRun`); otherwise `nullopt` means that everything was delivered (`Drain`).
- After a stop, a release that is under way can put the stop back over a
  registration that was made in the meantime; that consumer is never resumed
  (`LostExactlyWhenOverwritten`, `LostForever`, `LostRun`).
- The position after a malformed header line, and only that, depends on how the
  stream was cut up: lines that were taken in an earlier pass are before it, lines taken
  in the same pass are not (`TwoDeliveries`: one stream, left off at 3 or at 8). It is
  always the malformed line if and only if no good header line can still be in the
  window when the malformed one becomes whole, which what has been delivered
  before and the block boundaries decide (`Lowest`, `MalformedExactly`).
- docs/http/route.md:29-31 says that a path with a final slash is matched by itself
  only. The code lets it fall back to shorter prefixes, exactly when its own is not
  registered and a shorter one is (`TrailingSlash`); a handler for "/" alone gets
  "/foo/bar/" (`RootServesAll`). The model follows the code.
- The comment on `sendv` (include/xsl/asio/io.h:337-339) promises all the chunks or an
  error. A `::writev` that reports zero octets gives neither, and nothing else does
  (`WholeOrErrorExactly`).
- With two writes in place of one scatter-gather write, a gap between head and body is
  possible without an error: a `::send` of a part of the head, then one that reports
  zero octets, and then the body (`GapRun`). This is the only way (`GapExactly`). It
  depends on `::send` reporting zero for data that is not empty, which the code has a
  branch for (include/xsl/asio/io.h:289-290) but which stream sockets do not normally do.

## Model

| member | source | states |
|---|---|---|
| `DnsWire.WalkLocates` | src/net/dns/utils.cpp:30-43 | every offset collected on a walk carries the label read there: its length octet and its contents, inside the message |
| `DnsWire.WalkExtend` | src/net/dns/utils.cpp:30-43 | a name that has been written reads the same however the message grows behind it |
| `DnsWire.WalkSuffix` | src/net/dns/utils.cpp:30-43 | decoding from the k-th collected offset yields exactly the labels from k on |
| `DnsWire.WalkLiteral` | src/net/dns/utils.cpp:30-43 | a run of labels in wire form decodes to those labels and then to whatever follows it, a pointer included |
| `DnsWire.ClosedExactly` | src/net/dns/utils.cpp:30-43 | behind a run of labels a zero octet ends the name, an octet from 192 on begins a pointer of fourteen bits, which is followed if it leads to before the run, and one from 64 to 191 is refused |
| `DnsWire.WalkPointerFree` | src/net/dns/utils.cpp:108-108 | a name without a pointer reads the same whatever base pointers are resolved from |
| `DnsText.SplitText` | src/net/dns/utils.cpp:53-63 | cutting a name at its dots loses nothing: its labels written out are the name and a final dot |
| `DnsText.SplitDotted` | src/net/dns/utils.cpp:53-63 | and the other way round: labels without dots, written with a dot between neighbours, are what cutting gives back |
| `DnsText.SplitIsDotted` | src/net/dns/utils.cpp:53-63 | cutting a text at its dots gives labels without a dot that, joined by dots, are the text |
| `DnsText.SplitSpells` | src/net/dns/utils.cpp:53-63 | every label stands in the text where the lengths of the labels before it say, a dot before each but the first |
| `DnsText.WireOctets` | include/xsl/net/dns/utils.h:60-65 | copied text with lengths put over its dots is the wire form, octet by octet |
| `DnsText.CommonIsLongest` | src/net/dns/utils.cpp:76-94 | two label sequences share a suffix of d labels if and only if d is at most the number that comparison from the end counts |
| `DnsText.SuffixLenGrows` | src/net/dns/utils.cpp:111-115 | sharing more labels always means sharing more octets, so comparing octets finds the most labels |
| `DnsChain.ReturnsExactly` | src/net/dns/utils.cpp:30-43 | the loop over a name comes to an end if and only if the places it comes to stay inside the message and no place comes twice, pointers leading anywhere |
| `DnsChain.WalkIsChased` | src/net/dns/utils.cpp:30-43 | a name whose pointers all lead backward reads the same so |
| `DnsChain.ChasedSuffix` | src/net/dns/utils.cpp:30-43 | from the k-th offset collected on such a way exactly the labels from k on are met |
| `DnsSearch.GetOffs` | src/net/dns/utils.cpp:30-43 | whenever the loop comes to an end: 0 for a bad length octet, else exactly the offsets of the labels met |
| `DnsCompressor.GetLabelLens` | src/net/dns/utils.cpp:53-63 | 0 if and only if some label is longer than 63 octets, else the length of every label |
| `DnsSearch.Match` | src/net/dns/utils.cpp:76-94 | the octets of the longest label suffix a text has in common with a stored name, and the offset of its first label |
| `DnsCompressor.DecodesExactly` | include/xsl/net/dns/utils.h:51-75 | over any stored names, sound or not, a written name decodes to its labels if and only if none is empty and nothing is shared, or the pointer leads back to where the shared labels stand, read from the base |
| `DnsCompressor.TextExactly` | include/xsl/net/dns/utils.h:51-75 | the same of its text |
| `DnsSearch.SearchReturnsExactly` | src/net/dns/utils.cpp:106-118 | taken hop by hop the search comes to an end if and only if the way through every stored name it comes to does, those being the names up to the first that is refused or ends with the whole text |
| `DnsSearch.Choose` | src/net/dns/utils.cpp:105-118 | whenever the search comes back, from any suffix left before: the outcome is that of the hop by hop search; it fails if and only if a stored name that is refused comes before one that stops it; what is left is what was there or the longer suffix shared with one name, and no name searched shares more octets |
| `DnsSearch.NothingLeftIsUsed` | src/net/dns/utils.cpp:108-115 | while a stored name cannot be read, a search that succeeds has found a whole match of its own and not taken over what a refused one left |
| `DnsCompressor.MostOctetsAreMostLabels` | src/net/dns/utils.cpp:106-118 | over a sound table the chosen name shares the most labels of all, and its pointer leads to exactly those |
| `DnsCompressor.StoredResolves` | src/net/dns/utils.cpp:108-108 | with the first name at the base, or no pointer stored, a stored name reads from the first name as it was written |
| `DnsCompressor.Emit` | include/xsl/net/dns/utils.h:60-70 | the octets written are the labels that are not shared and a pointer or the root, and nothing outside the asked-for room changes |
| `DnsCompressor.RoundTripExactly` | include/xsl/net/dns/utils.h:51-75 | a written name decodes to its text if and only if it has no empty label |
| `DnsCompressor.EmptyLabelLost` | include/xsl/net/dns/utils.h:60-70 | a name with an empty label decodes to something shorter: it ends before the first one, or, when that is the last label written out, lacks just this one |
| `DnsCompressor.SizeIsExact` | src/net/dns/utils.cpp:120-120 | the size prepare returns is the number of octets compress writes, or one more when the last label written out is empty and not the only one |
| `DnsCompressor.OneMoreName` | include/xsl/net/dns/utils.h:51-75 | writing one more name keeps every earlier one readable and every stored pointer resolvable |
| `DnsCompressor.DnCompressor.Prepare` | src/net/dns/utils.cpp:99-120 | the empty text and any of more than 255 octets are refused, "." has size 1, and of any other text a final dot is not kept; which texts are refused and with what error, and what a search leaves, over all stored names on which it comes back and from any state; the suffix chosen reads, from the first stored name, as the last labels of the text; over a sound table it is the longest shared one and the size is exact |
| `DnsCompressor.PrepareWithDot` | src/net/dns/utils.cpp:99-104 | from the same state a text and the text with a final dot have the same verdict, size and suffix, and the text that is kept is the one without the dot |
| `DnsCompressor.AcceptedExactly` | src/net/dns/utils.cpp:99-104 | a text is searched for if and only if it has 1 to 255 octets, is not "." and has no label of more than 63 octets |
| `DnsCompressor.DnCompressor.Compress` | include/xsl/net/dns/utils.h:51-75 | the octets written, and exactly when they decode to the name; nothing before them is overwritten, and the name is stored unless it takes two octets; over a sound table it decodes to its text and all names written before still do |
| `DnsDecompressor.ReadIsNameExactly` | src/net/dns/utils.cpp:122-186 | what decompress reads is the name if and only if no pointer after the first leads to a zero octet |
| `DnsDecompressor.RestIsLonger` | src/net/dns/utils.cpp:173-186 | behind such a pointer the text read is longer than the name |
| `DnsDecompressor.DnDecompressor.PrepareRest` | src/net/dns/utils.cpp:173-186 | appends the text of what the pointer leads to; fails if and only if a bad length octet is met |
| `DnsDecompressor.DnDecompressor.DecompressSpan` | src/net/dns/utils.cpp:122-141 | the text of the name, and the span left directly behind its last octet |
| `DnsDecompressor.DnDecompressor.DecompressAt` | src/net/dns/utils.cpp:143-165 | the text of the name and the number of octets it takes where it stands |
| `DnsDecompressor.SkipDn` | include/xsl/net/dns/utils.h:129-142 | succeeds if and only if the run closes with 0 or 0xc0, and then skips exactly the name |
| `DnsMessage.WriteNames` | test/unit/dns/compress.cpp:28-77 | for every sequence of legal names, at most 20 of which no earlier one ends with, with any record data between them, the first at the base, each decodes to its own text in the finished message |
| `DnsMessage.AllDecode` | src/net/dns/utils.cpp:122-186 | between any two calls every name written so far decodes in the message as it is then |
| `DnsMessage.LegalExactly` | src/net/dns/utils.cpp:99-104 | the texts that are written are "." and the labels of 1 to 63 octets, 253 octets in all, joined by dots, with a final dot or without |
| `DnsMessage.RoundTrip` | src/net/dns/utils.cpp:98-186 | compressing such names into one buffer and decompressing at their starts gives "." back as nothing, a text that ends in a dot as it is, and any other with one dot more |
| `DnsMessage.NowCovered` | include/xsl/net/dns/utils.h:71-73 | a name that has been written is covered by a stored name, so that neither it nor what it ends with takes another place in the table |
| `DnsMessage.ReadThreeWays` | src/net/dns/utils.cpp:122-165 | on everything that can be read both decompressors give the same text, verdict and size, skip_dn the same size whenever it succeeds; the text is the name's if and only if no later pointer leads to a zero octet |
| `DnsLost.FirstNameNotAtBase` | src/net/dns/utils.cpp:108-114 | a message of two good names, the first not at the base, over which prepare refuses a legal name |
| `DnsLost.EndlessSearch` | src/net/dns/utils.cpp:30-43 | the compressor writes two good names behind a header, and from then on prepare does not come back for any name that the first one does not end with as a whole |
| `DnsLost.SecondMisread` | src/net/dns/utils.cpp:108-116 | the second of two such names, read from the first, is another name |
| `DnsLost.WrittenAsAnotherName` | include/xsl/net/dns/utils.h:51-75 | that name is prepared and written, without an error, and what stands in the message decodes to the second name and not to it |
| `DnsLost.RootBehindTwoPointers` | src/net/dns/utils.cpp:173-186 | a message in which decompress reads an empty label that the name does not have |
| `Bits.Ceil2Pow2` | include/xsl/wheel/bit.h:18-25 | the least power of two not below n for 1 <= n <= 2^(width-1), and 0 for every other n |
| `Bits.SmearRound` | include/xsl/wheel/bit.h:21-23 | each round of the loop doubles the number of leading one bits |
| `Bits.MaskIsRemainder` | include/xsl/sync/spsc.h:92-92 | masking with 2^k - 1 is the remainder modulo 2^k |
| `Ring.SameIndex` | include/xsl/sync/spsc.h:93-94 | positions at most a ring apart have the same index if and only if they are equal or exactly a ring apart |
| `Ring.ConstructLive` | include/xsl/sync/spsc.h:95-96 | with a slot in reserve the tail's slot is raw, and constructing there appends one item and touches no other |
| `Ring.DestroyLive` | include/xsl/sync/spsc.h:128-130 | the head's slot holds the oldest item, and destroying it removes that one only |
| `Ring.DestroyAll` | include/xsl/sync/spsc.h:62-66 | the destructor destroys exactly the live items, in order and once each, and leaves only raw memory |
| `Spsc.EveryRunIsAQueue` | include/xsl/sync/spsc.h:88-132 | in every interleaving the observed successes and failures are a history of a bounded queue one smaller than the ring, and the values returned are those pushed, in order |
| `Spsc.ReplayExactly` | include/xsl/sync/spsc.h:88-132 | such a history is just one in which a value is accepted only while there is room, taken only while there is one, and a failure reported only of a full or an empty queue; what is taken are the first values accepted |
| `Spsc.PushEnds` | include/xsl/sync/spsc.h:88-100 | whatever the consumer does a push is over after four turns of the producer, with one success or one failure observed |
| `Spsc.PopEnds` | include/xsl/sync/spsc.h:119-132 | whatever the producer does a pop is over after five turns of the consumer, with a value returned or one failure observed |
| `Spsc.SlotsAreSafe` | include/xsl/sync/spsc.h:95-130 | construction is only ever in raw memory, moving and destruction only of an item, and never both in one slot although the head is published first |
| `Spsc.PushFailsWhenFull` | include/xsl/sync/spsc.h:93-100 | push fails if and only if the queue is full at the instant it loads the head |
| `Spsc.PopFailsWhenEmpty` | include/xsl/sync/spsc.h:122-125 | pop fails if and only if the queue is empty at the instant it loads the tail |
| `Spsc.ProducerKeeps` | include/xsl/sync/spsc.h:88-100 | every producer step keeps seen head <= head <= seen tail <= tail, less than a ring apart, whatever the consumer has done in between |
| `Spsc.ConsumerKeeps` | include/xsl/sync/spsc.h:119-132 | every consumer step keeps the same, and the head runs at most one ahead of what has been returned |
| `Spsc.FromKeeps` | include/xsl/sync/spsc.h:88-132 | the invariants of indices, slots and history hold after every sequence of turns |
| `SpscQueue.Queue.constructor` | include/xsl/sync/spsc.h:41-53 | a queue built for size items takes at least that many, and its ring is the least power of two that allows it |
| `SpscQueue.Queue.Push` | include/xsl/sync/spsc.h:88-100 | appends the value if and only if the queue is not full, despite the stale copy of the head |
| `SpscQueue.Queue.Pop` | include/xsl/sync/spsc.h:119-132 | removes the oldest value, and fails if and only if there is none |
| `SpscQueue.Queue.Dispose` | include/xsl/sync/spsc.h:55-69 | destroys exactly the values still queued |
| `Channel.NoLostWakeup` | include/xsl/coro/channel/spsc.h:111-133 | in every run a consumer suspended with an item there, or with the channel closed, is being woken; its callback is still in the slot only while a push or close is between its store and its exchange |
| `Channel.SuspendedGoesOn` | include/xsl/coro/channel/spsc.h:168-204 | such a consumer goes on once the producer has had three more turns and then it has one, whatever turns come between |
| `Channel.ObtainedOnce` | include/xsl/coro/channel/spsc.h:125-130 | a callback that push, close or the retracting await has obtained is never obtained again, however the run goes on |
| `Channel.AllObtained` | include/xsl/coro/channel/spsc.h:180-203 | in every run every registered callback but the one in the slot has been obtained by one of the three, the last one by the push or close that is waking the consumer |
| `Channel.Drain` | include/xsl/coro/channel/spsc.h:137-154 | in every run the values returned are a prefix of those accepted, and a nullopt the assertion lets through is for a closed channel; unless a push took a callback with the ring empty, nothing was left then and the assertion has not failed |
| `Channel.ClosedDrains` | include/xsl/coro/channel/spsc.h:94-154 | in every run that has closed the channel, turns of the consumer alone get it every item that is left, in order, and then the end |
| `Channel.SlotsAreSafe` | include/xsl/coro/channel/spsc.h:137-150 | in every run construction is in raw memory and the item moved out is the next one accepted |
| `Channel.PushFailsWhenFull` | include/xsl/coro/channel/spsc.h:172-188 | an open channel rejects a push if and only if the ring is full as the head is loaded |
| `Channel.SpuriousExactly` | include/xsl/coro/channel/spsc.h:137-154 | the wake-up by a push can turn out to be spurious if and only if the ring is empty when the push takes the callback |
| `Channel.EndsShortExactly` | include/xsl/coro/channel/spsc.h:137-154 | the consumer can be told that the channel is closed and drained with an accepted item left, no assertion failing, if and only if the ring is empty when a push takes the callback |
| `Channel.PushOvertaken` | include/xsl/coro/channel/spsc.h:178-183 | every state in which both sides are idle and an open channel of more than one slot is empty leads to such a push |
| `Channel.EndsShortRun` | include/xsl/coro/channel/spsc.h:140-153 | for every size of ring and every item a run from the start in which an accepted item is so left, and no assertion fails |
| `Channel.SpuriousRun` | include/xsl/coro/channel/spsc.h:151-153 | for every size of ring and every item a run from the start in which the assertion fails |
| `Channel.ProducerKeeps` | include/xsl/coro/channel/spsc.h:168-204 | every step of push and close keeps the ring, the callback and the Dekker invariants |
| `Channel.ConsumerKeeps` | include/xsl/coro/channel/spsc.h:94-154 | so does every step of await_ready, await_suspend and await_resume |
| `Channel.FromKeeps` | include/xsl/coro/channel/spsc.h:94-204 | the invariants of ring, callback and wake-up hold after every sequence of turns |
| `Signal.AtMostOneResumer` | include/xsl/coro/signal/core.h:162-183 | for every mix of releases and stops by any number of producers, at most one owns a continuation, it invokes the current one, and no suspension is resumed twice |
| `Signal.ReleasesAreNotForgotten` | include/xsl/coro/signal/core.h:126-175 | in release-only runs a suspended consumer either has no release since it last took one or is being resumed by exactly one producer; every await succeeds and takes a release of its own |
| `Signal.OneReleaseEach` | include/xsl/coro/signal/core.h:126-175 | in such runs no more awaits come back than releases were begun |
| `Signal.FalseNeedsStop` | include/xsl/coro/signal/core.h:157-159 | in every run an await reports a stop only if one was begun |
| `Signal.AwaitGoesOn` | include/xsl/coro/signal/core.h:126-159 | whatever the producers do, six turns of the consumer end its await or suspend it |
| `Signal.StoppedForGood` | include/xsl/coro/signal/core.h:157-159 | from any state in which the signal is stopped and no release is under way, every await that ends in a run without a release reports false |
| `Signal.StoppedAtOnce` | include/xsl/coro/signal/core.h:126-134 | and none that has not yet registered suspends: every three turns of the consumer are an await that reports false |
| `Signal.StopTakes` | include/xsl/coro/signal/core.h:177-183 | a stop that finds the consumer suspended, with no release under way, takes its callback and leaves the signal stopped |
| `Signal.StopWakes` | include/xsl/coro/signal/core.h:177-183 | a suspended consumer whose callback a stop has taken is resumed after two turns of that producer and one of its own, whatever comes between, and its await reports false if nothing is released |
| `Signal.ReleaseWakes` | include/xsl/coro/signal/core.h:162-175 | in runs of releases, one whose callback a release has taken is resumed after three such turns, and its await reports true |
| `Signal.LostExactlyWhenOverwritten` | include/xsl/coro/signal/core.h:165-168 | a registered consumer loses its wake-up in a step if and only if that step puts a stop back over the registration |
| `Signal.LostForever` | include/xsl/coro/signal/core.h:162-183 | nothing that follows resumes such a consumer |
| `Signal.LostRun` | include/xsl/coro/signal/core.h:162-168 | a run that comes to that with a single producer |
| `HttpHead.ScanAgrees` | include/xsl/net/http/msg.h:32-63 | a pass over the window does what reading the whole stream does, as far as it comes, and says where the first unfinished line starts |
| `HttpHead.HeaderInWindow` | include/xsl/net/http/msg.h:44-57 | searching the window from the start of a line for colon, value and line end finds the parts of that line and never of a later one |
| `HttpHead.HeaderParts` | include/xsl/net/http/msg.h:44-55 | a line is a header if and only if it has a colon; it is then its key, without a colon, a colon, spaces, and its value, which does not begin with a space |
| `HttpHead.DueError` | include/xsl/asio/http/common.h:106-139 | when no line can be taken the error is IllegalByteSequence if 4096 octets or more are left, and else the reader's own if it has one and NotConnected if not |
| `HttpHead.FullWindow` | include/xsl/asio/http/common.h:106-112 | a block without a line end holds a line that does not fit |
| `HttpDelivery.MalformedExactly` | include/xsl/asio/http/common.h:153-163 | in a head with a malformed line every delivery leaves off between that line and a place that the stream and what had been delivered before determine; that place is reached, the line itself if and only if it is the same or had not come as a whole before, and every delivery leaves off at the line if and only if they are the same |
| `HttpDelivery.TwoDeliveries` | include/xsl/asio/http/common.h:153-163 | one stream, delivered whole and octet by octet, is left off at two different positions |
| `HttpDelivery.LandsBetween` | include/xsl/asio/http/common.h:124-163 | from any state of the loop over the headers, whatever the pieces to come, reading leaves off between these two places |
| `HttpDelivery.SpoiltScan` | include/xsl/net/http/msg.h:32-63 | a pass meets the malformed line if and only if all of it has come; before that it stops at the first line that is not whole |
| `HttpMessage.Message.Compact` | include/xsl/asio/http/common.h:79-98 | the unconsumed octets are at the front of the chain, none lost, and the chain keeps its blocks |
| `HttpMessage.Message.Rotate` | include/xsl/asio/http/common.h:106-123 | fails if and only if the tail fills the block; else the window is unchanged and no octet under a view is touched |
| `HttpMessage.Message.Fill` | include/xsl/asio/http/common.h:124-139 | brings one more piece, into a new block if the old one is full, keeps every view, and fails only when no line of the stream can start here, with that error |
| `HttpMessage.Message.ParseRest` | include/xsl/net/http/msg.h:32-63 | takes exactly the lines that are whole; the views it records show their headers, the last value for every key |
| `HttpMessage.Message.Insert` | include/xsl/net/http/msg.h:48-58 | the header map shows one header more, an old key keeping the view it had |
| `HttpMessage.Message.ReadLine` | include/xsl/asio/http/common.h:142-152 | error, position and first line are those of the whole stream |
| `HttpMessage.Message.ReadHeaders` | include/xsl/asio/http/common.h:153-163 | error and headers are those of the whole stream, the position is the one that goes with the delivery; the view of the first line still shows it |
| `HttpMessage.Message.Read` | include/xsl/asio/http/common.h:78-167 | for every way of delivering the stream the outcome is that of the whole stream, with the position that `LandHead` gives; an error is the reader's own, or NotConnected, when the stream ends before a line does, IllegalByteSequence when a line is too long or malformed, or the verdict on the first line; every view shows its text at the end, the content view what was read behind the head, and a head of n octets takes at most 2*(n/4097)+1 rotates |
| `HttpMessage.Message.ReadAll` | include/xsl/asio/http/common.h:24-45 | successive reads give the heads of the whole stream and end with such an error, and the chain is never longer than the longest head makes it |
| `HttpMessage.RotateGrows` | include/xsl/asio/http/common.h:106-123 | two rotates in a row put at least 4097 octets of the head behind the active block |
| `Router.JoinSegments` | include/xsl/net/http/router.h:56-66 | cutting a path at its slashes loses nothing |
| `Router.SegmentsExactly` | include/xsl/net/http/router.h:56-66 | the segments of a path are the only ones without a slash in them that make up the path |
| `Router.PrefixWithSlash` | include/xsl/net/http/router.h:84-100 | a prefix stands for the same segments with a final slash as without, and "/" for none |
| `Router.AddExact` | include/xsl/net/http/router.h:56-75 | afterwards exactly one entry of the flat reading is there that was not, with id 0, or nothing has changed; the nodes that are there are those that were and those on the way to the entry |
| `Router.AddPrefix` | include/xsl/net/http/router.h:84-100 | nothing of the flat reading changes; the nodes that are there are those that were and those on the way to the prefix, its own included, a final slash counting for nothing |
| `Router.FlatStep` | include/xsl/net/http/router.h:107-140 | descending one level with backtracking is the flat choice of the longest prefix |
| `Router.LongestPrefixBound` | include/xsl/net/http/router.h:135-140 | the prefix chosen has a handler and no longer one has |
| `Router.Route` | include/xsl/net/http/router.h:107-141 | the exact entry of the path, else its longest prefix with a handler, else nothing; the context holds what remains behind the matched node, or is as it was |
| `Router.JoinSplit` | include/xsl/net/http/router.h:117-123 | the matched node's path followed by the final context is the original path |
| `Service.FirstIsFirst` | include/xsl/asio/http/service.h:178-181 | the handler that counts for a pattern and a method is that of the first registration of both, and there is none only if there was none |
| `Service.DispatchedExactly` | include/xsl/asio/http/service.h:61-80 | a request goes to the first registration of its entry for its own method, whatever is registered for every method; only without one to the first for every method; without either the assertion fails |
| `Service.NotFoundExactly` | include/xsl/net/http/router.h:107-141 | nothing is found if and only if the path does not begin with a slash, or neither it nor one of its prefixes is registered |
| `Service.NoInterference` | include/xsl/asio/http/service.h:61-90 | registering any number of other patterns never changes what a path registered as a whole is dispatched to |
| `Service.FailsExactly` | include/xsl/asio/http/service.h:70-79 | the lookup's assertion fails if and only if the path is registered as a whole, but neither for the method nor for all of them |
| `Service.ForeignChangesNothing` | include/xsl/asio/http/service.h:61-90 | registering any number of patterns that are neither the path nor one of its prefixes never changes what it is dispatched to |
| `Service.FallsBackExactly` | include/xsl/net/http/router.h:107-141 | a path not registered as a whole goes to a prefix if and only if that one is registered and no longer one is |
| `Service.TrailingSlash` | include/xsl/net/http/router.h:107-141 | a path with a final slash not registered as a whole goes to a prefix shorter than its own if and only if its own is not registered and a shorter one is; that one gets the rest of the path |
| `Service.RootServesAll` | include/xsl/net/http/router.h:107-141 | with a handler for the prefix / alone every path goes to it, those with a final slash included |
| `Service.NumberedStep` | include/xsl/asio/http/service.h:171-176 | ids handed out are non-zero and distinct for distinct entries, over every sequence of registrations |
| `Service.ServiceBuilder.AddRoute` | include/xsl/asio/http/service.h:125-128 | one registration more for the whole path, whatever entries and ids there were |
| `Service.ServiceBuilder.AddPrefix` | include/xsl/asio/http/service.h:136-139 | one registration more for the prefix |
| `Service.ServiceBuilder.Handle` | include/xsl/asio/http/service.h:61-80 | trie, ids and handler map together dispatch every request as the list of registrations says |
| `Sendv.Gather` | include/xsl/asio/io.h:358-365 | the vector built denotes exactly the octets not yet written, and is empty if and only if there are none |
| `Sendv.Advance` | include/xsl/asio/io.h:367-373 | the position moved on stands for the octets written, past every finished and every empty chunk |
| `Sendv.WholeOrErrorExactly` | include/xsl/asio/io.h:337-339 | a transfer is written as a whole or reports an error if and only if no write takes nothing before that many octets are taken |
| `Sendv.Broken` | include/xsl/asio/io.h:357-384 | the first answer that is not progress ends a transfer with exactly the octets taken by then: without an error when a write took nothing, with NotConnected when a wait is given up, with the write's own error when it failed |
| `Sendv.Through` | include/xsl/asio/io.h:357-384 | without such an answer all is taken, and no answer more is used than it needs |
| `Sendv.Send` | include/xsl/asio/io.h:347-385 | for every script of partial writes, waits and errors what was taken is the first `written` octets of the chunks, and number and error are those of the transfer |
| `Sendv.WriteSpan` | include/xsl/asio/io.h:281-319 | the same of `send` with one chunk, where nothing taken at all is reported as a lost connection |
| `Response.KeptIsFirst` | include/xsl/asio/http/response.h:92-109 | over any history of insertions an entry is kept if and only if it is the first with its key |
| `Response.KeptInOrder` | include/xsl/asio/http/response.h:92-109 | and what is kept was inserted in that order |
| `Response.PlacedExactly` | include/xsl/asio/http/response.h:121-130 | where every entry is listed: the first eight with a key of at most 40 and a value of at most 64 octets come first, each in its turn, and then the others |
| `Response.SmallHeaderMap.InOrder` | include/xsl/asio/http/response.h:121-130 | every entry kept is rendered at that place, and there are no others |
| `Response.HasInParts` | include/xsl/asio/http/response.h:111-119 | a key is kept if and only if the inline slots or the overflow have it |
| `Response.SmallHeaderMap.Emplace` | include/xsl/asio/http/response.h:92-109 | inserts if and only if the key was never inserted before, inline while there is a slot and the entry is small |
| `Response.SmallHeaderMap.Contains` | include/xsl/asio/http/response.h:111-119 | true if and only if the key was ever inserted |
| `Response.ResponsePart.ToString` | src/asio/http/response.cpp:34-57 | the head, with the server's name unless a header gives it |
| `Response.ResponsePart.RenderHead` | src/asio/http/response.cpp:58-80 | the same head if and only if it fits the buffer, else nothing |
| `Response.SendTo` | include/xsl/asio/http/response.h:195-222 | what was taken of head and body in one transfer, or in two, and the error, for every script |
| `Response.HeadBreaks` | include/xsl/asio/http/response.h:210-214 | when the head's write breaks off its error is the one reported and the body is not written; with no octet taken it is a lost connection, and without an error the body follows |
| `Response.HeadComesThrough` | include/xsl/asio/http/response.h:210-214 | when it does not, all of the head is taken and the body follows |
| `Response.PrefixExactly` | include/xsl/asio/http/response.h:207-215 | what two writes sent is a prefix of head and body, whatever they hold, if and only if all of the head or nothing of the body was taken |
| `Response.GapExactly` | include/xsl/asio/http/response.h:207-215 | otherwise a write took nothing after some but not all of the head, and the body's write took something; and whenever that is so |
| `Response.GapRun` | include/xsl/asio/http/response.h:207-215 | a run with such a gap and without an error |
| `ResponseParse.ResponseReads` | src/asio/http/response.cpp:58-80 | a rendered head that is read back, its first line cut at its first two spaces, gives version, code and message, whenever neither of the first two has a space; exactly the headers, and the server's own name under `Server` if none of them is called so; and ends where the body begins |
| `ResponseParse.CleanExactly` | include/xsl/net/http/msg.h:44-57 | a header that is written reads back if and only if it fits a block as one line, has no colon in its key and no space before its value |
| `ResponseParse.LastLineCounts` | include/xsl/net/http/msg.h:56-56 | of header lines with the same key the last one counts, and no key is read that has no line |
| `ResponseParse.CollectsAll` | include/xsl/net/http/msg.h:56-56 | with every key once the map that is read is exactly the entries that were rendered |
| `ThreadPool.EveryRun` | src/coro/core/executor.cpp:52-92 | in every run of a pool of any size each scheduled task is queued, running or done and only one of these, tasks start in order, workers exit only from a stopped pool with an empty queue, a pool with workers leaves no task with all of them asleep and no notification pending, and only a stop broadcasts |
| `ThreadPool.LifeOfPool` | src/coro/core/executor.cpp:52-92 | a pool of any number of workers but 0, from its start, whatever is scheduled until it is stopped: once all workers keep getting turns and the broadcast is delivered, every worker is gone, the queue is empty and exactly the tasks handed over before the stop are done, each once, within three stretches for each task and two for each worker |
| `ThreadPool.TakenExactly` | src/coro/core/executor.cpp:71-92 | in every run a pool is stopped if and only if there was a stop, and the tasks taken are those scheduled before it |
| `ThreadPool.EveryTaskIsDone` | src/coro/core/executor.cpp:52-92 | in a pool that has workers no task is left behind, stopped or not: task number t is done, once, within 3t+4 rounds in which every worker gets a turn and notifications are delivered, whatever else is scheduled meanwhile |
| `ThreadPool.OneNotificationEach` | src/coro/core/executor.cpp:86-92 | in every run each task sends one notification, which wakes one worker, finds nobody asleep or is still to come |
| `ThreadPool.WakesExactly` | src/coro/core/executor.cpp:58-64 | a sleeping worker wakes up if and only if it is notified, or all are, or for no reason |
| `ThreadPool.NoReasonNoHarm` | src/coro/core/executor.cpp:58-64 | a worker that woke up for no reason takes the oldest task, or with none sleeps again and leaves the pool as it was |
| `ThreadPool.StoppedPoolDrains` | src/coro/core/executor.cpp:56-84 | from any state in which it is stopped, every run in which all workers keep getting turns and the broadcast is delivered brings the pool to its end with every scheduled task done |
| `ThreadPool.FairDrains` | src/coro/core/executor.cpp:56-84 | every stretch of a run with a turn for each worker and the broadcast in it, in any order and with anything else between, brings a stopped pool closer to its end |
| `ThreadPool.AwakeStepDrains` | src/coro/core/executor.cpp:56-68 | once the pool is stopped every step of a worker that is awake brings it closer to its end |
| `ThreadPool.StepAttends` | src/coro/core/executor.cpp:58-92 | every step keeps somebody who is going to look at a queue that is not empty |

## Left out

- Widths: counters, sizes and ids are unbounded, except that `ceil2pow2` is modelled at a width; it is modelled for unsigned types, which is how it is used.
- Memory orders: the C++ memory model is not modelled, atomic operations are sequentially consistent.
- DnsCompressor.DnCompressor.Prepare: asks that the search comes back, exactly when it does being `SearchReturnsExactly`; also that the name has at most 127 labels and stored names at most 128, at distances below 0x4000, because the code fills fixed arrays without a check and asserts the distance.
- DnsCompressor.DnCompressor.Compress: asks that the suffix of the prepared name is one of its own. When a name has been prepared and not written, the next search starts from its suffix and can keep it (`Taken`); what is then written is not modelled.
- DnsMessage.WriteNames: asks that the first name stands at the base and is not the root, because names are lost otherwise (`FirstNameNotAtBase`, `EndlessSearch`, `WrittenAsAnotherName`).
- DnsDecompressor.DnDecompressor.DecompressAt: asks that the name can be read inside the message with pointers going backwards and that its text fits the 255-octet buffer, because the code does not check either.
- The table of stored names is a bounded sequence and not an array with a count.
- DNS header, record and question fields: fixed layouts without a protocol.
- `split` of a queue into its two ends, moving a queue: ownership only.
- Coroutine frames, executors' dispatch and `AwaiterWrapper`: a resume is one step of the consumer.
- `UnsafeSignal`: the same machine on one thread.
- The request line beyond its framing: `std::regex` and percent decoding are an arbitrary verdict on the line, which is kept as one view instead of one for each field.
- HttpMessage.View: names a block by its place in the chain where the source has a pointer; places change only on entry of a read, when no view is live.
- The trie's nodes are values inside their parent's map, as in the source; adding an entry in place is modelled as replacing the root.
- `set_status_handler` and the running of handlers: a map and a call.
- Runs in which a write says "not now" for ever.
- A response body given as a callback, files and `sendfile`: foreign code.
- `RequestPartBuilder::append` and `io::Buffer::write` for data longer than a block.
- Joining and detaching of threads in the pool's destructor.
- Sockets, epoll, TLS and logging: input and output.
