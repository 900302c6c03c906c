# Verification of the HTTP, shared-memory and coroutine libraries

This project models four parts of the repository and proves what they keep over all inputs and all
runs. `dafny verify dfyconfig.toml` checks everything.

**HTTP messages** (`Text`, `Numbers`, `Words`, `Message`, `NormalForm`, `Streaming`,
`ResponceStreaming`, `Grammar`, `MessageReader`, `PartialParse`). The parser and printer of requests
and responses, the dialect of RFC 7230 (sections 3.1.1, 3.1.2, 3.2 and 3.3.2) that `message.cpp`
implements. A stage ends in `Ok`, in one of the two exceptions with its text, or in `Undefined`
where the code calls `remove_prefix(2)` on a shorter view. `Message` holds the stages as functions;
`MessageReader` holds the code's own form, methods that shorten a cursor in place and message
objects whose fields are assigned stage by stage, each tied to those functions. `Grammar` writes
down which texts are accepted, as padded lines of characters, without any stage of the parser;
`PartialParse` says what is left in an object when its parser throws. The table of header names is a
parameter of the functions and theorems; the objects use the two tables of the code.

**Shared memory** (`Products`, `Counting`, `Binary32`, `BlockCount`, `BlockHeap`, `ShAlloc`,
`SharedMap`, `MapHistory`). The block allocator: the block count through a binary32 quotient (IEEE
754-2008, section 4.3.1), the first-fit table in an array of '0' and '1', a ghost ledger of live
allocations, the layout of the mapping, the semaphore protocol between processes, and what their
answers say about the map.

**The server** (`Connection`, `ConnectionRuns`, `EventEffects`, `Service`, `ServiceResults`,
`PlaceReuse`, `ServerRuns`, `ServiceSamples`, `HttpServer`). One connection under epoll events with
partial reads and writes, and the containers of the service: places, queue of closed places, list
ordered by activity. `HttpServer` holds the objects; `Connection` and `Service` hold the step
functions the objects are tied to.

**Coroutines** (`Coroutine`, `CorWorker`, `CorServer`). The pool of routines on one thread, the
worker whose routine is suspended at its yields, and the server of any number of connections, each
with its routine, over one pool.

## Properties that fail, and exactly when

- A cut message is not always waited for. `Streaming.CutVerdictExact` and
  `ResponceStreaming.ResponceCutExact` give the outcome of every cut;
  `Streaming.FalseAcceptanceExact` and `ResponceStreaming.FalseResponceExact` say when a cut message
  is taken for a whole one, and `Streaming.TruncatedRequestAccepted` shows one. A test of the
  repository (`6.http/tests/parsertest.cpp`) gives `Host` cut after two letters and names the
  exception it has in mind, but the code accepts that text.
- The float block count is exact for every block size up to 2^24 bytes and for no larger limit
  (`BlockCount.ExactLimit`), so that the blocks of a request hold its elements exactly up to that
  limit (`ShAlloc.ElementsHeldExactly`). Live allocations keep their bytes apart in every run, for
  every block size, exactly up to the same limit (`ShAlloc.MemorySafeExactly`); `ShAlloc.OverlapRun`
  is a run of two requests that share a byte.
- A response can be overwritten before it is written. That happens exactly when a further whole
  request is read first, which takes a kept-alive connection (`ConnectionRuns.OverwriteExact`,
  `WireIsResponses`, `PipeliningOverwrites`). The coroutine worker never does it
  (`CorWorker.RoutinesNeverOverwrite`).
- A connection can be closed with a part of its response unsent. That happens exactly when reading
  closes it while a response is being written, or a write fails (`ConnectionRuns.EarlyCloseExact`);
  a kept-alive connection that sends a malformed further request does it
  (`ConnectionRuns.BadRequestClosesEarly`).
- A sweep over timed-out connections is not a full scan. For all limits it misses a connection
  exactly when that one stands behind one that is not due (`ServiceResults.SweepIsFullScan`). With
  equal limits the one in front must be closed already (`ServiceResults.OneLimitScan`); with the
  defaults, 20 and 60 seconds, an idle kept-alive connection hides a plain one
  (`ServiceSamples.KeepAliveHidesDue`).
- Reusing a closed place is undefined when its list node is gone. In every reached table that is so
  exactly when the first closed place was closed by a sweep and not reused since, and the list is
  not empty (`PlaceReuse.ReuseIsUndefinedExactly`); `ServiceSamples.DanglingAfterSweep` is a run to
  such a table.
- `7.cor/README.md` asks that a timeout free the coroutine. No routine that the worker starts is
  ever finished, whether its connection times out, is closed, or is kept alive, so the pool stays
  empty and every start allocates (`CorServer.EveryRoutineLeaks`, `TimeoutFreesNothing`).

## Assumptions

The conversions of `size_t` to `float` and the division round to nearest, ties to even. The clock
does not go back, and one sweep uses one reading of it. epoll reports only armed directions besides
errors and hang-ups, and its calls succeed. Socket calls end in bytes, end of file, would-block or a
bad descriptor, and a write to a non-empty buffer takes at least one byte or fails. An event, an
accept and a sweep are atomic, and no event comes for a closed connection of the coroutine server.
`sem_post` succeeds; `sem_wait` may fail. The listener answers with some response text. Processes
crash only outside the lock.

## Model

| member | source | states |
|---|---|---|
| Text.ReadTokenOf | 6.http/lib/message.cpp:14-27 | a token behind any blanks and in front of its stop is read back, and the cursor stands at the stop |
| Text.ReadTokenExtends | 6.http/lib/message.cpp:20-27 | text arriving behind the stop of a token changes neither the token nor where it ends |
| Numbers.StoulReads | 6.http/lib/message.cpp:163 | which strings `stoul` reads: white space, optional sign, longest digit run, ignored rest; no digits or too large fails, minus negates modulo 2^64 |
| Numbers.StoulOfDecimal | 6.http/lib/message.cpp:254 | printing a number and reading it back is the identity on the whole type |
| Numbers.ValueOfPlaces | 6.http/lib/message.cpp:163 | the value of a digit run: a digit counts its own value and ten times as much for every digit behind it |
| Words.FindInRangeDecides | 6.http/lib/message.cpp:73-98 | with text behind it exactly the prefixes of table words are found; at the end of the text a proper prefix asks for more and a whole word is found |
| Words.MethodsAreWords | 6.http/lib/message.cpp:29-35 | no method is the beginning of another one and all are plain words |
| Message.LineEndSurvives | 6.http/lib/message.cpp:125-146 | neither the token nor the blanks of a header line can run over its CRLF, so the second search for it succeeds |
| NormalForm.RequestImage | 6.http/lib/message.cpp:214-239 | every accepted request has a non-empty prefix of a method and of a version, a token target, distinct allowed header names, one-line values, and a body of the declared length |
| NormalForm.RequestRoundTrip | 6.http/lib/message.cpp:202-239 | parsing inverts printing on exactly the requests the parser can produce |
| NormalForm.RequestNormalForm | 6.http/lib/message.cpp:202-239 | every accepted text reprints to a text that parses to the same request |
| NormalForm.PrintRequestInjective | 6.http/lib/message.cpp:202-212 | two different well-formed requests print differently |
| NormalForm.HeadersImage | 6.http/lib/message.cpp:119-154 | the header loop produces only well-formed headers with distinct names |
| NormalForm.HeadersOfPrinted | 6.http/lib/message.cpp:119-154 | printed header lines are read one by one whatever follows |
| NormalForm.ResponceImage | 6.http/lib/message.cpp:263-295 | every accepted response has a version prefix, a code of at most 599, a one-line text that may be empty or hold a lone CR, and well-formed headers and body |
| NormalForm.ResponceRoundTrip | 6.http/lib/message.cpp:252-295 | parsing inverts printing on exactly the responses the parser can produce |
| NormalForm.ResponceNormalForm | 6.http/lib/message.cpp:252-295 | every accepted response reprints to a text that parses to the same response |
| NormalForm.CodeIsTruncated | 6.http/lib/message.cpp:270-282 | for everything that can stand for a status code, white space, sign, digits and ignored text: no digits or a number too large is rejected; otherwise its signed value modulo 2^16 counts, which waits for more below 60 at the end of the text, is rejected above 599, and is the code else |
| Streaming.StartLineExtends | 6.http/lib/message.cpp:214-234 | an accepted start line does not change when text arrives behind it |
| Streaming.HeadersExtend | 6.http/lib/message.cpp:119-154 | a header block that ended at its blank line does not change when text arrives behind it |
| Streaming.CompleteBlockDecides | 6.http/lib/message.cpp:156-178 | behind a complete block only the number of body bytes decides: too few wait, enough are accepted with the same start line and headers, too many are rejected |
| Streaming.CutInBlock | 6.http/lib/message.cpp:119-178 | the outcome of a header block cut anywhere: the complete lines count, and of a started line two characters are dropped and the rest is taken for the body |
| Streaming.CutProtocol | 6.http/lib/message.cpp:100-117 | the outcome of every cut of the protocol word and version |
| Streaming.CutVerdictExact | 6.http/lib/message.cpp:214-239 | the exact outcome, acceptance, either exception or undefined, of a canonical request cut at any position |
| Streaming.ResumableCutsWait | 6.http/lib/message.cpp:73-178 | a cut inside the method, inside protocol and version, behind the CRLF of the start line or a header line, or behind the blank line always waits for data |
| Streaming.FalseAcceptanceExact | 6.http/lib/message.cpp:149-178 | a cut request is accepted exactly when the cut falls two or more characters into a header line and the headers before ask for what is left |
| Streaming.TruncatedRequestAccepted | 6.http/lib/message.cpp:149-151 | such a cut of a well-formed request exists |
| ResponceStreaming.StatusLineExtends | 6.http/lib/message.cpp:263-290 | an accepted status line does not change when text arrives behind it |
| ResponceStreaming.CompleteStatusBlockDecides | 6.http/lib/message.cpp:263-295 | behind a complete block of a response only the number of body bytes decides |
| ResponceStreaming.ResponceCutExact | 6.http/lib/message.cpp:263-295 | the exact outcome of a canonical response cut at any position: within the status line it waits, except behind a whole version and the blank after it |
| ResponceStreaming.FalseResponceExact | 6.http/lib/message.cpp:149-178 | a cut response is accepted exactly when the cut falls two or more characters into a header line and the headers before ask for what is left |
| Grammar.RequestLanguage | 6.http/lib/message.cpp:214-239 | the exact language of requests: a text is accepted, as this request, if and only if it is a method beginning, a target and a protocol word beginning with a version, with any blanks, CR and one character, padded header lines of allowed and distinct names, and a tail whose body has the declared length |
| Grammar.ResponceLanguage | 6.http/lib/message.cpp:263-295 | the exact language of responses, with the status code that `stoul` reads in 16 bits |
| Grammar.BlockLanguage | 6.http/lib/message.cpp:119-178 | the exact language of header block and body, including the block that ends for want of a CRLF |
| Grammar.RequestLengthDecides | 6.http/lib/message.cpp:156-178 | the first header named Content-Length or Transfer-Encoding decides: no number is rejected, fewer bytes wait, as many are the body, more are rejected; without such a header there is no body |
| Grammar.ResponceLengthDecides | 6.http/lib/message.cpp:156-178 | the same for responses |
| Grammar.RequestRefused | 6.http/lib/message.cpp:129-141 | behind good header lines, a line whose first word is no allowed name with a colon, or a name that was there before, is rejected with the text of its error |
| Grammar.VerbRefused | 6.http/lib/message.cpp:219-220 | a first word that begins no method is rejected with that word as the text |
| Grammar.ProtocolRefused | 6.http/lib/message.cpp:100-117 | a word with another first letter is no protocol, and anything but the beginning of a version behind the protocol word is no version |
| Grammar.LineEndRefused | 6.http/lib/message.cpp:228-233 | anything but blanks and CR behind the version is rejected |
| Grammar.PrintedForms | 6.http/lib/message.cpp:202-262 | the printed texts, character by character |
| MessageReader.LeftStrip | 6.http/lib/message.cpp:14-18 | the loop leaves the cursor behind the leading blanks |
| MessageReader.TakeToken | 6.http/lib/message.cpp:20-27 | token and cursor are those of the stage |
| MessageReader.Mismatch | 6.http/lib/message.cpp:64-71 | the loop finds the length of the longest common prefix |
| MessageReader.ExpectToFindInRange | 6.http/lib/message.cpp:88-98 | the search loop ends like the stage, exceptions included |
| MessageReader.ParseProtocol | 6.http/lib/message.cpp:100-117 | outcome and cursor are those of the stage |
| MessageReader.ParseHeaders | 6.http/lib/message.cpp:119-154 | the loop over the cursor ends like the stage with the cursor where the stage stops, both exits included |
| MessageReader.ParseBody | 6.http/lib/message.cpp:156-178 | outcome of the stage |
| MessageReader.Request.Parse | 6.http/lib/message.cpp:214-239 | on success the fields are the parsed request; when it throws, exactly the stages before the throw have been assigned |
| MessageReader.Request.Str | 6.http/lib/message.cpp:202-212 | the loop appends the printed form |
| MessageReader.Responce.Parse | 6.http/lib/message.cpp:263-295 | the same for responses; the code is assigned before it is checked |
| MessageReader.Responce.Str | 6.http/lib/message.cpp:252-262 | the loop appends the printed form |
| PartialParse.VerbErrorKeepsAll | 6.http/lib/message.cpp:219-221 | a text that begins with no method leaves the object as it was |
| PartialParse.HeaderErrorKeepsHeaders | 6.http/lib/message.cpp:219-236 | behind a request line and good header lines, a refused header leaves the new start line with the old headers and body |
| PartialParse.BodyErrorKeepsBody | 6.http/lib/message.cpp:235-238 | a body that is refused or waited for leaves everything new but the body |
| PartialParse.ResponceBodyErrorKeepsBody | 6.http/lib/message.cpp:291-294 | the same for responses |
| PartialParse.CodeErrorKeepsWrongCode | 6.http/lib/message.cpp:270-282 | a status code above 599 is rejected and stays in the object, with the old text, headers and body |
| Binary32.RoundQuotientIsNearest | 4.shmem/include/shalloc.h:59 | the modelled quotient is the correctly rounded one: no number with a 24-bit significand is closer, ties have an even significand |
| BlockCount.BlocksExact | 4.shmem/include/shalloc.h:58-61 | up to 2^24 bytes the count is exact ceiling division, for every block size |
| BlockCount.FirstInexact | 4.shmem/include/shalloc.h:58-61 | 2^24 + 1 bytes in blocks of one byte are given 2^24 blocks |
| BlockCount.ExactLimit | 4.shmem/include/shalloc.h:58-61 | a limit on the bytes makes the count exact for all block sizes if and only if it is at most 2^24 |
| BlockCount.BlocksCover | 4.shmem/include/shalloc.h:58-61 | within the limit the blocks hold the bytes with less than one block to spare |
| BlockCount.OfNatIsNearest | 4.shmem/include/shalloc.h:59 | the conversion to `float` of every integer is a nearest number with a 24-bit significand |
| BlockCount.OfNatHasDigits | 4.shmem/include/shalloc.h:59 | the converted number has at most 24 binary digits, and on a tie the last one is zero |
| BlockCount.BlocksAreRoundedUp | 4.shmem/include/shalloc.h:58-61 | for every request, beyond the exact range too, the count is the rounded quotient of the converted numbers, rounded up |
| BlockHeap.FitFrom | 4.shmem/include/shalloc.h:63-71 | finds the first run of free blocks, and none only if there is none |
| BlockHeap.AllocateKeepsInv | 4.shmem/include/shalloc.h:37-45 | live regions stay in the arena and disjoint, and '1' stands exactly on them |
| BlockHeap.ReleaseKeepsInv | 4.shmem/include/shalloc.h:47-51 | the same for releasing any live region |
| BlockHeap.ReleaseUndoesAllocate | 4.shmem/include/shalloc.h:37-51 | releasing what was just allocated restores table and ledger |
| BlockHeap.AllocateTakesFirstFit | 4.shmem/include/shalloc.h:37-45 | in the table: the first run of enough zeros becomes ones, nothing else changes, and without such a run nothing does |
| BlockHeap.ReleaseFrees | 4.shmem/include/shalloc.h:47-51 | in the table: the blocks of the region given back become zeros, no other block changes, and the other allocations stay |
| BlockHeap.ReleaseMakesRoom | 4.shmem/include/shalloc.h:47-51 | as many blocks as were given back can be taken again |
| BlockHeap.NothingLeaks | 4.shmem/include/shalloc.h:37-51 | in every run what is live is what was granted and not given back, and when all was given back every block is free |
| BlockHeap.Run | 4.shmem/include/shalloc.h:37-51 | the invariant holds after every sequence of requests and releases |
| BlockHeap.FitIsAligned | 4.shmem/include/shalloc.h:63-71 | among regions of k blocks at multiples of k, first fit finds a multiple of k |
| BlockHeap.FitsIffSlotLeft | 4.shmem/include/shalloc.h:63-71 | then a request succeeds exactly when fewer than count / k regions are live |
| BlockHeap.UniformRunsNeverFragment | 4.shmem/include/shalloc.h:37-71 | requests of one size never fragment the arena, in every run and for any order of releases |
| ShAlloc.ShMemState.constructor | 4.shmem/include/shmap.h:57-63 | a new state has all blocks free and nothing live |
| ShAlloc.ShAlloc.Rebind | 4.shmem/include/shalloc.h:33-35 | an allocator for another element type shares the state |
| ShAlloc.ShAlloc.Allocate | 4.shmem/include/shalloc.h:37-45 | block size zero and a table without room throw and change nothing; otherwise the first fit is marked in place, recorded, and its address returned |
| ShAlloc.ShAlloc.Deallocate | 4.shmem/include/shalloc.h:47-51 | the block index is recovered from the pointer and only that allocation is cleared |
| ShAlloc.LiveMemoryIsSafe | 4.shmem/include/shalloc.h:37-61 | within the exact range no two live allocations share a byte and all lie in the arena |
| ShAlloc.OverlapRun | 4.shmem/include/shalloc.h:37-71 | two requests of a new state, of 2^24 + 1 bytes and of one byte, are granted 2^24 blocks and the block behind them |
| ShAlloc.GrantsOverlapBeyondRange | 4.shmem/include/shalloc.h:37-71 | in that run the two live allocations share a byte |
| ShAlloc.MemorySafeExactly | 4.shmem/include/shalloc.h:37-71 | a limit on the requested bytes keeps live allocations apart, in every run and for every block size, if and only if it is at most 2^24 |
| ShAlloc.ElementsHeldExactly | 4.shmem/include/shalloc.h:37-61 | a limit on the requested bytes makes the granted blocks hold all elements, for every size of blocks and elements, if and only if it is at most 2^24 |
| ShAlloc.WrappedRequest | 4.shmem/include/shalloc.h:40 | 2^32 elements of 2^32 bytes wrap around to a grant of no block at the start of the arena |
| SharedMap.ArenaIsMapped | 4.shmem/include/shmap.h:52-75 | what the allocator grants lies behind the headers and inside the mapping, and at the end of the arena only if the length does not wrap around |
| SharedMap.PartsTile | 4.shmem/include/shmap.h:52-75 | semaphore, allocator state, block table, map header and arena lie side by side, and the mapping is as long as all of them modulo 2^64 |
| SharedMap.EveryHistoryIsSequential | 4.shmem/include/shmap.h:83-117 | for any number of processes and every interleaving, failing waits included, semaphore plus holders is one, every answer, exceptions included, is that of the sequential map in lock order, and the shared map is its outcome |
| SharedMap.TakeKeepsInv | 4.shmem/lib/semlock.cpp:6-13 | every step of every process keeps mutual exclusion and that what a holder has loaded is current |
| MapHistory.EveryAnswerIsRight | 4.shmem/include/shmap.h:83-117 | in every interleaving each answer follows from the answers before it: a key is bound by the last successful insert or update that no erasure followed, insert succeeds exactly on an unbound key, update and `at` exactly on a bound one, erase and count tell whether it is, size counts the bound keys, a failed allocation changes nothing; and the shared map holds what is bound |
| MapHistory.EveryCallIsDoneOnce | 4.shmem/include/shmap.h:83-117 | in every interleaving each process finds its calls in the history, once and in its order, up to one that is pending, and gets the answer of its own |
| MapHistory.UndisturbedOperation | 4.shmem/lib/semlock.cpp:6-13 | an operation nobody disturbs takes the semaphore, answers what the history asks for, and gives the semaphore back |
| MapHistory.WaiterGetsIn | 4.shmem/lib/semlock.cpp:6-13 | in every reachable state a waiting process gets the semaphore at once, or when its holder has made at most three steps of its own |
| Connection.WorkKeepsInv | 6.http/lib/httpworker.cpp:39-82 | after every event an open connection is armed one-shot with its whole subscription, to write while bytes are left; sent, unsent and overwritten bytes add up to the responses |
| Connection.WriteKeepsOutput | 6.http/lib/httpworker.cpp:95-111 | the write loop keeps that sum and leaves everything else alone |
| EventEffects.EventExact | 6.http/lib/httpworker.cpp:39-145 | every field of a connection behind every event, from the bytes that arrived, the bytes that were taken and the parser: what is armed, read, written, asked and answered, and whether it is closed |
| EventEffects.KeepAliveIs | 6.http/lib/httpworker.cpp:16-27 | a connection stays exactly if its first Connection header has Keep-Alive in it |
| EventEffects.ArmedExactly | 6.http/lib/httpworker.cpp:39-82 | in every run in which the listener answers with some text, an open connection is armed to write exactly while bytes are left to write, and to read exactly if none are or it is kept alive |
| EventEffects.ResponseGetsOut | 6.http/lib/httpworker.cpp:69-111 | however many events and writes it takes, when the kernel has taken all bytes of a response they are on the wire in order, and the connection waits for the next request or is closed |
| ConnectionRuns.WriteInPieces | 5.net/lib/bufconnection.cpp:29-34 | however a buffer is taken, the same bytes go out in order; when the loop succeeds, waits and closes |
| ConnectionRuns.ClosesExactly | 6.http/lib/httpworker.cpp:45-80 | exactly when an event closes the connection |
| ConnectionRuns.EarlyCloseExact | 6.http/lib/httpworker.cpp:39-82 | an event closes a connection with bytes unsent exactly when reading closes it while a response is being written or a write fails first; every other close has the whole response sent |
| ConnectionRuns.BadRequestClosesEarly | 6.http/lib/httpworker.cpp:113-145 | a kept-alive connection that is still being written to and sends an unknown method is such a close |
| ConnectionRuns.NoEarlyClose | 6.http/lib/httpworker.cpp:69-76 | an output event that closes without a failed write closes only after the whole response is out |
| ConnectionRuns.OverwriteExact | 6.http/lib/httpconnection.cpp:9-11 | a response is overwritten exactly when a further whole request is read before it is out, and then the connection is kept alive |
| ConnectionRuns.WireIsResponses | 6.http/lib/httpworker.cpp:39-82 | over a whole run in which the parser is defined the peer gets the responses in order exactly when no request overtakes a response |
| ConnectionRuns.PipeliningOverwrites | 6.http/lib/httpworker.cpp:61-68 | a run of two kept-alive requests that loses a response |
| ConnectionRuns.DeliveryInPieces | 6.http/lib/httpworker.cpp:113-145 | if the parser waits after every piece but the last, the listener is asked once, on the last piece, with the request of the whole text |
| ConnectionRuns.DeliveryBehindBlock | 6.http/lib/httpworker.cpp:113-145 | that holds for every split behind the header block and every size of reads |
| ConnectionRuns.DeliveryOfCanonical | 6.http/lib/httpworker.cpp:113-145 | it holds for a canonical request split at resumable points |
| Service.AcceptKeepsInv | 6.http/lib/httpservice.cpp:111-140 | adding or reusing a place keeps conservation of places, the activity list and its order |
| Service.EventKeepsInv | 6.http/lib/httpworker.cpp:45-89 | so does every event, whether or not it closes the connection |
| Service.DumpKeepsInv | 6.http/lib/httpservice.cpp:92-109 | so does a sweep |
| Service.RunsKeepInv | 6.http/lib/httpservice.cpp:92-158 | in every defined run each open place is listed once under its own iterator, start times never decrease along the list, and a place is queued once exactly when it is closed |
| ServiceResults.ConnectionsSize | 6.http/lib/httpservice.cpp:37-40 | the difference of the container sizes is the number of open connections |
| ServiceResults.ArrivalOpensOne | 6.http/lib/httpservice.cpp:111-140 | an arrival opens one connection at the end of the list, changes no other, and adds a place only when none is closed |
| ServiceResults.SweepClosesDuePrefix | 6.http/lib/httpservice.cpp:92-109 | a sweep closes, queues and removes exactly the longest due prefix of the list and touches nothing else |
| ServiceResults.SweepClosesExactly | 6.http/lib/httpservice.cpp:92-109 | a sweep closes exactly the listed connections that are idle for longer than the limit of their kind, as are all before them |
| ServiceResults.SweepIsFullScan | 6.http/lib/httpservice.cpp:92-158 | for all limits a due connection is left behind exactly when one stands behind a place that is not due |
| ServiceResults.OneLimitScan | 6.http/lib/httpservice.cpp:146-158 | with one limit, exactly when one stands behind a closed place |
| PlaceReuse.EventLosesNone | 6.http/lib/httpworker.cpp:39-89 | an event, closing or not, changes no place's having its node |
| PlaceReuse.SweepLosesDue | 6.http/lib/httpservice.cpp:92-109 | after a sweep the places without a node are those before it and exactly those of the due prefix |
| PlaceReuse.ArrivalGivesNode | 6.http/lib/httpservice.cpp:111-140 | a defined arrival gives the place it takes a node and changes that of no other |
| PlaceReuse.OnlySweepsLoseNodes | 6.http/lib/httpservice.cpp:92-140 | for every action, whatever was swept before: the places whose iterator dangles are the swept ones that were not reused since |
| PlaceReuse.ReuseIsUndefinedExactly | 6.http/lib/httpservice.cpp:123-140 | in every reached table the next arrival splices a removed node exactly when the first closed place was swept and not reused since, and the list is not empty |
| ServerRuns.EveryPlaceLivesItsOwnLife | 6.http/lib/httpservice.cpp:92-158 | in every reached table every place holds exactly what its own events, and a sweep, have made of a fresh connection, whatever happens at the other places; and it has sent its responses in order exactly if no request overtook one |
| ServerRuns.PlacesQueueInOrder | 6.http/lib/httpservice.cpp:123-140 | in every run places are reused in the order in which they were closed |
| ServiceSamples.DanglingAfterSweep | 6.http/lib/httpservice.cpp:132-134 | a run after which the next arrival would splice a removed node |
| ServiceSamples.KeepAliveHidesDue | 6.http/include/iTimed.h:11-12 | with the default limits a run leads to a table without a closed place in which a sweep leaves a due connection |
| HttpServer.HttpConnection.ReadToBuffer | 5.net/lib/bufconnection.cpp:21-27 | appends what was read; the other outcomes leave the buffer alone |
| HttpServer.HttpConnection.WriteFromBuffer | 5.net/lib/bufconnection.cpp:29-34 | removes exactly what was taken from the front |
| HttpServer.HttpService.ReadRequest | 6.http/lib/httpworker.cpp:113-145 | the read loop, its closes and its re-arming are the step of Connection |
| HttpServer.HttpService.WriteResponce | 6.http/lib/httpworker.cpp:95-111 | the write loop is the step of Connection |
| HttpServer.HttpService.CloseClient | 6.http/lib/httpworker.cpp:159-167 | only an open socket is queued and closed |
| HttpServer.HttpService.ShiftToBack | 6.http/lib/httpworker.cpp:29-33 | the node moves to the end and stays the place's own |
| HttpServer.HttpService.HandleEvent | 6.http/lib/httpworker.cpp:45-80 | an event changes the tables exactly as the step of Service says |
| HttpServer.HttpService.EmplaceConnection | 6.http/lib/httpservice.cpp:111-121 | an arrival changes the tables exactly as the step of Service says |
| HttpServer.HttpService.TryReplaceClosed | 6.http/lib/httpservice.cpp:123-140 | a closed place is reused exactly when there is one |
| HttpServer.HttpService.DumpTimedOutConnections | 6.http/lib/httpservice.cpp:92-109 | the loop ends and does the sweep of Service |
| Coroutine.PoolSizeIsPeakLoad | 7.cor/lib/coroutine.cpp:73-84 | the number of routines ever allocated is the peak of the unfinished ones, in every run |
| Coroutine.ApplyKeepsInv | 7.cor/lib/coroutine.cpp:17-34 | a routine is in the pool, once, exactly when it is finished |
| Coroutine.CreateExact | 7.cor/lib/coroutine.cpp:73-84 | what is handed out is the routine that finished first, or a new one, ready to run and no longer pooled; nothing else changes |
| Coroutine.ResumeExact | 7.cor/lib/coroutine.cpp:86-137 | for every stage and everything the body does: the new stage, the pool, the current routine and the answer of a resume |
| Coroutine.OwnResumesCount | 7.cor/lib/coroutine.cpp:86-113 | a routine advances by its own resumes only, whatever else is created or resumed; one whose body yields k times stays inside it for k of them and is behind it, unfinished, after k + 1 |
| Coroutine.EarlierResumesReturnTrue | 7.cor/lib/coroutine.cpp:86-105 | the first k + 1 return true, except that the end of a throwing body rethrows |
| Coroutine.LastResumeFinishes | 7.cor/lib/coroutine.cpp:121-137 | resume k + 2 finishes and pools the routine, reports a thrown exception again, and further ones return false and change nothing |
| Coroutine.MainOrdinator.CreateRoutine | 7.cor/lib/coroutine.cpp:73-84 | the front of the pool is reset and reused, or a routine is added |
| Coroutine.MainOrdinator.ResumeRoutine | 7.cor/lib/coroutine.cpp:86-105 | outcome and pool are those of the step |
| CorWorker.ServeKeepsInv | 7.cor/lib/corworker.cpp:56-164 | between events an open connection is armed for what its routine waits for, a routine has returned only from a closed one, and no response is overwritten |
| EventEffects.ServeExact | 7.cor/lib/corworker.cpp:56-164 | where the routine stands and every field of its connection behind every event: bytes read, request and answer, bytes written, closed, idle again or waiting |
| CorWorker.RoutinesNeverOverwrite | 7.cor/lib/corworker.cpp:38-81 | over every run the peer gets the responses in order |
| CorServer.WokenAttached | 7.cor/lib/corworker.cpp:44-51 | an event of one connection leaves every open connection with a routine exactly while it is being served, its own and standing inside its body |
| CorServer.TakeKeepsInv | 7.cor/lib/corworker.cpp:38-81 | so does every accepted connection, reused place, event and timeout, and none finishes a routine |
| CorServer.EventRunsOneRoutine | 7.cor/lib/corworker.cpp:44-51 | an event runs one routine, that of its connection or a new one, which then stands inside its body exactly if the connection is still being served |
| CorServer.EveryClientIsServedAlone | 7.cor/lib/corworker.cpp:38-81 | in every run each place holds exactly the client that its own events, and at most one timeout, have made of a fresh one |
| CorServer.EveryRoutineLeaks | 7.cor/lib/corworker.cpp:43-81 | in every run of any number of interleaved connections no routine is ever finished, the pool is empty, and as many are allocated as were started |
| CorServer.TwoVisitsTwoRoutines | 7.cor/lib/corworker.cpp:43-61 | a run of two visits to one place that allocates two routines and pools none |
| CorServer.TimeoutFreesNothing | 7.cor/lib/corservice.cpp:106-118 | a timeout closes the connection and leaves its routine inside its body, outside the pool |

## Left out

- Sockets, `epoll_ctl`, `mmap`, `fork` and `ucontext`: only their outcomes are modelled.
- Binary search over the header tables is membership, which it is on the sorted tables.
- `std::string` and `std::string_view` searches are functions with the result they are specified to have; only the loops the repository writes are loops.
- Exceptions other than the modelled ones, such as a failed `std::string` allocation; a block count that does not fit `size_t` is excluded by a precondition.
- The cap of 128 bytes on one read: a read may bring any number of bytes, so every smaller size is covered.
- Removal of the list node at the end of `close_if_timed_out` is part of the same step; races between the two locks are not modelled.
- ShAlloc.ShAlloc.Deallocate: the caller names the live allocation it gives back as a ghost argument, because the code has no record of them.
- Service.RunsKeepInv: runs stop before an arrival that would splice a removed node, because the code is undefined there; PlaceReuse.ReuseIsUndefinedExactly says when.
- Coroutine.MainOrdinator.ResumeRoutine: routines are values in the pool and each resume is given what the body does in it, a yield, a return or an exception, because a context switch has no counterpart; one thread and no nested resume.
- CorWorker: a routine suspended at its yields is a step function on values, because a method cannot stop in the middle.
- CorServer: a timeout may strike any connection at any time, so its list of activity is left to Service; the server has one worker, and listeners that throw are left out.
- SharedMap.EveryHistoryIsSequential: the map is abstract with integer keys and values, and an operation under the lock is a load and a store.
- The process, logging and blocking connection libraries, `5.net/lib/service.cpp` and the table of status texts: thin wrappers and output, which would only add easy members.
