# GNUspool in Dafny

A model of the parts of GNUspool whose correctness is hardest to see from the code, with proofs
of what they promise.  GNUspool is a print spooler whose hosts share their jobs and printers.
The model has six independent parts:

1. **Who prints a job** (`Assignment`, `AssignmentSafety`, `AssignmentTheorems`, `AssignmentStubs`,
   `AssignmentPrinters`).  Any number of hosts, printers and jobs, with one FIFO channel for each ordered pair of hosts.  Each handler
   of the scheduler is a function on the state of the network, and a run is any sequence of
   steps.  The invariant is a token for each job; it is free at the owner, with a printer, in a
   grant, in a message back, or stranded at a host that no longer wanted it.
2. **The job and printer segments** (`Chains`, `Segments`, `JobLists`, `JobTable`, `JobPlaces`,
   `PrinterTable`, `HostClear`) and the scheduler's choice (`SelectJobs`).  Slots in arrays hold a
   doubly linked queue, a free chain and hash chains.  The classes `JobSeg` and `PtrSeg` change
   them in place; their `Valid()` says that queue and free chain share out the slots, and that
   every queued slot is on exactly the chains that its keys hash to.
3. **Pages** (`PageSplit`, `PageDelimiters`, `PagePrint`, `PageRuns`).  The streaming matcher that
   finds page ends when a job is submitted and again when it is printed, the two loops that print
   page ranges, and aborted and resumed prints.
4. **Suffix patterns** (`SuffixPattern`, `SuffixText`).  The backtracking matcher of setup files, with its
   three-valued answer and its capture.
5. **IPP** (`FileBuf`, `Ipp`, `IppWire`, `IppRoundTrip`, `IppServer`).  The encoding of sections 3.1 to 3.5 of
   RFC 8010, the buffers it is read through, plain or in the chunked coding of section 4.1 of RFC
   7230, and what becomes of requests that the server reads through them.
6. **Connections** (`ConnTable`).  Hash chains, two lists from which the last entry is swapped into
   a hole, and a counter, changed while loops run along them.

Operations that change state in the source are methods of classes or methods with loops, each
proved against a function of the old state; what the source promises is proved about those
functions.  `hide` statements only keep definitions out of a proof that does not need them.

## What the proofs found

- A granted job can be lost for good.  `confirm_print` returns without an answer when the host that
  proposed no longer wants the job: when its printer is not in SPP_WAIT, or is not selected and
  proposed, or when its copy of the job is no longer marked proposed (src/sh_plist.c:1181-1190).
  That is the only way: a step loses a job if and only if it delivers such a grant (`LostByRefusal`),
  and a run has lost one if and only if one of its steps was of that kind (`LostInRun`).  The job
  then stays assigned to nobody (`LostForever`); four steps can lead there (`GrantCanBeLost`).  The
  protocol is safe, not live.
- A stub can stay marked assigned when the job is free.  SO_ASSIGN from a host that printed the job and
  SJ_JUNASSIGNED from its owner come over different connections.  If a third host reads them in the wrong
  order, it shows the job assigned until the next release, and selects no printer for it
  (src/sh_queue.c:1034-1073; eight steps do it, `StubStaysAssigned`).  That is the only way: in every run,
  with nothing about the job under way between its owner and a host, that host shows a free job assigned
  if and only if it has read an SO_ASSIGN from a third host since the last release (`StubFollowsOwner`).
- A request in chunks goes wrong if an attribute of it has two values, as `requested-attributes` has
  in practice.  `parseattr` peeks at three bytes and then calls `skip`, which `httpfilebuf` does not
  override: the payload stays where it is, part of the chunked coding is thrown away, and the tag of
  the value and a zero are read as its length, 256 times the tag (cupspy/ipp.py:479-486,
  cupspy/filebuf.py:92-94; `GetFurther`, `Skip`).  `ChunkedRequest` says for input of any length: a
  request without second values is read, document and all; for another one reading fails if the
  first second value has a tag of fixed size or there is less input than 256 times its tag; and if it
  does not fail, then that value is taken from that many bytes, the first of them zero.  So a request
  is read as it was sent if and only if it has no second values, except where that first one is a
  string of exactly 256 times its tag bytes that starts with a zero, or a string with its language
  that is short enough to be found in such bytes (`Mistakable`, which is just that by
  `MistakableMeans`).  `TwoValuesTwice` sends the same message plain, where it is read, and in one chunk,
  where it is not.
- On a plain connection `getrem` returns what is buffered and leaves it in the buffer, with the pointer
  at its start (cupspy/filebuf.py:104-109).  After a request some of whose document was buffered,
  and only after such a one, all that the buffer holds is read again, as the next request of a
  connection that is kept alive: the end of what has come in, from some place before the document
  on, possibly from the HTTP header (`PlainRequest`; `ReadTwice` for a message that came in one
  piece).
- The fallback of the page matcher never tries the first delimiter character alone
  (src/spr.c:613-624), so that it misses page ends for, among others, every delimiter whose first
  two characters differ.  `CompleteIffSafe` gives the exact condition; a loop that went on to the
  first character would be complete for every delimiter (`CompleteIfAllTried`).
- A job cut at its page limit is stored without the last character that its size counts
  (src/spr.c:600-605).  `CopyOut` says exactly when: when the part of the job within the size limit has
  more page ends than the page limit (`CutShort`); `CutShortExample` does it with two line feeds.  The
  printing loops then meet the end of the file on the last page (`StoredCut`, `ContJ`).  The form-feed
  branch stores the character (`CopyOutFF`).
- `contj_ff` prints the forced first page of a job that does not reach the first page to print;
  `contj` prints nothing (`FormFeedsAgree`, `ForcedPastTheJob`).  What the two loops add behind a
  job differs too, for instance when all its pages are skipped; `PaddingsAgree` has the exact condition.
- A resolution is generated from a number and parsed into a character, so that a parsed message
  with one cannot be generated again (`ComesBack`, `FieldWritten`).
- `chgptr` looks for a printer of the same name only if the changed one is not SPP_LOCALNET
  (src/sh_plist.c:856), where `addptr` always does.  Exactly then two local printers can come to have
  the same name (`ChgPtr`; `SameName` does it).
- `find_connected` says in its comment that it skips connections marked as clients; its loop skips
  the others (src/sh_network.c:243-252).  The model follows the code: a second connection from
  the server of a host is accepted, and one from a host with a marked client is turned away
  (`NewHost`; `TwoServers` makes two connections).
- The comments on `free_rest` say that new slots go on the end of the free chain; the code puts
  them in front (`FreeRest`).

## Model

| member | source | states |
|---|---|---|
| AssignmentSafety.NextKeeps | src/sh_plist.c:1125-1270 | every step of every handler keeps the token invariant, for every job at once |
| AssignmentTheorems.RunKeeps | src/sh_plist.c:1103-1524 | so does every run |
| AssignmentSafety.StepKeeps | src/sh_plist.c:1103-1524 | for one job, which token follows from which step: TokenAfter says where it goes, and a stranded token stays where it is |
| AssignmentSafety.Frame | src/sh_network.c:1695-1739 | a step that is about other jobs, and reads or sends only messages about them, keeps the invariant of a job |
| AssignmentTheorems.OneHolder | src/sh_plist.c:1125-1270 | in every reachable state a print at any host, a grant under way and a job on its way back exclude each other and themselves: at most one printer anywhere prints a job |
| AssignmentTheorems.OwnerKnows | src/sh_plist.c:1125-1143 | whoever may print a job, its owner has it marked assigned to that very host |
| AssignmentTheorems.CopiesAreThere | src/sh_plist.c:1469-1473 | whoever prints shows the owner's count and it is at least one, so that spq_cps never underflows; whoever proposes shows at least one copy |
| AssignmentTheorems.GrantCarriesCount | src/sh_plist.c:1192-1204 | when a host reads a grant its stub shows the owner's count |
| AssignmentTheorems.CopiesConserved | src/sh_queue.c:1078-1152 | copies printed, copies dropped and copies left at the owner add up to those asked for, whenever the job is not on its way back |
| AssignmentTheorems.EveryCopyPrinted | src/sh_plist.c:1443-1489 | in a run without error results and one-copy flags nothing is dropped |
| AssignmentTheorems.LostByRefusal | src/sh_plist.c:1181-1190 | a step loses a job if and only if it delivers a grant to a host that no longer wants it |
| AssignmentTheorems.LostInRun | src/sh_plist.c:1103-1524 | after any run a job is lost if and only if one of its steps was such a delivery |
| AssignmentTheorems.LostForever | src/sh_plist.c:1186-1190 | a job that is marked assigned and held by nobody stays so in every run, and is printed no more |
| AssignmentTheorems.GrantCanBeLost | src/sh_plist.c:1181-1190 | four steps that lose a job are possible for every job, foreign host and printer that may take it |
| AssignmentStubs.StubFollowsOwner | src/sh_queue.c:1015-1152 | in every run, when the owner shows the job free and nothing about it is under way between the two, a stub shows it free, with the owner's count, if and only if it has read no SO_ASSIGN from a third host since the last release |
| AssignmentStubs.MayBeSelected | src/sh_plist.c:1294-1352 | then every waiting printer there that is neither taken nor private may be selected for the job, under the same condition |
| AssignmentStubs.ReleaseFrees | src/sh_queue.c:1134-1152 | a release with copies left lets any such printer of the host that reads it be selected |
| AssignmentStubs.StubStaysAssigned | src/sh_queue.c:1034-1073 | eight steps after which the job is free at its owner, nothing is under way, and a third host shows it assigned |
| AssignmentPrinters.PrintersInRun | src/sh_plist.c:1103-1524 | in every run each printer is idle, proposing or printing, and a private one neither proposes itself nor prints jobs of others |
| AssignmentPrinters.Starts | src/sh_plist.c:1170-1270 | a step makes a printer start on a job if and only if it waits, and is picked for a free job of its own host or reads the grant that it still wants |
| AssignmentPrinters.Answered | src/sh_plist.c:1181-1216 | a waiting printer that reads the owner's answer prints the job or is free for any other |
| AssignmentPrinters.NotPickedAgain | src/sh_plist.c:1206-1216 | a refused job is not picked again by any printer of the host before it is released |
| AssignmentPrinters.PicksWhenWaiting | src/sh_plist.c:1294-1295 | a printer picks jobs exactly in the state SPP_WAIT, as its process has set it last |
| AssignmentPrinters.FreeAfter | src/sh_plist.c:1408-1524 | a printer that reports a result, or whose process ends, is idle |
| AssignmentPrinters.ResultCounted | src/sh_plist.c:1443-1489 | a result counts one copy, or none when aborted; after errors and with the one-copy flag nothing is left to print, here and in what the owner is told |
| AssignmentPrinters.EachProposalAnswered | src/sh_plist.c:1125-1143 | in every run the owner has sent just as many answers to a printer about a job as it has read proposals |
| AssignmentPrinters.PrintsAreTold | src/sh_plist.c:1192-1270 | in every run, while a printer prints a job, the last news that its host has sent any other host about who has the job is of that print |
| AssignmentPrinters.NotPickedElsewhere | src/sh_queue.c:1015-1073 | while the owner prints a job itself, no host that has read all that it said shows the job free or selects a printer for it |
| AssignmentPrinters.SelectShows | src/sh_plist.c:1229-1270 | what a host that has picked a job shows |
| AssignmentPrinters.ToldShows | src/sh_queue.c:1015-1152 | what a host that is told of a print or a release shows |
| Chains.CutChain | src/sh_queue.c:606-619 | cutting a slot out of a doubly linked list leaves the list of the others, and its head |
| Chains.PutChain | src/sh_queue.c:667-688 | putting a slot in at place k gives the list with it at that place |
| Chains.CutQueue | src/sh_queue.c:606-619 | the same for a queue with a tail |
| Chains.PutQueue | src/sh_queue.c:667-688 | the same for a queue with a tail |
| Chains.HashedCut | src/sh_queue.c:626-649 | taking a slot off its hash chain leaves every other queued slot on exactly the chain of its key |
| Chains.HashedPush | src/sh_queue.c:800-816 | pushing a slot adds it to the chain of its key and to no other |
| Chains.UnlinkHash | src/sh_queue.c:626-637 | the assignments that take a slot off a hash chain, in closed form |
| Chains.PushHash | src/sh_queue.c:800-807 | the assignments that push a slot on a hash chain, in closed form |
| Segments.CutFreed | src/sh_queue.c:651-659 | a slot that leaves the queue becomes the head of the free chain, and the two still share out all slots |
| Segments.AppendLinks | src/sh_plist.c:576-588 | the first free slot behind the tail: queue and free chain still share out all slots |
| Segments.LinksGrown | src/sh_queue.c:179-198 | growth keeps the queue and puts the new slots, in order, before the free ones |
| Segments.KeptExactly | src/sh_queue.c:693-724 | what is kept by a clearing loop is exactly what does not go |
| Segments.KeptInOrder | src/sh_queue.c:693-724 | and it keeps its order |
| Segments.ClearingStep | src/sh_queue.c:693-724 | one turn of a loop that clears a queue while traversing it keeps the loop's invariant, whether the slot goes or stays |
| JobTable.JobSeg.constructor | src/sh_queue.c:256-285 | an empty segment is valid |
| JobTable.JobSeg.CutOut | src/sh_queue.c:606-619 | the assignments of takeoff_q, in closed form |
| JobTable.JobSeg.TakeoffQ | src/sh_queue.c:606-619 | the queue is what it was without the slot; no link outside it changes |
| JobTable.JobSeg.LinkIn | src/sh_queue.c:667-688 | the assignments of puton_q, in closed form |
| JobTable.JobSeg.PutonQ | src/sh_queue.c:667-688 | the queue is what it was with the slot at place k |
| JobTable.JobSeg.FreeSlot | src/sh_queue.c:651-659 | the slot moves from the queue to the head of the free chain |
| JobTable.JobSeg.DequeueNolock | src/sh_queue.c:621-665 | keeps all that Valid() says: queue, free chain and both families of hash chains; says the whole new queue, free chain and job array |
| JobTable.JobSeg.FreeRest | src/sh_queue.c:179-198 | the new slots are chained in order before the free ones |
| JobTable.JobSeg.Grow | src/sh_queue.c:536-604 | growth where the segment is keeps queue, chains and jobs, and adds free slots |
| JobTable.JobSeg.PlaceBehind | src/sh_queue.c:818-850 | the backward loop finds the place that PlaceUp describes |
| JobTable.JobSeg.Store | src/sh_queue.c:770-816 | a job stored in a free slot is on the chains of its keys |
| JobTable.JobSeg.Insert | src/sh_queue.c:770-857 | enqueue with a free slot: the whole new queue and job array |
| JobTable.JobSeg.Enqueue | src/sh_queue.c:761-857 | with growth when full there is always a free slot, the job goes in at its place, and no other job changes |
| JobTable.EnqueueAndFind | src/sh_queue.c:742-857 | after enqueue both lookups find a job by the key it came with, or that a local job got, and this very job unless one of that key was there |
| JobTable.StoredArrives | src/sh_queue.c:770-799 | the job stored is in nobody's hands and keeps what it is, of its flags only whether it was printed and has a page file |
| JobTable.JobSeg.PlaceAhead | src/sh_queue.c:914-921 | the forward loop finds the place that PlaceDown describes |
| JobTable.JobSeg.Move | src/sh_queue.c:911-925 | taking a job off and putting it back at place m keeps queue and free chain |
| JobTable.JobSeg.MoveUp | src/sh_queue.c:903-913 | a raised job goes where PlaceUp says among those before it |
| JobTable.JobSeg.MoveDown | src/sh_queue.c:914-926 | a lowered job goes where PlaceDown says among those behind it |
| JobTable.JobSeg.Reprioritise | src/sh_queue.c:896-928 | a change of priority keeps Valid(), and its whole effect on queue and jobs |
| JobTable.JobSeg.FindRslot | src/sh_queue.c:742-756 | finds a queued job with the key if there is one, and else says so |
| JobTable.JobSeg.FindJslot | src/sh_netfeed.c:300-322 | the same with the job number |
| JobTable.JobSeg.ClearOne | src/sh_queue.c:704-720 | one job: dequeued if it is of the dead host, released if it was promised to it or printed there |
| JobTable.JobSeg.NetJclear | src/sh_queue.c:693-724 | deleting while traversing leaves the order-preserving filter of the queue and clears each job as it should |
| JobPlaces.PlacedAt | src/sh_queue.c:836-845 | the place found is the one and only first stop from the tail at which the job before it reaches the priority that is left |
| JobPlaces.PassesOnlyLower | src/sh_queue.c:821-845 | nobody of the job's own or a higher priority is passed, for local jobs and jobs of other hosts |
| JobPlaces.ForeignDecay | src/sh_queue.c:821-835 | a job of another host pays only for passing jobs submitted before it |
| JobPlaces.WorkingPriority | src/sh_queue.c:836-850 | with decrement 1 and priorities from 1 a local job passes at most pri-1 jobs, and the stored working priority is pri less their number, never saturated |
| JobPlaces.RoundsToNearest | src/sh_queue.c:164-177 | round_short gives a nearest short, saturated outside the range |
| JobPlaces.MovedDownTo | src/sh_queue.c:914-921 | the place found going down is the one and only first whose job is within the priority that has grown |
| JobPlaces.GoesWithTheChange | src/sh_queue.c:896-928 | a job moves only in the direction of the change, to the first place allowed, and its working priority is what is then left |
| JobPlaces.OthersStay | src/sh_queue.c:911-925 | the queue is a permutation, and the others keep their order |
| PrinterTable.PtrSeg.constructor | src/sh_plist.c:272-285 | an empty segment is valid |
| PrinterTable.PtrSeg.TakeoffL | src/sh_plist.c:538-574 | keeps Valid(), and says the whole new list, free chain and printer array |
| PrinterTable.PtrSeg.Append | src/sh_plist.c:576-588 | the first free slot becomes the last of the list |
| PrinterTable.PtrSeg.Hash | src/sh_plist.c:590-598 | the slot is on the chain of its key |
| PrinterTable.PtrSeg.Grow | src/sh_plist.c:456-536 | growth where the segment is keeps the list, the chains and the printers |
| PrinterTable.PtrSeg.Insert | src/sh_plist.c:784-813 | a new printer at the end of the list, in order |
| PrinterTable.PtrSeg.AddPtr | src/sh_plist.c:752-821 | a printer is added exactly if none of the list clashes with it; the error of an empty free chain never arises; local printers stay apart in name and device |
| PrinterTable.AddAndFind | src/sh_plist.c:752-821 | after addptr the lookup finds a printer by the key it came with, or that a local one got, and this very one unless one of that key was there; a local one is at rest, of another host's the state is kept |
| PrinterTable.PtrSeg.Rewrite | src/sh_plist.c:852-899 | a printer that keeps its key can be rewritten without touching a chain |
| PrinterTable.PtrSeg.OtherTaken | src/sh_plist.c:863-876 | the loop of chgptr finds a clash with another local printer exactly if there is one |
| PrinterTable.PtrSeg.ChgPtr | src/sh_plist.c:824-914 | which changes are taken, forwarded or turned away, what is told to other hosts, and exactly when local printers stay apart |
| PrinterTable.ChangeRests | src/sh_plist.c:824-914 | a local printer that is changed has no process, comes to rest in its slot and clashes with no other, unless it is SPP_LOCALNET; one of another host keeps its key and its job |
| PrinterTable.SameName | src/sh_plist.c:824-914 | two local printers are given the same name |
| PrinterTable.PtrSeg.FindPslot | src/sh_netfeed.c:327-348 | finds a printer with the key if there is one, and else says so |
| PrinterTable.PtrSeg.NetPclear | src/sh_plist.c:605-638 | leaves the order-preserving filter of the list and forgets half-made proposals to the dead host |
| HostClear.JobsForget | src/sh_queue.c:706-719 | no job left is of the dead host, promised to it or at one of its printers, and no other job changes |
| HostClear.PrintersForget | src/sh_plist.c:616-627 | no printer left is of the dead host or proposing to it, one that was is free again, and no other printer changes |
| HostClear.Clear | src/sh_network.c:769-772 | the two clearings in this order leave no trace of the host in either segment |
| SelectJobs.FirstFit | src/sh_plist.c:1306-1370 | the first eligible job in queue order |
| SelectJobs.Scheduler.Assign | src/sh_plist.c:1229-1270 | assign and startj: the job, the printer and the messages |
| SelectJobs.Scheduler.Serve | src/sh_plist.c:1297-1378 | the inner loop does a printer's turn |
| SelectJobs.Scheduler.WarnUsers | src/sh_plist.c:1381-1399 | exactly the local jobs that could print now are marked, before the first that is or was printed |
| SelectJobs.Scheduler.SelectJ | src/sh_plist.c:1274-1402 | a suspended scheduler changes nothing; else all the turns one after the other, then the warnings; no waiting unselected local printer is left with an eligible job |
| SelectJobs.NoneLeft | src/sh_plist.c:1285-1379 | afterwards no waiting unselected local printer has an eligible job left |
| SelectJobs.ServedFirst | src/sh_plist.c:1306-1378 | each printer served got the first job that was eligible at its turn |
| SelectJobs.GetsFirst | src/sh_plist.c:1294-1378 | printer i gets job k if and only if the two fit and no printer before it got that job, and no earlier job is such; what fitting means is written out |
| SelectJobs.ServedShows | src/sh_plist.c:1229-1270 | what the job and its printer show afterwards, and that nothing else about them changes |
| SelectJobs.SentOnce | src/sh_plist.c:1229-1270 | the messages of a run: one proposal for each job of another host that a printer got; for each local one a request to the printer process and, unless the job is private, one word to the other hosts; and no others |
| SelectJobs.NoJobTwice | src/sh_plist.c:1321-1331 | no job is given to two printers |
| SelectJobs.JobsGiven | src/sh_plist.c:1285-1379 | a job changes if and only if a printer got it |
| SelectJobs.WakesInTime | src/sh_plist.c:1333-1340 | while a printer waits, the scheduler comes back before any open job comes off hold |
| SelectJobs.WakesForOne | src/sh_plist.c:1333-1340 | and not before some open job comes off hold |
| SelectJobs.WarnedExactly | src/sh_plist.c:1383-1399 | whose users are warned: those of local jobs off hold, while none of these from the front of the queue on is or was printed |
| PageSplit.FallBack | src/spr.c:611-624 | the two loops that back up along the delimiter find the longest restart tried |
| PageSplit.MatchOne | src/spr.c:593-625 | one character: the matcher moves on, ends a page, or falls back |
| PageSplit.CopyLoop | src/spr.c:579-628 | the reading loop, with both limits |
| PageSplit.CopyOut | src/spr.c:579-649 | the stored vector, page count and last page are those of the job as far as taken; refused exactly if a limit is exceeded and that is an error; the file lacks its last character exactly if CutShort |
| PageSplit.StopsShort | src/spr.c:600-605 | the page limit stops the loop if and only if the part within the size limit has more page ends |
| PageSplit.CutShortExample | src/spr.c:600-605 | two line feeds with a limit of one page: size 2, one character stored |
| PageSplit.RecordPage | src/spd.c:830-836 | the growing vector keeps the offsets recorded |
| PageSplit.ScanPages | src/spd.c:800-875 | the same vector, page count and last page as copyout stores |
| PageDelimiters.MatchedFits | src/spr.c:593-625 | for any delimiter, every match found is a real occurrence, and they do not overlap |
| PageDelimiters.PagesCount | src/spr.c:595-600 | page k ends with delimiter number (k+1)*delimnum |
| PageDelimiters.LastPageFills | src/spr.c:636-643 | the delimiters found and those the last page lacks make up full pages; it lacks none exactly if the job ends with a page |
| PageDelimiters.OffsetsCutTheJob | src/spr.c:584-643 | offsets 0 to npages increase strictly from 0 to the size, and each page end ends a delimiter |
| PageDelimiters.MatchedBest | src/spr.c:593-625 | for a safe delimiter the matches are the greedy leftmost ones |
| PageDelimiters.CompleteIffSafe | src/spr.c:610-625 | the page ends are those of the greedy reading on every job if and only if the delimiter is safe |
| PageDelimiters.MatchedAllBest | src/spr.c:610-625 | a fallback that tries every restart finds the greedy leftmost matches |
| PageDelimiters.CompleteIfAllTried | src/spr.c:610-625 | with it the page ends are those of the greedy reading, for every delimiter and job |
| PageDelimiters.SafeDelimiters | src/spr.c:610-625 | one repeated character is safe; a delimiter with two different first characters is not |
| PagePrint.Spd.PrintPage | src/spd.c:1051-1076 | a page in full, or cut short by an abort |
| PagePrint.Spd.PagesFrom | src/spd.c:1027-1077 | the pages of the range that are not skipped, in order; after an abort where to resume |
| PagePrint.Spd.ContJ | src/spd.c:980-1093 | exactly the pages wanted, the padding, and what holds after an abort; also for a file that is shorter than the size of the job |
| PagePrint.Spd.SkipPage | src/spd.c:1146-1175 | reading up to a form feed lands on the next offset |
| PagePrint.Spd.ReadPage | src/spd.c:1182-1213 | a page read up to its form feed is the page between two offsets |
| PagePrint.Spd.ContJFF | src/spd.c:1100-1229 | the same for the loop that finds form feeds on the fly |
| PageRuns.FormFeedEnds | src/sh_netfeed.c:440-470 | with the form feed as delimiter a page ends behind every form feed and nowhere else |
| PageRuns.CopyLoopFF | src/spr.c:531-562 | the loop of the form-feed branch, with both limits |
| PageRuns.CopyOutFF | src/spr.c:531-562 | the form-feed branch counts the pages that the matcher would find |
| PageRuns.ScanFFs | src/sh_netfeed.c:440-470 | scan_ffs builds the vector of the form feeds |
| PageRuns.VectorsCut | src/spd.c:865-874 | the vectors built are what the printing loops need |
| PageRuns.StoredCut | src/spr.c:579-649 | what copyout stores, even cut short, is what the printing loops need |
| PageRuns.FormFeedVector | src/sh_netfeed.c:440-470 | the vector of scan_ffs has its form feeds exactly at the page ends |
| PageRuns.FormFeedsAgree | src/spd.c:1115-1214 | contj_ff sends what contj sends on the form-feed vector if and only if initpage is not past the job or page 1 is not forced |
| PageRuns.ForcedPastTheJob | src/spd.c:1115-1145 | where they differ contj sends nothing and contj_ff the forced page |
| PageRuns.PaddingsAgree | src/spd.c:1079-1220 | on the form-feed vector both loops add the same behind the job if and only if PaddedAlike, or nothing is to be added at all |
| PageRuns.FormFeedLast | src/spd.c:862-872 | the number of form feeds that the last page lacks: one exactly if the job does not end with one |
| PageRuns.PaddingEndsPage | src/spd.c:1079-1091 | when the matcher is not inside a delimiter at the end of the job, the delimiters that contj adds complete exactly one more page, at the end |
| PageRuns.PrintedHas | src/spd.c:1030-1077 | exactly the pages of the range that are not skipped are sent |
| PagePrint.Setting.LimitIs | src/spd.c:1027-1050 | a page comes before the limit of the loops if and only if the job has it and it is not past spq_end, unless ranges are not in use |
| PageRuns.Request.CopySends | src/spd.c:1027-1077 | one copy: the forced page and then exactly the pages asked for, in order and whole; a page is asked for if and only if it is in the job, between spq_start and spq_end unless ranges are not in use, and its parity is not skipped |
| PageRuns.TwoCopiesShare | src/spd.c:1511-1520 | with SPQ_REVOE and just one skip flag each page of the range is wanted by exactly one of two copies; with none or both flags not |
| PageRuns.SharedOnce | src/spd.c:1511-1520 | counted with multiplicity, what two such copies send is what one copy without flags sends |
| PageRuns.RangeOnce | src/spd.c:1030-1077 | without flags each page of the range is sent once, and nothing else |
| PageRuns.Request.TwoCopies | src/spd.c:1377-1520 | two undisturbed calls of proc_req with SPQ_REVOE send each page of the range, as spq_start, spq_end and the length of the job have it, exactly once in all, and nothing else |
| PageRuns.Request.Run | src/spd.c:1388-1502 | whatever strikes, the pages before the place to resume have been sent; undisturbed, exactly what one copy should send |
| PageRuns.Request.ProcReq | src/spd.c:1377-1520 | a completed request has sent every page of the range that is not skipped, after any number of restarts, and nothing else if none struck; an aborted one leaves a place to resume that misses nothing |
| PageRuns.Request.Requests | src/spd.c:1377-1520 | the same over any number of aborted requests |
| SuffixPattern.Matcher.InClass | src/sdi_gram.c:148-165 | the class loop decides membership in the ranges and finds the closing bracket |
| SuffixPattern.Matcher.MelClass | src/sdi_gram.c:144-165 | the bracket case of mel |
| SuffixPattern.Matcher.MelStar | src/sdi_gram.c:131-139 | the star loop finds the first place where the rest matches; its early exit is sound, and makes it stop |
| SuffixPattern.Matcher.Mel | src/sdi_gram.c:104-166 | 1 exactly if the rest of the subject matches, -1 only if no shorter rest does, never 0 at the end of the subject |
| SuffixPattern.Matcher.Match | src/sdi_gram.c:169-183 | true exactly if the pattern applies |
| SuffixPattern.WalkForgets | src/sdi_gram.c:131-139 | what failed attempts of the star loop left in mbeg and mend does not matter |
| SuffixPattern.CaptureSplits | src/sdi_gram.c:116-129 | for one pair of braces mbeg and mend cut the subject into parts that match before, inside and after them, both as early as any way of matching allows |
| SuffixText.TextRead | src/sdi_gram.c:104-166 | a pattern written out from its tokens is read as these tokens |
| SuffixText.LiteralMeans | src/sdi_gram.c:104-114 | characters stand for themselves |
| SuffixText.StarMeans | src/sdi_gram.c:131-139 | a star in front of them: the subject ends with them |
| SuffixText.AnyMeans | src/sdi_gram.c:104-166 | each question mark stands for one character |
| SuffixText.ClassMeans | src/sdi_gram.c:144-165 | a class stands for one character between the ends of one of its ranges, or of none if it is negated |
| FileBuf.LineOfDigits | cupspy/filebuf.py:149-156 | where a size line ends |
| FileBuf.NextSize | cupspy/filebuf.py:158-165 | what a reader finds at the start of a chunk |
| FileBuf.HexRead | cupspy/filebuf.py:158-165 | the size that is read is the number that was written in hexadecimal digits, each in upper or lower case |
| FileBuf.DigitsAre | cupspy/filebuf.py:158-165 | there are no other digits than these |
| FileBuf.PiecesSent | cupspy/filebuf.py:149-185 | pieces of a payload sent with their sizes written so, with any leading zeros, are well-formed chunks of that payload |
| FileBuf.LinesEnd | cupspy/filebuf.py:149-156 | the bytes that end lines |
| FileBuf.Stripped | cupspy/filebuf.py:149-156 | exactly the white space at the end goes |
| FileBuf.ConsumedAndLeft | cupspy/filebuf.py:80-90 | what get has taken and what is left make up the input, byte for byte |
| FileBuf.FirstAnswer | cupspy/filebuf.py:80-90 | the answer is what comes next; peek leaves it, get takes it |
| FileBuf.HttpFileBuf.Want | cupspy/filebuf.py:65-78 | for any fragmentation no byte is lost, whatever was skipped before; it fails only if there is not enough, or the poll fails |
| FileBuf.HttpFileBuf.PlainGet | cupspy/filebuf.py:80-85 | exactly the next bytes |
| FileBuf.HttpFileBuf.ReadNumLine | cupspy/filebuf.py:149-156 | the next line, stripped |
| FileBuf.HttpFileBuf.OneChunk | cupspy/filebuf.py:176-185 | the next chunk of well-formed input, whole; on any input no byte comes from nowhere |
| FileBuf.HttpFileBuf.WantChunk | cupspy/filebuf.py:167-185 | on well-formed input the payload is kept, and it fails only if that is too short or the poll fails; on any other input what is decoded already is kept |
| FileBuf.HttpFileBuf.Do | cupspy/filebuf.py:80-90 | get and peek, plain or chunked: on sound input the next bytes of what is left, or a failure that is due; on any input what is buffered comes first, and never more than there is |
| FileBuf.HttpFileBuf.DoChunked | cupspy/filebuf.py:187-207 | the same on chunked input |
| FileBuf.HttpFileBuf.PlainGetRem | cupspy/filebuf.py:104-117 | what is buffered, which stays buffered, or else what is expected from the socket |
| FileBuf.HttpFileBuf.GetRem | cupspy/filebuf.py:209-240 | on chunked input some of the payload left, and nothing exactly at its end, where the chunked coding ends too |
| FileBuf.HttpFileBuf.Skip | cupspy/filebuf.py:92-94 | skips what is buffered of the input: right on plain input after a peek; on chunked input the payload stays where it was |
| FileBuf.Buf.Do | cupspy/filebuf.py:244-267 | a parser can be given either kind of buffer |
| FileBuf.StringBuf.Do | cupspy/filebuf.py:252-267 | get and peek on a string |
| FileBuf.ChunkedSession | cupspy/filebuf.py:149-240 | any get and peek calls and then getrem to the end give the answers, and the rest, of the plain payload |
| FileBuf.ReadAll | cupspy/filebuf.py:209-240 | getrem to the end gives all the payload left |
| FileBuf.ReadPlain | cupspy/filebuf.py:104-117 | getrem to the end on plain input gives the rest of the message; what is left then is clean exactly if nothing was buffered |
| FileBuf.ReadTwice | cupspy/filebuf.py:104-117 | a message that came in one piece can be read again as a whole |
| FileBuf.StringSession | cupspy/filebuf.py:244-285 | the same for a string |
| FileBuf.SameAnswers | cupspy/filebuf.py:149-285 | whatever the fragmentation, and however the payload is cut into pieces that are sent with their sizes, both kinds of buffer give the same answers |
| Ipp.ValueRead | cupspy/ipp.py:290-312 | a generated field is parsed to the value, but for the unit of a resolution and a time that the two conversions change |
| Ipp.FieldWritten | cupspy/ipp.py:437-469 | a parsed field is generated as it was if and only if it is canonical |
| Ipp.GenerateAttr | cupspy/ipp.py:351-358 | the loop that leaves the name out after the first value |
| Ipp.GenerateAttrs | cupspy/ipp.py:387-392 | the loop over a group |
| Ipp.GenerateIpp | cupspy/ipp.py:542-547 | the whole message |
| IppWire.FieldIs | cupspy/ipp.py:290-309 | the field of each tag, by the number of the tag, with numbers most significant byte first |
| IppWire.ValueIs | cupspy/ipp.py:290-312 | where tag, counted name and counted field stand in a value |
| IppWire.FieldOnly | cupspy/ipp.py:290-309 | when there is a right field at all, it is the one that is written |
| IppWire.MessageExactly | cupspy/ipp.py:542-547 | generate gives just the bytes that are laid out by the standard: version, status and number, each group behind its tag, each value with its counted name and field, and the 3 at the end; it fails if and only if there are none |
| IppWire.MessageRead | cupspy/ipp.py:497-520 | the same places are read, and a byte below sixteen starts a group |
| Ipp.Parser.GetValue | cupspy/ipp.py:437-469 | a value with its length |
| Ipp.Parser.GetFurther | cupspy/ipp.py:479-486 | a further value: on plain input read as it should be; on chunked input its length is read as 256 times its tag |
| Ipp.Parser.GetMore | cupspy/ipp.py:479-486 | the loop that collects the further values of an attribute, from any buffer: right on plain input, and on chunked input if there is none; on chunked input with one, either no result or a second value taken from 256 times its tag bytes |
| Ipp.Parser.GetAttr | cupspy/ipp.py:471-486 | an attribute, from any buffer, in the same sense |
| Ipp.Parser.GetAttrs | cupspy/ipp.py:488-495 | the attributes of a group, in the same sense |
| Ipp.Parser.GetItems | cupspy/ipp.py:500-509 | the groups and attributes up to the end tag, in the same sense |
| Ipp.Parser.ParseIpp | cupspy/ipp.py:497-520 | the whole message, leaving exactly what follows it, unless the input is chunked and comes to a further value; then no result, or one whose first second value was taken from 256 times its tag bytes |
| IppRoundTrip.MoreParsed | cupspy/ipp.py:479-486 | generated values are collected again up to what follows them |
| IppRoundTrip.AttrParsed | cupspy/ipp.py:471-486 | a generated attribute is parsed back |
| IppRoundTrip.ItemsParsed | cupspy/ipp.py:500-509 | generated groups are parsed back |
| IppRoundTrip.GeneratedIsParsed | cupspy/ipp.py:497-547 | a generated message followed by any data is parsed back, but for what Read changes, leaving exactly the data |
| IppRoundTrip.ItemsSame | cupspy/ipp.py:444-453 | what Read changes: nothing if and only if there is no resolution with a numeric unit, the conversions keep every time, and each attribute has the tag of its first value |
| IppRoundTrip.ComesBack | cupspy/ipp.py:497-547 | the same message comes back if and only if it is plain in this sense |
| IppRoundTrip.ParsedIsGenerated | cupspy/ipp.py:497-547 | the bytes of an accepted message are generated again if and only if all its values are canonical |
| Ipp.ItemsFirst | cupspy/ipp.py:479-486 | the first further value that parsing comes to is the first in the message parsed |
| IppServer.RequestFirst | cupspy/ipp.py:479-547 | parsing a generated message comes to a further value exactly if an attribute of it has a second one, and to that one first |
| IppServer.MistakableMeans | cupspy/ipp.py:437-469 | the condition on a value says just that some field of 256 times its tag bytes, the first of them zero, is parsed to it |
| IppServer.ReadHeader | cupspy/cups.py:791-801 | the lines of the header are read up to the first blank one, and nothing of what follows |
| IppServer.ReadDocument | cupspy/cups.py:486-500 | the document is read; what is left then is nothing if nothing of it was buffered, and else all that is in the buffer, which ends what has come in |
| IppServer.PlainRequest | cupspy/cups.py:791-848 | a request whose length is known is read behind its header, and its document too; the connection is clean afterwards exactly if nothing of the document was buffered, and what is read again otherwise |
| IppServer.ChunkedRequest | cupspy/cups.py:791-848 | for every chunking, fragmentation and length a request without second values is read, and its document too; which others fail; what the result of the rest starts wrong with; read as sent if and only if it has no second values, unless the first is Mistakable and the input long enough |
| IppServer.TwoValuesTwice | cupspy/ipp.py:479-486 | one message with a two-valued attribute: read in one piece, not read as one chunk |
| ConnTable.SwapOutRest | src/sh_network.c:154-162 | swapping the last entry into the hole removes that entry only, and moves none before it |
| ConnTable.ThreadedCut | src/sh_network.c:128-136 | writing where the pointer to a record is takes it off its chain, and leaves every other chain as it was |
| ConnTable.Network.FreeChain | src/sh_network.c:128-136 | the walk with a pointer to a pointer takes the record off its chain, and only that |
| ConnTable.Network.AddChain | src/sh_network.c:118-123 | the record becomes the first of its chain |
| ConnTable.Network.FreeRemlist | src/sh_network.c:154-168 | the list without the record, if it was there |
| ConnTable.Network.DeallocHost | src/sh_network.c:763-786 | keeps Valid(): chains, lists, counter and open sockets agree after a record has gone |
| ConnTable.Network.WriteAll | src/sh_network.c:793-803 | short writes are gone on with until all is through or one fails |
| ConnTable.Network.ChkWrite | src/sh_network.c:791-807 | one message; a failure removes the connection and closes its socket |
| ConnTable.Network.WriteAt | src/sh_network.c:955-965 | a write in a loop down the list leaves the entries still to come as they were |
| ConnTable.Network.Broadcast | src/sh_network.c:951-965 | exactly one write to each connection there was, with its own sequence number; exactly the survivors stay connected, their numbers one further in sixteen bits |
| ConnTable.Network.Tickle | src/sh_network.c:1028-1047 | exactly the connections due are tickled, and the result is in time for the next and no sooner |
| ConnTable.Network.DropProbes | src/sh_network.c:1052-1057 | exactly the late probes go |
| ConnTable.Network.NetTickle | src/sh_network.c:1011-1059 | both halves, and what becomes of every connection and every probe |
| ConnTable.Network.NetSync | src/sh_network.c:1575-1594 | at most one connection is asked, and if none is, none was left to ask |
| ConnTable.Network.Find | src/sh_network.c:207-252 | the walks along a hash chain find a record exactly if there is one |
| ConnTable.Network.EndSync | src/sh_network.c:1677-1687 | the connection found is synchronised, the counter stays the number of those that are not, one of them is asked unless all were, and no other record changes |
| ConnTable.Network.ConnAttach | src/sh_network.c:302-340 | a probe becomes a connection with its record, or a new record is made; one more to synchronise, one more socket |
| ConnTable.Network.ProbeAttach | src/sh_network.c:391-428 | if the probe cannot be sent nothing changes; else a probe is pending exactly if one was or the host is not connected as a server; never two; only a pending probe of the host is refreshed, all other records stay |
| ConnTable.Network.NewHost | src/sh_network.c:551-617 | when a connection is accepted, and the record made for it; when not, a pending probe of the host has gone and nothing else has changed |
| ConnTable.TwoServers | src/sh_network.c:551-617 | two connections from the server of one host are both accepted |
| ConnTable.WantedAre | src/sh_network.c:207-252 | what each of the searches asks of a record |
| ConnTable.NewRecords | src/sh_network.c:302-428 | a new record is not idle, a new connection counts from 0, and only one that this host asked for is to be synchronised |
| ConnTable.DueExactly | src/sh_network.c:1028-1057 | which connections are tickled and which probes are late, by the clock |

## Left out

- Deletion, edits, abort flags and host death in the protocol of part 1; host clearing is part 2.
- AssignmentTheorems.LostForever: deleting or editing the job, and the death of its owner or of the host it was granted to, lie outside the runs; any of them can release it.
- Liveness of the protocol, which does not hold.
- More than one connection for a pair of hosts, and the messages about printers only.
- AssignmentTheorems.EveryCopyPrinted: jobs are taken to be retained when their last copy is printed, because deletion is not part of the model.
- Assignment.MaySelect: only the tests that the protocol needs; the others of selectj are in SelectJobs.
- JobTable.JobSeg.Grow: maxjobs is any larger number of slots; that a mapped file really grows is assumed.
- PrinterTable.PtrSeg.Grow: likewise; the branch with a new shared memory segment computes the capacity from the old segment's size and is not modelled.
- JobTable.JobSeg.Reprioritise: only the priority part of copy_major; the other fields do not touch the lists.
- JobTable.JobSeg.NetJclear: spq_pslot is a sum of a network id and a printer slot, and never taken for the wrong one.
- HostClear.Clear: a local job that names the dead host without being marked proposed keeps the name, as in the code.
- Priorities and decrements are exact real numbers, not floats.
- SelectJobs.Scheduler.SelectJ: queue places stand for slots, since selectj does not change the queues; form types and names are compared by uninterpreted functions; sends succeed.
- Notification, mail, charging, serial numbers, locking and timestamps.
- PageSplit.CopyOut: a `char` is taken as unsigned when it is compared, the delimiter is not empty, and writing succeeds.
- Reading a page file back (rdpgfile), page_anal's choice between the kinds of vector, and pfseek's reading as opposed to its target.
- PagePrint.Spd.ContJ: local jobs only; for jobs of other hosts the file can only be read forward.
- Banners, setup strings, character counting and alignment pages in spd.
- SuffixPattern.Matcher.Mel: patterns whose brackets are closed; for others the code reads past the end of the pattern.
- The rest of the setup file grammar.
- FileBuf.HttpFileBuf.ChunkSize: size lines other than plain hexadecimal digits are read by an arbitrary function to a natural number; for a line with a minus sign the code would go back in its buffer.
- What the lines of the HTTP header say: the length, and whether there are chunks, are parameters.
- Chunk extensions and trailers.
- Ipp.Clock: the conversions of dates are arbitrary functions, and the one from the wire always succeeds; collections raise an error, as in the code.
- IppServer.ChunkedRequest: whether a request whose first second value is Mistakable is ever read as it was sent depends on its document and its chunks, and is left open.
- Ipp.ValueRead: a value of a Python type that does not go with its tag is an error, though the code would convert a string of digits to an integer.
- ConnTable.Network.DeallocHost: the clearing of jobs and printers is in HostClear.
- ConnTable.Network.NetSync: marking a record that a failed write has freed has no effect.
- Roaming users, set_not_server, clearhost, and the contents of messages.
