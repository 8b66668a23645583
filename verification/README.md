# Verified model of the WebDAV handler

This project models the parts of the WebDAV server that decide what a client may change and what
is left afterwards, and proves properties of them:

* the **path algebra** every request goes through (`Paths.dfy`);
* the **lock table**: two maps over shared, mutable lock records, swept lazily (`LockSystem.dfy`),
  against a table on values (`LockSpec.dfy`) and over whole runs (`Runs.dfy`);
* the **tree operations** over a driver that may fail at any call (`Driver.dfy`, `TreeOps.dfy`);
* the **handlers** that combine tree and locks: PUT, MKCOL, DELETE, MOVE, COPY, LOCK, UNLOCK
  (`Handler.dfy`); what each request comes to, as a function of the tree and the table it finds
  (`Reference.dfy`, `Requests.dfy`); what a held lock is worth against a request (`Requests.dfy`);
  the dispatcher and every run of requests (`Runs.dfy`); and requests carried through the handlers
  (`Witnesses.dfy`);
* **PUT with a Content-Range**, from the digits of the header to the bytes of the file, and
  uploads in pieces (`ContentRange.dfy`, `RangePut.dfy`);
* the **header and body scanners**: `If`, `Timeout`, and the token-stream machines for PROPFIND,
  PROPPATCH and LOCK bodies (`IfHeader.dfy`, `Headers.dfy`, `XmlTokens.dfy`, `PropBodies.dfy`,
  `LockBody.dfy`).

`dafny verify dfyconfig.toml` checks the whole project.

## How to read it

* A Go string is a sequence of bytes; here each byte is the `char` with that code.
* A canonical path string *means* the list of its names (`Comps`), and `Render` writes a list down
  again. The string code (`Clean`, `ParentOf`, `Join`, `Under`) is kept as it is in `path.go` and
  proved to be the list algebra; the lock table keeps its string keys; trees and specifications of
  the table are keyed by lists.
* The driver is a finite tree. `Driver.FileSystem` is what the handlers assume of it: a call that
  fails changes nothing, except that a failed positional write may have stored some of its bytes;
  "not found" from Stat is truthful; a listing names each member once, in any order, and may add
  `.` and `..`; the size an open file reports is never too small. Any call may fail at any time. A
  `steady` driver fails only when a precondition of the call is violated, or when it is asked to
  delete one of the resources it has `refused` to let go; a `reliable` one refuses none. An
  `exactSizes` driver reports the size a file has, which only uploads by pieces need. The driver
  interface (`github.com/go-filesystems/interface`) is not part of this model.
* Time is an argument. An operation of the lock table reads the clock once to sweep (`swept`,
  `now`) and, when it stamps an expiry, once more (`granted`, `later`). The clock never goes
  backwards. Minted tokens are fresh.
* A request runs alone. The server releases the driver between confirming a lock, reading a body
  and writing; nothing else touches the tree, the file or the table in between here.
* Durations and `Content-Range` offsets are `int64`, and wrap where the code lets them
  (`ContentRange.Wrap64`).

## What is shown

* **Locks.** The server's table, run from empty over any operations, answers exactly as a table
  that drops each lock the moment its expiry passes (`Runs.RunTable`, `LockSpec.LazyRefinesEager`).
  Its two maps stay inverse indexes of one bounded set of locks, no two of which overlap. The
  string walk upward and the scan downward in `conflict` find a lock exactly when one overlaps in
  the component-list sense. At most one lock covers a path, so looking at one is enough to confirm.
  After a grant, the lock is what its `Fate` says, a reading of the operations alone; while it
  lasts nothing overlapping is granted (`LockSpec.GrantIsExclusive`). The same holds of requests,
  on any driver: over every run, until a request bearing its token ends it, a request clears
  something above it or it expires, every request without the token leaves all that the lock
  covers alone, but for an empty file a refused LOCK may put where nothing was, and a write that
  aims there is answered 423 without effect (`Runs.ServeHeld`).
* **Trees.** `removeTree` under arbitrary failures changes nothing outside the subtree, reports
  nothing exactly when the resource is gone, and every survivor is related to a row; on a steady
  driver what survives is exactly what it refuses to delete and the collections above. `copyTree`
  changes nothing outside the destination, and without rows the destination is an exact copy,
  whichever of its three ways `copyFile` took. Both terminate.
* **Requests.** On a steady driver the whole server is a function: every request leaves exactly the
  tree, the lock table and the answer that `Requests.Expected` tells, and so does every run
  (`Runs.Serve`, `Runs.ServeSteady`). On any driver a request that was carried out did the same. A
  MOVE answered 201 or 204 has moved the whole subtree and nothing else, and no lock names anything
  at either end. On a reliable driver every lock names a resource that exists, after every run of
  requests (`Runs.ServeAll`).
* **Range PUT.** Success is exactly the old bytes with the body in place, or the old bytes, filled
  up to the size the open file reported, and the body. Every refusal changes nothing. With no
  failed write the file is as it was or complete; a failed write while appending leaves the old
  bytes whenever the cut back succeeds. In an upload by pieces, in any order, with any repetition
  and lost connections, and whatever the driver fails at, every piece acknowledged stands in the
  file at the end, every other byte is the client's or zero, and once all pieces have been
  acknowledged the file is the upload. As long as every shrink-back that is needed succeeds the
  file is a whole number of pieces and nothing else. On a steady driver pieces sent whole and in
  order are all acknowledged (`RangePut.Upload`).
* **Scanners.** What each token-stream loop computes is a function of the document tree, and
  `submittedTokens` reads a printed header back. What the words of the `Depth`, `Overwrite`,
  `Timeout`, `Lock-Token` and `Content-Range` headers mean is told by their characters, both ways.

## Where the code does not do what one may expect

The model follows the code; each of these has a witness or an exact condition.

* The comment at `putrange.go:118-123` says a range PUT never extends a file. The code appends when
  the range starts exactly at the end (`putrange.go:161-170`, `putrange.go:196-208`).
* A source inside the destination is deleted with it: `PrepareDestination` keeps the source if and
  only if the destination is not above it (`SourceInsideDestinationIsLost`). A MOVE onto the
  source's own ancestor then fails, on a driver that never does otherwise, with the whole ancestor
  gone (`ServeMove`, `MoveOntoParentLosesBoth`). A COPY onto it is answered 204 if and only if the
  source was a collection and the depth 0, and leaves one empty collection (`ServeCopy`,
  `ShallowCopyOntoParent`); at any other it is answered 207 (`DeepCopyOntoParent`).
* A `Not` before an entity tag stays pending and swallows the next tag or token. What the server
  collects is what the header submits if and only if no `Not` strays this way (`HeaderReadBack`);
  `StrayNotLosesToken` is an input where it does. It never collects more than was submitted.
* `parseTimeout` multiplies in `int64`: above 9223372036 seconds the product wraps
  (`GrantWraps`). The grant is between a second and an hour if and only if the deciding part does
  not overflow out of range (`TimeoutInRange`).
* `length` is exact except for the range 0 to 2^63-1 (`LengthIsExact`), which is then refused
  because no body has that length.
* The shrink-back after a failed append is not looked at. When it fails too, the file keeps the
  length it was grown to, with zeros where the body was not stored; the range PUT contracts call
  this `stuck`, say that it happened exactly when that cut failed, and say what the file then is
  (`RangePut.Grown`).
* A DELETE, or the clearing of a destination, that is answered 207 leaves the locks of members it
  did remove (`PartialDeleteStrandsLock` carries one through the handlers); a COPY that stops once
  its destination is clear leaves none such. Locks still name resources afterwards, whatever the
  outcome, if and only if no lock lay strictly below the path that was being cleared
  (`StrandsExactly`, `RefusalsStrandExactly`). Every other answer keeps the locks naming resources
  (`Runs.Serve`).
* A LOCK refused with 423 changes the tree if and only if there was nothing to lock: an empty file
  is then left behind (`ServeLock`, `RefusedLockLeavesFile`).
* `servePut` takes any failed Stat for absence (`write.go:91-92`): 204 always means that the file
  existed, and over a file that existed the answer is 201 if and only if that Stat failed for a
  reason of the driver's own (`PutWhole`).
* `WithPrefix` accepts a prefix that holds a NUL, and `resource` then refuses every request
  (`ResourceRoundTrip`).

## Model

| member | source | states |
|---|---|---|
| Paths.CleanPath | path.go:30-44 | the loop with its slice of names computes `Clean`, the rendering of the resolved components |
| Paths.ResolveIsNetWalk | path.go:33-42 | the stack clamped at the root equals an independent reading from the far end with a counter and no stack: net steps up, then the names that stay |
| Paths.CleanCanonical | path.go:30-44 | every result is canonical, cleaning twice is cleaning once, and components survive cleaning |
| Paths.CanonicalIffRendered | path.go:24-44 | a string is canonical exactly when it is the spelling of a list of legal names |
| Paths.CleanCompose | path.go:30-44 | cleaning a prefix first changes nothing: Clean(Clean(a)/b) = Clean(a/b) |
| Paths.CleanTrailingSlash | path.go:30-44 | a trailing slash makes no difference |
| Paths.CompsRender | path.go:30-44 | a component list is read back from its spelling, so spellings are unique |
| Paths.JoinRender | path.go:57-62 | `join` appends one name and stays canonical |
| Paths.ParentRender | path.go:47-53 | `parentOf` drops the last name, clamped at the root |
| Paths.ParentShorter | path.go:47-53 | climbing with `parentOf` shortens the string until the root, so the climb ends |
| Paths.UnderRender | path.go:122-127 | the byte-prefix test of `under` is list prefix, never a partial name |
| Paths.StringsAreComponents | path.go:47-130 | on canonical strings `under`, `strictlyUnder`, `parentOf` and `join` are prefix, strict prefix, parent and append, and parentOf(join(d, n)) = d |
| Paths.UnderPartialOrder | path.go:122-130 | `under` is a partial order on canonical paths with "/" as least element |
| Paths.ResourceContained | path.go:74-93 | an accepted request path is canonical, bounded and NUL-free, and was at or under the prefix |
| Paths.ResourceExactly | path.go:74-93 | a request path leads exactly to the names its rest beyond the prefix walks to, read off by the counter walk, when it holds no NUL and they spell at most 4096 bytes |
| Paths.ResourceRoundTrip | path.go:74-111 | for every accepted prefix, what `href` prints is read back to the same path, with or without the trailing slash, unless the prefix holds a NUL, and then every request is refused |
| LockSystem.LockTable.constructor | lock.go:138-142 | a new table is empty and valid |
| LockSystem.NewLockTable | lock.go:130-143 | a table is made exactly when the random source works, and is then empty and valid |
| LockSystem.LockTable.SameSize | lock.go:120-128 | the token index, the path index and the abstract table hold the same number of locks |
| LockSystem.LockTable.DropExpired | lock.go:161-169 | the sweep loop, in any order, keeps exactly the records not yet past their expiry in both maps |
| LockSystem.LockTable.SweepExpired | lock.go:161-169 | sweeping keeps the table valid and removes exactly the expired locks |
| LockSystem.LockTable.LockAbove | lock.go:182-189 | the string walk upward ends, and finds a depth-infinity lock exactly when some proper ancestor has one |
| LockSystem.LockTable.LockBelow | lock.go:190-197 | the downward scan, in any order, finds a lock strictly under the path if there is one |
| LockSystem.LockTable.Conflict | lock.go:178-198 | nil exactly when no lock overlaps in the component-list sense; otherwise an overlapping lock of the table |
| LockSystem.LockTable.CreateLock | lock.go:201-226 | refines the create step: refuses on overlap, full table or no entropy, else adds exactly one lock; keeps the table valid |
| LockSystem.LockTable.RefreshLock | lock.go:229-249 | refines the refresh step: only the lock on this path, named by a submitted token, gets new times in place |
| LockSystem.LockTable.UnlockPath | lock.go:254-265 | refines the unlock step: removes exactly the lock with this path and token, else reports no such lock |
| LockSystem.LockTable.DropUnder | lock.go:271-280 | the release loop, in any order, drops exactly the records at or under the path from both maps |
| LockSystem.LockTable.ReleaseLocksUnder | lock.go:271-280 | refines the release step, without a sweep |
| LockSystem.LockTable.ConfirmTokens | lock.go:284-298 | by inspecting one lock, succeeds exactly when the token of every live lock covering the path was submitted |
| LockSystem.LockTable.FindLock | lock.go:301-306 | the live lock on exactly this path, if any |
| LockSpec.LazyStepSimulates | lock.go:161-306 | one operation on the lazily swept table simulates the same operation on the eagerly expiring one, although release never sweeps |
| LockSpec.LazyRefinesEager | lock.go:154-306 | over every run with a clock that never goes back, all results are equal and the tables agree after a sweep |
| LockSpec.LazyStepKeepsOk | lock.go:161-280 | every operation keeps locks non-overlapping, tokens unique and the table bounded |
| LockSpec.RunKeepsOk | lock.go:161-280 | so does every run |
| LockSpec.CreateIsExact | lock.go:201-226 | granted exactly when no live lock is at, above to infinity, or below a depth-infinity request, fewer than 65536 are live and the random source works; and which lock |
| LockSpec.FindIsExact | lock.go:301-306 | exactly the live lock on the very path |
| LockSpec.AtMostOneCovers | lock.go:178-198 | no two locks of a table cover the same path |
| LockSpec.ConfirmByOneLock | lock.go:284-298 | hence the one lock found decides the confirmation |
| LockSpec.HeldStep | lock.go:201-298 | one operation does to a held lock what its fate says, and is refused when the lock excludes it |
| LockSpec.Exclusivity | lock.go:201-298 | over every run, until its fate ends it, the lock keeps path, token and depth and everything it excludes is refused |
| LockSpec.GoneForGood | lock.go:201-280 | a token no lock carries names none again |
| LockSpec.Released | lock.go:229-280 | once its fate has ended a lock, its token names nothing |
| LockSpec.GrantIsExclusive | lock.go:201-298 | the promise of an exclusive lock, from its grant for any timeout, on the server's lazy table over every run; a time already past is a lock already ended |
| Runs.Perform | lock.go:154-306 | every operation of the string-keyed class, on the spelling of a path, is the step on values |
| Runs.RunTable | lock.go:130-306 | the class, run from empty, gives the answers of the eager table and its final locks, and stays valid |
| TreeOps.Lookup | props.go:38-51 | a resource found is there with that kind; one reported missing is missing; any other failure is the driver's own |
| TreeOps.RemoveTree | write.go:217-263 | under any failures: terminates, touches nothing outside the subtree, no row exactly when the resource is gone, rows name survivors and are unrelated, every survivor is related to a row; on a steady driver exactly what it refuses to delete, and what is above that, survives |
| TreeOps.RemoveMembers | write.go:235-256 | the loop over a listing deletes each member as far as it can and leaves the rest alone |
| TreeOps.RemovedMember | write.go:236-250 | one more member deleted keeps the loop's account of what is left |
| TreeOps.SparedMember | write.go:236-250 | one more member deleted keeps the account of exactly what a steady driver has left |
| TreeOps.CopyFile | write.go:507-563 | success is an exact copy at a new name by any route, synced when written in place; failure touches at most the destination file |
| TreeOps.CopyWhole | write.go:508-543 | reading and writing the whole file: exact copy or no change |
| TreeOps.CopyRanged | write.go:545-562 | sized, copied and synced: exact copy, a short count is a failure |
| TreeOps.CopyTree | write.go:450-495 | nothing outside the destination changes, the destination holds counterparts only, and every member not held exactly is at or below a row; with the source already gone, what is left, and on a reliable driver no row exactly for a collection at depth 0 |
| TreeOps.CopyMembers | write.go:480-494 | the loop over a listing copies each member once |
| TreeOps.CopyMember | write.go:481-493 | one member: looked up and copied, or a row |
| TreeOps.CopiedMember | write.go:481-493 | one more member copied keeps the loop's account |
| TreeOps.CleanCopyIsExact | write.go:450-495 | with no rows the destination is exactly the source subtree, or at depth 0 the one node |
| Handler.RemovedAll | write.go:217-263 | a delete with no rows leaves exactly the tree without the subtree |
| Handler.DestinationLeads | write.go:273-290 | the destination inside the export, 400 for none or a malformed one, 502 for another host or prefix |
| Reference.CleanCopyIsTree | write.go:450-495 | a clean copy is one tree: the tree before with the subtree, or the one node, at its new place |
| Reference.SparedIsTree | write.go:217-263 | what a steady driver leaves of a deleted tree is one tree |
| Handler.MoveKeepsEverything | write.go:394-400 | after a rename the subtree is at its new place unchanged and nothing else differs |
| Handler.RenamedOk | write.go:394-400 | the tree after a rename is again a tree |
| Handler.ClearedLocks | write.go:340-359 | clearing a destination and releasing its locks leaves locks that name resources and none at or under it |
| Handler.SourceInsideDestinationIsLost | write.go:318-359 | a concrete source inside its destination is deleted by the preparation |
| Handler.StrandsExactly | write.go:202-212 | when clearing a path stops short, all outcomes keep locks naming resources if and only if no lock lay strictly below it |
| Handler.RefusalsStrandExactly | write.go:202-212 | the same if and only if over the steady drivers that make it stop short, whose outcomes the handler is shown to reach |
| Handler.SparedLocks | write.go:202-212 | on a steady driver the locks name resources afterwards exactly when each at or below the path was at or above a refused resource |
| Handler.Server.CheckLocks | lock.go:404-406 | permitted exactly when every lock covering the path had its token in the If header |
| Handler.Server.PrepareDestination | write.go:307-360 | on a steady driver exactly the refusal, the stop or the cleared tree and table `Reference.Clearing` tells, and on any driver when it succeeds; source intact iff not inside the destination; a 207 strands no lock when none lay strictly below |
| Handler.Server.ServeDelete | write.go:182-212 | on a steady driver, and on any when answered 204, exactly what `Reference.Delete` tells; 207 and the refusals leave what they say; exactly when locks still name resources |
| Handler.Server.ServeMove | write.go:363-401 | on a steady driver, and on any when answered 201 or 204, exactly what `Reference.Move` tells: the whole subtree at its new place and no lock at either end, or each refusal in its order; a source inside the destination is lost with a failure |
| Handler.Server.MovePrepared | write.go:390-400 | the same once the locks are confirmed and the source found |
| Handler.Server.ServeCopy | write.go:409-446 | on a steady driver, and on any when answered 201 or 204, exactly what `Reference.Copy` tells: an exact copy at depth infinity or 0, or each refusal in its order; a 207 says whether clearing or copying stopped; nothing outside the destination ever changes |
| Handler.Server.CopyPrepared | write.go:434-446 | the same once the lock is confirmed and the source found |
| Handler.Server.ServePut | write.go:50-129 | on a steady driver, and on any when it succeeds, exactly what `Reference.Put` tells: the body stored whole or in its range, or each refusal in its order; a range PUT touches the one file and leaves it as its ending says |
| Handler.Server.PutRange | write.go:65-73 | a range PUT through its parser: exactly what `Reference.PutPart` tells on a steady driver and when it succeeds, or 400 and nothing for a malformed header |
| Handler.Server.PutWhole | write.go:77-129 | the plain PUT: whole body or nothing; the cause of each refusal; 204 only over an existing file, and 201 over one exactly when Stat failed for a reason of the driver's own |
| Handler.Server.ServeMkcol | write.go:141-174 | on a steady driver, and on any when answered 201, exactly what `Reference.Mkcol` tells: one empty collection, or each refusal in its order |
| Handler.Server.ServeLock | lock.go:557-614 | on a steady driver, and on any when answered 200 or 201, exactly what `Reference.Lock` tells: refresh, grant or refusal; 423 exactly when blocked, 500 exactly for a full table or no entropy; a 423 changes the tree exactly when the name was absent |
| Handler.Server.EnsureResource | lock.go:587-602 | a missing resource is created empty, nothing else changes |
| Handler.Server.TakeLock | lock.go:604-608 | granted exactly when nothing overlaps, there is room and entropy; the error says which |
| Handler.Server.LockNew | lock.go:587-613 | a new lock on a resource that then exists |
| Handler.Server.LockAgain | lock.go:571-581 | exactly what `Reference.Relock` tells: the same lock with later times by a token of the If header, or 412 |
| Handler.Server.ServeUnlock | lock.go:629-642 | exactly what `Reference.Unlock` tells: 204 removes the lock with this path and token, 409 and 400 remove none |
| Handler.Server.LockTokenExactly | lock.go:630-636 | the header holds a token exactly when it is the token in brackets, between blanks |
| Runs.Serve | server.go:298-342 | on a steady driver exactly the tree, table and answer `Requests.Expected` tells for every request, and on any driver for one that was carried out; every live lock honoured; locks keep naming resources unless clearing stopped short above one; an unacceptable path is 400 with no effect |
| Runs.ServeSteady | server.go:298-342 | on a steady driver every run of requests comes to the fold of `Requests.Expected`, answer by answer |
| Runs.ServeAll | server.go:298-342 | over every run on a reliable driver every lock names an existing resource |
| Runs.ServeHeld | server.go:298-342 | exclusivity over every run of requests on any driver: while its fate, read off the answered requests, lasts, the lock keeps path, token and depth, requests without the token leave all it covers alone, an empty file by a refused LOCK apart, and writes that aim there are 423, and no overlapping lock is granted |
| Requests.NotReached | lock.go:284-298 | a request without the token whose targets were all confirmed reaches nothing the lock covers |
| Requests.ConfinedHonours | write.go:50-446 | a write confined to confirmed targets honours every live lock |
| Requests.LockHonours | lock.go:557-614 | so does a LOCK, apart from an empty file it may create |
| Requests.UnlockHonours | lock.go:629-642 | so does an UNLOCK |
| Requests.FateKeepsIdentity | lock.go:201-298 | over a run of answered requests a lock that lasts keeps token, depth and owner |
| Witnesses.PartialDeleteStrandsLock | write.go:182-263 | a DELETE carried through the handler on a driver that refuses one file: 207, and a lock on a file that is gone |
| Witnesses.RefusedLockLeavesFile | lock.go:583-608 | with /a locked, a LOCK of the missing /a/x is 423 and leaves an empty file |
| Witnesses.MoveOntoParentLosesBoth | write.go:307-401 | /a/b moved onto /a through the handler on a driver that never fails: the move fails and both are gone |
| Witnesses.ShallowCopyOntoParent | write.go:409-470 | /a/b copied onto /a at depth 0: 204, and an empty /a is left |
| Witnesses.DeepCopyOntoParent | write.go:409-478 | the same at any depth: 207, and nothing of /a/b is left |
| Witnesses.DeepCopyByWord | write.go:409-446 | /a copied with "Depth: infinity" through the handler: 201, and its files come along |
| Witnesses.LockByWord | lock.go:557-614 | /a locked with the depth spelled in capitals: a lock on all of it |
| Witnesses.KeptByWord | write.go:344-350 | MOVE and COPY with "Overwrite: F" onto an existing file: 412, tree and locks as they were |
| Witnesses.RefreshedByHolder | lock.go:571-581 | a lock refreshed through the handler by its token and an empty body: 200, the same lock with the later expiry |
| ContentRange.PrintParses | putrange.go:50-66 | a printed int64 is parsed back |
| ContentRange.IntExactly | putrange.go:50-66 | a number is read exactly from a sign that fits, zeros and its own digits, within 64 bits |
| ContentRange.PrintedIsAccepted | putrange.go:37-68 | every well-formed header, with a total or "*", is accepted and returns its bounds |
| ContentRange.AcceptedExactly | putrange.go:37-68 | a header is accepted exactly when it is "bytes ", two numbers and a total cut as the grammar says, with start, end and total in order and within int64 |
| ContentRange.LengthIsExact | putrange.go:25 | the length in int64 is the true count except for 0 to 2^63-1 |
| RangePut.ServePutRange | putrange.go:124-231 | 204 is exactly the splice or the append, synced; on a steady driver the exact answer in the order the source looks; every refusal changes nothing; with no failed write the old file or the complete one, and a failed write while appending leaves the old one unless the cut back failed too |
| RangePut.Store | putrange.go:195-217 | grow, write, shrink back, sync, close: with no failed write the old file or the complete one; a failed write while appending restores the old bytes whenever the shrink succeeds; stuck exactly when it does not |
| RangePut.ConcatSlice | putrange.go:155-170 | each piece of an upload sits where it was announced |
| RangePut.PieceInWhole | putrange.go:155-170 | the bytes of the whole upload at a piece's place are the piece's |
| RangePut.TurnBytes | putrange.go:155-217 | one turn replaces bytes only by the client's for that place, and grows the file by its own piece or not at all |
| RangePut.TurnKeepsPieces | putrange.go:155-217 | one turn at any piece with any outcome: a whole number of pieces long, stored pieces stay stored, an acknowledged one is stored, zeros only from a failed shrink-back |
| RangePut.AllStored | putrange.go:155-217 | pieces that all stand in their places make the upload |
| RangePut.UploadTurn | putrange.go:37-231 | the same through the printed header, the parser and the handler; on a steady driver a whole piece is acknowledged exactly when it does not start past the end |
| RangePut.Upload | putrange.go:37-231 | over any sequence of turns from an empty file and any failures: acknowledged pieces stand, all acknowledged is the upload, no failed shrink-back is whole pieces only, and an orderly run on a steady driver is acknowledged throughout |
| Headers.ParseTimeout | lock.go:436-455 | the loop returns what the first usable part grants, or the default |
| Headers.DepthExactly | propfind.go:34-47 | a depth is read exactly from its spelling in any case between blanks, and infinity from nothing; anything else is refused |
| Headers.OverwriteExactly | write.go:293-302 | F forbids, T or nothing allows, in any case between blanks; anything else is neither |
| Headers.PartExactly | lock.go:437-453 | a part grants the hour for "infinite", or what its seconds grant, told by its characters; any other is passed over |
| Headers.NoUsablePart | lock.go:454 | five minutes when no part can be used |
| Headers.FirstUsablePart | lock.go:438-453 | unusable parts are passed over and the first usable one decides |
| Headers.PrintedSeconds | lock.go:436-455 | "Second-n" grants min(n, 3600) seconds |
| Headers.GrantIsClamped | lock.go:445-453 | up to 9223372036 seconds the grant is clamped to the hour |
| Headers.GrantInRange | lock.go:445-453 | beyond that it is in range exactly when the reduced product is |
| Headers.GrantWraps | lock.go:449 | 9223372037 seconds grants a time already past |
| Headers.TimeoutInRange | lock.go:436-455 | every header grants between a second and an hour unless the deciding part overflows |
| IfHeader.SubmittedTokens | lock.go:367-401 | the index loop with its pending flag computes the recursive scan |
| IfHeader.ScanPrinted | lock.go:367-401 | a printed header is collected item by item, in order, and entity tags yield nothing |
| IfHeader.ScanText | lock.go:370-397 | text in which no token, entity tag or Not begins is passed over, whatever it is |
| IfHeader.CollectedVersusSubmitted | lock.go:367-401 | what is collected is part of what was submitted, and all of it exactly when no Not strays |
| IfHeader.HeaderReadBack | lock.go:367-401 | the scanner inverts the printer if and only if no Not before an entity tag strays |
| IfHeader.StrayNotLosesToken | lock.go:380-395 | a header whose token is lost |
| IfHeader.ScanPrefix | lock.go:367-401 | cutting a header short only cuts the result short |
| XmlTokens.SkipElement | propfind.go:116 | skipping stops just past the matching end tag, whatever names nest inside |
| PropBodies.ParsePropfind | propfind.go:70-140 | the flag machine computes the recursive run over the tokens |
| PropBodies.FindGathers | propfind.go:97-118 | inside prop or include every child element gives its name once and is skipped whole |
| PropBodies.ChildrenRead | propfind.go:97-127 | what is merged child by child is what the tree says |
| PropBodies.PropfindReadsTree | propfind.go:70-140 | the loop over a document returns, in order, exactly the child names of the DAV: prop and include children of the root, and the flags |
| PropBodies.PropfindEmptyBody | propfind.go:130-134 | a body with no element asks for allprop |
| PropBodies.FindNeedsCleanEnd | propfind.go:80-87 | a stream that ends in an error is refused |
| PropBodies.ParseProppatch | propfind.go:390-437 | the flag machine computes the recursive run over the tokens |
| PropBodies.ProppatchReadsTree | propfind.go:390-437 | the loop over a document returns exactly the names in every DAV: prop reached through only set and remove |
| PropBodies.ProppatchEmptyBody | propfind.go:433-435 | a body with no element is refused |
| PropBodies.PatchNeedsCleanEnd | propfind.go:394-401 | a stream that ends in an error is refused |
| LockBody.Reencode | lock.go:520-554 | the depth-counting loop computes the recursive copy |
| LockBody.CopyNodes | lock.go:520-554 | a list of nodes is copied without comments at any depth, whatever names nest in it |
| LockBody.ReencodeCopiesChildren | lock.go:520-554 | reads exactly through the matching end tag, emits a balanced copy of the children, and fails when the end tag is missing |
| LockBody.ParseLock | lock.go:474-516 | the loop computes the recursive run over the tokens |
| LockBody.LockReadsTree | lock.go:474-516 | a lockinfo document yields the content of its last DAV: owner child; any other root is refused |
| LockBody.LockEmptyBody | lock.go:512-515 | a body with no element is a refresh |
| LockBody.LockNeedsCleanEnd | lock.go:478-485 | a stream that ends in an error is refused |

## Left out

- HTTP plumbing, response bodies, status text, conditional requests, GET and HEAD, the HTML index, hrefs in rows and percent-encoding: input and output around the state the model keeps.
- Authentication, TLS and read-only mode (`server.go`): short branches in front of the dispatch.
- PROPFIND and PROPPATCH responses, property values, etags, content types, quota and the rendering of lockdiscovery: lookups settled by reading one branch.
- `statusFor` and its substring table: a driver error carries the status it would be given.
- XML lexing, namespace resolution, escaping, the attributes and the byte encoding of re-encoded tokens, and the limit on a PROPFIND body: bodies are token streams with resolved names and balanced tags.
- The random source: a minted token is an argument, fresh or absent.
- Concurrency between requests: the server lets another request in between its holds of the driver and of the table, so no claim is made that a confirmed lock is still held at the write.
- Protection of locked descendants in DELETE, MOVE and COPY, and of the membership of a depth-0 locked collection: the code does not check these.
- The reason a driver gives for a failure, in a row of a 207 or passed on alone: any reason it may give is allowed.
- Symbolic links, file modes and timestamps, and host-file shortcuts beyond "copies a prefix and says how much".
- Characters above ASCII when header words are trimmed or compared without case: only ASCII spaces and letters are folded.
- ServePutRange: nothing else writes the file between the two holds of the driver.
- Upload: needs a driver that reports the size a file has; with any other the server itself takes the wrong place for the end.
