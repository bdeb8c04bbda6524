# WebStrada runtime: verified model

A Dafny model of the parts of the WebStrada CFML runtime that are hard to get right by
reading them: the reference counted heap of CFML values with its cycle collector, the shared
scope and cache tables that many processes work on, copy-on-write strings, the template cache,
and the self-contained codecs and calendar arithmetic of the built-in functions.
`dafny verify dfyconfig.toml` checks all of it.

| Files | What they model |
|---|---|
| `Multigraph`, `Values`, `HeapModel`, `Linked`, `Memory`, `Places`, `Runtime`, `Naming`, `InPlace` | struct payloads, their counts, trial deletion and teardown, and programs that create, copy, assign, append to, take keys out of, clear and destroy values |
| `DeepCopy` | the recursive copy of a value over any heap graph |
| `Scopes`, `ScopeProtocol` | the scope store and the reaper as one process sees them, and every interleaving of many |
| `CacheStore` | the object cache, alone and interleaved |
| `Strings` | string handles on shared buffers |
| `TemplateCache` | compiled templates and components against changing files |
| `Lzw`, `BitStream`, `Gif`, `Powers` | GIF compression, code packing and sub-blocks, and the way of an image to bytes and back (Appendix F and section 15 of GIF89a) |
| `Calendar` | day numbers and broken-down times |
| `Codecs`, `UuCodec`, `Bytes`, `Common` | hexadecimal, Base64 (sections 4, 5 and 8 of RFC 4648) and UU |
| `Crc`, `Bmp`, `Tiff`, `UdfMeta` | checksum (section 5.5 of the PNG Specification, Second Edition), bitmaps, IFD walk (section 2 of TIFF 6.0), function metadata blocks |

How the heap is modelled: a struct payload is an entry of a map from addresses to
(count, key map, metadata), an array is a value inside its slot, and freeing a payload removes
its address. `holders` is the multiset of all references that are not in a key map or in
metadata: variables, temporaries, the collector's protection counts, query cells, closures.
"Exact" says that every count is the number of references of all these kinds; "garbage free"
says that every allocated payload is reachable from a holder. The copy-and-swap assignments,
and the erase of one key of several, detach a slot before its reference is released. A cleared map,
and one that loses its only key, destroys its slots first and forgets them afterwards, so the
collector sees a reference that is counted no longer (`Memory.Memory.ReleaseLinked`); a release of
that kind is `Kept`, `Leaked`, `TornDown` or `Undefined` (`Linked.Fate`). When a payload's destruction
begins it leaves the map and its own references become holders until each is released; the
source gives the memory back after that.

In the protocols each SQL statement is one step. A `BEGIN IMMEDIATE` transaction holds the
write lock, works on a copy of the tables and publishes it with its commit; readers see what is
committed. A process may fail or die at any point and then loses its lock and its copy.

## What turned out false

- Taking the only key out of a struct can tear the struct down under the variable that holds it:
  `s = {}; s.self = s; StructDelete(s, "self")` does (`InPlace.SelfTornDown`). The key's slot is still
  linked when its value is released, and trial deletion discounts that slot once too often. A struct
  whose only key is itself is torn down exactly if one other reference to it exists
  (`InPlace.SelfErased`). The erase keeps the heap in order if and only if another key remains,
  or the value, a struct, does not lead back, or it does but is held elsewhere and enough references
  from outside remain when the stale one is discounted (`InPlace.OnlyKeyIff`); otherwise it may also
  leave a cycle behind (`InPlace.CycleLeaked`) or read the map while it is destroyed
  (`InPlace.ParentWalked`). An array's structs are released one after the other, as are all values of
  a struct that is cleared, and each of them must meet this (`Linked.FateAll`,
  `Runtime.Runtime.StructClear`); where none leads back, all do (`InPlace.ClearHarmless`).
- A GIF does not always come back from its bytes. The encoder's table is one entry ahead of the
  decoder's, so the two switch code sizes at different codes: with 2-bit pixels 0, 1, 2, 1 do not
  come back (`Gif.FourPixels`). The sizes of an image agree throughout if and only if greedy parsing
  cuts it into at most 2^m - 2 strings (`Gif.SizesAgreeIffFew`, m being the bits of a pixel).
  Fewer than 2^m strings, so also fewer than 2^m pixels, come back; exactly 2^m strings do if and
  only if the last is the pixel 0; with more, string number 2^m is misread, but for the strings that
  `Gif.Misread` excepts, and the image does not come back. Nor does it when that string is the pixel
  0 and the next one is misread (`Gif.RoundTrip`, `Gif.FivePixels`).
- `Duplicate` does not copy everything. The style of an ODBC date, a component's super target and an
  array's tie to a query column are dropped: the duplicate of `CreateODBCDate` prints as a time
  stamp (`DeepCopy.DuplicateODBCDate`). A copy means what its source means if and only if none of
  these can be reached (`DeepCopy.Store.DeepCopy`).
- A TIFF value can be written through a reference to a directory that is no longer there, namely
  when the vector of directories has moved since the value's IFD was entered (`Tiff.ParseIfd`). In
  the first IFD that is so exactly for the values behind a pointer that opened another directory,
  as in the buffer of `Tiff.OrientationLost`.
- Trial deletion misses cycles through metadata: `k = StructGetMetadata(s).keys; k.self = s`
  makes one (`HeapModel.MetaCycleSpared`; exactly when it is complete is `HeapModel.CompleteIff`).
- An expired session or application that names no component that loads leaves the table without
  being announced (`Scopes.AnnouncedOnce`).
- A UU line that happens to spell BEGIN or END is skipped by the decoder; the round trip holds
  if and only if the last line does not (`UuCodec.DecodeEncoded`).
- Cutting a string that shares its buffer writes a NUL into the other strings
  (`Strings.CutTearsCopy`; exactly when it does not is `Strings.CutIndependent`). `fill`, `remove` and
  `replace` write into a shared buffer too, and are right if and only if no byte changes that another
  string on it has or ends with (`Strings.RewriteIff`, `Strings.Strings.Fill`,
  `Strings.Strings.Remove`, `Strings.Strings.Replace`).
- A template written while it is being compiled is served in its old form from then on
  (`TemplateCache.StaleTemplate`). In every run a hit on a file that exists is current if and only
  if nobody wrote the file between its compilation and the look at its time (`TemplateCache.Serve`).
  Components do not have this flaw, since their time is taken before they are compiled.
- Times in the last half second of a day become hour 24 of the same day
  (`Calendar.HourInRange`), and before 1 March -4800 two days can have one number
  (`Calendar.DaysCollide`).
- `isStandardRegion` is never true of "TEMPLATE", which is too long for its length test
  (`CacheStore.TemplateIsNotStandard`), and function metadata with more than 100000 parameters
  reads back as none (`UdfMeta.RoundTrip`).

## Model

| member | source | states |
|---|---|---|
| `HeapModel.DoomedIsGarbage` | src/cfvariant.cpp:126-219 | trial deletion is sound: nothing that any holder reaches, through key maps or metadata, is condemned |
| `HeapModel.CollectedGarbageFree` | src/cfvariant.cpp:223-232 | trial deletion is complete: when a release leaves a count above zero in a heap without garbage or metadata, the heap after the collection holds no garbage either |
| `HeapModel.CompleteIff` | src/cfvariant.cpp:150-188 | with metadata: all gathered garbage is condemned if and only if every gathered payload with a reference from outside is itself reachable |
| `HeapModel.MetaCycleSpared` | src/cfvariant.cpp:118-122 | a payload and its metadata, whose key refers back to it, are garbage once nothing else refers to them, and trial deletion from either condemns neither |
| `HeapModel.DetachGarbageFree` | src/cfvariant.cpp:226-229 | taking out a payload nothing refers to and holding its references instead leaves no garbage |
| `HeapModel.DeadCounts` | src/cfvariant.cpp:202-216 | once the dead payloads' maps are cleared a dead payload's count is what protects it and nothing else: 1, then 0 |
| `HeapModel.SurvivorCounts` | src/cfvariant.cpp:202-216 | a survivor loses exactly the references that what is freed had to it, through key maps and metadata; without metadata it stays positive if it loses any |
| `HeapModel.DoomedCondemned` | src/cfvariant.cpp:190-196 | no reference from outside the condemned payloads leads to one, and each that they refer to outside keeps another reference |
| `HeapModel.PendingIsOutside` | src/cfvariant.cpp:150-165 | the pending number of a gathered payload is its number of references from outside the gathered ones |
| `Multigraph.DoomedIsolated` | src/cfvariant.cpp:126-196 | in any graph, nothing but a condemned node refers to a condemned node |
| `Multigraph.DoomedComplete` | src/cfvariant.cpp:126-196 | in any graph that held no garbage before `root` lost a reference, what is left without the condemned nodes holds none |
| `Multigraph.SparedSupported` | src/cfvariant.cpp:167-188 | a gathered node that is spared keeps a reference no condemned node holds |
| `Values.GetStructDataChildren` | src/cfvariant.cpp:107-122 | a payload's children are its references with multiplicity, arrays included at any depth |
| `Memory.Memory.GatherReach` | src/cfvariant.cpp:130-148 | the gathered payloads are exactly what the root reaches, listed once each |
| `Memory.Memory.ComputePending` | src/cfvariant.cpp:150-165 | each pending number is the count less the references inside the gathered set |
| `Memory.Memory.MarkAlive` | src/cfvariant.cpp:167-188 | the alive payloads are what the externally referenced ones reach |
| `Memory.Memory.FindDead` | src/cfvariant.cpp:130-196 | the dead list is exactly what trial deletion condemns, once each |
| `HeapModel.HeldSurvive` | src/cfvariant.cpp:198-216 | what a holder reaches through key maps and metadata is never freed, whatever else is |
| `Memory.Memory.TearDown` | src/cfvariant.cpp:198-216 | the dead payloads leave the heap, besides them only what they reach through key maps and metadata, and without metadata nothing; counts stay exact; survivors keep their contents |
| `Memory.Memory.TryCollectCycles` | src/cfvariant.cpp:126-219 | counts stay exact, holders are untouched, and what is freed is what trial deletion condemns; inside a collection nothing happens |
| `Memory.Memory.Release` | src/cfvariant.cpp:223-232 | gives up one reference and keeps the heap exact and free of garbage, through all nested releases |
| `Memory.Memory.ReleaseLinked` | src/cfvariant.cpp:126-232 | a release whose slot is still linked comes to exactly what `Linked.Fate` says of the heap without the slot; where it is kept the heap is exact and garbage free, where it leaks exact with garbage |
| `Linked.TakenIs` | src/cfvariant.cpp:150-196 | with a stale reference from `n` to the root, trial deletion condemns what it would without if `n` is not gathered; else nothing if `n` stays supported with the reference discounted, and `n` and the root if not |
| `Linked.TornIsHeld` | src/cfvariant.cpp:150-196 | if a struct that is held is torn down in place, the released value is held as well, by a single reference from outside the gathered payloads |
| `Linked.WayBack` | src/cfvariant.cpp:223-232 | when the last reference of a value goes that leads back to a struct that stays, one of the references freed with it leads there past what is freed |
| `Linked.NoWayBack` | src/cfvariant.cpp:126-232 | releases in place of values that do not lead back are all kept |
| `Memory.Memory.Delete` | src/cfvariant.cpp:226-229 | destroys a payload's metadata and slots, each reference released once |
| `Memory.Memory.Destroy` | src/cfvariant.cpp:794-801 | destroys a value of any nesting: its references, with multiplicity, are released and nothing else |
| `Runtime.Runtime.CopyValue` | src/cfvariant.cpp:393-453 | a copy is equal, retains each struct once per occurrence and changes no contents |
| `Runtime.Runtime.SwapIn` | src/cfvariant.cpp:519-530 | the place holds the new value and the old one is held outside the graph before anything is destroyed |
| `Runtime.Runtime.MoveAssign` | src/cfvariant.cpp:519-530 | only the assigned place changes, and the heap is exact and garbage free again |
| `Runtime.Runtime.CopyAssign` | src/cfvariant.cpp:381-391 | the place takes the source's old value, also when the two are parts of each other |
| `Runtime.Runtime.StructSet` | src/cfvariant.cpp:715-728 | an existing key is overwritten in place, a new one is appended, no other slot changes |
| `Runtime.Runtime.StructDelete` | src/cffunctions/fn_structdelete.cpp:27-31 | one key of several is detached and its value destroyed, the struct outlives it and no other slot changes; an only key is cleared in place, with exactly the fate `EraseFate` gives; without the key nothing happens |
| `Runtime.Runtime.StructClear` | src/cffunctions/fn_structclear.cpp:21-22 | the values are released in place one after the other, with exactly the fate `ClearFate` gives; where all are kept the struct is empty, no other slot changes and the heap is settled |
| `Places.BeforeIs` | include/webstrada/cfvariant.h:29-36 | the order in which a map is cleared: after the part they share, the key that ends or has the lower character comes first |
| `InPlace.ClearHarmless` | src/cffunctions/fn_structclear.cpp:21-22 | clearing keeps the heap in order where no value leads back to the struct |
| `InPlace.OnlyKeyIff` | src/cffunctions/fn_structdelete.cpp:27-31 | erasing an only key, whose value is a struct, keeps the heap in order if and only if that value does not lead back, or is held elsewhere and the struct is reached from a gathered payload that is referenced from outside once the stale reference is discounted |
| `InPlace.SelfErased` | src/cffunctions/fn_structdelete.cpp:27-31 | a struct whose only key is itself is torn down by its erase if and only if its count is 2 |
| `InPlace.SelfTornDown` | src/cffunctions/fn_structdelete.cpp:27-31 | `s = {}; s.self = s` is such a struct |
| `InPlace.CycleLeaked` | src/cffunctions/fn_structdelete.cpp:27-31 | a heap in which erasing an only key leaves garbage |
| `InPlace.ParentWalked` | src/cffunctions/fn_structdelete.cpp:27-31 | a heap in which erasing an only key makes the collector walk a map that is being destroyed |
| `Runtime.Runtime.Insert` | src/cfvariant.cpp:919-926 | an array takes one more element at its end, itself possibly the appended value |
| `Runtime.Runtime.Do` | src/cfvariant.cpp:381-391 | each step comes to exactly what `StepFate` says, which only for an erase or a clear can be other than kept; a kept step has exactly its effect on variables and slots and leaves the heap settled |
| `Runtime.Runtime.Run` | src/cfvariant.cpp:99-232 | every run of every program goes on to its end or to the first erase or clear whose fate is not kept; up to there every state between steps is settled: counts exact, no garbage, no cycle left behind |
| `Naming.VariableRead` | src/cfvariant.cpp:611-644 | a bare name reads its variable |
| `Naming.IndexRead` | src/cfvariant.cpp:611-644 | one more index reads that element of the array that the shorter name reads, and nothing beyond its end or of anything else |
| `Naming.KeyRead` | src/cfvariant.cpp:646-650 | one more key reads the value under it in the struct that the shorter name reads, and nothing if it has no such key |
| `Naming.AssignedReads` | src/cfvariant.cpp:381-391 | after an assignment its target reads the value, unless a shorter name on its own way leads into the place; a name for another place reads what it did, unless its way leads through that place |
| `Naming.ElementAssigned` | src/cfvariant.cpp:381-391 | for variables and indices without exception: the target reads the value, and every element whose indices part from the target's reads what it did |
| `Naming.KeyPut` | src/cfvariant.cpp:715-728 | after a key is put the struct has that value under it, and under all other keys what it had |
| `Naming.KeyGone` | src/cffunctions/fn_structdelete.cpp:27-31 | after a key is erased the struct has nothing under it, and under all other keys what it had |
| `Naming.StepKeepsKeys` | src/cfvariant.cpp:715-728 | no step gives a struct the same key twice |
| `Runtime.SettledMeans` | src/cfvariant.cpp:99-232 | in a settled state a walk from a variable ends in every payload, and its count is its positive number of references |
| `Runtime.SettledNoDangling` | src/cfvariant.cpp:99-232 | in a settled state every reference from a variable or slot leads to an allocated payload |
| `DeepCopy.Store.CopyPart` | src/cfvariant.cpp:1099-1195 | terminates on every graph; the path set is what it was; the copy lies in fresh addresses only and means what the original means with every date in the usual style and no super target or query column |
| `DeepCopy.Store.DeepCopy` | src/cfvariant.cpp:1197-1201 | succeeds if and only if no cycle and no file handle is reachable through arrays, structs, cells or metadata; otherwise says which; changes no old payload; the new payload has the old one's keys, insertion order, columns and sizes; the copy means the same if and only if no date style, super target or query column can be reached |
| `DeepCopy.CopyMeans` | src/cfvariant.cpp:1099-1195 | the copy type by type: a date's style is 0; a container keeps its type, is in fresh memory and unlinked; arrays keep their length, structs their keys, insertion order and whether they have metadata, queries their columns' names, kinds and lengths, row count and position; and element by element, key by key and cell by cell the values are copies in turn |
| `DeepCopy.MeaningfulCopyable` | src/cfvariant.cpp:1140-1144 | a value with a finite meaning reaches no cycle and no file handle |
| `DeepCopy.DenotesOne` | src/cfvariant.cpp:1099-1195 | the meaning of a value is unique: type, flags, style, links, keys, insertion order, columns, row counts and cells |
| `DeepCopy.PlainIff` | src/cfvariant.cpp:1099-1115 | what the copy resets is in a value's meaning exactly if a value that carries it can be reached |
| `DeepCopy.DuplicateODBCDate` | src/cfvariant.cpp:1099-1115 | the duplicate of a date in ODBC style 1 has style 0 |
| `Scopes.ScopeStore.LoadRow` | src/scope_store.cpp:99-145 | found exactly when a live row is there; a miss deletes only that row and only if it is expired |
| `Scopes.ScopeStore.StoreRow` | src/scope_store.cpp:158-191 | the whole new row: start time and path not given keep the stored ones |
| `Scopes.ScopeStore.TouchRow` | src/scope_store.cpp:261-288 | true exactly for a live row, whose expiry and access time alone change |
| `Scopes.ScopeStore.EarliestExpiry` | src/scope_store.cpp:300-317 | the least positive expiry, if there is one |
| `Scopes.ScopeStore.ClaimExpired` | src/scope_store.cpp:319-373 | the batch lists every expired row once, and exactly those leave the table |
| `Scopes.ScopeStore.NextCfid` | src/scope_store.cpp:375-413 | hands out the stored number, or 1, and stores the next |
| `Scopes.ScopeStore.Reap` | src/reaper.cpp:33-110 | exactly the expired rows leave the table; first the expired sessions that name a component that loads are announced, then the applications, both in the batch's order and once each; a session ends with its application's data if that row was expired too and its data is not empty, else with that of the row if it was live, else with none |
| `Scopes.ScopeStore.EndSessions` | src/reaper.cpp:58-85 | the session calls for a batch, none for a record without a component that loads; looking up applications changes no row |
| `Scopes.IndexApplications` | src/reaper.cpp:40-47 | the index holds exactly the claimed applications, by name |
| `Scopes.HeardOnly` | src/reaper.cpp:78-84 | the loop over one kind announces a record as often as it is in the batch if it is of that kind and its component loads, and else never |
| `Scopes.AnnouncedOnce` | src/reaper.cpp:58-103 | each expired row is announced exactly once if it names a component that loads, and not at all otherwise |
| `Scopes.ScopeStore.Turn` | src/reaper.cpp:164-182 | a turn wakes at the earliest expiry or, without one, after 60 seconds; what is due already it reaps at once and leaves nothing due |
| `ScopeProtocol.StepKeeps` | src/scope_store.cpp:99-413 | every step of every process keeps the invariant: rows accounted for, expiries as last written, claims, CFIDs and the lock |
| `ScopeProtocol.RunKeeps` | src/scope_store.cpp:99-413 | the invariant holds in every state of every interleaving |
| `ScopeProtocol.ClaimedOnceWhenDue` | src/scope_store.cpp:319-373 | in every run a stored row is claimed at most once and only when 0 < its last expiry <= the claimer's now |
| `ScopeProtocol.TouchDelaysClaim` | src/scope_store.cpp:261-288 | a row seen with an expiry is not claimed before it unless a later touch changes it |
| `ScopeProtocol.PromiseHolds` | src/scope_store.cpp:261-288 | nothing but a successful touch of a row changes its expiry, through rotations and other processes' steps |
| `ScopeProtocol.FateFinal` | src/scope_store.cpp:319-373 | a row that was claimed, swept, replaced or removed never comes back or meets another fate |
| `ScopeProtocol.SweptWhenDue` | src/scope_store.cpp:130-143 | a row that a lazy purge or sweep removed was due at the remover's time |
| `ScopeProtocol.PurgeSparesLive` | src/scope_store.cpp:130-143 | a purge leaves every row that is not expired at the reader's now, whenever it was stored or touched |
| `ScopeProtocol.CommitTakesAll` | src/scope_store.cpp:319-373 | a committed claim carries each row as it was, takes exactly those and leaves nothing due |
| `ScopeProtocol.NoSpin` | src/reaper.cpp:164-174 | after a claim nothing is due again until somebody writes an expiry that is already past |
| `ScopeProtocol.CfidsIncrease` | src/scope_store.cpp:375-413 | the CFIDs handed out in any run are 1, 2, 3 and so on, without gap or repeat |
| `ScopeProtocol.NobodyStuck` | src/scope_store.cpp:319-413 | in every reachable state without a lock every statement can be done, and the holder of a lock can always go on to its commit |
| `ScopeProtocol.TouchDoes` | src/scope_store.cpp:261-288 | a touch renews exactly a live row's expiry and access time |
| `ScopeProtocol.RemovalsDo` | src/scope_store.cpp:203-239 | stopping an application takes out exactly its rows, ending a session exactly its row, a sweep exactly the expired ones |
| `ScopeProtocol.RotateDoes` | src/scope_store.cpp:241-258 | a rotated session keeps its row under the new number, unless one is there already |
| `ScopeProtocol.RowsConserved` | src/scope_store.cpp:158-373 | in every state the rows stored so far are the rows in the table plus those that met one fate |
| `ScopeProtocol.RunThatClaims` | src/scope_store.cpp:158-373 | there is a run in which a row is stored, falls due and is claimed |
| `ScopeProtocol.RotateKept` | src/scope_store.cpp:241-259 | rotating a session moves its row, expiry and all, and stores or ends nothing |
| `CacheStore.Store.Put` | src/cache_store.cpp:238-278 | the whole new entry, its region created if absent, no other entry touched |
| `CacheStore.Store.Get` | src/cache_store.cpp:280-337 | a hit exactly within both limits; a hit that is not quiet adds one to the hits and renews the access time and changes nothing else, a miss removes only that entry |
| `CacheStore.Store.GetAllIds` | src/cache_store.cpp:377-405 | the ids a read would hit, once each, oldest first |
| `CacheStore.Store.Metadata` | src/cache_store.cpp:407-438 | found exactly when a read would hit, and then the entry's figures |
| `CacheStore.Store.RemoveRegion` | src/cache_store.cpp:167-189 | the region and its entries go, nothing else |
| `CacheStore.NeverStale` | src/cache_store.cpp:280-337 | over every interleaving no read is served at or after its put's time to live or idle limit, and each with what the newest put under its key wrote |
| `CacheStore.ReadRenews` | src/cache_store.cpp:303-318 | a counted read renews the idle time: the next read inside the idle limit, and inside the time to live if there is one, is served |
| `CacheStore.LookServes` | src/cache_store.cpp:280-301 | a look serves exactly what is within both limits, and goes on to count or to purge |
| `CacheStore.StatementsDo` | src/cache_store.cpp:240-337 | what a put, a purge and the removals do to the table, entry by entry; no statement ever has to wait |
| `CacheStore.PurgedWhenDue` | src/cache_store.cpp:321-335 | over every interleaving each entry a purge took had expired at the purging reader's time |
| `CacheStore.StepKeeps` | src/cache_store.cpp:238-375 | every statement of every process keeps this |
| `CacheStore.TemplateIsNotStandard` | src/cache_store.cpp:63-68 | only the three standard names pass, and of them exactly those of 5 or 6 letters, so not TEMPLATE |
| `Strings.Strings.Copy` | src/string.cpp:46-56 | the copy has the same text and shares the buffer, which counts it |
| `Strings.Strings.Assign` | src/string.cpp:111-121 | takes the other's text, also from itself |
| `Strings.Strings.Move` | src/string.cpp:123-129 | takes the other's text and leaves it empty |
| `Strings.Strings.MoveAssign` | src/string.cpp:131-139 | exchanges the two texts |
| `Strings.Strings.Clear` | src/string.cpp:200-213 | empties the string and frees its buffer exactly if it was the last |
| `Strings.Strings.Mutate` | src/string.cpp:1302-1323 | afterwards the buffer is the string's own; no text changes |
| `Strings.Strings.Resize` | src/string.cpp:896-949 | growing keeps the text in front and every other string; cutting has exactly the effect on sharers that `CutTexts` gives |
| `Strings.Strings.AppendChar` | src/string.cpp:141-146 | one character more, no other string changes |
| `Strings.Strings.AppendBytes` | src/string.cpp:164-176 | the bytes are appended, no other string changes |
| `Strings.Strings.Append` | src/string.cpp:148-162 | the other string's text is appended, also the string's own |
| `Strings.Strings.Prepend` | src/string.cpp:756-776 | one character in front, no other string changes |
| `Strings.Strings.ChangeCase` | src/string.cpp:1056-1134 | byte by byte: `toUpper` takes 32 off what is from 'a' to 'z', `toLower` adds 32 to what is from 'A' to 'Z', all else stays; no other string changes |
| `Strings.Strings.FromBytes` | src/string.cpp:83-97 | the string has exactly the bytes given |
| `Strings.Strings.Run` | src/string.cpp:46-213 | any program on strings computes what it would on texts that share nothing, and frees all buffers with the last string |
| `Strings.Strings.Fill` | src/string.cpp:466-486 | overwrites the given part of the buffer, also where it is shared; this is the text filled and no other changed if and only if no other string has, or ends with, a byte that changes |
| `Strings.Strings.Remove` | src/string.cpp:778-802 | past the end it cuts or grows the string to the position; else it takes the span out and changes no other string if and only if all is removed, or no other string has, or ends with, a byte that changes |
| `Strings.Strings.Replace` | src/string.cpp:819-834 | the span becomes one character and no other string changes if and only if no other string has, or ends with, a byte that changes |
| `Strings.RewriteIff` | src/string.cpp:485-485 | what decides these: the buffers are sound and the other texts unchanged exactly if no byte changes that another handle shows or ends with |
| `Strings.NothingLeft` | src/string.cpp:200-213 | the buffers are exactly those that strings are on |
| `Strings.CutIndependent` | src/string.cpp:942-948 | cutting leaves all other strings alone if and only if the byte is NUL already or no sharer is longer |
| `Strings.CutTearsCopy` | src/string.cpp:942-948 | cutting "abc" to one byte turns its copy into "a", NUL, "c" |
| `TemplateCache.Cache.GetComponent` | src/template_cache.cpp:76-97 | the cached component if the file has the cached time, and otherwise one compiled from the file as it is then; never older than the version looked at on entry, whatever is written meanwhile, and with one more reference |
| `TemplateCache.Cache.Release` | src/template_cache.cpp:87-87 | the last of a component's references, the cache's own included, frees it |
| `TemplateCache.Cache.Clear` | src/template_cache.cpp:22-31 | the cache gives up its references; what callers hold lives on |
| `TemplateCache.Cache.GetTemplate` | src/template_cache.cpp:46-74 | a hit exactly under the file's time; a compiled template is stored under the time of the version seen after compiling; when compiling throws the path is left without an entry |
| `TemplateCache.TemplateFresh` | src/template_cache.cpp:51-69 | a template found under the time the file has was stored when the file was at the version it is at now |
| `TemplateCache.Serve` | src/template_cache.cpp:46-74 | in every run each hit serves what an earlier answer compiled, and it is current if and only if the file was not written between that compilation and the look at its time |
| `TemplateCache.StaleTemplate` | src/template_cache.cpp:65-69 | a run in which a hit serves version 0 of a file that is at version 1 |
| `Lzw.LzwEncode` | src/cffunctions/common.cpp:4309-4363 | decoding the emitted codes gives back the pixels, through the unknown-code case, full tables and end of information; each code fits its size, and the last has the size it is read with |
| `Gif.LzwDecode` | src/cffunctions/common.cpp:4188-4243 | the pixels are what the decoder's rules make of the codes that its own sizes cut the bytes into |
| `Lzw.DecodeRules` | src/cffunctions/common.cpp:4217-4243 | what each code does to table, output and previous string; 4096 entries are the most |
| `Lzw.FullKept` | src/cffunctions/common.cpp:4234-4234 | a full table stays as it is over any codes until it is cleared |
| `Lzw.EmitDecodes` | src/cffunctions/common.cpp:4339-4358 | when a string's code is emitted the decoder, one entry behind, outputs the string and catches up |
| `Lzw.EncodingClears` | src/cffunctions/common.cpp:4352-4356 | a full table is cleared on both sides at the same code |
| `Lzw.CodeSizeLeast` | src/cffunctions/common.cpp:4238-4238 | a code size is the least that all codes of the table fit, between m + 1 and 12 |
| `Lzw.SizesAgreeIff` | src/cffunctions/common.cpp:4350-4350 | the two code sizes differ exactly where the encoder's table has just filled its size below 12 |
| `Gif.SizesAgreeIffFew` | src/cffunctions/common.cpp:4238-4238 | all code sizes of an image agree if and only if it is cut into at most 2^m - 2 strings |
| `Gif.ReadAgreed` | src/cffunctions/common.cpp:4205-4221 | as long as the sizes agree the decoder reads the codes that were written |
| `Gif.FewStrings` | src/cffunctions/common.cpp:4217-4243 | the bytes of every image of fewer than 2^m strings decode to its pixels |
| `Gif.ManyStringsMisread` | src/cffunctions/common.cpp:4217-4243 | the bytes of an image whose string number 2^m is misread do not decode to its pixels |
| `Gif.FullImageIff` | src/cffunctions/common.cpp:4217-4243 | the bytes of an image of exactly 2^m strings decode to its pixels if and only if the last string is the pixel 0 |
| `Gif.MisreadBehind` | src/cffunctions/common.cpp:4217-4243 | nor do the bytes of a longer image whose string number 2^m is the pixel 0 and the next one starts with another pixel, and is longer or that pixel below half of 2^m |
| `Gif.EncodePixels` | src/cffunctions/common.cpp:4309-4363 | the bytes are the codes of the image in the encoder's sizes, and zeros up to a whole byte |
| `Gif.RoundTrip` | src/cffunctions/common.cpp:4309-4363 | packed, cut, rejoined and decoded, every image of fewer than 2^m strings or pixels comes back, one of exactly 2^m strings if and only if its last string is the pixel 0, and none whose string number 2^m is misread or is the pixel 0 before one that is |
| `Gif.FourPixels` | src/cffunctions/common.cpp:4350-4350 | the 2-bit pixels 0, 1, 2, 1 do not come back |
| `Gif.FivePixels` | src/cffunctions/common.cpp:4350-4350 | nor do 0, 0, 2, 0, 1, whose string number 4 is the pixel 0 |
| `BitStream.Pack` | src/cffunctions/common.cpp:4318-4328 | the bytes are the codes' digits in their widths, and fewer than eight zeros behind |
| `BitStream.GetCode` | src/cffunctions/common.cpp:4205-4215 | takes exactly the next bits of the stream, or -1 when there are too few |
| `BitStream.Unpack` | src/cffunctions/common.cpp:4202-4221 | the codes are the stream's bits cut by the widths |
| `BitStream.WriteSubBlocks` | src/cffunctions/common.cpp:4393-4398 | the data in full blocks of 255 bytes, the rest in one more, and a final empty one |
| `BitStream.BlocksFull` | src/cffunctions/common.cpp:4393-4398 | all blocks but the last are full, which decides their number |
| `BitStream.ReadSubBlocks` | src/cffunctions/common.cpp:4466-4472 | the blocks' data and where they end |
| `BitStream.JoinInvertsCut` | src/cffunctions/common.cpp:4393-4398 | rejoining gives back what was cut, whatever follows |
| `BitStream.ReadWritten` | src/cffunctions/common.cpp:4205-4215 | reading with the widths that were written gives back the codes |
| `BitStream.StreamRoundTrip` | src/cffunctions/common.cpp:4318-4328 | packed, cut, rejoined and read with the same widths, all codes come back |
| `Calendar.RoundTrip` | src/cffunctions/common.cpp:859-928 | every valid date and second comes back from its day number, with the distance from 1 January and the parser's weekday |
| `Calendar.DaysToTm` | src/cffunctions/common.cpp:875-928 | the fields as functions of the whole days and the fraction, negative day numbers included |
| `Calendar.DateOfJdn` | src/cffunctions/common.cpp:886-897 | the century, year and month divisions invert the day number of every valid date from year -4799 on |
| `Calendar.DayZero` | src/cffunctions/common.cpp:859-872 | day 0 is 30 December 1899 and day 25569 is 1 January 1970 |
| `Calendar.DayZeroOfWeek` | src/cffunctions/common.cpp:924-925 | day 0 is a Saturday and day 25569 a Thursday |
| `Calendar.NextIsOneMore` | src/cffunctions/common.cpp:859-868 | the day number of the next calendar day is one more |
| `Calendar.YearDay` | src/cffunctions/common.cpp:903-913 | the sum over month lengths is the difference to 1 January's day number |
| `Calendar.WeekDaysAgree` | src/cffunctions/common.cpp:924-925 | the weekday from the day count is the one from the Julian day number |
| `Calendar.HourInRange` | src/cffunctions/common.cpp:915-918 | the hour is below 24 if and only if less than 86399.5 seconds of the day are past, and 24:00:00 otherwise |
| `Calendar.NormalizeTm` | src/cffunctions/common.cpp:2111-2126 | for any fields: months carry into the year, a day past the month's end is its last, a day below 1 counts back, the date moves by the whole days of the clock, rounded down, and the clock is what is left; from 1 January -4799 on the result is the valid date of that day |
| `Calendar.MeantDate` | src/cffunctions/common.cpp:2111-2126 | the day that fields mean is a valid date's own, and a day of the month more is a day later as long as the month has it |
| `Calendar.MeantMonths` | src/cffunctions/common.cpp:2112-2119 | twelve months are a year |
| `Calendar.MeantClock` | src/cffunctions/common.cpp:2124-2125 | twenty-four hours of sixty minutes of sixty seconds are a day |
| `Calendar.DayOfDate` | src/cffunctions/common.cpp:886-897 | from 1 January -4799 on every day number belongs to the date that the divisions find |
| `Calendar.DaysCollide` | src/cffunctions/common.cpp:864-868 | 29 February and 1 March -4800 have one number |
| `Codecs.HexRoundTrip` | src/cffunctions/common.cpp:2431-2437 | decoding what was encoded gives the bytes |
| `Codecs.EncodeHex` | src/cffunctions/common.cpp:2431-2437 | for each byte the upper-case digit of its high half and then that of its low half |
| `Codecs.HexValues` | src/cffunctions/common.cpp:2284-2289 | digits count from 0, letters of either case from 10, nothing else is a digit |
| `Codecs.DecodeHex` | src/cffunctions/common.cpp:2291-2312 | the bytes the digits stand for, white space aside; an error if and only if there are none |
| `Codecs.NibblesOnce` | src/cffunctions/common.cpp:2302-2307 | no two byte strings read as the same digits |
| `Codecs.Base64RoundTrip` | src/cffunctions/common.cpp:2439-2467 | decoding what was encoded gives the bytes, in both alphabets |
| `Codecs.EncodeBase64` | src/cffunctions/common.cpp:2439-2467 | the digits are the bytes' six-bit groups; padded to whole groups, or without padding in the URL alphabet |
| `Codecs.DecodeBase64` | src/cffunctions/common.cpp:2327-2377 | the bytes the text stands for; an error if and only if it is not digits, none of them left over, with at most two padding characters behind |
| `Codecs.AlphabetAt` | src/cffunctions/common.cpp:2440-2442 | both alphabets, digit by digit |
| `Codecs.DigitValues` | src/cffunctions/common.cpp:2314-2325 | the decoder's values of all characters; with the URL alphabet it takes the digits of both |
| `Codecs.SextetsAt` | src/cffunctions/common.cpp:2445-2466 | the groups of every three bytes by division and remainder, the highest bits first |
| `Codecs.PackedSextets` | src/cffunctions/common.cpp:2445-2466 | the six-bit groups of any bytes hold the bytes |
| `UuCodec.EncodeUU` | src/cffunctions/common.cpp:2469-2502 | lines of up to 45 bytes, each its length and its groups filled up with blanks |
| `UuCodec.DecodeUU` | src/cffunctions/common.cpp:2379-2429 | the decoded text as a function of its lines: markers skipped, an empty line ending the data, bad lengths refused |
| `UuCodec.DecodeLine` | src/cffunctions/common.cpp:2404-2427 | the first bytes of the packed characters, as many as the line announces |
| `UuCodec.ReadLine` | src/cffunctions/common.cpp:2392-2402 | an encoded line reads as its bytes unless it spells a marker |
| `UuCodec.DecodeEncoded` | src/cffunctions/common.cpp:2393-2394 | decoding gives the bytes back, or all but the last line if that spells BEGIN or END |
| `UuCodec.UURoundTrip` | src/cffunctions/common.cpp:2379-2502 | the round trip holds if and only if the last line is not 34 bytes starting 150, 122, 110 or 37 starting 186 and 64 to 79 |
| `Crc.Crc32` | src/cffunctions/common.cpp:3948-3963 | the table-driven checksum of every message is that of the division one bit at a time |
| `Crc.Generator` | src/cffunctions/common.cpp:3955-3955 | the divisor has exactly the powers of the standard's generator, the highest in the lowest bit |
| `Crc.MakeTable` | src/cffunctions/common.cpp:3953-3957 | each entry is eight steps of the division on its index |
| `Crc.ByteFed` | src/cffunctions/common.cpp:3961-3961 | feeding a byte's bits one by one is one look into the table |
| `Crc.ChecksumResidue` | src/cffunctions/common.cpp:3960-3962 | every message followed by its own checksum leaves the same register |
| `Bmp.RoundTrip` | src/cffunctions/common.cpp:4519-4639 | what was written reads back as the same colours at every pixel and both depths, opaque images unchanged; refused exactly if there are no pixels |
| `Bmp.EncodeBmp` | src/cffunctions/common.cpp:4519-4565 | the header, then the rows from the bottom up, each padded |
| `Bmp.DecodeBmp` | src/cffunctions/common.cpp:4567-4639 | refused exactly for a wrong signature, plane count, size, palette or data offset; otherwise every pixel is the file's, its rows from the bottom up or, with a negative height, from the top down, and blank past the end |
| `Bmp.FieldsAre` | src/cffunctions/common.cpp:4567-4590 | the header's fields from its bytes, lowest first and signed where they are |
| `Bmp.PixelBytes` | src/cffunctions/common.cpp:4611-4620 | where a pixel's colours are at 24, 32 and 8 bits |
| `Bmp.PaletteBytes` | src/cffunctions/common.cpp:4618-4620 | a palette entry's colours, and none past the end |
| `Bmp.TwoOfByte` | src/cffunctions/common.cpp:4621-4626 | at 4 bits the left pixel is in the upper half of the byte |
| `Bmp.EightOfByte` | src/cffunctions/common.cpp:4627-4632 | at 1 bit the leftmost of eight pixels is in the highest bit |
| `Bmp.HeaderParts` | src/cffunctions/common.cpp:4535-4548 | the written header, field by field |
| `Bmp.RowBytesLeast` | src/cffunctions/common.cpp:4523-4523 | a row takes the fewest bytes that hold it and are a multiple of four |
| `Bmp.ReadScales` | src/cffunctions/common.cpp:3907-3922 | a partly transparent pixel's colours are scaled up again, rounded down |
| `Bmp.OpaqueStored` | src/cffunctions/common.cpp:3907-3932 | an opaque colour is stored and read as it is |
| `Tiff.ParseIfd` | src/cffunctions/common.cpp:5837-5896 | ends on every buffer; visits no offset twice, and reads each IFD as the directory that a pointer or the chain of an earlier one leads to; records no entry twice, only what entries say and only values inside the buffer; of every visited IFD with at most five invalid entries each valid entry is recorded or, if it points to another IFD, followed, and so is its chain; a value gets into its directory if and only if the vector of directories has not moved since its IFD was entered, in the first IFD if and only if no pointer before it opened another directory |
| `Tiff.NumbersRead` | src/cffunctions/common.h:112-125 | numbers in both byte orders, signed ones included, and zeros past the end |
| `Tiff.TypesAndPointers` | src/cffunctions/common.cpp:5725-5739 | the sizes of the types and the tags that lead to another IFD |
| `Tiff.FollowerMeans` | src/cffunctions/common.cpp:5884-5895 | where the chain goes on: inside the buffer and not before this IFD, from the first IFD and from thumbnails |
| `Tiff.ReadEntry` | src/cffunctions/common.cpp:5854-5880 | invalid exactly for a negative count, an unknown type or a value outside the buffer; a pointer exactly when the directory has such pointers, and otherwise the value that the entry describes |
| `Tiff.ParseTiff` | src/cffunctions/common.cpp:5898-5922 | all this from the block's header on, with no more visits than there are offsets up to the buffer's end; succeeds exactly for a known header and a first IFD that fits |
| `Tiff.MakeDirs` | src/cffunctions/common.cpp:5848-5848 | there is a directory afterwards, and the vector moves exactly if it has to hold more than its capacity |
| `Tiff.OrientationLost` | src/cffunctions/common.cpp:5874-5880 | a buffer whose orientation, behind an Exif pointer, does not get into its directory |
| `UdfMeta.RoundTrip` | src/cfvariant.cpp:284-331 | reading gives back every field from its own span, whatever follows the block, if and only if there are at most 100000 parameters |
| `UdfMeta.Serialize` | src/cfvariant.cpp:284-305 | the block is the payload's length and the payload, field by field |
| `UdfMeta.Deserialize` | src/cfvariant.cpp:307-331 | the reading of any block that lies in memory, short fields and long counts included |

## Left out

- SQLite, file access, signals, timers and the CFML handlers themselves: the tables, the files' times and the order of calls are modelled, COMMIT succeeds, and a failing statement is a step that changes nothing.
- Strings bound to SQL statements end at their first NUL; text in the tables is taken as it is.
- `Memory.Memory.TearDown`: with metadata it bounds what is freed from both sides (the dead at least, only what they reach and nothing a holder reaches) and keeps counts exact, but does not say which of the rest the released metadata frees. `HeapModel.SurvivorCounts` counts for whatever is freed.
- `Memory.Memory.Children`: a struct's `insertOrder` list and value flags are not part of the collector's heap, since it neither follows nor counts them; the deep copy has them.
- Query cells, closures and component instances: on the collector's heap they are holders; only metadata is modelled as references hidden from the collector.
- `Runtime.Runtime.Run`: programs have no metadata, for which the completeness it claims is false. A run ends at the first erase or clear that is not kept, since memory is no longer in order there. Removing array elements moves the later ones down one by one and is not a step.
- `Runtime.Runtime.StructClear`: relies on how GCC's `std::map` clears: the nodes are destroyed from the right-most key on, one after the other, and the header is reset last; erasing the only key is a clear. `Undefined` says that the collector reads such a map after its first node is gone, or a payload after its last reference; what it reads there is not modelled. While an array in a slot is destroyed, its elements that are gone read as unset.
- `Runtime.Runtime.AssignStruct`: the allocator is a parameter; any address not in use may come next.
- `DeepCopy.Store.DeepCopy`: array pointers are addresses like the others; a failed copy's partial payloads stay in the model's store.
- `Gif.RoundTrip`: of images of more than 2^m strings it decides those whose string number 2^m is misread, or is the pixel 0 before one that is. Other strings of that number may or may not bring the image back, with what follows them.
- `Gif.LzwDecode`: a smallest code size beyond 11, which only a damaged file has, shifts a 32-bit word too far in the source and is a number like any other here.
- `BitStream.Pack`: disjoint bit ranges are joined by addition, shifts and masks are powers of two.
- `Scopes.ScopeStore.Reap`: which component files load is fixed for one reaping; what the handlers do is not modelled.
- `Scopes.ScopeStore.Turn`: one turn of the loop; polling and the signal that ends it are left out.
- `CacheStore.Store.GetAllIds`: entries created at the same time come in any order.
- `TemplateCache.Cache.GetComponent`: paths are compared as the cache's keys are, so two files whose paths differ in case only are one path; one cache per process, as its global counters assume.
- Allocation failure, 32-bit overflow of sizes and counters, and reads past a buffer's end.
- `Strings.Strings.Replace`: a negative position, for which the source writes in front of the buffer. Assignment from a C string and `reserve`, which also sets the length, write without their own buffer as well and are not modelled.
- `string::operator+=` with the string itself, `number`, `split` and `percent_decode`.
- `Bmp.DecodeBmp`: run-length compressed files end as `Compressed`.
- `Tiff.ParseIfd`: values are recorded by where they lie, not converted; description tables are left out. A write through a stale reference is a value that does not reach its directory, whatever else it may hit; a full vector's capacity doubles.
- `Calendar.NormalizeTm`: before 1 January -4799 it states the result as the divisions give it, which need not be the day meant.
- `Calendar.RoundTrip`: times are exact reals; floating-point rounding is not modelled. Date masks and locales are left out.
- GIF palettes, whole GIF files, PNM, EXIF and IPTC descriptions, security rows, the remaining built-in functions, code generation and the server: no deep invariant, or none that the code keeps.
