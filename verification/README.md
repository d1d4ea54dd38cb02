# rcutils, modelled and verified

rcutils is a C utility library. This project models the parts of it that hold state or compute
something hard, and proves what they promise, for every input, every run and every pattern of
allocation failures:

- **Allocator** (`Allocation.dfy`): the user-supplied allocator is an oracle that may fail at any
  request, with a ledger (`live`) of the blocks handed out. A block can be freed only while it is
  live, so double frees are excluded by the precondition of `Deallocate`, and leaks by the
  postconditions that say what is live afterwards. Methods take the blocks of everybody else as the
  ghost argument `rest`.
- **Array list** (`ArrayLists.dfy`), **hash map** (`PowersOfTwo.dfy`, `Buckets.dfy`,
  `GrowthCosts.dfy`, `BucketArrays.dfy`, `HashMaps.dfy`, `HashMapRuns.dfy`): the chained hash map
  with power-of-two capacity refines a finite map through every call, whatever fails.
- **Logger** (`LoggerLevels.dfy`, `Logging.dfy`): severity levels by dotted ancestors on top of the
  hash map, the sweep that deletes while it iterates, and shutdown. **Format compiler**
  (`LogFormat.dfy`, `LogFormatLaws.dfy`, with `CharArrays.dfy` for the output): the compiled handler
  list prints what a character-by-character expansion prints.
- **Fault injection** (`FaultInjection.dfy`, `FaultLaws.dfy`): the lock-free counter as a step
  system for any number of threads, and the test loop.
- **SHA-256** (`Sha256Spec.dfy`, `Sha256.dfy`): the streaming implementation against FIPS 180-4, whose
  functions are pinned bit by bit (`Sha256Laws.dfy`) and by the example "abc" (`Sha256Example.dfy`).
- **Algorithms that refine a simple specification**: string replacement (`ReplStr.dfy`,
  `ReplStrLaws.dfy`), tokenizing (`Split.dfy`), directory size by worklist (`Directories.dfy`,
  `DirectoryLaws.dfy`), the slot-array string map (`Slots.dfy`, `StringMaps.dfy`,
  `StringMapRuns.dfy`), the decimal printer (`Decimals.dfy`) and the lazily cached error string
  (`ErrorStates.dfy`).

Where a method and its specification share a function, a lemma states what that function is in
literal terms: in numbers, texts, concatenations or single bits.

`dafny verify dfyconfig.toml` checks everything.

Results that go against what one would expect of the source, each with its exact condition:

- `rcutils_hash_map_init` with a capacity above 2^63 makes a map of capacity 1
  (`HashMaps.HashMap.RoundCapacity`, `HashMaps.HashMap.Init`).
- `rcutils_hash_map_set` reports lack of memory if and only if the key is new and a request for its
  entry or for its bucket fails (`HashMap.StoreFails`); at the load factor it doubles the capacity
  if and only if none of the requests for growing fails, and that failure is not reported
  (`HashMaps.HashMap.Set`). How many these are is known before the call (`HashMap.PlanFor`): one for
  the larger array, and two, one or none for each entry, by how many others its hash sends there.
  `HashMaps.GrowthFailureIsSilent` is an oracle under which that happens.
- `add_key_to_hash_map` fails if and only if the name is new and the request for its copy, or one of
  those of the map, fails; it leaks the copy in exactly the second case (`Logging.Logger.AddKey`).
- `rcutils_logging_set_logger_level` fails if and only if the severity is valid and
  `Logger.SettingFails` holds before the call, and a failed call changes the levels if and only if
  the name had one, which is then forgotten (`Logging.Logger.SetLevel`). `Logging.ForgottenAndLeaked`
  is an oracle under which a level is forgotten and a copy leaks. The failed call still sets the
  default level for the empty name.
- `rcutils_string_map_reserve` keeps all pairs exactly when no slot in use lies at or past the new
  capacity (`Slots.ResizedKeeps`); `StringMaps.ReserveLosesPair` is a run of calls in which it does not.
- Whether an overwritten error is reported depends on its having been formatted before, exactly when
  the new message is a non-empty prefix of the old text but not of the old message
  (`ErrorStates.WhenFormattingMatters`); `ErrorStates.SeenOrUnseen` is such a case.

## Model

| member | source | states |
|---|---|---|
| Allocation.Allocator.Allocate | include/rcutils/allocator.h:45-54 | a request fails exactly when the oracle says so, and otherwise hands out a block that is not live |
| Allocation.Allocator.Deallocate | include/rcutils/allocator.h:45-54 | only a live block (or NULL) can be freed, and it alone leaves the ledger |
| Allocation.Allocator.Reallocate | include/rcutils/allocator.h:55-66 | on failure the old block stays live, on success only the new one is |
| ArrayLists.InitList | src/array_list.c:52-90 | two blocks or none; BAD_ALLOC exactly when one of the two requests fails; capacity 0 is an invalid argument |
| ArrayLists.FiniList | src/array_list.c:93-102 | gives back exactly the two blocks of the list |
| ArrayLists.AddToList | src/array_list.c:104-149 | appends, doubling a full store first; a failed call changes nothing |
| ArrayLists.ArrayList.IncreaseCapacity | src/array_list.c:104-118 | doubles the capacity and keeps the elements, or fails and changes nothing |
| ArrayLists.ArrayList.Add | src/array_list.c:130-149 | appends in the heap array; fails exactly when the list is full and the request for more fails |
| ArrayLists.ArrayList.Set | src/array_list.c:152-162 | replaces one element, or rejects an index past the end |
| ArrayLists.ArrayList.Remove | src/array_list.c:165-184 | removes one element and keeps the order of the others, or rejects the index |
| ArrayLists.ArrayList.Get | src/array_list.c:187-197 | the element at the index, or an invalid argument |
| PowersOfTwo.NextPowerOfTwo | src/hash_map.c:234-244 | the least power of two that is at least v for v in 1..2^63; 1 for 0 and above 2^63, where the addition wraps |
| PowersOfTwo.SmearStep | src/hash_map.c:238-241 | one smearing step extends the run of ones below the leading bit to twice its length |
| PowersOfTwo.SmearedIsNextPower | src/hash_map.c:234-244 | the fully smeared word plus one is the least power of two above, and wraps exactly from 2^63 on |
| PowersOfTwo.PowerTest | src/hash_map.c:271-275 | v & (v - 1) is 0 exactly for powers of two |
| PowersOfTwo.MaskIsMod | src/hash_map.c:358 | for a power-of-two capacity, h & (capacity - 1) is h % capacity |
| PowersOfTwo.AndBit | src/hash_map.c:234-275 | bit k of a & b is that of both, for every k |
| PowersOfTwo.OrBit | src/hash_map.c:234-244 | bit k of a | b is that of either |
| PowersOfTwo.ShrBit | src/hash_map.c:234-244 | bit k of a >> n is bit n + k of a |
| PowersOfTwo.BitsTell | src/hash_map.c:234-275 | a number is known from its bits |
| PowersOfTwo.PowersAreBelowHalf | src/hash_map.c:271-275 | a power of two that fits in 64 bits is at most 2^63 |
| Buckets.LookInBucket | src/hash_map.c:350-375 | with every entry in the bucket of its hash, scanning that one bucket finds a key exactly when the map has it |
| Buckets.ListsUnique | src/hash_map.c:350-375 | a listing with distinct keys determines the map |
| Buckets.ListsInsert | src/hash_map.c:154-174 | inserting an entry with a new key anywhere in the listing is a map update |
| Buckets.ListsRemove | src/hash_map.c:447-476 | removing an entry from the listing removes its key from the map |
| Buckets.ListsReplace | src/hash_map.c:399-401 | replacing an entry by one with the same key is a map update |
| Buckets.ListsSize | src/hash_map.c:435 | the number of listed entries is the size of the map |
| Buckets.SumOfListing | src/hash_map.c:189-228 | two listings of the same map own the same blocks: moving entries between buckets neither loses nor duplicates one |
| BucketArrays.AllocateNewMap | src/hash_map.c:85-101 | one block for the array, every bucket uninitialised |
| BucketArrays.InsertEntry | src/hash_map.c:154-174 | the list of the bucket is created on demand; BAD_ALLOC exactly when one of its at most two requests fails, and then the buckets are as before |
| BucketArrays.DeallocateEntry | src/hash_map.c:104-113 | frees key, value and entry, any of which may be NULL |
| BucketArrays.DeallocateItems | src/hash_map.c:127-142 | frees the entries of a bucket, each once |
| BucketArrays.DeallocateMap | src/hash_map.c:116-151 | frees every list and the array, and the entries exactly when asked to |
| GrowthCosts.FullAtPowers | src/array_list.c:104-149 | a list that began with two places is full after exactly 2, 4, 8, .. entries |
| GrowthCosts.FillInsert | src/hash_map.c:189-214 | the requests for filling the larger array depend on the hashes only, not on their order |
| GrowthCosts.FillBound | src/hash_map.c:189-214 | they are at most two per entry |
| GrowthCosts.PaidOneMore | src/hash_map.c:206-212 | one moved entry keeps: every bucket of the larger array has the capacity its number of entries needs, and the requests made are those of the entries moved |
| BucketArrays.MoveEntry | src/hash_map.c:206-212 | one entry is moved, with the requests it costs, or the first of them to fail ends the loops |
| BucketArrays.RehashStep | src/hash_map.c:206-212 | one moved entry keeps: both listings stand for the same map, and every entry sits in the bucket of its hash |
| BucketArrays.NextToMove | src/hash_map.c:189-214 | the entry that the loops reach has not been moved before |
| BucketArrays.Rehash | src/hash_map.c:189-214 | on success the new array lists the same entries as the old one, well placed, after exactly the requests that their hashes determine; on failure the half-filled array is still the caller's to free |
| HashMaps.HashMap.RoundCapacity | src/hash_map.c:271-275 | the least power of two from the requested capacity on, or 1 above 2^63 |
| HashMaps.HashMap.Init | src/hash_map.c:247-302 | an empty map that owns exactly its two blocks, with its capacity rounded up (1 above 2^63); BAD_ALLOC, with nothing allocated, exactly when one of its two requests fails |
| HashMaps.HashMap.Fini | src/hash_map.c:305-317 | after it nothing the map owned is live |
| HashMaps.HashMap.Find | src/hash_map.c:339-383 | finds the entry exactly when the abstract map has the key |
| HashMaps.HashMap.KeyExists | src/hash_map.c:479-502 | true exactly for the keys of the map, the shortcut for an empty map included |
| HashMaps.HashMap.Get | src/hash_map.c:505-528 | the value bound to the key, or NOT_FOUND |
| HashMaps.HashMap.Overwrite | src/hash_map.c:399-401 | an existing key gets the new value, and the same blocks stay owned |
| HashMaps.HashMap.AllocateEntry | src/hash_map.c:408-417 | all three blocks of an entry, or none exactly when one of the three requests fails |
| HashMaps.HashMap.NewEntry | src/hash_map.c:408-424 | an entry with its hash, key and value that owns exactly its three blocks, or nothing exactly when one of the three requests fails |
| HashMaps.HashMap.AppendEntry | src/hash_map.c:426-435 | the entry goes to the end of its bucket; exactly when a request for the bucket fails it still belongs to the caller |
| HashMaps.HashMap.InsertNew | src/hash_map.c:402-436 | a new key is added, or, exactly when a request for the entry or its bucket fails, everything is given back and the map is as before |
| HashMaps.HashMap.BuildLarger | src/hash_map.c:181-219 | the doubled array with every entry, or everything requested is given back |
| HashMaps.HashMap.Install | src/hash_map.c:221-228 | the old array is freed without its entries; the map stays the same map |
| HashMaps.HashMap.CheckAndGrow | src/hash_map.c:177-231 | at load 0.75 doubles the capacity and keeps the map exactly when none of its requests fails, and else rolls back to exactly the old state; never more requests than one and those of the lists |
| HashMaps.FillingBound | src/hash_map.c:189-214 | growing makes at most one request and two per entry |
| HashMaps.InsertFilling | src/hash_map.c:426-435 | what growing would cost after a new entry is what its hash adds to the cost before |
| HashMaps.HashMap.Store | src/hash_map.c:386-436 | set without growing: a map update, or BAD_ALLOC with nothing changed exactly when the key is new and a request for it fails |
| HashMaps.HashMap.Set | src/hash_map.c:386-444 | acts as the map update; BAD_ALLOC, leaving the map unchanged, exactly when the key is new and a request for it fails; at load 0.75 the capacity doubles exactly when none of the requests for growing fails, whose number is known before the call; that failure is not reported |
| HashMaps.HashMap.Unset | src/hash_map.c:447-476 | removes exactly the key, frees exactly its entry, the other entries keep their order, and its bucket has room for one more |
| HashMaps.HashMap.ScanFrom | src/hash_map.c:565-587 | the first entry at or after a position in (bucket, index) order |
| HashMaps.HashMap.GetNext | src/hash_map.c:531-590 | the entry right after the one with the previous key; the first for NULL; NOT_FOUND for an unknown key |
| HashMaps.HashMap.Enumerate | src/hash_map.c:531-590 | feeding back each returned key visits every entry exactly once, in (bucket, index) order, and then NO_MORE_ENTRIES is returned |
| HashMaps.HashMap.RemoveAt | src/hash_map.c:468-473 | the entry leaves its bucket and the map; only its own blocks are left to be freed |
| HashMaps.GrowthFailureIsSilent | src/hash_map.c:438-443 | an oracle under which set returns OK with the map full and not grown |
| HashMapRuns.Call | src/hash_map.c:386-528 | every call acts as the finite-map operation; lack of memory is the reply exactly when a request for a new entry fails |
| HashMapRuns.RunCalls | src/hash_map.c:386-528 | any sequence of calls acts on a plain finite map, each reply of lack of memory coming from a failed request of that very call |
| HashMapRuns.RunsAgree | src/hash_map.c:386-528 | replies and contents of a run are determined by the contents at its beginning and by which calls report lack of memory |
| HashMapRuns.LoadStep | src/hash_map.c:177-231 | one call: from two buckets on, a set restores load below 0.75 with one doubling at most; capacity 1 becomes 2 |
| HashMapRuns.LoadOverRun | src/hash_map.c:177-231 | at every point of a run without failures: the load stays below 0.75; from capacity 1 it is at most 0.75 from the first set on and below it from the second on |
| HashMapRuns.WholeLife | src/hash_map.c:247-528 | from init through any calls to fini the replies are those of a finite map, the load is bounded after every call, and exactly the blocks of before are live |
| LoggerLevels.EffectiveIs | src/logging.c:975-1079 | the recursive search returns the level L exactly when L is that of the longest of name and dotted ancestors that has one, else the default |
| LoggerLevels.EffectiveMeans | src/logging.c:975-1079 | L is the effective level exactly when a name p, the name itself or what stands before one of its dots, is stored with L plus the mark bit, L not 0, and no longer one has a level, or none has one and L is the default |
| LoggerLevels.AncestorMeans | src/logging.c:1020-1060 | the ancestors of a name are the name and whatever p makes it p + "." + suffix |
| LoggerLevels.MarkMeans | src/logging.c:910-936 | a severity is stored as itself plus 1 and read back as itself |
| LoggerLevels.UnsetInherits | src/logging.c:975-1079 | a name with level 0 has the level of its longest proper ancestor with one, else the default |
| LoggerLevels.EffectiveFrame | src/logging.c:1010-1060 | maps that agree on a name and its dotted ancestors give it the same effective level |
| LoggerLevels.NotAncestor | src/logging.c:1010-1060 | only the name itself and names of the form n. + suffix have n as an ancestor |
| LoggerLevels.SetIsLocal | src/logging.c:1081-1182 | setting a level can change the effective level only of that name and names below it |
| LoggerLevels.SetTakesEffect | src/logging.c:1081-1182 | a set level is the effective level of every name for which no longer ancestor has one |
| Logging.FindLastN | src/find.c:57-75 | the last dot before the given length, if there is one |
| LoggerLevels.DefaultReaches | src/logging.c:870-878 | setting the default level reaches exactly the names that have no level and no ancestor with one |
| Logging.Logger.GetSeverityLevel | src/logging.c:926-939 | the stored level without its mark bit, or NOT_FOUND and UNSET |
| Logging.Logger.SearchAncestors | src/logging.c:1020-1060 | the loop over dots computes the specified effective level |
| Logging.Logger.GetEffectiveLevel | src/logging.c:975-1079 | the effective level by the specification, on the empty-map shortcut and on the slow path; -1 exactly when some level is stored, none for this name, and the copy of the name is refused; nothing stays allocated |
| Logging.Logger.Drop | src/logging.c:1144-1160 | unsets an entry and frees its name once |
| Logging.Logger.SweepOne | src/logging.c:1110-1163 | the successor fetched by key is still the next original entry after the unset has shifted its bucket |
| Logging.Logger.Sweep | src/logging.c:1110-1163 | visits every original entry exactly once and removes exactly the name and the unmarked entries that begin with it; the others keep their order |
| Logging.SweptMap | src/logging.c:1110-1163 | what the sweep leaves in the listing is what it leaves in the map |
| Logging.SweptMeans | src/logging.c:1110-1163 | swept away are the name and the entries that begin with it and whose stored number is even |
| Logging.KeptLists | src/logging.c:1110-1163 | filtering the listing is filtering the map |
| Logging.Logger.StoreKey | src/logging.c:903-921 | the map has the name with its level, or, exactly when a request of the map for a new name fails, the copy is still unowned and the map as before |
| Logging.Logger.AddKey | src/logging.c:889-924 | success binds the name; Error exactly when the name is new and the copy or its entry is refused; one block leaks exactly when the copy was made |
| Logging.Logger.AddNew | src/logging.c:896-921 | a new name: Error exactly when one of its requests fails, with the copy leaked when it was made |
| Logging.Logger.Replace | src/logging.c:1107-1182 | the swept map, with the name bound to the marked level exactly when no request for it fails; a swept name leaves room in its bucket |
| Logging.Logger.SetLevel | src/logging.c:1081-1182 | the whole effect on levels, default level and blocks, for every return code, and when each is returned; a failed call changes the levels exactly when the name had one |
| Logging.Logger.SetAndGet | src/logging.c:975-1182 | after a successful set_logger_level, get_logger_effective_level answers the level that was set; after setting 0, that of the longest proper ancestor that has one, else the default |
| Logging.SettingLasts | src/logging.c:889-1182 | over whole runs, the level last set for a name with success is its level, and its effective level unless it is 0, until the next call for that name, whatever other calls do or fail |
| Logging.Logger.Apply | src/logging.c:870-1182 | one call of a run, of set_logger_level or set_default_logger_level, with its exact failure and leak |
| Logging.ForgottenAndLeaked | src/logging.c:1081-1182 | an oracle under which a name loses its level and a copy of the name leaks |
| Logging.Logger.Shutdown | src/logging.c:768-813 | the loop ends with an empty map and every stored name freed once; only the blocks of others stay live |
| Logging.SetToMarked | src/logging.c:1081-1182 | while all entries are user-set, a successful call is a plain map update and a failed one removes the name |
| Logging.RunMarked | src/logging.c:1081-1182 | in every reachable state all entries are user-set |
| Logging.RunKeepsAncestors | src/logging.c:889-1182 | over whole runs, such calls leave the levels of the name and all its ancestors alone |
| Logging.RunIsLocal | src/logging.c:889-1182 | over whole runs, calls that name neither a logger nor its ancestors leave its effective level alone, failed calls included; calls that set the default level do so too when it or an ancestor has a level |
| Logging.RunSettings | src/logging.c:1081-1182 | any calls on a live logger form such a run, which leaks at most one block per failed call |
| Logging.WholeLife | src/logging.c:629-813 | from initialization, which fails with ERROR exactly when one of its two requests does, through any calls to shutdown, only what failed calls leaked stays allocated, at most one block each |
| LogFormat.KnownTokenIs | src/logging.c:390-411 | a handler is found exactly for the name of its token |
| LogFormatLaws.TokenTexts | src/logging.c:389-400 | the nine texts of the table, each with its token |
| LogFormatLaws.NoOtherToken | src/logging.c:402-411 | no other text is a token |
| LogFormatLaws.TextInBraces | src/logging.c:576-627 | "{" + text + "}" becomes the value of the token with that text, one of the nine, or else its brace is literal and the text is read on |
| LogFormatLaws.ExpandObeysLaws | src/logging.c:549-627 | the expansion obeys four laws in literal braces and texts: nothing, a character other than a brace, a brace with no closing one behind it, a text in braces |
| LogFormatLaws.LawsDetermine | src/logging.c:549-627 | any function on format strings that obeys these laws is the expansion |
| LogFormat.LiteralRun | src/logging.c:563-575 | text without an opening brace is literal |
| LogFormat.LiteralTail | src/logging.c:591-598 | where no closing brace follows, the rest is literal |
| LogFormat.SegmentMeaning | src/logging.c:549-627 | each handler the compiler may add prints what the expansion prints for its part of the format string |
| LogFormat.CompiledMeaning | src/logging.c:549-627 | running a compilation and expanding the rest is expanding the whole |
| LogFormat.BracesAreIdentity | src/logging.c:390-400 | printing tokens back as {token} gives the format string |
| LogFormat.CompilationIsExpansion | src/logging.c:549-627 | a list, even one cut off at the handler limit, prints the expansion of the part of the format string that it covers, and its tokens printed back give that part |
| LogFormat.PrefixIsExpansion | src/logging.c:1253-1262 | the handlers before any point print the expansion of what they cover |
| LogFormat.Find | src/find.c:33-45 | the distance to the first delimiter, or SIZE_MAX |
| LogFormat.FindTokenHandler | src/logging.c:402-411 | the search through the table finds the known token |
| LogFormat.Formatter.AddHandler | src/logging.c:533-547 | appends, or refuses the 1025th handler |
| LogFormat.Formatter.ParseAndCreateHandlersList | src/logging.c:549-627 | the list is a compilation of the format string, of all of it unless the limit of 1024 handlers is hit |
| LogFormat.Formatter.Append | src/logging.c:413-432 | one handler appends its output to the buffer, or returns NULL and appends nothing |
| LogFormat.Formatter.FormatMessage | src/logging.c:1240-1263 | the output buffer grows by the expansion of what the handlers cover, up to the first that returns NULL, exactly then with ERROR |
| CharArrays.CharArray.Resize | src/char_array.c:81-125 | the new capacity, the kept characters and the change from a borrowed to an owned buffer |
| CharArrays.CharArray.ExpandAsNeeded | src/char_array.c:128-143 | at least the requested capacity and at least 1.5 times the old one, with the same content |
| CharArrays.CharArray.StrNCat | src/char_array.c:214-241 | appends to the content; a borrowed buffer that is too small is left as it was |
| CharArrays.CharArray.StrCpy | src/char_array.c:195-211 | the content becomes the source string |
| FaultInjection.ExecConcat | src/testing/fault_injection.c:42-59 | running two schedules one after the other is running their concatenation |
| FaultInjection.EpochCountsDown | src/testing/fault_injection.c:42-59 | between two sets, over all interleavings, the successful compare-exchanges return consecutive values from the count down, at most count + 1 of them |
| FaultInjection.EpochAfterStore | src/testing/fault_injection.c:21-59 | the same after a set in the middle of any schedule, with calls that loaded before the set and compare after it |
| FaultInjection.FaultsAreBounded | src/testing/fault_injection.c:21-59 | over all interleavings, the calls that return 0 never outnumber the non-negative sets |
| FaultLaws.CallsAreAtomic | src/testing/fault_injection.c:21-59 | over all interleavings every call acts at one instant: a successful one returns the count as it is at that instant, at least 0, and takes one from it; any other returns a count below 0 that was the count at some instant after the previous call of that thread returned; only stores and successful calls change the count |
| FaultLaws.CountsMean | src/testing/fault_injection.c:42-59 | what is counted, event by event: calls that returned 0, stores from 0 on, and the values of successful calls |
| FaultInjection.AttemptsAreBounded | src/testing/fault_injection.c:42-59 | a call that loaded v >= 0 makes at most v + 1 attempts without a set, however the others interfere |
| FaultInjection.Turn | src/testing/fault_injection.c:42-59 | what other threads' steps, sets included, leave alone between two accesses of a thread |
| FaultInjection.FaultCounter.SetCount | src/testing/fault_injection.c:21-24 | stores the count as one step |
| FaultInjection.FaultCounter.MaybeFail | src/testing/fault_injection.c:42-59 | the do-while loop performs its accesses as steps of the step system, each after the steps that the other threads take before it, sets included; only the last access returns, with that value; the attempts are the accesses after the load, and without sets at most count + 1 |
| FaultInjection.RoundOutcome | include/rcutils/testing/fault_injection.h:160-168 | a round with count n either makes exactly its n-th call fail or, with the count not used up, none |
| FaultInjection.FaultInjectionTest | include/rcutils/testing/fault_injection.h:160-168 | the loop ends within K + 1 rounds for a body of at most K calls; round n makes exactly its n-th call fail, the last round none |
| Sha256Spec.ZeroBytesIsLeast | src/sha256.c:157-168 | the padding is the least that leaves 8 bytes for the length (FIPS 180-4, section 5.1.1) |
| Sha256Laws.PadMeans | src/sha256.c:155-180 | the padded message is the message, the byte 0x80, the fewest zeros that make whole blocks, and in eight bytes the number of its bits, which read as a number is 8 times its length |
| Sha256Spec.WordRoundTrip | src/sha256.c:185-194 | reading the big-endian output bytes back gives the word |
| Sha256Laws.ChMeans | src/sha256.c:31-34 | Ch has the bits of y where x has ones and those of z elsewhere |
| Sha256Laws.MajMeans | src/sha256.c:36-39 | Maj has the common bit wherever two of its words agree |
| Sha256Laws.RotrBit | src/sha256.c:25-29 | bit i of a rotation by n is bit (i + n) mod 32 |
| Sha256Laws.BitsTell | src/sha256.c:25-59 | a word is known from its 32 bits |
| Sha256Laws.BigSigma0Bits | src/sha256.c:41-44 | bit i is the exclusive or of bits i + 2, i + 13 and i + 22, counted round the word |
| Sha256Laws.BigSigma1Bits | src/sha256.c:46-49 | the same for 6, 11 and 25 |
| Sha256Laws.SmallSigma0Bits | src/sha256.c:51-54 | the same for 7, 18 and, not counted round, 3 |
| Sha256Laws.SmallSigma1Bits | src/sha256.c:56-59 | the same for 17, 19 and, not counted round, 10 |
| Sha256Example.DigestOfAbc | src/sha256.c:116-194 | the digest of "abc" is ba7816bf 8f01cfea 414140de 5dae2223 b00361a3 96177a9c b410ff61 f20015ad |
| Sha256Example.HashOfAbc | src/sha256.c:72-114 | the hash value of its one block, from every word of the schedule and all 64 rounds |
| Sha256.Context.Schedule | src/sha256.c:77-85 | the message schedule W of section 6.2.2, step 1 |
| Sha256.Context.RunRounds | src/sha256.c:87-104 | 64 rounds of section 6.2.2, step 3 |
| Sha256.Context.Transform | src/sha256.c:72-114 | the state becomes the compression of old state and block |
| Sha256.Context.Update | src/sha256.c:130-150 | keeps: the state is the hash of the full blocks, the buffer the tail of fewer than 64 bytes; the message grows by the input |
| Sha256.Context.Absorb | src/sha256.c:137-149 | one copied chunk, with the transform when the buffer is full, keeps that invariant |
| Sha256.Context.PadBuffer | src/sha256.c:155-168 | the 0x80 byte and the zeros, with one more block when the length would not fit |
| Sha256.Context.PutLength | src/sha256.c:171-180 | the bit length in the last eight bytes, most significant first |
| Sha256.PadSplit | src/sha256.c:155-180 | the padded message of section 5.1.1 is the full blocks and the one or two that the code builds |
| Sha256.Context.Final | src/sha256.c:152-194 | the output is the digest of the message, for fewer than 2^61 bytes |
| Sha256.Context.Emit | src/sha256.c:185-194 | the interleaved output loop writes the state words big-endian |
| Sha256.HashChunks | src/sha256.c:116-194 | however a message is cut into updates, final gives the digest of the whole |
| ReplStr.MatchesAreApart | src/repl_str.c:75-96 | the cached positions are matches, at least strlen(from) apart |
| ReplStrLaws.OccursMeans | src/repl_str.c:75 | a match at i is a way to write the string as pre + from + post with pre of length i |
| ReplStrLaws.CutInPieces | src/repl_str.c:75-96 | every string is t0 + from + t1 + .. + from + tk, where no match begins within a piece that one follows, and tk has none |
| ReplStrLaws.ReplacedPieces | src/repl_str.c:46-144 | with any such pieces the result is t0 + to + t1 + .. + to + tk |
| ReplStr.Record | src/repl_str.c:78-93 | the match is added to the cache, which grows, when full, by 16 and then three times as much each time, at most 1048576 |
| ReplStr.SearchAt | src/repl_str.c:75-96 | every search finds the next cached position, the last one nothing |
| ReplStr.StepFrom | src/repl_str.c:75-96 | from one search start to the next, the specification emits the text before the match and the replacement |
| ReplStr.LengthFrom | src/repl_str.c:98-106 | the length of the result is that of the string plus (tolen - fromlen) per match |
| ReplStr.WrapIsHarmless | src/repl_str.c:101-103 | the length computed modulo 2^64, with tolen - fromlen and its product wrapping, is the true length whenever that fits |
| ReplStr.FindAll | src/repl_str.c:75-96 | the cache holds all leftmost non-overlapping matches, exactly when no request fails, count is within its capacity, and only the cache is allocated; with an empty pattern the loop ends at the first request that fails |
| ReplStr.CopyReplaced | src/repl_str.c:125-136 | the copy loop writes exactly the result and stops exactly at its length |
| ReplStr.ReplaceString | src/repl_str.c:46-144 | the result is leftmost non-overlapping replace-all with its NUL, or NULL exactly when a request fails, and the cache is freed on every path; NULL for an empty pattern |
| Split.RunsAreTheRuns | src/split.c:46-110 | the scan yields exactly the non-empty maximal delimiter-free runs |
| Split.RunsAreOrdered | src/split.c:46-110 | in order and disjoint |
| Split.TokensAreRuns | src/split.c:46-110 | the tokens are the texts of these runs, in the same order |
| Split.CountSlots | src/split.c:60-65 | one slot more than there are delimiters in the trimmed range |
| Split.AtDelimiter | src/split.c:74-94 | a shrink or a store keeps: stored tokens lie below the shrinking size, so writing NULL at data[size] overwrites none |
| Split.SplitLoop | src/split.c:70-95 | at the end of the loop the stored tokens are those up to the last delimiter |
| Split.LastToken | src/split.c:98-108 | the trailing token is stored or its slot given up |
| Split.StringArray.Fini | src/string_array.c:63-91 | frees every stored token and the array, each once |
| Split.SplitString | src/split.c:31-122 | the result holds exactly the non-empty runs in order, or everything allocated is freed |
| Directories.SizeIsOfVisits | src/filesystem.c:338-407 | the recursive size is the sum of the files directly in the visited directories, none of which is deeper than the limit |
| Directories.VisitsAreClosed | src/filesystem.c:293-335 | every directory within the limit that a visited directory lists is visited too |
| DirectoryLaws.VisitsAreReached | src/filesystem.c:293-335 | visited are the root and, with maxDepth 0 or depth + 1 <= maxDepth, every directory that a visited one lists, under path + "/" + name and one deeper, and no other |
| DirectoryLaws.ReachedIsUnique | src/filesystem.c:293-335 | that says which directories they are |
| DirectoryLaws.NoneDeeper | src/filesystem.c:311-327 | no visited directory is deeper than a limit other than 0 |
| DirectoryLaws.FileSizeMeans | src/filesystem.c:311-330 | a regular file counts with its size, and nothing else counts |
| DirectoryLaws.OwnBytesMeans | src/filesystem.c:311-330 | each item adds to its directory the size of a regular file, and any other item nothing |
| Directories.VisitsAreDistinct | src/filesystem.c:338-407 | with distinct names in a directory and no slash in a name, no path is visited twice |
| Directories.DirList.InsertBehindHead | src/filesystem.c:317-323 | splices a node in behind the head of the linked list |
| Directories.DirList.RemoveFirst | src/filesystem.c:285-291 | unlinks the first node and frees its two blocks |
| Directories.DirList.Free | src/filesystem.c:274-283 | frees every node of the list once |
| Directories.StartIterator | src/filesystem.c:410-472 | an open iterator with its two blocks, or nothing allocated |
| Directories.EndIterator | src/filesystem.c:498-521 | gives back the two blocks of the iterator |
| Directories.CheckAndCalculateSize | src/filesystem.c:293-335 | a directory within the limit goes behind the head, a file adds its size modulo 2^64, the own and parent entries do nothing; a failure changes neither |
| Directories.ReadDirectory | src/filesystem.c:376-395 | one round reads the directory at the head: bytes found plus sizes below the listed children make up its recursive size |
| Directories.AccountedStep | src/filesystem.c:375-398 | bytes counted plus sizes still listed stay the size of the whole tree, visited plus still listed directories stay its preorder, and less is left to visit |
| Directories.Round | src/filesystem.c:375-398 | one round keeps that account and unlinks the directory read, or fails with everything freed |
| Directories.CalculateDirectorySize | src/filesystem.c:338-407 | terminates; without failures the size is the recursive one modulo 2^64 and the directories are read in preorder; on every path all nodes, paths and iterators are freed |
| Slots.CountIsSize | src/string_map.c:271-327 | the number of occupied slots is the size of the finite map |
| Slots.PairsStore | src/string_map.c:300-326 | storing a pair in a free slot, or in the slot of its key, is a map update |
| Slots.PairsClear | src/string_map.c:139-147 | clearing a slot removes its key from the map |
| Slots.CountFull | src/string_map.c:296-304 | when size is below capacity there is a free slot |
| Slots.ResizedKeeps | src/string_map.c:150-203 | resizing keeps the pairs if and only if no slot in use is cut off |
| Slots.ShrinkingCanLose | src/string_map.c:150-203 | slots with one pair, in the second of them, lose it when cut to capacity 1 |
| StringMaps.ReserveLosesPair | src/string_map.c:150-343 | set "a", set "b", unset "a", reserve 1: every call succeeds and the pair of "b" is gone |
| StringMaps.InitMap | src/string_map.c:54-83 | an empty map of the requested capacity, or nothing allocated |
| StringMaps.StringMap.FindIndex | src/string_map.c:247-268 | the slot of a key, exactly when the map has it |
| StringMaps.StringMap.KeyExists | src/string_map.c:346-366 | true exactly for the keys of the map |
| StringMaps.StringMap.Get | src/string_map.c:369-391 | the value bound to the key, or NULL |
| StringMaps.StringMap.GetNextKey | src/string_map.c:394-431 | the key in the first occupied slot after that of the given key; the first for NULL; NULL for an unknown address |
| StringMaps.StringMap.Reallocate | src/string_map.c:176-200 | moves the slots to the new capacity, or fails and changes nothing |
| StringMaps.StringMap.Reserve | src/string_map.c:150-203 | the slots after any reserve, growing or shrinking, and the blocks lost with cut-off slots; the map is kept when nothing in use is cut off |
| StringMaps.StringMap.StoreNew | src/string_map.c:294-320 | both strings of a new pair are stored, or neither stays |
| StringMaps.StringMap.Overwrite | src/string_map.c:307-320 | the value is replaced and the old one freed, or nothing changes |
| StringMaps.StringMap.SetNoResize | src/string_map.c:271-327 | a map update, in the slot of the key or the first free one; NOT_ENOUGH_SPACE exactly for a new key in a full map; any failure leaves the mapping unchanged |
| StringMaps.StringMap.Double | src/string_map.c:233-239 | after growing there is room for one more |
| StringMaps.StringMap.Set | src/string_map.c:222-244 | a map update or BAD_ALLOC with the mapping unchanged, never NOT_ENOUGH_SPACE |
| StringMaps.StringMap.RemoveAt | src/string_map.c:139-147 | frees key and value of one slot |
| StringMaps.StringMap.Unset | src/string_map.c:330-343 | removes exactly the key and frees its slot, or reports that it is not there |
| StringMaps.StringMap.Clear | src/string_map.c:206-219 | the empty map with the same capacity; all strings are freed |
| StringMaps.StringMap.Fini | src/string_map.c:86-110 | nothing the map owned is live |
| StringMapRuns.Call | src/string_map.c:206-391 | every call, growing reserves and copies from another map included, acts as the finite-map operation, whatever fails |
| StringMapRuns.RunCalls | src/string_map.c:206-391 | any sequence of calls acts on a plain finite map |
| StringMapRuns.RunsAgree | src/string_map.c:206-391 | replies and pairs of a run without a failed request are determined by the pairs at its beginning and by which calls find no free slot |
| StringMapRuns.WholeLife | src/string_map.c:54-391 | from init through any calls to fini the replies are those of a finite map, and exactly the blocks of before are live |
| StringMaps.BeforeStep | src/string_map.c:444-457 | the pairs up to the next key are those before plus the current pair |
| StringMaps.CopyOne | src/string_map.c:444-457 | one round sets the current pair and fetches the next key, with the source unchanged |
| StringMaps.Copy | src/string_map.c:434-460 | on success the destination overridden by the source; on failure overridden by the pairs before the one that failed; also when both are the same map |
| Decimals.ParseDecimal | src/error_handling_helpers.h:109-134 | parsing the printed number gives it back, and it has no leading zeros |
| Decimals.DecimalParse | src/error_handling_helpers.h:109-134 | a digit string without leading zeros is what is printed for its value |
| Decimals.PlaceValue | src/error_handling_helpers.h:109-134 | the character k places from the right is, in "0123456789", the digit of that place, and the first is not a needless 0 |
| Decimals.Decimal64 | src/error_handling_helpers.h:109-134 | a 64-bit number has at most 20 digits |
| Decimals.PrintedStep | src/error_handling_helpers.h:122-126 | one more digit keeps: digits left to print followed by the reversed buffer are the decimal text |
| Decimals.ReverseStr | src/error_handling_helpers.h:91-104 | reverses the first len characters in place and touches no others |
| Decimals.ConvertUint64IntoCStr | src/error_handling_helpers.h:109-134 | the buffer of 21 characters holds the decimal text and its NUL |
| ErrorStates.CopyString | src/error_handling_helpers.h:51-86 | the destination holds the source cut to dst_size - 1 characters, and its NUL |
| ErrorStates.FormattedFits | src/error_handling_helpers.h:148-157 | message, file and line at their longest fit the buffer of 1024 |
| ErrorStates.SameStringMeans | src/error_handling.c:199-209 | a message of at most 1024 characters is the same as a text when it is a prefix of it, a longer one when its first 1024 are those of the text |
| ErrorStates.FormatErrorString | src/error_handling_helpers.h:139-176 | message + ", at " + file + ":" + line, never truncated again |
| ErrorStates.ErrorState.GetErrorString | src/error_handling.c:237-247 | however often it is called, the full text of the last error set, or "error not set" |
| ErrorStates.ErrorState.SetErrorState | src/error_handling.c:171-222 | the new state is message[..767], file[..228] and line; the warning is the full overwriting text exactly when an error was set and the message, cut to 1024 characters, is a prefix neither of the cached string nor of the old message |
| ErrorStates.WhenFormattingMatters | src/error_handling.c:199-213 | the warning depends on the old error having been formatted exactly when the new message is a non-empty prefix of the old text and not of the old message |
| ErrorStates.MessageWithAt | src/error_handling.c:199-213 | the old message followed by ", at " is such a message |
| ErrorStates.SeenOrUnseen | src/error_handling.c:199-213 | the same two errors with a warning, and, the first being read in between, without one |
| ErrorStates.ErrorState.FormatOverwriting | src/error_handling.c:89-168 | the whole warning fits its buffer of 4096 |
| ErrorStates.OverwritingMeans | src/error_handling.c:89-168 | the warning in literal texts around the full texts of the old and the new error |
| ErrorStates.ErrorState.ResetError | src/error_handling.c:250-260 | no error is set, and the state is empty |

## Left out

- Hash map buckets are lists held by value: updates in place and the aliasing of list and entry pointers are not captured there. The same list operations are proved on a heap array by the class `ArrayList`.
- The hash function is arbitrary, except that equal keys hash alike; `rcutils_hash_map_string_hash_func` itself is not modelled. Key and value bytes are mathematical values.
- Overflow of capacities in `size_t` (hash map, array list, string map): such requests are taken to fail in the allocator. Null-argument return codes and invalid allocators are left out everywhere.
- `create_format_string`: the logger starts from the decoded format string. The text that a token expands to is a function `env`.
- The cache of computed levels, which is commented out in the source; the sweep that would clear it is modelled. The logger's name table, output handlers, environment variables, time, console colours and streams.
- ReplStr.ReplaceString: an empty `from` with an allocator that never fails is excluded, because the C loop does not end then; a result whose length with its NUL reaches 2^64 is excluded, since the request would wrap.
- CharArrays.CharArray.Resize: allocation failure is not modelled, because the handle is not usable after it; in the model, requests for a larger buffer succeed.
- CharArrays.CharArray.ExpandAsNeeded: allocation failure is not modelled, as for `Resize`.
- CharArrays.CharArray.StrNCat: allocation failure is not modelled, as for `Resize`.
- CharArrays.CharArray.StrCpy: allocation failure is not modelled, as for `Resize`.
- LogFormat.Formatter.Append: a handler returns NULL when its token is one that cannot be expanded, not because the output buffer could not grow.
- LogFormat.Formatter.FormatMessage: the same as for `Append`.
- Borrowed char buffers of capacity 0; `rcutils_char_array_vsprintf`.
- Sha256.Context.Final: messages of 2^61 bytes and more, whose bit length does not fit in 64 bits. Secrets left in memory are not a subject here.
- SHA-256 round constants and initial state are written out as in FIPS 180-4, sections 4.2.2 and 5.3.3, not derived from primes.
- Fault injection is modelled as compiled in, with C11 sequentially consistent atomics; the width of the count and of the loop counter is not modelled.
- FaultInjection.FaultInjectionTest: the body is any schedule of calls that return; what the calls guard is not part of it.
- Directories: symbolic links and changes of the tree during the walk; the depth counter is unbounded; a directory is taken to list at least itself. How paths are joined and files measured by the operating system.
- StringMapRuns: a reserve that shrinks; what it does is stated by `StringMaps.StringMap.Reserve`. The other map of a copy does not change during a run.
- String map look-ups of a key prefix by length (`getn`, `key_existsn` with a shorter length).
- `rcutils_split_last`, `rcutils_cmdline_parser`, `rcutils_qsort`, string array comparison, `uint8_array`, shared libraries, processes, time: wrappers or without a clean specification.
- Error state: one thread's storage; the one-time initialization of that storage, and the messages printed when a string is truncated.
