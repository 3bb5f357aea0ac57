# CiK cache server, modelled in Dafny

CiK is a small key/value cache server written in C, with a PHP client. A
client sends a 16-byte request header (`C i K`, an op byte, lengths) followed
by the key, the tags and the value. The server answers with an 8-byte
response header (`C i K`, `t` or `f`, a big-endian size or error code),
followed by a payload after a success. Entries live in several open-addressing hash maps
chosen by the key's trailing bytes. A binary search tree indexes the keys by
tag. Memory comes from a bump allocator that feeds power-of-two size classes
with LIFO free lists. Requests are logged through a ring buffer, and the
live entries are written back out as SET requests at shutdown.

This project models that core as pure functions over immutable data. It
proves what each operation promises: encodings round-trip, handlers answer
the documented statuses, the index and the maps stay consistent, and the
allocator, queue and parser keep their invariants.

One module per component, one file each:

- `bytes.dfy` (`Bytes`): bytes, `Option`, big-endian words, length-prefixed streams.
- `status.dfy` (`Status`): status codes and their mask bits, status names, clear and list modes (`src/types.h`).
- `wire.dfy` (`Wire`): the request and response headers (`src/types.h`).
- `transport.dfy` (`Transport`): the read-exact and write-all loops of `src/server.c`.
- `server.dfy` (`Server`): the older dispatch, the status-to-reply rule and `close_client` of `src/server.c`.
- `entrymap.dfy` (`EntryMap`): the linear-probing hash map of `src/entry.c`.
- `tagtree.dfy` (`TagTree`): the tag tree, key lists, union and intersection of `src/tag.c`.
- `store.dfy` (`Store`): the cache state, map selection, deletion and the entry walks of `src/controller.c`.
- `controller.dfy` (`Controller`): the GET, SET, DEL, CLR, LST and NFO handlers and `handle_request` of `src/controller.c`.
- `memory.dfy` (`Memory`): padding, partitions, `reserve_memory` and `release_memory` of `src/memory.c`.
- `logqueue.dfy` (`LogQueue`): the log ring buffer and the log record packing of `src/log.c`.
- `config.dfy` (`Config`): the configuration file tokenizer and `parse_variable` of `src/config.c`.
- `util.dfy` (`Util`): `reverse_bytes`, `key2str` and `tag2str` of `src/util.h` and `src/util.c`.
- `persistence.dfy` (`Persistence`): the shutdown callback of `src/main.c`.
- `phpclient.dfy` (`PhpClient`): `save`, `makeSetMessage`, `writeMessage` and `readMessage` of `test.php`.

The files come from different revisions of the program:

- `src/types.h` is taken as the wire format.
- `src/controller.c` provides the request handlers. The older dispatch in `src/server.c` is modelled only for its routing.
- The SET frame of `test.php` puts three tag-length bytes in the header. That is an older layout, modelled as its own format (`PhpClient.DecodeLegacySet`). `PhpClient.LegacyFrameUnderCurrentHeader` states how the current header layout misreads it.

What `test.php` does, as the model follows it:

- `makeSetMessage` sends three tag-length bytes in the header, with no tag count, filtering, deduplication or digest of long keys and tags (`PhpClient.SetMessageTags`, `PhpClient.LongKeyWraps`).
- `readMessage` reads the header and the payload with one `fread` each, not with a read-exact loop (`PhpClient.ReadMessageSpec`).
- `save` lets the exception for a failure reply escape, OUT_OF_MEMORY included, instead of returning false (`PhpClient.SaveAfterWrite`).

In `src/types.h` the CLR tags follow the 16-byte header, as the struct says, not at the "offset 10" its comment gives.

## Model

| member | source | states |
|---|---|---|
| Status.StatusSeries | src/types.h:165-185 | OK is code 0 and carries no mask bit; BUG, CONNECTION_CLOSED and NETWORK_ERROR are exactly the codes carrying only 0x10, PROTOCOL_ERROR exactly the one carrying only 0x20, NOT_FOUND, EXPIRED and OUT_OF_MEMORY exactly those carrying only 0x40 |
| Status.CodeInjective | src/types.h:165-185 | distinct statuses have distinct numeric codes |
| Status.StatusName | src/types.h:187-205 | the name is "Unknown" exactly for a value that is not one of the eleven enumerators (masks included) |
| Status.StatusNameInjective | src/types.h:187-205 | two defined codes with the same name are the same code |
| Status.StatusNames | src/types.h:187-205 | every status a handler returns has a real name; NOT_FOUND is "Not found" and PROTOCOL_ERROR "Protocol error" |
| Status.ClearModeOf | src/types.h:147-154 | a mode byte names a clear mode exactly when it is 0..4, and the mode's code is that byte |
| Status.ListModeOf | src/types.h:156-163 | a mode byte names a list mode exactly when it is 0..4, and the mode's code is that byte |
| Status.ClearModeCodes | src/types.h:147-154 | each clear mode decodes back from its code, codes are distinct, and exactly five byte values name a clear mode |
| Status.ListModeCodes | src/types.h:156-163 | each list mode decodes back from its code, codes are distinct, and exactly five byte values name a list mode |
| Bytes.BE32RoundTrip | src/types.h:403-421 | `ntohl` undoes `htonl` on every 32-bit value |
| Bytes.FromBE32RoundTrip | src/controller.c:157-159 | every four received bytes are the `htonl` image of the value `ntohl` reads from them |
| Bytes.BE64 | src/controller.c:19-20 | the eight bytes `htonll` as written stores: the first four read back as the high word, the last four as the low word |
| Bytes.BE64RoundTrip | src/controller.c:19-20 | reading the eight stored bytes most significant first gives back the 64-bit value |
| Bytes.ReverseInvolution | src/util.h:10-19 | reading a sequence back to front twice gives it back |
| Bytes.PrefixedSnoc | src/controller.c:483-496 | appending one more item to a length-prefixed stream appends its low length byte and its bytes |
| Bytes.UnprefixRoundTrip | src/controller.c:483-496 | the LST and NFO payloads' length-prefixed strings, each under 256 bytes, read back to the end of the payload as exactly those strings |
| Wire.EncodeRequest | src/types.h:276-319 | every request header is sixteen bytes |
| Wire.DecodeRequest | src/controller.c:736-793 | a header without the magic is refused as such whatever its op byte; a header with the magic and none of the six op bytes is refused as an unknown op; a parsed request's op is byte 3 |
| Wire.RequestOffsets | src/types.h:321-361 | the encoded header has the magic at 0..2, the op at 3, klen or mode at 4, flags or tag count at 5, and SET's value length and ttl big-endian at 8 and 12 |
| Wire.RequestRoundTrip | src/types.h:276-361 | every request decodes back from its encoding |
| Wire.RequestDecodeFaithful | src/types.h:276-361 | a header that parses re-encodes to the same bytes at every non-padding position |
| Wire.EncodeResponse | src/types.h:392-401 | every response header is eight bytes |
| Wire.DecodeResponse | src/types.h:363-372 | a response header is refused exactly when it lacks the magic or its class byte is neither 't' nor 'f' |
| Wire.ResponseRoundTrip | src/types.h:403-421 | MAKE_SUCCESS_RESPONSE and MAKE_FAILURE_RESPONSE put the magic at 0..2, 't' or 'f' at 3 and the size or code big-endian at 4, and decoding recovers class and value |
| Wire.ResponseDecodeFaithful | src/types.h:363-421 | every response header that decodes is the encoding of what it decodes to |
| Bytes.BE32 | src/types.h:403-421 | `htonl` yields four bytes |
| Bytes.FromBE64 | src/controller.c:19-20 | reading eight bytes most significant first gives a 64-bit value |
| Transport.Take | src/server.c:894 | a `read` places at most the bytes still wanted: the front of what it delivered, nothing on an error |
| Transport.ChunksSnoc | src/server.c:892-903 | one more `read` adds its piece behind the earlier ones, asked only for the bytes they left missing |
| Transport.ReadExact | src/server.c:881-904 | nmemb 0 is OK without a read; OK means exactly nmemb bytes, the concatenation of the partial reads in order, every one non-empty; a negative read is NETWORK_ERROR and a zero-byte read CONNECTION_CLOSED at once, with no retry |
| Transport.ReadStep | src/server.c:894-901 | a non-empty read strictly grows the buffer, stays within nmemb, and keeps it equal to the reads so far |
| Transport.WriteAll | src/server.c:914-937 | nmemb 0 is OK without a send; OK means the sends' byte counts sum to the whole message, every send positive and the last one completing it; a negative send is NETWORK_ERROR and a single zero-byte send CONNECTION_CLOSED, at once, after exactly the prefix the earlier sends counted |
| Transport.Counted | src/server.c:926-932 | a `send` accounts for at most the bytes still to go: its count, capped, and none on an error |
| Transport.SentTotal | src/server.c:922-937 | the successive sends never account for more bytes than the message holds |
| Transport.SentTotalSnoc | src/server.c:922-937 | one more send adds what it accounts for, asked only for the bytes the earlier ones left |
| Server.CloseClient | src/server.c:941-948 | close_client: a negative descriptor is left alone, otherwise it becomes -1; Server.CloseClientSpec states idempotence |
| Server.ServerDispatch | src/server.c:666-695 | the older handle_request's routing; what it refuses and where it routes is stated by Server.ServerDispatchSpec |
| Server.ReplyAsWritten | src/server.c:771-826 | the status-to-reply rule of process_worker_events as written, payload after any non-internal header; Server.FailureLeavesPayload states the consequence |
| Server.ServerReply | src/server.c:771-826 | the corrected rule, payload only after a success header; stated by Server.ServerReplySpec |
| Server.CloseClientSpec | src/server.c:941-948 | closing leaves the descriptor negative, does nothing to a closed client, sets an open one to -1, and closing twice is closing once |
| Server.ServerDispatchSpec | src/server.c:666-695 | missing arguments give BUG; a bad magic gives PROTOCOL_ERROR whatever the op; with the magic, a request is routed exactly when the op is GET, SET, DEL or CLR, to that op's handler with the header's fields |
| Server.ServerReplySpec | src/server.c:787-826 | the connection is closed exactly for the 0x10 statuses; a 0x20 or 0x40 status writes only a failure header with the code; OK writes a success header with the payload size (0 without a payload) and then the payload, and the reader gets exactly those back |
| Server.ReadReplyConsumesOne | src/server.c:803-826 | a reply followed by further bytes is read back whole and leaves exactly the further bytes |
| Server.ReplyAgrees | src/server.c:794-826 | where the status is OK or there is no non-empty payload, the rule as written and the corrected one write the same bytes |
| Server.FailureLeavesPayload | src/server.c:794-826 | as written, a failure status with a non-empty payload writes the failure header and then the payload, which the reader finds left over after the reply |
| Server.FailureReplyCarriesPayload | src/server.c:816-826 | NOT_FOUND with a 16-byte payload: as written 24 bytes go out and 16 are left for the next reply; corrected, nothing is left |
| Transport.Chunks | src/server.c:881-904 | the reads place one piece each, never more bytes in all than were asked for |
| EntryMap.GetHash | src/entry.c:14-21 | the loop computes djb2-xor from seed 5381, first byte first, each step `(h * 33) xor b` modulo 2^32 |
| EntryMap.PosCovers | src/entry.c:69-104 | the wrapping probe from any home slot reaches every slot within N steps |
| EntryMap.Init | src/entry.c:29-44 | every slot empty and the count zero, which is a valid map |
| EntryMap.FindFrom | src/entry.c:71-104 | the probe answers the first step, in wrap-around order, whose slot is occupied under the key's hash with an equal key, and none when no step has one |
| EntryMap.FindComplete | src/entry.c:56-105 | on a valid map the probe finds a key exactly when some slot stores it |
| EntryMap.Get | src/entry.c:56-105 | a found entry has the key and sits in a slot under the key's hash; none exactly when no slot stores the key |
| EntryMap.UnsetKey | src/entry.c:108-163 | the removed entry is the one a lookup finds; a miss changes nothing; a hit empties exactly that one slot and decrements the count, and the map stays valid |
| EntryMap.SetFromLanding | src/entry.c:194-282 | the insertion probe acts only at the first slot where it stops (free, the entry itself, or an equal key), and fails untouched when there is none |
| EntryMap.FindFirst | src/entry.c:71-104 | past steps that do not match, the probe stops at the first matching step |
| EntryMap.StoreIsFound | src/entry.c:268-291 | writing the entry where the insertion stopped keeps the map valid and makes it what a lookup of its key finds |
| EntryMap.FindAfterPut | src/entry.c:284-289 | writing a matching slot past non-matching steps makes that step the one the probe finds |
| EntryMap.ReplacedIsFound | src/entry.c:229-240 | the occupant a replacing store hands back is the entry a lookup found |
| EntryMap.SetAtOutcome | src/entry.c:207-291 | the outcome where the probe stops is correct, and a failure there means the key is stored and no old entry was asked for |
| EntryMap.SetEntry | src/entry.c:165-292 | success makes the entry the first one found with one slot changed; a replacement returns the entry found before and keeps the count, an insertion into a free slot adds one; re-setting the same entry changes nothing; without an old-entry place a full map refuses at once; a failure changes nothing |
| EntryMap.NoLandingMeansFull | src/entry.c:277-288 | a probe that finds no place to stop has seen a full map without the key |
| EntryMap.FullHasNoLanding | src/entry.c:277-288 | a full map holding neither the key nor the entry leaves the probe no place to stop |
| EntryMap.SetEntryFails | src/entry.c:180-288 | a replacing store of a new entry fails exactly when the map is full and does not hold the key |
| EntryMap.FullCountAll | src/entry.c:180 | a count at the slot total means every slot is occupied |
| EntryMap.AllFullCount | src/entry.c:180 | every slot occupied means the count is the slot total |
| EntryMap.DuplicateKeys | src/entry.c:244-252 | with the key's copy past a freed slot, a store adds a second copy: the newer one is found first, and one removal leaves the older one found |
| EntryMap.Pos | src/entry.c:99-101 | stepping and wrapping at the slot total stays inside the map |
| EntryMap.Find | src/entry.c:56-105 | the lookup's probe answers a slot of the map or none |
| EntryMap.LandingFrom | src/entry.c:196-275 | the insertion stops at the first step whose slot is free, holds the entry itself, or holds the key, and at none when no step does |
| EntryMap.PutValid | src/entry.c:285-287 | filling one slot with an entry under its key's hash, counted when the slot was free, keeps the map valid |
| EntryMap.CountUpdate | src/entry.c:271 | overwriting one slot changes the number of occupied slots by what left and what came in |
| TagTree.CompareIsLex | src/tag.c:74-91 | compare_tags (memcmp over the common length, then the shorter tag first) is lexicographic order on the bytes |
| TagTree.MemCmpIsLex | src/tag.c:78-90 | the memcmp sign over the common prefix, broken by length, is lexicographic order on the remaining bytes |
| TagTree.CompareTagsOrder | src/tag.c:74-91 | compare_tags answers 0 exactly for equal tags, flips sign when the arguments swap, and its "less than" is transitive |
| TagTree.LexZero | src/tag.c:83-90 | lexicographic comparison is 0 exactly for equal byte strings |
| TagTree.LexAntisymmetric | src/tag.c:83-90 | swapping the arguments negates lexicographic comparison |
| TagTree.LexTransitive | src/tag.c:83-90 | lexicographic "less than" is transitive |
| TagTree.KeysByTag | src/tag.c:139-157 | when the search falls off the tree the lookup answers the empty list |
| TagTree.FoundIffStored | src/tag.c:139-157 | on an ordered tree the search reaches a node with the tag exactly when the tree holds the tag |
| TagTree.WithKeysLookup | src/tag.c:177-181 | replacing one node's list changes that tag's lookup to the new list and no other lookup, and keeps the tree ordered |
| TagTree.GetOrCreate | src/tag.c:93-137 | afterwards the search finds the tag; the tree holds the old tags plus it; an existing node leaves the tree unchanged, otherwise exactly one node is added |
| TagTree.GetOrCreateKeeps | src/tag.c:93-137 | creating a node keeps every lookup's answer and the search order, and only adds the new tag to what is found |
| TagTree.NoDupSnoc | src/tag.c:45-72 | a list with one more key is duplicate-free exactly when the list was and did not hold the key |
| TagTree.InsertIfUnique | src/tag.c:45-72 | the key is prepended exactly when no equal key is present, otherwise the list is unchanged; the list stays duplicate-free and holds exactly the old keys and the key |
| TagTree.CopyKeyList | src/tag.c:159-171 | the copy holds the same keys in the same order |
| TagTree.UniqueLookup | src/tag.c:139-157 | in an index with duplicate-free lists every lookup is duplicate-free |
| TagTree.RootValid | src/tag.c:12-18 | the sentinel tree holding only "ROOT" is a valid index |
| TagTree.AssociateSpec | src/tag.c:173-182 | afterwards the key is in the tag's list, which holds exactly its old keys and the key; every other tag's list is unchanged and the index stays valid |
| TagTree.WithKeysTwice | src/tag.c:177-181 | replacing a node's list twice is replacing it with the second list |
| TagTree.AssociateIdempotent | src/tag.c:173-182 | associating the same key with the same tag twice is associating it once |
| TagTree.Without | src/controller.c:294-295 | the key's removal leaves exactly the other keys, no duplicates added and no longer list |
| TagTree.RemoveKeySpec | src/controller.c:294-295 | removing a key from a tag's list takes exactly that key out of that list, leaves every other list, and keeps the index valid |
| TagTree.AddAllSpec | src/tag.c:212-222 | inserting keys one by one keeps the list duplicate-free and adds exactly those keys |
| TagTree.MatchAny | src/tag.c:206-207 | no tags give the empty result |
| TagTree.MatchAnySpec | src/tag.c:195-225 | the union is duplicate-free and holds a key exactly when some requested tag lists it |
| TagTree.KeepSpec | src/tag.c:248-275 | unlinking keeps exactly the found keys the other list holds and never grows the list |
| TagTree.KeepNoDup | src/tag.c:248-275 | unlinking from a duplicate-free list leaves it duplicate-free |
| TagTree.MatchAll | src/tag.c:238-239 | no tags give the empty result |
| TagTree.CommonMembers | src/tag.c:227-279 | the reference intersection holds a key of the first list exactly when every given tag lists it |
| TagTree.KeepCommon | src/tag.c:244-276 | unlinking against one more tag's list is intersecting with one more tag |
| TagTree.MatchAllSpec | src/tag.c:227-279 | the intersection is the first tag's keys that every other tag also lists, in the first tag's order, duplicate-free, and holds a key exactly when every requested tag lists it |
| TagTree.MatchingAnyTag | src/tag.c:195-225 | the nested copy-and-insert loops compute the union |
| TagTree.MatchingAllTags | src/tag.c:227-279 | a filter loop in place of the copy-and-unlink loops: for each tag after the first it keeps the found keys that tag lists, in order, and the result is the intersection `MatchAll` |
| TagTree.CompareTags | src/tag.c:74-91 | compare_tags answers a sign only |
| TagTree.WithKeys | src/tag.c:177-181 | replacing one node's list keeps the tree's tags and size |
| TagTree.UniqueWithKeys | src/tag.c:177-181 | giving a node a duplicate-free list keeps every list duplicate-free |
| TagTree.UniqueGetOrCreate | src/tag.c:93-137 | creating a node keeps every list duplicate-free |
| TagTree.WithOwnKeys | src/tag.c:177-181 | giving a node back its own list changes nothing |
| Store.Width | src/controller.c:30-37 | the trailing word get_map_for_key reads never extends past the key |
| Store.MapIndex | src/controller.c:24-38 | the selected map always exists |
| Store.MapIndexSpec | src/controller.c:24-38 | an empty key selects map 0, a one-byte key selects its byte modulo the map count, and two keys with the same trailing word of the same width select the same map |
| Store.OneByte | src/controller.c:36-37 | a single byte reads as itself in either byte order |
| Store.ShrinksTrans | src/controller.c:297-305 | emptying slots twice is emptying slots |
| Store.ShrinksKeepsAbsent | src/controller.c:297-305 | emptying slots never makes a key present |
| Store.ShrinkOne | src/controller.c:289-305 | emptying slots of one map and changing the index to a valid one keeps the cache state valid |
| Store.UntagSpec | src/controller.c:294-295 | after remove_key_from_tag over an entry's tags the key is missing from exactly those tags' lists; every other association stands |
| Store.RetagSpec | src/controller.c:255-266 | after add_key_to_tag over the tags the key is in each listed tag's list and nothing else was added or taken away |
| Store.Drain | src/controller.c:297-305 | repeating the unset until it reports nothing leaves a valid map holding no copy of the key, having emptied only slots that held it |
| Store.DeleteByKeySpec | src/controller.c:281-308 | NOT_FOUND exactly when the key's map does not hold it, and then nothing changes; otherwise OK; the state stays valid either way |
| Store.DeleteByKeyMaps | src/controller.c:281-308 | after a deletion no copy of the key is left in its map, only slots holding the key were emptied, and the other maps are untouched |
| Store.DeleteByKeyIndex | src/controller.c:294-295 | a deletion takes the key off exactly the tag lists of the entry the lookup found, and changes no other association |
| Store.DrainAfterUnset | src/controller.c:290-305 | the first unset and the release loop together empty only slots holding the key and leave none holding it |
| Store.TagEqualsIff | src/controller.c:380-381 | the callbacks' length-and-memcmp test is byte equality of tags |
| Store.HasTagIff | src/controller.c:377-385 | the inner loop finds a match exactly when some tag of the entry, from the cursor on, equals the wanted tag |
| Store.SharesTagIff | src/controller.c:374-386 | the nested loops find a match exactly when some wanted tag, from the cursor on, equals some tag of the entry |
| Store.SelectsSpec | src/controller.c:352-389 | the OLD callback clears exactly the entries with an expiry strictly before now, and the MATCH NONE callback exactly those sharing no tag with the request |
| Store.SweepTable | src/controller.c:391-396 | walking a map's first slots empties exactly the picked entries among them and keeps the map valid |
| Store.SweepValid | src/controller.c:342-343 | the clearing callbacks' tag removals keep the index valid |
| Store.SweepTree | src/controller.c:342-343 | after the walk exactly the associations of the cleared entries are gone from the index |
| Store.SweepMaps | src/controller.c:391-396 | walk_all_entries keeps the number of maps and the id counter |
| Store.SweepTreesValid | src/controller.c:391-396 | threading the index through every map's walk keeps it valid |
| Store.SweepMapsValid | src/controller.c:391-396 | a clearing walk over all maps keeps the cache state valid |
| Store.SweepMapsSlots | src/controller.c:333-396 | a clearing walk empties exactly the slots whose entries the callback picks and leaves every other slot as it was |
| Store.SweepMapsTree | src/controller.c:333-396 | after a clearing walk exactly the associations of the cleared entries are gone from the index |
| Store.SweepTreesAt | src/controller.c:391-396 | one key/tag association survives the walk of the first maps exactly when it was there and none of those maps cleared it |
| Store.SweepTreeAt | src/controller.c:342-343 | one key/tag association survives one map's walk exactly when it was there and that walk did not clear it |
| Store.ClearedOffStep | src/controller.c:394-395 | an association is cleared by the first j maps exactly when it was cleared by the first j - 1 or by map j |
| Store.DeleteKeysEffect | src/controller.c:455-461 | deleting a key list empties exactly the slots that hold a listed key in the map that key is routed to, and takes exactly the listed keys off the tags of the entries their lookups find; every other slot and association stays |
| Store.DeleteSlotsStep | src/controller.c:290-305 | one more deletion empties, besides the slots emptied so far, exactly the slots of the key's map that hold it |
| Store.SlotStep | src/controller.c:290-305 | the slot-by-slot form of the step above |
| Store.DeleteIndexStep | src/controller.c:290-305 | one more deletion takes off, besides the associations removed so far, exactly those of the entry the key's lookup finds |
| Store.IndexPoint | src/controller.c:290-305 | the step above for one key/tag association |
| Store.SameLookup | src/controller.c:290-305 | until a key is deleted, its lookup finds in the shrunk state what it finds in the original; once deleted, nothing |
| Store.DeleteKeys | src/controller.c:458-460 | deleting a key list one key at a time keeps the state valid, only empties slots, and leaves none of the keys in its map |
| Store.DeleteKeysStep | src/controller.c:458-460 | one more deletion keeps the earlier keys absent and adds the last key to the absent ones |
| Store.SlotKeys | src/controller.c:477-497 | the keys a listing walk collects from a map are exactly the keys of its picked entries |
| Store.CacheKeys | src/controller.c:391-396 | the keys collected over all maps are exactly the keys of the picked entries of every map |
| Store.InOrder | src/controller.c:591 | the tag walk yields exactly the tags the index holds |
| Store.InOrderSorted | src/tag.c:74-91 | on an ordered index the tag walk is strictly ascending under compare_tags |
| Store.AscendingJoin | src/tag.c:74-91 | two ascending runs, one below a tag and one above it, joined around it stay ascending |
| Controller.ReadPayload | src/server.c:881-904 | OK exactly when the stream holds the bytes asked for, which are then its head; otherwise CONNECTION_CLOSED |
| Controller.ReadTags | src/controller.c:41-71 | reading succeeds only with every tag read and within the buffer's room |
| Controller.ReadTagsRoundTrip | src/controller.c:41-71 | tags sent length-prefixed are read back exactly, with the rest of the stream untouched, when they fit the buffer, and OUT_OF_MEMORY otherwise |
| Controller.Pack | src/controller.c:617-645 | the listing is the length-prefixed form of a prefix of the items within the cap; OK exactly when every item went in; OUT_OF_MEMORY exactly when the next item would pass the cap |
| Controller.PackRoundTrip | src/controller.c:617-645 | a listing read back item by item gives the items listed, all of them when it is OK |
| Controller.PrefixedGrows | src/controller.c:627-639 | listing a prefix of the items takes no more room than listing them all |
| Controller.PackFits | src/controller.c:627-639 | the listing is complete exactly when all of it fits the cap |
| Controller.HandleGet | src/controller.c:73-145 | handle_get_request as a transition of the cache; its outcomes are stated by Controller.HandleGetSpec |
| Controller.HandleGetSpec | src/controller.c:73-145 | NOT_FOUND exactly when the key's map lacks it, EXPIRED exactly when found with a past expiry and the ignore flag clear; otherwise, for every flags byte, BUG exactly when the value exceeds the payload buffer and OK with the value (none when empty) exactly when it fits; reads exactly the key and changes nothing |
| Controller.StoreFresh | src/controller.c:243 | a stored entry with the next id is what a lookup of its key finds, and the state stays fresh |
| Controller.SetTagsSpec | src/controller.c:255-266 | after SET's retagging the key is on exactly the new tags, off the replaced entry's other tags, and every other association stands |
| Controller.StoreEntry | src/controller.c:237-266 | the store step of handle_set_request; stated by Controller.StoreEntrySpec and Controller.StoreEntryFinds |
| Controller.StoreEntrySpec | src/controller.c:238-266 | OUT_OF_MEMORY with nothing changed exactly when the key's map is full and lacks the key; otherwise OK, the lookup finds the new entry, only that map changed, the count grows only for a new key, and the index carries exactly the new tags |
| Controller.StoredState | src/controller.c:243-266 | a store that went through leaves a valid state whose lookup finds the entry and whose index is re-tagged |
| Controller.RequestedSize | src/controller.c:182-192 | the size SET asks `reserve_memory` for: the u32 sum of tag slots, tag, key and value bytes, plus the 72-byte entry header, truncated to u32 by `reserve_memory`'s parameter (src/memory.c:216-221); it equals the entry's true size exactly when that size is below 2^32 |
| Controller.HandleSet | src/controller.c:147-278 | handle_set_request: read key and tags, reserve the wrapped size, read the value into it, then store; stated by Controller.HandleSetSpec and Controller.SetReservationWraps |
| Controller.HandleSetSpec | src/controller.c:147-278 | SET reads exactly the key, tags and value; OUT_OF_MEMORY with nothing changed when the tags do not fit or the wrapped size is not granted (larger than the largest partition, or no bucket left); otherwise the store step |
| Controller.SetTagsReadSpec | src/controller.c:178-200 | the tags step fails with OUT_OF_MEMORY and no change when the tags do not fit or the size asked for is not granted, and otherwise continues to the store step; stated for the wrapped and the exact size |
| Controller.HandleSetChecked | src/controller.c:182-199 | SET reserving the entry's true size; stated by Controller.HandleSetCheckedSpec |
| Controller.HandleSetCheckedSpec | src/controller.c:182-199 | the checked SET is OUT_OF_MEMORY when the tags do not fit or the true size is not granted, otherwise the store step; any other answer means the entry fits the bucket reserved |
| Controller.SetSizingAgrees | src/controller.c:182-199 | while the entry's size is below 2^32, SET as written answers exactly as the checked SET |
| Controller.SetTagsSame | src/controller.c:192-199 | the tags step takes the same course for both sizings whenever the sizes they ask for agree |
| Controller.SetReservationWraps | src/controller.c:182-230 | a one-byte key, no tags and value length 2^32 - 1 make the u32 sum wrap: SET as written reserves 72 bytes and goes on to read the value into them, while the checked SET answers OUT_OF_MEMORY |
| Persistence.ReversedRequest | src/main.c:200-209 | the reversed key and tags of a persistence record make SET ask for the same size as the entry's own |
| Controller.SetValueSpec | src/controller.c:230-266 | the value step reads exactly the value and stores it |
| Controller.SetThenGet | src/controller.c:73-278 | a GET ignoring expiry right after a successful SET answers OK with the value stored |
| Controller.StoreEntryFinds | src/controller.c:243-266 | after a successful store the key's lookup finds the new entry |
| Controller.GetStored | src/controller.c:73-145 | GET ignoring expiry of a key whose lookup finds an entry answers with that entry's value |
| Controller.HandleDel | src/controller.c:310-330 | handle_del_request: read the key, then delete_entry_by_key; stated by Controller.HandleDelSpec |
| Controller.HandleDelSpec | src/controller.c:310-330 | DEL reads exactly the key; NOT_FOUND with nothing changed exactly when its map lacks it, OK otherwise; afterwards the map holds no copy of the key and the other maps are untouched |
| Controller.DelThenGet | src/controller.c:281-330 | a GET right after a DEL of the same key answers NOT_FOUND |
| Controller.Clear | src/controller.c:414-465 | every clearing mode keeps the cache state valid |
| Controller.ClearSpec | src/controller.c:332-465 | ALL empties every slot; OLD empties exactly the entries with an expiry before now; MATCH NONE exactly the entries sharing no requested tag; MATCH ALL and MATCH ANY leave no key listed under all, or any, of the tags |
| Controller.MatchedKeys | src/controller.c:452-460 | MATCH ALL deletes the keys listed under every one of at least one tag, MATCH ANY those listed under any of the tags |
| Controller.ClearByTagsSpec | src/controller.c:450-461 | MATCH ALL and MATCH ANY empty exactly the slots holding a matched key in its own map and take exactly those keys off the tags of the entries their lookups find; every other slot and association stays |
| Controller.ClearSweepIndex | src/controller.c:332-396 | ALL, OLD and MATCH NONE take off the tag index exactly the associations of the entries they clear |
| Controller.HandleClr | src/controller.c:398-469 | handle_clr_request: read the tags, then clear by mode; stated by Controller.HandleClrSpec |
| Controller.HandleClrSpec | src/controller.c:398-471 | CLR reads exactly the tags; an unknown mode is PROTOCOL_ERROR with nothing changed; a known mode answers OK after the clear |
| Controller.Listing | src/controller.c:477-554 | the item list each LST mode walks; stated by Controller.ListingSpec |
| Controller.ListingSpec | src/controller.c:477-554 | ALL KEYS lists exactly the stored keys; ALL TAGS exactly the index's tags in ascending order; MATCH NONE exactly the keys of entries sharing no requested tag; MATCH ALL and MATCH ANY exactly the keys under all, or any, of the tags |
| Controller.HandleLst | src/controller.c:556-651 | handle_lst_request: read the tags, then serialise the listing; stated by Controller.HandleLstSpec |
| Controller.HandleLstSpec | src/controller.c:556-651 | LST reads exactly the tags and changes nothing; an unknown mode is PROTOCOL_ERROR with no payload; otherwise OK with the whole listing when it fits the room, and OUT_OF_MEMORY with the longest prefix that fits otherwise |
| Controller.ExpiresWord | src/controller.c:686 | the expiry word NFO sends is a 64-bit value |
| Controller.HandleNfo | src/controller.c:653-718 | handle_nfo_request, with the 16 stale header bytes on every early return; stated by Controller.HandleNfoSpec |
| Controller.DecodeNfo | src/controller.c:686-714 | how a client reads an NFO payload (two big-endian u64 words, then length-prefixed tags); Controller.HandleNfoSpec states that a found entry's payload decodes to its expiry, mtime and tags |
| Controller.NfoEmptyKey | src/controller.c:667-714 | NFO with key length 0 reads nothing, changes nothing and answers BUG, with the payload buffer's stale 16-byte block as payload |
| Controller.HandleNfoSpec | src/controller.c:653-718 | NOT_FOUND with the stale header exactly when the key's map lacks it; otherwise OK exactly when the tags fit behind the 16 header bytes, BUG when not, and an OK payload decodes to the expiry word, the mtime and the entry's tags in order |
| Controller.HandlersKeepValid | src/controller.c:720-792 | every request handler keeps the cache state valid |
| Controller.HandleRequest | src/controller.c:720-792 | handle_request: BUG, PROTOCOL_ERROR or the handler the op byte picks; stated by Controller.HandleRequestSpec |
| Controller.HandleRequestSpec | src/controller.c:720-792 | a header without the three control bytes is PROTOCOL_ERROR reading nothing, missing arguments or worker are BUG, and each command byte is routed to its handler |
| Memory.PaddingSpec | src/memory.c:15-22 | the padding is below the alignment, rounds the size up to a multiple of it, and is zero exactly for sizes already aligned |
| Memory.Pow2 | src/memory.c:67 | the doubling factor of the bucket sizes is at least one |
| Memory.TimesGrows | src/memory.c:67-68 | summing more partition headers never gives less |
| Memory.SizeHalves | src/memory.c:102 | each bucket size after the smallest halves to the one before it, halving the smallest falls below the minimum, and none is below the minimum |
| Memory.PushFailureIsPermanent | src/memory.c:55-62 | once push_memory has failed, every later push fails too, since the cursor only advances |
| Memory.InitPartitions | src/memory.c:102-113 | the partition loop builds the list from the smallest to the largest bucket size and leaves the cursor past the padded partition block, owning no bucket |
| Memory.InitialParts | src/memory.c:102-112 | a fresh allocator has one partition per doubling step |
| Memory.SizeGrows | src/memory.c:102 | later partitions have strictly larger buckets |
| Memory.InitialPartsAscending | src/memory.c:102-112 | the fresh partitions ascend, each twice the size of the one before, none below the minimum |
| Memory.InitialValid | src/memory.c:102-112 | a fresh allocator satisfies the heap invariant |
| Memory.SelectFrom | src/memory.c:145-152 | the selected partition is the first whose buckets hold the size; none is selected exactly when no partition's buckets do |
| Memory.SelectSmallest | src/memory.c:145-152 | on ascending partitions the first fit is the smallest fit |
| Memory.Reserve | src/memory.c:139-187 | the corrected reservation never dereferences NULL |
| Memory.ReserveSpec | src/memory.c:139-187 | NULL with nothing changed exactly when no partition fits; a reservation comes from the selected partition, from its free list's head when it has one (counters moved) and else carved at the cursor; a failed push leaves the partitions and the cursor past the region |
| Memory.ReserveValid | src/memory.c:139-187 | either way reserve_memory leaves a valid heap with the same partitions |
| Memory.PopFreeValid | src/memory.c:159-169 | handing out the first free bucket of a partition keeps the heap valid |
| Memory.CarveValid | src/memory.c:177-184 | carving a fresh bucket at the cursor and moving the cursor past it keeps the heap valid |
| Memory.ReleaseSpec | src/memory.c:189-213 | releasing keeps the invariant and the cursor, pushes exactly that bucket onto its own partition's free list, moves the free and used counters by one, and leaves the other partitions |
| Memory.ReleaseThenReserve | src/memory.c:139-213 | the free lists are LIFO: a release followed by a reservation selecting the same partition hands back the released address |
| Memory.SelectSameSizes | src/memory.c:145-152 | the selection depends only on the partitions' sizes |
| Memory.ReserveExhaustedDereferencesNull | src/memory.c:177-182 | with the region exhausted and no free bucket, the code as written writes through the NULL push_memory returned, where the corrected reservation reports NULL |
| Memory.OnePartitionValid | src/memory.c:102-112 | a heap whose only partition is empty and which owns no bucket is valid |
| Memory.ReserveAsWritten | src/memory.c:139-187 | reserve_memory as written, reaching a NULL dereference when the region is exhausted; stated by Memory.ReserveExhaustedDereferencesNull and Memory.ReserveAgrees |
| Memory.ReserveAgrees | src/memory.c:139-187 | wherever the code as written does not fault, the corrected reservation does exactly what it does |
| LogQueue.Init | src/log.h:8-13 | LOG_QUEUE_INIT gives a valid ring when the size is a power of two |
| LogQueue.Next | src/log.c:28 | advancing a cursor by one under the mask stays a slot |
| LogQueue.Count | src/log.c:23-24 | at most the ring's size less one entries wait |
| LogQueue.Slot | src/log.c:42-44 | the slot a waiting entry occupies is inside the ring |
| LogQueue.InitEmpty | src/log.h:8-13 | a fresh ring holds no entries |
| LogQueue.Enqueue | src/log.c:17-31 | enqueueing keeps the ring valid and its size |
| LogQueue.Dequeue | src/log.c:33-47 | dequeueing keeps the ring valid |
| LogQueue.SlotOf | src/log.c:23-28 | the waiting entries occupy slots other than the write cursor, and the slot after the last one is the write cursor |
| LogQueue.EnqueueSpec | src/log.c:17-31 | enqueueing fails exactly when the ring is full (one slot always stays unused) and then changes nothing; otherwise the entry joins the back of what waits |
| LogQueue.DequeueSpec | src/log.c:33-47 | dequeueing yields nothing exactly when nothing waits, changing nothing; otherwise it yields the oldest entry and drops it |
| LogQueue.DequeueStep | src/log.c:33-47 | a dequeue from a non-empty ring splits what waited into the entry taken and what is left, and fewer entries wait |
| LogQueue.FifoOrder | src/log.c:17-47 | entries enqueued while there is room wait behind the earlier ones in the order they were enqueued |
| LogQueue.EnqueueAll | src/log.c:17-31 | enqueueing a run of entries keeps the ring valid and its size |
| LogQueue.DequeueAll | src/log.c:33-47 | dequeueing until nothing is left yields exactly what waited, oldest first, and leaves the ring empty |
| LogQueue.Splice | src/log.c:92 | the memcpy writes exactly the bytes at the offset and leaves the rest of the block |
| LogQueue.KeyRecord | src/log.c:61-73 | log_request_with_key's block: the length in data[0], the key after; stated by LogQueue.KeyRecordRoundTrip |
| LogQueue.KeyRecordRoundTrip | src/log.c:61-73 | a key record holds the key's length then its bytes in the 256-byte block, and print_log_entry reads it back as the key |
| LogQueue.TagsAsWritten | src/log.c:86-94 | the loop with its u8 cursor always leaves a 256-byte block |
| LogQueue.TagsFrom | src/log.c:86-94 | the loop with a cursor that does not wrap leaves a 256-byte block |
| LogQueue.Fits | src/log.c:89-90 | the loop stops at a tag from the cursor on or at the end |
| LogQueue.FitsSpec | src/log.c:89-90 | the tags before the stop fit the block packed and the next tag would not |
| LogQueue.PackStep | src/log.c:91-93 | writing the next tag's length and bytes behind a packed prefix extends the packed prefix |
| LogQueue.TagsFromPacks | src/log.c:86-94 | from any packed prefix the loop packs exactly the tags up to where it stops, then zeros |
| LogQueue.TagsFromStep | src/log.c:89-93 | a tag that fits is written and the loop goes on behind it to the same stop |
| LogQueue.TagsFromStop | src/log.c:89-90 | with no tag left, or one that does not fit, the loop stops and leaves the block |
| LogQueue.TagsRecord | src/log.c:75-96 | log_request_with_tags's block with a cursor that cannot wrap; stated by LogQueue.TagsRecordSpec |
| LogQueue.TagsRecordSpec | src/log.c:75-96 | the tag record is the longest prefix of the tags that fits the block, length-prefixed, then zeros; the next tag would not have fitted |
| LogQueue.TagStream | src/log.c:192-205 | print_log_entry's tag loop ends only at a zero length; a block without one sends it past the block's end, which it reports |
| LogQueue.TagStreamRoundTrip | src/log.c:192-205 | non-empty tags packed over zeros read back as exactly those tags, and the loop stays inside the block exactly when at least one zero follows them |
| LogQueue.TagsRecordRoundTrip | src/log.c:75-96 | a record of non-empty tags reads back as the tags that fitted; print_log_entry reads past the block exactly when they fill all 256 bytes |
| LogQueue.AsWrittenAgreesFrom | src/log.c:86-94 | while no packed prefix totals exactly 256 bytes the u8 cursor never wraps and the loop as written is the corrected one |
| LogQueue.AsWrittenStep | src/log.c:89-93 | a tag that fits with the cursor staying under 256 is written the same way by both loops, which go on from the same place |
| LogQueue.AsWrittenAgrees | src/log.c:75-96 | with no packed prefix of exactly 256 bytes the record as written is the corrected record |
| LogQueue.TagsWrapOverwrites | src/log.c:86-94 | a 255-byte tag then a 3-byte tag wraps the u8 cursor to 0, so the second tag overwrites the first and the record reads back as the second alone, where the corrected record holds the first (and, being full, is read past its end) |
| LogQueue.WrapWritten | src/log.c:86-94 | the loop as written on a 255-byte tag then a 3-byte one leaves the 3-byte tag at offset 0 |
| LogQueue.WrapRecord | src/log.c:192-205 | the wrapped block reads back as the second tag inside the block; the corrected block reads back as the first and then past the block's end |
| Config.SkipSpace | src/config.c:51-52 | skipping white space stops at the first character that is not white space, within the line |
| Config.NameEnd | src/config.c:59-60 | the name ends at the first white space, `=` or terminator, within the line |
| Config.StrEnd | src/config.c:89-90 | the value runs to the line's terminator |
| Config.NameEndRun | src/config.c:59-60 | no character before the name's end ends a name |
| Config.NameEndAt | src/config.c:59-60 | a run of name characters up to one that ends the name is exactly where the name ends |
| Config.StrEndRun | src/config.c:89-90 | no terminator comes before the one the scan stops at |
| Config.TrimEnd | src/config.c:91-93 | trimming backs over trailing white space and keeps at least the value's first character |
| Config.AfterName | src/config.c:67-95 | an assignment found after a name carries that name and a well-formed value |
| Config.ParseLineAsWritten | src/config.c:49-95 | every assignment the tokenizer as written yields has a well-formed name and value |
| Config.ParseLine | src/config.c:49-95 | every assignment the corrected tokenizer yields has a well-formed name and value |
| Config.NameShape | src/config.c:57-60 | the stretch taken for the name is a name |
| Config.SliceIsValue | src/config.c:87-93 | a stretch without terminator that starts and ends outside white space is a value |
| Config.CommentLine | src/config.c:51-55 | a line whose first non-blank character is `#` is skipped as a comment by both tokenizers |
| Config.SkipSpaceOver | src/config.c:51-52 | skipping white space passes exactly a run of white space |
| Config.NameStart | src/config.c:51-60 | a line opening with a non-empty name yields that name |
| Config.ValueAt | src/config.c:87-93 | a value running to the end of the line, or to a final newline, is read whole |
| Config.SkipSpaceStops | src/config.c:51-52 | skipping white space stops at once on anything else |
| Config.AfterNameValue | src/config.c:67-95 | an `=` after the name, then a value, makes the assignment of that value |
| Config.SpacedLine | src/config.c:49-95 | a line laid out as name, space, `=`, space, value, optional newline parses to that assignment in both tokenizers |
| Config.AssignmentRoundTrip | src/config.c:49-95 | writing `name = value` (with a newline or not) and parsing it gives that name and value back, in both tokenizers |
| Config.TightLine | src/config.c:59-76 | a line laid out as name, `=`, value parses to that assignment once `=` may end the name |
| Config.TightAssignmentRoundTrip | src/config.c:59-76 | writing `name=value` and parsing it with the corrected tokenizer gives that name and value back |
| Config.TightAssignmentAsWritten | src/config.c:59-76 | as written, `name=value` is reported as a missing assignment unless the value opens with `=`, because the `=` ending the name is overwritten before it is looked for |
| Config.ParseLineAgrees | src/config.c:49-95 | the two tokenizers agree on every line where `=` does not directly follow the name |
| Config.TightAssignmentRejected | src/config.c:59-76 | `listen_port=6000` is a missing assignment as written and sets the port once `=` may end the name |
| Config.DigitValue | src/config.c:148 | a decimal digit's value is below ten |
| Config.DigitRun | src/config.c:148 | the digit run strtol consumes is all digits and ends at a non-digit or the end |
| Config.Decimal | src/config.c:148 | a number's decimal form is a non-empty run of digits |
| Config.DecimalDigits | src/config.c:148 | reading a number's decimal digits gives the number back |
| Config.Strtol | src/config.c:147-154 | strtol in base 10 as parse_variable uses it: blanks, a sign, digits, none when no digit follows; stated by Config.StrtolDecimal |
| Config.ParseVariable | src/config.c:101-175 | parse_variable; stated by Config.ParseVariableSpec |
| Config.ApplyLine | src/config.c:43-96 | one line of the file: only an assignment reaches parse_variable |
| Config.StrtolDecimal | src/config.c:147-154 | strtol reads back a number written in decimal, whatever non-digit text follows it |
| Config.ParseVariableSpec | src/config.c:101-175 | an unknown name changes nothing; listen_address takes the resolved address if any; listen_port takes a parsed number in 0..65535 and changes nothing otherwise; log_filename takes the value whole when shorter than 1024 characters and exactly its first 1023 otherwise |
| Config.PortRoundTrip | src/config.c:145-164 | a port written in decimal, followed by anything but a digit, is the port set; a number past 65535 changes nothing |
| Config.NoAssignmentsKeep | src/config.c:43-96 | lines that assign nothing leave the configuration as it was |
| Config.ApplyLinesAppend | src/config.c:43-96 | lines apply in order: a file is its first part's configuration with its second part applied on top, so later lines win |
| Config.ParseArgs | src/config.c:23-99 | parse_args as written: with no argument the defaults; with one, no configuration exactly when the file cannot be opened |
| Config.ParseArgsCorrected | src/config.c:23-99 | parse_args with the corrected tokenizer: the same defaults and the same failure on an unopened file |
| Config.SpacedAssignmentApplies | src/config.c:43-96 | a `name = value` line at the end of the file reaches parse_variable on top of what the earlier lines left |
| Config.ApplyLinesAgree | src/config.c:59-76 | where no name is followed directly by `=` the written and the corrected tokenizer give the same configuration |
| Config.ParseArgsAgrees | src/config.c:23-99 | parse_args as written and corrected agree on every file in which no name is followed directly by `=` |
| Config.TightPortIgnored | src/config.c:59-76 | a file holding only `listen_port=6000` keeps port 5555 as written; the corrected version sets 6000 |
| Config.Port6000 | src/config.c:147-154 | strtol reads "6000" as 6000 |
| Config.ParseArgsDefaults | src/config.c:12-41 | without an argument the defaults stand (any address, port 5555, /tmp/cik-server.log); with one, a file that cannot be opened gives no configuration, and a file of comments and blank lines keeps the defaults |
| PhpClient.PackN | test.php:107-119 | `pack('N')` yields four bytes |
| PhpClient.SetHeader | test.php:84-119 | the header makeSetMessage packs is sixteen bytes |
| PhpClient.FrameTags | test.php:104-106 | the frame always carries three tags |
| PhpClient.ReadLegacyHead | test.php:91-101 | a header is read as a SET header exactly when it opens with the magic and the SET byte |
| PhpClient.SetHeaderRoundTrip | test.php:84-119 | the header reads back as the key length, the three tag lengths, the value length and the ttl (all ones without a lifetime) in its low 32 bits, for lengths that fit their fields |
| PhpClient.TagLengthsFit | test.php:113-116 | each of the three length bytes is the length of the tag the frame carries in that place |
| PhpClient.SplitBodyRoundTrip | test.php:120 | a body laid out by the header's lengths splits back into key, tags and value, with the rest of the stream left over |
| PhpClient.MakeSetMessage | test.php:84-121 | makeSetMessage: the header, then key, three tags and value; stated by PhpClient.SetMessageRoundTrip and PhpClient.SetMessageTags |
| PhpClient.SetMessageRoundTrip | test.php:84-121 | a frame read back gives the key, the three tags carried, the value and the ttl, consuming exactly the frame |
| PhpClient.SetMessageTags | test.php:104-106 | tags past the third are dropped silently, and a missing tag is sent like an empty one |
| PhpClient.LongKeyWraps | test.php:113 | a 256-byte key is announced as length 0, so the frame reads back as an empty key and the key's bytes are left over as the next frame |
| PhpClient.LegacyFrameUnderCurrentHeader | test.php:107-119 | the server's current request layout reads the client's first tag length as the tag count and the two other tag lengths as padding |
| PhpClient.WriteFrom | test.php:126-132 | the bytes sent are a prefix of the message that extends what was already written, and all of it when the loop reports success |
| PhpClient.WriteMessage | test.php:123-134 | writeMessage sends a prefix of the message, the whole message when it returns true |
| PhpClient.ProgressCompletes | test.php:126-132 | a stream that takes at least one byte per call receives the whole message |
| PhpClient.WriteMessageCases | test.php:123-134 | an empty message is sent without calling fwrite; a false answer gives up at once; one zero count is retried and a second in a row gives up |
| PhpClient.ReadMessage | test.php:136-177 | readMessage over what the two freads returned; stated by PhpClient.ReadMessageSpec |
| PhpClient.ReadMessageSpec | test.php:136-177 | the header is rejected exactly when it is not a response header; a failure header throws with exactly its code; a success of size 0 is the empty string; otherwise the payload fread returned, or an exception when it returned false |
| PhpClient.ReadMessageOfResponse | test.php:136-177 | headers the server builds read back as their status code, or as the payload (empty for size 0) |
| PhpClient.Save | test.php:56-72 | save: write the frame, then read one reply; stated by PhpClient.SaveSpec |
| PhpClient.SaveSpec | test.php:56-72 | save returns true exactly when the frame went out whole and the reply read as the empty string, and false when the write failed |
| PhpClient.SaveAfterWrite | test.php:69-71 | after a whole write, save returns whether the reply was empty and passes a server error through unchanged |
| PhpClient.SaveAfterServerReply | test.php:56-72 | against a stream that accepts bytes, save of the server's payload-free reply is true for OK and throws the status code otherwise |
| PhpClient.ReplyReadsBack | test.php:136-177 | the header of a payload-free server reply reads back as the empty string for OK and as the status code otherwise |
| Util.ReversePrefixInvolution | src/util.h:10-19 | reversing the same leading range twice restores the buffer |
| Util.SwapFromMirrors | src/util.h:13-18 | inside the buffer the swap loop mirrors the range between its two pointers and leaves the rest alone |
| Util.ReverseBytesAsWritten | src/util.h:10-19 | reverse_bytes as written, with the end pointer computed in 32 bits; stated by Util.ReverseBytesAgrees and Util.ReverseEmptyOverruns |
| Util.ReverseBytesAgrees | src/util.h:10-19 | for one byte or more reverse_bytes as written reverses exactly the first n bytes |
| Util.ReverseEmptyOverruns | src/util.h:13 | with n = 0 the 32-bit subtraction wraps and the loop's first exchange reads outside the buffer |
| Util.ReverseBytes | src/util.h:10-19 | the corrected loop, which leaves an empty range alone, reverses exactly the first n bytes and keeps the rest |
| Util.RenderReversed | src/util.c:47-49 | the rendered buffer holds the bytes back to front, then the terminator, then what the buffer held before |
| Util.KeyToStr | src/util.c:29-51 | key2str returns NULL exactly when the thread has no buffer and the reservation fails |
| Util.TagToStr | src/util.c:53-75 | tag2str returns NULL exactly when the thread has no buffer and the reservation fails |
| Util.CString | src/util.c:47 | the C string a buffer holds is its bytes before the first zero |
| Util.KeyToStrSpec | src/util.c:29-51 | a key without zero bytes is rendered as its reverse, and reversing the string again gives the key back |
| Util.RenderedString | src/util.c:47-49 | bytes without a zero are rendered as a C string that is exactly their reverse |
| Util.CStringUpTo | src/util.c:47 | the C string ends at the first zero byte |
| Util.TagToStrSpec | src/util.c:53-75 | a tag without zero bytes is rendered as its reverse |
| Util.SecondCallOverwrites | src/util.c:36-41 | the per-thread buffer is reused, so after a second call the first result reads as the second |
| Persistence.ReverseAll | src/main.c:203-209 | every tag is read back to front, one for one |
| Persistence.ReverseTagsAgrees | src/main.c:203-209 | where no tag is empty the loop as written reverses every tag |
| Persistence.WriteEntryAgrees | src/main.c:177-213 | with a non-empty key and no empty tag the callback as written writes the corrected record |
| Persistence.EmptyTagOverruns | src/main.c:207 | SET accepts an empty tag, and persisting an unexpired entry carrying one sends reverse_bytes out of bounds, where the corrected callback writes the record |
| Persistence.WriteEntryAsSet | src/main.c:177-213 | the persistence callback with an empty range left alone; stated by Persistence.WriteEntrySpec |
| Persistence.WriteEntryAsWritten | src/main.c:177-213 | the persistence callback as written; stated by Persistence.WriteEntryAgrees and Persistence.EmptyTagOverruns |
| Persistence.WriteEntrySpec | src/main.c:177-200 | an expired entry writes nothing; otherwise the record opens with a SET header holding the key length, the tag count, the value length and the ttl (all ones without an expiry, the time left otherwise) |
| Persistence.WriteEntryBody | src/main.c:200-212 | after the header the record is exactly the reversed key, the reversed tags length-prefixed and the value, and the entry is left with its key and tags reversed |
| Persistence.PrefixedLength | src/main.c:203-209 | reversing the tags keeps their packed length |
| Persistence.RecordIsSet | src/main.c:177-213 | the record is a request handle_request routes to SET, which reads exactly the record and stores the reversed key and tags with the value under the ttl written |
| Persistence.RecordKeepsExpiry | src/main.c:192-198 | SET of the record at the same moment gives the entry its expiry back: none stays none, and a time within 2^32 - 1 seconds is kept |

## Left out

- Sockets, epoll, worker threads, signals and the main loop are left out. Stream input is a byte sequence, and the answers of `read`/`send`/`fwrite` are parameters.
- Spin locks, atomics and the compare-and-swap free-list race are left out. Every structure is modelled sequentially.
- The profiler and the per-client and per-worker counters and timers are left out; none of them change a result.
- The model is the build with DEBUG set to 0, so debug printing and the DEBUG-only checks are left out. src/config.h:4 sets DEBUG to 1, and in that build three of those checks change a result:
  - When SET's reservation fails, the debug message reads the key through the NULL entry (src/controller.c:193-198). The model answers OUT_OF_MEMORY, as `Controller.HandleSetSpec` states.
  - `lock_and_get_cache_entry` and `lock_and_unset_cache_entry` assert a non-empty key (src/entry.c:61-65 and 113-117). A GET or DEL with key length 0 therefore aborts, although `read_request_payload` accepts it. The model looks the empty key up, as `Controller.HandleGetSpec` and `Controller.HandleDelSpec` state.
  - `set_locked_cache_entry` asserts a non-empty key and value (src/entry.c:172-178). A SET with an empty key or value therefore aborts. The model stores it, and `Controller.SetThenGet` answers OK with no payload.
  The other DEBUG checks hold on every path the model takes. The `assert (false)` of src/entry.c:256 is on the path without an `old_entry` pointer, which SET never takes.
  One part is modelled from the DEBUG build: `print_log_entry`'s body exists only there (src/log.c:157-216); without DEBUG it discards its argument. Its decoding of key and tag records (`LogQueue.KeyRecordRoundTrip`, `LogQueue.TagStream`, `LogQueue.TagStreamRoundTrip`, `LogQueue.TagsRecordRoundTrip`, `LogQueue.WrapRecord`) is the DEBUG build's. So are `key2str` and `tag2str`, whose only callers are in that body (src/log.c:179 and 201).
- `CACHE_EXPIRES_INIT` is tested at src/controller.c:114, src/controller.c:359 and src/main.c:192, but none of the sources defines it. The model takes it to be the 0 the entry initialiser leaves in `expires`, written `None`; NFO sends it as 0 (`Controller.ExpiresWord`). `CACHE_ENTRY_INIT` (src/entry.h:6-12) names fields `k`, `klen`, `v` and `vlen` that `CacheEntry` (src/types.h:70-78) does not have. It is taken to zero every field, leaving the lock flag clear.
- `time()` is left out. `now` is a parameter: `Controller.Env.now`, and the `now` arguments of `Store` and `Persistence`.
- `getaddrinfo` is the parameter `resolve` of `Config.ParseVariable`. `fopen` is the `Option` file argument of `Config.ParseArgs`. `fgets` is the sequence of lines; lines longer than 1023 characters are not split.
- mmap and mprotect in `init_memory` are left out, along with the carving of the hash-map array (src/memory.c:71-78, 115-124) and `release_all_memory`. Only the partition setup is modelled.
- SET computes the size it asks for, wrapped as written (`Controller.RequestedSize`), and a size above MAX_BUCKET_SIZE is refused, as no partition fits it. Whether the allocator still has a bucket for a size it can serve is the boolean `reserved` in `Controller.Env`. The handlers do not call into `Memory`, whose reservations are modelled separately.
- `sizeof (CacheTag)` and `sizeof (CacheEntry)` are taken as 16 and 72, their sizes on a 64-bit target.
- The unaligned native-endian load in `get_map_for_key` reads the key's trailing word. Its byte order is the parameter `littleEndian`.
- `walk_all_tags`, `add_key_to_tag` and `remove_key_from_tag` are declared in src/tag.h:6-8, and `walk_entries` is called at src/controller.c:395; none of their bodies is among the sources. They are modelled by stand-ins:
  - a slot-order walk;
  - an in-order tree walk;
  - `associate_key_with_tag`;
  - removal of the key from the tag's list.
- `load_request_log` in `src/server.c` is not part of this model.
- `populate_nfo_response` and the NFO statistics for an empty key are left out; an empty key is a BUG, as written.
- The `test.php` stubs `load`, `test`, `remove`, `clean` and `setDirectives` are left out; they only return false. The socket constructor and destructor and the page script are left out too.
- `print_log_entry` is modelled only for how it decodes keys and tag streams, as the DEBUG build compiles it. The worker id and client address in a log entry are left out.
- src/server.c and src/controller.c come from different revisions. `process_worker_events` calls server.c's own static `handle_request` (src/server.c:666-695, 785), which has no NFO or LST and sets a payload only for GET's OK (src/server.c:330-336). The model keeps that dispatch as `Server.ServerDispatch`, and pairs server.c's reply loop with controller.c's handlers (`Controller.HandleRequest`).
- The per-client worker payload buffer is modelled only by its capacity (`Controller.Env.cap`) and, for NFO, its 16 stale bytes.
- Memory's partition counters are unbounded integers; their u32 wrap-around is not modelled.
- Memory.ReserveSpec: states the reservation's effect only. That the heap stays valid is stated separately by `Memory.ReserveValid`.
- Controller.HandleGetSpec: states a stream that holds the whole request. A stream that ends early gives CONNECTION_CLOSED, which is stated by `Controller.ReadPayload` and `Controller.ReadTags`.
- Controller.HandleSetSpec: states a stream that holds the whole request. A stream that ends early gives CONNECTION_CLOSED, which is stated by `Controller.ReadPayload` and `Controller.ReadTags`.
- Controller.HandleDelSpec: states a stream that holds the whole request. A stream that ends early gives CONNECTION_CLOSED, which is stated by `Controller.ReadPayload` and `Controller.ReadTags`.
- Controller.HandleClrSpec: states a stream that holds the whole request. A stream that ends early gives CONNECTION_CLOSED, which is stated by `Controller.ReadPayload` and `Controller.ReadTags`.
- Controller.HandleLstSpec: states a stream that holds the whole request. A stream that ends early gives CONNECTION_CLOSED, which is stated by `Controller.ReadPayload` and `Controller.ReadTags`.
- Controller.HandleNfoSpec: states a non-empty key and a stream that holds the whole request. A stream that ends early gives CONNECTION_CLOSED, which is stated by `Controller.ReadPayload` and `Controller.ReadTags`. The empty key is stated by `Controller.NfoEmptyKey`.
- TagTree.GetOrCreate, TagTree.InsertIfUnique and TagTree.CopyKeyList: allocation always succeeds. In tag.c a failed allocation is an assert or a NULL dereference in get_or_create_node (src/tag.c:110-113) and copy_key_list (src/tag.c:163-169), and a silently dropped key in insert_if_unique (src/tag.c:59-71).
- Persistence.WriteEntryAsSet and Persistence.WriteEntryAsWritten: every byte of the record is written. The callback ignores what its five `write` calls return (src/main.c:200-209), so a short write would truncate the record.
- PhpClient.LongKeyWraps: shows the PHP client sending a 256-byte key with length byte 0. The client does not normalise lengths, so this is the code's behaviour, not a finding.

## Findings

| source | as written | input that shows it | evidently intended | confidence | as-written member | corrected member |
|---|---|---|---|---|---|---|
| src/memory.c:177-182 | when the free list is empty, `push_memory`'s result is written through without a NULL check | the region exhausted, no free bucket, a request the last partition fits (one 0x200 partition, cursor 0, total 0x200, request 1 byte) | report NULL, as for a request no partition fits | high; not executed | Memory.ReserveExhaustedDereferencesNull (Memory.ReserveAsWritten) | Memory.Reserve, with Memory.ReserveSpec, Memory.ReserveValid and Memory.ReserveAgrees |
| src/server.c:816-826 | the payload is written after the header whatever the status, so a failure header is followed by payload bytes the client does not expect | NFO of a missing key (NOT_FOUND with the 16-byte header block as payload, src/controller.c:661-684), or LST cut short by OUT_OF_MEMORY; this needs the reply loop paired with controller.c's handlers, as the model pairs them, because server.c's own dispatch (src/server.c:666-695) never returns a failure with a payload | write the payload only after a success header | medium; not executed | Server.FailureReplyCarriesPayload and Server.FailureLeavesPayload (Server.ReplyAsWritten) | Server.ServerReply, with Server.ServerReplySpec, Server.ReadReplyConsumesOne and Server.ReplyAgrees |
| src/log.c:86-94 | the `u8` cursor wraps to 0 when the packed tags total exactly 256 bytes, and the next tag that fits overwrites the record from offset 0 | a 255-byte tag followed by a 3-byte tag | stop at the block's end, keeping the tags already packed (in the DEBUG build, a block filled to its last byte still has print_log_entry read past it, as LogQueue.TagsRecordRoundTrip states) | high; not executed | LogQueue.TagsWrapOverwrites (LogQueue.TagsAsWritten, LogQueue.WrapWritten, LogQueue.WrapRecord) | LogQueue.TagsRecord, with LogQueue.TagsRecordSpec, LogQueue.TagsRecordRoundTrip and LogQueue.AsWrittenAgrees |
| src/config.c:59-76 | an `=` that ends the name is overwritten with the terminator before `=` is looked for | the line `listen_port=6000` is reported as a missing assignment | `name=value` assigns like `name = value` | medium; not executed | Config.TightAssignmentRejected, Config.TightAssignmentAsWritten and Config.TightPortIgnored (Config.ParseLineAsWritten, Config.ParseArgs) | Config.ParseLine and Config.ParseArgsCorrected, with Config.TightAssignmentRoundTrip, Config.AssignmentRoundTrip, Config.ParseLineAgrees and Config.ParseArgsAgrees |
| src/controller.c:182-192 | the size SET reserves is summed in u32 and truncated to u32 again after the header is added, so it can wrap to a small bucket; the value is then read into that bucket (src/controller.c:230) | a SET with a one-byte key, no tags and value length 0xFFFFFFFF: the sum wraps to 0 and 72 bytes are reserved | compute the size without wrapping, and answer OUT_OF_MEMORY when no partition holds it | high; not executed | Controller.SetReservationWraps (Controller.HandleSet, Controller.RequestedSize) | Controller.HandleSetChecked, with Controller.HandleSetCheckedSpec and Controller.SetSizingAgrees |
| src/util.h:13 | with `nmemb` 0 the end pointer is `base + (u32) -1`, and the loop exchanges bytes far outside the range; the persistence callback calls it for an empty tag (src/main.c:207), which SET accepts | an unexpired entry with one empty tag persisted at shutdown | leave an empty range alone | high; not executed | Util.ReverseEmptyOverruns and Persistence.EmptyTagOverruns (Util.ReverseBytesAsWritten, Persistence.WriteEntryAsWritten) | Util.ReverseBytes and Persistence.WriteEntryAsSet, with Util.ReversePrefixInvolution, Util.ReverseBytesAgrees and Persistence.WriteEntryAgrees |
