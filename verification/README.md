# A verified model of Vely's core data structures and codecs

This Dafny project models the parts of Vely whose correctness is hardest to see from the code, in the form
the code has, and proves what they are for.

- **Trees** (`KeyOrder`, `SortedList`, `AvlModel`, `TreeHeap`, `TreeRuns`): the AVL tree of `tree.c`, with
  its stored heights, its optional doubly linked list and its cursors. `AvlModel` finds the invariant behind
  the unusual balancing, where a rotation never recomputes the height of the node that moves up and each
  caller repairs the child it descended into; `TreeHeap` has the nodes and pointers of the source and refines
  it.
- **Memory** (`SlotModel`, `SlotTable`, `SlotRuns`): the slot table of `velymem.c` with its free chain, the
  slot numbers in the blocks' headers, and request and process lifetimes.
- **Hash tables** (`HashModel`, `HashFnv`, `HashTable`, `HashImage`): the chained tables of `hash.c`, their
  traversal that survives deletions and additions, and the static image of a table that `v1.c` generates.
- **JSON and UTF-8** (`Utf8`, `JsonText`, `JsonStrings`, `JsonBuffer`, `JsonDoc`, `JsonNames`, `JsonSyntax`,
  `JsonPhases`, `JsonScan`, `JsonParse`, `JsonStore`): the escaper, the in-place unescaper, and the recursive
  parser of `json.c`, which cuts the document into strings in place, lists its leaves by their full names and
  reads them through a hash table.
- **FastCGI client** (`FcgiRecords`, `FcgiClient`, `FcgiParams`, `FcgiWire`, `FcgiRequest`): reading a reply from a
  connection that delivers bytes in any pieces, and writing parameters and body.
- **Databases** (`DbMachine`, `SqlText`, `SqlLaws`, `SqlBuffer`): connections, transactions and prepared
  statements over a database that may fail at any step, and the building of SQL text in a growing buffer.

`Wrappers` has the type of values that may be missing, `Octets` the bytes, and `Sequences` what several parts
say about sequences.

Each part has a layer of values, where the properties are proved by induction, and where the source changes
things in place a layer of classes, arrays and loops whose methods are proved to do what the values do. What the
values are is told again without the functions that compute them, in `HashFnv`, `JsonStrings`, `JsonNames`,
`JsonSyntax`, `FcgiWire` and `SqlLaws`: as bits, bytes, tables, readers and parts, with every number written out.
Bytes are numbers below 256, C strings are sequences without zero or arrays with a terminating zero, and
addresses are numbers. Results of the operating system (addresses of new blocks, sizes of reads and writes,
failures of the connection) are parameters or arbitrary.

Where the code does less than its comments or its users may expect, the model follows the code and says
exactly when the expected holds: `SlotModel.RequestLifetime` with `SlotModel.StaleMark`,
`HashModel.ListExact` with `HashModel.EmptyListFails` and `HashModel.LongerKeyFound` (a search by fragments takes
a longer key for a match), `JsonText.UndoneExactly` with `JsonText.NotUndone`, `JsonStrings.ControlsEscaped` (most
control characters are not escaped), `JsonStrings.EscapesRefused` (surrogates need not be paired), and
`JsonStore.Json.NewJson` with `JsonParse.NullAndSpace` (a bare number, true, false or null followed by white space is refused, and the
character saved from behind it is taken for the first one of the next document). The comment in `tree.c`
that the lowest node is always a leaf is not accurate (it may have a greater child); the code handles it, and
so does the model.

## Model

| member | source | states |
|---|---|---|
| KeyOrder.StrCompareIsLex | tree.c:49-73 | the default comparison (strncmp over the searched key's length, then a check that the node's key ends there) is unsigned lexicographic order with prefixes first |
| KeyOrder.StrCompareTotal | tree.c:49-73 | the default comparison is a total order: two keys compare equal only if they are the same, and it is antisymmetric and transitive |
| KeyOrder.NumCompareTotal | tree.c:49-73 | the positive-integer comparison (length, then text) is a total order |
| KeyOrder.NumCompareIsNumeric | tree.c:49-73 | for numerals without leading zeros, in every base whose digits ascend in character order, the positive-integer comparison agrees with the numbers' values, both ways |
| SortedList.InsertItemMeans | tree.c:242-328 | insertion into the reference list keeps it sorted, adds exactly the new entry if the key is new, and changes nothing if it is present |
| SortedList.RemoveKeyMeans | tree.c:568-633 | removal from the reference list keeps it sorted and takes away exactly the entry with the key |
| SortedList.LookupAfterInsert | tree.c:242-328 | a lookup of any key after an insert finds the new data for the inserted key if it was absent and the earlier answer otherwise |
| SortedList.LookupAfterRemove | tree.c:568-633 | a lookup of any key after a removal finds nothing for the removed key and the earlier answer for every other key |
| SortedList.StrictNeighbour | v1.c:6141-6147 | on a sorted list the strict floor (ceiling) of an entry's own key is the entry just before (after) it |
| AvlModel.BalanceRepairs | tree.c:147-235 | balancing a node whose children are exact AVL trees with heights at most two apart gives an AVL tree in which every node below the root has its exact height, although rotations never recompute the node that moves up |
| AvlModel.MendLazy | tree.c:198-235 | the extra balance call that a caller makes on the child it descended into turns a lazy subtree (stale height only at its root) into an exact one of the same height |
| AvlModel.SizeFromHeight | tree.c:131-140 | a lazily balanced tree of height h has at least 2^(h div 2) - 1 keys |
| AvlModel.HeightFits | vely.h:654-667 | a tree whose key count fits the 63-bit counter is at most 127 high, so the 7-bit height field never truncates a height |
| AvlModel.BalanceKeeps | tree.c:147-235 | balancing, including single and double rotations, keeps the in-order sequence of entries, of nodes and the set of nodes |
| AvlModel.InsertRefines | tree.c:242-328 | insertion is insertion into the sorted in-order sequence, on every tree in search order, whatever its heights |
| AvlModel.InsertKeepsLazy | tree.c:242-328 | insertion keeps the lazy-height invariant: AVL balance by true height everywhere, exact stored heights everywhere but at the root, and growth by at most one level |
| AvlModel.InsertNodes | tree.c:242-328 | insertion adds exactly the new node, and no node if the key is present |
| AvlModel.DropLeastKeeps | tree.c:525-562 | taking out the least node below a node takes exactly the first entry off the in-order sequence |
| AvlModel.DeleteRefines | tree.c:568-633 | deletion, by unlinking or by copying up the successor, is removal from the sorted in-order sequence |
| AvlModel.DeleteKeepsLazy | tree.c:568-633 | deletion keeps the lazy-height invariant and shrinks the tree by at most one level |
| AvlModel.DeleteNodes | tree.c:568-633 | deletion removes one node at most, and none if the key is absent |
| AvlModel.LocatedRefines | tree.c:574-579 | the entry the descent of a deletion meets is the one of the reference list |
| AvlModel.FloorFound | tree.c:335-383 | the lesser and lesser-or-equal searches end at the greatest key below (at most) the given key, and nowhere exactly if there is none |
| AvlModel.CeilingFound | tree.c:389-431 | the greater and greater-or-equal searches end at the least key above (at least) the given key, and nowhere exactly if there is none |
| AvlModel.ExactFound | tree.c:438-459 | the exact search ends at the node of the key if it is in the tree, and nowhere if not |
| AvlModel.NothingChanges | tree.c:242-328 | a duplicate insert, and equally a delete that finds nothing, leaves every node, height and place of the tree as it was, but for a stale height of the root that becomes exact |
| AvlModel.InsertCorrect | tree.c:242-328 | all effects of an insertion together: order, balance, contents, size and nodes |
| AvlModel.DeleteCorrect | tree.c:568-633 | all effects of a deletion together: order, balance, contents, size, nodes and the entry reported |
| TreeHeap.RotateRight | tree.c:147-167 | a right rotation under a parent link turns the heap of a tree into the heap of the rotated tree value; the node that moves up keeps its stored height |
| TreeHeap.RotateLeft | tree.c:173-193 | the left rotation, likewise |
| TreeHeap.Balance | tree.c:198-235 | balancing on the heap is the balancing of the tree value, under any parent link |
| TreeHeap.VelyTree.constructor | tree.c:87-124 | a new tree is empty and satisfies the invariant: an empty root node under the dummy top node |
| TreeHeap.VelyTree.LinkBefore | tree.c:276-283 | linking a new node in front of its parent inserts it there in the doubly linked list, in both directions |
| TreeHeap.VelyTree.LinkAfter | tree.c:306-313 | linking a new node behind its parent inserts it there, in both directions |
| TreeHeap.VelyTree.Unlink | tree.c:584-589 | unlinking a node takes exactly it out of the list and updates min and max at the ends |
| TreeHeap.VelyTree.TakePlace | tree.c:532-541 | in a copy-up the node that received the successor's entry takes the successor's place in the list |
| TreeHeap.VelyTree.FillNode | tree.c:246-263 | the node without a key receives key and data, counts, and becomes min or max where it has no neighbour |
| TreeHeap.VelyTree.Insert | tree.c:242-328 | the recursive insert refines the insertion of the tree value and of the list at once, adds at most one hop per level, and reports an existing key without any change |
| TreeHeap.VelyTree.FindLeafDel | tree.c:525-562 | the search for the successor moves its key and data to the node found, removes its node and keeps tree and list in step |
| TreeHeap.VelyTree.Delete | tree.c:568-633 | the recursive delete refines the deletion of the tree value and of the list at once and reports the entry deleted |
| TreeHeap.VelyTree.SearchLesserEqual | tree.c:335-383 | the loop of the lesser search follows the search of the tree value, with one comparison per level |
| TreeHeap.VelyTree.SearchGreaterEqual | tree.c:389-431 | the loop of the greater search, likewise |
| TreeHeap.VelyTree.Search | tree.c:438-459 | the loop of the exact search, likewise |
| TreeHeap.VelyTree.InsertKey | tree.c:715-729 | on a valid tree, insert leaves a valid tree (search order, AVL balance, lazy heights, list in both directions, min, max and count) whose sequence is the sorted insertion, sets status and cursor accordingly and makes at most height comparisons; a present key leaves the shape as it was, but for a stale height of the root |
| TreeHeap.VelyTree.DeleteKey | tree.c:689-709 | on a valid tree, delete leaves a valid tree whose sequence lacks exactly the key, returns its key and data, or VV_ERR_EXIST with the shape as it was but for a stale height of the root, and makes at most height comparisons |
| TreeHeap.VelyTree.SearchKey | tree.c:672-683 | search finds the key's node or reports VV_ERR_EXIST |
| TreeHeap.VelyTree.SearchLesser | tree.c:736-747 | the cursor lands on the greatest key below (at most) the given one, or VV_ERR_EXIST exactly if none exists |
| TreeHeap.VelyTree.SearchGreater | tree.c:754-765 | the cursor lands on the least key above (at least) the given one, or VV_ERR_EXIST exactly if none exists |
| TreeHeap.VelyTree.Min | tree.c:466-489 | the cursor lands on the first entry, in a sorted tree through min and otherwise by descending |
| TreeHeap.VelyTree.Max | tree.c:495-517 | the cursor lands on the last entry, in a sorted tree through max and otherwise by descending |
| TreeHeap.VelyTree.StepLesser | v1.c:6141-6144 | a lesser step of a cursor lands on the entry just before, whether it follows the list or searches |
| TreeHeap.VelyTree.StepGreater | v1.c:6145-6148 | a greater step of a cursor lands on the entry just after, whether it follows the list or searches |
| TreeRuns.RunKeeps | tree.c:568-729 | every history of inserts and deletes from the empty tree keeps order, balance, exact heights below the root, distinct nodes and a height of at most 127 |
| TreeRuns.RunAnswers | tree.c:568-729 | after every history a lookup of any key answers what the history says: the data of the first insert since the key's last delete |
| SlotModel.AllocSound | velymem.c:130-157 | giving a block a slot keeps every used slot in exactly one of: the free stack, the blocks, the files; and no block in two slots |
| SlotModel.AllocAdds | velymem.c:184-203 | an allocation adds exactly its block to the outstanding ones |
| SlotModel.ReleaseSound | velymem.c:240-248 | a release keeps the same division of the slots and removes exactly its block from the outstanding ones |
| SlotModel.RegisterSound | velyrtc.c:960-967 | registering a file keeps the division of the slots |
| SlotModel.ResizeInPlace | velymem.c:272-308 | realloc, which frees the slot and takes one, gets the same slot back and leaves the order of reuse as it was |
| SlotModel.EndRequestKeeps | velymem.c:395-437 | the end of a request leaves exactly the blocks in slots with the process bit, in their slots, and an empty table if there is none |
| SlotModel.RequestLifetime | velymem.c:395-437 | memory allocated by a request is gone at its end if and only if the slot it got had never been marked as process memory |
| SlotModel.StaleMark | velymem.c:155-156 | the other case happens: a slot freed by process memory keeps its process bit, and a later request's block in it outlives the request |
| SlotTable.Memory.AddMem | velymem.c:130-157 | the chain through next_free is a stack: its head is reused first, else the next unused slot is taken, the table growing by 512 blank slots; the entry gets pointer and status bits |
| SlotTable.Memory.Malloc | velymem.c:184-203 | the slot number is written in front of the user's bytes, and table, free chain and OS blocks stay in step |
| SlotTable.Memory.SetFree | velymem.c:240-248 | the slot becomes the head of the free chain |
| SlotTable.Memory.Free | velymem.c:326-371 | a block of ours is released to the OS and its slot chained; NULL and the empty string are ignored; with checking, exactly the pointers that are not blocks of ours are refused, and nothing changes |
| SlotTable.Memory.Realloc | velymem.c:272-308 | a block of ours moves to its new address in the same slot; NULL and the empty string mean an allocation; with checking, exactly the pointers that are not blocks of ours are refused, and nothing changes |
| SlotTable.Memory.SetProcess | velymem.c:252-266 | in process mode exactly the blocks of ours are marked, anything else is the reported error; otherwise nothing happens |
| SlotTable.Memory.RegFile | velyrtc.c:960-967 | a registered file takes a slot that counts as no block |
| SlotTable.Memory.CloseFile | v1.c:6277-6287 | closing a file leaves its slot used with a NULL pointer |
| SlotTable.Memory.Done | velymem.c:395-437 | the end of a request releases exactly the unmarked blocks, closes every registered file that is open, and resets table and chain exactly if no marked block is left |
| SlotTable.ReuseMatches | velymem.c:133-137 | taking the head of the chain keeps the chain a list of exactly the other free slots |
| SlotTable.ReleaseMatches | velymem.c:240-248 | chaining a released slot keeps the chain a list of exactly the free slots |
| SlotTable.Recognised | velymem.c:340-364 | the range check and the pointer comparison together recognise exactly the blocks of ours |
| SlotTable.HeadsLeft | velymem.c:395-437 | after the release of slots the OS blocks left are those whose slots carry the process bit |
| SlotRuns.RunSound | velymem.c:130-437 | in every history of allocations, frees, reallocs, marks, files and request ends no slot is lost or in two uses and no block is in two slots |
| SlotRuns.ProcessMemoryStays | velymem.c:395-437 | process memory that is neither freed nor resized stays at its place through any history, however many requests end |
| SlotRuns.RequestsLeaveNothing | velymem.c:395-437 | a program without process memory returns everything to the OS at the end of each request, in every history |
| HashModel.FnvFragments | hash.c:374-419 | a key given in fragments hashes like the fragments put together |
| HashModel.Lookup | hash.c:127-195 | the bucket the hash selects has the key exactly if the map has it, with the map's pair |
| HashModel.PutMeans | hash.c:318-372 | adding is map update: buckets stay right, keys stay unique |
| HashModel.RemoveMeans | hash.c:95-118 | removing an element is removal of its key from the map, and the size drops by one |
| HashModel.AdvancePending | hash.c:274-291 | one step of a traversal gives the first of the items still to come and leaves the rest; the end is reported exactly if nothing is left |
| HashModel.RemovePending | hash.c:95-118 | deleting any item during a traversal, before, at or after the current one, takes exactly that item from those still to come |
| HashModel.FlatKeys | hash.c:233-238 | from a rewind the items to come are those of the table, each key once |
| HashModel.PutAhead | hash.c:318-372 | adding a key during a traversal changes nothing for the other keys; a new key is still to come exactly if its bucket has not been reached, and a known one exactly if it was to come before |
| HashModel.NextAhead | hash.c:274-291 | a step gives a key that was still to come and takes exactly it from those to come |
| HashModel.TraversalComplete | hash.c:274-291 | under every interleaving of steps, deletions and additions of any keys no key is given twice, and when nothing is left every key of the start that was not deleted has been given |
| HashModel.KeyExact | hash.c:127-195 | the first match of a key in its bucket is the pair that the map has for it, or there is none |
| HashModel.ListExact | hash.c:144-167 | a search by a list of fragments, which compares only the start of a stored key, finds what the joined key would find if and only if no item that comes before it in the bucket (or none at all, if the key is absent) has a key starting with the joined one; without fragments, if and only if the empty key is absent |
| HashModel.EmptyListFails | hash.c:144-167 | the other case happens: a table that has the empty key does not find it by a list without fragments |
| HashModel.LongerKeyFound | hash.c:144-167 | and for every number of buckets there are two keys, one the start of the other, that after two insertions give the longer one for the fragments of the shorter one, which the table has |
| HashTable.IsMatch | hash.c:144-167 | the comparison of a stored key is equality with the key, or for a list of fragments that the stored key starts with all of them in turn, and false without fragments |
| HashTable.ComputeHash | hash.c:374-419 | the loops compute 32-bit FNV-1a of the key, or of the joined key list, modulo the number of buckets |
| HashTable.Hash.constructor | hash.c:25-47 | a new table has max(size, 10) empty buckets and is rewound |
| HashTable.Hash.Rewind | hash.c:233-238 | the traversal is before the first item |
| HashTable.Hash.Next | hash.c:274-291 | the next pair of the traversal is returned, or nothing exactly at its end; table and map stay |
| HashTable.Hash.DelEntry | hash.c:95-118 | the element is unlinked, at the head of its bucket (recomputed if unknown) or inside; the traversal's current element moves on if it was deleted, so it is never a freed one |
| HashTable.Hash.FindHash | hash.c:127-195 | the first match in the bucket is found, by key or by a list of fragments; by key it is found exactly if the map has it; with the delete option exactly it is removed; searches and comparisons are counted |
| HashTable.Hash.AddHash | hash.c:318-372 | map update, whether the bucket is found from the key or from its fragments; a known key gets the new data and key pointer and the old pair is returned; a new one goes to the front of its bucket |
| HashTable.Hash.Resize | hash.c:200-228 | the map is kept, the table has max(newsize, 10) buckets, the statistics start again, and a traversal that is not rewound skips the first bucket |
| HashImage.AtApart | v1.c:609-650 | no two elements get the same slot of the static array |
| HashImage.AtOnto | v1.c:609-650 | every slot below the terminating one belongs to an element or to an empty bucket |
| HashImage.ImageSize | v1.c:594-609 | the array size, total plus empty buckets plus one, is exactly what the layout needs |
| HashImage.ImageFollows | v1.c:610-648 | following next in the static array from a bucket gives the same keys in the same order as the dynamic chain |
| HashImage.EmitChain | v1.c:618-646 | the loop over one bucket writes its entries at their slots, each linked to the next, and disturbs no other |
| HashImage.Emit | v1.c:546-665 | the generated arrays are the image of the dynamic table |
| HashImage.RequestFound | hash.c:127-175 | at run time a request is found if and only if it is listed and the run-time bucket count puts it into the bucket it was built into |
| HashImage.SetupReqHash | v1.c:546-670 | for every list of names whose stated count is its length and that has no name twice, the run-time table finds a request exactly if it is listed; for any list it answers as above, with the run-time bucket count coming from the number of different names and the built one from the stated count |
| Utf8.SurrogatePair | utf8.c:19-81 | splitting a code beyond 16 bits into surrogates and joining them gives the code back |
| Utf8.CanonicalIsWellFormed | utf8.c:29-124 | for a sequence that starts with a leading byte, reading it and writing the code gives the same bytes if and only if it is a well-formed character by section 4 of RFC 3629 other than U+FEFF |
| Utf8.WriteRead | utf8.c:29-124 | what is written for a code from 0 to 10FFFF other than FEFF is read as that code, whatever follows |
| JsonText.HexBack | json.c:672-690 | the four lower-case digits written for a number are read as that number |
| JsonText.EscapeLength | json.c:805-884 | the escaped text is at most three times as long as the input, for all bytes |
| JsonText.RoundTrip | json.c:699-884 | for every well-formed UTF-8 text without NUL and U+FEFF, unescaping the escaped text gives the text back and stops at its end, before a zero or a closing quote |
| JsonText.NotUndone | json.c:699-884 | the other case happens: U+FEFF and an encoded surrogate are escaped and do not come back |
| JsonText.UndoneExactly | json.c:699-884 | for every string without NUL that can be escaped: it comes back if and only if each of its leading bytes starts a well-formed character other than U+FEFF |
| JsonBuffer.GetHexAt | json.c:672-690 | the loop computes the number and never reads past the terminating zero |
| JsonBuffer.UnescapeCode | json.c:748-776 | a \u escape, alone or as a surrogate pair, is decoded or reported, and its bytes fit in front of the part still to be read |
| JsonBuffer.JsonToUtf8 | json.c:699-795 | the in-place unescaper gives what ReadsExactly and EscapesRefused say of the original text: result, place of the end, error, terminating zero, and nothing changed from the end on |
| JsonBuffer.Utf8ToJson | json.c:805-884 | the escaper fills a buffer of three times the length and one, never beyond it, with the escaped text, which EscapeMeans and ControlsEscaped tell, and a zero, or reports the error of the first bad character |
| FcgiRecords.ReplyReceived | fcli.c:299-448 | for every list of records of a reply, in any order and with any padding, ended by a completed end record, the client has the standard output (type 6) and the standard error (type 7) that were sent, and as status the number whose two's complement is the first four bytes of the end record, the highest first |
| FcgiRecords.BigEndian4 | fcli.c:350-354 | the number of four bytes, the highest first |
| FcgiRecords.ReplyCutShort | fcli.c:299-448 | a reply that breaks off at any byte is reported as an error |
| FcgiRecords.SuccessIsReply | fcli.c:299-448 | success is reported only for a stream that starts with a complete reply |
| FcgiRecords.GatherIs | fcli.c:311-356 | the contents of the kinds of records are collected separately, each in order |
| FcgiClient.Client.ReadSocket | fcli.c:161-186 | however the bytes come in, either exactly the wanted bytes are read or the error is noted |
| FcgiClient.Client.ReadHeader | fcli.c:389-442 | header and checks of version and request, and a buffer of the needed size |
| FcgiClient.Client.ReadMessage | fcli.c:311-359 | the content of a record goes behind the earlier content of its kind, within the buffer; the end record is interpreted |
| FcgiClient.Client.ServerRead | fcli.c:299-448 | the outcome is that of the byte stream, in whatever pieces it arrives, which ReplyReceived, ReplyCutShort and Refusals tell; on success both texts end with a zero inside their buffers |
| FcgiParams.ParamsRoundTrip | fcli.c:450-499 | what is written for a list of pairs is read as that list by section 3.4 of the FastCGI 1.0 specification |
| FcgiParams.PacketsCarry | fcli.c:959-984 | the packets carry the body in order, each of 1 to 65527 bytes |
| FcgiParams.RequestCarries | fcli.c:866-984 | a server reading the request's records gets the parameters and the body |
| FcgiRequest.Sender.WriteSocket | fcli.c:193-214 | all bytes are sent, in whatever pieces the connection takes them, or a part of them and an error |
| FcgiRequest.Sender.SizeParams | fcli.c:908-929 | the first pass computes the size of the encoded parameters |
| FcgiRequest.Sender.SendEnv | fcli.c:463-499 | the encoded pair is put behind those already there |
| FcgiRequest.Sender.WriteParams | fcli.c:934-952 | the second pass fills the buffer of the size found by the first exactly |
| FcgiRequest.Sender.SendBody | fcli.c:959-984 | whatever records have the bytes sent for a body that is not empty: they are all of type 5, exactly the last one is empty, and their contents are the body |
| FcgiRequest.Sender.Request | fcli.c:866-984 | the request is sent if and only if its parameters take less than 65527 bytes and the connection takes all its bytes; whatever records have the bytes then sent, they begin with the record of type 1, then come the parameters as records of type 4 of which exactly the last one (without any parameter both) is empty, then, if there is a body, it as records of type 5 of which exactly the last one is empty, and nothing else; otherwise the error says which of the two failed |
| JsonDoc.PrintAhead | json.c:292-607 | the text of a document cut where the parser stops is the text of the document |
| JsonDoc.ScanPrinted | json.c:613-670 | the number scanner stops exactly at the end of every number of the JSON grammar that a delimiter follows, and tells integers from reals |
| JsonPhases.Meets | json.c:350-353 | in a document the parser never meets a character it refuses, nor the end of the text |
| JsonPhases.AtName | json.c:467-475 | a quote where a name is expected starts the member's name, which is read to its closing quote and put into the level of the member |
| JsonPhases.MemberRead | json.c:410-421 | after the call for a member's value the parser stands behind that value, with the levels it had and exactly that value's leaves added |
| JsonPhases.ElementRead | json.c:379-394 | after the call for an array's element the parser stands behind it, with the element's leaves added under the element's place |
| JsonPhases.AtCommaArray | json.c:424-441 | a comma in an array moves on to the next element and its place |
| JsonPhases.AtCloseArray | json.c:396-407 | the end of an array restores the level of the member that holds it |
| JsonScan.TextEnd | json.c:709-723 | without decoding a string ends at its first quote that no backslash stands before, or at the end of the text |
| JsonScan.NumberAt | json.c:613-670 | the number scanner's loops compute the scan of the number |
| JsonScan.FullName | json.c:68-135 | the name of a leaf is the quoted names of its way joined by dots, with the places in arrays in brackets, from which NameBack reads the way back, and it fits the block measured beforehand |
| JsonParse.LeavesZeroFree | json.c:292-607 | no leaf of a document has a zero in its text or in the names on its way, so that text and name can be read as C strings |
| JsonParse.NullAndSpace | json.c:549-574 | a refused document, by the condition of NewJson: null followed by a space |
| JsonStore.LastIsLast | json.c:233-251 | the last node with a name is the last leaf with that name |
| JsonParse.JsonParser.TakeLeaf | json.c:38 | adding a leaf puts a zero behind its text and a node with its name, kind and text behind those already there, for any state of the parser; the texts of earlier nodes and the names in use stay as they are |
| JsonParse.JsonParser.Turn | json.c:350-582 | one turn of the loop on any text keeps the parser's state sound; a character that the phase does not expect ends the parsing with its complaint at its place; and in a document the turn takes the parser one phase further |
| JsonParse.JsonParser.JsonNew | json.c:292-607 | the recursive call: on any text all nodes stay readable strings with the names of their levels; ahead of a value of a document it reads exactly that value, adds exactly its leaves in order and restores levels and depth |
| JsonParse.JsonParser.Finish | json.c:596-605 | white space behind the value is passed over, and anything else there is an error |
| JsonStore.Json.AddHash | json.c:233-251 | the hash table of the document, made for the number of nodes up to the limit, maps each name of a node to the last node that has it |
| JsonStore.Json.NewJson | json.c:292-607 | for every document (any white space, no array at the root or directly in an array, no empty object or array, depth below 32) the nodes are its leaves in document order with the right names, kinds and texts; it is accepted exactly if it is an object or a string or nothing follows it, since a number or a word hides the white space behind it under a zero; and the parser is ready for another document exactly if this one was accepted |
| JsonStore.Json.RefuseNullAndSpace | json.c:549-605 | null followed by a space is read as the leaf it is and refused, and the space stays behind for the next document |
| JsonStore.Json.FragmentsExact | json.c:184-199 | a search by the fragments of a name is the search by the name wherever no leaf has a longer name that starts with it |
| JsonStore.Json.ReadJson | json.c:184-199 | reading by name from the hash table gives the text and the kind of the last leaf that has the name, and fails exactly if no leaf has it; by fragments it gives what the table finds, always the last leaf of its name, and the leaf with the joined name, or none, if no longer name starts with it |
| DbMachine.Appended | db.c:334-483 | a log to which a statement of a transaction is added on the connection where that transaction began stays one in which all such statements ran there |
| DbMachine.EachInItsTransaction | db.c:334-483 | in such a log every user statement sent inside a transaction ran on the connection on which the last transaction of its database began |
| DbMachine.Databases.ResetPreps | db.c:950-979 | exactly the handles of all statements of the current database's vendor become NULL |
| DbMachine.Databases.Register | db.c:981-998 | a statement is put on the list with the vendor of its database, without a handle |
| DbMachine.Databases.EndConnection | db.c:39-64 | the connection goes and with it the transaction flag; other databases are untouched |
| DbMachine.Databases.GetConnection | db.c:71-144 | a connection is kept as long as there is one; a new one, which a failed connect may leave behind dead, is made only outside of a transaction, on no account with a handle left from an earlier one |
| DbMachine.Databases.RetryDb | db.c:487-515 | a lost connection is replaced by another one, or an error is reported |
| DbMachine.Databases.Exec | db.c:372-388 | a statement is prepared on the connection it runs on before it runs |
| DbMachine.Databases.HandleError | db.c:528-632 | a call with retry reconnects only if the connection is lost; without retry nothing changes; if nothing changes, the error is handed back exactly if the statement says so or, where it says nothing, the database does, and reported otherwise |
| DbMachine.Databases.TryAgain | db.c:397-462 | outside of a transaction a statement that failed is sent once more, on another connection, only if the first one is lost; an error is handed back or reported by the on-error clauses, but for a lost connection that cannot be made anew, which is reported with nothing sent again |
| DbMachine.Databases.Run | db.c:363-474 | inside a transaction a failed statement is never sent again and the connection stays |
| DbMachine.Databases.ExecuteSql | db.c:334-483 | a call sends its statement twice at most, the second time only after a failure outside of a transaction and on another connection; a user's begin, start, commit or rollback is never sent, and with a connection any other statement is, unless it cannot be prepared; a failed one is handed back or reported by the on-error clauses, as above |
| DbMachine.Databases.BeginTransaction | db.c:154-180 | success sets the flag, and the transaction began on the connection that the database has |
| DbMachine.Databases.EndTransaction | db.c:233-280 | the flag is cleared before the statement is sent, which may so go to a new connection |
| DbMachine.Databases.UserStatement | v1.c:1646 | a prepared statement is put on the list the first time it is used; what is refused is refused without being sent, and with a connection anything else is sent unless it cannot be prepared |
| DbMachine.Databases.CheckTransaction | db.c:201-225 | the databases whose transaction flag is set get their flag cleared and one rollback each, in their order, the others are left alone; only a rollback that reports an error itself cuts this short |
| DbMachine.Databases.ReportError | velyrt.c:619-691 | a reported error rolls back every open transaction and ends the request; the program ends only if one of these rollbacks reports an error |
| DbMachine.Databases.EndRequest | v1.c:6960-6963 | a request that leaves a transaction open has it rolled back and an error reported |
| DbMachine.Databases.Calls | v1.c:6947-6995 | a request makes its calls in their order, each leaving a stage of the log with its own database and kind of statement, and stops before the end only behind a call whose last execution failed or that executed nothing |
| DbMachine.Databases.Serve | v1.c:6947-6995 | the log of a request is the stages of its calls, up to the first reported error, and of rollbacks behind them; afterwards no transaction is open, and connections, handles and flags go on to the next request |
| DbMachine.Databases.Session | v1.c:6947-6995 | over every run of requests, each of any calls, whatever fails and wherever errors are reported: each user statement sent while the flag is set ran on the connection on which its transaction began; the log is made up of the stages of all requests in their order, each of its own call, which sends its statement twice at most, or a rollback; every handle that is not NULL belongs to its database's connection; and no transaction outlives its request |
| SqlText.SplitMeans | velyrtc.c:256-271 | the format is its parts with the placeholders between them, one more part than there are placeholders, and no part has a placeholder |
| SqlText.SubstituteIsSimultaneous | db.c:1137-1188 | replacing the placeholders one after another, each search starting behind the last value, replaces them all at once, even if values contain placeholders |
| SqlText.BuildIsSimultaneous | db.c:1088-1202 | the text built is the format with its i-th placeholder replaced by the i-th argument that is not NULL, escaped and trimmed |
| SqlText.TwoPassesAreOne | lite.c:398-405 | doubling backslashes and then quotes is one pass that doubles both, and the result has at most twice the length after each pass |
| SqlText.TrimEscaped | db.c:1167-1177 | trimming the escaped value is escaping the trimmed one |
| SqlText.ReplaceAllGrows | velyrtc.c:282-328 | replacing by a text that is no shorter never shortens a string |
| SqlBuffer.ReplaceEvery | velyrtc.c:282-328 | replacement in place with memmove is replacement of all occurrences from the left, within the size given; -1 if and only if the longest of the texts on the way does not fit; after -1 the string has the first occurrences replaced and the others not |
| SqlBuffer.ReplaceOne | velyrtc.c:282-328 | replacement of the first occurrence, exactly -1 if the result does not fit, and the place behind the new text |
| SqlBuffer.LiteEscape | lite.c:398-405 | the escaper never fails in a buffer of twice the length and one |
| SqlBuffer.TrimInPlace | db.c:1167-1177 | the value is trimmed, as TrimIs says, where it stands |
| SqlBuffer.PutArgument | db.c:1146-1187 | one argument goes into its place in the buffer grown for it, whatever it contains, and this never fails for lack of room |
| SqlBuffer.MakeSql | db.c:1088-1202 | the text of BuildIsSimultaneous, or the error of BuildExactly; the text is never too large for its buffer |
| FcgiWire.RecordLayout | fcli.c:236-249 | a record is version 1, type, request id 1, content length and padding length, a reserved byte, content and padding, each number's high byte first |
| FcgiWire.SameRecords | fcli.c:389-442 | different lists of records have different bytes |
| FcgiWire.PairsListed | fcli.c:463-499 | the parameters are sent as the pairs one after the other: each length in one byte below 128 and otherwise in four with the top bit set, the highest first, then name and value |
| FcgiWire.BodyStream | fcli.c:959-984 | the records of the body are of type 5, exactly the last one is empty, and their contents are the body |
| FcgiWire.PacketSizes | fcli.c:959-984 | all packets of the body but the last have 65527 bytes, and the last has at least one and at most as many |
| FcgiWire.BytesUnderstood | fcli.c:866-984 | whatever records have the bytes of a request: begin record, parameters ended by one empty record, body ended by one empty record, and nothing else |
| FcgiWire.Refusals | fcli.c:299-448 | behind any good records another version, another request id, an end record of another length or with a protocol status, a record of type 11 and a stream that stops are told apart |
| JsonStrings.WriteIs | utf8.c:86-124 | the bytes written for a code other than FEFF are those of the table of section 3 of RFC 3629, and no others are |
| JsonStrings.ReadIs | utf8.c:29-81 | a character by that table is read as its code, whatever follows |
| JsonStrings.ReadsExactly | json.c:699-795 | the text of a string is read to its end as exactly the bytes it stands for by section 7 of RFC 7159 (the eight escapes of two characters, four hexadecimal digits, pairs of surrogates), provided no escape is that of U+FEFF; nothing else whose surrogates are paired is read |
| JsonStrings.EscapesRefused | json.c:724-782 | any other escape is refused with its error; a surrogate is joined with any number escaped behind it, which need not be a low one |
| JsonStrings.EscapeMeans | json.c:805-884 | the text written for a string without zero, whose leading bytes start characters other than U+FEFF, stands for that string |
| JsonStrings.ControlsEscaped | json.c:869-880 | the text written has no control character exactly if the string has none but those with an escape of two characters; others are written as they are |
| JsonStrings.AsciiOnly | json.c:824-868 | well-formed text is written in ASCII |
| JsonStrings.BareStays | json.c:869-880 | a text without anything to escape is written as it is |
| JsonStrings.LeadsRefused | utf8.c:29-81 | a leading byte is refused by the first place behind it without a byte from 128 up, and otherwise read |
| JsonNames.DecimalIs | json.c:105-125 | the place in an array is written as its decimal numeral: digits only, no leading zero, and read from the highest digit it is the number |
| JsonNames.NameBack | json.c:68-135 | the way of a leaf is read back from its name |
| JsonNames.NamesDiffer | json.c:68-135 | so different ways, above all different places in an array, have different names |
| JsonNames.LeavesAre | json.c:292-607 | the leaves of a document are exactly its scalars, each with the way that leads to it through members by name and elements by place from 0, its kind and its text |
| JsonNames.Example | json.c:292-607 | the text of one document, byte by byte |
| JsonSyntax.ScanStringIs | json.c:709-723 | a string ends at its first quote with an even number of backslashes right before it, or at the zero |
| JsonSyntax.ScannedIs | json.c:613-670 | what the number scanner accepts is a number of the JSON grammar that ends there, a real exactly if it has a fraction or an exponent |
| JsonSyntax.IsScanned | json.c:613-670 | and every such number is accepted with its length |
| JsonSyntax.ComplaintIs | json.c:350-582 | in each phase exactly the characters that the grammar has there are accepted, and any other is refused with the complaint of what is missing |
| SqlLaws.TrimIs | db.c:1167-1177 | trimming takes away white space (the six characters of C) on both sides, and what is left starts and ends with none |
| SqlLaws.EscapeReads | lite.c:398-405 | an escaped value is read back by taking each doubled backslash or quote for one; no single one is left |
| SqlLaws.ReplaceAllIs | velyrtc.c:282-328 | the text is the parts between the leftmost occurrences, and the result is these parts joined by the replacement |
| SqlLaws.CountBytes | velyrtc.c:256-271 | counting the occurrences of one byte is counting the byte |
| SqlLaws.ValuesOf | db.c:1146-1187 | an argument that is NULL gives no value, and any other its value, in order |
| SqlLaws.WeaveAt | db.c:1137-1188 | the k-th part is in the text built behind the parts and values before it, with the k-th value behind it |
| SqlLaws.QuotedExactly | db.c:1110-1130 | there are as many quoted placeholders as placeholders exactly if each placeholder has quotes on both sides |
| SqlLaws.BuildExactly | db.c:1088-1202 | a text is built exactly if the quotes are even in number, each placeholder is quoted and the values are as many as the placeholders; which error comes is the first of these that fails |
| HashFnv.XorIs | hash.c:385 | the exclusive or is the one number of 32 bits whose bits are set where exactly one of the two has its bit set |
| HashFnv.RoundIs | hash.c:385 | a round is the exclusive or with the character as a signed char, times the prime, modulo 2 to the 32 |
| HashFnv.BucketIs | hash.c:374-419 | the bucket is what the rounds for the key's characters in their order lead to from the offset basis, modulo the number of buckets |
| HashFnv.Published | hash.c:374-419 | the published FNV-1a hash of the text a |
| DbMachine.ControlsIs | db.c:286-294 | a statement is refused exactly if behind white space and quotes it has one of the four words, in any case, followed by its end, white space or a quote |
| JsonStore.LastLeafIs | json.c:233-251 | the leaf that a name is read from has the name, and no later leaf has it |

## Left out

- Tree keys are assumed to have the length the caller states, and a custom comparison function is assumed to be a total order; live cursors after a delete are not specified, since a copy-up moves keys between nodes.
- Tree purge, the balance checker and the printing of trees (`tree.c:640-664`), and marking keys and data of process trees as process memory.
- Allocation failure, which ends the program, and the unmanaged memory mode, which is plain malloc.
- SlotTable.Memory.Free: a pointer that is not a block of ours is assumed to be readable where its slot number would be, since otherwise the program crashes.
- Sizes of blocks, and alignment beyond the sixteen bytes in front of the user's memory.
- HashTable.Hash.AddHash: a list of fragments that does not join to the key, which no caller in the source passes.
- Writing the generated C text of the request table; the model has the arrays that the text initialises.
- JsonBuffer.JsonToUtf8: the mode without conversion is JsonScan.TextEnd, for quoted text only; for unquoted text the code does not move past an unescaped quote (`json.c:719`).
- JsonStore.Json.NewJson: what is found in other texts, where the code accepts some that RFC 7159 does not have and none of whose nodes need be meaningful: arrays at the root (where the code leaves the list of levels, which the model reports as undefined), arrays directly in arrays, empty objects and arrays, malformed texts. Only soundness of the nodes and levels is kept on all texts.
- The addresses of the names of JSON nodes; the number of the node stands for them.
- The parser with decoding of strings switched on, with a node handler or without a hash, and the growth of the memory for nodes.
- DbMachine.Databases.EndTransaction: the connection on which a commit or a rollback runs, since the code clears the flag first (`db.c:237`, `db.c:265`).
- Fetching of results, and the vendors' own escaping; SqlBuffer.MakeSql has SQLite's.
- Searching without case and a search for an empty text in `velyrtc.c:282-328`.
- Timeouts, hooks, threads, name resolution and the building of the list of parameters from a request (`fcli.c:876-918`); stale values of errno after a read.
