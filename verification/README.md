# libdank: verified model

A Dafny 4.11 model of nine parts of the libdank C library, with proofs about them:

- `Slalloc.dfy`, `Magic.dfy`: the slab allocator (usemap words, the list of non-full blocks, the
  index and address arithmetic) and the bit tricks and the base-2 logarithm table that it uses.
- `Lrupat.dfy`: the compressed string trie, plain and case-folding.
- `IntervalTree.dfy`: the pointer tree of disjoint intervals, splicing and balancing.
- `IpSet.dfy`, `IpSetText.dfy`: IPv4 range sets and their text form.
- `CtlServer.dfy`: the control server's command table, pending list and drones.
- `LogListener.dfy`: the log listener's message ring.
- `CrlfReader.dfy`: splitting a stream into CR LF lines.
- `Rfc2396.dfy`, `Rfc2396Text.dfy`: the URI parser and printer, and the texts of URIs.
- `Lexers.dfy`: bounded unsigned integers.

`Common.dfy` holds what several of them share.

Code that updates structures in place is modelled by classes and methods; each method is proved
equal to a function on values, or to a property of the abstract state, and the promises of the
source are lemmas about those functions or invariants of the class.  The trie, the slab allocator
and the CRLF reader keep ghost state beside the fields of the C structures: the map that the trie
stands for, the order of the non-full list, the lines a reader has returned.  The interval tree's
nodes are heap objects, with a ghost shape that says how they hang together.  The two concurrent
parts are state machines with one step for each time a lock is held; their lemmas are about every
interleaving.

## Reading guide

- Slab allocator: `Slalloc.Valid` says that each block's free count is the number of its clear
  bits, that the list holds exactly the blocks with free objects, each once, with no link into an
  array that has been reallocated, that blocks are apart, and that bytes outside live objects are
  zero.  Every method keeps it, with the one exception named below.  A link carries the generation of the array it points into, so a
  dangling link would be a wrong generation.
- Trie: node pointers are positions, and `NodeStore` gives the address in the slab that each stands
  for.  The ghost fields `at`, `path` and `home` give the node of each word, the word of each node and
  the node of each key; `Contents` is the map.
- Range sets: canonical means sorted with at least one absent address between ranges.
- Text of range sets: the forms `-x` and `x/n` are read from a table of readings (`Forms`) that
  every parsing function takes, so that what is proved holds whatever they mean.
- URIs: the IPv6 literals that `inet_pton` accepts are a parameter, `literals`.
- Some results look at a part from outside: their contracts name none of the functions that the
  methods are proved against, only what goes in and what comes out, with character classes spelled
  as strings and constants as numbers.  These are `Ctype.ClassesAre`, `LpatNodes.FoldingIs`,
  `LruPats.AddAllThenLookup`, `IntervalRuns.InsertAllThenLookup`, `IpSets.Replay`,
  `IpSetTexts.ParseParts`, `CtlSteps.RunsWhatWasAsked`, `ListenerSteps.GoneOnlyThen`,
  `Listeners.WriteAll`, `CrlfReaders.ReadAll` and `Uris.ExtractParts`.

## Where the code and what it promises differ

The model follows the code.

- `libdank/utils/rfc2396.c:159-163` says that a `:` without a port must be accepted.  After a host in
  brackets or behind `userinfo@` it is rejected, by the call of `lex_u16` just before, unless a number
  below 2^16 follows (`UriGrammar.AuthorityRejected`, `UriGrammar.UriRejected`,
  `UriGrammar.BareColonRejected`, `UriGrammar.BareColonRejectedInBrackets`).  After any other host it is
  accepted only because the host takes it in, and a port with it: the host of `//h:80/p` is `h:80` and
  its port is 0 (`UriGrammar.ColonInHost`, `UriGrammar.BareColonSwallowed`, `UriGrammar.PortSwallowed`).
- `libdank/objects/crlfreader.h:50-54` says that the data of a LONGLINE are stored in `iv`.  They never
  are: `iv` holds what is promised exactly when the result is SUCCESS or MOREDATA
  (`CrlfReaders.CrlfReader.ReadCrlfLine`).  Every stream of 0x100000 bytes without CR LF gets there
  (`CrlfReaders.FirstCall`).
- Balancing gives a depth logarithmic in the population for every population but 2^32, where the
  32-bit count is 0, `Malloc` refuses an empty vector, and the tree is left as the list that it has
  been turned into; no entry is lost (`IntervalTrees.BalanceGivesDepth`,
  `IntervalTrees.FullTreeBecomesList`, `IntervalTrees.BalanceKeepsEntries`).
- Printing a URI gives back the text read only if no whitespace was skipped in front and a port did
  not begin with a space or 0 (`UriGrammar.PrintsWhatWasRead`, `UriGrammar.PortPrintsDifferently`,
  `UriGrammar.SpacePrintsDifferently`).  What is printed is read back as the same URI unless a port
  read as 0, which is not printed, stood between the host and what could continue it
  (`UriGrammar.PrintedReadsBack`, `UriGrammar.PortLost`).
- Adding a key to a trie in the nocase form can change the spelling of another key, if keys in upper
  case were added in the plain form before (`LpatNodes.RefinesMapExactly`,
  `LpatNodes.MixedCaseRenames`).
- When the pages of a new block are refused, the block is already on the list of blocks with free
  objects, and stays there (`Slabs.Slalloc.AddPage`, `Slabs.Slalloc.New`, `Slabs.RefusedAtFirst`).
- `libdank/objects/lexers.c:160-163` says that the result is not touched on failure.  `lex_uint` itself
  accumulates a token with a leading zero in it: a rejected token changes the result exactly if the
  zero is followed by a first digit, not 0, that the form and the width allow (`Lexers.LexUint`,
  `Lexers.LeftoverIsNotZero`, `Lexers.OneIsLeft`).  The functions in the header do keep it
  (`Lexers.LexU`).
- The log listener reports drops where the reader is, not where the messages were dropped: a report
  stands 1022 or 1023 messages ahead of the place that its messages would have had
  (`ListenerSteps.DeliversInOrder`).

## Model

| member | source | states |
|---|---|---|
| `Bits.IsolateRightmostClear` | libdank/objects/slalloc.c:83-104 | `~w & (w + 1)` is the lowest clear bit of a word alone, and 0 exactly for the full word |
| `Bits.IsolateRightmostSet` | libdank/objects/slalloc.c:161-189 | `w & -w` is the power of two that w is an odd multiple of |
| `Magic.TableDoubles` | libdank/ersatz/magictables.h:13-19 | doubling a residue modulo 67 steps to the next logarithm in the table |
| `Magic.Log2OfPow2` | libdank/utils/magic.h:35-39 | the table lookup gives k for 2^k, for every bit of a 64-bit word |
| `SlabLayout.OffsetInPage` | libdank/objects/slalloc.c:107-111 | an object lies inside one page, and that page inside its block |
| `SlabLayout.IndexInvertsOffset` | libdank/objects/slalloc.c:267-273 | the divisions of free invert the address computation of new, for every object size up to a page |
| `SlabLayout.OffsetsApart` | libdank/objects/slalloc.c:107-111 | different objects of a block share no byte |
| `SlabLayout.LowestUnused` | libdank/objects/slalloc.c:83-104 | while any object is unused the search over the words succeeds, and finds a clear bit no later than it, also in a partial last word |
| `Slabs.Slalloc.LiveObjectsApart` | libdank/objects/slalloc.c:235-246 | in every valid state live objects are pairwise disjoint, each inside one page of one block |
| `Slabs.Slalloc.constructor` | libdank/objects/slalloc.c:161-189 | a new allocator is valid, has no block and no live object |
| `Slabs.Create` | libdank/objects/slalloc.c:161-189 | fails exactly for objects of size 0 or larger than a page; otherwise the geometry is valid, with the objects per page and the pages per block that the source computes, and there is no block yet |
| `Slabs.Slalloc.FindFree` | libdank/objects/slalloc.c:83-95 | a block with free objects has a word with a clear bit, the first such word is found |
| `Slabs.Slalloc.TakeFirstUnused` | libdank/objects/slalloc.c:71-115 | NULL exactly when the non-full list is empty; otherwise the lowest unused object of its first block becomes live, no other changes, and its bytes are zero |
| `Slabs.Slalloc.MarkTaken` | libdank/objects/slalloc.c:96-106 | one bit is set, the count follows, and a block that has become full leaves the list |
| `Slabs.Slalloc.AddPage` | libdank/objects/slalloc.c:206-233 | the list is empty when the arrays move, so no link dangles; live objects and mapped bytes are kept, and the new block heads the list; refusals change nothing, except that refused pages leave the list starting with a block that does not exist |
| `Slabs.Slalloc.MapPages` | libdank/objects/slalloc.c:119-154 | a whole block is mapped, cleared |
| `Slabs.Slalloc.New` | libdank/objects/slalloc.c:235-246 | returns an object that was not live, zeroed, and makes exactly it live; NULL exactly when a new block is needed and refused; valid afterwards exactly unless it was the pages that were refused |
| `Slabs.RefusedAtFirst` | libdank/objects/slalloc.c:221-229 | with any allocator whose first pages are refused NULL is returned, there is no block, and yet the list starts with one, so that no order of blocks makes the state valid |
| `Slabs.Slalloc.FindBlock` | libdank/objects/slalloc.c:249-258 | finds the block that the object lies in |
| `Slabs.Slalloc.Free` | libdank/objects/slalloc.c:261-282 | exactly the given object stops being live, its bytes are cleared and all others kept |
| `Slabs.Slalloc.MarkGiven` | libdank/objects/slalloc.c:270-281 | one bit is cleared, the count follows, and a block that was full joins the list |
| `Slabs.Slalloc.Write` | libdank/objects/slalloc.c:134-139 | writing inside a live object keeps all bytes outside live objects zero |
| `Slabs.Slalloc.Foreach` | libdank/objects/slalloc.c:306-365 | each live object is visited exactly once, or the walk ends with the first one whose callback asks to stop |
| `LpatNodes.PrefixesAttached` | libdank/objects/lrupat.c:10-20 | each prefix of a word in the trie leads to its own node |
| `LpatNodes.FoldingIs` | libdank/objects/lrupat.c:178-203 | two keys are folded to one exactly if they have the same length and differ only in the case of letters, without nocase not at all; a folded key has no capitals |
| `LpatNodes.AddLeafIsInsert` | libdank/objects/lrupat.c:149-163 | a new leaf adds exactly one key, which was not there |
| `LpatNodes.SetHereIsUpdate` | libdank/objects/lrupat.c:257-280 | setting a key at an existing node updates exactly that key |
| `LpatNodes.DecayRenames` | libdank/objects/lrupat.c:64-147 | flattening a tail keeps the map but for that tail's spelling, which the nocase form lower-cases, and leaves at the same place a node without a tail |
| `LpatNodes.DecayObjects` | libdank/objects/lrupat.c:95-99 | flattening a tail moves its object and loses or copies none |
| `LpatNodes.TailMetOnce` | libdank/objects/lrupat.c:194-202 | at most one tail lies on the way of a key, so that adding it flattens at most one |
| `LpatNodes.RefinesMapExactly` | libdank/objects/lrupat.c:185-234 | adding a key leaves every other key as it was if and only if the tail on its way, if any, is spelled in the case of the form used |
| `LpatNodes.MixedCaseRenames` | libdank/objects/lrupat.c:106-147 | with "A" added plainly, adding "b" without case turns "A" into "a" |
| `LpatNodes.FoundOnce` | libdank/objects/lrupat.c:292-346 | at most one node answers a lookup, whatever the trie and the terminator |
| `LpatNodes.FoundIsStored` | libdank/objects/lrupat.c:298-308 | a node that answers holds a stored key that stands at the beginning of the text, with the terminator behind it, and the object answered is that key's |
| `LpatNodes.StoredIsFound` | libdank/objects/lrupat.c:309-314 | a stored key that stands there is answered if and only if the part of it that leads to its node is in the case asked for and does not contain the terminator |
| `LpatNodes.AskedIsFound` | libdank/objects/lrupat.c:316-354 | over keys in the case asked for and without the terminator, an answer exists exactly when the text up to the terminator is a key, and is that key's |
| `LruPats.LruPat.constructor` | libdank/objects/lrupat.c:32-44 | a new trie over an empty slab is empty |
| `LruPats.Create` | libdank/objects/lrupat.c:32-44 | a trie with its slab, or NULL exactly where a node does not fit in a page |
| `LruPats.LruPat.NewNode` | libdank/objects/lrupat.c:149-155 | a blank node behind all others, with a new address of its own from the slab allocator |
| `LruPats.LruPat.ChainNew` | libdank/objects/lrupat.c:149-183 | one node is added, with the rest of the key as its tail, lower-cased in the nocase form |
| `LruPats.LruPat.BuildChain` | libdank/objects/lrupat.c:73-95 | the loop builds one node per character of the tail, linked in order, the last with the key and the object |
| `LruPats.LruPat.DecayTail` | libdank/objects/lrupat.c:64-147 | both decay functions make the value-level flattening of the tail, the old node staying allocated without object |
| `LruPats.LruPat.Vacate` | libdank/objects/lrupat.c:263-277 | an object about to be replaced goes to the callback once; a tail is flattened first |
| `LruPats.LruPat.SetKey` | libdank/objects/lrupat.c:257-280 | the key gets the new object, the old one is handed over, no other object is touched |
| `LruPats.LruPat.AddHelper` | libdank/objects/lrupat.c:185-282 | below any node, for any trie: the map with the tail on the way respelled is updated at the lower-cased or plain key, a replaced object is handed over, and no object is lost or doubled |
| `LruPats.LruPat.Add` | libdank/objects/lrupat.c:284-290 | the trie refines a map: after add, the key has the object, an object that it had is handed over, and every other key has what it had, in the plain form always and in the nocase form over lower-case keys; over others but for the one respelled tail |
| `LruPats.LruPat.LookupHelper` | libdank/objects/lrupat.c:292-346 | a lookup from a node on the way gives the object of the one node that answers, or nothing when there is none, for every trie and terminator |
| `LruPats.LruPat.Lookup` | libdank/objects/lrupat.c:316-354 | the four lookups give the object of the one node that answers; over keys in the case asked for and without the terminator that is the map's value at the text up to its terminator |
| `LruPats.AddAll` | libdank/objects/lrupat.c:284-290 | any additions to a new trie: each key has what was last added for it, and the objects replaced have been handed over in order |
| `LruPats.AddAllThenLookup` | libdank/objects/lrupat.c:284-354 | after any additions, a lookup gives the object added last for the text, letters of either case counting as one exactly in the nocase form, and nothing if there is none; the objects handed over are those replaced |
| `LruPats.LruPat.Destroy` | libdank/objects/lrupat.c:381-399 | the allocator's walk hands over the object of every node, so that in all each non-NULL object ever added went to the callback exactly once in the trie's life |
| `NodeStores.NodeStore.New` | libdank/objects/slalloc.c:235-246 | each further node is zeroed, shares no byte with an earlier one, and leaves what they hold |
| `NodeStores.NodeStore.Walk` | libdank/objects/slalloc.c:338-365 | the allocator's walk comes past every node exactly once |
| `IntervalTrees.InsertRefinesMap` | libdank/objects/intervaltree.c:35-51 | insert fails exactly when the interval overlaps a stored one, and otherwise adds exactly one pair |
| `IntervalTrees.ReplaceRefinesMap` | libdank/objects/intervaltree.c:53-75 | replace updates an equal interval, adds a disjoint one and fails on other overlaps; replaced data are released once |
| `IntervalTrees.SplicedInOrder` | libdank/objects/intervaltree.c:77-95 | taking a node out keeps the order of all others |
| `IntervalTrees.RemoveRefinesMap` | libdank/objects/intervaltree.c:97-134 | remove and extract take out an equal interval and nothing else, and no data pointer is lost or doubled |
| `IntervalTrees.LookupRefinesMap` | libdank/objects/intervaltree.c:136-153 | lookup gives the data of the one stored interval holding the key, or NULL |
| `IntervalTrees.FreeConserves` | libdank/objects/intervaltree.c:245-255 | freeing hands over every data pointer exactly once |
| `IntervalTrees.CountWraps` | libdank/objects/intervaltree.c:166-172 | the 32-bit population is the number of nodes modulo 2^32 |
| `IntervalTrees.BalancedDepth` | libdank/objects/intervaltree.c:211-222 | a tree built from n > 0 nodes has depth d with 2^(d-1) <= n < 2^d |
| `IntervalTrees.BalancedIsShallowest` | libdank/objects/intervaltree.c:224-243 | no tree with the same entries is shallower than the balanced one |
| `IntervalTrees.BalanceKeepsEntries` | libdank/objects/intervaltree.c:224-243 | balancing keeps the in-order sequence of every ordered tree, of any population, with or without memory for the vector |
| `IntervalTrees.BalanceGivesDepth` | libdank/objects/intervaltree.c:224-243 | with memory, the depth d of n > 0 entries has 2^(d-1) <= n < 2^d if and only if n < 2^32; at 2^32, and without memory, the depth is n |
| `IntervalTrees.BalanceKeepsContents` | libdank/objects/intervaltree.c:224-243 | balancing any ordered tree keeps the map and every lookup |
| `IntervalTrees.FullTreeBecomesList` | libdank/objects/intervaltree.c:224-243 | with one entry for every key the tree is ordered and balanced, the count is 0, and balancing makes a list of depth 2^32 with the same entries |
| `IntervalEntries.SortedIsSmall` | libdank/objects/intervaltree.c:166-172 | disjoint intervals number at most 2^32 |
| `IntervalTree.Insert` | libdank/objects/intervaltree.c:35-51 | the pointer code yields a proper tree equal to the value-level insertion |
| `IntervalTree.Replace` | libdank/objects/intervaltree.c:53-75 | the pointer code equals the value-level replacement, callbacks included |
| `IntervalTree.SpliceOut` | libdank/objects/intervaltree.c:77-95 | the left side hangs under the leftmost node of the right side; the nodes left are all but the root |
| `IntervalTree.Remove` | libdank/objects/intervaltree.c:97-115 | the pointer code equals the value-level removal, callbacks included |
| `IntervalTree.Extract` | libdank/objects/intervaltree.c:117-134 | the same removal, handing the data back instead |
| `IntervalTree.Lookup` | libdank/objects/intervaltree.c:142-153 | equals the value-level lookup |
| `IntervalTree.Population` | libdank/objects/intervaltree.c:166-172 | equals the 32-bit population |
| `IntervalTree.Free` | libdank/objects/intervaltree.c:245-255 | one callback for each node |
| `IntervalTree.Linearize` | libdank/objects/intervaltree.c:178-194 | the tree becomes a list of its nodes in order, and the last node is returned |
| `IntervalTree.Vectorize` | libdank/objects/intervaltree.c:196-209 | the vector holds the first nodes of the list in order; NULL exactly when Malloc refuses, as it does for 0 nodes |
| `IntervalTree.Bbstize` | libdank/objects/intervaltree.c:211-222 | the vector becomes the tree with its middle as root, and so on down |
| `IntervalTree.Balance` | libdank/objects/intervaltree.c:224-243 | the pointer code equals the value-level rebuilding, and an ordered tree has exactly the same nodes afterwards |
| `IntervalRuns.InsertAllThenLookup` | libdank/objects/intervaltree.c:35-153 | any insertions, balancing or not, one removal, one lookup: -1 exactly for each insertion that has a key in common with one accepted earlier; the removal hands over the data of exactly that interval; the lookup gives the data of the accepted interval around the key, unless it was removed, or NULL |
| `IpRanges.CanonicalUnique` | libdank/objects/ipset.c:400-411 | canonical lists that denote the same addresses are the same list |
| `IpRanges.AreaIsCardinality` | libdank/objects/ipset.c:598-607 | the summed range sizes are the number of addresses, at most 2^32 |
| `IpRanges.CompareOrdersSets` | libdank/objects/ipset.c:581-596 | comparison gives 0 exactly for equal sets, and opposite signs when swapped |
| `IpRanges.CompareTransitive` | libdank/objects/ipset.c:581-596 | the order is transitive |
| `IpRanges.CompareDirection` | libdank/objects/ipset.c:581-596 | negative exactly if, at the first difference, the first list has ended or its range has the smaller lower end, or the same one and the smaller upper end |
| `IpSets.IpSet.Add` | libdank/objects/ipset.c:202-260 | the canonical list of the union, in 32-bit arithmetic, up to 0 and 0xffffffff |
| `IpSets.IpSet.Engulf` | libdank/objects/ipset.c:224-259 | a range that is touched grows over the new one and eats every range it then reaches |
| `IpSets.IpSet.Delete` | libdank/objects/ipset.c:283-319 | the canonical list of the difference |
| `IpSets.IpSet.Trim` | libdank/objects/ipset.c:293-317 | each of the four ways a cut meets a range removes exactly the cut addresses |
| `IpSets.IpSet.MergeFrom` | libdank/objects/ipset.c:343-361 | the union of two sets, canonical |
| `IpSets.IpSet.PurgeFrom` | libdank/objects/ipset.c:363-381 | the difference of two sets, canonical |
| `IpSets.IpSet.PostParse` | libdank/objects/ipset.c:450-473 | '!' gives the exact complement; an empty result is refused |
| `IpSets.IpSet.Contains` | libdank/objects/ipset.h:54-67 | the search with its early exit is membership |
| `IpSets.IpSet.RangeClashes` | libdank/objects/ipset.c:383-398 | the three comparisons are non-empty intersection with a range |
| `IpSets.IpSet.Clashes` | libdank/objects/ipset.c:413-424 | non-empty intersection of two sets |
| `IpSets.IpSet.Encloses` | libdank/objects/ipset.c:426-448 | the nested search with its early return is the subset relation |
| `IpSets.IpSet.Equals` | libdank/objects/ipset.c:400-411 | comparing the arrays is equality of the sets |
| `IpSets.IpSet.Cmp` | libdank/objects/ipset.c:581-596 | the loop computes the lexicographic comparison of the lists, and which of the two comes first decides the sign |
| `IpSets.IpSet.SumArea` | libdank/objects/ipset.c:598-607 | the number of addresses |
| `IpSets.Replay` | libdank/objects/ipset.c:202-319 | any additions and deletions in any order: sorted ranges, apart and not adjacent, that hold exactly the addresses which the last edit reaching them has added; membership and area are those of that set |
| `DottedQuads.PtonOfNtop` | libdank/objects/ipset.c:36-50 | a printed dotted quad is read back as its address |
| `IpSetParts.QuadIs` | libdank/objects/ipset.c:36-50 | what is printed for an address is its four bytes, most significant first, in decimal with dots between, and that is read back |
| `IpSetGrammar.RangesRead` | libdank/objects/ipset.c:262-281 | a comma-separated printed list is read back as that list |
| `IpSetGrammar.PrintedReadsBack` | libdank/objects/ipset.c:475-526 | the printed text of a non-empty list is read back as that list, whatever text follows |
| `IpSetGrammar.SetTextIs` | libdank/objects/ipset.c:31-75 | the printed text is in brackets, an item for each range with commas between: one address, or the lower end, a dash and the upper end |
| `IpSetGrammar.ItemsRead` | libdank/objects/ipset.c:262-281 | a list put together from addresses, pairs in either order and open ranges, with whitespace in front of each, is read as one range for each |
| `IpSetGrammar.SetReads` | libdank/objects/ipset.c:475-526 | a text put together from whitespace, perhaps an exclamation mark, perhaps brackets, and "any" in either case or a list is read as its content, inverted exactly after the mark, and ends where its rest begins |
| `IpSetTexts.ParseAddress` | libdank/utils/parse.c:36-63 | whitespace, then 7 to 15 digits and dots that make a dotted quad |
| `IpSetTexts.ParseRange` | libdank/objects/ipset.c:77-145 | the range forms, their order and what may follow them |
| `IpSetTexts.ParseRanges` | libdank/objects/ipset.c:262-281 | the set becomes the canonical union of the ranges listed |
| `IpSetTexts.ParseSet` | libdank/objects/ipset.c:475-531 | the canonical set of the addresses listed, or of all others after '!'; an empty one is refused |
| `IpSetTexts.ParseParts` | libdank/objects/ipset.c:475-531 | for every text put together from its parts, the ranges hold exactly the addresses that the parts cover, and the result is the length of the text before the rest, or -1 exactly if they cover none |
| `IpSetTexts.ParseInverted` | libdank/objects/ipset.c:483-487 | an exclamation mark, with or without whitespace around it, before the printed text of any set gives every other address, -1 exactly if there is none |
| `IpSetTexts.StringizeSet` | libdank/objects/ipset.c:31-75 | the loop prints the bracketed, comma-separated text of the whole list |
| `IpSetTexts.PrintAndParse` | libdank/objects/ipset.c:55-75 | printing any non-empty canonical set and parsing the text gives the same ranges and uses up the text |
| `CtlSteps.StepKeeps` | libdank/modules/ctlserver/ctlserver.c:70-95 | each critical section keeps: a count is the pending entries plus the drones between pop and decrement, and what is referred to is in the table |
| `CtlSteps.RunKeeps` | libdank/modules/ctlserver/ctlserver.c:189-280 | the invariant holds after any interleaving |
| `CtlSteps.SafeInEveryRun` | libdank/modules/ctlserver/ctlserver.c:189-280 | counts are exact, nothing referred to has been unlinked or freed, each accepted command waits, runs or has run exactly once, and none starts twice |
| `CtlSteps.TakesOutUnreferenced` | libdank/modules/ctlserver/ctlserver.c:77-84 | delcommand unlinks the first entry of its name exactly when nothing refers to it |
| `CtlSteps.FreedUnreferenced` | libdank/modules/ctlserver/ctlserver.c:92-92 | what delcommand frees is in no list and referred to by nothing |
| `CtlSteps.ServesAtFirst` | libdank/modules/ctlserver/ctlserver.c:247-280 | in any state that keeps the invariant, a name is accepted exactly if an entry in the table has it, and what waits on top of the list then is for an entry of that name |
| `CtlSteps.RunsWhatWasAsked` | libdank/modules/ctlserver/ctlserver.c:189-280 | in every run, a schedule is accepted exactly if an entry has its name; the command that it adds is, to the end of the run, waiting or running for an entry of that name, or done |
| `CtlServers.CtlServer.Register` | libdank/modules/ctlserver/ctlserver.c:109-123 | a new entry with the name given and no references goes to the head of the table, and nothing else changes |
| `CtlServers.CtlServer.Schedule` | libdank/modules/ctlserver/ctlserver.c:247-280 | the first entry in the table with that name is referred to once more, its command is put on top of the list, and no other entry changes; -1 exactly when there is none, and then nothing changes |
| `CtlServers.CtlServer.Pop` | libdank/modules/ctlserver/ctlserver.c:207-214 | one of three drones takes the top command, which has never been started and whose entry is allocated |
| `CtlServers.CtlServer.Finish` | libdank/modules/ctlserver/ctlserver.c:233-237 | the entry whose command has run is referred to once less, and no other entry changes |
| `CtlServers.CtlServer.DelTry` | libdank/modules/ctlserver/ctlserver.c:76-91 | absent exactly if no entry has the name, busy exactly if the first that has it is referred to, and otherwise that entry leaves the table, and only that one |
| `CtlServers.CtlServer.Reclaim` | libdank/modules/ctlserver/ctlserver.c:92-92 | freeing an entry that was taken out keeps the invariant |
| `ListenerSteps.StepKeeps` | libdank/modules/logging/logging.c:47-70 | every step keeps: head and tail count messages taken and accepted, waiting slots hold the accepted texts, the reader's slot is head - 1 with its text unchanged, and rejections are reported or counted |
| `ListenerSteps.DeliversInOrder` | libdank/modules/logging/logging.c:127-173 | after any interleaving the messages written are the first accepted ones in order; each report says the drops it is for, which are those next after the ones in the report before, and stands 1022 or 1023 messages ahead of their place; until a write fails the messages are all but the one in the reader's hands, and the drops written, held and counted are exactly the rejections |
| `ListenerSteps.GoneOnlyThen` | libdank/modules/logging/logging.c:127-147 | in every run the reader has ended only after a write that failed, or when the message it took last is the empty one |
| `ListenerSteps.ReportCountsAll` | libdank/modules/logging/logging.c:50-58 | a reader that has written a text makes a report exactly if there have been rejections since those in the reports before, and counts exactly these |
| `ListenerSteps.SlotIsTheReaders` | libdank/modules/logging/logging.c:144-168 | no enqueue touches the slot that is written out without the lock; it still holds the text taken or reported |
| `ListenerSteps.RejectsWhenFull` | libdank/modules/logging/logging.c:157-168 | a message is rejected exactly when 1023 are waiting |
| `Listeners.Listener.Enter` | libdank/modules/logging/logging.c:47-70 | block_on_lmsg up to its end or its first wait: drops to report are reported first; otherwise a waiting message is taken into the reader's slot, the result 0 exactly if it is not empty; otherwise the reader waits |
| `Listeners.Listener.Wake` | libdank/modules/logging/logging.c:63-69 | one turn of the wait loop: a waiting message is taken, the result 0 exactly if it is not empty, and otherwise the wait goes on |
| `Listeners.Listener.Write` | libdank/modules/logging/logging.c:137-144 | what goes out without the lock is the text of the message last taken, or the number of drops followed by " messages dropped"; the listener ends exactly if that fails |
| `Listeners.Listener.Enqueue` | libdank/modules/logging/logging.c:149-173 | accepted in order, or, exactly with 1023 messages waiting, counted as dropped; the reader's slot is unchanged |
| `Listeners.Turn` | libdank/modules/logging/logging.c:127-147 | one turn of the reader: what it holds is written, and then a report of all drops comes next, or else the next message, or else a wait |
| `Listeners.WriteAll` | libdank/modules/logging/logging.c:127-173 | any messages sent to a new listener before its reader starts come out as the first message, a report of the number beyond 1023 if there are any, and the other messages up to the 1023rd, in order |
| `CrlfLines.LinesAndRest` | libdank/objects/crlfreader.c:112-174 | the lines of a stream and its rest make up the stream, and the rest has no CR LF |
| `CrlfLines.LineOff` | libdank/objects/crlfreader.c:149-166 | taking off the shortest prefix that ends in CR LF takes off the first line, whatever is still to come |
| `CrlfLines.LinesOfBodies` | libdank/objects/crlfreader.c:149-166 | bodies without CR LF, each with CR LF behind it, and a rest without are taken apart into just these lines and this rest |
| `CrlfReaders.CrlfReader.constructor` | libdank/objects/crlfreader.c:38-54 | a new reader has returned nothing and buffers nothing |
| `CrlfReaders.CrlfReader.GrowBuf` | libdank/objects/crlfreader.c:9-36 | the buffer grows by 8192 below 0x100000, keeping its contents, and not from there on |
| `CrlfReaders.CrlfReader.ReadRetrying` | libdank/objects/crlfreader.c:87-102 | the bytes read are the next ones of the stream, behind those buffered, after any number of EINTR |
| `CrlfReaders.CrlfReader.ReadCrData` | libdank/objects/crlfreader.c:63-110 | bytes read equal bytes returned plus bytes buffered; LONGLINE only with a full buffer at or past the cap |
| `CrlfReaders.CrlfReader.FindLine` | libdank/objects/crlfreader.c:136-156 | one search finds the first line or extends the part known to contain none, also across reads that split CR and LF |
| `CrlfReaders.CrlfReader.TakeLine` | libdank/objects/crlfreader.c:149-171 | the line is returned and taken off; MOREDATA exactly when something is left |
| `CrlfReaders.CrlfReader.ReadCrlfLine` | libdank/objects/crlfreader.c:115-174 | whatever read does, the lines returned are the first lines of the stream; at its end they are all of them; the unreturned bytes decide between a line, LONGLINE and the end unless the socket blocks or fails, and the result is NBLOCK exactly if the last read said EAGAIN and SYSERR exactly if it failed; `iv` is the line or untouched, and after a LONGLINE never the data |
| `CrlfReaders.FirstCall` | libdank/objects/crlfreader.h:50-54 | over a socket that always gives data, the first call returns the first line if it has at most 0x100000 bytes, and is otherwise a LONGLINE exactly for 0x100000 bytes or more, with `iv` empty |
| `CrlfReaders.ReadAll` | libdank/objects/crlfreader.c:115-174 | over a socket that gives any lines of at most 0x100000 bytes and a rest in pieces of any size, calling until the end returns exactly these lines, and then EOF or, with a rest, SHORTLINE |
| `CrlfReaders.ChunkingDoesNotMatter` | libdank/objects/crlfreader.h:24-29 | two readers of the same stream never disagree about a line |
| `Lexers.WouldOverflow` | libdank/objects/lexers.c:8-52 | 1 exactly when augend * base + addend exceeds the width, -1 exactly on misuse |
| `Lexers.SafelyAddOct` | libdank/objects/lexers.c:54-71 | adds the digit exactly when it is octal and the result fits |
| `Lexers.SafelyAddDec` | libdank/objects/lexers.c:73-86 | adds the digit exactly when the result fits |
| `Lexers.SafelyAddHex` | libdank/objects/lexers.c:88-106 | adds the digit, of either case, exactly when the result fits |
| `Lexers.DecRun` | libdank/objects/lexers.c:178-183 | the digit loop accepts a run exactly when its unbounded value is at most 2^bits - 1, and stops behind it |
| `Lexers.LexUint0Helper` | libdank/objects/lexers.c:108-158 | 0, 00 and 0x0 alone, octal and hexadecimal numbers that fit, accumulated from 0; anything else is rejected, the pointer restored, and the value up to the digit that failed left behind |
| `Lexers.LexUint` | libdank/objects/lexers.c:160-196 | the value and end of a number that fits, or failure with the pointer untouched; the result is then changed if and only if the token starts with 0 and a first digit other than 0 that the form and the width allow follows, and to the value up to the digit that failed |
| `Lexers.LeftoverIsNotZero` | libdank/objects/lexers.c:115-143 | whether a rejected token with a leading zero leaves something can be read off its next one or two characters |
| `Lexers.OneIsLeft` | libdank/objects/lexers.c:160-163 | "019" is rejected and leaves 1 |
| `Lexers.LexUintAsHex` | libdank/objects/lexers.c:198-224 | any run of hexadecimal digits whose value fits, or failure with pointer and result untouched |
| `Lexers.LexU` | libdank/objects/lexers.c:226-241 | for every width, the number and its end if it fits, otherwise failure with the caller's pointer and result untouched |
| `Lexers.LexUAsHex` | libdank/objects/lexers.c:243-257 | the same for the hexadecimal form |
| `Lexers.LexesDecimal` | libdank/objects/lexers.c:177-187 | the decimal numeral of n, in any context, is read back as n exactly when n fits |
| `Lexers.LexesHexadecimal` | libdank/objects/lexers.c:108-224 | the hexadecimal numeral of n in small or capital letters, with and without 0x or 0X, is read back as n exactly when n fits |
| `Lexers.LexesOctal` | libdank/objects/lexers.c:108-143 | 0 and the octal numeral of n is read back as n exactly when n fits |
| `Lexers.DecimalIsNumeral` | libdank/objects/lexers.c:177-187 | the decimal numeral is the one in base 10 over the digits "0123456789" |
| `Lexers.NumeralIs` | libdank/objects/lexers.c:54-106 | a numeral over any such digits has the value that it is written for |
| `Ctype.ClassesAre` | libdank/objects/lexers.c:54-106 | the character classes used, as strings of their characters |
| `Lexers.DecimalTokenIsItsNumeral` | libdank/objects/lexers.c:177-187 | a token that starts with 1 to 9 is the decimal numeral of the value read |
| `Numerals.ValueHasDecimal` | libdank/utils/rfc2396.c:431-435 | numerals without leading zeros are what printing their value gives |
| `UriGrammar.PrintsWhatWasRead` | libdank/utils/rfc2396.c:404-453 | stringize_uri prints exactly the consumed characters if and only if no whitespace was skipped and any port began with 1 to 9 |
| `UriGrammar.PortPrintsDifferently` | libdank/utils/rfc2396.c:431-435 | "//u@h:010" is accepted with port 8 and prints otherwise |
| `UriGrammar.SpacePrintsDifferently` | libdank/utils/rfc2396.c:277-277 | " x" is accepted and prints as "x" |
| `UriGrammar.PrintedReadsBack` | libdank/utils/rfc2396.c:257-323 | what is printed for a URI is read back whole as the same URI if and only if its port is not 0, or there is none, or what follows a port of 0 is no ':' and, behind a host without brackets, no host character or escape |
| `UriGrammar.PortLost` | libdank/utils/rfc2396.c:431-435 | "//u@h:0-x" is accepted with host "h" and path "-x", and what is printed for it is not read back as the same URI |
| `UriGrammar.AuthorityRejected` | libdank/utils/rfc2396.c:90-182 | an authority is rejected exactly if it has no host, or a ':' stands behind a host in brackets or after "userinfo@" with no number below 2^16 behind it; a port is read behind such a host only |
| `UriGrammar.ColonInHost` | libdank/utils/rfc2396.c:97-100 | an authority without '@' and brackets is rejected only if empty, and is otherwise all host, ':' and digits included |
| `UriGrammar.UriRejected` | libdank/utils/rfc2396.c:270-323 | a text is rejected exactly if its scheme is not the one wanted, or "//" is followed by no host, or by a delimited host and ':' without a port |
| `UriGrammar.BareColonRejected` | libdank/utils/rfc2396.c:149-158 | "//u@h:/" is rejected |
| `UriGrammar.BareColonRejectedInBrackets` | libdank/utils/rfc2396.c:149-158 | "//[::1]:/" is rejected, where ::1 is a literal |
| `UriGrammar.BareColonSwallowed` | libdank/utils/rfc2396.c:97-100 | "//h:/p" is accepted with host "h:" |
| `UriGrammar.PortSwallowed` | libdank/utils/rfc2396.c:97-100 | "//h:80/p" is accepted with host "h:80" and port 0 |
| `UriBuilt.CharactersAre` | libdank/utils/rfc2396.c:13-36 | the unreserved, reserved and unwise characters, as strings |
| `UriBuilt.SpelledRun` | libdank/utils/rfc2396.c:57-85 | a string of characters of a component and escapes is a whole run of it if a character that is neither in the component nor a percent sign follows: that character ends it |
| `UriBuilt.RunIsSpelled` | libdank/utils/rfc2396.c:57-85 | every run is made of characters of the component, %XX and %uXXXX, and neither follows it |
| `UriBuilt.LiteralIs` | libdank/utils/rfc2396.c:124-146 | what is read behind a bracket is exactly a literal of 1 to 45 hexadecimal digits, dots and colons that inet_pton accepts, with its bracket |
| `UriBuilt.SiteBuilt` | libdank/utils/rfc2396.c:90-167 | userinfo, host and port below 2^16, put together with at sign and colon, are read as just these |
| `UriBuilt.TailBuilt` | libdank/utils/rfc2396.c:184-225 | path, query and fragment, put together with question mark and number sign, are read as just these |
| `UriBuilt.FollowsIs` | libdank/utils/rfc2396.c:285-288 | the wanted scheme is matched up to the case of letters and no further |
| `UriBuilt.WholeBuilt` | libdank/utils/rfc2396.c:270-323 | every URI put together from its parts, in any of the three forms and in any context, is read as those parts and up to its rest, unless another scheme is wanted |
| `UriBuilt.PartsPrint` | libdank/utils/rfc2396.c:404-453 | the parts of a URI print as the text that they were put together to, without whitespace in front; port 0 is not printed |
| `Uris.PassPart` | libdank/utils/rfc2396.c:97-100 | the loops take the longest run of characters and escape sequences: what is passed is spelled with them, and neither a character of the component nor an escape follows |
| `Uris.PassLiteral` | libdank/utils/rfc2396.c:124-146 | exactly a bracketed literal of 1 to 45 hexadecimal digits, dots and colons that inet_pton accepts is passed |
| `Uris.PassUserAndHost` | libdank/utils/rfc2396.c:95-147 | userinfo exactly if '@' follows the first run; without it ':' belongs to the host |
| `Uris.ParseAuthority` | libdank/utils/rfc2396.c:90-182 | sets userinfo, host and port of the authority read, or clears them on failure |
| `Uris.ParsePath` | libdank/utils/rfc2396.c:184-239 | path, query and fragment, each absent or set |
| `Uris.ParseOpaque` | libdank/utils/rfc2396.c:255-268 | everything up to whitespace |
| `Uris.ParseScheme` | libdank/utils/rfc2396.c:279-299 | the scheme if ':' follows it, compared with the wanted one; otherwise its characters are read again |
| `Uris.ExtractInternal` | libdank/utils/rfc2396.c:270-323 | with or without a struct the same texts are accepted and reading stops at the same place; on failure the pointer stays and the struct is empty |
| `Uris.ParseUri` | libdank/utils/rfc2396.c:325-328 | accepts exactly what extract_uri accepts and stops at the same place |
| `Uris.ExtractUri` | libdank/utils/rfc2396.c:335-344 | NULL exactly for a rejected text; otherwise the parts read, which print as the text consumed exactly under the condition above |
| `Uris.ExtractParts` | libdank/utils/rfc2396.c:270-344 | a URI put together from scheme, userinfo, host, port, path, query and fragment whose characters come from the strings of each component, or from scheme and opaque part, is extracted with exactly these fields and the pointer behind it; NULL exactly if its scheme does not go on as the wanted one |
| `Uris.StringizeUri` | libdank/utils/rfc2396.c:404-453 | appends the printed form to what the string held, a port modulo 2^16 |

## Left out

- `portset.c`, a 16-bit near-copy of the range sets.
- Allocation failure: every allocation succeeds, but for those of a slab's new block and the vector of balancing, where refusal is a parameter.
- Growth, sharing and swapping of the range array of an ipset (`extend_ipset`, `clone_ipset`, `swap_ipsets`): the ranges are one growable sequence.
- The meaning of the range forms `-x` and `x/n`: a parameter of the parsing functions.
- Widths other than 64 bits for usemap words, and the 32-bit widths of `unallocated`, of reference counts and of `dropped`: these are naturals, which do not wrap around.
- Mapping and unmapping of pages beyond the address where a block is put; destroying a slab allocator.
- Slabs.Slalloc.New: takes the address of a new mapping as a parameter and requires it to be apart from earlier blocks, as mmap guarantees.
- Slabs.Slalloc.Free: requires a live object; what the source does with other pointers is not modelled.
- `lookup_lrupat_blob`, which stops at the first node that holds a key, and `stringize_lrupat`.
- `intervals_distinct` in `intervaltree.c`, which nothing modelled here calls.
- The depth function of the interval tree is modelled as a value-level function only.
- CtlServers.CtlServer.Register: takes the address of the new entry as a parameter and requires it to be unused, as malloc guarantees.
- Shutdown and cancellation of drones, and the waiting between two tries of delcommand.
- CtlServers.CtlServer.DelTry: is one turn of the loop; that the loop ends is a matter of fairness.
- Running the commands themselves, sockets and descriptors.
- Contended log messages (`pthread_mutex_trylock` fails): they are lost without being counted and change nothing.
- Delivery of the end-of-log message to a full ring.
- Listeners.Listener.Write: is one step, after which the text is out or the listener ends; partial writes are not modelled.
- CrlfReaders.CrlfReader.ReadCrlfLine: reads from a stream and a script of read results; what a socket does after an error is up to the script.
- Lexers.LexUint: takes its accumulator at 0, as the functions in the header pass it; `lex_sint` passes an uninitialised one.
- Signed integers (`lex_sint`), `find_coprime`, `pop_count32`, `nlz32`.
- `extract_connect_uri` and the setters of `rfc2396.c`.
- Ctype in locales other than C.
- Line parsers, MAC addresses, time values, memory limits, the event core and file logging.
