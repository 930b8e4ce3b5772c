# Verified models of the ircd core

This project models the parts of an IRC server (`ircd/`) that keep real state or do real work on
text and numbers, and proves what they are for. Each part is written in the form the server's own
code has: loops with the same steps over arrays and linked lists, classes whose methods change
their fields, and plain functions where the code is plain recursion. `dafny verify dfyconfig.toml`
checks everything. `Basics` holds what several parts share.

| part | files |
|---|---|
| wildcard masks (`ircd/match.c`) | `CString`, `Mask`, `Greedy`, `Match`, `NormalForm`, `Collapse`, `CompiledMask`, `MatchComp`, `MatchExec`, `MatchDecomp`, `Cover`, `MMatch` |
| boundary-tag allocator (`ircd/persistent_malloc.c`) | `Sizes`, `Chunks`, `Tags`, `FreeLists`, `Bins`, `HeapSteps`, `BestFit`, `ListSteps`, `Malloc` (module `Allocator`), `HeapFacts` |
| segmented byte queue (`ircd/dbuf.c`) | `Framing`, `Segments`, `Dbuf` |
| DNS cache (`ircd/res.c`) | `Buckets`, `DnsCache` |
| numeric nicks and base 64 (`ircd/numnicks.c`) | `Base64`, `AddressCodec`, `Numerics` |
| connect rules (`ircd/crule.c`) | `ConnectRule`, `RuleParser`, `RuleLanguage` |
| command tree (`ircd/parse.c`) | `CommandTree` |
| registry of networks (`ircd/IPcheck.c`) | `IpRegistry` |
| name hash (`ircd/hash.c`) | `NameHash`, with `Buckets` |
| WATCH lists (`ircd/m_watch.c`) | `Watch` |

**Masks.** The meaning of a mask is one recursive predicate, `Mask.Matches`, over its elements. The
greedy matcher, the compiler with its in-place reversal and rotation, the executor, the decompiler
and the normaliser are loops over arrays, each proved against that one predicate, so they agree
with each other on every mask and string, but for the one case of `match` named below.

**Allocator.** The class `Allocator.Malloc` has the memory words (`size`, `prev_size`, `fd`, `bk`), the
fastbin heads, the binmap and top as its fields. Ghost fields hold the heap as a map from address to
chunk and the bins as sequences; `Valid` ties the two together and is what every public operation
keeps: chunks tile the arena, no two free chunks touch, tags and footers agree, the bins hold exactly
the free chunks at their own index and sorted, a clear bit of the map means an empty bin.

**Byte queue.** Many buffers share one pool of 2048-byte segments linked by pointers; each buffer is
proved to be a byte sequence, and the lines taken from it to be a function of the byte stream.

**The rest.** Caches and tables are pointer chains (`Buckets`) under an invariant that says what they
hold, so that a lookup succeeds exactly when a search of everything would. Parsers and codecs are
proved against grammars and inverses.

Where the code departs from its own documentation the code is followed, and a condition under which it
does what it says is proved, the exact one except for `mmatch`, where masks outside the condition may
still be compared rightly:

- `iptobase64` does not forget a run of zero words that was not the longest
  (ircd/numnicks.c:511-519), so an address survives encoding exactly when its runs are not `Muddled`
  (`AddressCodec.IPv6RoundTrip`); two runs are always safe, three may not be.
- `match` can begin a search at the end of the string (ircd/match.c:217) and then reads on behind it. The
  string does not match in that case, and for some bytes behind it the answer is wrong, for none
  otherwise (`Greedy.WrongSomewhere`; `Greedy.ReadsOn` is an input).
- `mmatch` accepts only what is covered, but not all that is covered (`MMatch.MMatchMissesSome`), and
  whether it accepts early depends on how the old mask is written (`MMatch.MMatchReadsTheText`,
  `MMatch.EarlyExitIs`). If the
  new mask has no star or the old one no question mark, and there is a letter the old mask does not
  spell, its answer is exact (`MMatch.MMatchIsExact`).
- `crule_parse` accepts a missing operand although its grammar does not
  (`ConnectRule.MissingOperandAccepted`): every operand of a chain but the last may be absent, and that
  with loose argument lists is all it accepts besides the grammar (`RuleLanguage.AcceptedIff`). The tree
  can be evaluated exactly if none is absent.
- The throttle is documented by the intervals between connects. The last client to leave sets the time
  too, so they do not decide (`IpRegistry.VisitsThrottled`); what does is `IpRegistry.ThrottledIff`.
- The clean-up of the registry takes an entry for unused when its 16-bit count has gone round to 0.
  It keeps an entry for everybody exactly if no entry like that has expired (`IpRegistry.BucketClean`).
- `hash_name` looks at case although the comparison of names does not, so another spelling of a
  cached name may be missed (`DnsCache.OtherSpellingMissed`). The comment of `update_list` says the
  expiry time of an old entry is updated; the code leaves it alone, and so does the model.
  `DnsCache.FoundByName` is the condition under which a name is found.

Three more reads outside a string or an address are left out; none of them can affect a result:
`matchexec` and `mmatch` look before the first character (ircd/match.c:590, ircd/match.c:77), and
`iptobase64` looks at a ninth word (ircd/numnicks.c:506).

## Model

| member | source | states |
|---|---|---|
| Match.Match | ircd/match.c:172-251 | for every mask, string and memory behind it, 0 exactly when the greedy search answers so; that is when the string has the meaning of the mask, unless a search began at the end of the string, and then it has not; with another NUL behind the string it is always right |
| Match.MatchChunk | ircd/match.c:220-250 | the try of a chunk on text ends as it does on elements: matched, failed for good, failed here, or at the next star |
| Greedy.BeginMeans | ircd/match.c:172-251 | the greedy search finds the string to match exactly when it has the meaning of the mask: going back to the last star only loses nothing |
| Greedy.SearchMeans | ircd/match.c:195-250 | from a star on, it finds exactly what matches somewhere |
| Greedy.WrongSomewhere | ircd/match.c:216-220 | there is memory behind the string that makes the answer wrong if and only if the search begins at the end of the string |
| Greedy.ReadsOn | ircd/match.c:216-220 | the mask `*ab` and the string `a`, followed by `ab`: the answer is 0 and the string does not match |
| Mask.GreedyCommit | ircd/match.c:222-249 | once a chunk between two stars is placed at its first fit, later places for it can be forgotten |
| Mask.ChunkSuffix | ircd/match.c:589-597 | a starless end of a mask matches exactly the end of the string of that length |
| Collapse.Collapse | ircd/match.c:345-386 | in place and never writing ahead of its reading, leaves the collapsed text of the mask that was there |
| Collapse.CollapsedMeaning | ircd/match.c:345-386 | the collapsed mask matches the same strings, and its elements are the normal form |
| Collapse.CollapsedFixedPoints | ircd/match.c:345-386 | no star is left before a star or a question mark, and only masks without one stay as they are |
| Collapse.CollapsedIdempotent | ircd/match.c:345-386 | collapsing twice changes nothing more |
| NormalForm.NormSameMeaning | ircd/match.c:345-386 | moving stars behind question marks and merging them keeps the set of matched strings |
| NormalForm.RenderTokens | ircd/match.c:345-386 | every text is the rendering of its elements, so rewriting elements rewrites the text |
| MatchComp.MatchComp | ircd/match.c:468-552 | writes the compiled mask, a terminated string no longer than the text, and the least length of a match |
| MatchComp.BringTailForward | ircd/match.c:521-546 | reversing the tail and swapping blocks leaves head, star, reversed tail, then the chunks |
| MatchComp.Rotate | ircd/match.c:529-545 | the loop that swaps blocks ends with the two stretches exchanged and the rest untouched |
| MatchComp.ReverseRange | ircd/match.c:523-528 | the range is turned round and everything else stays |
| CompiledMask.Layout | ircd/match.c:521-546 | the compiled text of a mask with a star is its starless head, the star, the starless tail reversed, and the chunks between |
| MatchExec.MatchExec | ircd/match.c:564-629 | on what the compiler made of a mask, 0 exactly when the string matches the mask |
| MatchExec.ChunkTurn | ircd/match.c:602-626 | one chunk of the compiled mask: the answer is kept, and the spare length never goes negative, so no chunk runs into the tail |
| MatchExec.TryTail | ircd/match.c:589-597 | comparing backwards along the reversed tail decides whether the end of the string fits it |
| MatchDecomp.MatchDecomp | ircd/match.c:644-698 | prints the decompiled mask into the buffer, terminated and within its bounds |
| MatchDecomp.DecompiledMeaning | ircd/match.c:644-698 | the decompiled mask matches the same strings as the mask that was compiled |
| MatchDecomp.RecompileRoundTrip | ircd/match.c:468-698 | compiling the decompiled mask gives the same compiled mask again |
| MMatch.MMatch | ircd/match.c:53-152 | 0 exactly when the old mask covers the new one element by element, or as early as its star and question marks allow |
| MMatch.MMatchIsSound | ircd/match.c:53-152 | whatever it accepts is a cover: every string of the new mask is one of the old mask |
| MMatch.MMatchMissesSome | ircd/match.c:53-152 | where a star can meet a question mark the converse fails: a mask that covers another and is refused |
| MMatch.MMatchIsExact | ircd/match.c:53-152 | if no star of the new mask can meet a question mark of the old one, and some letter is strange to the old mask, it accepts if and only if every string of the new mask is one of the old mask |
| MMatch.MMatchReadsTheText | ircd/match.c:73-80 | two old masks of one meaning, of which only one is accepted early |
| MMatch.EarlyExitIs | ircd/match.c:73-80 | the backward look over the text succeeds if and only if the elements end in a star that is not the first, and question marks |
| MMatch.QuestionMarksPlaced | ircd/match.c:73-80 | such an old mask is accepted if and only if the question marks fit on starless elements of the new mask, right behind some that the rest covers, whatever follows |
| MMatch.LettersForMarks | ircd/match.c:73-80 | a letter, a star and k question marks accept that letter, k letters and any tail, for every k |
| Cover.EarlyMeans | ircd/match.c:73-80 | the covering relation with the early exit, said without it |
| Cover.CoversIsSound | ircd/match.c:53-152 | the covering relation of the comparison implies inclusion of the matched strings |
| Sizes.BinIndexMonotone | ircd/persistent_malloc.c:2166-2180 | larger chunks never have a lower bin |
| Sizes.SmallBinHoldsOneSize | ircd/persistent_malloc.c:2163-2180 | two aligned sizes in one small bin are equal |
| Sizes.Request2Size | ircd/persistent_malloc.c:1975-1993 | the padded request is aligned, holds the request and wastes less than one alignment step |
| Sizes.OutOfRangeIs | ircd/persistent_malloc.c:1975-1993 | refused are exactly the requests within 64 bytes of the end of the numbers, and no other padded request wraps |
| Chunks.FuseTiled | ircd/persistent_malloc.c:3817-3837 | merging a chunk with the next leaves a tiling, and what follows is what followed before |
| Chunks.SplitTiled | ircd/persistent_malloc.c:3593-3604 | cutting a chunk leaves a tiling, and the rest was no chunk before |
| HeapSteps.AbsorbBackward | ircd/persistent_malloc.c:3817-3824 | the footer in front leads to the free neighbour, and merging with it keeps tiling and tags |
| HeapSteps.MergeIntoTop | ircd/persistent_malloc.c:3858-3869 | a chunk that borders top becomes the new top without losing a byte |
| HeapSteps.TakePart | ircd/persistent_malloc.c:3593-3604 | splitting a free chunk keeps every invariant and makes exactly one live chunk more |
| Allocator.Malloc.constructor | ircd/persistent_malloc.c:2847-2885 | after `persistent_init` the invariant holds with no chunk and nothing in use |
| Allocator.Malloc.PersistentSbrk | ircd/persistent_malloc.c:2830-2845 | the old end of the memory in use, and the end moved by the length |
| Allocator.Malloc.InitState | ircd/persistent_malloc.c:2409-2437 | from zeroes to empty circular bins and the invariant |
| Allocator.Malloc.Allocate | ircd/persistent_malloc.c:3358-3753 | fails exactly when padding the request could wrap; a block is a chunk of nb to nb+MINSIZE bytes, new, with all other live chunks as they were; first comes a chunk of its exact size, the newest parked one or the oldest in its small bin, then for a small request the oldest unsorted one of that size, then the last remainder if it is the newest unsorted chunk and long enough; else it is the smallest that fits in the heap as it was, or once consolidated for a large request or in a second round, or top if none fits; what is left of a cut chunk is the only unsorted one, and after a small request the last remainder; the memory in use grows by as few whole pages as will do, and it stops only when the arena is too short for them; a second round only if nothing fits in the first and top is too short |
| Allocator.Malloc.Search | ircd/persistent_malloc.c:3474-3752 | the outer loop: at most two rounds, the second without parked chunks; an exact unsorted chunk or the last remainder is served as above |
| Allocator.Malloc.TakeExact | ircd/persistent_malloc.c:3396-3441 | a small request is served here exactly when a parked or binned chunk has just its size: the newest parked, else the oldest in the bin |
| Allocator.Malloc.Attempt | ircd/persistent_malloc.c:3474-3752 | one round of the outer loop serves the request, the oldest exact unsorted chunk or the last remainder first, or has emptied the fastbins and leaves a small request with an empty bin; the last remainder moves just when a small request cuts a chunk |
| Allocator.Malloc.TakeBest | ircd/persistent_malloc.c:3563-3701 | from the bins, the smallest chunk that fits and the last of its bin to do so, or none fits and nothing changes; the rest becomes the last remainder only for a small request |
| Allocator.Malloc.Sweep | ircd/persistent_malloc.c:3477-3561 | the unsorted list is worked off into the bins without losing a chunk, unless one of them is served: the last remainder exactly if the request is small, it is the newest there, longer than nb+MINSIZE, and none has just the size; otherwise the oldest that has |
| Allocator.Malloc.PlaceInItsBin | ircd/persistent_malloc.c:3523-3560 | a chunk goes to the bin of its size, a small one to the front, a large one before all that are no larger or, if none is smaller, to the end; no other bin changes |
| Allocator.Malloc.ScanLargeBin | ircd/persistent_malloc.c:3570-3581 | the first large enough from the back of its own bin is the smallest free chunk that fits, or the whole bin is too small |
| Allocator.Malloc.SearchBins | ircd/persistent_malloc.c:3619-3666 | by the map of bins either the smallest chunk that fits is found or none fits |
| Allocator.Malloc.TakeSmall | ircd/persistent_malloc.c:3413-3441 | the oldest chunk of an exact small bin, its last, is served, and no free chunk fits better |
| Allocator.Malloc.PopFast | ircd/persistent_malloc.c:3402-3411 | the chunk parked last, of exactly that size, is served |
| Allocator.Malloc.UseTop | ircd/persistent_malloc.c:3703-3752 | the low end of top is served, the memory in use growing by as few whole pages as will do and only if top is too short; or the fastbins are emptied for another round, again only if it is, or the arena is used up |
| Allocator.Malloc.SysMalloc | ircd/persistent_malloc.c:2894-3275 | the arena grows by the least number of whole pages that leaves a top, just when it can, and the block then is the low end of the old top |
| Allocator.Malloc.Deallocate | ircd/persistent_malloc.c:3759-3918 | exactly that block stops being live; a small chunk is parked at the front of its list and nothing else changes; a large one becomes part of a free chunk that covers it, the newest unsorted one, or of top; from 64K on the fastbins are emptied and a long top is trimmed |
| Allocator.Malloc.Release | ircd/persistent_malloc.c:3814-3869 | merging with free neighbours on both sides keeps the invariant, and the result is a free chunk or top that covers the block |
| Allocator.Malloc.Consolidate | ircd/persistent_malloc.c:3934-4041 | no chunk stays parked, no live chunk changes; on the zeroed state it initialises |
| Allocator.Malloc.SysTrim | ircd/persistent_malloc.c:3292-3352 | whole pages go back and top keeps at least its least size and at most a page more |
| HeapFacts.BlocksApart | ircd/persistent_malloc.c:2583-2680 | no byte of one live block is a byte of another, and all are inside the arena |
| HeapFacts.ServedBlock | ircd/persistent_malloc.c:3358-3753 | every byte a caller asked for is his alone, aligned, and all earlier blocks are where they were |
| HeapFacts.GapsForced | ircd/persistent_malloc.c:3934-4041 | without parked chunks the live chunks determine all free chunks and top: consolidation has one possible result |
| HeapFacts.NothingLost | ircd/persistent_malloc.c:2685-2799 | chunk sizes and top sum to the memory obtained |
| HeapFacts.CallersMayWrite | ircd/persistent_malloc.c:2482-2680 | whatever a caller writes into his own block, the invariant stays |
| BestFit.LastOfFirst | ircd/persistent_malloc.c:3619-3666 | the last chunk of the first non-empty higher bin is the smallest that fits |
| BestFit.LastThatFits | ircd/persistent_malloc.c:3570-3581 | in a sorted bin the first that fits from the back is the smallest that fits |
| Segments.NewTail | ircd/dbuf.c:217-288 | hooking a free segment behind the tail appends its bytes to one buffer and touches no other |
| Segments.DropHead | ircd/dbuf.c:448-479 | giving the first segment back takes its bytes from the front of one buffer and touches no other |
| Segments.CountsAddUp | ircd/dbuf.c:70-99 | the used count is the number of segments in buffers, and with the free list they are all that were ever allocated |
| Dbuf.BufferPool.Put | ircd/dbuf.c:217-288 | succeeds exactly when the pool has the segments that are needed; then the bytes are appended, otherwise the buffer is empty; no other buffer changes |
| Dbuf.BufferPool.Delete | ircd/dbuf.c:448-479 | that many bytes, or all, go from the front of one buffer |
| Dbuf.BufferPool.Get | ircd/dbuf.c:497-519 | what is returned and what stays make up the old content, as much as was asked for or all |
| Dbuf.BufferPool.Map | ircd/dbuf.c:426-440 | a prefix of the content, empty only when all is |
| Dbuf.BufferPool.Flush | ircd/dbuf.c:521-548 | just the `\r` and `\n` at the front are dropped, and what is left does not begin with one; the length that is left is returned |
| Dbuf.BufferPool.GetMsg | ircd/dbuf.c:557-605 | the line up to the first `\r` or `\n` within the limit is returned and it, and just such characters before and behind it, are gone; without one the content loses no more than those in front |
| Dbuf.BufferPool.MallocError | ircd/dbuf.c:107-120 | every segment of the buffer goes back to the pool |
| Dbuf.BufferPool.Extend | ircd/dbuf.c:70-88 | a segment comes from the free list or, while the pool allows, from the system, and fails only when neither has one |
| Framing.LinesSplit | ircd/dbuf.c:521-605 | taking lines now and then more after later bytes gives the lines of all the bytes |
| Framing.DeliverIs | ircd/dbuf.c:557-605 | a delivery in `\r` and `\n` themselves: only these are dropped, none is in the line or in front of the rest, and there is a line just if one of them stands within the limit |
| Framing.CutsDoNotMatter | ircd/dbuf.c:521-605 | the lines delivered depend on the byte stream only, not on how it was cut into arrivals |
| DnsCache.Cache.AddToCache | ircd/res.c:1231-1270 | the entry is first in the order of use and in both tables; over the limit only the least recently used leaves |
| DnsCache.Cache.RemCache | ircd/res.c:1504-1572 | the entry leaves the list and both tables, nothing else does |
| DnsCache.Cache.UpdateList | ircd/res.c:1279-1352 | the entry comes to the front and learns the missing names and addresses |
| DnsCache.Cache.FindCacheName | ircd/res.c:1354-1400 | for a name spelled as it is stored, an entry is found exactly when a search of the whole cache finds one of that name, and comes to the front; for any spelling, exactly when one answers by alias or by name with equal hash; of several, the first of the bucket of the name, else the one used last |
| DnsCache.Cache.FindCacheNumber | ircd/res.c:1405-1455 | the same for an address, through the table of first addresses and then the whole list; of several, the first of the bucket, else the one used last |
| DnsCache.Cache.MakeCache | ircd/res.c:1457-1496 | the first address that is known at all decides which entry is updated; if none is, there is a new one with at least the least time to live |
| DnsCache.Cache.Expire | ircd/res.c:1575-1598 | exactly the entries whose time has come leave, and the rest keep their order |
| DnsCache.OtherSpellingMissed | ircd/res.c:1218-1226 | and may be missed under the same name in other case |
| DnsCache.HashIsSum | ircd/res.c:1218-1226 | the hash is the sum of the signed characters before the first dot, in nine bits |
| DnsCache.MergedKnows | ircd/res.c:1310-1352 | after a merge the host has all old and all new names and addresses and no others, the old ones first |
| Buckets.Unlink | ircd/res.c:1522-1548 | walking with the pointer that leads to a node takes it out of its list, and a list without it stays |
| Buckets.IndexRemove | ircd/res.c:1533-1570 | the node leaves its bucket and every other node stays in its own |
| Base64.ValueOfDigits | ircd/numnicks.c:128-148 | reading what was written gives the number modulo the power of the digits |
| Base64.TablesAre | ircd/numnicks.c:98-126 | both tables are the 64 characters in their order, and other characters read as zero |
| Base64.DigitsOfValue | ircd/numnicks.c:128-148 | writing what was read gives the same text |
| Base64.IntToBase64 | ircd/numnicks.c:139-148 | the digits are in the buffer, terminated, and the rest of it is untouched |
| Base64.Base64ToInt | ircd/numnicks.c:128-137 | the value of the digits, modulo 32 bits |
| AddressCodec.IpToBase64 | ircd/numnicks.c:489-539 | the buffer holds the encoded address, within 25 characters |
| AddressCodec.Base64ToIp | ircd/numnicks.c:545-572 | the words are those the text stands for |
| AddressCodec.FindRun | ircd/numnicks.c:510-524 | the run the code settles on, with the counter it does not reset |
| AddressCodec.ChosenIsZero | ircd/numnicks.c:510-524 | that run is a run of zeros exactly when the lengths of the runs are not muddled |
| AddressCodec.LongestChosen | ircd/numnicks.c:510-524 | no run of zero words is longer than what is left out |
| AddressCodec.IPv6Example | ircd/numnicks.c:489-539 | a documentation address with its gap, digit by digit |
| AddressCodec.IPv4Example | ircd/numnicks.c:489-539 | the loopback address in six digits |
| AddressCodec.IPv6RoundTrip | ircd/numnicks.c:489-572 | a decoded encoding is the address again if and only if its runs of zeros are not muddled |
| AddressCodec.TwoRunsSurvive | ircd/numnicks.c:489-572 | with at most two runs of zero words it always is |
| AddressCodec.ThreeRunsMayNot | ircd/numnicks.c:514-518 | an address with three runs that does not come back |
| AddressCodec.IPv4RoundTrip | ircd/numnicks.c:489-572 | an IPv4 address comes back as IPv4-mapped, and the all-zero one as zero |
| AddressCodec.WithoutIPv6 | ircd/numnicks.c:495-499 | for a peer without IPv6 a 6to4 address becomes its IPv4 address and any other becomes zero |
| Numerics.RoundCapacity | ircd/numnicks.c:270-297 | the least power of two from 16 on that holds the capacity |
| Numerics.Network.SetYXXCapacity | ircd/numnicks.c:270-311 | at the start or later, the server has that many free slots and announces them in its capacity text |
| Numerics.Network.NextFree | ircd/numnicks.c:407-416 | the circular search succeeds exactly when some slot is free, and stops at the first that is |
| Numerics.Network.SetLocalNumNick | ircd/numnicks.c:383-430 | succeeds exactly when a slot is free, also after a change of the range of numerics, writes the first free slot from the counter on and no other, and the full numeric then finds the client |
| Numerics.Network.FindNUser | ircd/numnicks.c:182-205 | the client in the slot that server and client digits name, or none; of a single character the digits behind it in memory count |
| Numerics.Network.RemoveYXXClient | ircd/numnicks.c:211-221 | empties the slot the digits name and no other |
| Numerics.SameNumeric | ircd/numnicks.c:383-430 | between two issues of one numeric the counter went round whole turns of the client range |
| Numerics.PassesEverySlot | ircd/numnicks.c:407-416 | as many steps as there are slots visit every slot |
| ConnectRule.SentencesParse | ircd/crule.c:371-690 | every sentence of the grammar parses, and the tree means what the grammar says: not over and over or |
| ConnectRule.TreeOrMeans | ircd/crule.c:264-297 | evaluating the left-leaning tree of an or-chain is the or of its parts |
| ConnectRule.PrintedTreeParses | ircd/crule.c:728-767 | parsing the printed tree of a sentence gives the same tree |
| ConnectRule.LexPrint | ircd/crule.c:299-369 | the tokens of a printed tree are those of a sentence of the grammar |
| ConnectRule.WordsAre | ircd/crule.c:345-369 | which characters begin a word and which it may hold |
| ConnectRule.TableIs | ircd/crule.c:160-169 | the four functions, found by name without regard to case, and how many arguments each takes |
| ConnectRule.MissingOperandAccepted | ircd/crule.c:481-535 | text without a left operand is accepted |
| RuleLanguage.AcceptedIff | ircd/crule.c:392-690 | a list of tokens is accepted if and only if it is a rule, operands but the last of a chain possibly absent, and then the end |
| RuleLanguage.RuleParses | ircd/crule.c:392-690 | such a rule gives its tree, with null pointers for absent operands, and can be evaluated if and only if there are none |
| RuleLanguage.SentenceIsRule | ircd/crule.c:371-391 | the sentences of the grammar are rules without absent operands |
| RuleParser.Reader.ParseRule | ircd/crule.c:392-423 | the parser with its moving pointer and token returns the tree of the text, or none |
| RuleParser.Reader.ParseOrExpr | ircd/crule.c:425-479 | consumes exactly an or-expression and leaves the next token ready |
| RuleParser.Reader.ParseAndExpr | ircd/crule.c:481-535 | the same for an and-expression |
| RuleParser.Reader.ParsePrim | ircd/crule.c:537-592 | the same for a primary, any number of negations included |
| RuleParser.Reader.ParseCall | ircd/crule.c:594-637 | the same for a call of a known function with the right number of arguments |
| RuleParser.Reader.ParseArgList | ircd/crule.c:639-690 | the collapsed arguments between the parentheses |
| RuleParser.Reader.GetToken | ircd/crule.c:299-353 | the next token of the text, or an error exactly where the text has none |
| CommandTree.BuildTree | ircd/parse.c:289-310 | construction ends and the tree stands for the whole sorted table |
| CommandTree.BuildNode | ircd/parse.c:219-272 | a node stands for exactly the names with its prefix, and the table pointer moves past them |
| CommandTree.Find | ircd/parse.c:338-353 | a command is found exactly when some name of the table equals it without regard to case |
| CommandTree.OneName | ircd/parse.c:338-353 | and then it is the only one, whatever other characters the names have |
| IpRegistry.Registry.LocalConnect | ircd/IPcheck.c:312-389 | one client more for exactly the neighbours of the address; too many exactly when the 16 bits go round, throttled above four attempts, and the client inherits the free targets; a new entry has one attempt and ten targets |
| IpRegistry.Registry.RemoteConnect | ircd/IPcheck.c:402-440 | one client more for exactly the neighbours of the address, in its entry or in a new one, and fails only when the 16 bits go round |
| IpRegistry.Registry.Disconnect | ircd/IPcheck.c:502-555 | one client less for exactly the neighbours; a local client leaves its targets and the lesser of the aged free targets and its own account, in 32 bits; of the other entries of the bucket exactly the expired ones leave, as long as none of those has clients |
| IpRegistry.KeysOfNeighbours | ircd/IPcheck.c:91-172 | two addresses share an entry if and only if they are neighbours: IPv4 by all 32 bits, others by four words, 6to4 by three words and 13 bits, and IPv4 with its own 6to4 network |
| IpRegistry.TargetsStep | ircd/IPcheck.c:269-284 | what any event makes of the free targets: one more for each full 128 seconds up to ten, and at a local departure no more than the client's account |
| IpRegistry.SpenderPays | ircd/IPcheck.c:531-553 | the successor of a client that left no target gets as many as there were full 128 seconds in between, none before that |
| IpRegistry.Registry.Nr | ircd/IPcheck.c:562-571 | connects minus disconnects of the neighbours of the address, modulo 16 bits |
| IpRegistry.FindWithExpire | ircd/IPcheck.c:174-264 | despite moving last entries forward, just the survivors are left, each once, and the sought entry is returned |
| IpRegistry.BucketClean | ircd/IPcheck.c:174-264 | everybody connected keeps an entry if and only if no expired entry has clients |
| IpRegistry.FewEnough | ircd/IPcheck.c:174-264 | which holds while fewer than 65536 clients share a key |
| IpRegistry.SurvivorIs | ircd/IPcheck.c:187-247 | what survives is the sought entry as it was or an unexpired one |
| IpRegistry.OriginIs | ircd/IPcheck.c:187-247 | entries in use and the sought one stay as they are, others for 600 seconds, with their targets for 120 |
| IpRegistry.Survives | ircd/IPcheck.c:187-247 | and all of those survive |
| IpRegistry.ThrottledIff | ircd/IPcheck.c:298-302 | in any such run, a connect is one too many exactly when more than four connects counted from some event on without a break behind it |
| IpRegistry.ConnectsOnly | ircd/IPcheck.c:298-302 | with local connects alone that is when the last four intervals were all of 20 seconds or less |
| IpRegistry.VisitsThrottled | ircd/IPcheck.c:509-516 | a client that comes every 38 seconds and stays for 19 is throttled from the fifth visit on |
| IpRegistry.AttemptsAre | ircd/IPcheck.c:312-555 | after any run of local and remote connects and disconnects, the four bits hold the connects that counted since the last break, up to 15, and the entry the number of clients and the last stamp |
| IpRegistry.IpMaskCheck | ircd/match.c:1106-1119 | compares exactly the first bits of two addresses |
| IpRegistry.PrefixIs | ircd/IPcheck.c:159-172 | sharing an entry is having the same /48 or /64 prefix |
| NameHash.Maps.constructor | ircd/hash.c:185-222 | the tables hold every character's caseless weight and every product modulo the size |
| NameHash.Maps.StrHash | ircd/hash.c:234-240 | with table lookups in range, the name as a number with base 257 and a final zero digit, modulo the size |
| NameHash.Horner | ircd/hash.c:45-57 | one more character multiplies the positional number by 257 |
| NameHash.CaseDoesNotMatter | ircd/hash.c:177-182 | names that differ in case only have the same hash |
| CString.FoldingIs | ircd/common.c:101-156 | the folding letter by letter: 30 ASCII and 29 Latin-1 capitals go to their small letters, every other character stays |
| NameHash.NameTable.Add | ircd/hash.c:281-289 | the record is in the table, first in the bucket of its name, besides everyone else |
| NameHash.NameTable.Remove | ircd/hash.c:312-332 | the record is not, everyone else is, and -1 says it never was |
| NameHash.NameTable.Change | ircd/hash.c:350-359 | the record is found under the new name, the others as before |
| NameHash.NameTable.Seek | ircd/hash.c:396-415 | a record of that name and status is found exactly when the table has one, the first such of its bucket; it moves to the front, and nobody is lost |
| Watch.Watches.Plus | ircd/m_watch.c:407-419 | refused exactly at the limit; otherwise the user wants to know of that nick and nothing else changes |
| Watch.Watches.AddNick | ircd/m_watch.c:157-208 | both lists gain the link once, and a record is made when there is none |
| Watch.Watches.RemoveNick | ircd/m_watch.c:216-284 | just that wish of that user ends, and a record without watchers goes |
| Watch.Watches.Clear | ircd/m_watch.c:293-341 | all wishes of the user end, everybody else's stay |
| Watch.LinkedIn | ircd/m_watch.c:183-203 | linking on both sides keeps the relation symmetric, without repetition and counted |
| Watch.LinkedOut | ircd/m_watch.c:232-280 | and so does unlinking |

## Left out

- Allocator.Malloc.Allocate: requests below the mmap threshold only, which `persistent_init` sets to twice the arena so that no request the arena could serve is above it; where `persistent_sbrk` stops the program because the arena is used up, the model returns `Stopped`.
- Allocator.Malloc.SysMalloc: memory from one contiguous arena; mmap and the handling of foreign calls of sbrk cannot happen there.
- Allocator.Malloc.constructor: the cutting of the arena to whole pages before the state starts, the `int` range of its length, and a restart on an existing arena (`p_top`).
- Allocator.Malloc.Release: `fREe` and `malloc_consolidate` have two copies of this code; the model has one.
- In the allocator: memory is four maps of words by address instead of bytes, sizes are those of a 64-bit machine, the words of the binmap are one sequence of bits, and reallocation, aligned and array requests and statistics are not modelled. That an operation leaves the bytes inside blocks of other callers alone is not stated for each operation; blocks are proved disjoint, and the invariant not to depend on what is in them.
- Match.Match: the variant with case (`match_case`), and the two matchers that use regular expressions.
- MatchComp.MatchComp: the character-set result and the compilation of address masks; `mmexec` on two compiled masks.
- MatchDecomp.MatchDecomp: takes the source elements as a ghost argument, so it speaks of compiled masks only and not of arbitrary text.
- Dbuf.BufferPool.Put: compression and the grouping of bursts in front of it; the system always has memory for a segment the pool allows; the pool of the unpatched server without the special flush on failure.
- In the byte queue: segments are records in a map from pointer to record.
- DnsCache.Cache.MakeCache: entries are a name, aliases and IPv4 addresses, without the packed buffers and their limits on how many aliases and addresses fit; queries, packets and timeouts are elsewhere.
- DnsCache.Cache.RemCache: pending requests that point at a removed entry.
- Numerics.Network.SetLocalNumNick: a client with the same numeric that has to be removed first, and servers of protocol 9.
- AddressCodec.Base64ToIp: text that is not made of groups of three digits and gaps within eight words.
- RuleParser.Reader.ParseRule: which error it was, and freeing of unfinished trees; the three argument slots are a sequence, trees are values, and the predicates on the server list are an arbitrary function.
- ConnectRule.SentencesParse: names and words of fewer than 80 characters, as the buffers hold.
- CommandTree.BuildTree: the sorting of the table is a condition on it; nodes are values; the tree of tokens, which checks only one character.
- IpRegistry.Registry.LocalConnect: the database of permitted clones, notices, `IPcheck_connect_fail`, which takes one attempt back, and `IPcheck_connect_succeeded`, which hands the stored targets over.
- IpRegistry.Registry.Disconnect: the average vector length is an argument, and the 16-bit lengths of the vectors do not go round.
- IpRegistry.Hash: words are read as on a big-endian machine.
- NameHash.NameTable.Seek: one class stands for the tables of clients, channels and watched nicks, which differ in the status mask only; characters index the weight table as unsigned bytes, which gives the same weights because no two characters of different halves are equal.
- Watch.Watches.AddNick: links are elements of sequences; replies and time stamps are left out, and so are the checks on the characters and length of the nick before it.
- Server links, sockets, events and all command handlers.
