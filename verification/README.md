# Verified models of the bmv2 switch core

This project models the algorithms inside the behavioral model (bmv2) of a P4
switch, and proves what they promise. It follows the repository's own form: an
object whose methods update its fields is a class, a buffer that is written in
place is an array, and a loop stays a loop. Each such method is tied by its
`ensures` to a function of its inputs or of the old state, and the theorems are
proved about those functions and about the invariants.

| part | modules |
|---|---|
| expression compiler and stack machine | `ExpressionSyntax`, `StackMachine`, `Registers`, `Compiler`, `CompilerCorrect`, `CompilerTheorems`, `Expressions` |
| longest-prefix-match trie | `PrefixKeys`, `PrefixMaps`, `TrieShape`, `LpmTrie`, `TrieTheorems` |
| field extraction and deparsing | `FieldBits`, `Fields`, `HeaderBits`, `Headers`, `HeaderTheorems` |
| match keys, lookup structures, match units | `MatchKeys`, `KeyBuilder`, `MatchParams`, `KeyTheorems`, `LookupStructures`, `MatchUnit`, `Handles` |
| learn lists | `LearnFilter`, `Learning` |
| debugger | `Debugger` |
| indirect tables | `RefCounts`, `IndirectTables`, `IndirectMatch` |
| checksums, MD5, CRC, meters | `Checksums`, `Ipv4Checksum`, `Md5`, `Crc16`, `Meters` |
| shared | `Wrappers`, `Bits`, `Buffers` |

## What is proved

**Expressions.** `BuildExpression` flattens a tree to postfix ops with
relative jumps, `AssignDestRegisters` gives each op that computes a number a
temporary, and `Loop` runs the ops with a stack of pointers to temporaries. For
every well-typed tree, with ternaries nested anywhere, the run ends with
exactly the tree's own value on exactly one stack (`CompiledMeansTree`). No
stack underflows, every jump lands on an op or on the end, every destination is
below the count of temporaries, and at no step does an op write a temporary
that a pointer left on the stack still refers to (`EveryStepIsSafe`). The
invariant is that the run's stack embeds, in order, into the allocator's, which
walks both branches of a ternary and so holds entries that no run has.

**Trie.** A trie is a tree of nodes linked by branches and parents. Its meaning
is a map from bit prefixes to values. Insertion, `has_prefix`, lookup and
deletion are proved against that map for any contents; lookup returns the
longest stored prefix. A pruned trie is determined by its map alone
(`PrefixesDetermineTrie`). Two things the code gets wrong are stated exactly.
`branch_num` is an `unsigned char`, so a node with 256 children counts 0, and
deleting the only prefix of such a node frees its whole subtree: this happens
if and only if every next byte leads to some stored prefix and nothing else is
stored at that node (`LosesSubtreeIff`). And inserting again a prefix whose
stored value is 0 counts it twice (`Insert`). `Fill` builds a trie of 257
prefixes in the first case, and `LoseAll` empties it with one deletion.

**Fields and headers.** For any bit position and width, each of the three shift
cases of extraction and of deparsing is proved against one description at the
level of bits. That description includes what the code does with two kinds of
layout: a field of less than a byte that straddles two bytes is not masked, and
a field of more than a byte that is shifted left overwrites the bits before it in
its first byte. The round trips hold if and only if the layout has no such
field (`BytesSurviveIff`, `ValuesSurviveIff`).

**Match units.** A match key is the concatenation of the fields, with the LPM
field last, under a mask. A stored entry matches a packet if and only if each
field matches its own parameter in the user's order, for all three encodings
(`MatchesIff`), which means that the packet's own bits are those that the
parameters ask for (`MatchesBits`); what invalid headers hold never matters.
`GetEntry` returns the normalised parameters, and giving these back
yields the same stored key (`ReturnedIsSame`). On every run, handles, entries
and requests agree, the lookup structure leads to such entries only, lookup
returns the specified winner among those it leads to, and a deleted handle
never works again until a 32-bit version wraps. The lookup structure leads to
every entry (`InStep`) on every run of an exact or a ternary unit. An LPM unit
stays in step until a deletion meets the 256-branch case:
`DeleteEntry` gives the condition in terms of the requests (`DropsOthers`), as
an if and only if, and states what the lookup structure then leads to. An LPM prefix length is counted from the padding bits of the field, so
for a field that is not a whole number of bytes fewer bits are compared than
asked for; prefixes mean what they say if and only if the field has no padding
or the prefix is empty (`PrefixesMeanWhatTheySayIff`).

**Learn lists.** Every method call is one atomic step between two releases of
the lock. In every interleaving, what was accepted is exactly what was sent, in
order, followed by what still waits; message `b` carries exactly the samples
recorded under buffer `b`; no value is sent again without an acknowledgement in
between; and the clear-all path of `AckBuffer` is the slow path. The timeout
counts from the first waiting sample (`Timed`). A first sample that comes while
buffers of one sample are asked for does not set the time, so that an earlier
time counts and the buffer is sent sooner, never later.

**Debugger.** In every interleaving of the request thread with any number of
packets, and a client that sends only ATTACH while unattached, a reply is never
overwritten, every request gets exactly one reply, an attached packet makes a
step only while a CONTINUE or NEXT waits for its answer, the counts are the
numbers of live copies, and an event is told if and only if the ids of the last
request for notifications, if there were any, name its packet (`Asked`). The replies to RESET, to a first ATTACH and to a DETACH
carry request number 0, because `reset_state` clears the number before the
reply is made.

**Indirect tables.** On every run whose modifications name valid targets, each
count is at least the number of entries and groups that use its target, and
equal to it if no addition failed. So a member or group that is deleted is used
by nothing. A modification that fails has already given a count back: the
counts still cover the uses if and only if there was a count to spare
(`MisdirectedIff`), and otherwise the next deletion leaves an entry dangling
(`MisdirectedDangles`). The default target is not counted, so it may be gone
when a packet falls back on it. Together with its match unit (`IndirectMatch`),
a table lets a packet reach a live member of the target of the best entry that
it matches.

**Arithmetic.** The 64-bit end-around-carry checksum is the 16-bit
ones'-complement sum of RFC 1071 for every length, in both byte orders. An IPv4
header that was updated verifies and sums to 0xffff. `verify_` accepts exactly
the headers that sum to 0xffff, except one: it rejects a stored 0xffff when the
rest also sums to 0xffff (`VerifiesIff`). MD5 over any split of a message is the
padding and block computation of sections 3.1 to 3.5 of RFC 1321. The
table-driven CRC is bit-serial division by 0x8005. A meter rate charges, in any
window, at most its burst and what it made in the window, and it pays for a
packet when its credit and what it made cover it (`PaysWhenMade`); visits
skipped by the `break` lose no credit. The time of a packet is read before the lock is taken,
so packets may be charged out of order; the assertion about tokens then fails
exactly when the loop reaches a rate that was filled for a later time
(`FailsIff`). A `set_rates` that meets a rate out of order leaves the rates up to
it set, in the wrong order for charging, while the meter stays configured.

## Reading the contracts

* Ghost fields keep what the code does not: the map that a trie means, the
  request behind each table entry, the history of a learn list, the exchanges
  of the debugger. `Valid()` ties them to the real fields.
* `misled`, `leaked` and `wrapped` in `IndirectTable`, and `wrapped` in
  `MatchUnitGeneric`, record that a run left the case in which a promise holds; the
  methods say when they are set.
* `Deleted` in the trie and `AfterDelete` in the lookup structures are the exact
  effect of a deletion, the 256-branch case included. A match unit keeps the
  ghost map `index` for what its lookup structure leads to, and `Reached` for the
  requests behind it.

## Model

| member | source | states |
|---|---|---|
| ExpressionSyntax.EvalHasType | modules/bm_sim/src/P4Objects.cpp:47-112 | a well-typed expression tree has a value of its type, whatever the packet, the registers and the action data |
| ExpressionSyntax.CompareMeans | modules/bm_sim/src/expressions.cpp:321-355 | ==, !=, >, <, >= and <= compare the left operand with the right one: `l > r` is true if and only if the number of `r` is below that of `l`, and so for all six |
| ExpressionSyntax.ArithMeans | modules/bm_sim/src/expressions.cpp:286-319 | an operator on numbers gets the left operand first, and a sign alone gets 0 there |
| ExpressionSyntax.LogicMeans | modules/bm_sim/src/expressions.cpp:357-367 | `and` is true if and only if both operands are, and `or` if and only if one is |
| ExpressionSyntax.UnaryMeans | modules/bm_sim/src/expressions.cpp:369-433 | `not` turns its operand around, `valid` asks the header, `d2b` is false only for 0, `b2d` is 1 or 0, and the operand counts on whichever side it stands |
| ExpressionSyntax.TernaryMeans | modules/bm_sim/src/expressions.cpp:406-414 | the condition selects the first branch if it is true and else the second, and the other one does not matter |
| ExpressionSyntax.LeavesMean | modules/bm_sim/src/expressions.cpp:256-284 | each leaf is read from its own place, and the index of a register is the value of its tree |
| ExpressionSyntax.TypedOperations | modules/bm_sim/src/P4Objects.cpp:65-74 | exactly the operands that each operator takes make an operation well-typed, and what type it has |
| ExpressionSyntax.TypedTrees | modules/bm_sim/src/P4Objects.cpp:57-108 | which ternaries, leaves and register loads are well-typed: the branches have one type, and an index is a number |
| Expressions.BuildExpression | modules/bm_sim/src/P4Objects.cpp:47-112 | appends exactly the code of the tree, its constants numbered from those already there, and the tree's constants; the code is the function that `CompiledMeansTree` is about |
| Expressions.BuildLeaf | modules/bm_sim/src/P4Objects.cpp:76-92 | a header, field, Boolean, literal or parameter is one load, and only a literal adds a constant |
| Expressions.BuildTernary | modules/bm_sim/src/P4Objects.cpp:57-64 | the condition's code comes first, then what `BuildBranches` appends |
| Expressions.BuildBranches | modules/bm_sim/src/P4Objects.cpp:61-64 | the two branches, built from scratch, are appended behind TERNARY_OP and two SKIPs with their constants renumbered |
| Expressions.BuildRegister | modules/bm_sim/src/P4Objects.cpp:93-108 | a literal index is loaded by reference and any other is computed first |
| Expressions.BuildOperation | modules/bm_sim/src/P4Objects.cpp:65-74 | the operands' code in order and then the operator, the right operand's constants numbered behind the left one's |
| Expressions.BuildLeft | modules/bm_sim/src/P4Objects.cpp:66-71 | a missing left operand of + or - is the constant 0 |
| Expressions.Expression.AppendExpression | modules/bm_sim/src/expressions.cpp:151-162 | appends the other expression's ops with their constants moved behind those already there |
| Expressions.Expression.PushBackLoadConst | modules/bm_sim/src/expressions.cpp:109-115 | the load refers to the constant that it appends |
| Expressions.Expression.PushBackTernaryOp | modules/bm_sim/src/expressions.cpp:180-191 | the first SKIP passes the first branch and the second SKIP, which passes the second branch |
| Expressions.ShiftComp | modules/bm_sim/src/expressions.cpp:151-162 | moving the constants of code that was compiled from scratch gives the code compiled behind those constants |
| Expressions.Expression.AssignDestRegisters | modules/bm_sim/src/expressions.cpp:473-562 | changes destinations only; each destination is the sum of the static stack below the op's operands, and the count is the peak of that sum |
| Expressions.Expression.Build | modules/bm_sim/src/expressions.cpp:194-197 | the expression has its destinations and its count of temporaries, and nothing else of it changed |
| Compiler.WalkTree | modules/bm_sim/src/expressions.cpp:473-562 | over a tree's code the static stack keeps every entry it had, and has at least one more if the tree is a number, so the walk never pops too much |
| Compiler.WalkTernary | modules/bm_sim/src/expressions.cpp:549-552 | the walk goes through both branches; at the start of either branch, and at the end, the stack still starts with what it held at the jump that leads there |
| Registers.EmbedsPops | modules/bm_sim/src/expressions.cpp:473-562 | a run's stack that embeds in the static one does so after both drop as many entries |
| Registers.EmbedsBelow | modules/bm_sim/src/expressions.cpp:473-562 | a pointer to temporary r on an embedded stack has r below the static sum |
| CompilerCorrect.NoLiveTempIsWritten | modules/bm_sim/src/expressions.cpp:473-562 | an op's destination exists and differs from every temporary that the stack refers to below the op's operands |
| CompilerCorrect.StepEmbeds | modules/bm_sim/src/expressions.cpp:217-448 | each op keeps the run's stack embedded in the allocator's |
| CompilerCorrect.RunTree | modules/bm_sim/src/expressions.cpp:217-448 | running a tree's code pushes the tree's value on its own stack, leaves all else on the stacks and keeps every temporary below the static sum |
| CompilerCorrect.RunTernary | modules/bm_sim/src/expressions.cpp:179-191 | a ternary runs the branch that the condition chooses and none of the other |
| CompilerTheorems.CompiledMeansTree | modules/bm_sim/src/P4Objects.cpp:47-112 | for every well-typed tree, the run of the compiled ops ends, with exactly the tree's value on the right stack and the other stacks empty |
| CompilerTheorems.CompiledComparison | modules/bm_sim/src/expressions.cpp:321-355 | the run of a compiled comparison leaves one Boolean, which is the comparison of the numbers that its operands mean, for each of the six operators |
| CompilerTheorems.TypedCanBeAllocated | modules/bm_sim/src/expressions.cpp:473-562 | the allocator never pops an empty stack on the code of a well-typed tree |
| CompilerTheorems.TreeJumpsOk | modules/bm_sim/src/expressions.cpp:164-191 | every SKIP and TERNARY_OP of a tree's code lands inside the code or at its end, where the static stack still starts with what it held at the jump |
| CompilerTheorems.AfterIsSafe | modules/bm_sim/src/expressions.cpp:252-438 | after any number of steps the stacks embed, and the rest of the run gives the run's result |
| CompilerTheorems.EveryStepIsSafe | modules/bm_sim/src/expressions.cpp:217-448 | at every step of every run no stack underflows, and an op writes an existing temporary that no pointer left on the stack refers to |
| Expressions.Compile | modules/bm_sim/src/P4Objects.cpp:47-112 | building a well-typed tree into an empty expression and finishing it gives an expression that evaluates to the tree; the allocator's requirement is met |
| Expressions.Evaluator.Loop | modules/bm_sim/src/expressions.cpp:220-438 | the loop over the ops, with the thread's temporaries grown as needed, computes the run of the machine |
| Expressions.Evaluator.ComputeData | modules/bm_sim/src/expressions.cpp:281-427 | each op on numbers changes the stacks and temporaries as one machine step, operands in the right order |
| Expressions.Evaluator.ComputeBool | modules/bm_sim/src/expressions.cpp:357-433 | the same for the ops on Booleans and headers |
| Expressions.Evaluator.EvalArith | modules/bm_sim/src/expressions.cpp:458-468 | evaluating a compiled tree of numeric type gives the tree's value |
| Expressions.Evaluator.EvalBool | modules/bm_sim/src/expressions.cpp:451-455 | evaluating a compiled tree of Boolean type gives the tree's value |
| Expressions.VLHeaderExpression.Resolve | modules/bm_sim/src/expressions.cpp:578-594 | every load of a parameter becomes a load of that field of the header, and nothing else changes |
| Expressions.ResolvedRunsAlike | modules/bm_sim/src/expressions.cpp:578-594 | the resolved expression computes what the original does when its parameters are the header's fields |
| Expressions.OnlyInputsMatter | modules/bm_sim/src/expressions.cpp:564-576 | a run depends on no parameter but those that `get_input_offsets` lists |
| PrefixKeys.PrefixKeySame | modules/bf_lpm_trie/src/bf_lpm_trie.c:105-108 | two residues have the same key if and only if they have the same bits |
| PrefixKeys.SlotSame | modules/bf_lpm_trie/src/bf_lpm_trie.c:137-167 | two prefixes are stored in the same place if and only if they are the same bits |
| PrefixKeys.KeysAtMost | modules/bf_lpm_trie/src/bf_lpm_trie.c:105-108 | a node has at most 255 different prefix keys |
| PrefixMaps.LpmIsLongest | modules/bf_lpm_trie/src/bf_lpm_trie.c:194-232 | the specification of lookup finds something if and only if a stored prefix covers the key, and then the value of the longest |
| LpmTrie.Trie.constructor | modules/bf_lpm_trie/src/bf_lpm_trie.c:57-64 | a new trie is valid and means the empty map |
| LpmTrie.Trie.Insert | modules/bf_lpm_trie/src/bf_lpm_trie.c:137-167 | the map gets the prefix; links and pruning are kept; exact counters stay exact if and only if the prefix was not stored with value 0 |
| LpmTrie.Trie.HasPrefix | modules/bf_lpm_trie/src/bf_lpm_trie.c:169-192 | true if and only if the prefix is in the map |
| LpmTrie.Trie.Lookup | modules/bf_lpm_trie/src/bf_lpm_trie.c:194-232 | the value of the longest stored prefix of the key, or nothing |
| LpmTrie.Trie.Delete | modules/bf_lpm_trie/src/bf_lpm_trie.c:234-273 | reports whether the prefix was stored; with shrinking on removes it, and with it all longer prefixes at its node exactly in the 256-branch case; the trie stays valid; without shrinking nothing changes |
| LpmTrie.Trie.Prune | modules/bf_lpm_trie/src/bf_lpm_trie.c:262-269 | the loop frees exactly the chain of nodes that store nothing, and a subtree only if the first of them has 256 children |
| LpmTrie.Trie.SubtreeIsLost | modules/bf_lpm_trie/src/bf_lpm_trie.c:262-269 | deletion removes the one prefix and no other if and only if it is not the 256-branch case |
| TrieShape.NodesAreForPrefixes | modules/bf_lpm_trie/src/bf_lpm_trie.c:262-269 | a pruned trie has a node if and only if it is the root or on the way to a stored prefix |
| TrieTheorems.Canonical | modules/bf_lpm_trie/src/bf_lpm_trie.c:234-273 | two pruned tries that store the same have the same nodes, branches, prefixes and counters |
| TrieTheorems.PrefixesDetermineTrie | modules/bf_lpm_trie/src/bf_lpm_trie.c:234-273 | the map alone determines the shape of a valid trie |
| TrieTheorems.CountersAreExact | modules/bf_lpm_trie/src/bf_lpm_trie.c:35-42 | `pref_num` is the number of prefixes and at most 255; `branch_num` is the number of branches, but 0 for 256 |
| TrieTheorems.LosesSubtreeIff | modules/bf_lpm_trie/src/bf_lpm_trie.c:262-269 | in terms of the stored prefixes alone: the subtree goes if and only if there is a parent, all 256 bytes go on below and no other prefix is stored at the node |
| TrieTheorems.InsertThenDelete | modules/bf_lpm_trie/src/bf_lpm_trie.c:137-167 | inserting a fresh prefix and deleting it restores the map and the shape if and only if it is not that case |
| TrieTheorems.Fill | modules/bf_lpm_trie/src/bf_lpm_trie.c:146-153 | there is such a trie: a byte, and that byte followed by each of the 256 |
| TrieTheorems.LoseAll | modules/bf_lpm_trie/src/bf_lpm_trie.c:262-269 | deleting the byte from it leaves none of the 257 prefixes |
| FieldBits.LeftBitAt | modules/bm_sim/src/extract.h:48-56 | each bit that the left shift writes is the packet's bit, or 0 in the padding |
| FieldBits.RightBitAt | modules/bm_sim/src/extract.h:57-64 | the same for the right shift |
| FieldBits.AlignedBitAt | modules/bm_sim/src/extract.h:44-47 | the same when there is no shift |
| FieldBits.DeparsedLeft | modules/bm_sim/src/fields.cpp:66-72 | each bit that the left shift writes, with what it does to the bits before the field |
| FieldBits.DeparsedRight | modules/bm_sim/src/fields.cpp:73-88 | each bit that the right shift writes or keeps |
| FieldBits.DeparsedSame | modules/bm_sim/src/fields.cpp:62-65 | the same when there is no shift |
| Fields.GenericExtract | modules/bm_sim/src/extract.h:28-65 | for every offset and width, the field's bits, right-aligned behind zero padding, except that a straddling field of less than a byte keeps the bits before it |
| Fields.ExtractLeft | modules/bm_sim/src/extract.h:48-56 | the loop and the last byte of the left shift |
| Fields.ExtractRight | modules/bm_sim/src/extract.h:57-64 | the first byte and the loop of the right shift |
| Fields.DeparseInto | modules/bm_sim/src/fields.cpp:44-91 | writes the field's bits and leaves every other bit, except zeros after the field in its last byte, and before it in the clobbering case |
| Fields.DeparseLeft | modules/bm_sim/src/fields.cpp:66-72 | the bytes of the left shift |
| Fields.DeparseRight | modules/bm_sim/src/fields.cpp:73-88 | the bytes of the right shift, with the one-byte case and the tail |
| Headers.Field.Extract | modules/bm_sim/src/fields.cpp:28-34 | fills the field's bytes from the packet and returns the width |
| Headers.Field.Deparse | modules/bm_sim/src/fields.cpp:44-91 | writes the field at its place and returns the width |
| Headers.Header.Extract | modules/bm_sim/src/headers.cpp:55-64 | each field gets its own bits of the packet, at the sum of the widths before it, and the header becomes valid |
| Headers.Header.Deparse | modules/bm_sim/src/headers.cpp:89-97 | the fields are written one after the other at the sums of the widths |
| HeaderTheorems.ExtractionIsExactIff | modules/bm_sim/src/extract.h:48-56 | extraction gives the field's bits behind zeros if and only if the field does not straddle or the bits that leak in are 0 |
| HeaderTheorems.DeparsingIsExactIff | modules/bm_sim/src/fields.cpp:66-72 | deparsing keeps all earlier bits and writes the field if and only if it does not clobber or the bits it clobbers are 0 |
| HeaderTheorems.DeparseIsPayload | modules/bm_sim/src/headers.cpp:89-97 | without clobbering, deparsing writes exactly the fields' values one after the other |
| HeaderTheorems.BytesSurviveIff | modules/bm_sim/src/headers.cpp:89-97 | deparse after extract gives back every packet if and only if no field of the layout clobbers |
| HeaderTheorems.ValueSurvives | modules/bm_sim/src/headers.cpp:55-64 | in a good layout each field's value comes back |
| HeaderTheorems.ValuesSurviveIff | modules/bm_sim/src/headers.cpp:55-64 | extract after deparse gives back all values, whatever they are, if and only if no field straddles and none clobbers |
| MatchKeys.CreateMask | modules/bm_sim/src/match_units.cpp:278-287 | the mask whose first bits, as many as the prefix has, are 1 |
| MatchKeys.PrefixMaskCompares | modules/bm_sim/src/match_units.cpp:278-287 | under that mask two keys are equal if and only if their prefixes are |
| MatchKeys.PrefLenFromMask | modules/bm_sim/src/match_units.cpp:261-276 | counts the bits of whole bytes by 8 and of others by a popcount |
| MatchKeys.PrefLenOfMask | modules/bm_sim/src/match_units.cpp:261-287 | the count undoes the making of the mask, for every length |
| MatchKeys.NormalBits | modules/bm_sim/src/match_units.cpp:297-301 | the normalised parameter has 0 in the padding and the user's bits elsewhere |
| KeyBuilder.Sort | modules/bm_sim/src/match_units.cpp:114-121 | a permutation of the fields, by kind of match and then by position |
| KeyBuilder.KindsInOrder | modules/bm_sim/include/bm_sim/match_units.h:51-56 | validity comes first, then exact, LPM and ternary fields, and fields of a kind keep their order |
| KeyBuilder.InvertOrder | modules/bm_sim/src/match_units.cpp:123-127 | `key_mapping` and `inv_mapping` are inverse to each other both ways |
| KeyBuilder.Offsets | modules/bm_sim/src/match_units.cpp:130-135 | each offset is the size of all parts before it |
| KeyBuilder.BigMask | modules/bm_sim/src/match_units.cpp:136-142 | copying each mask to its field's offset gives the masks concatenated in key order |
| KeyBuilder.OrderedSum | modules/bm_sim/src/match_units.cpp:123-135 | reordering the fields keeps the total size |
| KeyBuilder.MatchKeyBuilder.PushBackField | modules/bm_sim/src/match_units.cpp:162-167 | a field without a mask is appended with one that compares all of it |
| KeyBuilder.MatchKeyBuilder.PushBackMaskedField | modules/bm_sim/src/match_units.cpp:170-177 | the field and its mask are appended |
| KeyBuilder.MatchKeyBuilder.PushBackValidHeader | modules/bm_sim/src/match_units.cpp:180-186 | a validity bit is a field of one byte, fully compared |
| KeyBuilder.MatchKeyBuilder.Build | modules/bm_sim/src/match_units.cpp:105-145 | establishes all of the above once, and nothing the second time |
| KeyBuilder.MatchKeyBuilder.BuildKey | modules/bm_sim/src/match_units.cpp:195-218 | a packet's key is the fields' bytes in key order, zeros for fields of an invalid header, under the mask |
| KeyBuilder.FieldBytesAre | modules/bm_sim/src/match_units.cpp:199-214 | a field adds 01 or 00 for validity, its own bytes if its header is valid, and else zeros |
| KeyBuilder.MatchKeyBuilder.KeyHolds | modules/bm_sim/src/match_units.cpp:195-218 | in a packet's key, at the offset that the switch has for a field of the program, are those bytes of the packet under the field's mask |
| KeyBuilder.OnlyValidMatter | modules/bm_sim/src/match_units.cpp:205-214 | packets that differ only in what invalid headers hold have the same key |
| KeyBuilder.MatchKeyBuilder.ApplyBigMask | modules/bm_sim/src/match_units.cpp:189-192 | masks with the concatenated masks, also when the flag lets it skip the work |
| KeyBuilder.MatchKeyBuilder.SanityCheck | modules/bm_sim/src/match_units.cpp:522-550 | true if and only if each parameter, in the user's order, has its field's kind, size, mask size and prefix length |
| MatchParams.ExactEntry | modules/bm_sim/src/match_units.cpp:416-433 | the normalised parameters in key order |
| MatchParams.LpmEntry | modules/bm_sim/src/match_units.cpp:435-466 | the same, and the prefix length is the sum over the fields |
| MatchParams.TernaryEntry | modules/bm_sim/src/match_units.cpp:468-503 | the masks in key order, and the data under them |
| MatchParams.FieldOf | modules/bm_sim/src/match_units.cpp:314-327 | cutting a stored key at a field's offset gives that field's part |
| MatchParams.ExactParams | modules/bm_sim/src/match_units.cpp:310-328 | one parameter for each field in the user's order, with the stored part |
| MatchParams.LpmParams | modules/bm_sim/src/match_units.cpp:333-362 | the same, and the LPM field gets the length that the other fields leave |
| MatchParams.TernaryParams | modules/bm_sim/src/match_units.cpp:367-405 | the same, with mask or prefix length recovered from the stored mask |
| KeyTheorems.ExactMatchesIff | modules/bm_sim/src/match_units.cpp:416-433 | an exact entry equals a packet's key if and only if every field agrees under its mask |
| KeyTheorems.TernaryMatchesIff | modules/bm_sim/src/match_units.cpp:468-503 | a ternary entry matches if and only if every field matches its exact, prefix or ternary parameter |
| KeyTheorems.FlatPrefix | modules/bm_sim/src/match_units.cpp:147-150 | two keys agree on the summed prefix length if and only if every part agrees on its own, provided only the last part is not whole |
| KeyTheorems.LpmMatchesIff | modules/bm_sim/src/match_units.cpp:435-466 | an LPM entry is a prefix of the key if and only if every field matches |
| KeyTheorems.MatchesIff | modules/bm_sim/src/match_units.cpp:194-218 | for each kind of table, a stored entry matches a packet's key if and only if every field matches |
| KeyTheorems.FieldMatchesIff | modules/bm_sim/src/match_units.cpp:195-218 | a field matches if and only if the packet has each bit that the parameter asks for: those under the program's mask, within the prefix, under the parameter's mask; a validity parameter asks whether the header is valid, and fields of an invalid header show zeros |
| KeyTheorems.MatchesBits | modules/bm_sim/src/match_units.cpp:195-218 | in a table of any kind a stored entry matches the key of a packet if and only if all those bits agree |
| KeyTheorems.LpmComparesFewer | modules/bm_sim/src/match_units.cpp:456-458 | the bits an LPM field compares are its prefix length less the padding of the field |
| KeyTheorems.PrefixesMeanWhatTheySayIff | modules/bm_sim/src/match_units.cpp:456-458 | all prefixes of a length compare that many bits if and only if the field has no padding or the length is 0 |
| KeyTheorems.KeyOfSize | modules/bm_sim/src/match_units.cpp:416-503 | every stored key has the size of a packet's key, and its prefix length fits |
| KeyTheorems.ReturnedIsSame | modules/bm_sim/src/match_units.cpp:508-519 | the parameters read back are sane and give the same stored key again |
| LookupStructures.IdMatchesIff | modules/bm_sim/src/lookup_structures.cpp:63-170 | what a structure compares is what matching means |
| LookupStructures.ExactMap.Lookup | modules/bm_sim/src/lookup_structures.cpp:97-106 | the handle of the equal key, or nothing |
| LookupStructures.ExactMap.DeleteEntry | modules/bm_sim/src/lookup_structures.cpp:118-120 | removes exactly that key |
| LookupStructures.TernaryMap.Lookup | modules/bm_sim/src/lookup_structures.cpp:136-170 | the matching entry of least priority and among these of least handle, or nothing |
| LookupStructures.TernaryMap.FindHandle | modules/bm_sim/src/lookup_structures.cpp:204-215 | the handle of the key if it is stored, else the size |
| LookupStructures.TernaryMap.AddEntry | modules/bm_sim/src/lookup_structures.cpp:178-181 | adds exactly that key under the handle |
| LookupStructures.TernaryMap.DeleteEntry | modules/bm_sim/src/lookup_structures.cpp:183-190 | frees exactly the slot of the key by giving it the maximal priority |
| LookupStructures.LpmTrieStructure.Lookup | modules/bm_sim/src/lookup_structures.cpp:63-67 | the handle of the longest stored prefix |
| LookupStructures.LpmTrieStructure.AddEntry | modules/bm_sim/src/lookup_structures.cpp:73-77 | adds exactly that prefix, handle 0 included |
| LookupStructures.LpmTrieStructure.DeleteEntry | modules/bm_sim/src/lookup_structures.cpp:79-81 | the index afterwards, for every key: without the prefix, and in the 256-branch case without all that extend its whole bytes |
| LookupStructures.LpmTrieStructure.LosesIff | modules/bm_sim/src/lookup_structures.cpp:79-81 | whether the trie loses a subtree can be told from the index: every next byte leads to some prefix, and no other ends within it |
| LookupStructures.OnlyThePrefixIff | modules/bm_sim/src/lookup_structures.cpp:79-81 | a deletion removes its prefix and no other if and only if it is not that case |
| LookupStructures.LpmIsLookup | modules/bm_sim/src/lookup_structures.cpp:63-67 | the longest prefix is the specified winner of an LPM lookup |
| Handles.FirstFree | modules/bm_sim/include/bm_sim/handle_mgr.h:179-191 | the least handle not in use, which is at most the number in use |
| MatchUnit.HandleSet | modules/bm_sim/src/match_units.cpp:857-858 | index and version can be read back from a handle |
| MatchUnit.EntryKey | modules/bm_sim/src/match_units.cpp:837-847 | the key to store is the function of the request that `MatchesIff` is about |
| MatchUnit.MatchUnitGeneric.constructor | modules/bm_sim/src/match_units.cpp:569-587 | a new unit is valid and in step, and has no entries |
| MatchUnit.MatchUnitGeneric.AddEntry | modules/bm_sim/src/match_units.cpp:827-867 | bad key, duplicate, full table and success exactly when they should be, in this order; on success one entry more, under a handle that was not in use and is not expired, and its key leads to it; otherwise nothing changes; the unit is in step if and only if it was |
| MatchUnit.MatchUnitGeneric.DeleteEntry | modules/bm_sim/src/match_units.cpp:871-881 | exactly the live entry goes, its handle expires, and the lookup structure is as its deletion leaves it; a unit in step stays so if and only if the requests are not in the 256-branch case; expired handles fail; the unit is valid on every run |
| MatchUnit.MatchUnitGeneric.ModifyEntry | modules/bm_sim/src/match_units.cpp:885-894 | changes the value of the live entry only; expired handles fail |
| MatchUnit.MatchUnitGeneric.GetValue | modules/bm_sim/src/match_units.cpp:898-907 | the value of a live entry; expired handles fail |
| MatchUnit.MatchUnitGeneric.GetEntry | modules/bm_sim/src/match_units.cpp:911-925 | the client's own parameters, normalised, in the user's order, with priority and value |
| MatchUnit.MatchUnitGeneric.Lookup | modules/bm_sim/src/match_units.cpp:698-713 | nothing only if no request that the lookup structure leads to matches the packet bit by bit; otherwise the best of those that match, by longest prefix or by priority and handle, with its live handle and value; in step, these are all the requests |
| MatchUnit.MatchUnitGeneric.StatusOf | modules/bm_sim/src/match_units.cpp:872-876 | the checks of index and version succeed if and only if the handle is live, and never for an expired one |
| MatchUnit.LookupIsBest | modules/bm_sim/src/match_units.cpp:814-823 | whatever a structure may return is a winner among the requests that it leads to |
| MatchUnit.WinnerByRequests | modules/bm_sim/src/match_units.cpp:814-823 | the winner in terms of the requests: the only match of an exact table, a longer prefix in the LPM field than any other match, or a lower priority or the same and a lower handle |
| MatchUnit.OnlyValidAreMatched | modules/bm_sim/src/match_units.cpp:205-214 | what invalid headers hold changes neither which requests match nor which of them wins |
| MatchUnit.EntryParams | modules/bm_sim/src/match_units.cpp:510-512 | reading back the key of a request gives its normalised parameters |
| MatchUnit.RecoveredPrefix | modules/bm_sim/src/match_units.cpp:333-362 | the total length less 8 for each byte of the other fields is the length the client gave |
| MatchUnit.DeleteConsistent | modules/bm_sim/src/match_units.cpp:871-881 | handles, entries, requests and index still fit together after an entry goes, in the 256-branch case too |
| MatchUnit.DeleteComplete | modules/bm_sim/src/match_units.cpp:871-881 | an index that led to every entry still does after a deletion if and only if it loses no other key |
| MatchUnit.LosesIff | modules/bm_sim/src/match_units.cpp:877-878 | whether it does can be told from the requests: the prefix has a whole byte, some prefix goes on with each of the 256 bytes, and no other ends within the next byte |
| MatchUnit.AddConsistent | modules/bm_sim/src/match_units.cpp:849-864 | they still fit together when one is added, and the index leads to every entry if and only if it did |
| LearnFilter.AccountsAdd | modules/bm_sim/src/learning.cpp:170-178 | recording a sample keeps the filter the disjoint union of what each buffer has unacknowledged, with right counts |
| LearnFilter.AccountsAck | modules/bm_sim/src/learning.cpp:278-285 | acknowledging one sample keeps it, and the buffer goes exactly with its last sample |
| LearnFilter.AccountsAckAll | modules/bm_sim/src/learning.cpp:296-306 | acknowledging a buffer keeps it |
| LearnFilter.CountsDecide | modules/bm_sim/src/learning.cpp:299-301 | a buffer's count equals the size of the filter if and only if its unacknowledged samples are the whole filter |
| LearnFilter.CountsAddUp | modules/bm_sim/src/learning.cpp:170-178 | the counts of all buffers sum to the size of the filter |
| Learning.LearnList.constructor | modules/bm_sim/src/learning.cpp:75-84 | a new list satisfies the invariant and nothing was accepted or sent |
| Learning.LearnList.SwapBuffers | modules/bm_sim/src/learning.cpp:145-150 | what waited is on its way, under its number; nothing is lost or moved |
| Learning.LearnList.ProcessFullBuffer | modules/bm_sim/src/learning.cpp:153-160 | swaps at once if it can and otherwise waits, with nothing changed |
| Learning.LearnList.Resume | modules/bm_sim/src/learning.cpp:153-160 | a waiting thread swaps when it finds the other buffer empty and otherwise waits on |
| Learning.LearnList.AddSample | modules/bm_sim/src/learning.cpp:163-187 | a sample in the filter is dropped; any other is accepted once, and the buffer is swapped when it is full and can be; the time is taken if and only if the sample is the first of a buffer for several |
| Learning.LearnList.SetMaxSamples | modules/bm_sim/src/learning.cpp:136-142 | swaps if the new bound is already reached |
| Learning.LearnList.SetTimeout | modules/bm_sim/src/learning.cpp:129-133 | a timeout of 0 means none; samples and the time are untouched |
| Learning.LearnList.TransmitBegin | modules/bm_sim/src/learning.cpp:190-222 | sends a full buffer, or after the timeout the one being filled, with its own count, and otherwise waits; the timeout has passed if and only if the first waiting sample came that long ago, for buffers of several samples; for any, no sample waits longer while the clock does not go back |
| Learning.LearnList.Send | modules/bm_sim/src/learning.cpp:224-249 | the message has number, count and bytes of exactly the samples recorded under that buffer, even if the list changed while it was sent |
| Learning.FlatAt | modules/bm_sim/src/learning.cpp:173 | in a message each sample's bytes stand in order behind those of the samples before it |
| Learning.LearnList.TransmitEnd | modules/bm_sim/src/learning.cpp:251-259 | only what was sent is cleared |
| Learning.LearnList.Ack | modules/bm_sim/src/learning.cpp:270-286 | exactly the named samples leave the filter, and no buffer that is left has other samples; a buffer that is gone is ignored |
| Learning.LearnList.AckBuffer | modules/bm_sim/src/learning.cpp:289-307 | exactly the buffer's samples leave the filter, on the fast path as on the slow one |
| Learning.SwappedOk | modules/bm_sim/src/learning.cpp:145-150 | swapping keeps the invariant and the order of what is unsent |
| Learning.WithSampleOk | modules/bm_sim/src/learning.cpp:173-178 | accepting a sample keeps: accepted is sent followed by unsent; message b is buffer b; acceptances are acknowledgements plus membership in the filter |
| Learning.WithMessageOk | modules/bm_sim/src/learning.cpp:224-249 | sending keeps the same |
| Learning.AckedOk | modules/bm_sim/src/learning.cpp:279-285 | an acknowledgement keeps the same |
| Learning.AckedBufferOk | modules/bm_sim/src/learning.cpp:296-306 | an acknowledgement of a buffer keeps the same |
| Learning.NoResend | modules/bm_sim/src/learning.cpp:170-178 | a value was sent at most once more often than it was acknowledged, and exactly as often if it is not in the filter |
| Learning.UnsentOnce | modules/bm_sim/src/learning.cpp:170-178 | what waits is in the filter and waits once |
| Learning.FilterIsCounted | modules/bm_sim/src/learning.cpp:170-178 | in every reachable state the counts sum to the size of the filter |
| Debugger.DebuggerNN.constructor | modules/bm_sim/src/debugger.cpp:247-249 | the invariant holds at the start: nobody attached, packets run, nothing is filtered or watched |
| Debugger.DebuggerNN.Receive | modules/bm_sim/src/debugger.cpp:836-854 | a request starts with no reply ready |
| Debugger.DebuggerNN.ReqResume | modules/bm_sim/src/debugger.cpp:449-465 | packets run, and NEXT asks to stop at the next event; no reply yet |
| Debugger.DebuggerNN.ReqGetValue | modules/bm_sim/src/debugger.cpp:468-492 | the last value of the field, or status 1 for no such packet and 2 for no such field |
| Debugger.DebuggerNN.ReqGetBacktrace | modules/bm_sim/src/debugger.cpp:495-511 | the stack of the packet, or status 1 |
| Debugger.DebuggerNN.ReqSettings | modules/bm_sim/src/debugger.cpp:514-611 | each setting changes exactly what it names and gets one reply, with status 1 exactly when there was nothing to undo |
| Debugger.DebuggerNN.SetFilters | modules/bm_sim/src/debugger.cpp:559-584 | ids with the any-copy mark filter whole packets, others their copy |
| Debugger.DebuggerNN.InFiltersIff | modules/bm_sim/src/debugger.cpp:424-432 | the filters let a packet through if and only if the last request for notifications had no ids, or one with its packet id and its copy id or the any-copy mark |
| Debugger.DebuggerNN.ReqReset | modules/bm_sim/src/debugger.cpp:625-630 | clears the settings, so that every packet is told of; one reply, with request number 0 |
| Debugger.DebuggerNN.ReqAttach | modules/bm_sim/src/debugger.cpp:633-646 | packets stop, and the settings are cleared; a second attach only gets status 1 |
| Debugger.DebuggerNN.ReqDetach | modules/bm_sim/src/debugger.cpp:649-663 | packets run, and the settings are cleared; a second detach only gets status 1 |
| Debugger.DebuggerNN.TimeOut | modules/bm_sim/src/debugger.cpp:856-872 | a request without an answer gets the keep-alive, and packets stop |
| Debugger.DebuggerNN.SendReply | modules/bm_sim/src/debugger.cpp:874-875 | the exchange is complete: the requests received are, in order, those that were answered, each by one fitting reply |
| Debugger.FittingReply | modules/bm_sim/src/debugger.cpp:853-875 | what a fitting reply is: it has the number of the request, or 0 where the state was reset, and tells of the packet and field asked for; only CONTINUE and NEXT are answered by events |
| Debugger.DebuggerNN.Event | modules/bm_sim/src/debugger.cpp:289-295 | an event answers the pending CONTINUE or NEXT; no reply is overwritten |
| Debugger.DebuggerNN.NotifyUpdate | modules/bm_sim/src/debugger.cpp:311-317 | a packet makes the step only if packets run, which while attached means that a CONTINUE or NEXT waits; it reports the value exactly when the client asked for the packet and breaks or watches the field, and otherwise changes nothing else |
| Debugger.WithValueIs | modules/bm_sim/src/debugger.cpp:266-269 | one register of one packet gets the value, and all others stay |
| Debugger.DebuggerNN.NotifyCtr | modules/bm_sim/src/debugger.cpp:328-346 | the same for entering and leaving a control, which is told from the top bit, with the stack pushed or popped and the number stored as four bytes |
| Debugger.Uint32ToBytes | modules/bm_sim/src/debugger.cpp:300-306 | the loop gives the bytes of the number |
| Debugger.Uint32BytesJoin | modules/bm_sim/src/debugger.cpp:300-306 | put together, highest first, they are the number again, and the first has the top bit |
| Debugger.DebuggerNN.PacketCame | modules/bm_sim/src/debugger.cpp:349-376 | a packet is registered, with an empty stack, only if packets run and new packets are not held back; a packet with a live copy is not held back; the client is told exactly when it asked for the packet and breaks |
| Debugger.DebuggerNN.PacketOut | modules/bm_sim/src/debugger.cpp:379-395 | exactly that packet is forgotten |
| Debugger.CountsIn | modules/bm_sim/src/debugger.cpp:398-403 | counting in keeps each count the number of live copies of its packet id |
| Debugger.CountsOut | modules/bm_sim/src/debugger.cpp:406-413 | counting out keeps it, and neither assertion fails |
| IndirectTables.IndirectTable.AddMember | modules/bm_sim/src/match_tables.cpp:457-495 | a member that was not in use, with its action and a count of 0 |
| IndirectTables.IndirectTable.DeleteMember | modules/bm_sim/src/match_tables.cpp:498-522 | refuses a used member; after success no entry and no group refers to it |
| IndirectTables.IndirectTable.ModifyMember | modules/bm_sim/src/match_tables.cpp:525-549 | changes that action only |
| IndirectTables.IndirectTable.AddEntry | modules/bm_sim/src/match_tables.cpp:552-577 | the error codes in order; the count rises before the match unit is asked, so a refusal leaves it too high |
| IndirectTables.IndirectTable.DeleteEntry | modules/bm_sim/src/match_tables.cpp:580-604 | the entry goes and its target's count falls |
| IndirectTables.IndirectTable.ModifyEntry | modules/bm_sim/src/match_tables.cpp:607-639 | a valid target is counted instead of the old one; an invalid one is reported after the old one's count fell |
| IndirectTables.IndirectTable.Redirect | modules/bm_sim/src/match_tables.cpp:1028-1033 | the second half of a modification counts the new target and stores it |
| IndirectTables.IndirectTable.SetDefault | modules/bm_sim/src/match_tables.cpp:642-664 | the default is a valid target when it is set; no count changes |
| IndirectTables.IndirectTable.CreateGroup | modules/bm_sim/src/match_tables.cpp:847-880 | an empty group that was not in use |
| IndirectTables.IndirectTable.DeleteGroup | modules/bm_sim/src/match_tables.cpp:883-915 | refuses a used group; releases each of its members once; after success no entry refers to it |
| IndirectTables.IndirectTable.AddMemberToGroup | modules/bm_sim/src/match_tables.cpp:918-945 | the member is in the group and counted once more, unless it was there |
| IndirectTables.IndirectTable.RemoveMemberFromGroup | modules/bm_sim/src/match_tables.cpp:948-975 | the member is out of the group and counted once less, unless it was not there |
| IndirectTables.IndirectTable.Lookup | modules/bm_sim/src/match_tables.cpp:820-844 | a hit reaches a live member of its entry's target, or the assertion fails, which happens exactly for a group that was emptied; a miss reaches a live member of the default, or the assertion fails, which happens exactly if the default is gone or is a group that was emptied |
| IndirectMatch.IndirectMatchTable.AddEntry | modules/bm_sim/src/match_tables.cpp:552-577 | with the match unit: the table knows one live handle more, for the request and the target, exactly if the target was there and the unit took it |
| IndirectMatch.IndirectMatchTable.DeleteEntry | modules/bm_sim/src/match_tables.cpp:580-604 | unit and table forget the same handle, and only a live one |
| IndirectMatch.IndirectMatchTable.ModifyEntry | modules/bm_sim/src/match_tables.cpp:607-639 | unit and table know the same target afterwards, the new one exactly on success |
| IndirectMatch.IndirectMatchTable.Lookup | modules/bm_sim/src/match_tables.cpp:820-844 | a packet reaches a live member of the target of the best entry that it matches field by field, unless that group was emptied; only a packet that matches none falls back on the default |
| RefCounts.Unused | modules/bm_sim/src/match_tables.cpp:504-511 | a covered count of 0 means that no entry and no group refers to the target |
| RefCounts.WithEntryOk | modules/bm_sim/src/match_tables.cpp:563-565 | adding an entry keeps count minus uses of every target |
| RefCounts.LeakedOk | modules/bm_sim/src/match_tables.cpp:563-565 | an addition that fails leaves counts that still cover the uses |
| RefCounts.WithoutEntryOk | modules/bm_sim/src/match_tables.cpp:586-593 | deleting an entry keeps count minus uses |
| RefCounts.RedirectedOk | modules/bm_sim/src/match_tables.cpp:613-627 | a modification with a valid target keeps it, also when the target is the old one |
| RefCounts.MisdirectedIff | modules/bm_sim/src/match_tables.cpp:616-620 | after a modification that failed the counts cover the uses if and only if the old target had a count to spare |
| RefCounts.MisdirectedDangles | modules/bm_sim/src/match_tables.cpp:616-620 | otherwise its last user's target has count 0 and can be deleted while the entry refers to it |
| RefCounts.WithoutGroupOk | modules/bm_sim/src/match_tables.cpp:894-903 | deleting a group with members keeps count minus uses |
| RefCounts.JoinedOk | modules/bm_sim/src/match_tables.cpp:929-932 | joining a group keeps it |
| RefCounts.LeftOk | modules/bm_sim/src/match_tables.cpp:959-962 | leaving a group keeps it |
| RefCounts.HandlesAfter | modules/bm_sim/src/match_tables.cpp:457-522 | apart from counts, making and deleting a member or a group changes only that it is there; a new group is empty, and new counts are 0 |
| RefCounts.EntriesAfter | modules/bm_sim/src/match_tables.cpp:552-639 | apart from counts, adding, deleting and modifying an entry change only that entry, and what fails changes none |
| Checksums.AddLane | modules/bm_sim/src/checksums.cpp:40-43 | an addition with end-around carry is right modulo 0xffff and is 0 only for 0 |
| Checksums.SumLanes | modules/bm_sim/src/checksums.cpp:37-63 | the words of 8, 4, 2 and 1 bytes together are the sum of all 16-bit words |
| Checksums.Fold | modules/bm_sim/src/checksums.cpp:64-72 | folding halves the width and keeps the sum |
| Checksums.OnesSumIsTotal | modules/bm_sim/src/checksums.cpp:32-74 | the naive ones'-complement sum of section 1 of RFC 1071 is the plain sum modulo 0xffff, and is 0 only for zeros |
| Checksums.Cksum16 | modules/bm_sim/src/checksums.cpp:32-74 | for every length the complement of the naive 16-bit ones'-complement sum |
| Checksums.OnesSumSwap | modules/bm_sim/src/calculations.cpp:110-154 | swapping the bytes of all words swaps the bytes of the sum (section 2(B) of RFC 1071) |
| Checksums.CalculationCksum16 | modules/bm_sim/src/calculations.cpp:110-154 | the same checksum in network byte order |
| Checksums.SumsToOnesIff | modules/bm_sim/src/checksums.cpp:161-174 | a buffer sums to 0xffff if and only if its field is the complement of the rest, or both are 0xffff |
| Ipv4Checksum.ImageUpdate | modules/bm_sim/src/checksums.cpp:153-158 | storing two bytes in the checksum field changes bytes 10 and 11 of the header and no other |
| Ipv4Checksum.HeaderCksum | modules/bm_sim/src/checksums.cpp:154-156 | the checksum of the deparsed header with its checksum bytes cleared, whatever the buffer held |
| Ipv4Checksum.Update | modules/bm_sim/src/checksums.cpp:148-159 | a valid header gets its checksum and nothing else changes; an invalid one is left alone |
| Ipv4Checksum.Verify | modules/bm_sim/src/checksums.cpp:161-174 | true for an invalid header and otherwise if and only if the stored field is the computed one |
| Ipv4Checksum.VerifiesIff | modules/bm_sim/src/checksums.cpp:161-174 | verification accepts exactly the headers that sum to 0xffff (section 3.1 of RFC 791) but for a stored 0xffff with a rest of 0xffff |
| Ipv4Checksum.UpdatedVerifies | modules/bm_sim/src/checksums.cpp:148-174 | an updated header verifies, sums to 0xffff and differs in the checksum field only |
| Md5.FIsSelect | modules/bm_sim/src/md5.c:51 | the rewritten F is the F of section 3.4 of RFC 1321 |
| Md5.GIsSelect | modules/bm_sim/src/md5.c:52 | the rewritten G is the G of section 3.4 of RFC 1321 |
| Md5.StepIsOneStep | modules/bm_sim/src/md5.c:60-63 | the STEP macro is one operation of section 3.4 with the registers turned by one place |
| Md5.STEP | modules/bm_sim/src/md5.c:60-63 | a call of the macro whose function, word, constant and shift are those of operation i goes on from i operations to i + 1; the 64 calls are listed as in the source |
| Md5.RotatesRound1 | modules/bm_sim/src/md5.c:60-63 | the shifts of the first round rotate to the left |
| Md5.RotatesRound2 | modules/bm_sim/src/md5.c:60-63 | so do those of the second round |
| Md5.RotatesRound3 | modules/bm_sim/src/md5.c:60-63 | so do those of the third round |
| Md5.RotatesRound4 | modules/bm_sim/src/md5.c:60-63 | so do those of the fourth round |
| Md5.WordBytes | modules/bm_sim/src/md5.c:66-88 | taking words from bytes and putting them back undo each other |
| Md5.InitBytes | modules/bm_sim/src/md5.c:202-205 | the first state, written as a digest, is the sixteen bytes that section 3.3 of RFC 1321 lists |
| Md5.Transform | modules/bm_sim/src/md5.c:105-186 | the 64 steps and the final additions are the block operation of section 3.4 |
| Md5.Md5Ctx.Body | modules/bm_sim/src/md5.c:93-198 | any whole number of blocks, one after the other |
| Md5.Md5Ctx.constructor | modules/bm_sim/src/md5.c:200-209 | the state for the empty message (section 3.3) |
| Md5.Md5Ctx.Update | modules/bm_sim/src/md5.c:211-243 | the state for the message so far followed by the data, whatever the sizes, with the count of bytes modulo 2^61 in `lo` and `hi` |
| Md5.CountsAdd | modules/bm_sim/src/md5.c:216-219 | the two counters and their carry count bytes modulo 2^61 |
| Md5.BlocksConcat | modules/bm_sim/src/md5.c:93-198 | blocks can be processed in any grouping |
| Md5.EndsInOneBlock | modules/bm_sim/src/md5.c:245-274 | a rest of less than 56 bytes ends in one block, which is the padding of sections 3.1 and 3.2 |
| Md5.EndsInTwoBlocks | modules/bm_sim/src/md5.c:255-274 | a longer rest ends in two |
| Md5.LengthBytes | modules/bm_sim/src/md5.c:264-272 | the eight bytes written are the length in bits modulo 2^64, low byte first |
| Md5.LowBytesValue | modules/bm_sim/src/md5.c:264-272 | the bytes of a number, low byte first, stand for that number |
| Md5.PaddedParts | modules/bm_sim/src/md5.c:245-274 | a padded message is the message, 80, zeros and eight bytes for its length in bits, in the fewest blocks that hold them (sections 3.1 and 3.2) |
| Md5.Md5Ctx.Final | modules/bm_sim/src/md5.c:245-295 | the digest of the whole message by sections 3.1 to 3.5, for every split into updates |
| Crc16.Reflect | modules/bm_sim/src/calculations.cpp:46-60 | the loop computes the reflection |
| Crc16.ReflectIsReverse | modules/bm_sim/src/calculations.cpp:46-60 | reflecting 8 or 16 bits reverses them |
| Crc16.TableIsDivision | modules/bm_sim/src/crc_tables.h:27-60 | each of the 256 constants is eight steps of division of its index |
| Crc16.StepLinear | modules/bm_sim/src/calculations.cpp:72-75 | a step of division is linear |
| Crc16.TableStep | modules/bm_sim/src/calculations.cpp:72-75 | one table step is eight steps of division, whatever the remainder |
| Crc16.FedByteIsSteps | modules/bm_sim/src/calculations.cpp:72-75 | feeding eight bits one by one is adding the byte on top and eight steps |
| Crc16.DividedByte | modules/bm_sim/src/calculations.cpp:72-75 | a reflected byte is its bits, lowest first |
| Crc16.DividedConcat | modules/bm_sim/src/calculations.cpp:72-75 | division goes on from a remainder |
| Crc16.Crc16 | modules/bm_sim/src/calculations.cpp:68-84 | for every buffer, the bit-serial remainder by 0x8005 of its bits, lowest first in each byte, reversed and with its bytes swapped |
| Crc16.BytesAreSwapped | modules/bm_sim/src/calculations.cpp:77-82 | the two bytes of the result change places |
| Meters.RefillTwice | modules/bm_sim/src/meters.cpp:83-88 | refilling at one time and again later is refilling later, so a visit that only looks loses nothing |
| Meters.CreditGrows | modules/bm_sim/src/meters.cpp:83-88 | credit never falls without a charge, and rises by no more than the rate makes |
| Meters.MadeIsWhole | modules/bm_sim/src/meters.cpp:83-84 | what a rate has made is rate times time, rounded down |
| Meters.CreditIs | modules/bm_sim/src/meters.cpp:83-88 | credit at a later time is the credit now and all that the rate makes until then, up to the burst; what the bucket holds counts in full |
| Meters.ExecutedCredit | modules/bm_sim/src/meters.cpp:82-98 | after a packet each rate's credit is what it was less its charge, also for rates that the `break` skipped |
| Meters.ColorIs | modules/bm_sim/src/meters.cpp:92-100 | the colour is that of the first rate that cannot pay, and 0 if all can |
| Meters.WindowIsBounded | modules/bm_sim/src/meters.cpp:65-101 | over any run, what a rate is charged is at most its credit at the start and what it makes until the end |
| Meters.AnyWindow | modules/bm_sim/src/meters.cpp:65-101 | in any window of any run a rate is charged at most its burst plus floor(rate * end) minus floor(rate * start) |
| Meters.CreditIsKept | modules/bm_sim/src/meters.cpp:65-101 | after any run a rate is worth at least what it would be without the run, less what it was charged |
| Meters.PaysWhenMade | modules/bm_sim/src/meters.cpp:82-98 | after any run a rate whose credit at the start, with what it made since and up to its burst, covers what it was charged and the next packet pays for that packet, if and only if the rates before it can; so a rate that made the size of a packet within its burst since it was last charged pays |
| Meters.ConfiguredIsFull | modules/bm_sim/include/bm_sim/meters.h:106-129 | a rate that was set has a full bucket at whatever time the first packet comes |
| Meters.RunOk | modules/bm_sim/src/meters.cpp:85-88 | the assertion about tokens never fails while time does not go back |
| Meters.FailsIff | modules/bm_sim/src/meters.cpp:70-85 | for a packet with any time, the assertion fails if and only if some rate was filled for a later time and all rates before it pay |
| Meters.Visit | modules/bm_sim/src/meters.cpp:83-97 | the assertion fails exactly for a rate that is ahead; otherwise the rate is refilled up to its burst and pays if it can |
| Meters.ChargeRates | modules/bm_sim/src/meters.cpp:82-100 | the loop with its `break` charges the rates in turn |
| Meters.Meter.Execute | modules/bm_sim/src/meters.cpp:65-101 | a configured meter does that with the packet's size or 1, for a packet whose time may be before the last; it never fails if it is not; a meter that is not configured does nothing; the order of the rates is kept |
| Meters.Meter.SetRates | modules/bm_sim/include/bm_sim/meters.h:106-129 | ascending rates are stored highest first with full buckets and their colours; other lists are refused with their code; a list of the wrong length changes nothing; otherwise exactly the rates up to the first descent are set, and the rates are not in charging order |
| Meters.PartlySetIff | modules/bm_sim/src/meters.cpp:38-52 | the first descent is unique, so what a failure leaves is determined; it changes nothing if and only if the rates had these values before, and never for rates in charging order |
| Meters.Meter.ResetRates | modules/bm_sim/src/meters.cpp:55-62 | the meter is unconfigured and its rates invalid |

## Left out

- JSON loading, the runtime server, messaging, device managers, loggers, command lines, the parser loop, ageing, multicast, counters and configuration swap: input, output and plumbing.
- The numbers inside `Data`: its arithmetic and its conversions are parameters of the expression model, and equality and order are those of the integers. Register arrays, fields and parameters are total functions, so an index out of range does not throw.
- Opcodes without a name in the opcode table, such as MOD, and operator names that are not in it.
- `Evaluator.Loop`: one loop body dispatches to three methods, one for each kind of op, where the source has one switch.
- Fields whose value is also kept as a number (`sync_value`) and variable-length fields (`extract_VL`), whose mask is computed with a machine-int shift.
- The side effects inside `assert` at `modules/bf_lpm_trie/src/bf_lpm_trie.c:260` and `:266`: the model is of a build in which assertions are compiled. Judy arrays are maps, and freed nodes are nodes that the trie no longer holds.
- LpmTrie.Trie.Insert: needs a trie whose structure is right but not exact counters, and says exactly when they stay exact; the other operations are stated for exact counters, since a match unit never inserts a prefix twice.
- MatchUnit.MatchUnitGeneric.AddEntry: for ternary tables the priority is less than the maximal integer, which marks free slots.
- Key widths above 64 bytes for LPM tables, which the trie refuses with an assertion. An LPM table has one LPM field, two being refused at `modules/bm_sim/src/P4Objects.cpp:721-733`, and no ternary field, which the assertions in `match_units.cpp` exclude; an LPM table with no LPM field at all is left out.
- `std::sort` in `MatchKeyBuilder::build` is an insertion sort; the order by kind and position has no ties, so the result is the same.
- Entry metadata: counters, meters, time stamps and time to live of entries; names of key fields; dumping.
- Resets of tables, units and learn lists.
- The sample builder, the modes NONE and CB and the stop of the learn list: a sample is any non-empty sequence of bytes, and a message is what the writer is given.
- Learning.LearnList.Ack: for a client that acknowledges samples of messages it received, each once. Others erase through a dangling iterator.
- Learning.LearnList.AckBuffer: for a client that acknowledged none of the buffer's samples one by one before, or whose buffer holds all that is left in the filter; otherwise the slow path erases elements that are gone.
- Clocks: time is a parameter and a timeout a step that may come. Condition variables: a waiting thread is counted and may try again at any time.
- Debugger.DebuggerNN.Receive: a client that is not attached sends only ATTACH; for a CONTINUE from any other client the source gives no promise. Unknown message types, encoding and sockets are left out. Storing the request's number and clearing the last reply are one step.
- Debugger.DebuggerNN.NotifyCtr: leaving a control requires one that was entered, since the source pops without a check.
- `IndirectTable` alone has the map of live handles for its match unit; `IndirectMatch` puts the two together. Members are numbered below 2^24 and running out of numbers is not modelled. The hash that chooses in a group is any choice of a member.
- `crc32` and `crcCCITT`: the first uses the 16-bit table and the second indexes with a signed byte. `xxh64` and `csum16` are not part of this model.
- `Md5.Transform`: the 64 macro calls are in eight methods, one for each half of a round.
- Md5.Md5Ctx.Update: the size is that of one call, below 2^64.
- Meters: rates are real numbers, not doubles, and counters of tokens do not overflow. The bounds on windows are for packets in the order of their times. What a failed assertion leaves behind is not stated: the process ends.
- Alignment and aliasing in `cksum16`, which reads bytes as words of a little-endian machine.
