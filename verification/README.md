# Colm runtime core: input queue and reverse code

A Dafny model of two parts of the runtime of Colm, a language for parsing
and transforming text with a backtracking parser.

**The input stream.** A stream is a doubly linked queue of run buffers.
Each buffer holds one of:
- up to 8192 bytes of text, with a read offset;
- a token tree;
- an ignored-token tree;
- a nested source stream.

The scanner peeks at the queue (`getData`) and consumes from it
(`consumeData`, `consumeTree`). It can give input back (`undoConsumeData`,
`undoConsumeTree`). Text, trees and whole streams are appended, and those
appends can be undone.

**The virtual machine's undo log and stack discipline.**
- While parsing, each instruction that changes state logs a reverse
  instruction in the parser's collect buffer.
- `makeReverseCode` packs the logged units into groups on the reverse-code
  stack. `popReverseCode` and `rcodeDownrefAll` walk that stack backward.
- `rcodeDownref` releases the trees the reverse code holds.

Around this, the model covers:
- the little-endian operand readers;
- the frame that CALL builds and RET takes down;
- the context PCR_CALL saves and PCR_RET / PCR_END_DECK restore;
- the stack footprint of user iterators;
- the comparison and integer instructions;
- the list and map instructions with their reverse instructions.

Everything is immutable and functional:
- queues and stacks are sequences;
- the undo log is a `seq<byte>`;
- lists and maps are `seq` and `map` values.

Trees, parser runs and other heap objects are plain numbers (their
addresses), with 0 as null. Reference counts are not modelled. The
functions that tree.c, list.c and map.c provide are either parameters or
abstract collections.

Files:
- `wrappers.dfy`: `Option` and `Result`.
- `bytes.dfy`: bytes, word sizes, little-endian decoding and the reading macros.
- `seqs.dfy`: small sequence facts.
- `runbuf.dfy`: run buffers, type tags, status codes and the stream record.
- `queue.dfy`: the linked queue.
- `input_views.dfy`: what a queue offers (items, readable bytes).
- `input_stream.dfy`: the stream operations.
- `opcodes.dfy`: the reverse opcodes and their operands.
- `reverse_code.dfy`: encoding, walking, grouping and popping reverse code.
- `collections.dfy`: the list and map instructions.
- `frames.dfy`: CALL/RET, PCR_CALL/PCR_RET/PCR_END_DECK, iterators and the exit check.
- `compare.dfy`: comparisons, logical operators and integer arithmetic.

## Model

| member | source | states |
|---|---|---|
| RunBufs.TypeCodeRoundTrip | colm/input.h:67-72 | each of the four buffer types has its own enumerator value, and decoding that value names the type again |
| RunBufs.TypeOfCode | colm/input.h:67-72 | exactly the values 0 to 3 name a buffer type, and the type named maps back to the value |
| RunBufs.NewRunBuf | colm/input.c:33-38 | a zero-filled buffer has tag 0, so it is an empty data buffer with offset 0 and no tree |
| RunBufs.StatusCodesDistinct | colm/input.h:34-40 | a check of the representation, not of behaviour: the six `INPUT_*` codes as defined are pairwise distinct |
| RunBufs.StatusCode | colm/input.h:34-40 | every status code lies in 1..6 |
| RunBufs.NewInputStream | colm/input.c:54-62 | a new stream has an empty queue of valid buffers and EOF unset |
| RunBufs.DataBuf | colm/input.h:74-82 | a data buffer built from at most 8192 bytes is valid and offers exactly those bytes |
| Queue.EmptyIffBothNull | colm/input.c:126-138 | a check of the sequence representation, not of behaviour: its head and tail pointers are null together, exactly on the empty queue |
| Queue.LinksConsistent | colm/input.h:74-82 | a check of the sequence representation, not of behaviour: the `prev` and `next` links it stands for are mutually inverse, and only the head lacks a predecessor and only the tail a successor |
| Queue.Append | colm/input.c:454-466 | the buffer becomes the tail; on an empty queue it is also the head; the old buffers stay in front in order |
| Queue.Prepend | colm/input.c:429-441 | the buffer becomes the head; on an empty queue it is also the tail; the old buffers follow in order |
| Queue.PopHead | colm/input.c:443-452 | the head is returned and the rest of the queue stays, so head plus rest is the old queue |
| Queue.PrependPopHead | colm/input.c:429-452 | prepending and then popping the head returns the buffer and the queue as it was |
| Queue.PopTailAsWritten | colm/input.c:468-477 | as written, pop-tail returns the tail buffer |
| Queue.PopTailAsWrittenEmpties | colm/input.c:468-477 | as written, pop-tail leaves the queue empty whatever its length |
| Queue.PopTailAsWrittenLosesBuffers | colm/input.c:468-477 | as written, popping the tail of a two-buffer queue loses the first buffer too |
| Queue.PopTail | colm/input.c:468-477 | the corrected pop-tail returns the tail, and the queue keeps all the other buffers in order |
| Queue.PopTailSingleton | colm/input.c:468-477 | on a one-buffer queue the written and corrected pop-tail agree, and the queue becomes empty |
| Queue.AppendPopTail | colm/input.c:454-477 | appending and then popping the (corrected) tail returns the buffer and the queue as it was |
| Queue.QueueOpsPreserveValid | colm/input.h:74-82 | append, prepend, pop-head and pop-tail keep every buffer within 8192 bytes with its offset inside it |
| InputStreams.GetData | colm/input.c:523-614 | copies at most `length` bytes; an empty queue gives EOF when the flag is set and EOD otherwise; a token head gives TREE and an ignore head IGNORE; EOD never comes with EOF set |
| InputStreams.GetDataFrom | colm/input.c:523-614 | the loop of `getData` as written copies at most `length` bytes when nested streams honour the length, and never reports EOD with EOF set; its skip behaviour is stated by InputStreams.GetDataShortLengthSkipsBuffer |
| InputStreams.GetDataNoSkip | colm/input.c:523-614 | without a skip, the bytes copied are a prefix of the readable bytes, and DATA is reported exactly when there are bytes before the first tree buffer |
| InputStreams.GetDataSkip | colm/input.c:523-614 | with a length covering a whole buffer, the copy is a prefix of the readable bytes after `skip`, and DATA is reported exactly when the skip stops short of the first tree buffer |
| InputStreams.GetDataAtTree | colm/input.c:523-614 | a queue whose head is not data offers no readable bytes, and the read copies nothing and reports no data |
| InputStreams.GetDataShortLengthSkipsBuffer | colm/input.c:560-572 | as written, the skip is counted against the bytes `length` lets a buffer offer: a 6-byte buffer with skip 3 and length 2 is passed over, and no data is reported |
| InputStreams.GetDataIntendedReadsPastSkip | colm/input.c:560-572 | the intended read of that buffer returns its fourth and fifth bytes |
| InputStreams.GetDataIntendedSkip | colm/input.c:523-586 | the intended read, for any length: without nested streams it copies bytes that follow the first `skip` readable ones, at least one when the length allows any, and reports DATA exactly when the skip stops short of the first tree buffer |
| InputStreams.GetDataFromIntended | colm/input.c:523-586 | the intended loop keeps the same two bounds of its own (at most `length` bytes, no EOD with EOF set); what it copies is stated by InputStreams.GetDataIntendedSkip |
| InputStreams.DataSlen | colm/input.c:640-650 | a consume takes from a data buffer the smaller of its unread bytes and the request |
| InputStreams.ConsumeData | colm/input.c:616-659 | consumes at most the request; what remains is a suffix of the queue whose head may have been read further but never past its end; the EOF flags are kept |
| InputStreams.ConsumeQueue | colm/input.c:616-659 | the loop of `consumeData` consumes no more than the request; the rest of its behaviour is stated by InputStreams.ConsumeDataContent, InputStreams.ConsumeStops and InputStreams.ConsumePasses |
| InputStreams.ConsumeRemains | colm/input.c:616-659 | the consume loop only pops drained head buffers and advances the read offset of the new head |
| InputStreams.ConsumeDataValid | colm/input.c:616-659 | consuming keeps every buffer valid |
| InputStreams.ConsumeDataContent | colm/input.c:616-659 | without nested streams, the count consumed is min(request, readable bytes), and the stream then offers what it did before minus that many items |
| InputStreams.UndoConsumeData | colm/input.c:661-677 | with a nested stream at the head, the stream is unchanged; otherwise a data buffer holding exactly the bytes is put in front of the old queue and their count returned; the queue stays valid exactly when there are at most 8192 bytes, since more overflow the buffer |
| InputStreams.UndoConsumeDataContent | colm/input.c:661-677 | after un-consuming, the given bytes are the next bytes and items the stream offers |
| InputStreams.ConsumeThenUndo | colm/input.c:616-677 | consuming bytes and un-consuming the same bytes leaves the stream offering what it offered before |
| InputStreams.UndoThenConsume | colm/input.c:616-677 | un-consuming bytes and then consuming as many returns exactly that count and the stream's previous offer |
| InputStreams.DropDrained | colm/input.c:681-684 | only drained data buffers at the head are freed, leaving a suffix whose head is not a drained data buffer |
| InputStreams.DropDrainedContent | colm/input.c:681-684 | freeing drained head buffers does not change what the stream offers |
| InputStreams.ConsumeTree | colm/input.c:679-696 | the result queue is a suffix of the old one and the EOF flags are kept |
| InputStreams.ConsumeTreeContent | colm/input.c:679-696 | a tree is returned exactly when the stream offers a token or ignored token next; then the stream offers the rest, otherwise what it offered |
| InputStreams.UndoConsumeTree | colm/input.c:698-707 | the tree, as a token or an ignored token, becomes the first item the stream offers |
| InputStreams.UndoConsumeTreeThenConsume | colm/input.c:679-707 | putting a tree back and consuming a tree returns that tree and the stream exactly as it was |
| InputStreams.ConsumeTreeThenUndo | colm/input.c:679-707 | consuming a tree and putting it back, with the same ignore flag, restores what the stream offers |
| InputStreams.PrependData | colm/input.c:732-758 | with a nested stream at the head, the stream is unchanged; otherwise one buffer is put in front and its bytes come first among the readable bytes |
| InputStreams.Chunks | colm/input.c:787-803 | the buffers for a text are valid data buffers from offset 0; all but the last are full; there are none exactly when the text is empty; their bytes, in order, are the text |
| InputStreams.AppendData | colm/input.c:787-803 | the stream gains the chunks of the first `len` bytes at its back; nothing is added when `len` is at most 0 |
| InputStreams.RevTrimBytes | colm/input.c:479-497 | the reverse read with the corrected pop-tail takes exactly `n` bytes off the back and keeps the other bytes in order |
| InputStreams.RevTrim | colm/input.c:479-497 | the corrected reverse read never lengthens the queue; the bytes it takes are stated by InputStreams.RevTrimBytes |
| InputStreams.RevTrimValid | colm/input.c:479-497 | the reverse read with the corrected pop-tail keeps every buffer valid |
| InputStreams.UndoAppendData | colm/input.c:805-823 | with the corrected pop-tail: with a data tail, exactly `length` bytes come off the back and no tree is returned; with a tree tail, the tail is popped and its tree returned |
| InputStreams.AppendDataThenUndo | colm/input.c:787-823 | with the corrected pop-tail, appending a non-empty text and undoing the append of as many bytes restores the stream exactly |
| InputStreams.UndoEmptyAppendPopsTree | colm/input.c:805-823 | with the corrected pop-tail, undoing an append of 0 bytes when the tail holds a tree pops that tree and keeps the buffers before it |
| InputStreams.GetDataRev2AsWritten | colm/input.c:468-497 | as written, one reverse read returns the smaller of the tail's bytes and the request; it empties the queue exactly when the request covers the tail, and otherwise shortens the tail as the corrected trim does |
| InputStreams.RevTrimAsWritten | colm/input.c:805-817 | the as-written loop with nothing to take leaves the queue, and with bytes to take from an empty queue never ends |
| InputStreams.RevTrimAsWrittenVsRevTrim | colm/input.c:468-497 | the as-written loop agrees with the corrected trim while the bytes come from the tail alone; a trim of exactly the tail empties the queue where the corrected one keeps the front; a longer trim never ends |
| InputStreams.UndoAppendDataAsWritten | colm/input.c:805-823 | as written, a tree tail is popped together with every other buffer and its tree returned; with a data tail the undo ends exactly when the as-written loop does; the EOF flags are kept |
| InputStreams.ChunksLast | colm/input.c:787-803 | the last buffer of a text of at most 8192 bytes holds the whole text, and that of a longer text holds less than all of it |
| InputStreams.AppendDataThenUndoAsWritten | colm/input.c:787-823 | as written, undoing an append of at most 8192 bytes empties the queue, losing every earlier buffer, and undoing a longer one never ends; a stream that held buffers is never restored |
| InputStreams.UndoEmptyAppendPopsTreeAsWritten | colm/input.c:805-823 | as written, undoing an append of 0 bytes onto a tree pops the tree and every buffer before it |
| InputStreams.AppendTree | colm/input.c:825-834 | the queue gains one buffer at the back, and the stream then offers the token last |
| InputStreams.AppendStream | colm/input.c:836-845 | the queue gains one buffer at the back, and the stream then offers the nested stream last |
| InputStreams.UndoAppendStream | colm/input.c:847-853 | with the corrected pop-tail, the tail buffer is detached and its tree returned, the other buffers kept in order |
| InputStreams.AppendStreamThenUndo | colm/input.c:836-853 | with the corrected pop-tail, appending a stream and undoing it returns the same tree and the stream as it was |
| InputStreams.UndoAppendStreamAsWritten | colm/input.c:847-853 | as written, the tail's tree is returned and the queue is left with no buffers |
| InputStreams.AppendStreamThenUndoAsWritten | colm/input.c:836-853 | as written, appending a stream and undoing it returns the tree but loses every earlier buffer, so a stream that held buffers is not restored |
| InputStreams.AppendsKeepValid | colm/input.c:825-853 | the tree, stream and undo appends keep every buffer valid |
| InputStreams.SetEof | colm/input.c:506-510 | sets the stream's own flag and changes nothing else |
| InputStreams.UnsetEof | colm/input.c:512-521 | with a nested stream at the head, only that stream's flag is cleared; otherwise the stream's own flag is cleared |
| InputStreams.EofReadsEof | colm/input.c:506-535 | once EOF is set an exhausted queue reads as EOF, and after it is unset as EOD |
| Bytes.ReadByte | colm/bytecode.c:54-57 | `read_byte` reads one unsigned byte and advances one position |
| Bytes.ReadHalfIsLE | colm/bytecode.c:133-136 | `read_half` is `b0 \| b1 << 8`, the little-endian value of two bytes, and advances two positions |
| Bytes.ReadWordIsLE | colm/bytecode.c:66-84 | `read_word` is the little-endian value of the word's bytes (byte i contributes `b_i << 8i`), below 256^w |
| Bytes.ReadWordPIsLE | colm/bytecode.c:58-65 | `read_word_p` is the little-endian value of the four bytes at the position |
| Bytes.DecodeEncodeLE | colm/bytecode.c:66-84 | little-endian encoding a value that fits and decoding it gives the value back |
| Bytes.EncodeDecodeLE | colm/bytecode.c:66-84 | decoding bytes and re-encoding the value in as many bytes gives the bytes back |
| Bytes.DecodeEncodeLEMod | colm/bytecode.c:66-84 | decoding the n-byte encoding of any value gives the value modulo 256^n, so storing a word truncates it |
| Bytes.ReadWordOfEncode | colm/bytecode.c:66-84 | reading back a stored word gives the value truncated to the word size |
| Bytes.ReadWordPOfEncode | colm/bytecode.c:58-65 | the four-byte reader reads a stored word correctly whenever its value fits in 32 bits |
| Bytes.ReadHalf | colm/bytecode.c:133-136 | no contract of its own; stated by Bytes.ReadHalfIsLE |
| Bytes.ReadWord | colm/bytecode.c:66-84 | no contract of its own; stated by Bytes.ReadWordIsLE |
| Bytes.ReadWordP | colm/bytecode.c:58-65 | the value read is the little-endian value of the four bytes at the position |
| Opcodes.Shape | colm/bytecode.c:543-797 | a reverse instruction carries at most three operands, and PCR_RET, PCR_END_DECK and STOP carry none |
| Opcodes.IsTerminator | colm/bytecode.c:600-607 | no contract of its own; that a walk starting on one releases nothing is stated by ReverseCode.WalkAtTerminator |
| ReverseCode.ReadOperandIsReader | colm/bytecode.c:54-136 | each operand kind is read by its macro: a byte, a half, or a word/tree |
| ReverseCode.ReadOperandOfEncode | colm/bytecode.c:54-136 | an operand stored little-endian is read back as the value stored |
| ReverseCode.ReadOperandsOfEncode | colm/bytecode.c:543-797 | operands stored one after another are read back in order, and reading ends just after them |
| ReverseCode.ReadBack | colm/bytecode.c:543-797 | an encoded reverse instruction starts with its opcode and reads back as the operands it was written with |
| ReverseCode.Step | colm/bytecode.c:543-797 | one pass of the switch always moves forward and never past the end of the code |
| ReverseCode.StepOfEncoded | colm/bytecode.c:543-797 | a step over a stored instruction releases what its operands hold and moves just past them |
| ReverseCode.WalkAtTerminator | colm/bytecode.c:600-607 | a walk that starts on PCR_RET, PCR_END_DECK or STOP releases nothing |
| ReverseCode.WalkEncoded | colm/bytecode.c:543-797 | walking a stored run of instructions ended by a terminator succeeds and releases exactly what the operands hold, in order |
| ReverseCode.Walk | colm/bytecode.c:543-797 | a successful `rcodeDownref` walk ends past its start and within the code; what it releases is stated by ReverseCode.WalkEncoded and ReverseCode.WalkAtTerminator |
| ReverseCode.PopReverseCode | colm/bytecode.c:860-882 | on success, the start of the popped group leaves room for the length word below the top |
| ReverseCode.PopFrame | colm/bytecode.c:860-882 | popping a group pushed with its length word gives back the height of the stack below it |
| ReverseCode.GroupOnTop | colm/bytecode.c:523-541 | a pushed group is found at the top and walked to its terminator, and the stack below is unchanged |
| ReverseCode.DownrefAllStep | colm/bytecode.c:523-541 | one round of `rcodeDownrefAll` gives the top group's releases, then those of the stack below |
| ReverseCode.DownrefAll | colm/bytecode.c:523-541 | no contract of its own; stated by ReverseCode.DownrefAllStep, ReverseCode.DownrefAllPush and ReverseCode.DownrefAllStack |
| ReverseCode.DownrefAllPush | colm/bytecode.c:523-541 | undoing a stack with one more group releases that group's trees first |
| ReverseCode.DownrefAllStack | colm/bytecode.c:523-541 | undoing a whole stack of groups ends at height 0, releasing every group's operands, the newest group first |
| ReverseCode.Flush | colm/bytecode.c:3054-3070 | closing a unit appends one byte holding its length modulo 256 |
| ReverseCode.RegroupStep | colm/bytecode.c:839-847 | the copy loop reads the newest unit back off the end of the collect buffer first |
| ReverseCode.RegroupCollect | colm/bytecode.c:839-847 | the copy loop turns the logged units into their code, newest unit first, without the length bytes |
| ReverseCode.Regroup | colm/bytecode.c:839-847 | regrouping never lengthens the buffer, and a non-empty buffer loses at least its length bytes; what it produces is stated by ReverseCode.RegroupStep and ReverseCode.RegroupCollect |
| ReverseCode.FlushParts | colm/bytecode.c:839-847 | a flushed unit sits just before its length byte, after what was collected before it |
| ReverseCode.RegroupLast | colm/bytecode.c:839-847 | one round of the copy loop reads the unit named by the last length byte and puts it before the rest |
| ReverseCode.CollectEmpty | colm/bytecode.c:822-858 | the collect buffer is empty exactly when no unit was logged |
| ReverseCode.MakeReverseCode | colm/bytecode.c:822-858 | a group is made exactly when the collect buffer is not empty; the old stack is a prefix of the new one; then the collect buffer is emptied; with nothing collected nothing changes |
| ReverseCode.MakeOfUnits | colm/bytecode.c:822-858 | with units collected, END_DECK with length word 1 is pushed, then the units followed by PCR_RET with a word giving their length |
| ReverseCode.MakeOnStack | colm/bytecode.c:822-858 | on a stack of groups, the result is the stack with the END_DECK group and the group of the units (newest first, ended by PCR_RET) pushed, and an empty collect buffer |
| ReverseCode.PushedValid | colm/bytecode.c:822-858 | the pushed groups can be walked when the units are well formed and under 2^32 bytes |
| ReverseCode.UndoPushed | colm/bytecode.c:822-858 | undoing the pushed groups releases the units' trees; the END_DECK group holds none |
| ReverseCode.DownrefAllAfterMake | colm/bytecode.c:523-858 | undoing the stack `makeReverseCode` leaves releases the new units newest first, then the older groups' releases |
| ReverseCode.PopAfterMake | colm/bytecode.c:822-882 | popping right after `makeReverseCode` returns the start of the units' group, just above the END_DECK group |
| Collections.ListAppendWV | colm/bytecode.c:3054-3071 | the value is appended at the end of the list, which is otherwise unchanged |
| Collections.ListAppendBkt | colm/bytecode.c:3086-3095 | fails exactly on an empty list; otherwise it removes and returns the last element |
| Collections.ListRemoveEndWV | colm/bytecode.c:3106-3124 | fails exactly on an empty list; otherwise it pushes the last element and the rest is the list without it |
| Collections.ListRemoveEndBkt | colm/bytecode.c:3125-3136 | the logged tree is appended at the end |
| Collections.ListAppendUndo | colm/bytecode.c:3054-3095 | LIST_APPEND_BKT after LIST_APPEND_WV gives back the list and releases the appended value |
| Collections.ListRemoveEndUndo | colm/bytecode.c:3106-3136 | LIST_REMOVE_END_BKT with the logged tree after LIST_REMOVE_END_WV gives back the list |
| Collections.GetListMemWV | colm/bytecode.c:3165-3183 | the member of the field is pushed, GET_LIST_MEM_BKT is logged with the field, and the members do not change |
| Collections.GetListMemBkt | colm/bytecode.c:3184-3197 | the backward read gives the member of the field, null if unset |
| Collections.GetListMemUndo | colm/bytecode.c:3165-3197 | the backward read pushes the member the forward read pushed, and the members are unchanged |
| Collections.SetListMemWV | colm/bytecode.c:3212-3232 | the field takes the value, no other member changes, and the field and the replaced member are logged |
| Collections.SetListMemBkt | colm/bytecode.c:3233-3246 | the field takes the logged tree, the member that was there is released, and no other member changes |
| Collections.SetListMemUndo | colm/bytecode.c:3212-3246 | SET_LIST_MEM_BKT with the logged operands restores every member and releases the value that was stored |
| Collections.MapInsertWV | colm/bytecode.c:3248-3279 | inserts only when the key is absent, pushes whether it did, and logs that flag and the key |
| Collections.MapInsertBkt | colm/bytecode.c:3300-3318 | removes the key exactly when the logged flag is set, leaving the other keys alone |
| Collections.MapInsertUndo | colm/bytecode.c:3248-3318 | MAP_INSERT_BKT with the logged operands gives back the map, whether the insert happened or not |
| Collections.MapStoreWV | colm/bytecode.c:3338-3366 | stores the element, pushes whether the key was new, and logs the key and the replaced value |
| Collections.MapStoreBkt | colm/bytecode.c:3367-3384 | a null logged value removes the key; otherwise the value is stored back; other keys are untouched |
| Collections.MapStoreUndo | colm/bytecode.c:3338-3384 | on a map without null values, MAP_STORE_BKT with the logged operands gives back the map |
| Collections.MapRemoveWV | colm/bytecode.c:3399-3419 | removes the key, pushes its value (null if absent), and logs the removed pair or two nulls |
| Collections.MapRemoveBkt | colm/bytecode.c:3420-3436 | fails exactly when one of key and value is null and the other is not; otherwise it puts the pair back, or changes nothing for two nulls |
| Collections.MapRemoveUndo | colm/bytecode.c:3399-3436 | on a map without null values, MAP_REMOVE_BKT with the logged operands gives back the map |
| Collections.MapOpsKeepValid | colm/bytecode.c:3248-3419 | the map instructions keep a map free of null keys and values |
| Collections.ListLoggedWellFormed | colm/bytecode.c:3054-3246 | the reverse instructions the list instructions log are well-formed reverse code |
| Collections.MapLoggedWellFormed | colm/bytecode.c:3248-3419 | the reverse instructions the map instructions log are well-formed reverse code |
| Collections.ListLoggedLengths | colm/bytecode.c:3054-3246 | each reverse instruction a list instruction logs is encoded in exactly the bytes that instruction adds to `rcodeUnitLen` |
| Collections.MapLoggedLengths | colm/bytecode.c:3248-3419 | each reverse instruction a map instruction logs is encoded in exactly the bytes that instruction adds to `rcodeUnitLen` |
| Frames.Call | colm/bytecode.c:3485-3518 | CALL pushes the return slot, the return address, the frame pointer and the frame id; it points the frame pointer at the new top and jumps to the WV or WC code |
| Frames.Ret | colm/bytecode.c:3609-3628 | RET succeeds exactly when the stack holds the frame, the four call words and the arguments, and shrinks the stack by frame + 3 + arguments |
| Frames.CallRet | colm/bytecode.c:3485-3628 | after a CALL, RET replaces the arguments by the return value and restores the caller's frame pointer, frame id and return address, whatever the callee left |
| Frames.CallRetDepth | colm/bytecode.c:3732-3735 | a corollary of Frames.CallRet, not a separate property: a call from the root with one argument returns one word above the root, so the exit check holds once the result is popped |
| Frames.InitExecution | colm/bytecode.c:511-521 | a fresh execution record takes the given accumulator and the runs, stream and frame id it leads to, with no frame and no pending unit |
| Frames.PcrCall | colm/bytecode.c:2254-2281 | PCR_CALL needs the 3-word parse triple; it saves the 8 fields and a return address two opcodes and a half back, then runs the code of the parser run that the triple's accumulator word leads to, in a fresh context for that accumulator |
| Frames.PcrRet | colm/bytecode.c:2282-2301 | PCR_RET needs 9 saved words, and the loop is left exactly when the saved return address is null |
| Frames.PcrEndDeck | colm/bytecode.c:2302-2322 | PCR_END_DECK takes the current parser run off deck, then acts as PCR_RET |
| Frames.RestoreSaved | colm/bytecode.c:2282-2301 | popping a saved record gives back the stack below, the saved fields and the return address |
| Frames.Restore | colm/bytecode.c:2282-2301 | popping a saved record succeeds exactly when the stack holds the nine saved words; what it gives back is stated by Frames.RestoreSaved |
| Frames.PcrCallRet | colm/bytecode.c:2254-2301 | PCR_RET after PCR_CALL restores the caller's fields and stack and returns to the calling parse instruction, exiting exactly when that address is null |
| Frames.PcrCallEndDeck | colm/bytecode.c:2254-2322 | the same for PCR_END_DECK, which also takes the parser run off deck |
| Frames.UiterInit | colm/bytecode.c:451-463 | an initialised iterator has no kid, records the stack above its root, and resumes at the WV or WC code |
| Frames.UserIterDestroy | colm/bytecode.c:474-490 | succeeds exactly when the recorded size is the current depth above the root (and the root is in range), and then cuts the stack below the record and arguments |
| Frames.IterRoundTrip | colm/bytecode.c:451-490 | destroying an initialised iterator at the depth it recorded restores the stack from before its arguments; at any other depth it is refused |
| Compare.Test | colm/bytecode.c:1711-1787 | pops two operands and pushes true exactly when `cmpTree(o1, o2)` is 0, non-zero, negative, at most 0, positive or at least 0; fails exactly on a stack of under two |
| Compare.TestComplements | colm/bytecode.c:1711-1787 | NOT_EQL, GRTR_EQL and LESS_EQL push the negation of EQL, LESS and GRTR on the same operands |
| Compare.TestTrichotomy | colm/bytecode.c:1711-1787 | exactly one of LESS, EQL and GRTR pushes true; each "or equal" test is the strict one or EQL |
| Compare.TestAsWritten | colm/bytecode.c:1711-1787 | every test except TST_LESS_EQL behaves as intended |
| Compare.LessEqlFallsThrough | colm/bytecode.c:1750-1774 | as written, TST_LESS_EQL underflows on a two-word stack; on a deeper one it consumes three words and pushes a comparison of the word below with its own result |
| Compare.Logical | colm/bytecode.c:1788-1817 | AND pushes true exactly when neither operand tests false, OR when either does not |
| Compare.Not | colm/bytecode.c:1818-1829 | NOT pushes true exactly when the operand tests false |
| Compare.NotAnd | colm/bytecode.c:1788-1829 | NOT of AND is the OR of the NOTs, for a truth test that treats the false and true trees as such |
| Compare.CDivTruncates | colm/bytecode.c:1856-1868 | C division leaves a remainder with the magnitude of the Euclidean remainder of the magnitudes and the sign of the dividend |
| Compare.CDivSigns | colm/bytecode.c:1856-1868 | negating either operand negates the quotient, and on non-negative operands it agrees with Euclidean division |
| Compare.CDiv | colm/bytecode.c:1856-1868 | the magnitude of the C quotient is the quotient of the magnitudes, and a non-zero quotient is positive exactly when the operands have the same sign |
| Compare.Compute | colm/bytecode.c:1830-1880 | only division by zero has no result |
| Compare.ComputeInverses | colm/bytecode.c:1830-1880 | SUB undoes ADD, and DIV undoes MULT by a non-zero factor |
| Compare.Arith | colm/bytecode.c:1830-1880 | pops two integer operands and pushes the result; fails on under two operands, on a non-integer operand, and on division by zero |
| Compare.ArithAddSub | colm/bytecode.c:1830-1880 | on the stack, ADD_INT then SUB_INT of the same integer gives back the first operand |

## Left out

- I/O and the backing sources. Reading files and descriptors (colm/input.c:390-423) is not modelled. Neither is the `SourceStream` function table, which repeats the queue logic around those reads (colm/input.c:168-384). A nested source stream is a `Nested` value, a set of functions giving its answers. Only the outer queue's behaviour is proved.
- `undoPrependData`, `consumeLangEl` and `undoConsumeLangEl` (colm/input.c:709-785) are not modelled. They belong to pattern and replacement streams.
- The reverse readers read `queue->offset` for the tail buffer (colm/input.c:259 and colm/input.c:485). That only affects which bytes are copied, and `undoAppendData` discards those bytes. So InputStreams.RevTrim and InputStreams.GetDataRev2AsWritten model the length bookkeeping, not the bytes copied.
- InputStreams.ConsumeData: the request is a `nat`. In C it is an `int`; a negative one makes the data case move the read offset backwards and return a negative count (colm/input.c:643-648). Negative requests are not modelled.
- InputStreams.UndoAppendData: requires a non-empty queue, as do InputStreams.UndoAppendDataAsWritten, InputStreams.UndoAppendStream and InputStreams.UndoAppendStreamAsWritten. On an empty queue C dereferences a null `queueTail` (colm/input.c:812 and colm/input.c:850), which is undefined, so that case is not modelled.
- InputStreams.GetData: the skip and length are `nat`, as is the length of InputStreams.UndoAppendData, and InputStreams.UndoConsumeData takes its length from its byte sequence. In C these are `int`, and negative values are not modelled.
- InputStreams.UnsetEof: the flag it clears on a nested stream is bookkeeping only. A nested stream's reads come from the `Nested` functions, which do not see that flag.
- Line, column and byte counters, and the `later` and `flush` flags, are not modelled.
- InputStreams.GetDataSkip: stated only for queues without nested streams and for a length covering a whole buffer. A nested stream answers through the `Nested` functions, and only the length bound is proved for it.
- InputStreams.ConsumeDataContent: stated only for queues without nested streams. For a nested stream only the bound on the count consumed is proved.
- Heap and reference counts. `treeUpref` and `treeDownref`, splitting, `downrefLocalTrees` in RET, and the freeing of run buffers are left out. A release in reverse code is recorded as a `Release`, and its effect is not modelled.
- Opcode values. `bytecode.h` is not part of this model, so the opcodes are stand-in bytes 1 to 34. Nothing proved depends on their values.
- The other cases of `rcodeDownref`: each is modelled only by the operands it reads and releases. The parse and stream cases, and `PCR_CALL` inside reverse code, are not modelled beyond that.
- ReverseCode.ValidUnits: units of 256 bytes or more are not modelled. The length byte keeps only the low 8 bits, so the copy loop would misread such a unit.
- ReverseCode.ValidGroup: groups of 2^32 bytes or more are not modelled. `read_word_p` reads four bytes, so such a length is truncated on 64-bit targets.
- Out-of-range reads: a truncated code buffer or a length word that points before the stack start is undefined in C. The model returns `Err` for these (`Truncated`, `BadFrame`, `StackUnderflow`).
- ReverseCode.WalkEncoded: states the releases of a walk but not the position where it stops.
- The list and map primitives of list.c and map.c. A list is a `seq` and a map is a `map`. A map may hold a value only under a non-null key, and only a non-null value.
- YIELD, UITER_CREATE and UITER_ADVANCE: only the stack footprint of `uiterInit` and `userIterDestroy` is modelled.
- `cmpTree` and `testFalse` (tree.c) are parameters.
- Compare.Arith: machine `long` overflow is not modelled. ADD, SUB and MULT are unbounded integer operations. Division by zero, undefined in C, returns `Err`.
- Stack underflow and a non-integer operand are undefined in C. They return `Err` in the model.
- ragel/cdfgoto.cpp: code emission for the Ragel generator, outside this core.

## Findings

| source | as written | input that shows it | evidently intended | confidence | as-written member | corrected member |
|---|---|---|---|---|---|---|
| colm/input.c:468-477 (and colm/input.c:115-124) | the new tail is read from the head's `prev` (`is->queue->prev`), which is always null, so the queue is emptied | queue `[a, b]`: pop-tail returns `b` and leaves `[]`, losing `a` | the new tail is the old tail's `prev`, leaving `[a]` | high; not executed | Queue.PopTailAsWrittenLosesBuffers | Queue.AppendPopTail |
| colm/input.c:479-497 and colm/input.c:805-817 | the reverse read pops a used-up tail with the pop-tail above, emptying the queue | `[a]` then `appendData("xy")` then `undoAppendData(2)` leaves `[]`; undoing a 10000-byte append empties the queue at the first pop and then reads nothing forever | only the tail is popped, and the stream is restored | high; not executed | InputStreams.AppendDataThenUndoAsWritten | InputStreams.AppendDataThenUndo |
| colm/input.c:818 | undoing an append onto a tree pops the tree with the pop-tail above | `[a, tree]` undone with length 0 leaves `[]` | `[a]` is left | high; not executed | InputStreams.UndoEmptyAppendPopsTreeAsWritten | InputStreams.UndoEmptyAppendPopsTree |
| colm/input.c:847-853 | `undoAppendStream` pops with the pop-tail above | `[a]` then `appendStream(s)` then `undoAppendStream` leaves `[]` | `[a]` is left | high; not executed | InputStreams.AppendStreamThenUndoAsWritten | InputStreams.AppendStreamThenUndo |
| colm/input.c:562-568 | the skip is compared with and reduced by the length-capped `slen`, so a buffer the skip does not cover can be passed over | one 6-byte buffer, skip 3, length 2: no data is reported instead of bytes 4 and 5 | pass a buffer only when the skip covers all its bytes, then copy up to `length` bytes past the skip | medium; not executed | InputStreams.GetDataShortLengthSkipsBuffer | InputStreams.GetDataIntendedSkip |
| colm/bytecode.c:1750-1761 | TST_LESS_EQL has no `break` and falls through into TST_GRTR, which pops its result and the word below | stack `[x, y]`: the fall-through pops a third word from a one-word stack; on `[z, x, y]` it leaves `[cmp(z, r) > 0]` | push `cmpTree(x, y) <= 0` and stop, leaving `[z, r]` | high; not executed | Compare.LessEqlFallsThrough | Compare.TestTrichotomy |
