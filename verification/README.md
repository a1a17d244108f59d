# Verified models of four terminal components

Dafny models of the basE91 streaming codec, the binary tree with its zipper cursor, the rolling
configuration backups and the cell width index, with proofs of what each promises. Run
`dafny verify dfyconfig.toml` in this directory.

**basE91** (`Bits`, `Base91Tables`, `Base91Spec`, `Base91Streams`, `Base91Codec`,
`Base91Theorems`, `Base91Lengths`, `Base91Flush`, `Base91Sample`). `Base91Spec` is a reference with
no accumulator: read the input as one bit stream, low bit first, cut it greedily into 13-bit blocks
when their value exceeds 88 and 14-bit blocks otherwise, write each block as two base-91 digits,
then the tail. `Base91Codec` is the code: encoder and decoder objects with an accumulator, a bit
count and, in the decoder, a waiting digit, built from shift, or and mask on bounded words. Each
method is proved against the reference, for every input, valid or not, and every store proves that
the word does not overflow and the count does not go below zero. `Base91Theorems` has the lock step
between the two machines, the round trip and the exact set of texts that an encoder produces;
`Base91Lengths` the exact range of the encoded length at every input length; `Base91Flush` exactly
when a flush in the middle of a stream leaves no trace. `Base91Tables` fixes the alphabet without
naming the tables, and `Base91Sample` has the known answer of the source.

**Binary tree** (`Bintree`, `BintreeTraversal`, `BintreePostorder`, `BintreeEdits`). Trees and
cursors are owned values that each operation consumes and returns, so they are datatypes; the
operations with a loop are methods. The reference for the traversals is a sequence of cursors: all
positions of the tree in order, by recursion on the subtree and on the path. The contract of
`PreorderNext` holds for every cursor, proper tree or not. `BintreeEdits` gives all commands one
step function and proves what a whole run of commands does.

**Backups** (`Backup`, `BackupRuns`). The file system is an object with one method a system call;
any call may fail, and a ghost history records every state the files pass through. Names are the
real ones, with a decimal suffix. `Backup` says which states a backup passes through and can stop in;
`BackupRuns` what follows for retries, for any mix of failures and successes, and for whole runs.

**Cell widths** (`CellWidth`). The flattened map agrees with a last-match-wins lookup.

Where the source's comments and its code disagree, the code is followed:

- `postorder_next` does not step in postorder, as its comment has it, but in the reverse of
  postorder (`PostorderWalk`, `ReverseOfPostorder`). From any position, a step of the code is the
  true next step only at the top of a tree that is not a node, where there is none
  (`StepIsPostorderOnlyForLeaf`).
- The header of the codec says that the overhead is at most 23%. All inputs of n bytes stay
  within 23% exactly when n is 0 (`OverheadOf23Percent`), and no added constant repairs this
  (`OverheadBeyondConstant`), for the true ratio is 3/13, a little more. That ratio is kept by all
  inputs of n bytes exactly when n is a multiple of 13 (`OverheadOfThreeThirteenths`). The exact
  range at every n is between `ShortestLength(n)` and `LongestLength(n)` (`EncodedLength`), and
  both ends are attained (`ShortestEncoding`, `LongestEncoding`).

Two more results are about things that the source does not promise. A failed backup loses nothing
that it should keep, but a retry need not end where one success would have ended; for each state
that a failure can leave, `RetryAfterShifts`, `RetryAfterRemoval` and `RetryAfterPartialCopy` say
exactly when it does, and `RetryCanLoseBackup` has an input on which a backup is lost. And flushing
an encoder in the middle of a stream can show in what is decoded (`FlushedZerosDecodeToThree`);
`FlushIsSeamless` says exactly when it does not.

## Model

| member | source | states |
|---|---|---|
| Base91Tables.DecodeOfEncode | base91/src/lib.rs:38-58 | Looking a character up in the inverse table gives the digit it was written for. |
| Base91Tables.EncodeOfDecode | base91/src/lib.rs:40-58 | Every byte is either marked as not in the alphabet or is the character of its entry. |
| Base91Tables.AlphabetInOrder | base91/src/lib.rs:38 | The digits are written as A to Z, a to z, 0 to 9, punctuation in the order of its codes, and a double quote last. |
| Base91Spec.AlphabeticIsPrintable | base91/src/lib.rs:40-58 | The alphabet is exactly the printable ASCII characters without space, apostrophe, hyphen and backslash; with the order above this fixes both tables. |
| Base91Sample.KnownAnswer | base91/src/lib.rs:235-238 | "hello" and a line feed encode to "TPwJh>UA", and that decodes to it. |
| Base91Spec.BlockBound | base91/src/lib.rs:95-109 | Whatever the bits, a block is at most 8280 = 91 * 91 - 1, so both of its digits index the table. |
| Base91Spec.LowBlockBits | base91/src/lib.rs:188 | The masked value that decides the width is the 13 low bits of the block. |
| Base91Codec.ShiftIn | base91/src/lib.rs:91-92 | Or-ing a shifted value into the accumulator appends its bits to the pending ones; nothing is lost at the top of the 64-bit word. |
| Base91Codec.ShiftOut | base91/src/lib.rs:95-106 | Masking gives the front of the pending bits and shifting right leaves exactly the others. |
| Base91Codec.TakeBlock | base91/src/lib.rs:95-109 | From 14 to 21 pending bits, the masks, the comparison with 88 and the shifts take exactly the greedy block and its two characters. |
| Base91Codec.LastDigits | base91/src/lib.rs:118-127 | The characters for up to 13 remaining bits: none, one for at most 7 bits with value up to 90, else two. |
| Base91Codec.Base91Encoder.constructor | base91/src/lib.rs:73-79 | A new encoder holds no bits and has written nothing. |
| Base91Codec.Base91Encoder.EmitBlock | base91/src/lib.rs:94-111 | Writes the one block that is complete and is left with at most 13 pending bits. |
| Base91Codec.Base91Encoder.WriteByte | base91/src/lib.rs:90-112 | One byte advances the written text and the pending bits as the reference does for a one-byte write. |
| Base91Codec.Base91Encoder.Write | base91/src/lib.rs:89-115 | Writes the characters of all greedy blocks of pending bits and input, keeps the remaining bits, and reports the whole length. |
| Base91Codec.Base91Encoder.Flush | base91/src/lib.rs:117-131 | Writes the tail characters and clears the pending bits. |
| Base91Codec.Base91Encoder.Drop | base91/src/lib.rs:82-86 | Dropping is a flush; by `EncoderChunking` it writes nothing after an earlier one. |
| Base91Codec.Encode | base91/src/lib.rs:136-144 | Returns the reference encoding, the flush by drop included. |
| Base91Codec.MaskedWidth | base91/src/lib.rs:188 | The masked comparison in the decoder computes the block's width. |
| Base91Codec.FinalByte | base91/src/lib.rs:209-212 | The last byte is the pending bits with as many bits of the waiting digit as fit; the 8-bit shift drops the others. |
| Base91Codec.Base91Decoder.constructor | base91/src/lib.rs:159-166 | A new decoder holds no bits and no digit and has written nothing. |
| Base91Codec.Base91Decoder.EmitBytes | base91/src/lib.rs:190-199 | The loop writes all whole bytes, at least one and at most two, keeps fewer than 8 bits, and the count never goes below zero. |
| Base91Codec.Base91Decoder.AppendBlock | base91/src/lib.rs:186-199 | Any pair of digits, valid encoding or not, appends 13 or 14 bits and writes one or two bytes. |
| Base91Codec.Base91Decoder.WriteByte | base91/src/lib.rs:177-204 | One character is skipped, kept as the waiting digit, or completes a pair, as in the reference. |
| Base91Codec.Base91Decoder.Write | base91/src/lib.rs:176-206 | Writes the whole bytes of pending bits and new pairs, keeps the remaining bits and an unpaired digit, and reports the whole length. |
| Base91Codec.Base91Decoder.Flush | base91/src/lib.rs:208-216 | Writes one byte if a digit is waiting, and clears digit and bits. |
| Base91Codec.Base91Decoder.Drop | base91/src/lib.rs:169-173 | Dropping is a flush; by `DecoderChunking` it writes nothing after an earlier one. |
| Base91Codec.Decode | base91/src/lib.rs:221-229 | Returns the reference decoding, the flush by drop included. |
| Base91Streams.CutConcat | base91/src/lib.rs:94-112 | The greedy cut of a longer stream is the cut so far, resumed from the bits left over. |
| Base91Streams.EncoderWriteTwice | base91/src/lib.rs:89-115 | Two writes do to an encoder what one write of both does. |
| Base91Streams.DecoderWriteTwice | base91/src/lib.rs:176-206 | Two writes do to a decoder what one write of both does, also when they part a pair. |
| Base91Streams.EncoderChunking | base91/src/lib.rs:82-131 | However the input is split into writes, the flushed output is the reference encoding, and a second flush adds nothing. |
| Base91Streams.DecoderChunking | base91/src/lib.rs:169-216 | However the text is split into writes, the flushed output is the reference decoding, and a second flush adds nothing. |
| Base91Theorems.WidthIsCut | base91/src/lib.rs:188 | The decoder reads off a block's value the width that the encoder chose for it. |
| Base91Theorems.BlocksKeepBits | base91/src/lib.rs:94-112 | The bits recovered from the written blocks, followed by the bits still pending, are the whole input stream. |
| Base91Theorems.LockStep | base91/src/lib.rs:89-206 | With the decoder fed all that the encoder has written, every input bit is once, in order, in the decoder's output, its pending bits or the encoder's; the output is a prefix of the input and at most 2 bytes behind. |
| Base91Theorems.TailRoundTrip | base91/src/lib.rs:118-127 | After whole blocks, each of the three tail shapes decodes to exactly the remaining bytes and no byte more. |
| Base91Theorems.StreamOfDecoded | base91/src/lib.rs:176-216 | For any digits, valid encoding or not, the decoded bytes hold exactly the bits of the whole pairs that fill bytes, and an unpaired digit fills up one more byte. |
| Base91Theorems.RoundTrip | base91/src/lib.rs:136-229 | decode(encode(b)) = b for every byte sequence. |
| Base91Theorems.DigitsOfAlphabetic | base91/src/lib.rs:178-183 | Decoding depends only on the alphabet characters of a text. |
| Base91Theorems.InsertedNoiseIsSkipped | base91/src/lib.rs:180-183 | Bytes outside the alphabet, inserted at any one place of any text, do not change what it decodes to. |
| Base91Theorems.RoundTripWithNoise | base91/src/lib.rs:40-42 | An encoding with other bytes inserted anywhere still decodes to the input. |
| Base91Theorems.CanonicalDigits | base91/src/lib.rs:117-217 | Digits are reproduced by decoding and encoding exactly when the dropped bits are zero and the tail has the encoder's number of digits. |
| Base91Theorems.CanonicalTexts | base91/src/lib.rs:136-229 | encode(decode(t)) = t, and likewise t is an encoding of something, exactly when t has only alphabet characters and canonical digits. |
| Base91Lengths.EncodedLength | base91/src/lib.rs:3-6 | n bytes take at least 8n/7 and at most 16n/13 characters, each rounded up to a whole number. |
| Base91Lengths.ShortestEncoding | base91/src/lib.rs:4-5 | At every length, zero bytes attain the lower bound. |
| Base91Lengths.LongestEncoding | base91/src/lib.rs:4-5 | At every length, bytes of ones attain the upper bound. |
| Base91Lengths.OverheadOf23Percent | base91/src/lib.rs:3-6 | All inputs of n bytes stay within 23% exactly when n = 0. |
| Base91Lengths.OverheadBeyondConstant | base91/src/lib.rs:3-6 | Whatever constant is added to 23%, some input exceeds it. |
| Base91Lengths.OverheadOfThreeThirteenths | base91/src/lib.rs:3-6 | All inputs of n bytes stay within an overhead of 3/13 exactly when n is a multiple of 13. |
| Base91Flush.FlushedPieces | base91/src/lib.rs:117-131 | An encoder that is flushed and goes on writes one complete encoding after the other. |
| Base91Flush.DecoderFlushedPieces | base91/src/lib.rs:208-216 | A decoder that is flushed holds neither bits nor a digit, and going on writes one complete decoding after the other. |
| Base91Flush.FlushIsSeamless | base91/src/lib.rs:117-131 | Two flushed pieces decode to their concatenation, whatever the second is, exactly when at the flush nothing or a whole 13-bit block was pending; equivalently, when the digits written so far hold exactly the bits of the first piece. |
| Base91Flush.FlushedZerosDecodeToThree | base91/src/lib.rs:117-131 | Two zero bytes flushed one by one decode to three bytes. |
| Bintree.Tree.NumLeaves | bintree/src/lib.rs:193-199 | The count is the length of the left-to-right list of leaves. |
| Bintree.Cursor.AssignNode | bintree/src/lib.rs:284-292 | Succeeds exactly at a node, and then keeps position, children and all leaves of the tree and sets the data; otherwise hands the same cursor back in `Err`. |
| Bintree.NodeDataReplaced | bintree/src/lib.rs:278-292 | New data reaches only the node at the cursor: the same branches lead to it, the leaves are the same, a later assignment replaces it, and assigning the old data undoes it. |
| Bintree.AssignTopOutcome | bintree/src/lib.rs:236-250 | Succeeds exactly at the top of the empty tree, with the leaf as the whole tree; otherwise hands the same cursor back in `Err`. |
| Bintree.SplitOutcome | bintree/src/lib.rs:324-394 | Each split succeeds exactly at a node or at a leaf, as its name says, and otherwise hands the same cursor back in `Err`. |
| Bintree.UnsplitOutcome | bintree/src/lib.rs:294-322 | Succeeds exactly at a leaf below the top, whatever the parent's data, with the other child in the parent's place, the leaf and the parent's data; otherwise hands the same cursor back in `Err`. |
| Bintree.MoveOutcome | bintree/src/lib.rs:396-462 | Moves down succeed exactly at a node and a move up below the top, each undoes the other, and a failed move hands the same cursor back. |
| Bintree.Cursor.IntoTree | bintree/src/lib.rs:547-554 | Climbing to the root yields the tree that the cursor is a position in. |
| Bintree.ParentIterator.Next | bintree/src/lib.rs:158-170 | Yields the first remaining branch and node data and moves one step up, or yields nothing at the top. |
| Bintree.PathItemsDescribeAncestors | bintree/src/lib.rs:155-171 | The i-th item has the data of the ancestor i + 1 steps up, and its branch leads from there back to the ancestor i steps up. |
| Bintree.ReplayReturns | bintree/src/lib.rs:271-276 | Replaying the branches in reverse from the root of the tree returns to the identical cursor. |
| Bintree.LeavesOfWhole | bintree/src/lib.rs:71-94 | The leaves of the tree are those left of the path, those of the subtree, and those right of the path. |
| Bintree.ProperWhole | bintree/src/lib.rs:11-24 | `Empty` occurs nowhere in the tree exactly when it occurs neither in the subtree nor on the path; the tree is `Empty` only at an empty top. |
| BintreeTraversal.PreorderNext | bintree/src/lib.rs:472-496 | For every cursor: the next position of the tree in node-left-right order; after the last one the root, in `Err`; and how many single moves it took. |
| BintreeTraversal.PreorderDescends | bintree/src/lib.rs:476-495 | Away from leaves a step is go_left, also where that fails; at a leaf that is a left child it goes to the sibling; at a leaf that is the whole tree it fails in place. |
| BintreeTraversal.AfterStep | bintree/src/lib.rs:472-496 | The positions after the next position are the rest of the positions after this one; the tree is the same; the leaves before it have grown by the current leaf. |
| BintreeTraversal.PreorderWalk | bintree/src/lib.rs:464-496 | A walk from the root of a proper tree visits all 2n - 1 positions of the tree, each once, in node-left-right order, and ends with the root in `Err`. |
| BintreeTraversal.SubtreeMoves | bintree/src/lib.rs:402-462 | Walking a subtree with n leaves and leaving it makes 4n - 4 moves and the climb from its top. |
| BintreeTraversal.PreorderWalkCost | bintree/src/lib.rs:402-496 | A whole walk makes 4n - 4 single moves, the failing last step included. |
| BintreeTraversal.GoToNthLeaf | bintree/src/lib.rs:533-544 | Returns the n-th leaf among the current position and those after it, or the place where the walk stops, in `Err`. |
| BintreeTraversal.NthLeafFound | bintree/src/lib.rs:533-544 | In a proper tree it succeeds exactly when n is less than the leaves of the subtree and those right of the path, and lands on a leaf with exactly n more leaves before it; else it returns the root. |
| BintreeTraversal.NthLeafIsNth | bintree/src/lib.rs:193-199 | From the root it succeeds exactly when n < num_leaves, at the leaf that holds the n-th value. |
| BintreePostorder.MirrorMoves | bintree/src/lib.rs:402-462 | go_left and go_right exchange roles in a mirrored tree and go_up keeps its own. |
| BintreePostorder.PostorderNext | bintree/src/lib.rs:506-530 | For every cursor, the mirror image of what preorder_next does in the mirrored tree. |
| BintreePostorder.PostorderDescends | bintree/src/lib.rs:510-529 | Away from leaves a step is go_right, also where that fails. |
| BintreePostorder.PostorderWalk | bintree/src/lib.rs:506-530 | A walk from the root of a proper tree visits every position once, in node-right-left order, and ends with the root in `Err`. |
| BintreePostorder.ReverseOfPostorder | bintree/src/lib.rs:498-530 | Node-right-left order read backwards is left-right-node order. |
| BintreePostorder.TruePostorderWalk | bintree/src/lib.rs:498-505 | The step function for the true postorder goes through the positions in left-right-node order and ends at the root. |
| BintreePostorder.StepIsPostorderOnlyForLeaf | bintree/src/lib.rs:498-530 | From any position, the code's step is the true postorder step exactly at the top of a tree that is not a node. |
| BintreePostorder.PostorderOnlyForLeaf | bintree/src/lib.rs:498-505 | A whole walk is in postorder exactly when the tree is not a node. |
| BintreeEdits.SplitUndone | bintree/src/lib.rs:301-394 | After each of the four splits, stepping to the new leaf and unsplitting returns the original cursor, the inserted value and no data. |
| BintreeEdits.UnsplitUndone | bintree/src/lib.rs:294-322 | At every leaf below the top, inserting the unsplit leaf again on its side and restoring the data returns the original cursor exactly when the sibling is not `Empty`. |
| BintreeEdits.SiblingIsNotEmpty | bintree/src/lib.rs:11-14 | In a proper tree the sibling of a leaf is not `Empty`. |
| BintreeEdits.MovesKeepTree | bintree/src/lib.rs:402-554 | Every move, succeeding or failing, leaves the tree unchanged. |
| BintreeEdits.SplitInserts | bintree/src/lib.rs:324-394 | Each of the four splits succeeds exactly at a node or at a leaf, as its name says, and puts its leaf directly before or after the leaves of the current subtree. |
| BintreeEdits.UnsplitRemoves | bintree/src/lib.rs:301-322 | At every leaf below the top, unsplitting succeeds and removes exactly that leaf. |
| BintreeEdits.CommandEditsLeaves | bintree/src/lib.rs:242-462 | Each command changes the list of leaves by one insertion, one removal or not at all, at the position computed from the cursor; all other leaves keep their order; a command that edits returns `Ok` exactly when there is such a change. |
| BintreeEdits.LeafEditSucceeds | bintree/src/lib.rs:242-394 | A command that inserts or removes a leaf returns `Ok` exactly when it has an edit, and otherwise the same cursor. |
| BintreeEdits.CommandKeepsProper | bintree/src/lib.rs:242-394 | No command makes a proper tree improper. |
| BintreeEdits.RunEditsList | bintree/src/lib.rs:202-555 | Any run of commands keeps the tree proper and does to its leaves what the list of edits does to a flat list. |
| BintreeEdits.RunFromNew | bintree/src/lib.rs:203-210 | In particular any run from a new empty tree. |
| BintreeEdits.RunConservesLeaves | bintree/src/lib.rs:202-555 | Over any run, leaves at the end and leaves removed are, as multisets, leaves at the start and leaves inserted. |
| Backup.BakPathInjective | config-ui-core/src/backup.rs:7-15 | Different slots have different names, and none is the name of the file. |
| Backup.BakPathNames | config-ui-core/src/backup.rs:7-15 | The newest backup is the file's name and ".bak"; an older one has a dot and its number after that, in digits that have no leading zero and read back to the number. |
| Backup.DecimalReadsBack | config-ui-core/src/backup.rs:12 | The decimal numeral of a number, read from left to right, is that number. |
| Backup.Shift | config-ui-core/src/backup.rs:17-28 | Moves a file over another, or does nothing if it does not exist; it fails exactly when a system call failed for a reason other than a missing target; then at most the target is gone, and no other state occurs. |
| Backup.ShiftSlot | config-ui-core/src/backup.rs:36-41 | One shift extends by one the slots that have moved up; it can only stop in, and only passes through, the states of `IsMidway`. |
| Backup.RollingBackup | config-ui-core/src/backup.rs:32-44 | On success slot 0 is the current content and the older backups are one slot up. A failure, and every intermediate state, leaves the slots from some t up shifted, or only the first target removed, or all slots shifted and part of the file in slot 0; in each of these every backup but the last is in its slot or the next and no other file has changed. It fails exactly when a system call does; with keep 0 or no file nothing happens. |
| Backup.MidwayLosesNothing | config-ui-core/src/backup.rs:17-44 | In every state that a backup passes through or stops in, every backup but the last is in its slot or the next. |
| Backup.ShiftStep | config-ui-core/src/backup.rs:18-27 | What skipping, removing and renaming at slot k each make of the slots above it. |
| Backup.CopyStep | config-ui-core/src/backup.rs:42 | The copy, whole or stopped in part, touches slot 0 only. |
| BackupRuns.RetryAfterShifts | config-ui-core/src/backup.rs:36-41 | A retry after a stop with the slots from t up shifted ends where one success would have ended exactly when slots t to keep - 3 held no backup. |
| BackupRuns.RetryAfterRemoval | config-ui-core/src/backup.rs:21-27 | A retry after a stop between the first removal and its rename always does. |
| BackupRuns.RetryAfterPartialCopy | config-ui-core/src/backup.rs:42 | A retry after a copy that stopped part way does exactly when keep is 1 or every backup to be kept already was the part. |
| BackupRuns.RetryCanLoseBackup | config-ui-core/src/backup.rs:42 | An input, a state that a backup of it can stop in, and the backup that any successful retry then loses. |
| BackupRuns.AttemptsLoseLittle | config-ui-core/src/backup.rs:32-44 | After j attempts, failed or not, with any content written in between, the backups of slots 0 to keep - 1 - j are all still there, at most j slots up and in the same order. |
| BackupRuns.RoundShiftsRanks | config-ui-core/src/backup.rs:30-44 | One more round puts the new content first and moves every backup one rank down. |
| BackupRuns.RunRanksBackups | config-ui-core/src/backup.rs:30-44 | After any number of rounds from any files, slots hold the contents written, newest first, and then the earlier backups, gaps included; the last slot holds the best rank from there on that exists; slots at or above keep and all other files are as they were. |
| BackupRuns.RunKeepsNewest | config-ui-core/src/backup.rs:1 | After any number of rounds from no backups, slot n holds the n-th most recent content for n below both keep and the rounds, no other slot exists, and no other file has changed. |
| CellWidths.InsertRange | config/src/cell.rs:16-18 | Maps exactly the code points of the inclusive range, also an empty one and one that ends at the largest 32-bit number. |
| CellWidths.LastMatchDecides | config/src/cell.rs:15-19 | The last-match lookup finds a width exactly when that width is of the last covering entry, and nothing exactly when none covers. |
| CellWidths.CompileToMap | config/src/cell.rs:12-21 | A code point is in the map exactly when some entry covers it, with the width of the last such entry; no list gives no map. |

## Left out

- I/O errors of the writer behind an encoder or a decoder; it is a byte vector that never fails, and its own flush does nothing.
- The capacity hints of `encode` and `decode`; they do not affect the result.
- `leaf_mut` and `node_mut`, which lend references, the debug and equality implementations, and boxing; trees and cursors are values, so `assign_node` replaces its node in a new value where the source writes in place.
- Base91Codec.Base91Encoder.WriteByte: in the source it and `EmitBlock` are the body of the loop in `write`, and likewise in the decoder; they are methods of their own to keep proofs short.
- BintreePostorder.PostorderNext: its single moves are not counted; they are those of the mirrored traversal.
- Backup.FileSystem.Rename: replaces an existing target or fails, without saying which systems do which; the algorithm never renames onto an existing file.
- Other processes that use the files, directories, permissions, and paths that are not text.
- Loading configuration, the Lua side and everything else in the repository: I/O, user interface, constants or thin wrappers.
