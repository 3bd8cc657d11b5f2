# Verification of the backup pipeline and the connection kernels

This project models, in Dafny, the C++ backup pipeline in `src/` (serialise a tree into one archive, compress it
with a Huffman code, encrypt it, and all the way back) and four self-contained kernels of the WebSocket++ copy the
server runs on: the outgoing write queue of a connection, the life of a server connection, the UTF-8 validator and
payload masking. `dafny verify dfyconfig.toml` checks everything.

## The modules

| file | what it models |
|---|---|
| `Bytes.dfy`, `Posix.dfy`, `Handler.dfy`, `Utils.dfy` | bytes, bits, little-endian words, exclusive or; open files; what the stages share; path names |
| `Optimality.dfy`, `HuffmanTree.dfy` | why the greedy merge is optimal, for every order of equal weights; trees, depths, Kraft sums |
| `Heap.dfy`, `TreeNode.dfy` | the binary heap of `std::priority_queue` as a function; the linked nodes, the queue object, `BuildHuffman`, `GenerateCoding` |
| `HuffmanCode.dfy`, `HuffmanSize.dfy` | counts, code table, bit stream, packed bytes; how many bits a text takes |
| `Compresser.dfy`, `Decompresser.dfy` | the two objects with their buffers, and the round trip |
| `Header.dfy`, `Archive.dfy`, `Packer.dfy` | record format; source trees and archive bytes; the recursive serialiser |
| `Target.dfy`, `UnPacker.dfy` | the target directory and what the unpacker does to it on any bytes; the unpacker object |
| `Mirror.dfy`, `SourceTree.dfy` | when an unpacked target shows the packed entries again; what the packer lists for a tree |
| `Recreation.dfy` | where the nodes of a tree sit; every node in the archive, in order, and back on disk |
| `Cbc.dfy`, `Encryption.dfy`, `Decryption.dfy` | cipher block chaining over any block cipher; the two objects |
| `BackEnd.dfy` | stage chains, flag byte, temporary files, decoding and restoring |
| `WriteQueue.dfy`, `Lifecycle.dfy`, `Utf8.dfy`, `Masking.dfy` | the WebSocket++ kernels |

An object whose methods change its fields is a class, and a loop is a loop; each method is proved against a function
of its inputs or of the old state, and the properties are proved about these functions.

## Where the code does not do what it promises

* **Hard links.** The packer recognises a hard link by its link *count* (`src/packer.cpp:156-161`), the unpacker by
  its inode number, without the device (`src/unpack.cpp:66-74`). `Mirror.UnpackMirrorsIff` gives the exact condition
  under which the target mirrors the source: every non-empty file whose link count was met before is another name of a
  file already packed, and no two multiply linked files of different file systems share an inode number.
  `Recreation.ConfusedTreeEscapes` and `Recreation.MountedTreeConfused` are trees that fail the one and the other.
  The necessity of the first half is a counting argument: whatever bytes the unpacker is given, it restores no more
  than the archive can hold (`Target.Conservation`), and a mirror costs at least what the source needs.
* **Exceptions by value.** `Utils::Copy` throws `CopyException` by value, but every handler catches exceptions by
  address (`src/utils.cpp:45,57`, `src/unpack.cpp:47`), so it leaves `HandleDecode` before the flag byte is put back,
  and the archive has lost it. `Target.EscapesIff` says when, for any bytes and any target: exactly when some record, as
  the unpacker comes to read it, is a file to be copied whose last block is shorter than its padding, and not by one
  byte. `Mirror.LastConfusedEscapesIff` says it for a source whose last file is the confused one: exactly when the size
  of that file is neither a multiple of 512 nor one byte less. `Recreation.ConfusedTreeEscapes` is a tree of two
  one-byte files for which it happens, and `BackEnds.ConfusedArchiveCut` the archive it costs its flag byte.
* **Empty archive.** Decoding an empty file appends a zero byte to it. `BackEnds.SourceRestoredIff`: a file is byte for
  byte as before exactly when it was not empty and no exception escapes.
* **Decryption.** A body that ends early on a multiple of 4096 bytes, one with bytes to spare after whole chunks, and
  any body after a negative length of whole chunks are accepted; `Decryption.AcceptedExactly` says which files are, for
  any bytes. `Decryption.LostWithoutError` is an encrypted file cut down to its header and decrypted without an error;
  `Decryption.NegativeLengthAccepted` are files with a length of -4096.
* **Plain HTTP connections.** The fail handler can run for a plain HTTP connection: when the response is not written
  in time (`Lifecycle.SlowPeerFails`); as `terminate()` stores an error code even when the connection is already
  closed, when an error comes late (`Lifecycle.HttpConnectionFails`); and when the application defers and sends a
  response once more (`Lifecycle.LateDeferralFails`). `Lifecycle.HttpFailHandlerIff` gives the exact
  condition over all runs.
* **NUL bytes in names.** Names are read back up to their first NUL in every chunk of 256 bytes, so a header survives
  exactly when its names contain none (`Headers.HeaderRoundTrip`).

## Model

| member | source | states |
|---|---|---|
| `Bytes.SetThenGet` | src/utils.cpp:19-34 | setting or clearing one bit changes that bit and no other |
| `Bytes.MaskIsShift` | src/utils.cpp:22-26 | bit index 0 is the most significant bit: the mask is `1 << (7 - index)` |
| `Bytes.XorBitAt` | env_confg/websocketpp/websocketpp/frame.hpp:672-682 | a bit of the exclusive or is set exactly when it differs in the two numbers |
| `Bytes.LEDigit` | src/header.cpp:3-28 | byte i of a stored word is the digit of weight 256^i |
| `HuffmanTree.GreedyBeatsLengths` | src/huffman_tree.cpp:23-33 | a greedy run over any forest, equal weights taken in any order, costs no more than any code lengths within Kraft's inequality |
| `HuffmanTree.OptimalAmongTrees` | src/huffman_tree.cpp:9-37 | no full binary tree over the same leaves has a smaller weighted path length, zero-weight leaves included |
| `HuffmanTree.OptimalAmongPrefixCodes` | src/huffman_tree.cpp:9-50 | no prefix-free binary code of the symbols is shorter on the text |
| `HuffmanTree.GreedyLeaves` | src/huffman_tree.cpp:14-33 | the leaves of the result are exactly the leaves one started with |
| `HuffmanTree.GreedyExact` | src/huffman_tree.cpp:28-32 | inner weights are the true sums of the leaf weights: the 64-bit addition never wraps |
| `HuffmanTree.CostByDepth` | src/huffman_tree.cpp:39-50 | the sum of the inner weights is the sum of leaf weight times depth |
| `HuffmanTree.KraftOfTree` | src/huffman_tree.cpp:39-50 | leaf depths have Kraft sum exactly one |
| `HuffmanTree.HeightBelowLeaves` | src/huffman_tree.cpp:39-50 | no code is longer than the number of leaves minus one |
| `Optimality.PrefixFreeFeasible` | src/huffman_tree.cpp:39-50 | prefix-free binary codes meet Kraft's inequality |
| `Heap.PushHeap` | src/huffman_tree.cpp:12-18 | pushing keeps the heap order |
| `Heap.PopHeap` | src/huffman_tree.cpp:24-27 | popping keeps the heap order |
| `Heap.TopIsLightest` | src/huffman_tree.cpp:24-27 | the top of a heap has the smallest weight |
| `Heap.BuildIsGreedy` | src/huffman_tree.cpp:9-37 | the merge loop on the heap is one of the greedy runs, so it inherits their optimality |
| `Heap.BuildOptimal` | src/huffman_tree.cpp:9-37 | the tree the program builds is optimal among all trees over its leaves |
| `Heap.BuildLighterLeft` | src/huffman_tree.cpp:23-33 | the lighter of two merged trees is the left child, throughout the tree |
| `Heap.BuildOfTies` | src/huffman_tree.cpp:12-33 | of three equal weights the first two merge, and the third becomes the left child |
| `Heap.BuildKeeps` | src/huffman_tree.cpp:14-33 | the built tree has exactly the queued leaves and the total of their weights |
| `TreeNodes.TreeNode.GenerateCoding` | src/huffman_tree.cpp:39-50 | every leaf gets the shared string plus its own path; the shared string ends as it began |
| `TreeNodes.PriorityQueue.Push` | src/huffman_tree.cpp:16 | the queue of nodes follows the functional heap, nodes unshared |
| `TreeNodes.PriorityQueue.Pop` | src/huffman_tree.cpp:25-27 | likewise for pop |
| `TreeNodes.PriorityQueue.MergeTwo` | src/huffman_tree.cpp:23-33 | one round: the two tops become left and right child of a new root |
| `TreeNodes.Enqueue` | src/huffman_tree.cpp:14-18 | the non-null counts are pushed in index order |
| `TreeNodes.BuildHuffman` | src/huffman_tree.cpp:9-37 | null exactly for fewer than two counts; otherwise the nodes form the functional tree and carry its codes |
| `HuffmanCode.CountsOfOne` | src/compresser.cpp:111-123 | a text of one symbol: its count, and beside it the next byte with weight zero |
| `HuffmanCode.CountsOfMore` | src/compresser.cpp:93-123 | a text of more symbols: exactly the frequencies of its bytes |
| `HuffmanCode.TableEntries` | src/compresser.cpp:128-139 | the walk enters exactly the tree's bytes, each with its path, and leaves other entries alone |
| `HuffmanCode.TablePaths` | src/compresser.cpp:123-140 | every byte's table entry is a path to its leaf |
| `HuffmanCode.WalkPath` | src/decompresser.cpp:118-135 | walking a leaf's path from the root emits its byte once and returns to the root |
| `HuffmanCode.DecodeEncoded` | src/decompresser.cpp:107-158 | walking the code bits of a text emits exactly the text |
| `HuffmanCode.AppendBit` | src/compresser.cpp:219-231 | one more bit: the open byte gets it, and is finished exactly at the eighth |
| `HuffmanCode.StreamSplits` | src/compresser.cpp:204-241 | full bytes followed by the bits of the partial byte are the whole bit list |
| `HuffmanSize.TreeCodesPrefixFree` | src/huffman_tree.cpp:39-50 | the codes of a tree are prefix-free |
| `HuffmanSize.TableIsCodes` | src/compresser.cpp:123-140 | with distinct leaf bytes the table holds every leaf's own code |
| `HuffmanSize.BitsAreCost` | src/compresser.cpp:212-231 | the number of code bits is the sum of the inner weights of the tree |
| `HuffmanSize.NeverLonger` | src/compresser.cpp:212-231 | a text of n bytes takes at most 8n code bits |
| `Compression.Compresser.CountByte` | src/compresser.cpp:99-102 | one count more for one byte |
| `Compression.Compresser.WordFreqCount` | src/compresser.cpp:88-121 | the counts are the byte frequencies, with a zero-weight dummy beside a single symbol |
| `Compression.Compresser.GenerateCodingTable` | src/compresser.cpp:123-140 | fails exactly for fewer than two counts; otherwise the table is the tree's code table |
| `Compression.Compresser.CollectCodes` | src/compresser.cpp:128-139 | the explicit-stack walk terminates and fills in the same table as the recursive one |
| `Compression.Compresser.EffectiveBits` | src/compresser.cpp:155-161 | the running products modulo 8 give the total bit count modulo 8 |
| `Compression.Compresser.WriteHeader` | src/compresser.cpp:145-180 | number of symbols, valid bits of the last byte, and the records in index order |
| `Compression.Compresser.PutBit` | src/compresser.cpp:219-231 | the buffered bit writer refines the bit list by one bit, flushing included |
| `Compression.Compresser.PackAll` | src/compresser.cpp:204-233 | flushed blocks, buffer and partial byte hold exactly the code bits of the text |
| `Compression.Compresser.WriteData` | src/compresser.cpp:185-242 | the last partial byte is stored in the hole before the full bytes |
| `Compression.Compresser.Handle` | src/compresser.cpp:14-40 | fails exactly on empty input, leaving an empty file; otherwise writes the compressed file |
| `Compression.CompressedSize` | src/compresser.cpp:145-242 | the compressed file has 4 + 4 + 9k + 1 + B/8 bytes, B the cost of the tree, n <= B <= 8n, 2 <= k <= 256 |
| `Compression.CompressedExample` | src/compresser.cpp:145-252 | the compressed file of "aab", byte by byte |
| `Decompression.ReadBack` | src/decompresser.cpp:107-158 | reading full bytes and then the displaced byte visits exactly the bits that were packed |
| `Decompression.ParseRecords` | src/decompresser.cpp:73-84 | reading the records back yields the counts |
| `Decompression.RoundTrip` | src/decompresser.cpp:63-162 | decompressing the compressed file gives back every non-empty text, of any length and with any number of symbols |
| `Decompression.RefusedIff` | src/decompresser.cpp:63-104 | on any bytes: refused exactly when the file ends inside its header or records fewer than two different bytes |
| `Decompression.Decompresser.ReadHeader` | src/decompresser.cpp:63-85 | on any file: fails exactly when it ends inside the header, otherwise holds the recorded counts |
| `Decompression.Decompresser.Move` | src/decompresser.cpp:119-135 | one bit on the nodes refines one step on the tree; the node is an inner one before and after |
| `Decompression.Decompresser.WalkAll` | src/decompresser.cpp:107-138 | the block loop refines the walk over all full bytes; output flushes lose nothing |
| `Decompression.Decompresser.ReadData` | src/decompresser.cpp:91-162 | the output is the walk over the full bytes and then over the last one |
| `Decompression.Decompresser.Handle` | src/decompresser.cpp:6-24 | on any bytes: fails, or writes, exactly as the specification says; the source is only read |
| `Headers.ReassembledIffNoNul` | src/header.cpp:67-99 | a name read in chunks of 256 survives exactly when it contains no NUL |
| `Headers.CStringIs` | src/header.cpp:67-99 | of each chunk the longest prefix without a NUL is kept |
| `Headers.ParseIff` | src/header.cpp:30-102 | on any bytes: the end exactly at the end of the file, a header exactly when its fixed part and the names it announces are there |
| `Headers.ParseSerialized` | src/header.cpp:30-102 | a serialised header in any file parses to the same fields and ends where its bytes end |
| `Headers.HeaderRoundTrip` | src/header.cpp:3-102 | it parses to itself exactly when both names are free of NUL |
| `Headers.ReadFields` | src/header.cpp:51-65 | the fixed fields are read in order; fails exactly when the file ends inside them |
| `Headers.ReadName` | src/header.cpp:71-84 | full chunks and a remainder read the whole stored name, or fail exactly at the end of the file |
| `Headers.Header.Serialize` | src/header.cpp:3-28 | appends the serialised record |
| `Headers.Header.DeSerialize` | src/header.cpp:30-102 | on any file: 1 at its end, -1 when it ends inside the header, 0 with all fields set |
| `Archive.BlocksCover` | src/packer.cpp:99-111 | blocks of 512 bytes cover the size and the padding, which is less than a block |
| `Archive.KindIgnoresPermissions` | src/packer.cpp:60-80 | the kinds are the file types of POSIX, whatever the permission bits |
| `Archive.PaddedWithZeros` | src/packer.cpp:113-164 | the data is the content filled up with zeros to whole blocks |
| `Packing.Packer.Pack` | src/packer.cpp:60-80 | packs exactly the pre-order entries of the tree, and the archive holds exactly their bytes |
| `Packing.Packer.ParseHeader` | src/packer.cpp:85-111 | every field of the reused header is overwritten, owner, group and times from the stat of the node |
| `Packing.Packer.PackDir` | src/packer.cpp:113-148 | the directory record, then every child in order |
| `Packing.Packer.PackRegular` | src/packer.cpp:154-196 | data is written unless a file with the same link count was packed before |
| `Packing.Packer.CopyBlocks` | src/packer.cpp:173-189 | the content followed by zeros up to a whole block |
| `Packing.Packer.PackLink` | src/packer.cpp:198-212 | the record carries the link target |
| `Target.CopyCost` | src/utils.cpp:36-61 | the copy, rounded up to blocks, is no larger than what was read, but for a short block at the very end |
| `Target.Conservation` | src/unpack.cpp:27-89 | on any bytes: headers, blocks and link targets restored take no more than the archive and 511 bytes |
| `Target.CopyThrowsIff` | src/utils.cpp:36-61 | the copy throws exactly when the last block is shorter than its padding, and not by one byte |
| `Target.EscapesIff` | src/unpack.cpp:27-89 | on any bytes and any target: an exception escapes exactly when a visited record is a file to be copied, can be opened, and is cut short |
| `Target.ErrorsAreFailures` | src/unpack.cpp:27-105 | on any bytes and any target: one error is collected for every visited record that fails, which its kind, the names in the target and the known inodes decide |
| `Target.RestoreFailsIff` | src/unpack.cpp:27-105 | a record that fails is counted once and restores nothing; one that does not is not counted |
| `Target.RestoreEffect` | src/unpack.cpp:52-105 | a record that does not fail leaves at its path a directory, a FIFO, a symlink with the stored target, the object of the known inode, or a file with the copied bytes |
| `Target.RestoreFrame` | src/unpack.cpp:52-105 | ... and nothing else: other paths, contents and link targets stay |
| `Target.CopiesInOrder` | src/utils.cpp:36-60 | what is read is copied in one piece, the padding taken off the end, but never more than the last block |
| `Target.FindIff` | src/unpack.cpp:52-105 | a path means the last object given that name |
| `Target.NamesStay` | src/unpack.cpp:54-105 | nothing restored is ever removed or made to point elsewhere |
| `UnPacking.Copy` | src/utils.cpp:36-61 | the block loop copies what the specification says; says when an exception escapes |
| `UnPacking.UnPacker.UnPackDir` | src/unpack.cpp:54-59 | a new directory; or a collected error with nothing changed, exactly when the name is taken or has no directory |
| `UnPacking.UnPacker.UnPackReg` | src/unpack.cpp:61-89 | a hard link for a known inode; otherwise the inode, if multiply linked, is noted and the data copied |
| `UnPacking.UnPacker.UnPackSLNK` | src/unpack.cpp:100-105 | a new symbolic link; or a collected error, exactly without a target, with the name taken, or without a directory |
| `UnPacking.UnPacker.TryRestore` | src/unpack.cpp:30-50 | dispatch on the kind; one error is collected exactly when the record fails, an exception by value escapes |
| `UnPacking.UnPacker.Extract` | src/unpack.cpp:27-52 | the loop refines the restoring function on any archive |
| `UnPacking.UnPacker.Handle` | src/unpack.cpp:7-25 | into any target: unless an exception escaped, returns 0 exactly when no visited record fails |
| `Mirror.StepEntry` | src/unpack.cpp:29-51 | one packed entry: its parent is there, the map names restored files with their final contents, the offset ends at the next header |
| `Mirror.ParentThere` | src/packer.cpp:113-148 | each step finds the parent directory created and the name free |
| `Mirror.StepLink` | src/unpack.cpp:66-74 | a further name of a restored file becomes a hard link, and no data follows its header |
| `Mirror.CopyBack` | src/utils.cpp:36-61 | copying a padded content back yields the content |
| `Mirror.ReachesInStep` | src/unpack.cpp:27-52 | the loop stays in step up to any entry before which all files are told apart |
| `Mirror.ArchiveAtMostNeed` | src/packer.cpp:154-196 | an archive is never larger than a faithful copy needs, and at least a block smaller once two files were confused |
| `Mirror.MirrorCovers` | src/unpack.cpp:54-105 | a target that mirrors the source costs at least what the source needs |
| `Mirror.ConditionSuffices` | src/packer.cpp:150-161 | when link counts and inode numbers tell files apart, unpacking mirrors the source |
| `Mirror.CountsNecessary` | src/packer.cpp:150-161 | when link counts do not tell files apart, it does not |
| `Mirror.WritesDataIff` | src/packer.cpp:154-164 | data is left out exactly for a multiply linked file whose link count was met before |
| `Mirror.InodesNecessary` | src/unpack.cpp:66-74 | when two file systems share an inode number among multiply linked files, it does not |
| `Mirror.UnpackMirrorsIff` | src/unpack.cpp:27-105 | same paths, kinds, contents, link targets and hard-link classes of regular files exactly under both conditions; then no error, and the archive is read to its end |
| `Mirror.FirstConfusedEscapes` | src/utils.cpp:47-57 | at the first confused file an exception escapes if the rest of the archive is too short for its data |
| `Mirror.LastConfusedEscapesIff` | src/utils.cpp:47-57 | when the last file is the only confused one: exactly if its size is neither a multiple of 512 nor one byte less |
| `SourceTrees.FlattenFine` | src/packer.cpp:113-148 | pre-order entries of a tree have distinct, well-formed paths, parents before children |
| `SourceTrees.TreeIsSnapshot` | src/packer.cpp:60-80 | every tree packed under its own name is such a list |
| `Recreation.ListsTheTree` | src/packer.cpp:113-148 | every directory, file, FIFO and symlink of the tree has exactly one entry, under its own path and with its own stat and contents; no other entry exists |
| `Recreation.ChildrenInOrder` | src/packer.cpp:113-148 | anywhere in the tree, all of one child is packed before any of a later one, in directory order |
| `Recreation.DirectoryFirst` | src/packer.cpp:113-148 | a directory is packed before everything in it |
| `Recreation.HeadersStored` | src/packer.cpp:85-111 | every node's header is in the archive, at its offsets: lengths, inode, mode, link count, owner, group, times, blocks, padding and names |
| `Recreation.TreeRoundTrip` | src/unpack.cpp:27-105 | over the nodes of any tree: each is in the target with its kind, contents and link target, nothing else is, and names share a file as before, exactly when link counts and inode numbers tell its files apart |
| `Recreation.RestoredTwiceFails` | src/unpack.cpp:54-59 | restoring a directory whose name is taken is an error |
| `Recreation.ConfusedTreeEscapes` | src/packer.cpp:154-164 | a tree of two one-byte files that is not recreated, and for which an exception escapes |
| `Recreation.MountedTreeConfused` | src/unpack.cpp:66-74 | a tree across two file systems, told apart by link counts, that is not recreated |
| `Cbc.RoundTrip` | src/decrypt.cpp:67 | decryption inverts encryption of whole blocks, for any invertible block cipher |
| `Cbc.EncryptChunks` | src/encrypt.cpp:108-124 | chunks with the carried iv encrypt as the whole message (section 6.2 of NIST SP 800-38A) |
| `Cbc.DecryptChunks` | src/decrypt.cpp:96-108 | likewise for decryption |
| `Cbc.BlockAt` | src/encrypt.cpp:116-120 | block i of a cipher text: the plain block xored with the cipher block before it, encrypted |
| `Cbc.PlainAt` | src/decrypt.cpp:96-108 | block i of a plain text: the cipher block decrypted, xored with the cipher block before it |
| `Encryption.NextChunk` | src/encrypt.cpp:116-120 | padding each chunk separately is padding the message |
| `Encryption.MakeKey` | src/encrypt.cpp:96-100 | byte i of the key is byte i of the password, or zero behind its end |
| `Encryption.KeysAgreeIff` | src/encrypt.cpp:96-100 | two passwords give one key exactly when their first 16 bytes, filled up with zeros, agree |
| `Encryption.Encryptor.Encrypt` | src/encrypt.cpp:86-125 | length, then the CBC cipher text of the zero-padded data, of any length |
| `Encryption.FileBlocks` | src/encrypt.cpp:63-125 | the encrypted file byte by byte: digest, length, and every block of the zero-filled data chained from a zero iv |
| `Encryption.Encryptor.Handle` | src/encrypt.cpp:7-31 | fails exactly on an empty password, leaving an empty file; otherwise writes the encrypted file |
| `Decryption.FullRun` | src/decrypt.cpp:96-108 | whole chunks decrypt as one message, up to the count or the end of the file |
| `Decryption.ShortRun` | src/decrypt.cpp:101-103 | a chunk cut short is an error |
| `Decryption.AcceptedExactly` | src/decrypt.cpp:58-123 | on any bytes: accepted exactly with a whole header, the right digest and a fitting body, stored lengths below zero included; the output is a prefix of the decrypted body, or empty |
| `Decryption.DecryptEncrypted` | src/decrypt.cpp:58-123 | on an encrypted file of any length: another password is accepted exactly when its digest is the same, and if its first 16 bytes, filled up with zeros, are too, gives back the data |
| `Decryption.CutIsAccepted` | src/decrypt.cpp:94-100 | an encrypted file of whole chunks cut off between two of them is decrypted without an error |
| `Decryption.LostWithoutError` | src/decrypt.cpp:94-100 | one such file: the data is gone, and no error is reported |
| `Decryption.NegativeLengthAccepted` | src/decrypt.cpp:92-109 | a stored length of -4096 takes any body and writes nothing |
| `Decryption.Decryptor.CheckDigest` | src/decrypt.cpp:58-70 | fails exactly when the first 16 bytes are not the digest |
| `Decryption.Decryptor.RoundLast` | src/decrypt.cpp:110-113 | the rounding loop, modulo 2^64, gives the next multiple of 16 |
| `Decryption.Decryptor.DecryptFull` | src/decrypt.cpp:94-108 | the chunk loop refines the specification |
| `Decryption.Decryptor.Decrypt` | src/decrypt.cpp:72-123 | on any bytes, negative stored lengths included |
| `Decryption.Decryptor.Handle` | src/decrypt.cpp:5-23 | outcome and output as specified; the source is only read |
| `Utils.ReNamed` | src/utils.cpp:13-17 | renaming one stage's output gives the name the next stage and the flag byte expect, dots in the base name included |
| `Utils.ExtensionsDiffer` | src/compresser.cpp:72-76 | files of different stages have different names, whatever their directories |
| `Utils.LongerName` | src/backend.cpp:248-255 | a temporary file named after a path is not that path |
| `BackEnds.FlagBits` | src/backend.cpp:49-66 | of the eight bits of the flag byte exactly those of the stages applied are set, the packer's among them |
| `BackEnds.PackedSomething` | src/packer.cpp:60-80 | an archive is empty exactly when the root is a special file |
| `BackEnds.EncodeSucceeds` | src/backend.cpp:88-124 | a chain fails exactly when it compresses nothing or encrypts under no password |
| `BackEnds.DecodeEncoded` | src/backend.cpp:242-271 | the stages of the flag byte, undone in reverse order, give the archive of the first stage |
| `BackEnds.TempNames` | src/backend.cpp:242-262 | the temporary files of a decoding by name: /tmp/x.dec with something to decrypt, /tmp/y.dcmp with something to decompress |
| `BackEnds.EndToEnd` | src/backend.cpp:213-286 | for every method and tree, on the disk: all stages are undone; the tree comes back exactly when link counts and inode numbers tell its files apart, and then there is no error and the disk is as before but for temporary files; in any case the archive is as before exactly when no file in it is cut short |
| `BackEnds.BackEnd.BackUpAndRestore` | src/backend.cpp:40-286 | encode by any method, then decode the file written, on one disk: the same conclusion |
| `BackEnds.SourceRestoredIff` | src/backend.cpp:213-286 | on any disk and any target: the archive is as before exactly when it was not empty and no file in what it decodes to is cut short; else it gains a zero byte, or loses its flag |
| `BackEnds.ConfusedArchiveCut` | src/backend.cpp:264-286 | for a tree of two one-byte files and every method the archive loses its flag byte |
| `BackEnds.BackEnd.EncryptHandle` | src/encrypt.cpp:7-49 | the encryptor ends a chain in the destination directory |
| `BackEnds.BackEnd.CompressHandle` | src/compresser.cpp:14-80 | the compressed file goes to the destination or to a temporary file, which is removed; later stages run even after a failure |
| `BackEnds.BackEnd.PackHandle` | src/packer.cpp:11-58 | the whole chain: temporary files gone, the last file in the destination, codes combined |
| `BackEnds.BackEnd.HandleChain` | src/backend.cpp:88-124 | the file named as final is the one the last stage wrote |
| `BackEnds.BackEnd.HandleEncode` | src/backend.cpp:42-115 | by first letter of the method: the code, the name and the bytes of the file written, spelled out: the archive; the compressed archive; digest, length and cipher text of it; and the flag byte 0x80, 0xC0 or 0xE0 |
| `BackEnds.BackEnd.TakeFlag` | src/backend.cpp:218-239 | flag read and cut off; an empty archive reads as 0 and stays |
| `BackEnds.BackEnd.UndoStages` | src/backend.cpp:242-263 | other files untouched, and after success only the last temporary file left |
| `BackEnds.BackEnd.HandleDecode` | src/backend.cpp:213-286 | any target; return code and every file on the disk, with and without an escaping exception |
| `BackEnds.BackEnd.HandleCopy` | src/backend.cpp:192-211 | copying is serialising to a temporary file and unpacking it into any target; the file stays if an exception escapes |
| `WriteQueue.StepKeeps` | env_confg/websocketpp/websocketpp/impl/connection_impl.hpp:1793-1928 | every action of every thread keeps the invariant of the write queue |
| `WriteQueue.EveryInterleaving` | env_confg/websocketpp/websocketpp/impl/connection_impl.hpp:104-152 | in every interleaving: pushed = completed, lost, in flight, queued, in push order; one write at a time; size of the queue; no lost wakeup; what the transport was given are the frames of a prefix of the pushed messages, header before payload |
| `WriteQueue.BatchTerminal` | env_confg/websocketpp/websocketpp/impl/connection_impl.hpp:1809-1817 | a batch ends with the first terminal message, or else is the whole queue |
| `WriteQueue.NothingAfterTerminal` | env_confg/websocketpp/websocketpp/impl/connection_impl.hpp:1809-1817 | once a terminal message has gone to the transport, nothing else ever does |
| `WriteQueue.RunsAreBounded` | env_confg/websocketpp/websocketpp/impl/connection_impl.hpp:1912-1927 | without new messages every run is finite |
| `WriteQueue.RestMeansWritten` | env_confg/websocketpp/websocketpp/impl/connection_impl.hpp:1912-1927 | at rest, every message has been written in order, unless the connection was stopped |
| `WriteQueue.Connection.WritePush` | env_confg/websocketpp/websocketpp/impl/connection_impl.hpp:2210-2225 | one message at the end, its payload added to the size |
| `WriteQueue.Connection.WritePop` | env_confg/websocketpp/websocketpp/impl/connection_impl.hpp:2228-2248 | the first message, if any, its payload taken off the size |
| `WriteQueue.Connection.Send` | env_confg/websocketpp/websocketpp/impl/connection_impl.hpp:120-142 | the locked section of sending |
| `WriteQueue.Connection.TakeBatch` | env_confg/websocketpp/websocketpp/impl/connection_impl.hpp:1809-1817 | the loop takes the queue up to and including its first terminal message |
| `WriteQueue.Connection.WriteFrame` | env_confg/websocketpp/websocketpp/impl/connection_impl.hpp:1796-1828 | a batch and the flag, unless a write is under way or nothing is queued; the batch and what stays make up the queue |
| `WriteQueue.Connection.StartWriting` | env_confg/websocketpp/websocketpp/impl/connection_impl.hpp:1830-1885 | two buffers a message, in order: its header, then its payload |
| `WriteQueue.Connection.HandleWriteFrame` | env_confg/websocketpp/websocketpp/impl/connection_impl.hpp:1889-1910 | the batch is never empty; an error or a terminal message stops the connection |
| `WriteQueue.Connection.ReleaseFlag` | env_confg/websocketpp/websocketpp/impl/connection_impl.hpp:1912-1927 | the flag is released, and a new write needed exactly if messages are queued |
| `Lifecycle.StepKeeps` | env_confg/websocketpp/websocketpp/impl/connection_impl.hpp:1698-1790 | every handler in whatever state keeps the invariant, and never moves the state back |
| `Lifecycle.NeverBackwards` | env_confg/websocketpp/websocketpp/impl/connection_impl.hpp:1351-1431 | connecting, open, closing, closed: never backwards in any run |
| `Lifecycle.HandlerContract` | env_confg/websocketpp/websocketpp/connection.hpp:61-79 | one shutdown; never fail and open; close only after open, and exactly as often once the shutdown is over |
| `Lifecycle.ClosesIff` | env_confg/websocketpp/websocketpp/impl/connection_impl.hpp:717-1046 | frames apart, exactly which handlers, in which states and with which reports, close a connection |
| `Lifecycle.Opens` | env_confg/websocketpp/websocketpp/impl/connection_impl.hpp:1351-1431 | a handshake from the start opens the connection when its response is written |
| `Lifecycle.RefusedFails` | env_confg/websocketpp/websocketpp/impl/connection_impl.hpp:1393-1419 | a refused handshake closes the connection when the refusal is written, and the fail handler runs |
| `Lifecycle.PeerCloses` | env_confg/websocketpp/websocketpp/impl/connection_impl.hpp:2020-2055 | a close frame on any open connection is acknowledged, and with the acknowledgement written it closes cleanly, with one call of the close handler |
| `Lifecycle.ApplicationCloses` | env_confg/websocketpp/websocketpp/impl/connection_impl.hpp:2020-2055 | closing any open connection, and the peer's answer, ends it cleanly, with one call of the close handler |
| `Lifecycle.BreachesDrop` | env_confg/websocketpp/websocketpp/impl/connection_impl.hpp:1058-1080 | where the configuration says so, a breach of the protocol ends an opened connection |
| `Lifecycle.BreachesClose` | env_confg/websocketpp/websocketpp/impl/connection_impl.hpp:1058-1080 | otherwise an open connection starts to close, if a close frame can be prepared |
| `Lifecycle.HttpFailHandlerIff` | env_confg/websocketpp/websocketpp/connection.hpp:71-79 | over all runs of plain HTTP connections whose shutdown is over: no fail handler exactly when a response written without error opened the connection, or closed it and then neither a reported error nor a response deferred and sent once more overwrote the code for its end before the shutdown was over |
| `Lifecycle.HttpConnectionFails` | env_confg/websocketpp/websocketpp/impl/connection_impl.hpp:1698-1736 | a run in which the fail handler is called after the response was written |
| `Lifecycle.SlowPeerFails` | env_confg/websocketpp/websocketpp/impl/connection_impl.hpp:1666-1679 | a run in which the response is never written, and the fail handler is called |
| `Lifecycle.LateDeferralFails` | env_confg/websocketpp/websocketpp/impl/connection_impl.hpp:661-699 | a run in which no handler reports an error, the response is written, and the fail handler is called |
| `Lifecycle.Connection.TerminateConnection` | env_confg/websocketpp/websocketpp/impl/connection_impl.hpp:1698-1748 | closes once, and remembers whether the connection was open; like every handler it keeps the invariant and never goes back |
| `Lifecycle.Connection.HandleTerminate` | env_confg/websocketpp/websocketpp/impl/connection_impl.hpp:1751-1790 | the handler for the remembered status, none for an ended HTTP connection |
| `Lifecycle.Connection.HandleTransportInit` | env_confg/websocketpp/websocketpp/impl/connection_impl.hpp:740-771 | on to reading the request, or terminate |
| `Lifecycle.Connection.HandleReadHandshake` | env_confg/websocketpp/websocketpp/impl/connection_impl.hpp:804-941 | guards, parse errors, and the answers to a complete request |
| `Lifecycle.Connection.SetStatus` | env_confg/websocketpp/websocketpp/impl/connection_impl.hpp:545-566 | refused outside the processing of a request, and then nothing changes |
| `Lifecycle.Connection.DeferResponse` | env_confg/websocketpp/websocketpp/impl/connection_impl.hpp:661-673 | defers in whatever state the connection is |
| `Lifecycle.Connection.SendResponse` | env_confg/websocketpp/websocketpp/impl/connection_impl.hpp:686-699 | only a deferred response is sent; the stored error code is overwritten, the life of the connection is not touched |
| `Lifecycle.Connection.HandleWriteHttpResponse` | env_confg/websocketpp/websocketpp/impl/connection_impl.hpp:1351-1431 | opens on status 101; ends HTTP connections and failed handshakes |
| `Lifecycle.Connection.ProcessCloseFrame` | env_confg/websocketpp/websocketpp/impl/connection_impl.hpp:1937-2055 | acknowledge on an open connection; end as the server after the acknowledgement; ignore when closed |
| `Lifecycle.Connection.HandleReadFrame` | env_confg/websocketpp/websocketpp/impl/connection_impl.hpp:965-1106 | the loop over the received pieces, and the errors that are ignored once closed |
| `Lifecycle.Connection.CloseByUser` | env_confg/websocketpp/websocketpp/impl/connection_impl.hpp:303-323 | only an open connection starts to close |
| `Utf8.AcceptsRest` | env_confg/websocketpp/websocketpp/utf8_validator.hpp:45-78 | from every state the table accepts exactly what the grammar still allows |
| `Utf8.RejectAbsorbs` | env_confg/websocketpp/websocketpp/utf8_validator.hpp:56 | the reject state is never left |
| `Utf8.RunConcat` | env_confg/websocketpp/websocketpp/utf8_validator.hpp:105-118 | decoding in pieces agrees with decoding the whole |
| `Utf8.DecodeAll` | env_confg/websocketpp/websocketpp/utf8_validator.hpp:69-78 | whenever the state returns to accept, the register holds the scalar value just read |
| `Utf8.AcceptedExactly` | env_confg/websocketpp/websocketpp/utf8_validator.hpp:143-149 | accepted, well-formed by section 4 of RFC 3629, and the encoding of some scalar values are the same thing |
| `Utf8.Validator.Decode` | env_confg/websocketpp/websocketpp/utf8_validator.hpp:105-118 | stops at the first error, with the state of the whole chunk |
| `Utf8.Validate` | env_confg/websocketpp/websocketpp/utf8_validator.hpp:143-149 | true exactly for well-formed strings |
| `Utf8.ValidateChunks` | env_confg/websocketpp/websocketpp/utf8_validator.hpp:81-136 | chunks of any sizes give the same answer as their concatenation |
| `Masking.MaskTwice` | env_confg/websocketpp/websocketpp/frame.hpp:645-655 | masking is its own inverse |
| `Masking.PreparedBytes` | env_confg/websocketpp/websocketpp/frame.hpp:595-604 | a prepared key is the key written twice in memory |
| `Masking.ShiftRotates` | env_confg/websocketpp/websocketpp/frame.hpp:612-623 | shifting the word is rotating its bytes |
| `Masking.ShiftKeepsShape` | env_confg/websocketpp/websocketpp/frame.hpp:612-623 | the period-4 shape is kept, and the key moved on |
| `Masking.XorWords` | env_confg/websocketpp/websocketpp/frame.hpp:710-712 | exclusive or of words is exclusive or of their bytes |
| `Masking.ByteMaskBuffer` | env_confg/websocketpp/websocketpp/frame.hpp:645-655 | every byte against its key byte; nothing else written; in place or not |
| `Masking.WordMaskExact` | env_confg/websocketpp/websocketpp/frame.hpp:702-717 | word by word is the same as byte by byte, in place or not |
| `Masking.WordMaskCirc` | env_confg/websocketpp/websocketpp/frame.hpp:768-789 | output and returned key for any prepared key; nothing beyond the length written |
| `Masking.ByteMaskCirc` | env_confg/websocketpp/websocketpp/frame.hpp:830-841 | likewise with the low half of the word |
| `Masking.StreamMasks` | env_confg/websocketpp/websocketpp/frame.hpp:768-841 | pieces of any sizes, in either form, with the returned key fed back, are masked as one payload |
| `Masking.StreamFromStart` | env_confg/websocketpp/websocketpp/frame.hpp:595-655 | from a freshly prepared key, byte i of the payload against byte i modulo 4 of the key: section 5.3 of RFC 6455 |

## Assumptions

* x86-64 Linux: 64-bit `size_t` and `off_t`, little-endian words, the field sizes of `inc/header.h`.
* Files do not change during a run; reads return what is there and writes succeed, so the exceptions for failing
  system calls do not occur. Sizes stay below 2^63, archives 4096 bytes below.
* Equal weights leave the heap in the order of the GNU implementation of `std::priority_queue`; the optimality results
  hold for every order.
* The block cipher is any invertible function of a 16-byte key and a 16-byte block, the digest any function to 16 bytes.
* Byte-order and bit arithmetic (`&` with `2^k - 1`, shifts, `|` of disjoint parts) is written with `/`, `%`, `+`.
* A file compressed to nothing but a header has no last byte; the uninitialised variable the decompressor then uses is
  the parameter `stale`.
* The round trip of trees is into an empty target directory; the unpacker itself is modelled on any.
* Paths are compared as strings, the empty one being the target directory itself. Results on arbitrary bytes are
  therefore about archives whose stored paths are empty or have plain components: none empty, `.` or `..`, and none
  of the directories on the way a symbolic link. Every path the packer stores is plain. `open` on a path that exists
  and is not a regular file counts as a failure.
* The children of a tree node are set by its constructor; the program sets them right after it.
* Handlers of a connection run one at a time, as the single server thread runs them. Nothing else is assumed about
  their order; a completed shutdown is reported once. The application may set a status, defer and send a response,
  close and terminate at any time between two handlers; from inside its own handlers it does what the actions name:
  set a status and defer in the HTTP handler, set a status when it refuses, close in the message handler.

## Left out

- Owner, mode and time restoration, which the unpacker does not do, and restoring access times while packing.
- Creating the destination directory, opening and closing files, `fsync`, removal failures, printing of errors.
- AES, MD5 and SHA-256 themselves.
- JSON parsing, directory listing, the front end and the main program.
- Data races on the connection state outside its lock: handlers are atomic steps, except in the write queue.
- The client role of a connection, the transports, timers' real time, logging, the protocol processors and the HTTP parser.
- Frame headers and Base64: pure encoders with one decoder each, which would add only easy members.
- Hard links among symbolic links or FIFOs, which neither packer nor unpacker keeps: they come back as separate objects.
- Compression.Compresser.Handle: weights are counted without wrap-around, because texts are shorter than 2^64 bytes.
- Recreation.TreeRoundTrip: names of one file report one link count and one content, and paths fit a length field, as on any file system.
