# pktd chain state, proved in Dafny

This project models the parts of pktd, a full node for the PKT network, that decide which
chain is best and keep it on disk, together with the address manager and the websocket
notification manager, and proves what they keep over every run.

- Chain selection (`ForkChoice`, `Chain`, `Tables`, `Records`, `ChainView`, `BlockIndex`,
  `BlockTree`). `ForkChoice` says, on values, what the arrival of a block does to validation
  flags and to the best branch, and proves safety over whole runs. `Chain` has the same
  operations as the node: an index of nodes, a view of the best branch, tables and a
  snapshot updated step by step; each arrival is proved to be one step of `ForkChoice`.
  `Records` carries the election records along.
- Orphans (`Orphans`, `Process`): the pool of blocks without a known parent and the worklist
  that offers them once the parent arrives.
- Locators (`Locator`): exponentially spaced hashes, the search that answers them, and the
  hashes at every so many blocks.
- Storage formats (`Vlq`, `Amounts`, `Scripts`, `Journal`, `Outpoints`, `Reload`): from
  variable-length quantities up to the spend journal, whose rows `Chain` writes and reads,
  and a start from the block index bucket and the best-state row.
- Arithmetic (`Powers`, `Compact`, `Difficulty`, `Merkle`, `MedianTime`): compact targets,
  retargeting, the flat Merkle store, past-median time.
- Election (`Election`, `Views`, `Undo`): the incremental count against the full recount, and
  the views of the unspent outputs through which blocks are counted, connected and taken back.
- Address manager (`AddrLedger`, `AddrManager`, `AddrPeers`): shared address objects with
  reference counts, two kinds of buckets, and the file they are saved to.
- Websocket (`Queues`, `Watches`): the two queue machines as steps, and the two-way index of
  what clients watch.

Where the code updates objects in place the model has classes; loops are loops; values such
as the database tables are maps in fields. Full block validation, hashing and elliptic curve
arithmetic are parameters that may answer anything; what is assumed of them is stated in the
contracts that need it.

## Findings

Some natural expectations do not hold of the code. Each has an input that shows it, and the
condition under which it holds is proved; but for the one marked, the condition is exact.

- A block reported as main chain need not be on the best chain: `InvalidLine.TakenAside` is a
  run that shows it, `ForkChoice.MainChainMeans` the condition.
- The pool can hold 101 orphans, one more than its limit: `Orphans.ExceedLimit` is a run that
  does it, and `Orphans.OrphanPool.AddOrphanBlock` states exactly when an addition does.
- Variable-length quantities do not sort numerically: `Vlq.OrderedUpTo` gives the bound.
- Amounts from about 2^64 / 9 on do not survive compression unless they end in a zero:
  `Amounts.LeastLost` has the smallest, which is less than a third of all money, and
  `Amounts.AmountRoundTrip` says exactly which.
- The code documented for an amount of 50000000, which is 47, is not the code it has, which is
  48 (`Amounts.Examples`).
- The disapproval on record need not be the value that votes against the steward. An output
  created and spent in one block is taken off though it was never there
  (`Views.SpentInItsBlock`), and in a reorganization an output that a view has loaded or
  committed and then left alone is counted again (`Views.CountedAgain`), because committing
  turns the mark of modification over instead of clearing it. `Election.DisapprovalKept` is
  the condition for one block, `Records.AcceptCounted` for every run.
- The easiest difficulty after a duration is no bound on reachable targets:
  `Difficulty.EasiestIsNoBound` is a run beyond it, `Difficulty.EasiestBounds` a condition on
  the stretches under which it is one. This is the one whose condition is not exact: packing
  loses up to two parts in 2^15 at each retarget and the limit cuts off. But for that loss,
  and away from the limit, `Difficulty.EasiestExceeded` is the converse.
- A failed load of the address file can leave counters that count nothing:
  `AddrPeers.FailsTooLate` shows it, `AddrPeers.LoadPeers` has the condition. A load that
  succeeds can still break the counts (`AddrPeers.LoadsTwice`), unless the file's buckets are
  well formed (`AddrPeers.LoadedValid`).
- Saved timestamps of addresses do not come back: a loaded address has the time of loading
  (`AddrPeers.SaveAndReload`).
- A new bucket takes one entry more than its nominal size: `AddrManager.FillBucket` is a run
  that does it, and `AddrManager.Manager.UpdateAddress` states exactly when one does.
- Disconnecting a block persists the work sum of the block removed, not of the new tip
  (`Tables.RemoveBlock`); a reorganization always ends by connecting, so between calls the
  work sum on record is the tip's (`Chain.BlockChain.Valid`).

## Model

| member | source | states |
|---|---|---|
| `ForkChoice.RunSafe` | blockchain/chain.go:1117-1257 | Over every run of arrivals with any verdicts the tree and its flags stay sound, the best branch stays all valid, its work never falls, and unless its work grew it still begins with the branch it was, so equal work never displaces a tip; while the store holds, every known block with more work than the tip is known invalid. |
| `ForkChoice.StepSafe` | blockchain/chain.go:1117-1257 | One arrival keeps the state safe, only adds flags, changes the branch only to one that ends in the new block, and only by extension or for strictly more work; a rule violation leaves the new block known invalid. |
| `ForkChoice.MostWorkWins` | blockchain/accept.go:27-101 | As long as every known block with more work than the tip is known invalid, a block none of whose ancestors failed validation has no more work than the tip. |
| `ForkChoice.InvalidHasFailure` | blockchain/blockindex.go:54-56 | A block known invalid has, in its lineage, a block that failed validation itself. |
| `ForkChoice.TipMeans` | blockchain/chain.go:1134-1211 | A block on the tip extends the branch if and only if validation is waived or accepts it, and is then valid; otherwise the verdict is passed on and the branch stays, and the block has failed validation if and only if it violates a rule; no other block's flags change. |
| `ForkChoice.SideMeans` | blockchain/chain.go:1217-1233 | A block is a side chain if and only if it is off the tip with no more work than it; then nothing changes but that it is known. |
| `ForkChoice.AsideMeans` | blockchain/chain.go:510-546 | When the way from the fork is known invalid, exactly the blocks above the highest such place are flagged, as having an invalid ancestor, and the branch stays. |
| `ForkChoice.ReorganizationMeans` | blockchain/chain.go:842-1101 | A heavier line with nothing known invalid above the fork becomes the branch if every block of it is known valid or accepted; otherwise the branch stays and the verdict on the first that is not is passed on; the flags of every known block afterwards, exactly. |
| `ForkChoice.MainChainMeans` | blockchain/chain.go:538-546 | The result "main chain" leaves the best branch as it was if and only if the block is off the tip, is heavier, and something on its line from the fork up is known invalid. |
| `ForkChoice.SelectMeans` | blockchain/chain.go:1117-1257 | The same equivalence for the selection itself, on any sound state; the branch afterwards is the old one or the whole new line. |
| `ForkChoice.SelectSafe` | blockchain/chain.go:1117-1257 | Every outcome of chain selection keeps its promise: extension, side chain, scan, check and switch alike. |
| `ForkChoice.ReorganizeSafe` | blockchain/chain.go:842-1101 | The promise for a reorganization, whichever way the search and the checks come out. |
| `ForkChoice.RejectUnique` | blockchain/chain.go:842-1101 | The first rejected height is the only height below which everything passes. |
| `ForkChoice.CleanUnique` | blockchain/chain.go:510-556 | The place where the downward scan stops is unique. |
| `ForkChoice.NotValidAbove` | blockchain/blockindex.go:46-56 | Nothing above a block that is not known valid is known valid. |
| `InvalidLine.TakenAside` | blockchain/chain.go:538-546 | A run from genesis, given such a tree, after which a block is taken as main chain and is not on the best branch. |
| `InvalidLine.SuchATree` | blockchain/blockindex.go:103-118 | A tree of that shape, built from block nodes with given difficulty bits. |
| `Chain.BlockChain.constructor` | blockchain/chainio.go:999-1109 | A new chain is valid, holds the genesis block alone, has its election record, and nothing outweighs it. |
| `Chain.BlockChain.MaybeAcceptBlock` | blockchain/accept.go:27-101 | A refused block changes nothing and the refusal is the first check that applies; otherwise exactly one node is filed, the state moves by one selection step, the answer is that step's, no assertion fails, and the database gains the body and, when the branch moved, exactly the records of the blocks connected. |
| `Chain.BlockChain.CheckArrival` | blockchain/accept.go:27-54 | The refusal is the first that applies: unknown parent, invalid parent, wrong claimed height, context check. |
| `Chain.RefusalMeans` | blockchain/accept.go:27-54 | A block is filed if and only if its parent is known and not known invalid, its claimed height is one above, and its context accepts it; each error if and only if it is the first to apply. |
| `Chain.BlockChain.AcceptOn` | blockchain/accept.go:56-101 | Filing a block on a known parent and selecting for it is one step of the selection relation, with the tables following. |
| `Chain.BlockChain.ConnectBestChain` | blockchain/chain.go:1117-1257 | Flags, branch, error and boolean are those of the selection; the database is untouched when the branch stays and has the moved records when it does not. |
| `Chain.BlockChain.ExtendBest` | blockchain/chain.go:1134-1211 | The case on the tip: validation is skipped when waived or known, a rule violation marks the block, a store failure marks nothing. |
| `Chain.BlockChain.ReorganizeChain` | blockchain/chain.go:842-1101 | Either every node to attach passes and the best chain is the new line, or the database and the snapshot are exactly what they were; flags as the check says. |
| `Chain.BlockChain.GetReorganizeNodes` | blockchain/chain.go:510-556 | The detach list is the branch from its tip down to the fork and the attach list the line from the fork up, or both are empty and the line is flagged from the invalid ancestor on. |
| `Chain.BlockChain.CheckAttach` | blockchain/chain.go:956-1011 | Nodes are checked up to the first rejection; what is marked valid, failed or as having an invalid ancestor is exactly determined. |
| `Chain.BlockChain.SwitchTo` | blockchain/chain.go:1018-1085 | Detaching to the fork and attaching the line gives the line, with journal and election records of exactly the blocks connected. |
| `Chain.BlockChain.AttachAll` | blockchain/chain.go:1049-1085 | After connecting a list the records are those computed block by block, each election state from its parent's. |
| `Chain.BlockChain.DetachAll` | blockchain/chain.go:1022-1046 | Disconnecting a list removes exactly its journal entries and keeps every election record. |
| `Chain.BlockChain.ConnectBlock` | blockchain/chain.go:569-694 | Connecting succeeds exactly for a block on the tip with one spent output for each input, and keeps view, tables and snapshot in agreement; otherwise nothing changes. |
| `Chain.BlockChain.DisconnectBlock` | blockchain/chain.go:700-819 | Disconnecting succeeds exactly for the tip, hands back what its journal row decodes to, which never fails, and keeps the agreement; the best-state row then names the parent, with the work sum of the block removed. |
| `Chain.BlockChain.ParentLoadable` | blockchain/chain.go:709-723 | The tip's parent always has a body and an election record to load, and the tip's journal row can be decoded. |
| `Chain.BlockChain.FileArrival` | blockchain/accept.go:65-83 | A block filed on a parent not known invalid is an admissible arrival in every state of the chain. |
| `Tables.PutMirrors` | blockchain/chain.go:609-684 | Connecting a block keeps the two index tables inverse to each other and equal to the branch, the journal rows exactly those of the non-genesis blocks and all decodable, the transaction total the sum along the branch, and an election record for every block. |
| `Tables.PutRow` | blockchain/chainio.go:481-509 | The journal row put for a block decodes to the outputs it spent, as the journal stores them; they are the same if and only if every amount's code fits in 64 bits. |
| `Tables.RemoveMirrors` | blockchain/chain.go:733-800 | Disconnecting keeps all of that, and never subtracts more transactions than the total holds. |
| `Tables.RemoveUndoesPut` | blockchain/chainio.go:852-885 | Removing a block just put restores both index tables and the journal. |
| `Tables.MovedByOne` | blockchain/chain.go:569-694 | Connecting one block is the one-block case of moving the records to another branch. |
| `Records.AcceptCounted` | blockchain/chain.go:1049-1085 | Along every run, with elections held block by block: records that were all right stay as they are while the best branch stays; when it moves, they are all right again if and only if no view of a block connected missed anything against the steward then on record. |
| `Records.NewCounted` | blockchain/chainio.go:999-1109 | The record of a new chain is right if and only if nothing votes against its first steward. |
| `Records.ElectedRight` | blockchain/chain.go:1070-1079 | Connecting a line to right records leaves all of them right if and only if no view misses anything. |
| `Records.LineElected` | blockchain/chain.go:1070-1079 | The same for the records of the line itself. |
| `Records.RightNext` | blockchain/election.go:77-154 | A right record before a block gives a right record after it if and only if the block's view misses nothing against the steward. |
| `BlockTree.BlockNode.constructor` | blockchain/blockindex.go:103-118 | A new node is one above its parent, hangs off a root, and adds to its parent's work sum the work of its target: 2^256 parted among one more than the target, rounded down, and nothing for a target that is not positive. |
| `BlockTree.WorkSumMeans` | blockchain/blockindex.go:103-118 | A node's work sum is the sum of the work of every block of its lineage. |
| `BlockTree.Ancestor` | blockchain/blockindex.go:154-165 | The parent walk finds the node at a height of the lineage, and nothing outside it. |
| `BlockTree.RelativeAncestor` | blockchain/blockindex.go:172-174 | The ancestor a distance below, or none. |
| `BlockIndex.Index.AddNode` | blockchain/blockindex.go:272-285 | The node is filed and dirty, nothing else changes, and rows still match all clean nodes. |
| `BlockIndex.Index.SetStatusFlags` | blockchain/blockindex.go:302-307 | Flags are added to one node, which becomes dirty. |
| `BlockIndex.Index.FlushToDB` | blockchain/blockindex.go:311-335 | A committed flush leaves nothing dirty and every row current; a failed one changes nothing; no row is lost. |
| `BlockIndex.Index.LookupNode` | blockchain/blockindex.go:261-266 | Finds the node filed under a hash, if there is one. |
| `ChainView.View.SetTip` | blockchain/chainview.go:114-146 | From any valid view, the early-stopping rewrite makes the view the whole lineage of the new tip. |
| `ChainView.View.Rewrite` | blockchain/chainview.go:142-145 | The walk stops only at a slot that already holds its node, and every slot above is the lineage's. |
| `ChainView.View.FindFork` | blockchain/chainview.go:288-318 | The fork is the last node shared by the view and the node's lineage, or none. |
| `ChainView.View.Contains` | blockchain/chainview.go:225-227 | A slot comparison decides membership of the branch. |
| `ChainView.View.Next` | blockchain/chainview.go:248-254 | The next node of the branch after one of its own. |
| `ChainView.View.Equals` | blockchain/chainview.go:211-218 | Comparing length and tip decides equality of the branches. |
| `ChainView.LinkedAgree` | blockchain/chainview.go:288-318 | Two branches that share a node share everything below it. |
| `Locator.FastLog2Floor` | blockchain/chainview.go:21-32 | Five masked halvings compute the exponent of the largest power of two in a 32-bit number. |
| `Locator.MaxEntries` | blockchain/chainview.go:360-372 | The preallocated size is the exact length of the locator. |
| `Locator.BlockLocator` | blockchain/chainview.go:351-408 | For any node and any view, the locator lists the ancestors at h - k for k up to ten and then at h - 9 - 2^j, cut off at genesis. |
| `Locator.LocatorFrom` | blockchain/chainview.go:351-408 | The list built has exactly the preallocated length. |
| `Locator.LocatorShape` | blockchain/chainview.go:351-408 | The heights descend strictly from the node to genesis. |
| `Locator.Walk` | blockchain/chainview.go:374-405 | The mixed slot and parent lookups give the same list as plain ancestor walks, and the doubling step wraps only after its last use. |
| `Locator.Hop` | blockchain/chainview.go:394-398 | From a node of a branch to a lower one, by slot or by walk, whatever the view. |
| `Locator.IntervalBlockHashes` | blockchain/chain.go:1518-1551 | For every view, entry i - 1 is the hash of the ancestor at height i times the interval; unknown and unvalidated blocks are the only errors. |
| `Locator.WalkMultiples` | blockchain/chain.go:1530-1548 | The walk down the multiples of the interval. |
| `Locator.FirstKnown` | blockchain/chain.go:1585-1592 | The start is the first locator entry on the branch, else genesis. |
| `Locator.LocateInventory` | blockchain/chain.go:1569-1614 | The node after the start, and a number of blocks that is no more than asked for, and less only if the run then ends at the stop block ahead on the branch, or else at the tip. |
| `Locator.LocateBlocks` | blockchain/chain.go:1623-1639 | The hashes of a contiguous run of the branch after the start: never empty when there is a next block and any is asked for, never more than asked for, never past the stop, and unless it is as long as asked for its last hash is the stop's or the tip's. |
| `Locator.StartAtFirst` | blockchain/chain.go:1585-1592 | The start is the height of the first locator entry on the branch. |
| `Locator.StartAtGenesis` | blockchain/chain.go:1585-1592 | Without one the start is genesis. |
| `Locator.ResendBound` | blockchain/chain.go:1569-1614 | A locator of a node that left the branch d blocks below itself restarts at the fork for d up to ten and at most d - 11 blocks lower otherwise. |
| `Orphans.OrphanPool.AddOrphanBlock` | blockchain/chain.go:297-337 | Expired orphans go, then at the limit the marked one if it is there; the pool ends above its limit if and only if the survivors exceed it, or meet it while the mark is on none of them and would go first. |
| `Orphans.AddedMeans` | blockchain/chain.go:297-337 | Every other orphan stays if and only if its time is not past and it does not have to make room; only at the limit does one have to, the one marked, which no survivor expires before. |
| `Orphans.OrphanPool.RemoveOrphanBlock` | blockchain/chain.go:258-289 | The orphan leaves the pool and its parent's list, and no empty list stays. |
| `Orphans.OrphanPool.DropExpired` | blockchain/chain.go:299-310 | Exactly the expired orphans go and the mark moves to the first to expire. |
| `Orphans.OrphanPool.RoomIsMade` | blockchain/chain.go:313-317 | How many are left once room is made, and when that is the full limit. |
| `Orphans.RefileRemoves` | blockchain/chain.go:265-288 | Removing an orphan keeps the lists naming exactly the pool's orphans by parent, each once. |
| `Orphans.RefileAdds` | blockchain/chain.go:327-336 | Adding one keeps it too. |
| `Orphans.ExceedLimit` | blockchain/chain.go:297-337 | A run that takes the pool to 101 orphans. |
| `Process.Processor.ProcessOrphans` | blockchain/process.go:89-141 | Terminates; offers every orphan reachable from the hash exactly once, parents first, and leaves none of them in the pool; each offer moves the chain by one step; a store failure stops it. |
| `Process.Processor.OfferChildren` | blockchain/process.go:96-138 | All children of one parent are offered and queued in turn; rule violations are dropped. |
| `Process.Processor.ProcessBlock` | blockchain/process.go:153-265 | The first refusal that applies, with nothing changed; an unknown parent puts the block into the pool; otherwise the block and then exactly the orphans that descend from it are offered; unless the store failed no acceptable orphan waits and the best chain is still the heaviest. |
| `Process.RefusedMeans` | blockchain/process.go:153-237 | A block is looked at further if and only if it is new, sane, has no bad proof and no checkpoint against it; each error if and only if it is the first to apply. |
| `Process.Processor.AcceptWithOrphans` | blockchain/process.go:247-264 | Taking in a block whose parent is known: its own answer, then the trace of every orphan offered after it. |
| `Process.Processor.Keep` | blockchain/process.go:240-245 | A block with an unknown parent joins the pool by the pool's own rules. |
| `Process.ExactlyReachableOffered` | blockchain/process.go:89-141 | Once nothing is pending, the offered orphans are exactly the reachable ones. |
| `Process.PathOffered` | blockchain/process.go:89-141 | The end of every chain of orphans has been offered. |
| `Process.SettledAfterOffer` | blockchain/process.go:89-141 | Offering a block leaves only its own children possibly acceptable. |
| `Vlq.EncodeBijective` | blockchain/compress.go:53-107 | Encoding is a bijection between the naturals and the well-formed byte strings. |
| `Vlq.EncodedSizes` | blockchain/compress.go:25-26 | One byte up to 127, two up to 16511, three up to 2113663. |
| `Vlq.Examples` | blockchain/compress.go:31-38 | The documented encodings of up to two bytes. |
| `Vlq.LongExamples` | blockchain/compress.go:39-42 | The documented encodings of three and four bytes. |
| `Vlq.SerializeSizeVLQ` | blockchain/compress.go:53-60 | The size is the length of the encoding. |
| `Vlq.PutVLQ` | blockchain/compress.go:67-89 | The buffer gets exactly the encoding at the offset and nothing else changes. |
| `Vlq.DeserializeVLQ` | blockchain/compress.go:94-107 | The loop computes the 64-bit reading of any byte string. |
| `Vlq.ParseEncode` | blockchain/compress.go:94-107 | Every 64-bit number is read back whatever follows it, without overflow. |
| `Vlq.OrderedUpTo` | blockchain/compress.go:38-39 | Encodings of all numbers up to a bound sort numerically if and only if the bound is at most 16511. |
| `Vlq.SameSizeOrdered` | blockchain/compress.go:38-39 | Encodings of the same length sort numerically. |
| `Amounts.CompressBijective` | blockchain/compress.go:464-529 | Compression and decompression are inverse bijections on the naturals. |
| `Amounts.CompressMeans` | blockchain/compress.go:436-448 | The code of an amount by its trailing zeros and last digit, as the format is documented. |
| `Amounts.Examples` | blockchain/compress.go:450-459 | The documented codes, and the one that the code does not agree with. |
| `Amounts.CompressFits` | blockchain/compress.go:464-489 | A 64-bit amount has a 64-bit code if and only if it ends in a zero or is small enough. |
| `Amounts.CompressTxOutAmount` | blockchain/compress.go:464-489 | The loop computes the code modulo 2^64. |
| `Amounts.DecompressTxOutAmount` | blockchain/compress.go:494-529 | The loop computes the amount modulo 2^64. |
| `Amounts.AmountRoundTrip` | blockchain/compress.go:464-529 | In 64 bits an amount comes back if and only if its code fits: no wrapped code ever comes back. |
| `Amounts.LeastLost` | chaincfg/globalcfg/config.go:73 | Every amount below 2049638230412172403 comes back and that one does not; it is between a quarter and a third of all money. |
| `Scripts.CompressedScriptSize` | blockchain/compress.go:245-266 | The size is the length of the compressed script. |
| `Scripts.PutCompressedScript` | blockchain/compress.go:300-339 | The buffer gets exactly the compressed script at the offset. |
| `Scripts.DecodeCompressedScriptSize` | blockchain/compress.go:272-293 | The span the decoder claims, for any byte string. |
| `Scripts.SpanOfCompressed` | blockchain/compress.go:272-293 | The claimed span is the length written, whatever follows. |
| `Scripts.ScriptRoundTrip` | blockchain/compress.go:348-422 | Every script comes back, special forms and others, when key decompression inverts compression. |
| `Scripts.HashKinds` | blockchain/compress.go:300-339 | Payments to a key hash are kept as byte 0 and the hash, payments to a script hash as byte 1 and the hash, and both are made again from that. |
| `Scripts.KeyKinds` | blockchain/compress.go:300-339 | Payments to a valid key are kept as its x coordinate after 2 or 3, or after 4 or 5 by the oddness of y. |
| `Scripts.PlainKind` | blockchain/compress.go:300-339 | Any other script is kept whole after its length plus six. |
| `Journal.CompressedTxOutSize` | blockchain/compress.go:547-550 | The size is the length of the compressed output. |
| `Journal.PutCompressedTxOut` | blockchain/compress.go:557-561 | The buffer gets exactly the compressed output. |
| `Journal.TxOutRoundTrip` | blockchain/compress.go:566-587 | For every amount and script: the script comes back, the amount does if and only if its code fits, and exactly the bytes written are consumed, whatever follows. |
| `Journal.SpentTxOutSerializeSize` | blockchain/chainio.go:321-330 | The size is the length of the spent output's record. |
| `Journal.PutSpentTxOut` | blockchain/chainio.go:336-347 | The buffer gets exactly the record. |
| `Journal.SpentRoundTrip` | blockchain/chainio.go:352-394 | Every spent output is read from its record, whatever follows; it is the one written if and only if its amount's code fits. |
| `Journal.SerializeSpendJournalEntry` | blockchain/chainio.go:453-473 | The entry is the records in reverse order, at the sizes computed beforehand. |
| `Journal.DeserializeSpendJournalEntry` | blockchain/chainio.go:402-449 | Reads as many records as the transactions have inputs, with the error cases of a missing or malformed entry. |
| `Journal.JournalRoundTrip` | blockchain/chainio.go:402-473 | All spent outputs are read in order, whatever follows. |
| `Journal.BlockJournalRoundTrip` | blockchain/chainio.go:402-473 | The whole entry is read for every grouping of transactions with that many inputs; what comes back is what was written if and only if every amount's code fits. |
| `Journal.RecordBytes` | blockchain/chainio.go:206-217 | The bytes of a record: twice the height and one for a coinbase, a zero byte if the height is positive, the amount's code, the script. |
| `Journal.LaterFirst` | blockchain/chainio.go:453-473 | Later outputs come first in an entry. |
| `Journal.KeyExample` | blockchain/chainio.go:219-233 | The first documented record, byte for byte. |
| `Journal.HashExample` | blockchain/chainio.go:235-257 | The second documented record, byte for byte. |
| `Outpoints.OutpointKey` | blockchain/chainio.go:615-625 | The key is the hash and the encoded index, within the recycled buffer. |
| `Outpoints.KeyInjective` | blockchain/chainio.go:615-625 | Different outpoints have different keys. |
| `Outpoints.SeekFindsTransaction` | blockchain/chainio.go:722-747 | Seeking the key of index zero finds an entry of the transaction if and only if there is one. |
| `Merkle.BuildMerkleTreeStore` | blockchain/merkle.go:109-160 | The leaves are the transactions' hashes, or with witnesses the zero hash and then the witness hashes; the store is padded as described and its last cell is the recursive root. |
| `Merkle.RootDependsOn` | blockchain/merkle.go:117-129 | A witness root does not depend on the first transaction, a plain root not on any witness. |
| `Merkle.RootIsTreeRoot` | blockchain/merkle.go:131-157 | Pairing level by level gives the root of the smallest balanced tree that holds the leaves, defined from the top down. |
| `Merkle.LastIsRoot` | blockchain/merkle.go:109-160 | For every number of leaves the last cell is the root that duplicates an odd last node. |
| `Merkle.NextPowerOfTwo` | blockchain/merkle.go:52-61 | The smallest power of two not below a number. |
| `Merkle.GetMerkleBranch` | blockchain/merkle.go:164-178 | The loop over the flat store collects the sibling at every level. |
| `Merkle.BranchProves` | blockchain/merkle.go:164-178 | Folding any leaf with its branch, a missing sibling meaning the node itself, gives the root. |
| `Merkle.FirstBranchFull` | rpcserver.go:2101-2116 | The first leaf's branch has no missing sibling and folds on the left to the root. |
| `Merkle.CheckShare` | rpcserver.go:2189-2203 | The check accepts exactly the branches that fold to the root. |
| `Merkle.ServedBranchAccepted` | rpcserver.go:2101-2116 | The share check accepts the branch served with a template, for every list of transactions. |
| `Compact.PackingRoundsDown` | blockchain/difficulty.go:64-132 | Decoding an encoded number never exceeds it and loses at most one part in 2^15. |
| `Compact.PackingMonotone` | blockchain/difficulty.go:96-132 | Encoding is monotone. |
| `Compact.PackingStable` | blockchain/difficulty.go:96-132 | Encoding a decoded encoding gives it again. |
| `Compact.PackingIsBest` | blockchain/difficulty.go:96-132 | Packing rounds to the largest number not above it that any compact value stands for. |
| `Compact.CompactMeans` | blockchain/difficulty.go:64-88 | A compact value is its mantissa times 256 to its exponent less three, rounded towards zero, with its sign. |
| `Compact.WorkMeans` | blockchain/difficulty.go:144-156 | The work of a target that is not positive is nothing; of another it is 2^256 over one more than the target, rounded down. |
| `Compact.HarderIsMoreWork` | blockchain/difficulty.go:144-156 | A smaller positive target never has less work. |
| `Difficulty.RetargetBounds` | blockchain/difficulty.go:283-313 | For any timespan the new target stays within the limit and the adjustment factor, and rounding loses at most one part in 2^15 of the least. |
| `Difficulty.RetargetMonotone` | blockchain/difficulty.go:283-313 | A longer stretch never makes the next one harder. |
| `Difficulty.RetargetFixpoint` | blockchain/difficulty.go:283-313 | A stretch of exactly the target time keeps a packed difficulty. |
| `Difficulty.CalcEasiestDifficulty` | blockchain/difficulty.go:162-194 | The loop with its early stop computes the closed form min(limit, target times factor to the number of rounds), packed. |
| `Difficulty.RoundsCeiling` | blockchain/difficulty.go:183-186 | The number of rounds is the duration over the longest stretch, rounded up. |
| `Difficulty.EasiestBounds` | blockchain/difficulty.go:183-186 | The easiest difficulty bounds every run of retargets whose stretches multiply to no more than its own rounds would. |
| `Difficulty.EasiestExceeded` | blockchain/difficulty.go:183-186 | A run clear of the limit goes beyond the easiest difficulty when its stretches, less two parts in 2^15 each, multiply to more than the rounds would. |
| `Difficulty.ClearStretch` | blockchain/difficulty.go:283-313 | Over any run clear of the limit the target grows at least by the stretches over the target time, less two parts in 2^15 each. |
| `Difficulty.EasiestBoundsRounds` | blockchain/difficulty.go:183-186 | In particular it bounds as many retargets as it counts rounds. |
| `Difficulty.EasiestIsNoBound` | blockchain/difficulty.go:183-186 | Four retargets at three times the target time go beyond the three rounds of the same duration. |
| `Difficulty.AfterStretch` | blockchain/difficulty.go:283-313 | Over any run of retargets the target grows at most by the stretches over the target time. |
| `Difficulty.AfterBound` | blockchain/difficulty.go:283-313 | Over any run of retargets the target grows at most by the factor each time. |
| `Difficulty.FindPrevTestNetDifficulty` | blockchain/difficulty.go:200-217 | The bits of the last block without the special minimum, back to the last retarget. |
| `Difficulty.CalcNextRequiredDifficulty` | blockchain/difficulty.go:224-281 | The required bits for every lineage; the assertion about the previous retarget block cannot fail. |
| `Difficulty.RequiredRetargets` | blockchain/difficulty.go:255-281 | At a retarget the required target is the last one times what the stretch took over what it should take, the ratio within the adjustment factor, the result within the limit, less at most one part in 2^15. |
| `Difficulty.RequiredFixpoint` | blockchain/difficulty.go:255-281 | A stretch of exactly the target time keeps the required bits. |
| `Difficulty.RequiredMonotone` | blockchain/difficulty.go:255-281 | A longer last stretch never makes the required difficulty harder. |
| `Difficulty.RequiredBetween` | blockchain/difficulty.go:231-253 | Off a retarget the last bits are required, unless the minimum rule applies: then the minimum for a late block, else the bits of the last block that began a stretch or did not use the rule. |
| `Difficulty.RequiredWithinLimit` | blockchain/difficulty.go:224-281 | The required target stays within the limit. |
| `Difficulty.LineWithinLimit` | blockchain/difficulty.go:224-281 | Along a line whose blocks all have the required bits, every target is within the limit. |
| `Election.Tally.CastBallot` | blockchain/election.go:37-60 | A ballot adds its value to the padded key it votes for and to the one it votes against, and to nothing else. |
| `Election.FullCount` | blockchain/election.go:110-134 | The tally over the set and then the view counts every key's votes in both. |
| `Election.Disapproval` | blockchain/election.go:83-96 | The incremental disapproval is the old one plus the view's change. |
| `Election.PickWinner` | blockchain/election.go:135-153 | The winner has maximal positive approval, or the steward stays. |
| `Election.ElectionProcessBlock` | blockchain/election.go:77-154 | The steward stays while at most half the money disapproves; otherwise the count decides. |
| `Election.MajorityRules` | blockchain/election.go:77-154 | Through a view that misses nothing: a steward stays while the value against it is at most half of all money; otherwise a key with the most value behind it takes office, if any has some; the record is right again. |
| `Election.PadMeans` | blockchain/election.go:37-60 | Keys are tallied together if and only if their first 80 bytes agree, missing ones being zero. |
| `Election.DisapprovalKept` | blockchain/election.go:77-154 | Both ways keep the recorded disapproval equal to the value of the unspent outputs voting against the steward, if and only if what the view both created and spent against the steward weighs as much as what it counts though the set had it already. |
| `Election.OffAfter` | blockchain/election.go:77-154 | Whatever the record was off by, after a block it is off by that, or by nothing when a count elected a steward, less what the view misses. |
| `Election.ElectionWon` | blockchain/election.go:135-153 | When any key has credit, the winner's credit is maximal; its support is maximal against a key if and only if the view misses no more of that key's support than the lead makes up for. |
| `Election.NoSupportNoChange` | blockchain/election.go:135-153 | When no key has credit the steward stays. |
| `Election.ScoresAfter` | blockchain/election.go:98-134 | A candidate's two scores are the values for and against its key after the block, less what the view misses. |
| `Election.TotalAfter` | blockchain/election.go:83-96 | Applying a view changes every total by the view's change and by what that misses: outputs both created and spent are taken off though they were never there, outputs restated are added though they were. |
| `Election.ExactTotal` | blockchain/election.go:37-60 | For keys that stay distinct when padded, counting padded keys is counting keys. |
| `Views.ConnectTransaction` | blockchain/utxoviewpoint.go:235-276 | Spends every input and then adds every output, or stops at an input with no entry; the output that each input spends is noted. |
| `Views.ConnectTransactions` | blockchain/utxoviewpoint.go:283-295 | The same for the transactions of a block in order. |
| `Views.ConnectKeeps` | blockchain/utxoviewpoint.go:165-295 | Connecting a block keeps the view in step with the set, and nothing in it is restated. |
| `Views.FetchKeeps` | blockchain/utxoviewpoint.go:512-562 | Loading an output that the view has no entry for gives it the set's, or none; the view stays in step. |
| `Views.DisconnectKeeps` | blockchain/utxoviewpoint.go:349-473 | Marking an output of a disconnected block as spent, or restoring one it spent, keeps the view in step. |
| `Views.CommitKeeps` | blockchain/utxoviewpoint.go:495-504 | A committed view is in step with the new set; what it restates there is exactly what was loaded or committed before and left alone. |
| `Views.OnTheTip` | blockchain/chain.go:1134-1211 | For a block on the tip the record stays right if and only if the block has not both created and spent value against the steward. |
| `Views.SpentInItsBlock` | blockchain/utxoviewpoint.go:95-103 | A block whose transactions create an output against the steward and spend it, which leaves a negative disapproval while nothing votes. |
| `Views.CountedAgain` | blockchain/utxoviewpoint.go:495-504 | Three blocks connected through one view, after which one output against the steward has been counted twice. |
| `Undo.ConnectApplies` | blockchain/utxoviewpoint.go:235-295 | Connecting a block through any view does to the set what its transactions do one after the other. |
| `Undo.NotedIsSpent` | blockchain/utxoviewpoint.go:246-265 | The spent outputs noted are exactly those the block spends from the set. |
| `Undo.DisconnectTransactions` | blockchain/utxoviewpoint.go:349-473 | Takes a block back transaction by transaction and input by input from the end, or stops when the number of spent outputs is wrong. |
| `Undo.DisconnectApplies` | blockchain/utxoviewpoint.go:349-473 | Disconnecting through any view does to the set what taking the transactions back one after the other does. |
| `Undo.BlockUndone` | blockchain/utxoviewpoint.go:349-473 | Taking back a block restores the set as it was before. |
| `Undo.DisconnectUndoesConnect` | blockchain/utxoviewpoint.go:235-473 | A block connected through one view and disconnected through another, with the spent outputs that were noted, leaves the set as it was. |
| `Undo.CommitSettles` | blockchain/utxoviewpoint.go:495-504 | A committed view says nothing new of the set, so one view can serve for block after block. |
| `AddrManager.Manager.constructor` | addrmgr/addrmanager.go:1131-1142 | A new manager is valid and empty. |
| `AddrManager.Manager.UpdateAddress` | addrmgr/addrmanager.go:172-244 | What is heard of an address: when it joins a bucket, which entries make room, what is renewed; the bucket joined ends above its nominal size if and only if it held exactly that many, or one more with no bad entry, and every other bucket is as it was; all counts stay right and the random draw is never over nothing. |
| `AddrManager.RefreshedMeans` | addrmgr/addrmanager.go:178-196 | What news changes: services are only added; the timestamp goes forward if and only if the news is later, and back if and only if it is earlier but names a new service. |
| `AddrManager.Manager.JoinsMeans` | addrmgr/addrmanager.go:197-230 | When an address joins a bucket, by what is kept of it: unknown, or not tried, with fewer than eight references, and lucky. |
| `AddrManager.JoinedMeans` | addrmgr/addrmanager.go:232-284 | What joining does to every address and bucket: exactly the bad entries and the eldest leave a bucket above its size, and are forgotten if and only if it was their only one. |
| `AddrManager.Manager.ExpireNew` | addrmgr/addrmanager.go:248-284 | Exactly the bad entries and the oldest of the others leave the bucket, and the index when it was their last. |
| `AddrManager.Manager.PickTried` | addrmgr/addrmanager.go:289-301 | The first entry with the smallest timestamp. |
| `AddrManager.Manager.Good` | addrmgr/addrmanager.go:893-977 | The address becomes tried; in a full bucket the oldest goes back to a new bucket with room. |
| `AddrManager.BetteredMeans` | addrmgr/addrmanager.go:893-977 | What becoming tried does, bucket by bucket, and where the address that makes room goes. |
| `AddrManager.Manager.Evict` | addrmgr/addrmanager.go:947-977 | The exchange with the oldest entry of a full tried bucket. |
| `AddrManager.Manager.LeaveNew` | addrmgr/addrmanager.go:918-930 | The address leaves every new bucket and the first of them is remembered. |
| `AddrManager.Manager.Attempt` | addrmgr/addrmanager.go:852-865 | The attempt is counted for that address only. |
| `AddrManager.Manager.Connected` | addrmgr/addrmanager.go:870-888 | The timestamp is renewed at most once in twenty minutes. |
| `AddrManager.Manager.SetServices` | addrmgr/addrmanager.go:980-996 | The services of that address only are set. |
| `AddrManager.Manager.Meaning` | addrmgr/addrmanager.go:172-301 | Validity without the ledger: every reference count is the number of new buckets with the address, at most eight; tried addresses have none and others at least one; a tried address has exactly one place in the tried buckets and others have none; both counters count; bucket sizes are bounded. |
| `AddrManager.JoinedSize` | addrmgr/addrmanager.go:232-240 | How large a bucket becomes when an address joins it, as an equivalence on what it held. |
| `AddrManager.FillBucket` | addrmgr/addrmanager.go:232-240 | A run that fills a new bucket to 65 entries. |
| `AddrLedger.PlaceInv` | addrmgr/addrmanager.go:172-244 | Placing an address keeps the ledger's invariant. |
| `AddrLedger.ExpireInv` | addrmgr/addrmanager.go:248-284 | Expiring entries keeps it. |
| `AddrLedger.PromoteInv` | addrmgr/addrmanager.go:893-945 | Leaving the new buckets keeps it. |
| `AddrLedger.SwapInv` | addrmgr/addrmanager.go:947-977 | The exchange in a tried bucket keeps it. |
| `AddrLedger.TriedCount` | addrmgr/addrmanager.go:893-977 | The tried buckets have as many entries as there are tried addresses. |
| `AddrPeers.SavePeers` | addrmgr/addrmanager.go:367-425 | The file has every address once with its data, and lists that make the manager's own ledger. |
| `AddrPeers.DeserializePeers` | addrmgr/addrmanager.go:448-554 | Loading succeeds if and only if the version is known, all addresses resolve, buckets hold listed addresses only, and each address is new or tried and not both; then all counts follow from the lists; the counters stay zero if and only if nothing was counted before the load broke off. |
| `AddrPeers.LoadPeers` | addrmgr/addrmanager.go:429-446 | After a load that went through the manager is valid if and only if the file's buckets were well formed; after one that failed, if and only if it failed before anything was counted. |
| `AddrPeers.Reset` | addrmgr/addrmanager.go:713-728 | The index and buckets are emptied and the counters keep their values. |
| `AddrPeers.SaveAndReload` | addrmgr/addrmanager.go:367-554 | A new manager that loads what a valid one saved is valid with the same ledger, counters, reference counts and marks, and the same addresses but for their timestamps. |
| `AddrPeers.LoadedValid` | addrmgr/addrmanager.go:448-554 | The equivalence behind it, including that repeated entries in a bucket break the reference counts. |
| `AddrPeers.WellFormedLoads` | addrmgr/addrmanager.go:541-553 | Well-formed buckets always pass the sanity check. |
| `AddrPeers.FailsTooLate` | addrmgr/addrmanager.go:429-446 | A file whose load fails after counting, which leaves an empty manager that is not valid. |
| `AddrPeers.LoadsTwice` | addrmgr/addrmanager.go:500-553 | A file that lists an address twice in a bucket, which loads and leaves a manager that is not valid. |
| `Reload.LoadIndex` | blockchain/chainio.go:1162-1204 | For a bucket walked by its cursor, loading succeeds if and only if every row's parent has an earlier row; rows that were stored always load, and every block comes back with its parent, height, work and flags. |
| `Reload.CursorInOrder` | blockchain/chainio.go:1345-1350 | Because keys begin with the big-endian height, a cursor meets rows in order of height, each once. |
| `Reload.KeysByHeight` | blockchain/chainio.go:1345-1350 | The byte order of keys is the order of heights. |
| `Reload.ParentLoaded` | blockchain/chainio.go:1165-1193 | When a row's turn comes its parent has been loaded; only the genesis block has none. |
| `Reload.ChainReloads` | blockchain/blockindex.go:311-335 | The rows a valid chain keeps are always loadable. |
| `Reload.InitChainState` | blockchain/chainio.go:1114-1265 | Starting succeeds if and only if the index loads and the best-state row names a block with a row, a body and an election record; the view is then the lineage of that block, all of it marked valid, and the snapshot is rebuilt from its body, its record and the row. |
| `Reload.Restart` | blockchain/chainio.go:1114-1265 | A chain can always be started again from what it has stored: the same best branch block for block, the same snapshot, and every stored block with its flags. |
| `Reload.MarkValid` | blockchain/chainio.go:1225-1242 | Every node of the lineage becomes valid and keeps its other flags. |
| `Reload.LineageTwins` | blockchain/chainio.go:1162-1211 | The lineage of a loaded block stands node for node for the lineage that was stored. |
| `MedianTime.CalcPastMedianTime` | blockchain/blockindex.go:180-216 | The median of the last timestamps of the lineage, fewer near genesis. |
| `MedianTime.MedianRank` | blockchain/blockindex.go:199-215 | The median is at least a value if and only if at most half the timestamps are below it. |
| `MedianTime.PastMedianMeans` | blockchain/blockindex.go:180-216 | The past median is not before a time if and only if at most half of the last blocks are. |
| `MedianTime.MedianStep` | blockchain/blockindex.go:180-216 | A block no earlier than its parent's median does not lower the median. |
| `MedianTime.MedianNeverFalls` | blockchain/doc.go:46-50 | Along every chain whose blocks are later than their parents' past median, the past median never falls, for every window. |
| `Queues.QueueHandler.Accept` | rpcwebsocket.go:152-194 | A message is delivered at once or held behind what is held; delivered and held are what was accepted. |
| `Queues.QueueHandler.Deliver` | rpcwebsocket.go:152-194 | The next message out is the next one accepted. |
| `Queues.ClientQueue.Queue` | rpcwebsocket.go:1461-1526 | A notification is sent when none is outstanding, else held in order. |
| `Queues.ClientQueue.Write` | rpcwebsocket.go:1532-1568 | Writing a notification reports it in a slot that is always free. |
| `Queues.ClientQueue.Report` | rpcwebsocket.go:1461-1526 | A reported notification lets the next one go. |
| `Queues.ClientQueue.Reply` | rpcwebsocket.go:1576-1586 | A reply goes straight to the send channel and leaves notifications alone. |
| `Queues.ClientQueue.Take` | rpcwebsocket.go:1532-1568 | The writer takes the next message off the send channel. |
| `Queues.IdleMeansDelivered` | rpcwebsocket.go:1461-1526 | What is delivered is a prefix of what was accepted, all of it when none is outstanding. |
| `Watches.WatchIndex.Add` | rpcwebsocket.go:833-848 | The client's requests grow by the keys, and both sides of the index agree. |
| `Watches.Manager.AddSpentRequests` | rpcwebsocket.go:830-866 | After adding the requests, every transaction of the memory pool that spends one of the outputs is told to exactly those who watch an input of it, once each; the client that asked is among them. |
| `Watches.WatchIndex.Remove` | rpcwebsocket.go:882-902 | The request goes from both sides, and no empty entry stays. |
| `Watches.WatchIndex.RemoveClient` | rpcwebsocket.go:503-516 | Every request of a client goes, and it watches nothing. |
| `Watches.Manager.NotifyForBlock` | rpcwebsocket.go:455-473 | What every client watches after all transactions of a block, in order. |
| `Watches.BlockMeans` | rpcwebsocket.go:455-473 | After a block a client watches an output if and only if it asked for it and nothing spends it, or a transaction pays it to one of its addresses and no later one spends it. |
| `Watches.Manager.NotifyForTxIns` | rpcwebsocket.go:1027-1060 | Exactly the watchers of an input are told, once each; in a block the watches end. |
| `Watches.Manager.NotifyForTxOuts` | rpcwebsocket.go:938-984 | Exactly the watchers of a paid address are told, once each, and watch the output from then on. |
| `Watches.Manager.NotifyForTx` | rpcwebsocket.go:1012-1021 | Both for one transaction. |
| `Watches.Manager.Forget` | rpcwebsocket.go:503-516 | Nothing is left of a client. |
| `Watches.Manager.Handle` | rpcwebsocket.go:430-554 | What every client watches and is subscribed to after any message, with both sides of the index in agreement. |

## Left out

- Block and script validation, proof of work and checkpoints: verdicts that may be anything.
- The utxo set on disk: `Records` takes the outputs unspent at each block as given, and asks of a view only that it takes one such set to the next and agrees with it.
- Hashing and secp256k1: injective keys and an invertible key compression are stated as assumptions where used.
- The wire format of headers, JSON, and corrupted records beyond the error results modelled.
- The database engine, transactions that fail half way, locks, logging, and the notifications sent while the chain lock is open.
- The utxo entry codec and the bytes of the best-state and election-state rows, which repeat the same encodings.
- Heights and coinbase marks in views, and the search for the height of an output in a journal of the old format.
- locateHeaders, HeightRange and HeightToHashRange, which repeat the lookups that are modelled.
- Relative lock times, the checkpoint cache and the median time source.
- Negative targets in BigToCompact; the code never packs one.
- 64-bit overflow of vote totals in the election; totals of real money stay far below it.
- Random choices and the clock: GetAddress, AddressCache and local addresses are not modelled, and bad addresses, bucket numbers and draws are parameters.
- The bucket key of the address manager: buckets are functions fixed at creation, so a reset draws no new key.
- The text of notifications, and which of them are sent for outputs that `Watches.Manager.NotifyForTxOuts` begins to watch and the memory pool already spends.
- Queue shutdown, and a full send channel of a websocket client.
- Difficulty.EasiestBounds: one direction only; the converse, `Difficulty.EasiestExceeded`, allows for rounding and stays clear of the limit.
- ChainView.View.SetTip: the backing slice is a sequence field, so sharing of a backing array between slices is not captured.
- Watches.WatchIndex.Add: a client's own request set is kept in the index object, not in the client.
