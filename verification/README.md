# Verified models of kaspad

A Dafny model of the parts of kaspad, a full node and wallet for a block DAG, that carry hard
correctness arguments, with proofs of what they promise. Each model follows its Go source
branch by branch: loops stay loops, objects that are updated in place stay classes, and every
such method is proved against a specification function or a stated property. Protocols with
crashes and threads are step systems, and their theorems range over every sequence of steps.

| file | component |
|---|---|
| `Basics.dfy` | options, 64-bit words and powers of 256, shared by the others |
| `Checksum.dfy`, `BitGroups.dfy`, `Bech32.dfy`, `Address.dfy` | the textual form of addresses: a 40-bit BCH checksum, regrouping of bits, parsing and printing, typed addresses |
| `Difficulty.dfy` | the compact 32-bit form of difficulty targets, and the work of a target |
| `HashSerialization.dfy`, `UtxoStaging.dfy`, `UtxoIndex.dfy` | the persisted UTXO index: staged diffs, commits, resets, the circulating supply, crashes |
| `UtxoDiff.dfy` | the algebra of UTXO diffs in the consensus |
| `Orphans.dfy` | the pool of blocks with missing parents |
| `ConsensusSwap.dfy` | replacing the running consensus by a staging consensus, with crashes |
| `VirtualResolution.dfy` | inserting blocks and resolving the virtual from many threads |
| `Notifications.dfy` | which UTXO changes a listener is told about |
| `TxMass.dfy`, `Sweep.dfy` | transaction mass, and splitting a sweep into transactions |

`dafny verify dfyconfig.toml` checks the whole project.

## How the world is modelled

- Strings are sequences of characters, one per byte. The running checksum is a `bv40`, since
  the source masks it to 35 bits before every shift by five.
- Amounts and sums of amounts wrap at 2^64 where the source computes in `uint64`; the
  specifications say when the wrapped value is the exact one.
- A database write may fail at any time; it then changes nothing and the operation gives up.
  A crash may come between any two durable writes. In the UTXO index every durable state the
  database has ever been in is kept in a ghost history, and what is proved of the history holds
  after a crash at any point. In the consensus swap a crash is one of the events. Ghost counts of
  failed writes and calls let the contracts say that an operation gives up only because of one.
- Go maps are visited in any order, so a loop over a map picks an arbitrary remaining key.
- Calls into code outside the models are nondeterministic and constrained only by what the
  source relies on: a block insertion accepts, rejects (and may record the rejection) or fails, and
  leaves a ghost record of what was offered;
  a virtual UTXO listing is paged by exclusive start and refused once the virtual has moved;
  resolving a chunk resolves some of the unresolved blocks.

## Where the code and its promises differ

- The comment at `util/bech32/bech32.go:84-87` mentions a limit of 90 characters. The code has no
  such test, and neither has the model.
- The decoder ignores the bits left over after whole bytes. Re-encoding an accepted string gives
  the string back exactly when fewer than five bits are left over and all of them are zero;
  `DroppedBitIsNotPrintedBack` is a failing string for every good prefix.
- The decoder reads the version byte without checking that there is one, so a string that passes
  every test but carries fewer than two data symbols makes it panic. `PanicsExactlyWithoutVersion`
  is the exact condition.
- The comment of `NewAddressScriptHashFromHash` (`util/address.go:294-296`) asks for 20 bytes. The
  code wants 32, and so does the model.
- `BigToCompact` cuts the exponent to eight bits. `GreatestBelowExactlyWhen` says for which
  numbers the result is still the greatest representable one; 256^255 is compacted to a word that
  expands to zero (`CutExponentLosesTheNumber`). The leading bytes of a negative number are rounded
  up, and a carry out of them is or-ed into the exponent (`NegativeCarryIsLost`).
- An update that removes and adds the same output under the same script cancels the two staged
  changes, so the index keeps the old entry. Script, outpoint and amount always agree with the
  virtual; the whole entry does exactly when both sides of the diff carry the same one
  (`ReaddedEntryIsNotRefreshed` is an instance where it does not).
- A rejected block is usually recorded as invalid, and such a block counts as present when
  orphans are examined. The children of a rejected orphan can then stay in the pool although all
  their parents are present; `RecordedRejectionStrandsChildren` is an instance. What a search
  leaves ready is exactly what recorded rejections strand in this way, and what was ready before
  it without being a child of the root, such as an earlier root that is still in the pool.
- During a commit of the staging consensus the old consensus stays live until its prefix has been
  erased. What it writes to a place the cursor has passed stays behind unrecorded.
  `DisciplineIsExact` says which writes are harmless.
- If inserting a block fails after the block has been stored, the flag that the virtual is behind
  is not raised. `FlagIsTruthfulExactlyOnUnspoiledRuns` says that this is the only way in which
  the flag can lie.
- `diffFrom` and `withDiff` are inverse on diffs of a common base that do not add what they remove
  (`CombiningUndoesDifference` has the exact condition over one base). On arbitrary diffs for which
  `diffFrom` succeeds they are not: one of its tests looks at all outpoints together, and two
  outpoints can hide each other from it. `CombiningGivesTheOtherExactly` is the exact condition.
- The UTXO that breaks the mass limit of a sweep transaction is spent by no transaction at all.
  Conservation is stated with these UTXOs on one side. With the mass parameters of the network
  this happens to every selection of more than 87 UTXOs (`LargeSelectionsLoseUtxos`).
- The output value of a sweep transaction is computed in 64 bits, so fees that exceed the sum of
  the inputs wrap around: one UTXO of 5000 at the fee of 10000 is paid out as 2^64 - 5000
  (`UncoveredFeeWrapsAround`). `ConservesExactlyWhenAffordable` is the exact condition.

## Model

| member | source | states |
|---|---|---|
| `Checksum.PolyMod` | util/bech32/bech32.go:282-295 | the loop computes the remainder of the linear recurrence `Fold`, with the final 1 added |
| `Checksum.PrefixToUint5Array` | util/bech32/bech32.go:260-269 | one symbol per character, its low five bits; `PrefixIsProtected` says what for |
| `Checksum.Ints` | util/bech32/bech32.go:271-278 | every byte widened, in order |
| `Checksum.CalculateChecksum` | util/bech32/bech32.go:228-245 | returns the check symbols that `ChecksumIsUnique` characterises |
| `Checksum.VerifyChecksum` | util/bech32/bech32.go:249-258 | true exactly on the strings whose remainder is zero |
| `Checksum.StepLinear` | util/bech32/bech32.go:284-292 | one round commutes with exclusive or in state and symbol |
| `Checksum.FoldLinear` | util/bech32/bech32.go:282-295 | the whole remainder loop commutes with symbol-wise exclusive or, at any length |
| `Checksum.ZeroStepInjective` | util/bech32/bech32.go:284-292 | a zero symbol never turns a non-zero state into zero, because of the low bits of the generators |
| `Checksum.FoldOfZeros` | util/bech32/bech32.go:282-295 | any number of zero symbols keeps zero apart from non-zero, in both directions |
| `Checksum.SuffixEntersVerbatim` | util/bech32/bech32.go:282-295 | the last eight symbols are added unchanged to what eight zero symbols would leave |
| `Checksum.ChecksumIsUnique` | util/bech32/bech32.go:228-258 | for every prefix and payload exactly one eight-symbol suffix verifies, and it is the calculated one |
| `Checksum.BurstIsDetected` | util/bech32/bech32.go:223-258 | two different strings of any equal length that agree outside eight consecutive positions never both verify under one prefix |
| `Checksum.BurstIsDetectedAnywhere` | util/bech32/bech32.go:223-269 | the same over prefix and payload together: two pairs of the same lengths whose symbols, with the prefix modulo 32, differ somewhere and agree outside eight consecutive positions never both verify |
| `Checksum.PrefixIsProtected` | util/bech32/bech32.go:249-269 | symbols that verify under one prefix verify under another, changed within a window of eight, if and only if the low five bits of all characters agree |
| `Checksum.ExampleChecksum` | util/bech32/bech32_test.go:21-21 | the check symbols of a listed text, through all five generators |
| `BitGroups.AbsorbByte` | util/bech32/bech32.go:175-208 | the bits of one input byte join the stream of complete groups and pending bits, none lost, none reordered |
| `BitGroups.ConvertBits` | util/bech32/bech32.go:166-221 | for all group widths from 1 to 8, the result is the bit stream of the input cut into groups, the incomplete group padded with zeros or dropped |
| `BitGroups.RegroupOfFlatten` | util/bech32/bech32.go:166-221 | cutting a flattened stream gives back its groups, whatever incomplete group follows |
| `BitGroups.FlattenOfRegroup` | util/bech32/bech32.go:166-221 | flattening the groups cut from a stream gives back the stream without its incomplete group |
| `BitGroups.BytesSurvive` | util/bech32/bech32.go:166-221 | bytes turned into five-bit symbols turn back into exactly those bytes |
| `BitGroups.SymbolsSurviveExactlyWhenCanonical` | util/bech32/bech32.go:166-221 | symbols survive the way through bytes if and only if fewer than five bits are dropped and all are zero |
| `Bech32.EncodeToBase32` | util/bech32/bech32.go:153-162 | the characters of the symbols, or the empty string if some byte is no symbol |
| `Bech32.DecodeFromBase32` | util/bech32/bech32.go:135-146 | the symbols of the characters, or an error exactly when some character is outside the charset |
| `Bech32.Base32Inverts` | util/bech32/bech32.go:135-162 | reading printed symbols gives the symbols back |
| `Bech32.FromBase32Inverts` | util/bech32/bech32.go:135-162 | printing read symbols gives the string back |
| `Bech32.InternalEncode` | util/bech32/bech32.go:120-131 | prints prefix, separator, symbols and the unique check symbols |
| `Bech32.CheckPrintable` | util/bech32/bech32.go:65-71 | accepts exactly the strings whose characters all lie between 33 and 126 |
| `Bech32.DecodeAfterSeparator` | util/bech32/bech32.go:97-115 | the part after the separator: charset, then checksum with the expected and the found check symbols in the error |
| `Bech32.InternalDecode` | util/bech32/bech32.go:57-116 | the whole decoder with its tests in order: length, characters, case, last separator, charset, checksum |
| `Bech32.Encode` | util/bech32/bech32.go:31-39 | the version byte goes in front, and the text is what `DecodeInvertsEncode` reads back |
| `Bech32.Decode` | util/bech32/bech32.go:42-53 | prefix, payload and version, or the error of the internal decoder, or the out-of-range read |
| `Bech32.DecoderInvertsEncoder` | util/bech32/bech32.go:57-131 | a lower-case string decodes to a prefix and symbols if and only if it is what the encoder prints for them and the prefix is a good one |
| `Bech32.DecodesExactly` | util/bech32/bech32.go:57-116 | over every string: it is accepted with a prefix and symbols if and only if it has no upper-case or no lower-case letters, its lower-case form is what the encoder prints for them, and the prefix is not empty, printable and without upper-case letters |
| `Bech32.RejectsExactlySo` | util/bech32/bech32.go:57-112 | the error is that of the first test that fails: fewer than ten characters, one outside 33 to 126, letters of both cases, no last separator behind a prefix and in front of eight characters, a data character outside the charset, the checksum |
| `Bech32.ExpectedSymbolsAreAccepted` | util/bech32/bech32.go:105-112 | the error of a failed checksum names the eight characters that would have been accepted in place of the last eight |
| `Bech32.DecodeInvertsEncode` | util/bech32/bech32.go:31-53 | for every payload and version, decoding the encoded text returns exactly prefix, payload and version if and only if the prefix is non-empty, printable and without upper-case letters |
| `Bech32.EncodeInvertsDecodeExactlyWhenCanonical` | util/bech32/bech32.go:42-53 | re-encoding what a lower-case string decodes to gives the same string if and only if 5m mod 8 < 5 for its m symbols and the dropped bits are zero |
| `Bech32.DroppedBitIsNotPrintedBack` | util/bech32/bech32.go:42-53 | for every good prefix a lower-case text that decodes and is not printed back: the text of the symbols 0 and 1 |
| `Bech32.PanicsExactlyWithoutVersion` | util/bech32/bech32.go:48-50 | the version is read out of range exactly on strings that pass all tests with fewer than two data symbols |
| `Bech32.EveryGoodPrefixCanPanic` | util/bech32/bech32.go:48-50 | such a string exists for every good prefix |
| `Bech32.CaseDoesNotMatter` | util/bech32/bech32.go:73-82 | the upper-case form of a lower-case string decodes to the same result |
| `Bech32.CorruptedTextIsRejected` | util/bech32/bech32.go:57-116 | replacing up to eight adjacent data characters of an accepted string, by anything but the separator and upper-case letters, is always rejected |
| `Bech32.RenamedPrefixIsNoticedExactly` | util/bech32/bech32.go:57-116 | putting another prefix of the same length in front of an encoded text, changed within a window of eight, is rejected if and only if the low five bits of some character change |
| `Bech32.ExampleText` | util/bech32/bech32_test.go:21-21 | the text of one listed prefix, payload and version, character by character |
| `Address.NetworkString` | util/address.go:74-82 | whatever order the table is visited in, the text of a network, empty for the unknown one |
| `Address.PrefixesAreTexts` | util/address.go:55-71 | parsing a prefix and printing a network are inverse, on exactly the four networks |
| `Address.EncodeAddress` | util/address.go:88-90 | the address text of all three kinds, with the version of the kind |
| `Address.DecodeAddress` | util/address.go:130-155 | the address, or the first failing test: format, prefix, network, version, payload size |
| `Address.DecodeInvertsEncode` | util/address.go:88-155 | for all three kinds, decoding an encoded address returns it if and only if its network is one of the four and the expected network does not contradict it |
| `Address.EncodingIsInjective` | util/address.go:88-90 | different addresses never share their text |
| `Address.TextIsCanonicalExactlyWhenNothingIsDropped` | util/address.go:130-155 | an accepted lower-case text is the text of its address if and only if the dropped bits are fewer than five and zero |
| `Address.AcceptsExactly` | util/address.go:130-155 | over all texts: an address is decoded if and only if its network is known and not contradicted and the text carries the prefix of its network, its payload, and the version and size of its kind, 0 and 32, 1 and 33, or 8 and 32 |
| `Address.RejectsExactlySo` | util/address.go:130-155 | the error is that of the first test that fails, with the prefix or the two networks it names |
| `Address.NetworksAreToldApart` | util/address.go:55-82 | an address of the development or the simulation network is rejected under the prefix of the other |
| `Difficulty.CompactToBigWithDestination` | util/difficulty/difficulty.go:50-73 | the destination receives the sign and the mantissa times 256 to the exponent less three, rounded towards zero |
| `Difficulty.CompactToBig` | util/difficulty/difficulty.go:40-44 | the same value in a new number |
| `Difficulty.BigToCompact` | util/difficulty/difficulty.go:79-115 | the word that the theorems below characterise, for negative numbers and exponents beyond a byte too |
| `Difficulty.NormalizedBrackets` | util/difficulty/difficulty.go:86-106 | the mantissa has 15 significant bits and a clear sign bit, and the number lies between it and its successor at that exponent |
| `Difficulty.CompactIsGreatestBelow` | util/difficulty/difficulty.go:50-115 | expanding a compacted number gives the greatest number not above it that any of the 2^32 words represents |
| `Difficulty.GreatestBelowExactlyWhen` | util/difficulty/difficulty.go:79-115 | that holds of a non-negative number if and only if its exponent fits a byte, or the cut exponent and the mantissa are both the largest |
| `Difficulty.CutExponentLosesTheNumber` | util/difficulty/difficulty.go:108-110 | 256^255 is compacted to a word that expands to zero, although other words represent positive numbers below it |
| `Difficulty.SmallNumbersAreExact` | util/difficulty/difficulty.go:79-115 | numbers below 2^23 are kept exactly |
| `Difficulty.LossIsSmall` | util/difficulty/difficulty.go:79-115 | less than one part in 2^15 of the result is lost |
| `Difficulty.CompactIsMonotone` | util/difficulty/difficulty.go:79-115 | larger numbers have words that are not smaller |
| `Difficulty.ExpandedIsKept` | util/difficulty/difficulty.go:50-115 | every non-negative value of a word survives compacting, and compacting again changes nothing |
| `Difficulty.SignBitNegates` | util/difficulty/difficulty.go:50-73 | setting the sign bit of a word negates what it represents |
| `Difficulty.SmallNegativesAreExact` | util/difficulty/difficulty.go:79-115 | the negatives of numbers below 2^23 are kept exactly, as the word of the number with the sign bit set |
| `Difficulty.NegativeLeadingBytes` | util/difficulty/difficulty.go:94-98 | the shift of a long negative number rounds its magnitude up, to the least mantissa that is not below it |
| `Difficulty.NegativeCarryIsLost` | util/difficulty/difficulty.go:94-113 | a negative number whose rounded mantissa carries into the exponent, so that nothing of it is left |
| `Difficulty.CalcWork` | util/difficulty/difficulty.go:126-138 | zero for targets that are not positive, otherwise the quotient that `WorkBounds` pins down |
| `Difficulty.WorkBounds` | util/difficulty/difficulty.go:126-138 | work times (target + 1) is at most 2^256, and one more unit of work is beyond it |
| `Difficulty.NoWorkWithoutTarget` | util/difficulty/difficulty.go:126-138 | a word is worth no work if and only if its target is not positive or at least 2^256 |
| `Difficulty.WorkIsAntitone` | util/difficulty/difficulty.go:126-138 | a larger positive target never means more work |
| `Difficulty.WorkOfCompactedTargets` | util/difficulty/difficulty.go:79-138 | the work of compacted targets keeps the opposite order of the targets |
| `HashSerialization.SerializeHashes` | domain/utxoindex/serialization.go:42-51 | the buffer filled in place holds the little-endian count and then the hashes |
| `HashSerialization.DeserializeHashes` | domain/utxoindex/serialization.go:53-72 | the hashes read back, or which of the two ways in which the bytes are too short |
| `HashSerialization.DeserializesExactlyWhatWasSerialized` | domain/utxoindex/serialization.go:42-72 | bytes deserialize to a list if and only if they begin with its serialized form |
| `HashSerialization.SerializedLayout` | domain/utxoindex/serialization.go:42-51 | the first eight bytes are the digits of the count, the lowest first, and byte j of hash i stands at 8 + 32i + j |
| `HashSerialization.FailsExactlyOnOtherBytes` | domain/utxoindex/serialization.go:53-72 | reading fails if and only if the bytes begin with no serialized list, and runs out of bounds exactly when the count itself is cut off |
| `UtxoStaging.StageRemoveLeads` | domain/utxoindex/store.go:68-100 | staging the removal of an entry is never refused, keeps additions and removals disjoint, and removes it from the set the stage leads to |
| `UtxoStaging.StageAddLeads` | domain/utxoindex/store.go:33-66 | staging a free output is never refused; it keeps additions and removals disjoint and adds the output to the set the stage leads to, if and only if it carries the amount of the staged removal it cancels |
| `UtxoStaging.TotalWith` | domain/utxoindex/store.go:140-160 | the sum of a disjoint union is the sum of the sums |
| `UtxoStaging.TotalWithout` | domain/utxoindex/store.go:122-138 | removing entries with their amounts takes exactly their sum away |
| `UtxoIndex.Store.Add` | domain/utxoindex/store.go:33-66 | a staged removal is cancelled, otherwise the entry is staged; refused exactly when it is already being added |
| `UtxoIndex.Store.Remove` | domain/utxoindex/store.go:68-100 | a staged addition is cancelled, otherwise the removal is staged; refused exactly when it is already being removed |
| `UtxoIndex.Store.Discard` | domain/utxoindex/store.go:106-110 | nothing is staged any more |
| `UtxoIndex.Store.NothingStaged` | domain/utxoindex/store.go:262-264 | without staged scripts there are no staged changes |
| `UtxoIndex.Store.DeleteStaged` | domain/utxoindex/store.go:122-138 | exactly the staged removals leave the index, and their amounts are summed modulo 2^64 |
| `UtxoIndex.Store.PutStaged` | domain/utxoindex/store.go:140-160 | exactly the staged additions enter the index, and their amounts are summed modulo 2^64 |
| `UtxoIndex.Store.Commit` | domain/utxoindex/store.go:112-180 | index, parents and supply become durable in one step and the stage is emptied, or, after a failed write or without a supply to update, nothing changes at all |
| `UtxoIndex.Store.AddAndCommitOutpointsWithoutTransaction` | domain/utxoindex/store.go:182-209 | a page of entries is written one by one and the supply grows by their sum; every durable state on the way carries the parents, or none, that were there |
| `UtxoIndex.Store.DeleteAll` | domain/utxoindex/store.go:313-344 | everything is deleted, the parents first, so that no durable state on the way carries parents |
| `UtxoIndex.Store.InitializeCirculatingSompiSupply` | domain/utxoindex/store.go:346-378 | the supply becomes the sum of the whole index modulo 2^64, and nothing else changes |
| `UtxoIndex.ListingMirrors` | domain/utxoindex/utxoindex.go:70-89 | writing out a listing without duplicates gives exactly its set, and the sums agree |
| `UtxoIndex.CommitReaches` | domain/utxoindex/store.go:112-180 | a stage that leads to a set commits to it: its keys and amounts, old entries kept, and the totals balance |
| `UtxoIndex.SupplyFollows` | domain/utxoindex/store.go:380-400 | adding and then subtracting in 64 bits gives the exact new total modulo 2^64, and so the exact total when it fits |
| `UtxoIndex.UpdateMirrorsExactlyWhen` | domain/utxoindex/utxoindex.go:120-153 | from an exact mirror, an update gives an exact mirror if and only if outputs on both sides of the diff under one script carry identical entries |
| `UtxoIndex.ReaddedEntryIsNotRefreshed` | domain/utxoindex/store.go:39-48 | an output removed and added again with another DAA score: the staged changes cancel, and the committed index keeps the old entry |
| `UtxoIndex.SyncedIsHonest` | domain/utxoindex/utxoindex.go:51-100 | a completely synchronised database tells the truth about its parents |
| `UtxoIndex.UTXOIndex.CopyPage` | domain/utxoindex/utxoindex.go:74-82 | one page extends the copied part of the listing and its sum, if the virtual has not moved |
| `UtxoIndex.UTXOIndex.CopyListing` | domain/utxoindex/utxoindex.go:70-89 | the paging loop ends and has copied the whole listing, with page boundaries neither skipping nor repeating entries, whatever other threads do to the virtual |
| `UtxoIndex.UTXOIndex.ClearAndCopy` | domain/utxoindex/utxoindex.go:57-89 | up to the last write of a reset no durable state carries parents |
| `UtxoIndex.UTXOIndex.Reset` | domain/utxoindex/utxoindex.go:51-100 | every durable state stays honest, also when the reset stops half way; when it succeeds the index mirrors the UTXO set of the stored parents and the supply is its sum; while blocks are held back it fails only with a database write or a consensus call |
| `UtxoIndex.UTXOIndex.IsSynced` | domain/utxoindex/utxoindex.go:102-117 | true exactly when the stored parents are those of the current virtual; an error when something is staged or the stored parents are unreadable, and otherwise only when the consensus fails |
| `UtxoIndex.UTXOIndex.New` | domain/utxoindex/utxoindex.go:23-48 | opened on whatever an earlier process left behind, the index is accepted only if index and supply match the current virtual, so a partial index never is; refused only for a failed write or call, or unreadable stored parents; a database that is up to date is left as it is |
| `UtxoIndex.UTXOIndex.RemoveUTXOs` | domain/utxoindex/utxoindex.go:173-189 | no removal of a valid diff is refused, in any order, and the stage leads to the set without them |
| `UtxoIndex.UTXOIndex.AddUTXOs` | domain/utxoindex/utxoindex.go:155-171 | no addition of a valid diff is refused, in any order, and the stage leads to the set with them |
| `UtxoIndex.UTXOIndex.Update` | domain/utxoindex/utxoindex.go:120-153 | one durable step to the new set, parents and supply; the reported changes are the net changes, the added ones with the entries of the new set, the removed ones with the entries they were removed with; after a failed commit the stage still leads to the new set; fails only with the write or without a supply to update |
| `UtxoIndex.UTXOIndex.Perform` | domain/utxoindex/utxoindex.go:51-153 | one reset or update takes an index synchronised with some parents to one synchronised with the next |
| `UtxoIndex.UTXOIndex.FollowVirtual` | domain/utxoindex/utxoindex.go:51-189 | over every sequence of a reset, updates with valid diffs and further resets, while the virtual may move: all durable states are honest, the index agrees with the set of the stored parents on script, outpoint and amount, the supply is its sum, and the entries are identical if no diff since the last reset changes an entry in place; the sequence stops early only at a failed write or call or when the virtual moves during a reset |
| `UtxoDiff.CheckIntersection` | domain/consensus/utils/utxo/diff_algebra.go:9-17 | true exactly when some outpoint is in both collections |
| `UtxoDiff.CheckIntersectionWithRule` | domain/consensus/utils/utxo/diff_algebra.go:22-35 | an outpoint of both collections that satisfies the rule, if there is one |
| `UtxoDiff.IntersectionWithRemainder` | domain/consensus/utils/utxo/diff_algebra.go:39-47 | every entry goes to the result or the remainder, by whether the other collection has it with the same score |
| `UtxoDiff.Subtraction` | domain/consensus/utils/utxo/diff_algebra.go:51-57 | exactly the unmatched entries are added to the result |
| `UtxoDiff.MutableUTXODiff.CanCombine` | domain/consensus/utils/utxo/diff_algebra.go:180-194 | refuses exactly the diffs that remove or add an outpoint twice |
| `UtxoDiff.MutableUTXODiff.WithDiffInPlace` | domain/consensus/utils/utxo/diff_algebra.go:179-209 | becomes the combined diff, or stays as it was |
| `UtxoDiff.MutableUTXODiff.SameBase` | domain/consensus/utils/utxo/diff_algebra.go:111-145 | refuses exactly the pairs with an outpoint that shows different bases |
| `UtxoDiff.MutableUTXODiff.DiffFrom` | domain/consensus/utils/utxo/diff_algebra.go:105-175 | the difference, or nothing when one of the four tests fails |
| `UtxoDiff.CombinedMeansBoth` | domain/consensus/utils/utxo/diff_algebra.go:177-209 | for diffs that follow each other combining never fails, and applying the result is applying one after the other |
| `UtxoDiff.DifferenceLeads` | domain/consensus/utils/utxo/diff_algebra.go:71-175 | for any two diffs of one base the difference exists if and only if there is no outpoint that both remove and one adds again unchanged, and then leads from the one set to the other; so it always does between diffs that do not add what they remove |
| `UtxoDiff.CombiningUndoesDifference` | domain/consensus/utils/utxo/diff_algebra.go:105-209 | over one base, combining a diff with its difference to another gives exactly the other, if and only if the other does not add what it removes and no outpoint obstructs the difference |
| `UtxoDiff.CombiningGivesTheOtherExactly` | domain/consensus/utils/utxo/diff_algebra.go:105-209 | for arbitrary diffs whose difference exists, it does so if and only if no outpoint is idle or masked |
| `UtxoDiff.MaskedExample` | domain/consensus/utils/utxo/diff_algebra.go:156-160 | two outpoints that hide each other from the test that spans all outpoints |
| `UtxoDiff.NormalDiffIsUnique` | domain/consensus/utils/utxo/diff_algebra.go:71-209 | a diff that does not add what it removes is determined by base and result |
| `UtxoDiff.ReversedUndoes` | domain/consensus/utils/utxo/mutable_utxo_diff.go:161-167 | the reversed diff leads back to the base |
| `UtxoDiff.TwiceIsRefused` | domain/consensus/utils/utxo/diff_algebra.go:179-194 | what both diffs remove, or both add, with nothing in between cannot be combined |
| `UtxoDiff.TableOfDifferences` | domain/consensus/utils/utxo/diff_algebra.go:76-104 | the nine cells of the documented table: the two in which one diff adds and the other removes are refused, the others give what the table says |
| `Orphans.FlowContext.AddOrphan` | app/protocol/flowcontext/orphans.go:19-32 | the orphan enters, and the pool never exceeds 600: beyond that exactly one orphan leaves |
| `Orphans.FlowContext.EvictRandomOrphan` | app/protocol/flowcontext/orphans.go:34-42 | exactly one orphan leaves |
| `Orphans.FlowContext.FindChildOrphansOfBlock` | app/protocol/flowcontext/orphans.go:124-135 | exactly the orphans with the given parent, each once |
| `Orphans.FlowContext.AddChildOrphansToProcessQueue` | app/protocol/flowcontext/orphans.go:105-122 | the queue keeps its order and gains exactly the missing children, without duplicates |
| `Orphans.FlowContext.CanBeUnorphaned` | app/protocol/flowcontext/orphans.go:72-85 | true exactly when every parent is present with more than its header; an error only when the lookup of a parent fails |
| `Orphans.FlowContext.UnorphanBlock` | app/protocol/flowcontext/orphans.go:137-155 | the orphan leaves the pool and is offered to the consensus, whose verdict is the outcome |
| `Orphans.FlowContext.UnorphanBlocks` | app/protocol/flowcontext/orphans.go:54-99 | terminates; exactly the orphans that leave the pool are offered to the consensus, each once; those it accepted are returned, in that order and each after its returned parents; the orphans left ready are exactly those stranded by recorded rejections and those that were ready before without being children of the root; gives up only when an insertion fails or the lookup of a parent of an orphan that the search has reached |
| `Orphans.FlowContext.ProcessNext` | app/protocol/flowcontext/orphans.go:64-96 | one round of the loop is one move of the search and at most one offer, and shortens the pool or the queue |
| `Orphans.AcceptKeeps` | app/protocol/flowcontext/orphans.go:86-95 | accepting an orphan and queueing its children keeps the invariant of the search: no ready orphan outside the queue appears or disappears |
| `Orphans.PlainRejectKeeps` | app/protocol/flowcontext/orphans.go:86-95 | rejecting an orphan without recording it keeps the invariant |
| `Orphans.RecordedRejectKeeps` | domain/consensus/processes/blockprocessor/validate_block.go:53-84 | a recorded rejection makes ready, outside the queue, exactly the newly stranded orphans |
| `Orphans.EverySearchKeeps` | app/protocol/flowcontext/orphans.go:54-99 | so does every sequence of skipped, accepted and rejected orphans |
| `Orphans.LeavesReadyExactly` | app/protocol/flowcontext/orphans.go:54-99 | from any pool, a finished search leaves an orphan ready if and only if it is stranded, or was ready before and is no child of the root |
| `Orphans.RootMakesOnlyItsChildrenReady` | app/protocol/flowcontext/orphans.go:58-61 | if nothing was ready before the root arrived, only children of the root are ready when the search starts |
| `Orphans.FixpointExactlyWhenNothingIsStranded` | app/protocol/flowcontext/orphans.go:54-99 | no orphan but the root is left ready if and only if none but the root is stranded and none but the root and its children was ready before; nothing is stranded unless a rejection is recorded |
| `Orphans.RecordedRejectionStrandsChildren` | domain/consensus/processes/blockprocessor/validate_block.go:53-84 | a search of one recorded rejection that ends with its child stranded in the pool, ready |
| `Orphans.FlowContext.Enqueue` | app/protocol/flowcontext/orphans.go:195-200 | exactly the parents not met before join the queue, each once |
| `Orphans.FlowContext.GetOrphanRoots` | app/protocol/flowcontext/orphans.go:158-204 | terminates and returns, without duplicates, exactly the hashes reachable along parent edges through orphans that are no orphans and are missing or header-only; an error if and only if the lookup of one of these non-orphans fails |
| `Orphans.ClosedHoldsReachable` | app/protocol/flowcontext/orphans.go:168-201 | a set closed under the parents of its orphans holds everything reachable |
| `ConsensusSwap.StepKeepsInv` | domain/domain.go:65-227 | every step, crash and failure, and every disciplined write keeps the invariant |
| `ConsensusSwap.EveryRunIsSound` | domain/domain.go:65-227 | in every sequence of steps with crashes anywhere, active and inactive prefix differ and every stored key lies under one of them |
| `ConsensusSwap.ErasureSparesActiveKeys` | domain/prefixmanager/prefix.go:79-102 | erasing a prefix never deletes a key under the active prefix |
| `ConsensusSwap.ActiveKeysStay` | domain/prefixmanager/prefix.go:50-112 | no step of the node itself deletes a key under the active prefix |
| `ConsensusSwap.OnlyErasureDeletes` | domain/prefixmanager/prefix.go:79-102 | the node itself deletes a key only by erasing it under the inactive prefix, so the keys of the staging consensus survive its commit |
| `ConsensusSwap.OnlyInstancesWrite` | domain/domain.go:65-227 | no key appears but by a write of a consensus instance |
| `ConsensusSwap.NothingIsLeftAfterNew` | domain/domain.go:181-207 | once the node has started, one prefix is active, none inactive, and nothing is stored elsewhere |
| `ConsensusSwap.ForbiddenWriteLosesKeys` | domain/domain.go:147-163 | after a write outside the discipline, some continuation leaves a key under no recorded prefix |
| `ConsensusSwap.DisciplineIsExact` | domain/domain.go:65-227 | a write is within the discipline if and only if no continuation ever leaves an unsound durable state |
| `ConsensusSwap.LateWriteIsLost` | domain/domain.go:153-162 | a commit in which the outgoing consensus writes too late |
| `ConsensusSwap.StepKeepsFollows` | domain/domain.go:65-227 | while nothing fails, the instances in memory stand on the recorded prefixes |
| `ConsensusSwap.OnlyTheOutgoingInstanceIsRestrained` | domain/domain.go:147-178 | while nothing fails, only the outgoing instance, and only during an erasure, can break the discipline |
| `ConsensusSwap.Node.DeleteInactivePrefix` | domain/prefixmanager/prefix.go:50-102 | the cursor loop ends with nothing recorded as inactive and the active prefix untouched, or stops where a write failed, or reports a failed compaction |
| `ConsensusSwap.Node.New` | domain/domain.go:181-207 | starts on whatever a crash left behind: keeps the active prefix, or chooses one, and leaves nothing under any other; gives up only at a fault |
| `ConsensusSwap.Node.InitStagingConsensus` | domain/domain.go:65-107 | records the flipped prefix and builds the staging instance on it, which writes under that prefix only; refused when one is recorded or none is active; a failure changes neither the instances nor the active prefix |
| `ConsensusSwap.Node.CommitStagingConsensus` | domain/domain.go:109-165 | the staging prefix and instance become the active ones and nothing of the old prefix is left; refused when nothing is staged; after a failure both instances are the old ones and the active prefix is the old or the new one |
| `ConsensusSwap.Node.DeleteStagingConsensus` | domain/domain.go:167-178 | the staging prefix is erased and forgotten, the active prefix and the live instance stay, also after a failure |
| `VirtualResolution.StepKeepsInv` | domain/consensus/consensus.go:203-275 | every step of any thread keeps mutual exclusion, the balance of locking and unlocking, and the clear flag before an insertion with virtual update |
| `VirtualResolution.EveryRunKeepsInv` | domain/consensus/consensus.go:203-275 | so does every interleaving, from a fresh consensus |
| `VirtualResolution.InsertsOnlyUnderClearFlag` | domain/consensus/consensus.go:203-240 | in every interleaving a block is inserted with virtual update only under the lock and a clear flag, and with nothing unresolved on unspoiled runs |
| `VirtualResolution.UnlocksOnlyWhatItHolds` | domain/consensus/consensus.go:203-251 | no thread ever unlocks a lock that it does not hold |
| `VirtualResolution.FinishedCallsHaveUnlocked` | domain/consensus/consensus.go:203-251 | a finished call has released the lock exactly as often as it has taken it, on every path |
| `VirtualResolution.FinishedCallsAreDone` | domain/consensus/consensus.go:203-275 | in every interleaving a finished call to resolve has gone from chunk to chunk until one completed or failed, and a finished call to insert has inserted its own block exactly once, after a completed chunk if it had to resolve, or nothing if and only if a chunk failed |
| `VirtualResolution.LastChunkOfCall` | domain/consensus/consensus.go:933-990 | right after the completed last chunk of a call the flag was clear and nothing was unresolved |
| `VirtualResolution.EveryRecordFits` | domain/consensus/consensus.go:203-275 | at every point of every interleaving, where a call stands fits the chunks and insertions it has done |
| `VirtualResolution.UnresolvedChangesOnlySo` | domain/consensus/consensus.go:253-275 | a block becomes unresolved exactly as a body stored without virtual update, and stops being so only in a chunk |
| `VirtualResolution.FlagChangesOnlySo` | domain/consensus/consensus.go:253-275 | what raises the flag, what clears it, and that nothing else touches it |
| `VirtualResolution.NeverStuck` | domain/consensus/consensus.go:203-251 | an unfinished call can always go on, unless it waits for a lock that another thread holds |
| `VirtualResolution.NoDeadlock` | domain/consensus/consensus.go:203-251 | while some call is unfinished, some thread can go on |
| `VirtualResolution.FlagStaysTrueExactly` | domain/consensus/consensus.go:253-275 | a step makes a truthful flag lie if and only if it stores a body and then fails, under a clear flag |
| `VirtualResolution.FlagIsTruthfulExactlyOnUnspoiledRuns` | domain/consensus/consensus.go:961-990 | a clear flag means that nothing is unresolved throughout a run if and only if the run has no such step |
| `VirtualResolution.ResolutionClearsTheFlag` | domain/consensus/consensus.go:927-990 | one call that resolves everything clears the flag and releases the lock |
| `VirtualResolution.LateFailureSpoilsTheFlag` | domain/consensus/processes/blockprocessor/validate_and_insert_block.go:160-208 | a run after which the flag is clear although a stored block is unresolved |
| `Notifications.ConvertPairs` | app/rpc/rpccontext/utxos_by_addresses.go:15-33 | each changed entry becomes one notice under the address, in any order |
| `Notifications.NotificationListener.Propagate` | app/rpc/rpccontext/notificationmanager.go:354-368 | the addresses join those already watched, the later one staying for a script; every address stays filed under its own script |
| `Notifications.LastJoins` | app/rpc/rpccontext/notificationmanager.go:365-367 | of several addresses for a script the last one is watched |
| `Notifications.OthersRemain` | app/rpc/rpccontext/notificationmanager.go:365-367 | a script without a new address keeps its old one, or stays unwatched |
| `Notifications.NotificationListener.StopPropagating` | app/rpc/rpccontext/notificationmanager.go:373-385 | exactly the given scripts are no longer watched |
| `Notifications.NotificationListener.IterateChanges` | app/rpc/rpccontext/notificationmanager.go:396-408 | walking over the changes computes the plain filter |
| `Notifications.NotificationListener.IterateAddresses` | app/rpc/rpccontext/notificationmanager.go:409-420 | walking over the addresses computes the plain filter |
| `Notifications.NotificationListener.IterateAll` | app/rpc/rpccontext/notificationmanager.go:421-440 | without addresses every change is reported, or an error exactly when some script has no address string |
| `Notifications.NotificationListener.ConvertUTXOChangesToNotification` | app/rpc/rpccontext/notificationmanager.go:387-443 | whichever way it is computed, the notification is the plain filter of the changes by the watched scripts |
| `Notifications.EitherWalkFilters` | app/rpc/rpccontext/notificationmanager.go:390-420 | the two walks find the same sources for every notice |
| `Notifications.FilterIsUnique` | app/rpc/rpccontext/notificationmanager.go:387-443 | the plain filter determines the notices up to their order |
| `Notifications.FilterReports` | app/rpc/rpccontext/notificationmanager.go:387-443 | an entry is reported under an address if and only if it is among the changes of a script watched under that address |
| `Notifications.NamesAreAddresses` | app/rpc/rpccontext/notificationmanager.go:396-420 | a listener is told under the address strings it was given for its scripts |
| `TxMass.TransactionEstimatedSerializedSize` | util/txmass/calculator.go:140-193 | the fixed part plus the sizes of all inputs, all outputs and the payload; zero for a coinbase |
| `TxMass.CalculateTransactionMass` | util/txmass/calculator.go:39-65 | bytes, output script bytes and signature operations, each at its price; zero for a coinbase |
| `TxMass.MassIsLinear` | util/txmass/calculator.go:39-65 | with one output and unsigned inputs the mass grows by the same amount with every input |
| `TxMass.SizeIsEncodedLength` | util/txmass/calculator.go:140-193 | the estimated size is the length of the transaction written out field by field, whatever the fields that do not count; a coinbase has neither size nor mass |
| `TxMass.MassOfInput` | util/txmass/calculator.go:39-65 | what one more input adds, by its signature script and signature operations |
| `TxMass.MassOfOutput` | util/txmass/calculator.go:39-65 | what one more output adds, by its script |
| `Sweep.CreateSplitTransactions` | cmd/kaspawallet/sweep.go:141-213 | the loop computes the greedy split that the lemmas below characterise, in wrapping 64-bit arithmetic, and fails as it does |
| `Sweep.FailsExactlyWhenOneInputIsTooHeavy` | cmd/kaspawallet/sweep.go:189-192 | splitting fails if and only if there is something to sweep and a single input breaks the limit |
| `Sweep.RunsBecomeTransactions` | cmd/kaspawallet/sweep.go:141-213 | one transaction for each run of UTXOs, and a run in front of every UTXO that is left out |
| `Sweep.RunsPartition` | cmd/kaspawallet/sweep.go:194-198 | the runs in order, with one left-out UTXO after each closed one, are exactly the selected UTXOs |
| `Sweep.SpendsItsRun` | cmd/kaspawallet/sweep.go:166-185 | each transaction spends exactly the outpoints of its run with their amounts, in order and unsigned, to one output with the given script |
| `Sweep.NothingIsSpentTwice` | cmd/kaspawallet/sweep.go:141-213 | if the selected outpoints are distinct, no two inputs of any transactions spend the same one |
| `Sweep.RunsAreMaximal` | cmd/kaspawallet/sweep.go:187-198 | every run fits, and no closed run could have taken one more |
| `Sweep.ClosedRunsHaveOneLength` | cmd/kaspawallet/sweep.go:187-198 | all closed runs have the same length |
| `Sweep.SweepsAllExactlyWhenOneTransactionSuffices` | cmd/kaspawallet/sweep.go:141-213 | nothing is left out if and only if all UTXOs fit into one transaction |
| `Sweep.EveryTransactionIsLight` | cmd/kaspawallet/sweep.go:187-210 | every transaction has a mass that stays below the limit with 7000 to spare |
| `Sweep.PaysExactlyWhenAffordable` | cmd/kaspawallet/sweep.go:182-185 | every transaction of the split pays out the sum of its inputs less one fee for each, if and only if its fees do not exceed the sum; all do when every amount covers its fee |
| `Sweep.ConservesExactlyWhenAffordable` | cmd/kaspawallet/sweep.go:141-213 | outputs, fees and left-out UTXOs add up to what was selected if and only if no transaction costs more than it brings in, and to more otherwise |
| `Sweep.Conservation` | cmd/kaspawallet/sweep.go:141-213 | so they add up whenever every amount covers its fee |
| `Sweep.UncoveredFeeWrapsAround` | cmd/kaspawallet/sweep.go:182-185 | one UTXO of 5000 at the fee of 10000 is paid out as 2^64 - 5000 |
| `Sweep.LargeSelectionsLoseUtxos` | cmd/kaspawallet/sweep.go:187-198 | with the mass parameters of the network, every selection of more than 87 UTXOs leaves some out |

## Left out

- LevelDB, bucket and key bytes, protobuf and cursors: the database is a map with atomic transactions, single writes and snapshot cursors.
- Hashing, signatures, scripts and key derivation: hashes and script keys are opaque values.
- GHOSTDAG, pruning, difficulty adjustment, block validation and the mempool: only their outcomes enter the models.
- The remaining methods of the consensus, RPC handlers and message types, which lock and delegate; they would only add easy members.
- `ValidateAndInsertBlockWithTrustedData` in the flag model, and opening a database that needs migration in the swap model.
- The statement at util/bech32/bech32.go:224 that up to six errors are detected anywhere: it depends on a bounded length and an exhaustive search.
- Prefixes with characters beyond one byte: a character of the model is a byte of the source.
- Texts of error messages, logging, progress reports, configuration, storage mass, floating-point amounts and hash rates.
- How close a long negative number comes to its compact form: its leading bytes are rounded up, cutting them for the sign bit rounds down, and a carry can be lost.
- Liveness under scheduling: the thread model says what no interleaving can do, not that a thread is eventually served.
- Changes of the consensus by other threads while orphans are processed: the pool is locked, the consensus is not.
- `AddTransaction` and invalidated immutable references of UTXO diffs, and combining a diff with itself in place.
- UTXO diff entries are identified with their DAA score, as the algebra itself does for the entries of one outpoint.
- UtxoIndex.UTXOIndex.Update: takes diffs in which an output removed and added again under the same script keeps its amount, which its transaction hash fixes; `StageAddLeads` shows that agreement on amounts needs this.
- TxMass.CalculateTransactionMass: does not model 64-bit wrap-around of the mass, which no transaction of admissible size reaches.
- HashSerialization.DeserializeHashes: does not model the allocation for a huge stored count, which the source makes before it looks at the length.
- Error causes inside a database or consensus failure: such a failure is one outcome.
