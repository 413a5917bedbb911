# Verification of the Wormhole connect SDK's core

This project models the parts of the SDK that carry its logic and proves what they are for.

- **The layout engine** (`Common`, `BigEndian`, `Layouts`, `Serialize`, `Deserialize`, `RoundTrip`,
  `FixedDynamic`, `Composition`). A layout is a small format language: constant or converted uints and
  bytes, length-prefixed or open-ended bytes and arrays, nested objects. Functions say which bytes a value
  is printed as and what bytes decode to; the methods write into a buffer or advance an offset as the source
  does and are proved against the functions. Printer and parser are proved to undo each other.
- **The layout discriminator** (`LayoutMeta`, `OrderedMap`, `Sorting`, `Sweep`, `Knowledge`, `ByteSteps`,
  `Strategies`, `Discriminate`, `GapExample`, `WalkExample`, `Bitset`). Size bounds and known bytes, the sweep
  line, the ranking of byte positions, the recursive construction of strategies and the walk over them. The
  serializer is the specification: the answer must be the layout that the data was serialized with. And layouts
  are refused as indistinguishable only if nothing that is known tells them apart.
- **constMap** (`Mapping`): a table turned into a nested index, against a linear scan.
- **Hex strings** (`HexString`) and **VAAs** (`LayoutItems`, `Vaa`, `VaaFormat`): creating, serializing and
  deserializing VAAs, with the conversions of their fields proved lossless, and the wire format by numeric offsets.
- **Transfers** (`Batching`, `SolanaRedeem`, `TransferRuns`, `TokenTransfers`, `GatewayTransfers`,
  `CctpTransfers`): the loop that signs and sends batches, the transactions that redeem a VAA on Solana, and
  the three transfer state machines over every sequence of calls. What the network answers comes in as a
  parameter or is chosen arbitrarily, and every such answer may be an error.

Custom conversions are arbitrary functions that may throw; keccak256 is an arbitrary function. JavaScript
exceptions are `Result` values, reduced to their cause. A JavaScript `Map` is the sequence of its entries in
insertion order.

## Where the code does not do what it says

- A perfect byte discriminator (discriminate.ts:256-266) answers null for valid data if it was built for a
  position that no layout fixes (`GapExample.GapIsMissed`), and does not recognize data of a layout that goes on
  past its lower size bound to that position (`GapExample.OpenIsMissed`). `ByteSteps.PerfectByteAnswer` has the
  exact condition. For the same reason layouts that are one and the same can pass as distinguishable
  (`GapExample.TwinsPass`).
- The strategy tree has branches for the known bytes of a position only. On a serialization with another byte
  there the returned function can throw its "Implementation error" (discriminate.ts:386-393), even if every two
  layouts are told apart by a known byte: `WalkExample.FourthIsNotFound`. It throws just if neither the layouts that
  are left nor more of them, but fewer than all but two, have a strategy (`Discriminate.StrategyForIsFiled`).
  `Discriminate.TreeAnswers` says on which data it always answers: what it asks for must be known of the layout.
- The offset recorded for constants inside nested layouts is relative to the nested layout, but for its first item
  (discriminate.ts:102): `LayoutMeta.NestedOffsetsAreRelative`. What is recorded is right if and only if no object
  item that starts elsewhere than at offset 0 records a constant behind its first item:
  `LayoutMeta.RecordedJustIfAnchored`. Constants elsewhere, and objects without any, do no harm.
- An unprefixed array whose elements take no bytes makes the parser loop for ever (deserialize.ts:102-103); the
  model returns `NonTerminating` on exactly those inputs. `RoundTrip.SpacelessLoops` has such an input,
  `RoundTrip.LoopsJustIfEmpty` the exact condition for one array, and by `RoundTrip.ParserTerminates` nothing else
  makes the parser loop.
- "0x", the printed form of the empty array, does not parse, and isHexByteString accepts two-character
  strings ending in "x" that do not parse either: `HexString.DecodeUndoesPrint`, `HexString.ParsesJustIfHex`.
- `GatewayTransfer.from` with a message id always throws, because the object it makes knows no transaction
  (gatewayTransfer.ts:118-140): `GatewayTransfers.From`.
- An automatic CCTP transfer that was initiated through the object can never be attested, because nothing
  sets its VAA ids (cctpTransfer.ts:195-271): `CctpTransfers.Drive`.
- `CCTPTransfer.completeTransfer` loses the hashes of a last batch of parallelizable transactions to a
  shadowing variable (cctpTransfer.ts:398-399): `CctpTransfers.HashGetsLost`. By
  `CctpTransfers.AllReturnedJustIfFlushed` that happens just if some generator ends with a parallelizable transaction,
  as long as sends return hashes.
- Null is encoded as chain 0 and forbidden chains as their ids, which are not decoded unless the options of
  chainItem allow them: `LayoutItems.ChainItemIsLossless`.

## Model

| member | source | states |
|---|---|---|
| BigEndian.DigitAt | core/base/src/utils/layout/serialize.ts:106-108 | digit `i` of the recursive big-endian form is what the source gets by shifting and masking |
| BigEndian.NumberOfDigits | core/base/src/utils/layout/serialize.ts:106-108 | the digits of a value below 256^size determine it |
| BigEndian.DigitsOfNumber | core/base/src/utils/layout/deserialize.ts:73-75 | reading digits and writing the number again gives the same digits |
| Serialize.CheckUint8ArrayDeeplyEqual | core/base/src/utils/layout/utils.ts:15-23 | the loop reports a length mismatch, else a content mismatch, else success, exactly as the byte strings compare |
| Serialize.SerializeUint | core/base/src/utils/layout/serialize.ts:91-111 | rejects negative, fractional, unsafe and too large values in that order; otherwise lays the big-endian digits over the buffer and nothing else, silently losing what falls past its end |
| Serialize.SizeOfLayoutBytes | core/base/src/utils/layout/serialize.ts:40-87 | whatever can be printed has exactly the size that calcLayoutSize computes beforehand, for all layouts |
| Serialize.UintsThatFit | core/base/src/utils/layout/serialize.ts:91-104 | a uint is printed just if it is whole, not negative and below 256^size, and not an unsafe number |
| Serialize.ConstantPrintsIfThere | core/base/src/utils/layout/serialize.ts:136-184 | a constant is printed as itself, just if it is omitted or the data has it, as a number or a bigint |
| Serialize.PrintedIsTyped | core/base/src/utils/layout/serialize.ts:113-191 | values of another type than that of the item, and bytes of another size, are not printed |
| Serialize.PrintedHasConstants | core/base/src/utils/layout/serialize.ts:113-191 | data with another value for a constant is never printed, however deep the constant is |
| Serialize.SerializeBytesForm | core/base/src/utils/layout/serialize.ts:136-163 | bytes items: constant checks, conversions, fixed size and length prefix, with the frame and failure contract of `Printed` |
| Serialize.SerializeItem | core/base/src/utils/layout/serialize.ts:113-191 | one item into a given buffer: bytes before the offset never change; on success exactly the printed bytes lie over the buffer; success whenever they exist and fit; with room enough it fails with the error of the specification and leaves later bytes alone |
| Serialize.SerializeInto | core/base/src/utils/layout/serialize.ts:33-37 | the same contract for a whole layout: final offset is start plus computed size, every byte of the range is written, none outside |
| Serialize.SerializeLayout | core/base/src/utils/layout/serialize.ts:27-38 | without a buffer: returns the printed bytes (all of a buffer of the computed size), or the first error |
| Deserialize.DeserializeUint | core/base/src/utils/layout/deserialize.ts:68-81 | the accumulating loop computes the number that the digits denote; reading past the end is an error |
| Deserialize.DeserializeBytes | core/base/src/utils/layout/deserialize.ts:107-147 | bytes items against the parser function: constants, fixed size, length prefix, rest of the data |
| Deserialize.DeserializeItem | core/base/src/utils/layout/deserialize.ts:83-177 | one item against the parser function, including where a loop over elements would never end |
| Deserialize.DeserializeToEnd | core/base/src/utils/layout/deserialize.ts:101-104 | the while loop of open-ended arrays; an element that reads nothing is reported as non-termination, exactly |
| Deserialize.InternalDeserializeLayout | core/base/src/utils/layout/deserialize.ts:43-54 | item by item, omitted items are parsed and dropped, later names overwrite earlier ones |
| Deserialize.DeserializeLayout | core/base/src/utils/layout/deserialize.ts:29-41 | with consumeAll any left-over byte is an error; without it the end offset is returned |
| RoundTrip.DecodeUndoesEncode | core/base/src/utils/layout/deserialize.ts:29-177 | decode undoes encode at any offset, with any bytes before and - unless the layout is open-ended - after, stopping exactly where the data ends |
| RoundTrip.DecodeAllUndoesEncode | core/base/src/utils/layout/serialize.ts:27-190 | the same with consumeAll on the serialization alone |
| RoundTrip.EncodeUndoesDecode | core/base/src/utils/layout/deserialize.ts:29-177 | the encoding is canonical: accepted bytes re-serialize to themselves |
| RoundTrip.FixedConversionDecodes | core/base/src/utils/layout/deserialize.ts:125-166 | data that carries the constant of a fixed conversion decodes to exactly its `to` |
| RoundTrip.ConstantShowsUnlessOmitted | core/base/src/utils/layout/deserialize.ts:46-51 | a constant is in the decoded record, with its value, just if it is not to be omitted |
| RoundTrip.DecodingIsInjective | core/base/src/utils/layout/deserialize.ts:29-41 | no two accepted byte strings decode to the same value |
| RoundTrip.ParseReadsLowerBound | core/base/src/utils/layout/discriminate.ts:91-105 | every successful parse reads at least the lower size bound and stays inside the data |
| RoundTrip.ParserTerminates | core/base/src/utils/layout/deserialize.ts:101-104 | if no unprefixed array has empty elements - that take no bytes and decode from none - the parser terminates on every input |
| RoundTrip.LoopsJustIfEmpty | core/base/src/utils/layout/deserialize.ts:101-104 | and if elements are empty, the loop over them never ends, whatever data is left: an exact condition for one array |
| RoundTrip.SpacelessLoops | core/base/src/utils/layout/deserialize.ts:101-104 | concrete layout and data for which the parser does not terminate |
| LayoutMeta.LayoutItemMeta | core/base/src/utils/layout/discriminate.ts:45-89 | bounds and recorded constants of one item, pushed behind what was recorded before |
| LayoutMeta.CreateLayoutMeta | core/base/src/utils/layout/discriminate.ts:91-105 | bounds and constants of a layout against their recursive definitions, including the offset that restarts in nested layouts |
| LayoutMeta.BoundsHold | core/base/src/utils/layout/discriminate.ts:45-105 | the size of every serialization lies within the bounds, for all layouts, nested ones included |
| LayoutMeta.EmptyTakesLowerBound | core/base/src/utils/layout/discriminate.ts:65-75 | the lower bound of an item of open size is the size of its empty value |
| LayoutMeta.TruePairsAppear | core/base/src/utils/layout/discriminate.ts:50-55 | the constants at true offsets, counted through nested layouts, stand there in every serialization of every layout |
| LayoutMeta.RecordedJustIfAnchored | core/base/src/utils/layout/discriminate.ts:91-105 | what createLayoutMeta records is exactly those constants if and only if the layout is anchored |
| LayoutMeta.FixedBytesAppear | core/base/src/utils/layout/discriminate.ts:50-55 | every recorded (offset, bytes) pair stands at its offset in every serialization, for layouts in which object items that start elsewhere than at offset 0 record constants only in their first item (anchored layouts) |
| LayoutMeta.ObjectsUnmarkedIsAnchored | core/base/src/utils/layout/discriminate.ts:57-60 | layouts whose objects, wherever they stand, hold no constants are anchored; those of the token bridge are of that kind |
| LayoutMeta.NestedOffsetsAreRelative | core/base/src/utils/layout/discriminate.ts:102-102 | counterexample: a layout that is not anchored; the nested constant is recorded at an offset relative to its own layout, and a serialization has another byte there |
| LayoutMeta.OneValuePerPosition | core/base/src/utils/layout/discriminate.ts:50-55 | an anchored layout knows at most one value per position, and none at or past its lower size bound |
| Sweep.Walk | core/base/src/utils/layout/discriminate.ts:194-214 | the walk over a Map in insertion order finds the value of the last key not above the argument |
| Sweep.CloseCandidatesBefore | core/base/src/utils/layout/discriminate.ts:112-124 | closing intervals that end keeps the table equal to interval membership up to the new position |
| Sweep.OpenInterval | core/base/src/utils/layout/discriminate.ts:126-135 | opening an interval does so, too, and keeps the open ones sorted by upper bound |
| Sweep.BuildAscendingBounds | core/base/src/utils/layout/discriminate.ts:107-139 | the sweep line refines interval membership: for every size the table holds exactly the layouts whose bounds contain it; keys ascend |
| Knowledge.CollectMeta | core/base/src/utils/layout/discriminate.ts:173-174 | bounds and constants of every layout of the set |
| Knowledge.SortBounds | core/base/src/utils/layout/discriminate.ts:175-175 | ascending lower bounds, a permutation of the indexed bounds |
| Sorting.SortIsStable | core/base/src/utils/layout/discriminate.ts:175-175 | elements with equal keys keep their order, for every list and key |
| Sorting.SortSorts | core/base/src/utils/layout/discriminate.ts:277-277 | the result is sorted and holds the same elements |
| Knowledge.BuildMustHaveByteAt | core/base/src/utils/layout/discriminate.ts:177-203 | for every position the table holds exactly the layouts with a lower bound above it |
| Knowledge.LargestStep | core/base/src/utils/layout/discriminate.ts:187-189 | the maximum of the counts over the table |
| Knowledge.BuildColumns | core/base/src/utils/layout/discriminate.ts:216-223 | column `p` lists exactly the known bytes at position `p`; an offset that does not fit is the only failure |
| ByteSteps.GroupByValue | core/base/src/utils/layout/discriminate.ts:234-242 | groups a column by value: one non-empty entry for each value, holding exactly its layouts |
| ByteSteps.Power | core/base/src/utils/layout/discriminate.ts:244-251 | the minimum that the power of a position is defined as, attained |
| ByteSteps.PowerEliminates | core/base/src/utils/layout/discriminate.ts:244-251 | the power of a position that some layout fixes is the largest number of layouts that no byte there fails to eliminate |
| ByteSteps.BuildStep | core/base/src/utils/layout/discriminate.ts:231-251 | everything recorded about a byte position equals its set-theoretic meaning |
| ByteSteps.Partition | core/base/src/utils/layout/discriminate.ts:235-236 | too short, known byte and any byte split the set of layouts, disjointly and with matching counts |
| ByteSteps.PerfectByteIsUnambiguous | core/base/src/utils/layout/discriminate.ts:256-266 | a position with power N-1 never leaves more than one layout, whatever the data |
| ByteSteps.EliminatesOrBlind | core/base/src/utils/layout/discriminate.ts:146-148 | a position that need not eliminate a candidate tells no two candidates apart: where one has a known byte, none has another or may have ended |
| ByteSteps.PerfectByteAnswer | core/base/src/utils/layout/discriminate.ts:256-266 | on data of layout `i` its answer is exactly `i` if and only if the data is too short for the position, or the layout is sure to reach it and some layout fixes it; for data of any size |
| ByteSteps.SerializationConforms | core/base/src/utils/layout/discriminate.ts:45-105 | a serialization of any layout has a size within its bounds, and of an anchored one all known bytes |
| GapExample.GapIsMissed | core/base/src/utils/layout/discriminate.ts:256-266 | counterexample: for a set of two layouts whatever the generator returns takes a position nobody fixes, and answers a serialization with null |
| GapExample.OpenIsMissed | core/base/src/utils/layout/discriminate.ts:256-266 | counterexample: with a layout of open size, its data that goes beyond its lower bound is answered with null |
| GapExample.OpenSerializes | core/base/src/utils/layout/discriminate.ts:256-266 | the data of that counterexample is a serialization of the open layout |
| GapExample.GapSerializes | core/base/src/utils/layout/serialize.ts:27-190 | the data of the counterexample is a serialization of its second layout |
| GapExample.TwinsPass | core/base/src/utils/layout/discriminate.ts:256-266 | counterexample: a set in which one layout stands twice is called distinguishable, whatever the generator returns |
| Strategies.NarrowGroups | core/base/src/utils/layout/discriminate.ts:316-324 | groups restricted to the candidates, empty ones dropped, and their total |
| Strategies.NarrowStep | core/base/src/utils/layout/discriminate.ts:315-349 | a narrowed entry of bestBytes is sound for the candidates and usable for any subset |
| Strategies.ByteBranchesShrink | core/base/src/utils/layout/discriminate.ts:361-367 | the out-of-bounds branch has strictly fewer candidates, the value branches have no more |
| Strategies.StrategyBuilder.AddStrategy | core/base/src/utils/layout/discriminate.ts:285-295 | the first strategy is kept apart, any other is filed under its candidates and their number |
| Strategies.StrategyBuilder.NarrowSizes | core/base/src/utils/layout/discriminate.ts:304-312 | no size branch keeps more than |candidates| - sizePower candidates; with sizePower above 0 each is strictly smaller |
| Strategies.StrategyBuilder.NarrowBestBytes | core/base/src/utils/layout/discriminate.ts:314-350 | either a byte that eliminates all candidates but one, or the ranked bytes narrowed to the candidates; none that still eliminates something is lost |
| Strategies.PerfectStrategy | core/base/src/utils/layout/discriminate.ts:337-356 | a strategy that eliminates all candidates but one is as good as any, and its branches need no strategy |
| Strategies.StrategyBuilder.BuildBest | core/base/src/utils/layout/discriminate.ts:358-381 | takes the byte or the size, whichever eliminates more, files it and builds all its branches; gives up only if neither eliminates anything |
| Strategies.NothingOffered | core/base/src/utils/layout/discriminate.ts:380-381 | and then candidates have a size in common, and at no position known bytes that differ |
| Strategies.StrategyBuilder.RecursivelyBuildStrategy | core/base/src/utils/layout/discriminate.ts:297-382 | terminates on all layout sets; every set of candidates it is called with gets a strategy, and every strategy filed is sound for its candidates; where offsets are true, that strategy eliminates at least as many candidates as the size or any ranked byte would (it is greedy), each of its branches is smaller and has a strategy too, and the recursion goes no deeper than there are candidates |
| Discriminate.RankBytes | core/base/src/utils/layout/discriminate.ts:225-269 | returns the first position of perfect power, or all positions with some power |
| Discriminate.BuildTree | core/base/src/utils/layout/discriminate.ts:276-384 | the sorted bytes and the strategies built from all layouts; the first strategy eliminates at least as many of them as the size, or the byte at any position that they are sure to have |
| Discriminate.GenerateLayoutDiscriminator | core/base/src/utils/layout/discriminate.ts:163-384 | which exit is taken - a perfect byte if there is one, else the size if no two layouts share one, else a strategy tree - that what is returned fits the layouts, and exactly when generation fails; for anchored layouts, just if there are none or a constant does not fit its item; calls anchored layouts indistinguishable only if some share a size and no known byte tells any two of them apart |
| Discriminate.ApplyByteStrategy | core/base/src/utils/layout/discriminate.ts:402-412 | what one byte strategy leaves of the candidates, element by element |
| Discriminate.Step | core/base/src/utils/layout/discriminate.ts:399-413 | one step of the walk, also by a strategy taken from a superset, never drops a layout that the data conforms to |
| Discriminate.FindSmallestSuperSetStrategy | core/base/src/utils/layout/discriminate.ts:386-393 | the strategy of the first filed set, by size and then by age, that has more candidates, contains these and has fewer than two less than there are layouts |
| Discriminate.Lookup | core/base/src/utils/layout/discriminate.ts:418-418 | the strategy filed under the candidates, or else that of the smallest superset |
| Discriminate.StrategyForIsFiled | core/base/src/utils/layout/discriminate.ts:386-393 | one is found just if the candidates, or more of them but fewer than two less than there are layouts, have a strategy |
| Discriminate.Descend | core/base/src/utils/layout/discriminate.ts:395-422 | the loop against the recursive definition of the walk, including where it throws and where it would go on for ever |
| Discriminate.TreeFinds | core/base/src/utils/layout/discriminate.ts:395-422 | whenever the walk returns, every layout the data conforms to is in the result; with distinguishable layouts the result has at most one element |
| Discriminate.TreeAnswers | core/base/src/utils/layout/discriminate.ts:395-422 | the walk neither throws nor loops on data whose byte at every position that is looked at is known of its layout - or missing, where at most one layout may lack it - and whose size, if it is looked at, is the smallest |
| WalkExample.FourthIsNotFound | core/base/src/utils/layout/discriminate.ts:386-418 | counterexample: five layouts that are called distinguishable, every two of them told apart by a known byte; on a serialization of the fourth the walk throws, whatever tree the generator made |
| WalkExample.FourthSerializes | core/base/src/utils/layout/serialize.ts:27-190 | the data of that counterexample is a serialization of the fourth layout |
| WalkExample.FiveAreToldApart | core/base/src/utils/layout/discriminate.ts:146-148 | and every two of its layouts differ in a known byte at some position |
| Discriminate.Run | core/base/src/utils/layout/discriminate.ts:256-422 | the returned function for all three exits |
| Discriminate.LayoutDiscriminator | core/base/src/utils/layout/discriminate.ts:425-441 | refuses indistinguishable sets unless ambiguity is allowed; never refuses anchored layouts with fitting constants of which every two have no size in common, or a position where one has a known byte and the other has another or may have ended |
| Discriminate.AlikeAreNotToldApart | core/base/src/utils/layout/discriminate.ts:380-381 | where the generator gives up, that is not so of two layouts |
| Discriminate.DiscriminateOne | core/base/src/utils/layout/discriminate.ts:433-438 | on every serialization of every layout: exactly its index from a perfect size discriminator; from a strategy tree, exactly its index if the tree asks for nothing but what is known of the layout, and, if it looks at no byte that the layout may but need not have, whenever it answers; from a perfect byte discriminator exactly under the condition above |
| Discriminate.ExactIsTractable | core/base/src/utils/layout/discriminate.ts:91-105 | anchored layouts of one size always meet the condition for strategy trees |
| Bitset.ArrayToBitsetEncodes | core/base/src/utils/layout/discriminate.ts:25-27 | the fold sets exactly the bits of the elements |
| Bitset.BitsetToArray | core/base/src/utils/layout/discriminate.ts:29-36 | the set bits, ascending, each once |
| Bitset.PackAndUnpack | core/base/src/utils/layout/discriminate.ts:25-36 | packing and unpacking sorts and drops duplicates |
| Bitset.Count | core/base/src/utils/layout/discriminate.ts:38-43 | the number of elements |
| Bitset.BitwiseIsSetwise | core/base/src/utils/layout/discriminate.ts:231-241 | `&`, `|` and `^` are intersection, union and symmetric difference, over unbounded integers |
| Bitset.RemoveIsDifference | core/base/src/utils/layout/discriminate.ts:407-411 | `c ^= c & d` is set difference |
| Bitset.SubsetTest | core/base/src/utils/layout/discriminate.ts:389-389 | `(c & d) == c` tests for a subset |
| Bitset.AllOnes | core/base/src/utils/layout/discriminate.ts:171-171 | `(1 << n) - 1` is the set of the first n layouts |
| Bitset.BitsetToArrayIsToArray | core/base/src/utils/layout/discriminate.ts:29-36 | the array is the one the model of the discriminator uses for sets |
| FixedDynamic.AddFixedValues | core/base/src/utils/layout/fixedDynamic.ts:90-122 | the loop against the recursive definition |
| FixedDynamic.FillingIsIdempotent | core/base/src/utils/layout/fixedDynamic.ts:90-122 | filling in what has been filled in changes nothing |
| FixedDynamic.FillingUndoesForgetting | core/base/src/utils/layout/fixedDynamic.ts:90-122 | filling in undoes forgetting all constant leaves of a value that carries the constants |
| FixedDynamic.FilledIsAccepted | core/base/src/utils/layout/serialize.ts:136-184 | what has been filled in are the constants, and it passes the checks of the serializer at every one of them, however deep: value of uints, size and content of bytes |
| Mapping.ZipTwice | core/base/src/utils/array.ts:71-74 | transposing a rectangular table twice gives it back |
| Mapping.EntriesBecomeRows | core/base/src/utils/mapping.ts:88-103 | entries of one or two levels, in all four forms used, become the rows they stand for |
| Mapping.KeyRows | core/base/src/utils/mapping.ts:224-227 | distinct keys in order of appearance, with the positions of each |
| Mapping.Builder.BuildLeaf | core/base/src/utils/mapping.ts:229-245 | a leaf object lists the values of each key; allSingletons survives just if no key has two rows |
| Mapping.Builder.BuildMappingRecursively | core/base/src/utils/mapping.ts:220-257 | the nested index finds, for every path, exactly what a linear scan finds, and allSingletons tells whether all key tuples are unique |
| Mapping.Builder.UnwrapLeaves | core/base/src/utils/mapping.ts:288-291 | replaces every list of every leaf object by its only element, in place |
| Mapping.ToMapping | core/base/src/utils/mapping.ts:205-294 | succeeds exactly for a non-empty table and a fitting shape with mappable keys; every full look-up then agrees with the scan; without a shape, all columns but the last are keys, in order, and the last holds the values |
| Mapping.ConstMap | core/base/src/utils/mapping.ts:357-369 | the same from entries, with and without a shape |
| Mapping.ScanGroup | core/base/src/utils/mapping.ts:247-256 | scanning the rows of one key without that column is scanning all rows for a path starting with it |
| Mapping.LookupFindsRow | core/base/src/utils/mapping.ts:362-363 | with unique keys, the keys of a row lead to its bare value |
| Mapping.NumbersAsKeys | core/base/src/utils/mapping.ts:252-255 | as a key a number is the string of its decimal digits, and a bigint no different |
| Mapping.BooleansAsKeys | core/base/src/utils/mapping.ts:252-255 | and a boolean is found under its word |
| Mapping.HasJustIfRowMatches | core/base/src/utils/mapping.ts:346-347 | `has` holds exactly if some row matches and, where keys are unique, the first such row has a value other than null and undefined |
| Mapping.MapsInvertEachOther | core/base/src/utils/mapping.ts:357-369 | on a table injective both ways, the default map and that of shape [1, 0] lead back from whatever the other finds |
| HexString.HexByteStringToUint8Array | core/base/src/utils/hexstring.ts:45-58 | the loop over pairs of digits against the recursive definition, errors included |
| HexString.IsHexByteString | core/base/src/utils/hexstring.ts:31-42 | true exactly for even length, the expected number of bytes and hex digits after the prefix |
| HexString.DecodeUndoesPrint | core/base/src/utils/hexstring.ts:45-62 | parsing undoes printing - exactly except for the prefixed form of the empty array |
| HexString.ParsesJustIfHex | core/base/src/utils/hexstring.ts:31-58 | a string parses if and only if isHexByteString accepts it and it is not two characters ending in "x"; length is half the digits |
| HexString.PrintUndoesDecode | core/base/src/utils/hexstring.ts:60-62 | printing what was parsed gives the digits in lower case |
| HexString.CaseDoesNotMatter | core/base/src/utils/hexstring.ts:4-19 | digits in upper and lower case stand for the same bytes |
| LayoutItems.BuildChainMaps | core/base/src/constants/chains.ts:58-59 | the two constMaps over a table of distinct names and distinct positive ids map its columns to one another |
| LayoutItems.ChainIdComesBack | core/definitions/src/layout-items/chain.ts:29-45 | a chain that an id was decoded to encodes as that id, and null as 0 where it is allowed |
| LayoutItems.NoChainPrintsAsZero | core/definitions/src/layout-items/chain.ts:43-44 | null and undefined are printed as chain 0, whatever the options |
| LayoutItems.ChainItemIsLossless | core/definitions/src/layout-items/chain.ts:18-49 | hence chainItem is lossless both ways - exactly except for null and for chains that its options forbid, which are encoded but not decoded |
| LayoutItems.SignatureItemIsLossless | core/definitions/src/layout-items/signature.ts:16-27 | the 65-byte signature conversion is lossless both ways |
| LayoutItems.AddressItemIsLossless | core/definitions/src/layout-items/universalAddress.ts:7-14 | so is that of universal addresses |
| Composition.BytesOfConcat | core/definitions/src/vaa.ts:201-205 | layouts written one after the other print one after the other |
| Composition.ParseOfConcat | core/definitions/src/vaa.ts:214-228 | and parse one after the other |
| Composition.PrintsFromNames | core/definitions/src/vaa.ts:198-206 | printing reads only the fields a layout names |
| Vaa.PayloadRegistry.RegisterPayloadType | core/definitions/src/vaa.ts:188-196 | registers a new type, refuses a known one, and changes no other |
| Vaa.PayloadRegistry.Create | core/definitions/src/vaa.ts:163-186 | fills in constants and hashes the serialized body |
| Vaa.PayloadRegistry.SerializeVaa | core/definitions/src/vaa.ts:198-206 | header, envelope and payload in one layout |
| Vaa.PayloadRegistry.DeserializeVaa | core/definitions/src/vaa.ts:208-231 | hex or bytes; header, order check, body and hash, against the specification |
| Vaa.CheckAscending | core/definitions/src/vaa.ts:218-225 | the loop accepts exactly strictly ascending guardian indices |
| Vaa.VaaIsWellBehaved | core/definitions/src/vaa.ts:82-107 | the layout of a VAA has distinct names and lossless conversions, given those of its payload |
| Vaa.HeaderThenBody | core/definitions/src/vaa.ts:214-228 | decoding header and body separately finds what the whole layout finds |
| Vaa.WholeThenAccepted | core/definitions/src/vaa.ts:214-228 | of the data the whole layout accepts, exactly that with ascending indices is accepted |
| Vaa.AcceptedReserializes | core/definitions/src/vaa.ts:198-231 | accepted bytes re-serialize to themselves |
| Vaa.AcceptedIsInjective | core/definitions/src/vaa.ts:208-231 | no two byte strings are accepted as the same VAA |
| Vaa.AcceptedIndicesAscend | core/definitions/src/vaa.ts:216-225 | the guardian indices of an accepted VAA are bytes, pairwise distinct and sorted |
| VaaFormat.AcceptedFormat | core/definitions/src/vaa.ts:82-107 | the wire format of every accepted VAA by numeric offsets: version 1, guardian set, signatures of 66 bytes each with index, r, s and v, then from the end h of the header timestamp, nonce, emitter chain, emitter address, sequence, consistency level, and the payload from h + 51; the hash is that of everything from h |
| VaaFormat.AcceptedJustIfAscending | core/definitions/src/vaa.ts:214-228 | data that the whole layout accepts is accepted just if the bytes at 6, 72, 138 and so on, one for each signature, ascend |
| Vaa.DeserializeUndoesSerialize | core/definitions/src/vaa.ts:163-231 | deserialize(serialize(create(x))) is create(x), hash included, for ascending indices and fields in range |
| Batching.BatchesConcatenate | connect/src/protocols/tokenTransfer.ts:220-236 | the batches concatenate to the stream: order kept, nothing lost |
| Batching.BatchesAreBatched | connect/src/protocols/tokenTransfer.ts:220-236 | a non-parallelizable transaction only ends a batch, and all batches but the last end with one |
| Batching.BatchesAreUnique | connect/src/protocols/tokenTransfer.ts:220-236 | these properties determine the batches |
| Batching.SendStream | connect/src/protocols/tokenTransfer.ts:222-231 | the loop sends each finished batch once, in order; it fails just if the generator or the last signing or sending does, and on failure sends up to some batch |
| Batching.SendAll | connect/src/protocols/tokenTransfer.ts:220-236 | with the last flush: on success all batches, and the returned hashes are those of the sends in order; it fails just if the generator or the last signing or sending does |
| SolanaRedeem.PostVaa | platforms/solana/src/protocols/tokenBridge.ts:448-486 | verification instructions in chunks of two, then the posting transaction |
| SolanaRedeem.BatchInstructions | platforms/solana/src/protocols/tokenBridge.ts:518-562 | instruction by instruction: account creation if there is none, the verifications in order, posting, completing |
| SolanaRedeem.ChunksConcatenate | platforms/solana/src/protocols/tokenBridge.ts:464-469 | the chunks hold all instructions, in order |
| SolanaRedeem.Redeem | platforms/solana/src/protocols/tokenBridge.ts:489-563 | the transactions that redeem a VAA and their parallelizable flags |
| SolanaRedeem.RedemptionsBatchAlone | platforms/solana/src/protocols/tokenBridge.ts:518-562 | however many VAAs and instructions, the batches are: account creation if needed, all verifications of one VAA together, posting, transfer |
| SolanaRedeem.PostedOnlyAfterVerified | platforms/solana/src/protocols/tokenBridge.ts:526-543 | a VAA is posted only after a batch of exactly all the instructions that verify its signatures went through, and completed only after posting did - also when something fails on the way |
| TokenTransfers.CompletedOnSolana | connect/src/protocols/tokenTransfer.ts:319-361 | completeTransfer keeps this for every VAA, also when a generator throws before, while or after it yields |
| TransferRuns.StateNeverDecreases | connect/src/wormholeTransfer.ts:13-19 | over every run of calls the state never decreases and sends are never undone |
| TransferRuns.InitiatedOnce | connect/src/protocols/tokenTransfer.ts:186-187 | once the state is past Created, no initiateTransfer sends or changes anything |
| TransferRuns.NothingSentBetween | connect/src/wormholeTransfer.ts:23-44 | while the state is past Created and not yet Attested, nothing is sent |
| TransferRuns.CompletedOnlyAfterAttested | connect/src/protocols/tokenTransfer.ts:306-309 | completeTransfer sends only after the state was moved to Attested or beyond |
| TokenTransfers.TokenTransfer.GetTransferState | connect/src/protocols/tokenTransfer.ts:54-75 | moves to Completed exactly for an automatic transfer with VAAs whose delivery completed |
| TokenTransfers.TokenTransfer.InitiateTransfer | connect/src/protocols/tokenTransfer.ts:175-259 | the whole effect, also when it throws before, while or after sending, or while messages are parsed; and it throws only for one of these reasons |
| TokenTransfers.TokenTransfer.FetchAttestation | connect/src/protocols/tokenTransfer.ts:262-296 | fetches what is missing up to the first failure; Attested exactly on success, which is exactly if no needed fetch fails |
| TokenTransfers.TokenTransfer.CompleteTransfer | connect/src/protocols/tokenTransfer.ts:299-362 | sends all redemptions as one batched stream, and succeeds exactly if every VAA is there and redeemable, every generator runs through, and no signing or sending fails; on failure ends at some VAA: all before were redeemable and their generators ran through and were flushed as far as due, of that VAA no more than its own flushed batches went out, and nothing if it is missing or refused |
| TokenTransfers.FetchMissing | connect/src/protocols/tokenTransfer.ts:276-289 | the loop over the cache, in place |
| TokenTransfers.FetchKeeps | connect/src/protocols/tokenTransfer.ts:276-289 | keeps ids and fetched VAAs; complete exactly if no needed fetch fails |
| TokenTransfers.Drive | connect/src/protocols/tokenTransfer.ts:28-362 | any sequence of calls, with any answers, is a run, and whenever the state is Attested, the attestations to complete it are there |
| GatewayTransfers.GatewayTransfer.InitiateTransfer | connect/src/protocols/gatewayTransfer.ts:287-389 | the whole effect |
| GatewayTransfers.GatewayTransfer.FromCosmos | connect/src/protocols/gatewayTransfer.ts:407-440 | exactly when the attestations of a transfer from Cosmos are found |
| GatewayTransfers.LookupFindsAll | connect/src/protocols/gatewayTransfer.ts:407-421 | the transfers of all transactions are looked up, in order, and only a failing look-up makes that fail |
| GatewayTransfers.GatewayTransfer.FromOutside | connect/src/protocols/gatewayTransfer.ts:441-482 | exactly when those of a transfer from outside are found, and what is cached then; a VAA that was fetched stays when a later step fails |
| GatewayTransfers.GatewayTransfer.FetchAttestation | connect/src/protocols/gatewayTransfer.ts:392-491 | Attested exactly on success, which is exactly if all look-ups, fetches and polls for the transactions succeed; always refused without transactions |
| GatewayTransfers.GatewayTransfer.CompleteTransfer | connect/src/protocols/gatewayTransfer.ts:496-553 | sends all redemptions as one batched stream, or ends at some VAA for one of the reasons above |
| GatewayTransfers.From | connect/src/protocols/gatewayTransfer.ts:110-143 | what is handed out is attested; starting from a message id is always refused, because no transaction is known |
| GatewayTransfers.Drive | connect/src/protocols/gatewayTransfer.ts:41-553 | any sequence of calls, with any answers, is a run, and ready whenever the state is Attested |
| CctpTransfers.CCTPTransfer.InitiateTransfer | connect/src/protocols/cctpTransfer.ts:195-248 | the whole effect |
| CctpTransfers.CCTPTransfer.FetchWormholeAttestation | connect/src/protocols/cctpTransfer.ts:250-270 | fetches missing VAAs up to the first failure; refused without VAA ids |
| CctpTransfers.CCTPTransfer.FetchCircleAttestation | connect/src/protocols/cctpTransfer.ts:272-306 | starts from what is cached or the looked-up message, attests in order up to the first failure, and succeeds exactly if nothing fails |
| CctpTransfers.CCTPTransfer.FetchAttestation | connect/src/protocols/cctpTransfer.ts:310-333 | Attested exactly on success; always refused for automatic transfers without VAA ids |
| CctpTransfers.CCTPTransfer.CompleteTransfer | connect/src/protocols/cctpTransfer.ts:337-404 | redeems attestation by attestation, or ends at some attestation for one of the reasons above; says when the returned hashes are those of all sends; automatic transfers are always refused |
| CctpTransfers.AllReturnedJustIfFlushed | connect/src/protocols/cctpTransfer.ts:396-400 | all hashes are returned if every generator ends with a transaction that is not parallelizable; if one does not and every send returns a hash, some are missing |
| CctpTransfers.HashGetsLost | connect/src/protocols/cctpTransfer.ts:396-400 | concrete generator whose transaction is sent and whose hash is not returned |
| CctpTransfers.From | connect/src/protocols/cctpTransfer.ts:76-96 | what is handed out is attested, although the state is set before |
| CctpTransfers.Drive | connect/src/protocols/cctpTransfer.ts:32-404 | any sequence of calls is a run, and ready whenever the state is Attested; an automatic transfer made from details never gets past Initiated |

## Left out

- Serialize.SerializeInto: for a buffer of the caller that is too small, only says that success means success of the specification and that earlier bytes are kept; which of several errors is reported, and what is left in the buffer, is not determined.
- Serialize.SerializeItem: the wrapping of error messages with the item's name, and how data of the wrong type fails beyond `TypeFault`.
- Discriminate.Descend: that findSmallestSuperSetStrategy throws or that the walk repeats a strategy for ever is excluded only for the data of `Discriminate.TreeAnswers`; elsewhere both are outcomes of the model.
- Discriminate.DiscriminateOne: promises nothing of a perfect byte discriminator for sets with a layout that is not anchored, nor of a strategy tree for data that has a byte which its layout may but need not have at a position that is looked at; out-of-bounds is decided from lower bounds.
- Strategies.StrategyBuilder.RecursivelyBuildStrategy: where a byte eliminates all candidates but one, the source makes no strategy for the candidates too short for it, of which there may be more (narrowedPower does not count them), so none is promised; nor is anything but termination and soundness for layouts whose constants are not recorded where they are. It works on sets of layout indices; `Bitset` shows that the bit operations are the set operations.
- Strategies.StrategyBuilder.NarrowSizes: like the source, has branches for the lower bounds of the candidates only, not for sizes in between.
- Knowledge.SortBounds: the sorting algorithm is an insertion sort; only stability and order matter.
- Mapping.ToMapping: for different keys that are the same property name (1 and "1"), says only whether the shape is accepted.
- Mapping.ConstMap: entries of three levels, fewer or more arguments than key columns, symbol keys, non-integral numbers as keys, and names inherited from the object prototype.
- HexString.IsHexByteString: strings are sequences of characters, not of UTF-16 code units.
- Vaa.DeserializeUndoesSerialize: asks that the record be serializable and typed as TypeScript types it, which is what in-range fields mean; a missing field is not a typed record.
- Vaa: serializePayload, deserializePayload and payloadDiscriminator; they only call the layout engine and the discriminator.
- SolanaRedeem.Redeem: block hashes, fee payers, partial signatures and the accounts behind the instructions; the instructions that verify signatures are an arbitrary list.
- TokenTransfers.Drive: says nothing about the attestations in state Completed, which a relayed TokenTransfer can reach without its VAAs, nor that there is a VAA for every source transaction: when a message of TokenTransfer.initiateTransfer does not parse, the messages before it are kept and can be attested.
- TokenTransfers.TokenTransfer.CompleteTransfer: failures to resolve the chain context or the signer's address count as failures to build the generator.
- GatewayTransfers.GatewayTransfer.FromCosmos: the look-ups run one after the other; in the source they run at once and any failure fails all.
- CctpTransfers.From: fromIdentifier and fromTransaction come in as the fields they leave behind; parsing VAAs and Circle messages is not modelled.
- Overlapping asynchronous calls on one transfer, polling and retries: an answer stands for what all retries came to.
- Network and chain I/O, signing and key handling, bech32, base58 and base64 addresses, the tables of chains and contracts, and type-level programming.
- fixedItemsOfLayout and dynamicItemsOfLayout, normalizeAmount, the gateway message wrappers and the chain helpers: small functions that would only add easy members.
- keccak256 and sha256: no property of the hash functions is assumed or proved.
