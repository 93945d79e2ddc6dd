# nall, verified

A Dafny model of the data structures, arithmetic and file formats of byuu's nall library and of icarus's Super
Famicom import, with proofs of what they promise. `dafny verify dfyconfig.toml` checks all of it.

Code that changes things step by step is modelled as methods on heap objects, arrays and local variables, with loops
where the source has them; each such method is proved against a function on values, and the promises are proved of that
function. Code made of expressions is modelled as functions.

| files | what they model |
|---|---|
| RedBlackTree, RedBlackSet, RedBlackIterator | `set` and `map`: the red-black tree on values, on linked nodes, and its stack iterator |
| Natural, NaturalMul | the tower of multi-precision naturals: level 0 is a native word of 64 or 128 bits, level n + 1 a Pair of level n; their theorems hold at every level of both towers without a condition |
| NaturalTruth, NaturalDiv, NaturalText, NaturalLiteral, Barrett | what the code takes for zero in that tower, and division, text and Barrett reduction by it, right at every level under exact conditions |
| VarInt, Crc32, Crc32Remainder, Base57 | number coding, the checksum and what it is a remainder of, base-57 text |
| BpsPatch, BpsFormat | the patch format: a functional reading of it, the patcher that writes the target array in place, what each action writes, and which patches are refused |
| BpsPlan, BpsWriter, BpsLinear, BpsDelta | what the two encoders decide and write, and why the patcher recovers the target |
| BpsMetadata | replacing and reading a patch's markup |
| PagedFile | the file behind a one-page write-back buffer, against a plain byte array: where they agree, and what is lost beyond 2^31 bytes |
| Stream | files whose bytes feed a running checksum: what patches and archives are written to and read from |
| Archive, ArchiveUnpack, ArchiveTrip, ArchiveFormat | archives of directory trees: creation, unpacking, extraction, how they undo each other, what stands where, and which damage is noticed |
| Sort, BitRound, HashSet | the hybrid stable sort, rounding to powers of two, the linear-probing table |
| Cartridge, CartridgeImport, CartridgeBoard | header detection, classification, splitting an image into files and collecting them again, and what manifest and files say of the header and the chips |
| Bits, Arith, Maybe | powers of two and bit operations on naturals, arithmetic of limbs, optional values |

These promises do not hold without a condition, and the condition is proved exact:

- Testing a Pair for truth sees only the lowest native words of its limbs, because the conversion to a truth value
  narrows limbs that are Pairs themselves (`NaturalTruth.TruthyVal`). Division is therefore right up to level 2
  (`NaturalDiv.LowLevels`), and above for the operands that `NaturalDiv.Divide` shows to be exactly the right ones; from
  level 3 on 2^WORD_BITS is taken for zero (`NaturalDiv.WordIsZero`).
- The decimal text of a number is its own exactly when every division on the way is right and no quotient but zero tests
  false (`NaturalText.Stringify`), as for all Pairs of native words; from level 2 on 10 * 2^WORD_BITS loses its other
  digits (`NaturalText.WordLost`). Base-57 text of a Pair needs the divisions only (`Base57.EncodePair`).
- Barrett reduction needs a modulo of at least 2 that is not a multiple of 2^WORD_BITS (`Barrett.Construct`).
- A delta patch needs that no source copy goes back by exactly 2^30 (`BpsDelta.Recovers`, with a concrete failing input
  in `BpsDelta.TooFar`). That patches stay below the lengths which reading them needs follows from the lengths of target
  and markup (`BpsLinear.PatchFits`, `BpsDelta.PatchFits`).
- A file leaves on the disk what was written to it as long as no byte is written from 2^31 on, where its buffer's page
  offset turns negative (`PagedFile.DiskExact`, with a concrete failing run in `PagedFile.OutOfReach`). So patches, and
  patches with new markup, and archives are whole up to 2^31 bytes and not beyond (`BpsLinear.Create`, `BpsDelta.Create`,
  `BpsMetadata.Save`, `Archive.Create`).
- Unpacking an archive made from a directory succeeds exactly when no path looks dangerous
  (`ArchiveTrip.UnpackRestores`: a folder whose name ends in two dots and that holds anything is refused).
- An archive that is accepted ends in the checksum of everything before it when its entries end at its last word
  (`ArchiveFormat.AcceptedWhole`); markup or entries that run over it can be accepted without (`ArchiveFormat.OverrunAccepted`).
- Separators keep the number of a literal unless they stand within its prefix (`NaturalLiteral.Separators`).
- A hash table answers as a multiset exactly when nothing is put into it or looked up while it has no slots, which
  reserving nothing or more than 2^31 slots while empty brings about, and when with elements in it no more than 2^31
  slots are reserved, nor anything put in or reserved once there are more than 2^30 (`HashSet.Run`, with failing runs in
  `HashSet.EmptiedFails` and `HashSet.OvergrownFails`).
- A base-57 text survives decoding exactly when it stands for a value of the width (`Base57.TextRoundTrip`).
- An import succeeds exactly when the image is a Super Famicom cartridge with everything its board needs, which shows in
  its size (`CartridgeImport.ImportSucceeds`).

Reads and writes outside a buffer have no meaning in C++. The patcher's model stops with the status `OutOfBounds` before
the first of them, so that "applies successfully" also says that none happens.

## Model

| member | source | states |
|---|---|---|
| RedBlackTree.FindMeetsMap | nall/set.hpp:60-68 | Searching a tree whose elements are in order finds exactly the entry the finite map has under the key, and nothing for any other key. |
| RedBlackTree.RotateKeepsOrder | nall/set.hpp:171-177 | A rotation leaves the in-order sequence of elements as it was. |
| RedBlackTree.RotateTwiceKeepsOrder | nall/set.hpp:179-182 | So does a double rotation. |
| RedBlackTree.FixInsertShape | nall/set.hpp:189-202 | The rebalancing after an insertion turns a black node over a child with at most one red-red pair into a red-black tree of the same black height, and leaves a red node no worse than one red-red pair. |
| RedBlackTree.FixInsertKeepsOrder | nall/set.hpp:189-202 | That rebalancing moves no element past another. |
| RedBlackTree.InsertShape | nall/set.hpp:184-203 | Inserting into any red-black subtree keeps its black height and every black height below; a black root stays red-black, a red one may be left with a single red child. |
| RedBlackTree.InsertOrder | nall/set.hpp:184-203 | The in-order sequence after an insertion is the old one with the entry put in its place, or put over the entry with an equal key. |
| RedBlackTree.InsertKeepsValid | nall/set.hpp:70-76 | Inserting into any valid tree gives a valid tree (ordered, black root, no red node with a red child, equal black heights) whose elements are the old ones plus the new, the old entry of an equal key overwritten. |
| RedBlackTree.RestructureRepairs | nall/set.hpp:215-233 | With a black sibling, moving a black level over restores the full black height, or the flag stays unset and the subtree is exactly one level short. |
| RedBlackTree.RestructureOrder | nall/set.hpp:215-233 | Moving a black level over keeps the elements in their order. |
| RedBlackTree.BalanceRepairs | nall/set.hpp:205-234 | In every case of the rebalancing after a removal, the flag comes back set exactly when the subtree has its old black height again, and the result is red-black; a red sibling always has the children the code dereferences. |
| RedBlackTree.BalanceOrder | nall/set.hpp:205-234 | That rebalancing keeps the elements in their order. |
| RedBlackTree.DetachRepairs | nall/set.hpp:239-250 | Unlinking a node with at most one child sets the flag exactly when no black level was lost. |
| RedBlackTree.Remove | nall/set.hpp:236-261 | Removal from any red-black subtree gives a red-black subtree whose black height is the old one if the flag is set and one less if not, through the recursion, the heir copy and every rebalancing. |
| RedBlackTree.HeirOrder | nall/set.hpp:251-261 | Copying the heir over a node with two children and removing the heir from the left subtree removes exactly the node's own entry. |
| RedBlackTree.RemoveOrder | nall/set.hpp:236-261 | The in-order sequence after a removal is the old one without the entry of the key. |
| RedBlackTree.RemoveKeepsValid | nall/set.hpp:84-90 | Removing from any valid tree gives a valid tree whose elements are the old ones without the key, present or not. |
| RedBlackTree.PutUpdatesMap | nall/map.hpp:23-23 | Putting an entry into an ordered sequence updates the finite map it stands for at that key and nowhere else. |
| RedBlackTree.DropUpdatesMap | nall/map.hpp:24-24 | Dropping a key from an ordered sequence removes that key from the finite map and nothing else. |
| RedBlackTree.HeightBound | nall/set.hpp:19-35 | A red-black tree of n elements is at most 2 * log2(n + 1) high. |
| RedBlackTree.RunRefinesMap | nall/set.hpp:70-95 | After any run of insertions and removals on an empty set the tree is valid, stands for the finite map the same run makes (the last insertion of a key wins), and its height is logarithmic. |
| RedBlackSet.Rotate | nall/set.hpp:171-177 | The pointer exchange performs the rotation on the nodes themselves: same cells, every value in its cell, the new top the old opposite child. |
| RedBlackSet.RotateTwice | nall/set.hpp:179-182 | The double rotation on the nodes, likewise. |
| RedBlackSet.FixInsertAt | nall/set.hpp:189-202 | The recolourings and rotations in place compute the insertion's rebalancing, with no cell lost or added. |
| RedBlackSet.RestructureAt | nall/set.hpp:215-233 | The case of a black sibling in place, and its flag. |
| RedBlackSet.BalanceAt | nall/set.hpp:205-234 | `balance` in place: the resulting nodes and the flag are those of the rebalancing proved correct on values; the cells are the same. |
| RedBlackSet.Rightmost | nall/set.hpp:251-254 | Following right links from the left child ends at the cell that holds the greatest element below it. |
| RedBlackSet.Set.Find | nall/set.hpp:60-68 | Returns the stored entry of the key from the heap, or nothing exactly when the set's map has no such key. |
| RedBlackSet.Set.InsertAt | nall/set.hpp:184-203 | The recursive insertion rewrites links in place, returns the cell that now holds the entry, and raises the node count exactly when a cell was added. |
| RedBlackSet.Set.Insert | nall/set.hpp:70-76 | The set stays valid, its contents are updated at the key, the count grows by one or not at all, and nothing is returned exactly when an equal element was there. |
| RedBlackSet.Set.DetachAt | nall/set.hpp:239-250 | Unlinking a cell with at most one child in place: the remaining cells, the flag, and one element less. |
| RedBlackSet.Set.RemoveBelow | nall/set.hpp:257-260 | One level of removal in place: recursion below a link, then rebalancing unless the flag is set. |
| RedBlackSet.Set.RemoveAt | nall/set.hpp:236-261 | The recursive removal in place computes the removal proved correct on values, its flag, and lowers the count exactly when a cell went. |
| RedBlackSet.Set.Remove | nall/set.hpp:84-90 | The set stays valid, loses exactly the key, and tells whether it was there. |
| RedBlackSet.Map.Find | nall/map.hpp:18-21 | The payload the map has under the key, or nothing. |
| RedBlackSet.Map.Insert | nall/map.hpp:23-23 | The map's contents afterwards are the old ones updated at the key, whatever was there before. |
| RedBlackSet.Map.Remove | nall/map.hpp:24-24 | The map's contents afterwards are the old ones without the key. |
| RedBlackIterator.PushLeft | nall/set.hpp:103-105 | Pushing the left links keeps the stack the path to the next node: exactly the cells not yet visited are pending, the leftmost first. |
| RedBlackIterator.PopRight | nall/set.hpp:106-110 | Leaving finished subtrees pops the stack only while it holds a parent, and ends with the next node in order on top, or with nothing left. |
| RedBlackIterator.Successor | nall/set.hpp:103-110 | From a node just visited, the stack's way down the right subtree or up out of finished ones ends with the rest of the cells pending, the next one on top. |
| RedBlackIterator.Cursor.constructor | nall/set.hpp:115-121 | `begin()` of any valid tree stands before all its cells, in order. |
| RedBlackIterator.Cursor.Current | nall/set.hpp:129-132 | Dereferencing gives the first element not yet passed; the stack is not empty then. |
| RedBlackIterator.Cursor.Advance | nall/set.hpp:100-113 | `operator++` passes exactly one element, stays at end() when it is there, and never reads an empty stack. |
| RedBlackIterator.Visit | nall/set.hpp:97-135 | A loop from begin() to end() over any valid set visits the elements once each, strictly ascending, and all of them. |
| Natural.ValBound | nall/arithmetic/natural.hpp:14-18 | A number of level n is below 2 to the number of its bits, at every level of the tower. |
| Natural.OfVal | nall/arithmetic/natural.hpp:130-140 | Widening an integer to any level keeps its value. |
| Natural.ValInjective | nall/arithmetic/natural.hpp:42-43 | Two numbers of a level are equal exactly when their limbs are: equal values have equal representations. |
| Natural.LessVal | nall/arithmetic/natural.hpp:47-47 | The limbwise comparison is the comparison of the values. |
| Natural.AtLeastVal | nall/arithmetic/natural.hpp:42-44 | The limbwise `>=` compares the values, and a number equals zero exactly when its value is zero. |
| Natural.AddVal | nall/arithmetic/natural.hpp:35-35 | The limbwise sum, its carry seen in the lower sum falling below a summand, is the sum modulo 2^PairBits, by induction over the tower. |
| Natural.SubVal | nall/arithmetic/natural.hpp:36-36 | The limbwise difference with its borrow is the difference modulo 2^PairBits. |
| Natural.IncrementVal | nall/arithmetic/natural.hpp:26-26 | Incrementing adds one modulo 2^PairBits; the carry is the lower limb becoming zero. |
| Natural.DecrementVal | nall/arithmetic/natural.hpp:27-27 | Decrementing subtracts one modulo 2^PairBits; the borrow is the lower limb being zero. |
| Natural.BitAndVal | nall/arithmetic/natural.hpp:39-39 | Limbwise conjunction is bitwise conjunction of the values. |
| Natural.BitOrVal | nall/arithmetic/natural.hpp:40-40 | Limbwise disjunction is bitwise disjunction of the values. |
| Natural.ShiftVal | nall/arithmetic/natural.hpp:254-272 | Shifting left multiplies by a power of two modulo 2^PairBits and shifting right divides by it, for every count below PairBits, within a limb and across limbs, at every level. |
| NaturalMul.HalvesVal | nall/arithmetic/natural.hpp:207-219 | A limb is its high half times 2^HalfBits plus its low half, as the shift and the mask take them. |
| NaturalMul.RowVal | nall/arithmetic/natural.hpp:212-215 | No partial sum of the schoolbook product overflows a Pair: a column of up to four products plus the carry from below is computed exactly. |
| NaturalMul.AssembleVal | nall/arithmetic/natural.hpp:217-219 | Masking, shifting and or-ing four rows gives the number with those rows' low halves as digits. |
| NaturalMul.MulVal | nall/arithmetic/natural.hpp:207-219 | The truncating product is the product modulo 2^PairBits, at every level of the tower. |
| NaturalMul.MulFullVal | nall/arithmetic/natural.hpp:221-237 | The two results of the full product satisfy hi * 2^PairBits + lo = lhs * rhs, at every level. |
| NaturalMul.SquareIsMul | nall/arithmetic/natural.hpp:170-183 | The truncating square, which shares its mixed products, is the product of the number with itself. |
| NaturalMul.SquareFullIsMulFull | nall/arithmetic/natural.hpp:185-205 | The two-result square is the full product of the number with itself. |
| NaturalTruth.TruthyVal | nall/arithmetic/natural.hpp:20-21 | Testing a Pair sees the lowest native words of its two limbs and nothing else: at every level the test is true exactly when one of these two words is not zero; a single native word is seen whole. |
| NaturalTruth.FalsyVal | nall/arithmetic/natural.hpp:24-24 | `!` tests the limbs one by one, each as a Pair is tested one level below. |
| NaturalTruth.SeenExact | nall/arithmetic/natural.hpp:20-21 | On native words and on Pairs of them the test tells zero from everything else. |
| NaturalTruth.UnseenExact | nall/arithmetic/natural.hpp:24-24 | `!` does so up to the Pairs of such Pairs. |
| NaturalTruth.SeenNotUnseen | nall/arithmetic/natural.hpp:20-24 | What the truth test sees, `!` sees as well. |
| NaturalTruth.CountedLeast | nall/arithmetic/natural.hpp:157-167 | The loop's count of a limb is the least number of halvings after which nothing of it is seen. |
| NaturalTruth.BitsAtMost | nall/arithmetic/natural.hpp:157-167 | The bits counted of a Pair are never more than its bit length, and not none for a Pair that `!` sees. |
| NaturalTruth.BitsExact | nall/arithmetic/natural.hpp:157-167 | Up to level 2, and at every level on values of a single native word, the count is the bit length. |
| NaturalDiv.CountBits | nall/arithmetic/natural.hpp:157-167 | The loop counts how often a limb can be halved while it tests true. |
| NaturalDiv.BitsOf | nall/arithmetic/natural.hpp:157-167 | The bits counted of a Pair are the specified count, at most its bit length, and its bit length up to level 2. |
| NaturalDiv.Align | nall/arithmetic/natural.hpp:244-247 | A divisor shifted by the difference of the true bit lengths stays within the width and is more than half the dividend. |
| NaturalDiv.Round | nall/arithmetic/natural.hpp:248-251 | One round of the loop, whatever shift it started from, keeps quotient * cut + remainder = lhs for the divisor as far as the shift has left it, the quotient a multiple of twice the next bit; once the bit is shifted out, what is subtracted adds up to less than the divisor. |
| NaturalDiv.WellRound | nall/arithmetic/natural.hpp:248-251 | While the shift was right, a round also keeps quotient * rhs + remainder = lhs and remainder < 2x. |
| NaturalDiv.CutShift | nall/arithmetic/natural.hpp:245-245 | Shifting the divisor leaves it whole exactly when the product fits the width, and otherwise leaves less than half of it. |
| NaturalDiv.Finish | nall/arithmetic/natural.hpp:248-252 | When the loop ends, quotient and remainder are those of the values if and only if the divisor was shifted whole and beyond half the dividend. |
| NaturalDiv.OrIsSum | nall/arithmetic/natural.hpp:249-249 | Or-ing the next bit into a quotient that is a multiple of twice it is adding it. |
| NaturalDiv.AlignDivisor | nall/arithmetic/natural.hpp:244-247 | The shifted divisor and its bit as the loop starts with them, for any shift below the width, cut off or not. |
| NaturalDiv.SubtractAligned | nall/arithmetic/natural.hpp:249-249 | The conditional subtraction on Pairs computes the round's new quotient and remainder. |
| NaturalDiv.Subtract | nall/arithmetic/natural.hpp:245-252 | The loop, from any shift: it is right if and only if the shifted divisor fits the width and exceeds half the dividend; otherwise it gives another quotient or never ends. |
| NaturalDiv.Divide | nall/arithmetic/natural.hpp:239-252 | At every level: the exception is raised exactly for divisors `!` takes for zero, and the outcome is the quotient and the remainder of the values, or the exception for zero, if and only if the operands are divisible: `!` sees those that matter, and the shift by the counted bits takes the divisor beyond half the dividend within the width. |
| NaturalDiv.CountedRight | nall/arithmetic/natural.hpp:239-252 | Operands that `!` sees and whose bits are counted right are divisible. |
| NaturalDiv.LowLevels | nall/arithmetic/natural.hpp:239-252 | Up to level 2 all operands are divisible: division is right there without a condition. |
| NaturalDiv.SingleWords | nall/arithmetic/natural.hpp:239-252 | At every level values of a single native word are divisible. |
| NaturalDiv.WordIsZero | nall/arithmetic/natural.hpp:240-242 | From level 3 on 2 to the width of a native word is taken for zero: dividing by it raises the exception, and it is not divided right by one. |
| NaturalText.ToVector | nall/arithmetic/natural.hpp:336-344 | The bytes written are PairBits / 8 many and stand for the number, the least significant first. |
| NaturalText.FromVector | nall/arithmetic/natural.hpp:78-83 | A byte vector of any length is read as its value modulo 2^PairBits. |
| NaturalText.VectorRoundTrip | nall/arithmetic/natural.hpp:78-83 | The constructor after `to_vector` is the identity. |
| NaturalText.BytesRoundTrip | nall/arithmetic/natural.hpp:336-344 | `to_vector` after the constructor is the identity on vectors of PairBits / 8 bytes. |
| NaturalText.DecimalLength | nall/arithmetic/natural.hpp:319-319 | Three decimal digits a byte are enough, because 1000 exceeds 256. |
| NaturalText.PrintDigits | nall/arithmetic/natural.hpp:318-325 | The loop ends; its digits are all of the number's exactly when every division by ten on the way is right and no quotient but zero tests false. |
| NaturalText.Stringify | nall/arithmetic/natural.hpp:315-334 | The text is the decimal text of the value without leading zeros if and only if the number is printable in that sense; any other text stands for a smaller number, and every one fits the buffer of three characters a byte. |
| NaturalText.LowestPrintable | nall/arithmetic/natural.hpp:315-334 | Every Pair of native words is printable. |
| NaturalText.WordPrintable | nall/arithmetic/natural.hpp:315-334 | At every level values of a single native word are printable. |
| NaturalText.WordLost | nall/arithmetic/natural.hpp:318-325 | From level 2 on ten times 2 to the width of a native word is not printable. |
| NaturalText.PushDigit | nall/arithmetic/natural.hpp:112-120 | `(p << 4) + d` and `(p << 3) + (p << 1) + d` append a digit to the value read so far, modulo 2^PairBits. |
| NaturalText.Parse | nall/arithmetic/natural.hpp:104-125 | The literal operator reads hexadecimal after 0x and decimal otherwise, skips separators, ends at any other character, and gives the number so denoted modulo 2^PairBits. |
| NaturalText.LiteralOfDecimal | nall/arithmetic/natural.hpp:104-125 | The decimal text of a number denotes that number. |
| NaturalText.TextRoundTrip | nall/arithmetic/natural.hpp:104-125 | Reading the text of a number gives the number if and only if it is printable, at every level. |
| NaturalLiteral.LiteralOfHex | nall/arithmetic/natural.hpp:106-115 | Behind 0x or 0X, hexadecimal text from a table of sixteen digits, each in lower or upper case, denotes the number it was made from, for every number. |
| NaturalLiteral.LiteralOfCase | nall/arithmetic/natural.hpp:106-115 | So it does from 0123456789abcdef and from 0123456789ABCDEF. |
| NaturalLiteral.DecimalDigit | nall/arithmetic/natural.hpp:322-322 | The digits of decimal text are those of the same table. |
| NaturalLiteral.Separators | nall/arithmetic/natural.hpp:106-122 | Separators anywhere keep the number, except within the prefix, where the literal is a decimal one that ends behind its zero. |
| NaturalLiteral.Tail | nall/arithmetic/natural.hpp:106-122 | Any character that is neither a digit of the base nor a separator ends the number, whatever follows, except an x behind a single zero. |
| Barrett.Construct | nall/arithmetic/barrett.hpp:6-6 | The constructor raises the division's exception exactly for moduli that are multiples of 2 to the width of a native word, zero among them; otherwise the factor is 2^512 divided by the modulo, cut to 512 bits, and all values are then reduced right if and only if the modulo is at least 2. |
| Barrett.BigDivisible | nall/arithmetic/barrett.hpp:6-6 | The constructor's division is right for every modulo whose lowest native word is not zero, although it counts only that word's bits. |
| Barrett.FactorFits | nall/arithmetic/barrett.hpp:6-6 | From modulo 2 on the quotient of 2^512 fits the factor's width, so that nothing is cut off. |
| Barrett.EstimateBelow | nall/arithmetic/barrett.hpp:9-11 | The estimated quotient does not exceed the true one. |
| Barrett.EstimateAbove | nall/arithmetic/barrett.hpp:9-11 | The estimated quotient falls short of the true one by at most one: the value is below two multiples more. |
| Barrett.RestVal | nall/arithmetic/barrett.hpp:9-12 | What is left of the value after the estimated quotient is the remainder or the remainder plus the modulo, and is computed without loss. |
| Barrett.ReduceVal | nall/arithmetic/barrett.hpp:9-14 | For every modulo from 2 on and every value of twice the width, one conditional subtraction gives value mod modulo. |
| Barrett.ReduceByOne | nall/arithmetic/barrett.hpp:9-14 | With modulo 1 the factor is cut to zero and 2 is reduced to 1 instead of 0. |
| Barrett.ReduceExactly | nall/arithmetic/barrett.hpp:9-14 | With the factor prepared, the reduction is right for all values if and only if the modulo is at least 2. |
| Base57.SymbolOfLookup | nall/decode/base57.hpp:11-17 | The decoder's character ranges give back the index of each of the encoder's 57 symbols. |
| Base57.LookupOfSymbol | nall/encode/base57.hpp:8-8 | Every character the decoder accepts is in the encoder's table, at the index it decodes to. |
| Base57.TableIs | nall/encode/base57.hpp:8-8 | The symbols are exactly the digits and letters other than 0, 1, I, O and l, numbered in the order of their character codes. |
| Base57.Size | nall/encode/base57.hpp:9-9 | The number of symbols is the least with room for every value of the width. |
| Base57.Encode | nall/encode/base57.hpp:7-17 | The text of a native integer has that many symbols, all of them valid, and stands for the value. |
| Base57.Decode | nall/decode/base57.hpp:7-21 | A valid text gives its value modulo the width; one bad character makes the result zero. |
| Base57.ValueRoundTrip | nall/decode/base57.hpp:7-21 | Decoding an encoded native integer gives the value, at every width. |
| Base57.TextRoundTrip | nall/encode/base57.hpp:7-17 | Encoding a decoded text of full length gives the text if and only if the text stands for a value of the width. |
| Base57.EncodePair | nall/encode/base57.hpp:7-17 | The text of a Pair stands for its value if and only if each of its divisions by 57 is right; any other text stands for a smaller number. |
| Base57.PairRoundTrip | nall/encode/base57.hpp:7-17 | Decoding an encoded Pair gives its value if and only if each of those divisions is right. |
| Base57.LowEncodable | nall/encode/base57.hpp:12-15 | They are right for every Pair up to level 2. |
| Base57.WordNotEncodable | nall/encode/base57.hpp:12-15 | From level 3 on they are not for 2 to the width of a native word. |
| VarInt.ParseEncoded | nall/varint.hpp:13-23 | Wherever an encoded number stands, reading gives it back and stops right behind it. |
| VarInt.EncodeParsed | nall/varint.hpp:33-41 | Writing back a number that was read gives the very bytes that were read: no number has two codes. |
| VarInt.PrefixFree | nall/varint.hpp:33-41 | No code begins with another. |
| VarInt.EncodeMarked | nall/varint.hpp:33-41 | Exactly the last byte of a code has its highest bit set. |
| VarInt.EncodeWeighs | nall/varint.hpp:33-41 | The bytes of a code weigh seven bits each, the k-th 128^k times, and one more for each but the first, and together as much as the number. |
| VarInt.Read | nall/varint.hpp:13-23 | The loop with its wrapping accumulators, in a uint64_t or in a uintmax of 64 or 128 bits, computes the number modulo the type's range and the index behind it, and runs out of bytes exactly when no byte is marked as the last. |
| VarInt.Write | nall/varint.hpp:33-41 | The loop writes the number's code. |
| VarInt.NumberRoundTrip | nall/varint.hpp:13-41 | Amid any other bytes a number survives writing and reading if and only if the reader's type holds it: below 2^64, or below 2^128 where uintmax has 128 bits. |
| VarInt.WriteSigned | nall/varint.hpp:43-48 | A signed number of the type's width is written with its sign in the lowest bit and its magnitude, or its complement, above. |
| VarInt.ReadSigned | nall/varint.hpp:25-31 | The complement taken on the unsigned word, of either width, gives the signed number. |
| VarInt.SignedRoundTrip | nall/varint.hpp:25-48 | Every signed number of 64 bits survives, and every one of 128 bits where intmax has them. |
| VarInt.WordRoundTrip | nall/beat/patch.hpp:200-203 | Four little-endian bytes of a 32-bit word read back as the word. |
| Stream.Writer.Write | nall/beat/file.hpp:18-21 | A written byte is fed to the checksum whether or not the disk can keep it, and the file below is what writing all the bytes so far makes of it. |
| Stream.Writer.WriteNumber | nall/varint.hpp:33-41 | The encoding loop appends the number's code to the file and to its checksum. |
| Stream.Writer.Close | nall/file.hpp:279-284 | On the disk is what the buffered file keeps of the bytes written: all of them up to 2^31, none beyond. |
| Stream.Reader.Read | nall/beat/file.hpp:12-16 | Through the page buffer, reading gives the byte at the cursor, or 0xff past the end, and feeds it to the checksum either way. |
| Stream.Reader.ReadNumber | nall/varint.hpp:13-23 | Reading a number from the stream byte by byte, into wrapping accumulators of 64 or 128 bits, gives its value modulo that range, moves behind it and feeds its bytes. |
| Stream.Reader.Seek | nall/file.hpp:199-220 | Seeking takes a 32-bit signed position and clamps it to the file. |
| Stream.Reader.Skip | nall/file.hpp:199-220 | Seeking onward takes a 32-bit signed distance from the file's own cursor and clamps the sum to the file. |
| Crc32.Input | nall/hash/crc32.hpp:14-16 | Feeding a byte keeps the register a 32-bit word. |
| Crc32.Feed | nall/hash/crc32.hpp:14-16 | Feeding bytes into a running checksum gives the register of everything fed so far. |
| Crc32.Sum | nall/hash/crc32.hpp:18-26 | The checksum of a byte string is the complement of its register. |
| Crc32Remainder.GeneratorIs | nall/hash/crc32.hpp:38-38 | The table's constant is the generator with the exponents of RFC 2083, its highest power left out, the lowest bit standing for the highest of the others. |
| Crc32Remainder.InputIs | nall/hash/crc32.hpp:14-42 | The table does for a byte at once what eight single-bit steps do. |
| Crc32Remainder.DigestIsRemainder | nall/hash/crc32.hpp:10-42 | The checksum of every byte string is the complement of the remainder of its bits, the first 32 complemented and 32 zeros appended, by the generator, and of no other number. |
| Crc32Remainder.BurstNoticed | nall/hash/crc32.hpp:10-42 | Two strings that differ, and only within four consecutive bytes, never have the same checksum. |
| BpsPatch.WriteBytes | nall/beat/patch.hpp:151-154 | Writing a stretch of another buffer puts exactly those bytes at the output offset and feeds them to the target's checksum. |
| BpsPatch.CopyBytes | nall/beat/patch.hpp:193-193 | Copying within the target, byte by byte and overlapping, changes the buffer as the specification's copy does and feeds the bytes written. |
| BpsPatch.Decode | nall/beat/patch.hpp:139-149 | Reading a number gives its value modulo 2^64 and feeds the bytes read to the patch's checksum. |
| BpsPatch.ActCopy | nall/beat/patch.hpp:182-195 | SourceCopy and TargetCopy in place are the specification's copy, or stop before any byte outside a buffer. |
| BpsPatch.Act | nall/beat/patch.hpp:170-196 | One turn of the action loop in place is one step of the specification. |
| BpsPatch.DecodeHeader | nall/beat/patch.hpp:156-164 | The header's sizes are truncated to 32 bits and the markup is fed to the checksum. |
| BpsPatch.Finish | nall/beat/patch.hpp:199-211 | The footer's words are compared with the three checksums, in the code's order; the patch's own covers everything before its last word. |
| BpsPatch.Apply | nall/beat/patch.hpp:127-212 | The patcher, writing the target array in place, ends with exactly the result code and the buffer that the functional reading of the format gives. |
| BpsFormat.SourceReadAction | nall/beat/patch.hpp:175-177 | Mode 0 writes the source's bytes at the output's own place and nothing else. |
| BpsFormat.TargetReadAction | nall/beat/patch.hpp:178-180 | Mode 1 writes the patch's bytes behind the action's number and nothing else. |
| BpsFormat.SourceCopyAction | nall/beat/patch.hpp:181-190 | Mode 2 moves the source cursor by the signed offset, in 32 bits, writes the source's bytes from there and leaves the cursor behind them. |
| BpsFormat.TargetCopyAction | nall/beat/patch.hpp:182-194 | Mode 3 does so within the target: each byte is the one the cursor stands at when it is written, so that an overlapping copy repeats what it has written itself. |
| BpsFormat.OffsetDisplaces | nall/beat/patch.hpp:183-186 | An offset is a signed magnitude of 31 bits above a bit that turns its sign. |
| BpsFormat.Unreadable | nall/beat/patch.hpp:128-159 | A patch shorter than 19 bytes, or one that does not begin with BPS1, is refused with its own code and changes nothing; no other patch is refused with that code. |
| BpsFormat.TooSmall | nall/beat/patch.hpp:161-167 | The first number behind the signature, cut to 32 bits, is the least size of the source and the second that of the target's buffer: exactly what is shorter is refused with its own code, and nothing is changed. |
| BpsFormat.Verdicts | nall/beat/patch.hpp:199-211 | For every patch whose actions end twelve bytes before its end, the result is the first of the checksums of the source, of what was written, and of the patch before its last word that differs from its word, 12, 8 and 4 bytes before the end, and success if and only if all three agree. |
| BpsFormat.OnlyAtEnd | nall/beat/patch.hpp:169-211 | No other patch succeeds or is refused by a checksum. |
| BpsFormat.RunAlike | nall/beat/patch.hpp:169-197 | Which way the actions go does not depend on the bytes of the source or of the buffer. |
| BpsFormat.Shorter | nall/beat/patch.hpp:166-167 | An encoder's patch refuses exactly the sources that are shorter than the encoder's, and then the buffers that are shorter than the target. |
| BpsFormat.OtherSource | nall/beat/patch.hpp:205-207 | The patch of any covering decisions, on any source long enough, is refused as a wrong source if and only if the bytes patched have another checksum than the encoder's source, as long as every distance can be written. |
| BpsFormat.LinearOtherSource | nall/beat/patch.hpp:205-207 | So is what the linear encoder writes. |
| BpsFormat.DeltaOtherSource | nall/beat/patch.hpp:205-207 | So is what the delta encoder writes. |
| BpsFormat.ChangedSource | nall/beat/patch.hpp:205-207 | A source changed anywhere within four consecutive bytes is always refused as a wrong one. |
| BpsFormat.FooterChanged | nall/beat/patch.hpp:199-211 | A patch that succeeds, its last twelve bytes replaced, fails with the code of the first of the three words that is changed, and succeeds only unchanged. |
| BpsFormat.PatchElsewhere | nall/beat/patch.hpp:127-212 | Encoding and then patching another source in place: refused as too small exactly when it is shorter, and as a wrong source exactly when its beginning has another checksum. |
| BpsPlan.SignedWordRead | nall/beat/delta.hpp:184-192 | A relative offset written as sign and shifted magnitude moves the reader's cursor to where the encoder meant, for every distance but 2^30 backwards, where it moves the cursor forwards instead. |
| BpsPlan.UnsignedWordRead | nall/beat/linear.hpp:124-125 | The linear encoder's unsigned relative offsets move the reader's cursor to where the encoder meant. |
| BpsPlan.LengthWordRead | nall/beat/delta.hpp:116-117 | An action word gives back its mode and its length, up to 2^30. |
| BpsPlan.CommonIsSame | nall/beat/delta.hpp:129-135 | The measured length is a stretch on which both buffers agree. |
| BpsPlan.CommonIsLongest | nall/beat/delta.hpp:129-135 | No longer stretch agrees. |
| BpsPlan.CopyProgress | nall/beat/patch.hpp:193-193 | A self-overlapping target copy reproduces a stretch of the target that repeats an earlier one. |
| BpsPlan.FlushStep | nall/beat/delta.hpp:115-121 | The delayed literals, written as one TargetRead, are read back as those bytes of the target. |
| BpsPlan.MoveStep | nall/beat/delta.hpp:173-195 | Every other decision, read back at its place in the patch, extends the target by exactly its bytes and leaves the reader's cursors equal to the encoder's; a source copy 2^30 backwards stops the patcher instead. |
| BpsPlan.RunPlan | nall/beat/patch.hpp:169-197 | The bytes of any list of decisions that covers the target drive the patcher to the whole target if every distance can be written; if not, and the source given has at most 2^31 bytes, they stop it. |
| BpsPlan.HeaderRead | nall/beat/patch.hpp:156-164 | The header and its markup are read back with the sizes and the markup's length. |
| BpsPlan.FooterChecks | nall/beat/patch.hpp:199-211 | The footer an encoder writes passes all three checks. |
| BpsPlan.EmitLength | nall/beat/delta.hpp:113-198 | The bytes of a list of decisions whose matches are of four bytes or more are at most five for each byte of the target to come, one for each queued byte, and five more. |
| BpsPlan.PatchLength | nall/beat/delta.hpp:61-209 | So a patch has at most as many bytes as its markup, five for each byte of the target, and 36 more. |
| BpsPlan.PatchRecovers | nall/beat/delta.hpp:61-209 | Applying the bytes of any list of decisions that covers the target, as long as they are fewer than 2^32, to any source that begins with the encoder's and into any buffer that is large enough, succeeds with the target in front of what the buffer held behind it if no source copy goes back by 2^30; if one does, and the source given has at most 2^31 bytes, the patcher runs out of bounds. |
| BpsWriter.WriteQueue | nall/beat/delta.hpp:115-121 | Flushing appends the queued bytes as one TargetRead, or nothing when none is queued. |
| BpsWriter.WriteHeader | nall/beat/delta.hpp:86-96 | The header's bytes: signature, sizes, markup. |
| BpsWriter.WriteFooter | nall/beat/delta.hpp:201-205 | The footer's bytes; its last word is the checksum of everything before it. |
| BpsLinear.RepeatsSame | nall/beat/linear.hpp:107-111 | The measured run repeats the byte at the output offset. |
| BpsLinear.RepeatsMaximal | nall/beat/linear.hpp:107-111 | The run ends at the target's end or at a different byte. |
| BpsLinear.PlanTakes | nall/beat/linear.hpp:101-132 | Where four bytes repeat the one before them, that byte and the longest run behind it are taken; else where four bytes are unchanged, the longest unchanged stretch; else one literal. |
| BpsLinear.PlanCovers | nall/beat/linear.hpp:100-133 | Every decision of the linear encoder reproduces the target, without gap or overlap, to its end. |
| BpsLinear.PlanForward | nall/beat/linear.hpp:113-127 | The encoder's relative offset into the target is always behind the byte it repeats: no relative offset is negative. |
| BpsLinear.Measure | nall/beat/linear.hpp:101-111 | The two loops compute the length that agrees with the source and the length of the run. |
| BpsLinear.Create | nall/beat/linear.hpp:53-146 | The encoder writes exactly the header, the actions of its decisions with literals batched, and the footer; the file keeps them all if and only if they are at most 2^31 bytes. |
| BpsLinear.Recovers | nall/beat/linear.hpp:53-146 | Applying what the linear encoder writes gives the target, for all sources and targets up to 2^30 bytes, any markup with which the patch stays below 2^32 bytes, and any longer source with the same beginning. |
| BpsLinear.PatchFits | nall/beat/linear.hpp:53-146 | The patch is no longer than a bound told from the lengths of the target and the markup before anything is encoded. |
| BpsLinear.RecoversBySize | nall/beat/linear.hpp:53-146 | Where that bound is below 2^32, applying what the linear encoder writes gives the target. |
| BpsLinear.RoundTrip | nall/beat/linear.hpp:53-146 | Encoding into a file and then patching in place succeeds and leaves the target in the buffer, for every patch of at most 2^31 bytes. |
| BpsLinear.RoundTripBySize | nall/beat/linear.hpp:53-146 | So it does wherever the lengths of the target and the markup promise a patch of at most 2^31 bytes. |
| BpsDelta.PickGenuine | nall/beat/delta.hpp:127-160 | The best candidate names a place where a match of exactly its length begins. |
| BpsDelta.PickMaximal | nall/beat/delta.hpp:127-160 | No candidate is longer than the best: not the unchanged position, no source offset, no earlier start in the target. |
| BpsDelta.PickFirst | nall/beat/delta.hpp:128-160 | Of several longest candidates the first is taken, the unchanged position before the source's offsets and those before the target's, each in the order of its list. |
| BpsDelta.DecideLongest | nall/beat/delta.hpp:124-171 | A match is taken when there is one of four bytes or more, it is the longest over all candidates, and otherwise one literal is queued. |
| BpsDelta.SymbolsApart | nall/beat/delta.hpp:126-127 | Two places with different two-byte symbols agree on one byte at most. |
| BpsDelta.BucketSuffices | nall/beat/delta.hpp:137-160 | Scanning only the bucket of the symbol loses no match of two bytes or more, whatever else the full scan would have passed. |
| BpsDelta.IndexedPick | nall/beat/delta.hpp:98-171 | The search through the 65536 buckets decides exactly as the search over all offsets. |
| BpsDelta.PlanCovers | nall/beat/delta.hpp:123-198 | Every decision of the delta encoder reproduces the target, without gap or overlap, to its end. |
| BpsDelta.Index | nall/beat/delta.hpp:102-111 | Bucket s holds exactly the source offsets with symbol s, the highest first. |
| BpsDelta.MatchSource | nall/beat/delta.hpp:139-144 | The loop measures the longest agreement with the source. |
| BpsDelta.MatchTarget | nall/beat/delta.hpp:149-154 | The loop without a bound on the earlier position measures the longest agreement and stays inside the target. |
| BpsDelta.Search | nall/beat/delta.hpp:128-156 | The search of a step finds the first of the longest candidates in the code's order. |
| BpsDelta.Create | nall/beat/delta.hpp:61-209 | The encoder, with its buckets and cursors updated in place, writes exactly the header, the actions of the brute-force decisions with literals batched, and the footer; the file keeps them all if and only if they are at most 2^31 bytes. |
| BpsDelta.ShortSourceRepresentable | nall/beat/delta.hpp:184-192 | A source shorter than 2^30 bytes has no distance that cannot be written. |
| BpsDelta.Recovers | nall/beat/delta.hpp:61-209 | For sources and targets up to 2^30 bytes and patches below 2^32, applying what the delta encoder writes gives the target if no source copy goes back by exactly 2^30, which sources shorter than that never do; if one does, and the source given has at most 2^31 bytes, the patcher runs out of bounds. |
| BpsDelta.PatchFits | nall/beat/delta.hpp:61-209 | The patch is no longer than a bound told from the lengths of the target and the markup before anything is encoded. |
| BpsDelta.RecoversBySize | nall/beat/delta.hpp:61-209 | Where that bound is below 2^32 and the source shorter than 2^30 bytes, applying what the delta encoder writes gives the target. |
| BpsDelta.RoundTrip | nall/beat/delta.hpp:61-209 | Encoding into a file and then patching in place, for every patch of at most 2^31 bytes: it succeeds and leaves the target in the buffer if and only if no source copy goes back by 2^30, and so for every source shorter than that. |
| BpsDelta.RoundTripBySize | nall/beat/delta.hpp:61-209 | Wherever the lengths of the target and the markup promise a patch of at most 2^31 bytes and the source is shorter than 2^30, it succeeds. |
| BpsDelta.TooFar | nall/beat/delta.hpp:192-192 | A concrete source of 2^30 bytes and a target of eight for which the patcher cannot follow the encoder's patch, with any markup below 2^31 bytes. |
| BpsMetadata.StepLocal | nall/beat/patch.hpp:170-196 | An action does the same wherever its bytes stand. |
| BpsMetadata.RunLocal | nall/beat/patch.hpp:169-197 | Two patches with the same action bytes run alike when the run ends at the footer. |
| BpsMetadata.ReplacedHeader | nall/beat/metadata.hpp:96-103 | The rewritten patch announces the same sizes, carries the new markup, and has the old actions and checksums behind it. |
| BpsMetadata.ReplacedApplies | nall/beat/metadata.hpp:54-111 | Replacing the markup of a well-formed patch keeps the resulting buffer and the result code, except that a wrong patch checksum becomes right. |
| BpsMetadata.Load | nall/beat/metadata.hpp:20-52 | Loading, from a file of at most 2^31 bytes, succeeds exactly on the signature and gives the markup up to its first zero byte. |
| BpsMetadata.CopySizes | nall/beat/metadata.hpp:96-99 | The signature and both sizes are copied as numbers, and the cursor is left behind the old markup's length. |
| BpsMetadata.CopyRest | nall/beat/metadata.hpp:104-105 | Everything from the cursor to the last four bytes is copied. |
| BpsMetadata.Save | nall/beat/metadata.hpp:54-111 | On a well-formed patch of at most 2^31 bytes, what saving leaves on the disk is the patch with its markup replaced if and only if that is no longer than 2^31 bytes; beyond, it is what the file keeps of it. |
| BpsMetadata.SaveLoad | nall/beat/metadata.hpp:20-111 | Markup without zero bytes that is saved into a patch is the markup loaded from it, both patches at most 2^31 bytes. |
| PagedFile.PageMask | nall/file.hpp:299-299 | Masking an offset with the page size less one is taking it modulo the page size. |
| PagedFile.CleanBehind | nall/file.hpp:319-329 | Flushing a page that shows what the disk has changes nothing. |
| PagedFile.PutBehind | nall/file.hpp:158-165 | Changing a byte of the buffered page changes that byte of what a flush would leave on the disk, appending when it is at the end. |
| PagedFile.File.Open | nall/file.hpp:254-277 | Opening succeeds exactly on a closed file whose path exists or whose mode creates it, and starts at offset zero of the existing or an empty content, its size cut to 32 bits; reading and modifying keep the content, the other two modes discard it. |
| PagedFile.File.FlushBuffer | nall/file.hpp:319-329 | Flushing makes the disk equal to what the file keeps and changes nothing else; a page at 2^31 or beyond, whose signed offset is negative, is taken for an unused one. |
| PagedFile.File.SyncBuffer | nall/file.hpp:308-317 | Afterwards the buffer is for the page under the cursor, at its signed 32-bit offset, stale bytes never showing, and nothing a reader or the disk sees has changed. |
| PagedFile.File.Read | nall/file.hpp:122-128 | For every offset the cursor moves as the code's 32-bit one, and below 2^31 the byte read is the file's, 0xff when closed, write-only or at the end. |
| PagedFile.File.Write | nall/file.hpp:158-165 | For every offset: a byte below 2^31 changes or extends what the disk will hold, one beyond never reaches it, size and offset follow in 32 bits, and nothing happens when closed or read-only. |
| PagedFile.File.Seek | nall/file.hpp:199-220 | Seeking clamps at the start, clamps at the end when reading, and pads with zeros when writing, through the buffer and across 2^31; only padding to 2^32, which would never end, is excluded. |
| PagedFile.File.Flush | nall/file.hpp:194-197 | After a flush the disk holds what the file keeps. |
| PagedFile.File.Close | nall/file.hpp:279-284 | After closing the disk holds what the file kept. |
| PagedFile.File.AtEnd | nall/file.hpp:241-244 | The end is reported exactly when the cursor is not before it. |
| PagedFile.Perform | nall/file.hpp:122-220 | Any one operation answers and changes the file as the byte-level reference with 32-bit size and offset. |
| PagedFile.RunAgrees | nall/file.hpp:122-220 | Over every run that stays below 2^31 the reference is a plain array of bytes with a cursor, and every padding ends. |
| PagedFile.RunBeyond | nall/file.hpp:319-323 | No run of any kind changes or adds a byte from 2^31 on. |
| PagedFile.RunKeeps | nall/file.hpp:199-220 | No run moves the cursor past the end, shrinks the file, or changes one open for reading. |
| PagedFile.ReachBySize | nall/file.hpp:158-220 | From at most 2^31 bytes on, a run stays below 2^31 exactly when the plain array grows no longer than that. |
| PagedFile.DiskExact | nall/file.hpp:122-329 | For every run on a file of at most 2^31 bytes, what is left on the disk is the plain array if and only if the run stays below 2^31. |
| PagedFile.OutOfReach | nall/file.hpp:319-323 | A failing run: of two bytes written across 2^31 the second one is lost. |
| PagedFile.Session | nall/file.hpp:122-284 | Over every run of reads, writes, seeks and flushes between opening and closing, the file answers as a plain byte array with a cursor as long as the run stays below 2^31, and the disk ends up holding that array if and only if it does. |
| PagedFile.ReadsBack | nall/file.hpp:122-165 | A byte written and sought back to is the byte read. |
| PagedFile.GapReadsBack | nall/file.hpp:122-220 | What a seek beyond the end skips reads as zeros in a file that is written, and as 0xff from one that is only read. |
| PagedFile.KeptWhole | nall/file.hpp:158-165 | A file written from front to back is on the disk as written if and only if it has at most 2^31 bytes; the disk never has more. |
| Archive.Scan | nall/beat/archive.hpp:124-129 | The recursive scan appends every entry below the directory, each folder before what it holds. |
| Archive.DigestNothing | nall/beat/archive.hpp:46-49 | An unreadable file is written as an empty one, whose checksum is the zero written. |
| Archive.WriteFile | nall/beat/archive.hpp:40-45 | A file of at most 2^31 bytes is copied into the archive byte by byte: size, data, and the checksum its own stream has seen. |
| Archive.WriteEntry | nall/beat/archive.hpp:30-49 | An entry's bytes: flags and name length in one number, the name without its slash, and a file's size, data and checksum. |
| Archive.Create | nall/beat/archive.hpp:16-54 | Creation refuses exactly reversed arguments and otherwise writes the signature, the metadata, every entry of the scan, and the checksum of everything before; the disk keeps the whole archive if and only if that has at most 2^31 bytes. |
| ArchiveFormat.EntryLayout | nall/beat/archive.hpp:30-45 | Every entry of an archive begins with a number whose bits 0, 1 and 2 are the folder, writable and executable flags and whose others are the name's length less one; then come the name, and for a file its length, its data and their checksum. |
| ArchiveFormat.CreateLayout | nall/beat/archive.hpp:16-54 | So does every entry in what `create` leaves on the disk, for every archive of at most 2^31 bytes. |
| ArchiveFormat.BlockedExactly | nall/beat/archive.hpp:70-70 | A name is refused if and only if it has a backslash somewhere, or two dots before a slash. |
| ArchiveFormat.DottedFolder | nall/beat/archive.hpp:70-70 | So a folder whose name ends in two dots can be archived, but not unpacked once it holds anything. |
| ArchiveFormat.FolderMade | nall/directory.hpp:183-193 | Making a folder keeps everything that is there, adds nothing but the missing folders on the way, and succeeds wherever no file is in the way. |
| ArchiveFormat.UnpackedHoused | nall/beat/archive.hpp:66-87 | Whatever bytes an archive has, unpacking it never leaves a file without its folder, nor puts a file in place of one. |
| ArchiveFormat.DamagedFile | nall/beat/archive.hpp:85-85 | An archive in which some file's word is not the checksum of its data is refused, whatever follows, and extracting that file gives nothing. |
| ArchiveFormat.Undamaged | nall/beat/archive.hpp:36-45 | Archives that `create` makes are those with each file's own data and checksum in that place. |
| ArchiveFormat.ChangedFile | nall/beat/archive.hpp:85-117 | So one with a file changed anywhere within four consecutive bytes is refused, and extracting the file gives nothing. |
| ArchiveFormat.DamagedEnd | nall/beat/archive.hpp:89-90 | An archive with another word at its end is refused. |
| ArchiveFormat.Accepted | nall/beat/archive.hpp:66-90 | Of every archive that is accepted, each file that is met has the checksum of its data behind it, and behind the entries stands the checksum of everything before. |
| ArchiveFormat.AcceptedWhole | nall/beat/archive.hpp:56-91 | When the entries, or the markup where there are none, end at the last word, that is the checksum of everything before it. |
| ArchiveFormat.ChangedArchive | nall/beat/archive.hpp:89-90 | Then a change within four consecutive bytes that leaves the entries ending there is always refused. |
| ArchiveFormat.OverrunAccepted | nall/beat/archive.hpp:66-90 | When they run over it, an archive can be accepted that does not end in its checksum: a concrete one of nine bytes, whose markup does. |
| ArchiveFormat.ExtractedSound | nall/beat/archive.hpp:93-122 | Whatever bytes an archive has, what a search gives is the data of a file of that name whose checksum stands behind them. |
| ArchiveUnpack.UnpackFile | nall/beat/archive.hpp:78-86 | A file is written byte by byte as it is read; what its checksum has seen decides, and the disk holds what the file keeps of it. |
| ArchiveUnpack.UnpackEntry | nall/beat/archive.hpp:68-87 | One turn of the loop restores one entry or refuses it, with the stream's checksum following. |
| ArchiveUnpack.Unpack | nall/beat/archive.hpp:56-91 | Unpacking any archive of at most 2^31 bytes into an empty directory ends, refuses reversed arguments, and otherwise restores entry by entry until one is refused, telling at the end whether the checksum holds. |
| ArchiveUnpack.Extract | nall/beat/archive.hpp:93-122 | Extraction from any archive of at most 2^31 bytes finds the first file of the name, skipping others by seeking, or reports that a seek went back. |
| ArchiveTrip.EntryRead | nall/beat/archive.hpp:68-87 | The bytes of an entry are read back as that entry, and as many bytes. |
| ArchiveTrip.Fits | nall/beat/archive.hpp:36-45 | An archive of at most 2^31 bytes holds only files of which every byte can be read and written. |
| ArchiveTrip.UnpackPacked | nall/beat/archive.hpp:56-91 | Unpacking an archive is restoring its entries one after the other, its checksum right. |
| ArchiveTrip.RestoredTree | nall/beat/archive.hpp:66-87 | Restoring the entries of a directory makes exactly its files and folders, each where its folder already is. |
| ArchiveTrip.BlockedStops | nall/beat/archive.hpp:70-70 | A single path with a backslash or a parent reference makes the unpacking fail. |
| ArchiveTrip.UnpackRestores | nall/beat/archive.hpp:16-91 | For every directory tree whose archive has at most 2^31 bytes, unpacking what was created from it succeeds if and only if no path looks dangerous, and then rebuilds every path and every file's bytes on the disk, and nothing else. |
| ArchiveTrip.RoundTrip | nall/beat/archive.hpp:16-91 | The same for the two operations run one after the other, through files. |
| ArchiveTrip.ScanOrdered | nall/beat/archive.hpp:124-129 | In the scan's order every entry's folder is the root or came before it. |
| ArchiveTrip.LookupTree | nall/beat/archive.hpp:124-129 | Looking a path up in the scan is looking it up in the directory tree. |
| ArchiveTrip.ExtractFinds | nall/beat/archive.hpp:93-122 | Extracting a path from an archive of at most 2^31 bytes gives the bytes of the file of that path, and nothing for a folder or any other path. |
| Sort.SortedElements | nall/sort.hpp:22-68 | The specified order has every element as often as the input. |
| Sort.SortedAscending | nall/sort.hpp:22-68 | Under any strict weak order no element of it stands before one it is greater than. |
| Sort.SortedStable | nall/sort.hpp:12-12 | Elements that compare equal stand in it as they stood in the input. |
| Sort.PutAt | nall/sort.hpp:28-35 | Insertion from the right ends up at the place the specification puts an element. |
| Sort.MergePut | nall/sort.hpp:53-64 | Putting an element into the right half before merging is putting it in after merging. |
| Sort.MergeSorted | nall/sort.hpp:48-64 | Merging two sorted halves is sorting the whole, stably. |
| Sort.InsertLast | nall/sort.hpp:29-34 | One round of the insertion sort puts one element into place and moves no other array cell. |
| Sort.InsertionSort | nall/sort.hpp:28-35 | Below 64 elements the stretch of the array ends up in the specified order, the rest untouched. |
| Sort.MergeInto | nall/sort.hpp:53-64 | The three loops of the merge fill the buffer with the merge of both halves. |
| Sort.Sort | nall/sort.hpp:22-68 | At every size the stretch of the array ends up in the specified order, the rest untouched. |
| Sort.SortList | nall/sort.hpp:22-68 | Sorting a list in place leaves it ascending, with the same elements, equivalent ones in their old order. |
| BitRound.ClearLowest | nall/bit.hpp:50-53 | Clearing the lowest set bit gives zero exactly for a power of two and otherwise keeps the highest bit. |
| BitRound.Round | nall/bit.hpp:78-82 | The result is a power of two, at least the argument and less than twice it; zero stays zero, and above half of the word's range the last shift leaves zero. |
| HashSet.HomeInside | nall/hashset.hpp:102-102 | Masking a hash with a power-of-two length less one is taking it modulo the length. |
| HashSet.EmptySlot | nall/hashset.hpp:88-91 | A table with fewer elements than slots has an empty slot, so that probing ends. |
| HashSet.Probe | nall/hashset.hpp:104-104 | Probing with wraparound ends at the first empty slot, every slot on the way being full. |
| HashSet.Search | nall/hashset.hpp:88-91 | Searching with wraparound ends at an equal element or at an empty slot, having passed only others. |
| HashSet.NotFound | nall/hashset.hpp:88-93 | A search that ends at an empty slot has passed every place where an equal element could be. |
| HashSet.Place | nall/hashset.hpp:102-105 | Placing an element adds it and keeps every element reachable from its home without an empty slot between. |
| HashSet.Rehash | nall/hashset.hpp:68-77 | Moving all elements into another table keeps them all, each reachable in the new table. |
| HashSet.Slots | nall/hashset.hpp:19-19 | A length is rounded up to a power of two; what the 32-bit field keeps of it is nothing above 2^31. |
| HashSet.HashSet.constructor | nall/hashset.hpp:18-19 | A new set is empty; its length is rounded up to a power of two and has slots exactly for wanted lengths from 1 to 2^31. |
| HashSet.HashSet.Reserve | nall/hashset.hpp:63-82 | Reserving keeps the elements in a table with room for twice as many, each reachable, exactly when there are none or neither the size exceeds 2^31 nor their number 2^30; otherwise it writes outside. The table has slots exactly when there are elements or the size is from 1 to 2^31. |
| HashSet.HashSet.Insert | nall/hashset.hpp:96-108 | Inserting adds one element, growing first at half load, and keeps every element reachable and a slot empty; it stays inside the table exactly when that has slots and holds at most 2^30 elements. |
| HashSet.HashSet.Find | nall/hashset.hpp:84-94 | A search succeeds exactly when an equal element is in the set, and returns one; it reads outside the table exactly when one without slots has been allocated. |
| HashSet.Run | nall/hashset.hpp:63-108 | Every run of insertions, reservations and searches, from any initial length of 32 bits, answers as a multiset of the inserted elements would, if and only if nothing is put into a table without slots or looked up in an allocated one, no more than 2^31 slots are reserved for elements, and nothing is put in or reserved once there are more than 2^30 elements; otherwise it leaves the table at the first such access. |
| HashSet.EmptiedFails | nall/hashset.hpp:63-94 | Reserving nothing while empty and then searching is such a run, from every initial length. |
| HashSet.EmptiedMended | nall/hashset.hpp:63-108 | Reserving eight in between mends it. |
| HashSet.OvergrownFails | nall/hashset.hpp:63-94 | Reserving more than 2^31 slots is such a run too: while empty, once something is searched for, and with an element in the table at once. |
| Cartridge.ScoreOpcode | icarus/heuristics/super-famicom.cpp:797-835 | The four opcode lists do not overlap: the score is the weight of the one list the opcode is in. |
| Cartridge.ScoreHeader | icarus/heuristics/super-famicom.cpp:777-856 | The score is zero when the image ends before the header or the reset vector is below 0x8000, and otherwise the sum of the weights, not below zero; every read is within the image. |
| Cartridge.FindHeader | icarus/heuristics/super-famicom.cpp:762-775 | Of the three places the one with the best score is returned, and the image always reaches 64 bytes beyond it. |
| Cartridge.LocateHeader | icarus/heuristics/super-famicom.cpp:762-775 | The same, computed from the three scores. |
| CartridgeBoard.HeaderChosen | icarus/heuristics/super-famicom.cpp:762-775 | ExHiROM is taken exactly when its score is not zero and, four points added, above both others; HiROM when it is above LoROM and no less than that; else LoROM. |
| CartridgeBoard.ScoreHighest | icarus/heuristics/super-famicom.cpp:777-856 | No place scores more than twenty points, and exactly those do in which the opcode, the checksums, the mapper and all five fields are as they should be. |
| Cartridge.OneChip | icarus/heuristics/super-famicom.cpp:684-759 | No header announces two of the coprocessors whose program is stored in the image, nor one of them beside an SPC7110. |
| CartridgeBoard.FeaturesAnnounced | icarus/heuristics/super-famicom.cpp:678-759 | The tests, one for each flag, find exactly what a table by mapper and ROM type announces. |
| Cartridge.DetectFeatures | icarus/heuristics/super-famicom.cpp:678-759 | The sequence of tests finds exactly the announced features. |
| Cartridge.SuperFamicomCartridge.ReadHeader | icarus/heuristics/super-famicom.cpp:559-760 | The fields end up as the board the image is classified to. |
| CartridgeImport.ClassifiedConsistent | icarus/heuristics/super-famicom.cpp:559-760 | Every board an image is classified to has at most one coprocessor with a stored program. |
| CartridgeImport.DetectFirmware | icarus/heuristics/super-famicom.cpp:106-190 | The sequence of size tests gives the size of the one coprocessor's program, or none. |
| CartridgeImport.ListPieces | icarus/heuristics/super-famicom.cpp:192-555 | The alternatives and the flags list the files of the board, in document order. |
| CartridgeImport.Recognise | icarus/heuristics/super-famicom.cpp:89-556 | An image, its copier's header taken off, gets the manifest of its board, or none when it is too small or of no supported kind. |
| CartridgeBoard.LayoutFits | icarus/heuristics/super-famicom.cpp:606-700 | A manifest's layout is the one that the header's place, the mapper, the image's size and marks, the connector and the SuperFX or SA-1 ask for. |
| CartridgeBoard.RegionFits | icarus/heuristics/super-famicom.cpp:573-585 | Over all 256 destination codes a manifest says PAL exactly for 2 to 12, the highest bit aside, unless the board was sold in Japan only. |
| CartridgeBoard.SizesFit | icarus/heuristics/super-famicom.cpp:579-686 | A manifest's ROM size is the image's, and its save memory has the size of the header's code, none for codes of zero or without a ROM size, or that of the extended header's for a SuperFX. |
| CartridgeBoard.ChipsFit | icarus/heuristics/super-famicom.cpp:678-759 | Its chips are those the header announces, and a DSP-1 is placed by mapper and image size. |
| CartridgeImport.Import | icarus/core/super-famicom.cpp:47-77 | The import succeeds exactly when there is a manifest and no file is larger than what is left of the image, and then writes consecutive stretches of it. |
| CartridgeBoard.ChipFiles | icarus/heuristics/super-famicom.cpp:468-548 | Of a board with a stored-program chip the files are exactly these: in files of the chip's name its program and data, the last bytes of the image, as many as the memories of its processor hold, and before them the game's program. |
| CartridgeBoard.BootFiles | icarus/heuristics/super-famicom.cpp:225-245 | Of a Super Game Boy: the program, and the last 256 bytes in the boot file of its model. |
| CartridgeBoard.Spc7110Files | icarus/heuristics/super-famicom.cpp:261-273 | Of an SPC7110 board: one megabyte of program, and the data behind it. |
| CartridgeBoard.ContestFiles | icarus/heuristics/super-famicom.cpp:403-442 | Of a competition cartridge: the program, its three games, and the DSP-1's program and data. |
| CartridgeBoard.PlainFiles | icarus/heuristics/super-famicom.cpp:192-401 | Of any other board: the program. |
| CartridgeBoard.CopierHeader | icarus/heuristics/super-famicom.cpp:91-91 | A copier's header before an image of whole banks changes neither the files nor the manifest. |
| CartridgeImport.Collect | icarus/core/super-famicom.cpp:1-11 | The files that are there are appended in the fixed order of kinds and names. |
| CartridgeImport.PiecesAddUp | icarus/heuristics/super-famicom.cpp:192-555 | The files of any board stand in the collecting order and are together at least as large as the image. |
| CartridgeImport.SplitHolds | icarus/core/super-famicom.cpp:65-74 | A split that misses nothing writes every listed file with its stretch of the image, and no other file. |
| CartridgeImport.SplitFits | icarus/core/super-famicom.cpp:59-77 | A split misses no file exactly when the pieces together are no larger than the image. |
| CartridgeImport.JoinedHolds | icarus/core/super-famicom.cpp:1-11 | Collecting files that hold stretches in order gives the stretch they came from. |
| CartridgeImport.ImportCollects | icarus/core/super-famicom.cpp:1-77 | Whenever an import succeeds, the collected files are the image without its copier's header, and make the same manifest, the MSU1 file looked for among them. |
| CartridgeImport.ManifestExists | icarus/heuristics/super-famicom.cpp:89-108 | There is a manifest exactly for images of 32 KB and more without a Game Boy logo that are neither flash nor Sufami Turbo cartridges. |
| CartridgeImport.TotalExact | icarus/heuristics/super-famicom.cpp:106-555 | The pieces of a board add up to the image's size exactly when the size shows the coprocessor's program, has the Super Game Boy's 0x100 bytes over, reaches 1 MB for an SPC7110, or is the one size of a contest board with its DSP-1. |
| CartridgeImport.ImportSucceeds | icarus/core/super-famicom.cpp:47-77 | An import succeeds if and only if the image is such a cartridge and complete in that sense. |
| CartridgeImport.RoundTrip | icarus/core/super-famicom.cpp:1-77 | Recognising, importing, collecting and recognising again: the import succeeds if and only if the image is a complete Super Famicom cartridge, and then the image and the manifest are the same again. |

## Left out

- RedBlackSet.Set.Insert: the node count is an unbounded natural, not a 32-bit one; keys are integers standing for any linearly ordered key, and an entry's payload for everything the order does not see.
- Copying, moving and resetting of `set` (nall/set.hpp:37-58, 146-160): they would add only easy members.
- `bimap` (nall/map.hpp:38-60): its `remove` reads a field that the result of `find` does not have.
- Natural.ShiftVal: counts of PairBits and more, and rotation by them, are not modelled: the code shifts a machine word by its own width there. Conversions to other integer types are the widening and truncation of values.
- `Modulo25519` and the elliptic curve code (nall/elliptic-curve): they only use what is proved here.
- NaturalTruth.BitsSeen: bit counts are unbounded; the widest Pair, of 8192 bits, counts far below 2^32.
- NaturalDiv.Divide: what happens where the bits counted of the dividend are fewer than the divisor's, so that words are shifted by more than their width, is the outcome `Undefined`; a loop that cannot end is the outcome `Endless`.
- Base57.EncodePair: a remainder of 57 or more, which a wrong division can leave, indexes outside the table; the text is then no text.
- Base57.Encode: the number of symbols is the least sufficient one by definition; the code computes it with a floating-point logarithm.
- VarInt.Write: numbers are unbounded; the code's are below 2^64 in the patch encoders and below the range of `uintmax` elsewhere, on which nothing wraps.
- BpsPatch.Apply: reading the patch, source and target from mapped files is not modelled; buffers are byte sequences and an array.
- BpsPlan.PatchRecovers: states sizes up to 2^30, because an action word holds a length of at most 2^30 in 32 bits; beyond that the encoders write patches that lose lengths.
- BpsDelta.Create: the nodes of the buckets never change once linked, so a bucket is an immutable list; that they are never freed is not modelled. The source's checksum is computed at the end, not while the index is built.
- BpsMetadata.Load: says nothing of files above 2^31 bytes, because from there on nothing is known of the bytes a file reads.
- BpsMetadata.Save: says nothing of files that are not patches with a header and a footer, nor of a patch above 2^31 bytes, for the same reason.
- BpsLinear.Create: says what the disk holds of a patch above 2^31 bytes (`PagedFile.Kept`), and `BpsLinear.RoundTrip` and `BpsDelta.RoundTrip` do not say what applying it does: its checksum is wrong unless by chance.
- Failing opens, permissions and full disks (nall/file.hpp:254-277): opening fails only when the path does not exist or the file is already open.
- PagedFile.File.Read: from 2^31 on, where `fseek` fails, nothing is stated of the byte read: the position at which a failed seek leaves the stream is not modelled, and the buffer is filled with unknown bytes. The `buffer` holds bytes, not signed characters.
- PagedFile.PageLength: at the page 0x7ffff000 the code adds the page size to the page's offset in a signed int (nall/file.hpp:314, 325), which overflows; the sum is read as wrapping in 32 bits.
- PagedFile.File.Seek: padding a file to 2^32 bytes is excluded, because the 32-bit size never gets there and the loop does not end.
- `file::truncate(uint)` (nall/file.hpp:232-239): it changes the disk without updating the size; and the static copying, moving and whole-file functions.
- Archive.Create: what a directory holds is a value in the order the system lists it; permissions are flags of an entry, and unpacking ignores them as the code does. Archived files have at most 2^31 bytes, because nothing is known of the bytes read beyond.
- ArchiveUnpack.Unpack: archives have at most 2^31 bytes, for the same reason; unpacks into an empty directory; paths are compared as written but for slashes at the end, so that `.`, `..`, and repeated or leading slashes, which no directory listing contains, are not resolved.
- Stream.Reader.constructor: files above 2^31 bytes are not read, for the same reason.
- ArchiveUnpack.Extract: archives have at most 2^31 bytes, for the same reason; reports a seek that does not move forward instead of following it; archives of at most 2^31 bytes made by `create` have none.
- ArchiveTrip.RoundTrip: says nothing of trees whose archive is larger than 2^31 bytes: the disk keeps only the beginning of it, and whether `unpack` notices depends on a checksum that can hold by chance.
- Sort.Sort: moving elements out of the array and back is modelled as copying.
- HashSet.Run: `hashset::remove` (nall/hashset.hpp:110-125) is left out, because it empties a slot without moving what was placed beyond it, after which elements are not found; so is copying (nall/hashset.hpp:23-31), which walks as many slots as there are elements.
- Cartridge.FindHeader: is a function, as the source's is a single chain of comparisons.
- CartridgeImport.Import: file names are constructors, one for each name the manifests use, so that the glob patterns are tests of the constructor and the sorted listing is the order of their ranks; the manifest is its list of ROM files, the rest of its text being a function of the board. The database of known images, the save file, the SHA-256 digest, and failures to create the folder are left out; the folder is empty before.
- The other cartridge heuristics, daedalus, and everything that draws windows.
