# ipdb core in Dafny

ipdb builds a database of IP address ranges tagged with country codes.
It reads registry statistics files and keeps the ranges in AVL trees:
one for IPv4, one for IPv6, and a hashed table of country-code trees.
It then writes the ranges as sorted flat record files, which are searched
by bisection. This project models that core in Dafny, together with the
helpers it relies on:

- the portable 128-bit integer (two 64-bit limbs): comparisons, shifts,
  increment and decrement, add, subtract, multiply, and Knuth's
  Algorithm D division (The Art of Computer Programming, Vol. 2,
  section 4.3.1);
- the byte and text codecs: hex, URI percent-encoding (RFC 3986 sections
  2.1 and 2.3), Base64 quads (RFC 4648 section 4), UTF-8 (RFC 3629
  section 3), `int2hex`, ASCII case mapping, scanners, `strmlcpy`,
  `skip`/`bskip`/`trim`, `jump` and byte swaps.

Every value is an immutable datatype and every operation is a pure
function or a method over sequences. Machine words are `nat`s with their
range stated, and wrap-around is written out as `% 2^n`. A 128-bit value
is `U128(hi, lo)`, and `UInt128.Val` gives the number it stands for.

Modules, one per concern of the source:

| module | file | models |
|---|---|---|
| `Arith` | arith.dfy | powers of two and the bitwise `&`, `\|`, `<<`, `>>` on naturals |
| `Opt` | option.dfy | `Option`, standing for a nullable pointer |
| `Avl` | avl.dfy | the AVL code that store.c repeats for IP4, IP6 and CC nodes |
| `Ranges` | ranges.dfy | the range stores: `find*Node`, `findNet*Node` |
| `Merge` | merge.dfy | the upsert loop of ipdb.c |
| `Flat` | flat.dfy | serialisation, `IP4Set`/`IP6Set` records, bisection |
| `CCTable` | cctable.dfy | `cci`, `createCCTable`, `findCC`, `storeCC`, `removeCC` |
| `PowerTables` | tables.dfy | `inteb4`, `inteb6`, `intlb6` and their tables |
| `UInt128`, `UInt128Arith`, `UInt128Div` | u128.dfy, u128arith.dfy, u128div.dfy | uint128t.h/.c |
| `Bytes` | bytes.dfy | little-endian words and `SwapInt16/32/64` |
| `Hex`, `Uri`, `Base64`, `Utf8`, `Text` | hex.dfy, uri.dfy, base64.dfy, utf8.dfy, text.dfy | utils.c and utils.h |

The code is modelled once wherever the source repeats it:

- store.c holds three textually identical AVL trees that differ only in
  key and payload. `Avl` is generic in the payload, and `Ranges` takes the
  address-space size `w` (2^32 or 2^128) as a parameter.
- binutils.h and binutils.c hold an earlier copy of the portable uint128
  code that is the same as uint128t.h and uint128t.c. The rows below cite
  uint128t.*; the binutils.* lines are binutils.h:551-673 and
  binutils.c:38-194.
- The IPv6 merge loop at ipdb.c:152-163 is the IPv4 loop at ipdb.c:119-130
  with 128-bit bounds. `Merge.Upsert` covers both through `w`.

## Model

| member | source | states |
|---|---|---|
| Avl.Balance | store.c:179-240 | keeps the in-order sequence, items and search order; restores the AVL invariant at a node whose balance is ±2; the flag is set exactly when the subtree got one lower (any double rotation, or a single rotation whose heavy child was unbalanced); other nodes come back unchanged |
| Avl.RotateRight | store.c:185-210 | the B == -2 case: same in-order sequence, balanced result, height drop exactly when the left child's balance was non-zero |
| Avl.RotateLeft | store.c:212-235 | the B == +2 case, mirror of RotateRight |
| Avl.SingleRightRebalances | store.c:202-209 | the single right rotation's new balance factors are the true height differences |
| Avl.DoubleRightRebalances | store.c:188-200 | the double rotation's new balance factors are the true height differences, and the subtree is one lower |
| Avl.PickPrev | store.c:243-275 | takes out the rightmost entry: the rest followed by that entry is the old in-order sequence, the rest is an AVL tree, and the flag says it got lower |
| Avl.PickNext | store.c:278-310 | takes out the leftmost entry, mirror of PickPrev |
| Avl.Insert | store.c:351-390 | with a fresh key and an allocated node, adds exactly that item; keeps search order and the AVL invariant; the flag says the tree grew by one level; a present key or a failed allocation leaves the tree unchanged with flag 0 |
| Avl.Remove | store.c:393-471 | removes exactly the item whose key equals `k` (no containment test), keeps search order and the AVL invariant, and the flag says the tree got lower; an absent key leaves the tree unchanged |
| Avl.RemovedRoot | store.c:407-455 | removing the root leaves the left subtree's entries followed by the right subtree's, in a balanced tree |
| Avl.ReplacedByPrev | store.c:422-436 | when B == -1 the root is replaced by its predecessor, with the same in-order result |
| Avl.ReplacedByNext | store.c:438-452 | otherwise the root is replaced by its successor, with the same in-order result |
| Avl.Lookup | store.c:969-984 | findCCNode returns only an entry with the searched key |
| Avl.LookupComplete | store.c:969-984 | on a search tree the lookup misses exactly when the key is absent |
| Avl.InOrderAscending | store.c:474-487 | the traversal order of a search tree is strictly ascending by key |
| Ranges.Find | store.c:313-328 | returns only a stored range that contains the address |
| Ranges.FindComplete | store.c:313-328 | on a search tree of disjoint ranges, Find returns nothing exactly when no stored range contains the address |
| Ranges.SubWrap | store.c:337 | `lo-ofs` in unsigned arithmetic: the value below `lo` modulo the address-space size |
| Ranges.AddWrap | store.c:337 | `hi+ofs` in unsigned arithmetic: the value above `hi` modulo the address-space size |
| Ranges.NetTestMeansMergeable | store.c:335-337 | the test of findNet4Node, with its wrap-around, holds exactly when the stored range overlaps [lo, hi] or, with an equal tag, touches it; the wrapped lo-1 and hi+1 never give a false match |
| Ranges.FindNet | store.c:331-348 | returns only a stored range that passes that test |
| Ranges.FindNetComplete | store.c:331-348 | on a well-formed store it returns nothing exactly when no stored range can be merged |
| Merge.Upsert | ipdb.c:119-130 | absorbs distinct stored ranges, each mergeable with the hull of what came before; afterwards the store holds the old ranges minus the absorbed ones plus the single hull, stays an AVL search tree of disjoint ranges, covers exactly the old addresses plus [lo, hi], and the counter changes by 1 minus the number absorbed |
| Merge.Hull | ipdb.c:121-125 | the widened bounds lie outside [lo, hi] and every absorbed range, and each bound is one of them |
| Merge.HullSnoc | ipdb.c:121-125 | absorbing one more range takes the minimum of the lower bounds and the maximum of the upper bounds |
| Merge.LoopEnd | ipdb.c:130 | inserting the hull once no range is mergeable gives the store described for Upsert |
| Merge.TagDecidesAdjacency | ipdb.c:119-130 | against a stored [10, 20] tagged 1, an incoming [15, 25] is absorbed whatever its tag and widens to [10, 25]; an incoming [21, 30] is absorbed with tag 1 and left apart with tag 2 |
| Flat.Serialize | store.c:474-487 | the records are the tree's entries in traversal order, one per entry |
| Flat.SerializeSorted | store.c:474-487 | the file of a well-formed store is ascending and non-overlapping, and holds exactly the stored ranges |
| Flat.SerializedFind | store.c:802-815 | the file has a record holding an address exactly when the tree's Find finds one |
| Flat.Bisect | store.h:526-542 | returns -1 or an index below `count` whose record holds `ip`; `count <= 0` gives -1; on sorted records, -1 exactly when no record holds `ip` |
| Flat.RecRoundTrip | store.h:508 | a record written as three little-endian words reads back unchanged |
| Flat.FileRoundTrip | store.h:556 | a file of records whose fields fit the word size reads back as the same records |
| Flat.WrittenFileReadsBack | store.c:474-487 | a serialised IPv4 store (12-byte records) or IPv6 store (48-byte records, tag widened) reads back as its sorted records |
| CCTable.Cci | store.c:1135-1139 | every code hashes to one of the 4096 buckets |
| CCTable.CciIsProduct | store.c:1135-1139 | the uint32 wrap-around never shows: the bucket is the product of the offset bytes modulo 4096 |
| CCTable.CreateTable | store.c:1142-1145 | the new table is well-formed and stores no code |
| CCTable.FindCC | store.c:1159-1162 | returns only the searched code, and only when it is stored |
| CCTable.FindCCComplete | store.c:1159-1162 | on a well-formed table findCC finds exactly the stored codes |
| CCTable.StoreCC | store.c:1164-1167 | the table stays well-formed; with the node allocated it stores exactly the old codes plus `cc`; a stored code or a failed allocation leaves it unchanged |
| CCTable.RemoveCC | store.c:1169-1178 | as written: never adds a code and never keeps `cc`; on a stored code it is the corrected removal |
| CCTable.RemoveCCFixed | store.c:1169-1178 | stores exactly the old codes other than `cc` |
| CCTable.RemoveCCDropsCollidingCode | store.c:1173-1175 | after storing "DE", removing the absent "YD" from the same bucket deletes "DE" |
| PowerTables.V4Rows | store.h:671-676 | row e of the IPv4 table is 2^e - 1 |
| PowerTables.V6Rows | store.h:689-718 | row e of the IPv6 table, read as (low word, high word), is 2^e - 1 |
| PowerTables.Inteb4 | store.h:678-681 | 2^e for 0 <= e <= 31 and 1 otherwise |
| PowerTables.Inteb6 | store.h:720-723 | 2^e for 0 <= e <= 127 and 1 otherwise |
| PowerTables.Log2 | store.h:725-741 | the exponent r with 2^r <= v < 2^(r+1) |
| PowerTables.Mask6 | store.h:689-718 | the table row indexed by `o` is 2^o - 1 |
| PowerTables.Intlb6 | store.h:725-741 | 0 for v == 0, and otherwise the r with 2^r <= v < 2^(r+1) |
| UInt128.FromU64 | uint128t.h:114-122 | the 64-bit value lands in the low limb and keeps its value |
| UInt128.LexOrder | uint128t.h:124-163 | comparing limbs lexicographically is comparing the numbers |
| UInt128.ValInjective | uint128t.h:114-122 | two limb pairs with the same value are equal |
| UInt128.Eq | uint128t.h:124-127 | true exactly when the numbers are equal |
| UInt128.Lt | uint128t.h:129-134 | true exactly when a < b |
| UInt128.Le | uint128t.h:136-145 | true exactly when a <= b |
| UInt128.Gt | uint128t.h:147-152 | true exactly when a > b |
| UInt128.Ge | uint128t.h:154-163 | true exactly when a >= b |
| UInt128.ShlU | uint128t.h:165-177 | a * 2^(n mod 128) mod 2^128, including the word move at n == 64 and the identity at n == 128 |
| UInt128.ShrU | uint128t.h:179-191 | a div 2^(n mod 128) |
| UInt128.Inc | uint128t.h:193-198 | (a + 1) mod 2^128 |
| UInt128.IncCarry | uint128t.h:193-198 | carrying into the high limb when the low limb wraps to 0 gives (a + 1) mod 2^128 |
| UInt128.Dec | uint128t.h:200-205 | (a - 1) mod 2^128 |
| UInt128.DecBorrow | uint128t.h:200-205 | borrowing from the high limb when the low limb was 0 gives (a - 1) mod 2^128 |
| UInt128.Add | uint128t.h:207-213 | (a + b) mod 2^128 |
| UInt128.AddCarry | uint128t.h:207-213 | the carry test "new low limb below the old" gives (a + b) mod 2^128 |
| UInt128.Sub | uint128t.h:215-221 | (a - b) mod 2^128 |
| UInt128.SubBorrow | uint128t.h:215-221 | the borrow test "new low limb above the old" gives (a - b) mod 2^128 |
| UInt128.NativeInc | binutils.h:512-515 | as written: the native `inc_u128` yields (a - 1) mod 2^128 |
| UInt128.NativeDec | binutils.h:517-520 | as written: the native `dec_u128` yields (a + 1) mod 2^128 |
| UInt128.NativeIncDecSwapped | binutils.h:512-520 | the native increment is the portable decrement and vice versa, and they never agree with their names |
| UInt128Arith.MulWide | uint128t.c:63-81 | the four 32-bit partial products give the full 128-bit product of two 64-bit limbs |
| UInt128Arith.CrossTerms | uint128t.c:83-84 | adding the cross terms to the high limb gives the low 128 bits of the product |
| UInt128Arith.MulLimbs | uint128t.c:61-87 | the general branch is (a * b) mod 2^128 |
| UInt128Arith.Mul | uint128t.c:50-88 | as written: the product mod 2^128 unless an operand is 2^64, in which case the other operand comes back |
| UInt128Arith.MulFixed | uint128t.c:50-88 | corrected: (a * b) mod 2^128 for every pair |
| UInt128Arith.MulShortcutWrong | uint128t.c:55-59 | mul(2^64, 1) returns 1 where the product is 2^64 |
| UInt128Arith.MulAgrees | uint128t.c:50-88 | away from 2^64 the code as written is the corrected product |
| UInt128Arith.Normalize | uint128t.c:91-101 | for u != 0, a shift below 64 that puts bit 63 at the top without losing bits (the leading-zero count); 63 for u == 0 |
| UInt128Arith.NormSteps | uint128t.c:93-100 | the 32/16/8/4/2/1 halving steps compute that shift |
| UInt128Div.DivU128By64 | uint128t.c:103-160 | both outputs all-ones when v == 0 or u.hi >= v; otherwise the quotient and remainder of u by v |
| UInt128Div.RefineCorrect | uint128t.c:132-156 | the `again` loops lower the estimated digit to the true quotient digit |
| UInt128Div.QuotientDigit | uint128t.c:132-144 | one step of Algorithm D gives a 32-bit quotient digit and the remainder |
| UInt128Div.ShiftedDivisor | uint128t.c:120-124 | the divisor shifted by its leading-zero count has bit 63 set |
| UInt128Div.ShiftedDividend | uint128t.c:126-127 | the dividend shifted by the same count is the product mod 2^128, and the `(-s >> 63)` mask drops the low-limb term at s == 0 |
| UInt128Div.DivRemShort | uint128t.c:165-181 | for b.hi == 0 and b != 0, the quotient and remainder of a by b |
| UInt128Div.HighWordDivided | uint128t.c:174-180 | dividing the high word first and carrying its remainder gives the quotient and remainder |
| UInt128Div.Estimate | uint128t.c:185-194 | for b.hi != 0, the estimate q satisfies q <= a / b <= q + 1 |
| UInt128Div.FirstEstimate | uint128t.c:185-191 | the shifted 128/64 division over-estimates a / b by at most one |
| UInt128Div.Lowered | uint128t.c:193-194 | the decrement of a non-zero estimate |
| UInt128Div.Corrected | uint128t.c:196-201 | from an estimate within one below, the +1 correction yields the exact quotient and remainder |
| UInt128Div.DivRem | uint128t.c:163-206 | as written: quotient and remainder of a by b whenever b != 2^64 |
| UInt128Div.DivRemFixed | uint128t.c:163-206 | corrected: quotient and remainder of a by b for every non-zero b |
| UInt128Div.DivRemAsWrittenWrong | uint128t.c:183-205 | a = 2^65, b = 2^64 gives a non-zero remainder |
| UInt128Div.Div | uint128t.h:226-230 | as written, through `divrem_u128`: the quotient a / b whenever b != 2^64 |
| UInt128Div.Rem | uint128t.h:232-236 | as written, through `divrem_u128`: the remainder a % b whenever b != 2^64 |
| UInt128Div.DivFixed | uint128t.h:226-230 | corrected: the quotient a / b for every non-zero b |
| UInt128Div.RemFixed | uint128t.h:232-236 | corrected: the remainder a % b for every non-zero b |
| UInt128Div.RemAsWrittenWrong | uint128t.h:232-236 | rem_u128(2^65, 2^64) is not 0 as written and is 0 corrected |
| Bytes.LERoundTrip | store.c:481-482 | a value below 2^(8n) written as n little-endian bytes reads back |
| Bytes.FromLERoundTrip | store.c:481-482 | n bytes read as a number and written back are the same bytes |
| Bytes.SwapInt16 | utils.h:187-197 | the bytes of the result are the bytes of the input reversed |
| Bytes.SwapInt32 | utils.h:199-211 | the bytes of the result are the bytes of the input reversed |
| Bytes.SwapInt64 | utils.h:239-255 | the bytes of the result are the bytes of the input reversed |
| Bytes.SwapIntInvolutions | utils.h:187-255 | swapping twice gives the input back |
| Hex.HexVal | utils.c:88-104 | a digit c gives c - '0'; a capital gives 10 + c - 'A' and a small letter 10 + c - 'a'; anything else 0; never 36 or more |
| Hex.LowerDigit | utils.c:107-122 | a nibble becomes a lowercase hex digit that hex2val maps back to it |
| Hex.ByteDigits | utils.c:107-122 | a byte becomes two lowercase digits, high nibble first, whose values rebuild it |
| Hex.HexOfEncodes | utils.c:107-122 | each pair of output digits decodes to the byte at the same position |
| Hex.Conv2Hex | utils.c:107-122 | the 2n lowercase digits decode, pair by pair, to the input bytes |
| Hex.EncodesReversed | utils.c:125-140 | encoding the reversed bytes puts byte n-1-j at pair j |
| Hex.Vonc2Hex | utils.c:125-140 | digit pair j decodes to byte n-1-j |
| Hex.Int2Hex | utils.c:603-626 | "0x" followed by lowercase hex digits without leading zeros whose value is the 64-bit two's-complement value of i; just "0x" for 0 |
| Hex.AllDigits | utils.c:614-621 | the digits kept after dropping leading zeros still carry the whole value |
| Hex.BigEndianValue | utils.c:605-609 | the bytes in big-endian order read back as the value |
| Uri.UriEncode | utils.c:470-508 | at most three output bytes per input byte; every output byte is a kept byte, a '%' or an uppercase hex digit, and none is NUL |
| Uri.EncodeStep | utils.c:479-500 | a kept byte is copied and any other non-NUL byte becomes '%' and the capital digits of its high and low nibble, followed by the encoding of the rest |
| Uri.UriDecode | utils.c:437-467 | decoding never lengthens |
| Uri.DecodeEncode | utils.c:437-508 | decoding the encoding of a NUL-free string gives it back |
| Uri.DecodeWithoutPercent | utils.c:437-467 | a string without '%' decodes to itself |
| Uri.PercentKept | utils.c:457-462 | a '%' not followed by two hex digits stays literal |
| Uri.UriDecodeUnsigned | utils.c:457-462 | uriDecode where plain `char` is unsigned: a '%' always takes the next two bytes; a NUL among them means a read past the string; never longer than the input |
| Uri.UnsignedDecodesNonDigits | utils.c:459-460 | with unsigned `char`, "%zz" decodes to 0xEF, while the signed reading keeps it |
| Uri.UnsignedReadsPastEnd | utils.c:457-460 | with unsigned `char`, a '%' just before the NUL reads past the string, while the signed reading keeps the '%' |
| Uri.UnsignedDecodeEncode | utils.c:457-500 | the output of uriEncode decodes back under either signedness of `char` |
| Base64.AlphabetIsRanges | utils.c:146 | the alphabet is A-Z, a-z, 0-9, '+', '/' in that order |
| Base64.DecMeans | utils.c:243-272 | the decode table inverts the alphabet and gives 0x40 exactly on bytes outside it |
| Base64.DecEnc | utils.c:243-272 | decoding an alphabet character gives its index |
| Base64.Dec | utils.c:245-262 | every table entry is a 6-bit group or the marker 0x40 (which entry is which is stated by DecMeans) |
| Base64.Decode4 | utils.c:265-271 | three bytes; when all four characters are in the alphabet, the bytes read big-endian are the 24-bit number the four 6-bit groups spell, first group highest |
| Base64.JoinGroups | utils.c:269-271 | the three shift-and-or expressions cut to eight bits spell the four groups' 24-bit number |
| Base64.Encode3 | utils.c:148-159 | four characters carrying the four 6-bit groups of the three bytes |
| Base64.Encode2 | utils.c:161-172 | three data characters and one '=' |
| Base64.Encode1 | utils.c:174-185 | two data characters and two '=' |
| Base64.DecodeEncode3 | utils.c:148-272 | decoding the quad of three bytes gives the three bytes |
| Base64.DecodeEncode2 | utils.c:161-272 | decoding the quad of two bytes gives them back first |
| Base64.DecodeEncode1 | utils.c:174-272 | decoding the quad of one byte gives it back first |
| Utf8.Trailing | utils.c:370-380 | the number of continuation bytes a lead byte announces is at most 5 |
| Utf8.Utf8To32 | utils.c:387-408 | consumes the announced bytes; ASCII decodes to itself; a lead byte announcing more than 3 continuation bytes gives U+FFFD |
| Utf8.Utf32To8 | utils.c:411-432 | 1, 2, 3 or 4 bytes below 0x80, 0x800, 0x10000 and 0x110000; larger values encode U+FFFD |
| Utf8.Utf32To8IsScalar | utils.c:411-432 | below 0x110000 the output is the RFC 3629 encoding of the code point |
| Utf8.ReadScalar | utils.c:387-408 | decoding the RFC 3629 encoding of a code point gives it back with the right length |
| Utf8.RoundTrip | utils.c:387-432 | utf8to32 of utf32to8(cp) is cp below 0x110000 and U+FFFD above |
| Utf8.OverlongAccepted | utils.c:387-408 | the overlong pair C0 80 decodes to 0 |
| Text.LoChar | utils.h:371-374 | upper-case letters move to lower case by 0x20; every other byte is fixed |
| Text.UpChar | utils.h:376-379 | lower-case letters move to upper case by 0x20; every other byte is fixed |
| Text.CaseInverse | utils.h:371-379 | UpChar undoes LoChar on upper-case letters and vice versa; both are idempotent |
| Text.Lowercase | utils.h:393-405 | only the bytes before the first NUL and within `n` are lowered |
| Text.Uppercase | utils.h:407-419 | only the bytes before the first NUL and within `n` are raised |
| Text.CaseOnlyLetters | utils.h:393-419 | a byte changed by the case mapping was a letter of the other case |
| Text.CaseIdempotent | utils.h:393-419 | mapping twice is mapping once |
| Text.ScanLen | utils.h:716-813 | the index of the first NUL or delimiter, 0 for an empty string |
| Text.WordLen | utils.h:815-824 | the length of the leading run of bytes above ' ' |
| Text.BlankLen | utils.h:826-835 | the length of the leading run of non-NUL bytes at or below ' ' |
| Text.WordThenBlank | utils.h:815-835 | a word is followed by its end, a NUL, or blanks; a string that starts with a word starts with no blanks |
| Text.Strmlcpy | utils.h:843-863 | returns n = k for m == 0 and n = min(k, m-1) otherwise, k being `*l` or the string length when `*l` is 0 or absent; dst is the first min(n, length) bytes of the string; `*l` is filled in when it was 0 |
| Text.StrmlcpyCopiesPrefix | utils.h:838-842 | with `*l` the true length or 0: dst is the longest prefix of src that leaves room for the NUL in m bytes (all of src for m == 0), the return value is its length, and `*l` ends up as the length of src |
| Text.Skip | utils.h:1039-1050 | the first position that is not '\t'..'\r' or ' ' |
| Text.BskipAsWritten | utils.h:1055-1066 | as written: steps back over whitespace, and runs off the front of a string that is all whitespace |
| Text.Bskip | utils.h:1055-1066 | corrected: the end of the string after trailing whitespace is stripped, stopping at the start |
| Text.BskipAgrees | utils.h:1055-1066 | where the code as written stays in bounds, it agrees with the corrected one |
| Text.TrimReadsBeforeBlankString | utils.h:1069-1073 | on "" and "  " bskip reads before the string |
| Text.Trim | utils.h:1069-1073 | the result is a slice with only whitespace cut from both ends and no whitespace at either end |
| Text.TrimIdempotent | utils.h:1069-1073 | trimming twice is trimming once |
| Text.OtherQuoteLiteral | utils.h:1082-1086 | inside single quotes a double quote changes nothing, and vice versa |
| Text.Jump | utils.h:1077-1089 | the first position holding NUL, or `stop` outside quotes; no earlier position qualifies |

## Left out

- Allocators, allocation counters, I/O, the command line, the RIR line
  tokenizer, SIMD scanners, floating point and the native `__uint128_t`
  paths are not modelled. The native inc/dec are the exception.
- NULL pointers are ruled out by the types: the model's strings and
  buffers always exist. The immediate NULL or 0 return of `lowercase`,
  `uppercase` (utils.h:395, 409), `wordlen`, `blanklen` (utils.h:817,
  828), `uriEncode` (utils.c:472) and `uriDecode` (utils.c:451) for a NULL
  argument is not modelled. `strmlcpy`'s optional `l` is an `Option`.
- Allocation failure in `add*Node` and `storeCC` is the `alloc` flag of
  `Avl.Insert`, `Merge.Upsert` and `CCTable.StoreCC`.
- Byte order: records, tables and `u64_to_u128t` are modelled for a
  little-endian machine. Big-endian layouts are not modelled.
- Uri.PercentKept holds where plain `char` is signed (x86-64, Apple
  arm64): uriDecode's `char hex[256]` holds -1 for non-digits and
  utils.c:459 tests `!= -1`. Where `char` is unsigned those entries read
  as 255, the test never fails, any two bytes after '%' are decoded, and
  a '%' before the NUL reads past the string; that reading is
  `Uri.UriDecodeUnsigned` (see Findings).
- Uri.UriDecode models the signed-`char` reading of utils.c:459; the
  unsigned one is `Uri.UriDecodeUnsigned`, and the two agree on the
  output of uriEncode.
- Flat.Bisect: `(p+q)/2` is computed on unbounded integers. The int
  overflow it could reach in C for counts near 2^31 is not modelled.
- The country-code node payload is not modelled (`Tree<()>`).
- `base64Encode`/`base64Decode` buffer bookkeeping and `strmlcat` are not
  modelled; only the quad codec is.
- Text.Strmlcpy: `m` is a `nat`, so a negative `m` is not modelled.
- Text.Strmlcpy: `*l` is required to be non-negative, as utils.h:841
  documents it (the string's length or 0). A negative `*l` is not
  modelled: strlcpy's `size_t` size `n + 1` would wrap, copying the whole
  string for `*l <= -2` and nothing for `*l == -1`.
- Hex.Int2Hex: the `m` and `width` parameters are not modelled; the source
  never reads them.
- Uri.UriDecode: the result is stated only for NUL-free inputs that came
  from UriEncode, for inputs without '%', and for a literal '%'. A `%00`
  escape that cuts the C string short is not modelled.
- Utf8.Utf8To32: the requires asks for as many bytes as the lead byte
  announces, because the source reads that many without a bound check.
  Surrogates and overlong forms are accepted, as in the source.
  Continuation bytes are not validated, so the result is stated only for
  well-formed sequences and single ASCII bytes.
- UInt128Div.DivRem: b != 0 is required. The source divides by zero at
  uint128t.c:176; only `div_u128_64` saturates. The same holds for
  `Div`, `Rem` and their corrected forms.
- Merge.Upsert: lo <= hi is required. Validating the range belongs to the
  caller; ipdb.c:117 computes `iphi = iplo + count - 1` in 32 bits and
  checks neither that `count` is positive nor that the sum does not wrap.

## Findings

| source | as written | input that shows it | evidently intended | confidence | as-written member | corrected member |
|---|---|---|---|---|---|---|
| uint128t.c:55-59 | the shortcut tests `lo == 0 && hi == 1`, the value 2^64, and returns the other operand | mul(2^64, 1) returns 1 | the identity shortcut for an operand equal to 1 | not executed | UInt128Arith.Mul, UInt128Arith.MulShortcutWrong | UInt128Arith.MulFixed |
| uint128t.c:183-205 | divrem's correction step multiplies with `mul_u128` and inherits its shortcut; `div_u128` and `rem_u128` (uint128t.h:226-236) call it and inherit it too | a = 2^65, b = 2^64 gives a remainder that is not 0 | q = 2, r = 0 | not executed | UInt128Div.DivRem, UInt128Div.DivRemAsWrittenWrong, UInt128Div.Div, UInt128Div.Rem, UInt128Div.RemAsWrittenWrong | UInt128Div.DivRemFixed, UInt128Div.DivFixed, UInt128Div.RemFixed |
| binutils.h:512-520 | the native `inc_u128` subtracts 1 and `dec_u128` adds 1 | any a: inc(a) == a - 1 | inc adds 1 and dec subtracts 1, as the portable path does | not executed | UInt128.NativeInc, UInt128.NativeDec, UInt128.NativeIncDecSwapped | UInt128.Inc, UInt128.Dec |
| store.c:1169-1178 | a bucket whose tree is a single node is freed without comparing its code | store "DE", then remove "YD" (both in bucket 420) | remove only the given code | not executed | CCTable.RemoveCC, CCTable.RemoveCCDropsCollidingCode | CCTable.RemoveCCFixed |
| utils.h:1055-1073 | `bskip` steps back with no lower bound, and `trim` calls it at the end of the string | trim("") and trim("  ") read before the string | stop at the start of the string | not executed | Text.BskipAsWritten, Text.TrimReadsBeforeBlankString | Text.Bskip, Text.Trim |
| utils.c:459-460 | `hex` is a plain `char` table holding -1 for non-digits, tested with `!= -1`; where `char` is unsigned the entries are 255 and the test never fails | with unsigned `char`, "%zz" decodes to 0xEF, and "%" followed by the NUL reads past the string | a '%' not followed by two hex digits is kept, as where `char` is signed | not executed; depends on the target's `char` signedness | Uri.UriDecodeUnsigned, Uri.UnsignedDecodesNonDigits, Uri.UnsignedReadsPastEnd | Uri.UriDecode, Uri.PercentKept, Uri.DecodeEncode |
