# Verified models of the screen share's hard cores

The project models five parts of the repository in Dafny and proves what each of them is for.

**The QR encoder of the share card** (`Bitwise`, `GaloisField`, `Polynomials`, `ReedSolomon`,
`QRMath`, `QRPolynomial`, `BitStreams`, `QRBitBuffer`, `QRData`, `Interleaving`, `QRBlocks`,
`Placement`, `QRMatrix`, `QRCode`, `SymbolDistance`, `MaskLaws`, `EncodingLaws`). The encoder of
ISO/IEC 18004:2015 from the text to the masked matrix: the tables of GF(256), polynomial multiplication and division by logarithms, the
Reed-Solomon generator, the packed bit buffer, padding (section 7.4), block splitting and error
correction (7.5), interleaving (7.6), the zig-zag walk (7.7), and the choice of a mask (7.8).
The code's loops are methods over arrays and objects, each proved against a function; the algebra is
proved about the functions. The top results are the round trip (walking the finished matrix,
unmasking, de-interleaving and parsing returns the text, exactly when its code units are below 256
and its length fits the length field), and the minimum distance of every block, carried through the
interleaving and the walk to the number of cells in which two finished symbols differ. `MaskLaws` and
`EncodingLaws` say in numbers and neighbouring cells what a reader of the standard finds: the eight
masks, the mode, the length field and the bytes. The field laws are derived from the doubling step, without a table of 256 values.

**The signalling server** (`WsHub`, `Signalling`, `WriteQueue`, `WsSession`, `HubLaws`, `SessionLaws`). The hub's critical
sections and a session's handlers are methods of classes; the rooms, the sessions and the write
queue are also state machines whose steps interleave freely. A weak reference is a session number,
expired when that session is not among the live ones, and the set of live sessions is a parameter of
every call. The handlers are proved to be runs of the machine's steps, so what holds of all runs
holds of the handlers. `HubLaws` and `SessionLaws` state what is accepted, changed and sent in terms of
the hub's entries and of the messages themselves.

**The debounced alerts** (`ShellAlerts`). One tick as the program computes it, and what a run of
ticks means: the stable values are those of the latest window of equal samples, and the
notifications of each tick follow exactly from the stable values and the earlier reports.

**The negotiation flags of the host page** (`Negotiation`, `NegotiationLaws`). The handlers of the page as steps between
two awaits, over peer objects that outlive their entry in the map. No request for an offer is lost
unless an attempt fails, and then exactly when nothing else would make another attempt.

**Two text functions** (`LocaleQuery`, `JsonBridge`). The rewriter of the lang parameter, read back
by a parser of URLs, and the JSON escaper, read back by the scanner of the shell bridge and by a JSON
reader.

## Where the code does less than one would expect

- An accepted host does not keep its room until it leaves. Over every run of any connections it keeps
  the room exactly when no session disconnects whose own fields name that room and the name "host"
  (`HostKeepsRoom`, and step by step in `HostEntryKept`, for viewers in `ViewerEntryKept`). Such a
  session can be a host that was refused (`RefusedHostEvicts`, the first way to lose a room by
  `FirstEviction`), a host that was itself evicted before (`EvictedHostEvicts`), or the host of
  another room whose last message named this one (`ForeignRoomEvicted`).
- A session's room follows every message it sends, and its disconnect removes only the entries its
  fields then name (`EntriesLeftBehind`). A host that named another room leaves its own behind
  (`OverwrittenRoomLeaks`, and an instance in `RoomLeftBehind`). The room can be registered again once
  that session object has died.
- A failed offer leaves its request behind, and nothing under way makes it again (`FirstOfferFails`,
  and exactly when in `OnlyFailureLoses`). A later request of the browser does.
- When the last parameter that is kept ends in a question mark, the rewriter drops that mark, and is
  idempotent only if another character stands before it (`ParamsKept`, `LastWins`, `DamagedUrl`,
  `UnsettledUrl`).
- The scanner does not know the escape the escaper uses for the other control characters, and reads
  u and four digits instead (`ScanEscaped`, `ReadIff`).
- `getErrorCorrectPolynomial` throws from degree 256 on, because the generator of degree 255 has zero
  coefficients and the next multiplication takes their logarithm.

## Model

| member | source | states |
|---|---|---|
| GaloisField.MulAssociates | www/assets/share_card_qr.bundle.js:135-158 | the product the tables compute is associative |
| GaloisField.MulCommutes | www/assets/share_card_qr.bundle.js:135-158 | the product is commutative |
| GaloisField.MulDistributes | www/assets/share_card_qr.bundle.js:135-158 | the product distributes over xor |
| GaloisField.NoZeroDivisors | www/assets/share_card_qr.bundle.js:135-158 | a product is zero exactly when a factor is |
| GaloisField.AlphaOrder | www/assets/share_card_qr.bundle.js:147-158 | 2 has order exactly 255, so the tables have one full period |
| GaloisField.AlphaInjective | www/assets/share_card_qr.bundle.js:175-177 | the first 255 powers of 2 are different, so no logarithm is overwritten |
| GaloisField.AlphaSurjective | www/assets/share_card_qr.bundle.js:138-145 | every nonzero byte is a power of 2, so every logarithm is set |
| GaloisField.AlphaMod | www/assets/share_card_qr.bundle.js:147-158 | powers of 2 depend on the exponent modulo 255 |
| QRMathTables.AlphaRecurrence | www/assets/share_card_qr.bundle.js:169-174 | the recurrence of the table: the eighth power is the sum of the powers 4, 3, 2 and 0 |
| QRMathTables.QRMath.PowerTable | www/assets/share_card_qr.bundle.js:166-174 | EXP_TABLE holds the powers of 2 in the field, for all 256 indices |
| QRMathTables.QRMath.LogarithmTable | www/assets/share_card_qr.bundle.js:175-177 | LOG_TABLE is the inverse of EXP_TABLE on every nonzero byte |
| QRMathTables.QRMath.Glog | www/assets/share_card_qr.bundle.js:138-145 | throws exactly on zero, and otherwise returns the logarithm |
| QRMathTables.QRMath.Gexp | www/assets/share_card_qr.bundle.js:147-158 | terminates for every integer, with the power of its residue modulo 255 |
| QRPolynomials.NewPolynomial | www/assets/share_card_qr.bundle.js:185-200 | strips the leading zeros and appends shift places |
| QRPolynomials.MulByLogs | www/assets/share_card_qr.bundle.js:218-218 | adding logarithms multiplies in the field |
| QRPolynomials.DivByLogs | www/assets/share_card_qr.bundle.js:231-241 | subtracting logarithms divides in the field |
| QRPolynomials.AddRows | www/assets/share_card_qr.bundle.js:216-220 | the two loops accumulate the product of the polynomials, or throw exactly when a coefficient is zero |
| QRPolynomials.Multiply | www/assets/share_card_qr.bundle.js:212-223 | the stripped product, or cells never written when a factor is empty; throws exactly when a coefficient is zero, or both are empty |
| QRPolynomials.CancelLeading | www/assets/share_card_qr.bundle.js:231-241 | one level of mod subtracts the multiple of the divisor that cancels the leading term |
| QRPolynomials.Mod | www/assets/share_card_qr.bundle.js:225-245 | terminates with the remainder; throws exactly when a logarithm of zero would be taken or the divisor is empty |
| Polynomials.DivisionTheorem | www/assets/share_card_qr.bundle.js:225-245 | dividend = quotient * divisor + remainder, with the remainder shorter than the divisor |
| Polynomials.RemainderUnique | www/assets/share_card_qr.bundle.js:225-245 | no other quotient and remainder of that length satisfy this |
| Polynomials.EvalProduct | www/assets/share_card_qr.bundle.js:212-223 | the product's value at a point is the product of the values |
| Polynomials.SparseVanishing | www/assets/share_card_qr.bundle.js:657-666 | a nonzero polynomial that vanishes at n consecutive powers of 2 has more than n nonzero coefficients |
| QRPolynomials.GetErrorCorrectPolynomial | www/assets/share_card_qr.bundle.js:657-666 | the product of the linear factors; throws exactly from degree 256 on |
| ReedSolomon.GeneratorRoots | www/assets/share_card_qr.bundle.js:657-666 | the generator of degree n vanishes at the powers 0 to n - 1 of 2 |
| ReedSolomon.GeneratorMonic | www/assets/share_card_qr.bundle.js:657-666 | its leading coefficient is 1 |
| ReedSolomon.GeneratorNonzero | www/assets/share_card_qr.bundle.js:657-666 | up to degree 254 all its coefficients are nonzero, so no logarithm of zero is taken |
| ReedSolomon.Generator255 | www/assets/share_card_qr.bundle.js:657-666 | at degree 255 it is x^255 - 1, whose inner coefficients are zero |
| ReedSolomon.CodewordVanishes | www/assets/share_card_qr.bundle.js:1249-1257 | data followed by its error correction bytes vanishes at all roots of the generator, with leading zeros too |
| ReedSolomon.EcBytesUnique | www/assets/share_card_qr.bundle.js:1249-1257 | bytes of that length complete the data to a codeword exactly when they are its error correction bytes |
| ReedSolomon.MinimumDistance | www/assets/share_card_qr.bundle.js:1224-1259 | codewords of different data of one size, at most 255 bytes long, differ in at least ecCount + 1 places |
| ReedSolomon.WordsFarApart | www/assets/share_card_qr.bundle.js:1224-1259 | any two different words that vanish at n consecutive powers differ in more than n places |
| ReedSolomon.CorrectionUnique | www/assets/share_card_qr.bundle.js:1224-1259 | a received word within half that distance of a codeword has only one possible data block |
| BitStreams.FromToBits | www/assets/share_card_qr.bundle.js:84-88 | the bits put for a number give back its residue modulo 2 to their number |
| BitStreams.BytesRoundTrip | www/assets/share_card_qr.bundle.js:71-107 | packing the bits of bytes gives back the bytes |
| BitStreams.BitsRoundTrip | www/assets/share_card_qr.bundle.js:71-107 | unpacking whole bytes of bits gives back the bits |
| QRBitBuffers.QRBitBuffer.Get | www/assets/share_card_qr.bundle.js:79-82 | the bit that was put at that position, and false beyond the last one |
| QRBitBuffers.QRBitBuffer.PutBit | www/assets/share_card_qr.bundle.js:94-106 | appends exactly that bit to the sequence of bits put |
| QRBitBuffers.QRBitBuffer.Put | www/assets/share_card_qr.bundle.js:84-88 | appends the low bits of the number, most significant first |
| QRBitBuffers.QRBitBuffer.GetLengthInBits | www/assets/share_card_qr.bundle.js:90-92 | the number of bits put |
| QRData.ExactFill | www/assets/share_card_qr.bundle.js:1197-1219 | the data, at most four zeros, zeros to the byte boundary, then 0xEC and 0x11 alternating, to exactly the capacity |
| QRData.ReadBack | www/assets/share_card_qr.bundle.js:1176-1219 | a reader of mode, length and bytes recovers every segment before any terminator |
| QRData.TextReadBack | www/assets/share_card_qr.bundle.js:1176-1219 | one text reads back as itself exactly when its length fits the field and its code units are below 256 |
| EncodingLaws.BitsAreDigits | www/assets/share_card_qr.bundle.js:84-88 | bits come most significant first, as binary digits of the number or byte |
| EncodingLaws.AddIsExclusiveOr | www/assets/share_card_qr.bundle.js:169-174 | the sum of the field is the exclusive or of every bit |
| EncodingLaws.LengthWidths | www/assets/share_card_qr.bundle.js:668-712 | the length field has 8 bits from version 1 to 9, 16 up to version 40, and throws above |
| EncodingLaws.SegmentLayout | www/assets/share_card_qr.bundle.js:1176-1181 | a segment is 0100, the length in width bits, and each code unit's low byte |
| EncodingLaws.FilledStart | www/assets/share_card_qr.bundle.js:1170-1219 | the filled bits of any texts begin with 0100 and the first text's length |
| EncodingLaws.FirstCodeword | www/assets/share_card_qr.bundle.js:1170-1222 | the first codeword of every symbol is 4 when divided by 16 |
| EncodingLaws.FitsExactly | www/assets/share_card_qr.bundle.js:1183-1195 | texts fit exactly when 4 + width + 8 bits a unit, summed over them, are at most 8 bits a data byte |
| QRCodes.Write | www/assets/share_card_qr.bundle.js:60-65 | appends the low byte of every code unit |
| QRCodes.PutSegments | www/assets/share_card_qr.bundle.js:1176-1181 | the buffer holds mode, length and bytes of every text; throws exactly without a length field |
| QRCodes.Fill | www/assets/share_card_qr.bundle.js:1197-1219 | the buffer afterwards is the filled bit sequence |
| QRCodes.Align | www/assets/share_card_qr.bundle.js:1202-1205 | appends the fewest false bits that reach a byte boundary |
| QRCodes.PadOut | www/assets/share_card_qr.bundle.js:1207-1219 | appends the alternating pad bytes and stops exactly at the capacity |
| QRCodes.CreateData | www/assets/share_card_qr.bundle.js:1170-1222 | the codewords of the segments; throws exactly when the version is unknown or the data does not fit |
| QRCodes.FittingTextsHaveFittingLengths | www/assets/share_card_qr.bundle.js:668-712 | texts that fit a table row of usual size also fit its length field |
| Interleaving.InterleavingInvertible | www/assets/share_card_qr.bundle.js:1269-1283 | a de-interleaver gives back every block, for blocks of unequal lengths and whatever follows |
| Interleaving.SlotsIncrease | www/assets/share_card_qr.bundle.js:1269-1283 | the output positions of the bytes are all different, in the order of the loops |
| Interleaving.SlotInRange | www/assets/share_card_qr.bundle.js:1269-1283 | every byte has a position within the output |
| Interleaving.AllColumns | www/assets/share_card_qr.bundle.js:1269-1283 | the columns hold as many bytes as the blocks |
| QRBlocks.BlocksPartition | www/assets/share_card_qr.bundle.js:1234-1247 | the data blocks in order are the buffer |
| QRBlocks.BlocksInvertible | www/assets/share_card_qr.bundle.js:1224-1287 | a de-interleaver gets every block back from the codewords, with its error correction bytes, whatever follows |
| QRBlocks.CodewordsInvertible | www/assets/share_card_qr.bundle.js:1224-1287 | in particular the data bytes come back from the interleaved codewords |
| QRBlocks.CodewordsTotal | www/assets/share_card_qr.bundle.js:1261-1266 | there are exactly totalCodeCount codewords |
| QRBlocks.BlocksAreCodewords | www/assets/share_card_qr.bundle.js:1234-1259 | every block with its error correction bytes vanishes at the roots of its generator |
| QRBlocks.MessageUnique | www/assets/share_card_qr.bundle.js:1224-1287 | received codewords, once de-interleaved with every block within half its error correction, can come from one message only; the undamaged codewords are among them |
| QRBlocks.PadRemainder | www/assets/share_card_qr.bundle.js:1253-1257 | the remainder padded on the left to the number of error correction bytes |
| QRBlocks.BlockEc | www/assets/share_card_qr.bundle.js:1249-1257 | the error correction bytes of a block, of any length; throws exactly from 256 on, or at 255 when there is a nonzero byte to divide |
| QRBlocks.SplitBlocks | www/assets/share_card_qr.bundle.js:1226-1259 | the data blocks, their error correction bytes and the maxima of both lengths |
| QRBlocks.EmitColumns | www/assets/share_card_qr.bundle.js:1269-1275 | writes the columns one after the other and nothing else |
| QRBlocks.CreateBytes | www/assets/share_card_qr.bundle.js:1224-1287 | never throws on a row of the table, and returns its codewords |
| Placement.WalkReaches | www/assets/share_card_qr.bundle.js:1116-1161 | the walk reaches every cell outside column 6, at a time computed from it |
| Placement.WalkOnce | www/assets/share_card_qr.bundle.js:1116-1161 | every step of the walk is a cell of the matrix outside column 6, reached at no other time |
| Placement.WalkShape | www/assets/share_card_qr.bundle.js:1116-1161 | where the walk is at every step, in coordinates: pairs of columns from the right without column 6, rows from the bottom in even sweeps and from the top in odd ones, right cell before left |
| Placement.NextRow | www/assets/share_card_qr.bundle.js:1153-1159 | within a sweep it goes up one row in even sweeps and down one in odd ones |
| Placement.NextSweep | www/assets/share_card_qr.bundle.js:1155-1159 | at the edge it stays in its row, turns, and takes the pair of columns to the left, stepping over column 6 |
| Placement.WalkEnds | www/assets/share_card_qr.bundle.js:1116-1121 | it starts in the bottom right corner and visits n * (n - 1) cells |
| MaskLaws.CornerMasked | www/assets/share_card_qr.bundle.js:639-655 | every mask holds in the top left corner |
| MaskLaws.Mask0 | www/assets/share_card_qr.bundle.js:643-643 | a checkerboard |
| MaskLaws.Mask1 | www/assets/share_card_qr.bundle.js:644-644 | alternating rows |
| MaskLaws.Mask2 | www/assets/share_card_qr.bundle.js:645-645 | every third column |
| MaskLaws.Mask3 | www/assets/share_card_qr.bundle.js:646-646 | every third diagonal, going down to the left |
| MaskLaws.Mask4 | www/assets/share_card_qr.bundle.js:647-647 | a checkerboard of blocks two rows high and three columns wide |
| MaskLaws.ProductMasks | www/assets/share_card_qr.bundle.js:648-650 | masks 5, 6 and 7 by the remainder of row times column by six, and the checkerboard |
| MaskLaws.ProductMasksRepeat | www/assets/share_card_qr.bundle.js:648-650 | they repeat every six rows and columns |
| MaskLaws.FreeCellMeans | www/assets/share_card_qr.bundle.js:1129-1143 | the k-th free cell is dark when bit k of the data is set, counted from the top of each byte, and the other way round where the mask holds |
| QRMatrix.PlaceBit | www/assets/share_card_qr.bundle.js:1129-1150 | a free cell takes the next masked bit and a reserved cell stays |
| QRMatrix.Sweep | www/assets/share_card_qr.bundle.js:1125-1160 | one sweep over two columns, up or down, terminates at the other end |
| QRMatrix.MapData | www/assets/share_card_qr.bundle.js:1114-1163 | bit k of the data, masked, is in the k-th free cell of the walk; all other cells are unchanged |
| QRMatrix.NothingLeftUnset | www/assets/share_card_qr.bundle.js:1114-1163 | with column 6 reserved no cell stays null, and reserved cells keep their value |
| QRMatrix.ReadDataBit | www/assets/share_card_qr.bundle.js:1127-1150 | the k-th bit read along the walk and unmasked is bit k of the data |
| QRMatrix.ReadData | www/assets/share_card_qr.bundle.js:1114-1163 | with room for it, the bytes read back start with the data |
| QRCodes.QRCode.AddData | www/assets/share_card_qr.bundle.js:863-867 | appends a text and drops the cached data |
| QRCodes.QRCode.ChooseTypeNumber | www/assets/share_card_qr.bundle.js:882-903 | the smallest version below 40 that fits, or 40 |
| QRCodes.QRCode.MakeImpl | www/assets/share_card_qr.bundle.js:907-937 | the matrix holds the symbol of the object's data; throws exactly when they do not fit; the cache stays current |
| QRCodes.QRCode.GetBestMaskPattern | www/assets/share_card_qr.bundle.js:960-978 | the first mask with the fewest lost points |
| EncodingLaws.SymbolSize | www/assets/share_card_qr.bundle.js:909-919 | version 1 has 21 rows and columns, each later version four more |
| EncodingLaws.BestMaskMeans | www/assets/share_card_qr.bundle.js:965-975 | no mask loses fewer points than the chosen one, and the first of equal ones is chosen |
| QRCodes.QRCode.Make | www/assets/share_card_qr.bundle.js:880-905 | the symbol in the smallest version that fits, with the best mask; throws exactly when none fits |
| QRCodes.RoundTrip | www/assets/share_card_qr.bundle.js:880-937 | every list of texts reads back from its finished symbol, up to bits beyond a code unit's eighth |
| QRCodes.TextRoundTrip | www/assets/share_card_qr.bundle.js:880-937 | a text reads back as itself exactly when its length fits the field and its code units are below 256 |
| QRCodes.ShortTextReadsBack | www/assets/share_card_qr.bundle.js:880-937 | an instance: every text of at most 17 bytes reads back from the smallest symbol's block, for every mask |
| QRCodes.MadeSymbolReadsBack | www/assets/share_card_qr.bundle.js:880-937 | the symbol make leaves reads back for every table, pattern and mask with room |
| SymbolDistance.ColumnsDistance | www/assets/share_card_qr.bundle.js:1269-1283 | interleaved blocks differ in exactly as many bytes as the blocks do together |
| SymbolDistance.CodewordsDistance | www/assets/share_card_qr.bundle.js:1224-1287 | the codewords of two messages differ in exactly as many bytes as their blocks with error correction do together |
| SymbolDistance.DifferentCodewords | www/assets/share_card_qr.bundle.js:1224-1287 | that is at least one byte more than the error correction bytes, for every block in which the messages differ |
| SymbolDistance.DifferentMargin | www/assets/share_card_qr.bundle.js:1234-1247 | different messages differ in some block |
| SymbolDistance.CellsAreBits | www/assets/share_card_qr.bundle.js:1114-1163 | symbols over the same patterns and mask differ in as many cells as the bits read from them |
| SymbolDistance.SymbolsFarApart | www/assets/share_card_qr.bundle.js:1114-1287 | finished symbols differ in at least one cell more than the error correction bytes, for every block in which their data differ |
| SymbolDistance.TextsFarApart | www/assets/share_card_qr.bundle.js:880-937 | the symbols of different texts differ in at least one cell more than the smallest number of error correction bytes |
| WsHubs.WsHub.PruneExpiredViewers | src/core/server/ws_hub.cpp:26-37 | keeps exactly the live viewers and counts them |
| WsHubs.WsHub.RegisterHost | src/core/server/ws_hub.cpp:45-65 | error and rooms afterwards: refused exactly for an empty name or a live host |
| WsHubs.WsHub.JoinViewer | src/core/server/ws_hub.cpp:67-92 | error, id and rooms afterwards, with the room pruned even when it is full |
| WsHubs.WsHub.CollectViewers | src/core/server/ws_hub.cpp:106-112 | lists every live viewer exactly once |
| WsHubs.WsHub.Leave | src/core/server/ws_hub.cpp:94-131 | rooms afterwards, and the messages sent to the viewers or the host |
| WsHubs.WsHub.ForwardTo | src/core/server/ws_hub.cpp:133-150 | hands the message to the live session of that id, and to nobody else |
| WsHubs.WsHub.BroadcastViewers | src/core/server/ws_hub.cpp:156-167 | hands the message to every live viewer once |
| WsHubs.WsHub.GetStats | src/core/server/ws_hub.cpp:173-184 | the number of rooms with a live host and of the live viewers in them |
| HubLaws.RegisterExactly | src/core/server/ws_hub.cpp:49-59 | a host is accepted exactly for a named room without a live host, with the exact error otherwise |
| HubLaws.RegisterEffect | src/core/server/ws_hub.cpp:54-64 | an accepted host owns the room with its token and the live viewers, other rooms are untouched; a refused one changes nothing |
| HubLaws.JoinExactly | src/core/server/ws_hub.cpp:70-87 | a viewer is accepted exactly for a named room with a live host and fewer than max live viewers, with the exact error otherwise |
| HubLaws.JoinEffect | src/core/server/ws_hub.cpp:75-91 | an accepted viewer is listed with its id beside the live ones; a refused one adds nobody |
| HubLaws.LeaveEffect | src/core/server/ws_hub.cpp:98-121 | a leaving host takes the room; a leaving viewer takes its entry, and the room only when no live host and nobody else is left |
| HubLaws.TargetExactly | src/core/server/ws_hub.cpp:133-150 | a message is handed to the live session listed under its id, and to no other |
| HubLaws.BroadcastExactly | src/core/server/ws_hub.cpp:156-167 | every live viewer gets the message, once per entry, and nobody else gets anything |
| HubLaws.EndedMeansTold | src/core/server/ws_hub.cpp:123-126 | a session counts as told that its session ended exactly when it is sent that message |
| HubLaws.LeavingReported | src/core/server/ws_hub.cpp:127-130 | a leaving viewer is reported to the live host, and to nobody else |
| HubLaws.StatsExactly | src/core/server/ws_hub.cpp:173-184 | exactly the rooms with a live host are counted, and the live viewers of those rooms only |
| HubLaws.RoomFills | src/core/server/ws_hub.cpp:67-92 | for every limit, a run in which that many viewers join, and all are listed |
| HubLaws.FullRoom | src/core/server/ws_hub.cpp:83-87 | after it GetStats counts one room and the limit of viewers, and one more join is told that the room is full |
| Signalling.AgreementKept | src/core/server/ws_hub.cpp:45-131 | every step keeps the agreement: each hub entry points to a live session whose fields name that entry |
| Signalling.CapacityKept | src/core/server/ws_hub.cpp:67-92 | every step keeps each room within maxViewersPerRoom, even when ids collide |
| Signalling.ReachableStates | src/core/server/ws_hub.cpp:45-131 | agreement and capacity in every reachable state of every interleaving |
| Signalling.NoLeak | src/core/server/ws_session.cpp:49-55 | once every connection has gone through the disconnect path, no room is left |
| Signalling.CapacityAlways | src/core/server/ws_hub.cpp:45-131 | after any calls by any sessions, whoever dies in between and whatever ids are drawn, no room is over capacity, and GetStats reports at most maxViewersPerRoom viewers for each room |
| Signalling.StatsBounded | src/core/server/ws_hub.cpp:173-184 | the same bound in every reachable state of the sessions and the hub |
| Signalling.NobodyForgotten | src/core/server/ws_hub.cpp:45-131 | without refused hosts and colliding ids, every host keeps its room, and every viewer is listed or was told that its session ended |
| Signalling.HostEntryKept | src/core/server/ws_hub.cpp:45-131 | in any state a live session stays the host of a room in a step of any connection, except the disconnect of a session whose fields name that room and the host |
| Signalling.ViewerEntryKept | src/core/server/ws_hub.cpp:45-131 | in any state a live session stays listed as a viewer, except when its room loses its host that way, a session of that room and id disconnects, or a joining session draws its id |
| Signalling.HostKeepsRoom | src/core/server/ws_hub.cpp:45-131 | over any run a host that lives keeps its room exactly when no such disconnect occurs |
| Signalling.AcceptedHostKeepsRoom | src/core/server/ws_session.cpp:49-55 | for connections that keep to one room, an accepted host stays accepted, and loses its room exactly in such a disconnect of another session |
| Signalling.FirstEviction | src/core/server/ws_session_handlers.cpp:66-75 | while every accepted host of such connections has its room, the next step takes one exactly when it is the disconnect of a refused host whose room is there |
| Signalling.RefusedHostEvicts | src/core/server/ws_session_handlers.cpp:66-75 | a run in which a refused host evicts the accepted one |
| Signalling.EvictedHostEvicts | src/core/server/ws_session_handlers.cpp:66-75 | a run in which that evicted host, never refused, evicts the next one |
| Signalling.ForeignRoomEvicted | src/core/server/ws_session_handlers.cpp:23-26 | a run in which a host evicts the host of another room, which its last message named |
| Signalling.RoomOverwritten | src/core/server/ws_session_handlers.cpp:23-26 | agreement survives a message exactly when it names the sender's own room or the sender is not listed |
| Signalling.EntriesLeftBehind | src/core/server/ws_session.cpp:49-55 | in any state a disconnecting session keeps exactly those of its entries that its fields do not name |
| Signalling.EntryLeftBehind | src/core/server/ws_session.cpp:49-55 | a listed host or viewer whose message is followed by its disconnect keeps its entry exactly when the message named another room |
| Signalling.OverwrittenRoomLeaks | src/core/server/ws_session.cpp:49-55 | a disconnecting host takes away exactly the room its last message named, whoever hosts it; its own stays exactly when it named another, and nobody can register it while the session lives |
| Signalling.RoomLeftBehind | src/core/server/ws_session_handlers.cpp:23-26 | an instance: a host whose room outlives its disconnect, and is free again once it has died |
| WriteQueues.EveryHistory | src/core/server/ws_session.cpp:64-99 | in every interleaving writing says whether the outbox is nonempty, exactly its front is being written, nothing is invented, and nothing is lost before an error |
| WriteQueues.Quiescent | src/core/server/ws_session.cpp:64-99 | when no handler is left, every message sent was written or lost, in order, and all were written exactly when no write failed |
| WriteQueues.WrittenInOrder | src/core/server/ws_session.cpp:64-99 | the completed writes are an in-order subsequence of the sends, and a prefix before any loss |
| WriteQueues.LossMeansFailure | src/core/server/ws_session.cpp:85-90 | messages are lost exactly in runs with a failed write |
| WsSessions.WsSession.ExecuteSend | src/core/server/ws_session.cpp:64-74 | the queue after a posted send; starts a write exactly when idle |
| WsSessions.WsSession.DoWrite | src/core/server/ws_session.cpp:76-83 | starts the write of the outbox's front |
| WsSessions.WsSession.OnWrite | src/core/server/ws_session.cpp:85-99 | the queue after a completed or failed write, with the invariants of the queue |
| WsSessions.WsSession.OnRead | src/core/server/ws_session.cpp:49-62 | a failed read leaves the hub under the session's name exactly when it has a room and an id; otherwise the message's effect |
| WsSessions.WsSession.HandleMessage | src/core/server/ws_session_handlers.cpp:11-47 | fields, rooms and messages sent, for every message; the room is stored first |
| WsSessions.WsSession.ValidateHostToken | src/core/server/ws_session_handlers.cpp:49-54 | true exactly for a host whose message carries its token |
| WsSessions.WsSession.HandleHostRegister | src/core/server/ws_session_handlers.cpp:56-78 | fields, rooms and the answer; the fields stay set when the hub refuses |
| WsSessions.WsSession.HandleRoomJoin | src/core/server/ws_session_handlers.cpp:80-103 | fields, rooms, the answer, and the notice to the host the room has once other threads have run |
| WsSessions.WsSession.HandleSessionEnd | src/core/server/ws_session_handlers.cpp:105-122 | only the host with its token ends the session of the viewers of its room |
| WsSessions.WsSession.HandleWebrtcForward | src/core/server/ws_session_handlers.cpp:124-147 | the forwarded message, stamped with the sender's room and id, and to whom it goes |
| SessionLaws.FieldIsRead | src/core/protocol/json_helpers.h:12-16 | a string field is read up to its first NUL character, and nothing else is a string field |
| SessionLaws.TokenIsRegistered | src/core/server/ws_session_handlers.cpp:59-69 | over any messages, a session is a host from its first registration on, with the token of its last one |
| SessionLaws.ForwardNeedsToken | src/core/server/ws_session_handlers.cpp:124-147 | exactly when a message is forwarded and to whom; a registered host without its token gets UNAUTHORIZED_HOST and nothing else |
| SessionLaws.EndNeedsToken | src/core/server/ws_session_handlers.cpp:105-122 | exactly when the viewers are told that the session ended; without the registered token the sender gets UNAUTHORIZED_HOST and nothing else |
| SessionLaws.OtherKindsIgnored | src/core/server/ws_session_handlers.cpp:23-46 | only a registration or a join changes the hub; other messages change the session's room at most |
| SessionLaws.OnlySixKinds | src/core/server/ws_session_handlers.cpp:28-46 | which of the six kinds is answered how; any other is not answered |
| SessionLaws.RegistrationFields | src/core/server/ws_session_handlers.cpp:59-69 | a registration with room and token sets all four fields, accepted or not |
| SessionLaws.RegistrationAnswered | src/core/server/ws_session_handlers.cpp:61-77 | the text of every answer to a registration, by the hub's entries |
| SessionLaws.JoinAnswered | src/core/server/ws_session_handlers.cpp:83-102 | the text of every answer to a join, by the hub's entries, and the host's notice |
| SessionLaws.StampKeepsTheRest | src/core/server/ws_session_handlers.cpp:141-144 | a forwarded message has the sender's room and id, no token, and every other field as it was |
| WsSessions.MessageTakesSteps | src/core/server/ws_session_handlers.cpp:11-103 | handling a message of any connection is a run of possible steps with the same rooms and fields, and of enabled ones for a well-behaved connection |
| WsSessions.DisconnectTakesStep | src/core/server/ws_session.cpp:49-55 | a failed read is the disconnect step |
| WsSessions.ForwardReachesPeer | src/core/server/ws_session_handlers.cpp:124-147 | in every reachable state a forwarded message stays in the sender's room, reaches the id it names, carries no token, and names a sender to whom an answer comes back |
| ShellAlerts.AddNotification | src/core/runtime/native_shell_alert_coordinator.cpp:19-30 | dropped during a cooldown; otherwise appended, and the cooldown restarts |
| ShellAlerts.TickHealth | src/core/runtime/native_shell_alert_coordinator.cpp:58-88 | the health channel after the tick, its notification, and the other channels unchanged |
| ShellAlerts.TickViewers | src/core/runtime/native_shell_alert_coordinator.cpp:90-111 | the viewer channel after the tick, its notification, and the other channels unchanged |
| ShellAlerts.TickServer | src/core/runtime/native_shell_alert_coordinator.cpp:113-134 | the server channel after the tick, a notification only for an exit that was not requested |
| ShellAlerts.TickNativeShellAlerts | src/core/runtime/native_shell_alert_coordinator.cpp:34-137 | the memory and the notifications of a tick as independent channels, a list of notices and a cooldown |
| ShellAlerts.StableIsDebounced | src/core/runtime/native_shell_alert_coordinator.cpp:58-70 | the counters compute the value of the latest window of n equal samples, or the first sample if there is none |
| ShellAlerts.DebouncedUnique | src/core/runtime/native_shell_alert_coordinator.cpp:58-70 | at most one value is that of the latest window or the first sample, so the meaning determines the stable value |
| ShellAlerts.StableValues | src/core/runtime/native_shell_alert_coordinator.cpp:34-137 | so do the three stable values after every tick of every run, and the counters stay below their thresholds |
| ShellAlerts.NoInfluence | src/core/runtime/native_shell_alert_coordinator.cpp:34-137 | neither other channels, their thresholds nor the cooldown influence a channel |
| ShellAlerts.CooldownMeans | src/core/runtime/native_shell_alert_coordinator.cpp:25-43 | the cooldown left says exactly how recent the latest report is |
| ShellAlerts.ReportExact | src/core/runtime/native_shell_alert_coordinator.cpp:34-137 | exactly what each tick reports, from the changes of the stable values and the earlier reports |
| ShellAlerts.ReportsSpaced | src/core/runtime/native_shell_alert_coordinator.cpp:19-43 | with a cooldown c of at least 1, reporting ticks are at least c apart, with one notification each |
| ShellAlerts.NotificationRate | src/host_shell/native_shell_runtime_loop.cpp:20-33 | T ticks report at most (T + c - 2) / c notifications |
| ShellAlerts.ReportMeans | src/core/runtime/native_shell_alert_coordinator.cpp:67-134 | a tick reports a kind exactly when its change of a stable value happened, in no cooldown; with a cooldown the first in the order health, viewers, server |
| ShellAlerts.NoticeTexts | src/core/runtime/native_shell_alert_coordinator.cpp:73-132 | titles and texts of the notifications, and when the detail text replaces them |
| ShellAlerts.ViewerTexts | src/core/runtime/native_shell_alert_coordinator.cpp:9-17 | the text about the number of viewers |
| ShellAlerts.DecimalReads | src/core/runtime/native_shell_alert_coordinator.cpp:16-16 | the number is written in decimal without leading zeros |
| Negotiation.HostPage.NegotiatePeer | www/assets/app_host.js:427-444 | flags, stages and offers after negotiatePeer has reached its first await or returned |
| Negotiation.HostPage.Finally | www/assets/app_host.js:450-456 | the attempt is over, and a request made during it is put on a timer |
| Negotiation.HostPage.OnNegotiationNeeded | www/assets/app_host.js:397-400 | the page after the event |
| Negotiation.HostPage.OnSignalingStateChange | www/assets/app_host.js:390-395 | the page after the event |
| Negotiation.HostPage.AnswerContinues | www/assets/app_host.js:313-317 | the page after the answer's handler has continued |
| Negotiation.HostPage.EnsurePeer | www/assets/app_host.js:369-405 | a new object for an unknown id; a known one stays as it is |
| Negotiation.HostPage.CleanupPeer | www/assets/app_host.js:407-415 | the id is removed and its object closed |
| Negotiation.HostPage.TimerFires | www/assets/app_host.js:454-454 | the retry goes to the peer that has the id by then |
| Negotiation.StepKeeps | www/assets/app_host.js:301-457 | every step of every handler keeps the invariant of the flags |
| Negotiation.NoLostWakeUp | www/assets/app_host.js:427-457 | in every interleaving at most one offer is made per peer, a newer request is on the flag or a timer, and a set flag will be looked at |
| Negotiation.QuietMeansServed | www/assets/app_host.js:427-457 | when nothing is under way every request is served, unless the latest attempt failed |
| Negotiation.EventStartsOffer | www/assets/app_host.js:390-395 | a set flag on an idle, stable peer has an event pending, and that event starts an offer covering all requests |
| Negotiation.OnlyFailureLoses | www/assets/app_host.js:443-456 | a step loses a request exactly when an attempt fails with no flag, no timer and no earlier service |
| Negotiation.NoFailureNoLoss | www/assets/app_host.js:427-457 | a run without a failed attempt never loses a request |
| Negotiation.FirstOfferFails | www/assets/app_host.js:448-449 | a run that loses one, with nothing under way to make it again |
| NegotiationLaws.OfferBegins | www/assets/app_host.js:427-442 | a step begins an offer exactly when it asks for one, none is being made, and the connection is stable; otherwise the request stays on the flag |
| NegotiationLaws.OfferedWhenStable | www/assets/app_host.js:436-445 | in every run a peer whose offer is being made is stable, so no other offer awaits its answer |
| NegotiationLaws.PeersChange | www/assets/app_host.js:369-415 | a peer keeps its object until it is cleaned up, and an unknown id gets one from ensurePeer only |
| NegotiationLaws.TimersChange | www/assets/app_host.js:450-456 | a timer is set exactly for a request made during an attempt, and fires once |
| NegotiationLaws.RemovedAreClosed | www/assets/app_host.js:407-415 | in every run exactly the objects that left the page are closed |
| LocaleQuery.ToLowerAscii | src/core/i18n/localization.h:35-48 | lower-case letters, and hyphens for underscores |
| LocaleQuery.LowerExactly | src/core/i18n/localization.h:35-48 | exactly the letters A to Z and the underscore change, and to what |
| LocaleQuery.WhichLocale | src/core/i18n/localization.h:50-69 | which codes give which locale |
| LocaleQuery.NormalizedIsSupported | src/core/i18n/localization.h:50-75 | every code is normalized to a supported one, and normalizing again changes nothing |
| LocaleQuery.RemoveExisting | src/core/i18n/localization.h:197-221 | the path and the kept parameters, joined, less one trailing question mark |
| LocaleQuery.AppendLocaleQuery | src/core/i18n/localization.h:185-228 | the rewritten URL; the empty one is returned as it is |
| LocaleQuery.RewrittenParses | src/core/i18n/localization.h:185-228 | read back: same path and fragment, the kept parameters in order (the last may lose its question mark), then the locale |
| LocaleQuery.ParamsKept | src/core/i18n/localization.h:197-226 | the other parameters survive exactly when the last of them does not end in a question mark |
| LocaleQuery.OneMarkIsEnough | src/core/i18n/localization.h:197-226 | which holds of every query without a second question mark |
| LocaleQuery.OneLang | src/core/i18n/localization.h:185-228 | exactly one parameter starts with lang= and it is the last |
| LocaleQuery.LastWins | src/core/i18n/localization.h:185-228 | the second locale wins, and rewriting is idempotent, exactly when the last kept parameter ends in no question mark or in a single one after another character |
| LocaleQuery.RewrittenExample | src/core/i18n/localization.h:185-228 | an example with a locale already, an empty parameter and a fragment |
| LocaleQuery.DamagedUrl | src/core/i18n/localization.h:217-219 | a URL whose parameter is changed |
| LocaleQuery.UnsettledUrl | src/core/i18n/localization.h:217-219 | a URL for which rewriting is not idempotent |
| JsonBridge.JsonEscapeUtf8 | src/core/runtime/shell_bridge_presenter.cpp:84-108 | the escaped string, character by character |
| JsonBridge.JsonStringField | src/core/runtime/shell_bridge_presenter.cpp:14-49 | the scanned value after the first occurrence of the quoted key, or the empty string |
| JsonBridge.ScanEscaped | src/core/runtime/shell_bridge_presenter.cpp:25-48 | scanning an escaped value stops at its closing quote, whatever follows, with what each character reads back as |
| JsonBridge.ReadIff | src/core/runtime/shell_bridge_presenter.cpp:84-108 | which is the value itself exactly when its control characters are among backspace, form feed, newline, carriage return and tab |
| JsonBridge.FieldReadBack | src/core/runtime/shell_bridge_presenter.cpp:14-49 | for every key, the first field of an object reads back as the string escaped into it exactly in that case |
| JsonBridge.JsonReadBack | src/core/runtime/shell_bridge_presenter.cpp:84-108 | what the escaper writes is the inside of a JSON string, and a JSON reader that knows every escape reads every value back |
| JsonBridge.ScanReadsJson | src/core/runtime/shell_bridge_presenter.cpp:25-48 | the scanner reads every JSON string without escapes by number as that reader does |
| JsonBridge.FieldMissing | src/core/runtime/shell_bridge_presenter.cpp:14-17 | without the quoted key the field is empty |
| JsonBridge.FieldExample | src/core/runtime/shell_bridge_presenter.cpp:14-49 | an example with a space after the colon and an escape |

## Left out

- Array holes in mod: the places a polynomial's shift leaves unset are zeros here. The code can only meet one as a leading coefficient after it has stripped everything before the untouched tail, which is then shorter than the divisor; the remainder it returns has no value there, and a later shift reads that as zero.
- QRCodes.QRCode.MakeImpl: the cells set by the position, timing, format and version patterns are a parameter, and the number of free cells is a hypothesis of the round trip; the pattern routines are finite tables and bit masks.
- QRCodes.QRCode.GetBestMaskPattern: the penalty score is any function of the matrix.
- The 160 rows of the block table and their expansion into blocks: every list of blocks with 0 < dataCount < totalCount <= 255 is covered instead.
- The other segment modes of the QR standard, which the encoder never produces; kanji, numeric and alphanumeric length fields.
- SVG markup and the movie-clip routine.
- WsHubs.WsHub.JoinViewer: the id that GenViewerId draws is a parameter; freshness is stated where a property needs it.
- Signalling.NobodyForgotten: for runs in which no host is refused and no drawn id collides; what refused hosts do is proved separately.
- Signalling.ReachableStates: for connections that register at most once and keep to the room they registered in; what any other connection does to the entries of the hub is proved separately, for arbitrary states.
- Sessions that die without going through the disconnect path while they are listed, as when the process stops.
- WsSessions.WsSession.HandleRoomJoin: what the other threads do between joining and the host's notice is a parameter.
- WsSessions.WsSession.constructor: a session always has a hub; the handlers' early return without one is not modelled.
- JSON parsing and the serialized text of messages: messages are datatypes, and forwarded ones keep their fields as a map.
- The sockets: completions and errors are steps that may happen at any time after a write was started.
- ShellAlerts.TickNativeShellAlerts: its three sections are separate methods, and its fields are grouped by channel.
- The conversion of notification texts to narrow strings, and the notification service.
- Negotiation.HostPage.NegotiatePeer: the browser decides when a request for an offer, an answer or a failure arrives, so these are arbitrary steps; tracks, candidates and the messages sent are not modelled.
- Negotiation.Next: state change events may run at any time after the change, which includes the moment the browser runs them.
- Negotiation.QuietMeansServed: a request counts as served once its offer is the local description; the page drops the message with the offer while its socket is not open.
- The capture state of the host page, which depends on the browser's picker.
- JsonBridge.JsonStringField: the characters iswspace accepts are a parameter that contains no quote.
- JsonBridge.JsonEscapeUtf8: the conversion between UTF-8 and wide characters is left out; it neither adds nor removes characters below 128, which are the only ones either function looks at.
- JsonIntField, JsonHasField and the lookup of a field that is not the first one of its object.
- The translation tables and the locale file.
