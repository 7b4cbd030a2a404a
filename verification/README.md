# Hydrui, verified

Dafny models of the parts of Hydrui whose correctness is hardest to see, with proofs. `dafny verify dfyconfig.toml`
checks everything.

- **NaCl in TypeScript** (`Field25519`, `Pack25519`, `X25519`, `Scalarmult`, `Poly1305`, `Salsa20`, `SalsaStream`,
  `Secretbox`). The typed-array code is kept: limbs, carries, in-place buffers. Each part is proved against its standard
  on plain integers, and every number stored in a `Float64Array` has the type `Field25519.Exact`, the integers a double
  holds exactly, so that no product or carry can round. `Montgomery`, `Fermat`, `Poly1305Standard` and `Salsa20Standard`
  say what these standards compute in other terms: curve polynomials and multiples, masks, cells, and published examples.
- **BLAKE2b** (`Words64`, `Blake2bSpec`, `Blake2bCore`, `Blake2b`) against RFC 7693, whose constants and lines are stated
  once more in `Blake2bStandard`, and the **bcrypt** block function and base64 (`Bcrypt`, `BcryptBase64`).
- **The script expression parser** (`ScriptSyntax`, `ScriptGrammar`, `ScriptRoundTrip`, `ScriptShortest`,
  `ScriptPrecedence`, `ScriptParser`): the parser object computes a grammar function, the grammar inverts a printer, nothing
  shorter than the print of a tree is parsed to it, so that every printed parenthesis is needed, and which operator binds
  tighter is stated symbol by symbol.
- **The Wisp multiplexer** (`WispServer`, `WispReadPath`, `WispCredit`, `WispDelivery`, `WispClient`): goroutines are steps of
  a transition system over the main loop, the three loops of each stream and the channels; runs are all interleavings.
  A stream of the client is an object whose methods are the steps of its read loop, its readers and its closers.
- **The metadata loader and the range cache** (`ChunkLoader`; `FileCursor`, `RangePlan`, `RangeCache`): objects whose
  methods are the stretches of code between two awaits, so that any sequence of calls is one schedule.
- **Encrypted streams and reports** (`CryptFrames`, `CryptReaders`, `CryptTransformer`, `CryptReport`) and **PSD groups**
  (`PsdLayers`, `PsdTree`, `PsdCanvas`).

`Results`, `Chunks`, `Bits`, `Modular` and `Positional` hold the types and the arithmetic that several of these share. Bitwise
operators act on integers, not on bit vectors; a shift by a constant is written as a product or a quotient.

## Where the code falls short

Each of these is stated exactly, with the condition under which the code does what it is for:

- A boolean literal `false` is read as true (`ScriptRoundTrip.RoundTrip`, `ScriptRoundTrip.FalseIsReadAsTrue`).
- Conditionals nest to the left, and between `?` and `:` neither another conditional nor `||` nor a comma can stand without
  parentheses (`ScriptPrecedence.TwoConditionals`, `ScriptPrecedence.OperatorInConditional`).
- An empty successful read of the peer breaks the two-buffer scheme (`WispReadPath.OverlapExactly`,
  `WispReadPath.EmptyReadCorrupts`).
- Queue lengths of 0 or from 2^31 on deadlock the credit scheme (`WispCredit.DeadlockExactly`).
- An empty chunk behind complete boxes makes the transform stream write an extra empty box, so that the announced size is
  wrong, while decryption is not (`CryptTransformer.OutputLength`, `CryptTransformer.ExtraBoxWitness`,
  `CryptTransformer.OutputDecrypts`).
- A stream cut off between two frames or right behind a length prefix ends without an error, and only there
  (`CryptFrames.CutIsNoticed`); a whole report that is cut off is always refused (`CryptReport.CutReport`).
- A key that is given but empty is hashed as a block of zeros, against the code's own message that keys have a positive
  length (`Blake2b.DataIsStandard`).
- Layers are drawn as the tree shows them, and on one canvas in the end, for balanced lists only; stray dividers at the front
  of the list change the number of canvases and nothing else (`PsdCanvas.BalancedExactly`, `PsdCanvas.DrawnExactly`,
  `PsdCanvas.NotDrawnAsShown`).
- Between the cancellation of the client's context and the end of its read loop, a payload may be dropped and the next one
  delivered, so that a reader sees a gap; before that there is none (`WispDelivery.PrefixExactly`, `WispClient.GapWitness`).
- A `Read` that is blocked when its stream is closed is not woken by that, unless a payload or a remote close is already at
  work (`WispClient.HangWitness`, `WispClient.HungStays`, `WispClient.WokenExactly`).
- A `Write` waits in spite of credit if an update comes between its look at the credit and its look at the channel, and only
  then (`WispClient.UpdateMissed`, `WispClient.ClientStream.WaitsDry`).
- The server's main loop stops for good when it has a payload for a full queue whose write loop has ended, and only then
  (`WispServer.GoesOnExactly`, `WispServer.WedgeWitness`); a stream that the client closes first stays in the map until the
  handler ends (`WispServer.LeakedForever`).
- A handler that a broken connection ends closes every stream (`WispServer.FinishClosesAll`), one that an invalid packet ends
  need not (`WispServer.InvalidWitness`); a goroutine that announces a close after that never returns
  (`WispServer.AnnouncesForever`).
- A box that does not open leaves its zeroed buffer behind, which the next `Read` hands out as plaintext; for a length below 48
  the buffer's length wraps around (`CryptFrames.ReadOnExactly`, `CryptFrames.BadBox`).
- A source that ends with an unexpected end of file is encrypted without an end, and any other error of the source drops up to
  8191 bytes that have been read (`CryptReaders.SealedExactly`, `CryptReaders.EmptyBoxes`).
- Strings that bcrypt's base64 does not write are decoded without an error: those with other characters, a single last
  character or stray bits at the end, and no others (`BcryptBase64.EncodeDecode`, `BcryptBase64.BadCharacter`,
  `BcryptBase64.LostBits`).

Two comments of the repository do not match its code, which is followed: sealed boxes have 48 bytes of overhead, not the sum
of a key and a 24-byte nonce (`web/hydrui-client/src/workers/bugreport.worker.ts:25-29`), and the default chunk of a remote
file is 128 KiB, not 4096 bytes (`web/hydrui-util/src/stream.ts:53-56`).

## Model

| member | source | states |
|---|---|---|
| Scalarmult.CryptoScalarmult | web/hydrui-util/src/nacl.ts:434-490 | for every 32-byte scalar and coordinate the 32 output bytes encode X25519(n, p) of section 5 of RFC 7748 (`X25519.Value`) |
| Field25519.M | web/hydrui-util/src/nacl.ts:402-417 | the product modulo 2^255-19, also when the output is an input; from limbs one A or Z away from a product, with every stored value exact in a double, back to the product range |
| Field25519.S | web/hydrui-util/src/nacl.ts:419-421 | the square, in the product range |
| Field25519.A | web/hydrui-util/src/nacl.ts:394-396 | the sum of residues; two product-range inputs give a legal input of M, and the conversion to 32 bits changes nothing |
| Field25519.Z | web/hydrui-util/src/nacl.ts:398-400 | the difference of residues, in the same ranges |
| Field25519.Car25519 | web/hydrui-util/src/nacl.ts:346-353 | one carry pass: the base-65536 digits of the value modulo 2^256, with 38 times the overflow in limb 0 |
| Field25519.CarryLast | web/hydrui-util/src/nacl.ts:346-353 | the last carry, folded into limb 0, completes the pass |
| Field25519.SecondPass | web/hydrui-util/src/nacl.ts:411-416 | after two passes limb 0 is in [-38, 65573] and the others in [0, 65535] |
| Field25519.ThirdPass | web/hydrui-util/src/nacl.ts:369-371 | a third pass leaves every limb in [0, 65535] and does not change the value |
| Field25519.FoldValue | web/hydrui-util/src/nacl.ts:411-414 | folding the upper columns with factor 38 keeps the value modulo 2^255-19 |
| Field25519.Columns | web/hydrui-util/src/nacl.ts:404-410 | the 31 columns are worth the product of the inputs, and each stays below 2^53 |
| Field25519.Sel25519 | web/hydrui-util/src/nacl.ts:355-362 | the arrays are exchanged for b = 1 and kept for b = 0, by masks alone |
| Pack25519.Pack25519 | web/hydrui-util/src/nacl.ts:364-387 | the output is the unique little-endian number in [0, 2^255-19) congruent to any input in the range of M, A or Z |
| Pack25519.SubtractRound | web/hydrui-util/src/nacl.ts:373-381 | one borrow-then-swap round subtracts the modulus exactly if the rest is not negative |
| Pack25519.SubtractEnd | web/hydrui-util/src/nacl.ts:374-380 | the sign of the borrowed limbs is the sign of the difference |
| Pack25519.Normalize | web/hydrui-util/src/nacl.ts:369-371 | three carry passes put any input in digit form below 2^256, congruent to it |
| Pack25519.Unpack25519 | web/hydrui-util/src/nacl.ts:389-392 | the limbs are worth the little-endian number modulo 2^255: the top bit is ignored |
| Pack25519.MaskValue | web/hydrui-util/src/nacl.ts:391 | masking the top limb reduces the value modulo 2^255 |
| Scalarmult.Inv25519 | web/hydrui-util/src/nacl.ts:423-432 | the input to the power 2^255-21, also in place |
| Scalarmult.ExponentEnd | web/hydrui-util/src/nacl.ts:427-430 | 254 squarings, with the multiplication left out at 2 and 4, reach the exponent 2^255-21 |
| Scalarmult.LadderStep | web/hydrui-util/src/nacl.ts:457-474 | the eighteen field operations in shared buffers are one ladder step of RFC 7748 |
| Scalarmult.StepOrder | web/hydrui-util/src/nacl.ts:465-473 | the other order of subtraction and multiplication gives the same points |
| Scalarmult.LadderRound | web/hydrui-util/src/nacl.ts:454-476 | swap, step, swap back |
| Scalarmult.LadderLoop | web/hydrui-util/src/nacl.ts:453-477 | 255 rounds from bit 254 to bit 0 compute the eager ladder over the clamped scalar |
| Scalarmult.RunLadder | web/hydrui-util/src/nacl.ts:448-483 | start values and loop: the x and z coordinates of the eager ladder |
| Scalarmult.BitAt | web/hydrui-util/src/nacl.ts:454 | the shifted byte masked to one bit is bit i of the little-endian scalar |
| Scalarmult.Clamped | web/hydrui-util/src/nacl.ts:444-446 | the clamped scalar of RFC 7748 |
| X25519.EagerIsLazy | web/hydrui-util/src/nacl.ts:454-476 | swapping back after each step equals the standard's swap owed to the next step |
| X25519.BitOfBytes | web/hydrui-util/src/nacl.ts:454 | bit t of a little-endian number is bit t mod 8 of byte t div 8 |
| Montgomery.StepFormulas | web/hydrui-util/src/nacl.ts:457-474 | for all points the step doubles one and adds the two: the polynomials of the curve y^2 = x^3 + 486662x^2 + x, modulo 2^255-19 |
| Montgomery.LadderIsMultiple | web/hydrui-util/src/nacl.ts:453-477 | whatever stands for the multiples of a point and is respected by these polynomials, the ladder ends with the k-th multiple |
| Montgomery.FinishIsQuotient | web/hydrui-util/src/nacl.ts:484-488 | if the modulus is prime, the result is the quotient of the two coordinates, and 0 for a point without one |
| Montgomery.ScalarValue | web/hydrui-util/src/nacl.ts:444-446 | the clamped scalar: 2^254 plus the bits 3 to 253 of the scalar |
| Montgomery.Modulus | web/hydrui-util/src/nacl.ts:364-387 | the modulus is 2^255-19, and coordinates are read modulo 2^255 |
| Fermat.LittleTheorem | web/hydrui-util/src/nacl.ts:423-432 | Fermat's theorem, for every prime |
| Fermat.PowerInverse | web/hydrui-util/src/nacl.ts:423-432 | the power p-2 is the inverse modulo a prime p |
| Poly1305.CryptoOnetimeauth | web/hydrui-util/src/nacl.ts:231-299 | for every message length and key the 16 bytes written are the Poly1305 tag of section 2.5 of RFC 8439 (`Poly1305.Tag`), computed from the memory before the call; nothing else is written |
| Poly1305.Add1305 | web/hydrui-util/src/nacl.ts:217-225 | 17-byte addition modulo 2^136 |
| Poly1305.Column | web/hydrui-util/src/nacl.ts:262-269 | one limb of the convolution with factor 320; the sum stays below 17 * 255 * 320 * 255 < 2^31 |
| Poly1305.MixValue | web/hydrui-util/src/nacl.ts:264-268 | the convolution is worth the product modulo 2^130-5 |
| Poly1305.TurnedValue | web/hydrui-util/src/nacl.ts:266 | turning the upper limbs down with factor 320 multiplies by a power of 256 modulo 2^130-5 |
| Poly1305.Multiply | web/hydrui-util/src/nacl.ts:262-269 | all seventeen limbs: the product modulo 2^130-5 |
| Poly1305.FoldPass | web/hydrui-util/src/nacl.ts:271-279 | the first carry pass and the factor 5 for the bits above 2^130 keep the residue |
| Poly1305.SettlePass | web/hydrui-util/src/nacl.ts:280-286 | the second pass leaves bytes and a top limb of at most 4 |
| Poly1305.Squeeze | web/hydrui-util/src/nacl.ts:271-286 | both passes together keep the residue and settle the limbs |
| Poly1305.Freeze | web/hydrui-util/src/nacl.ts:289-292 | adding minusp and choosing by mask gives the unique residue below 2^130-5 |
| Poly1305.FreezeChoice | web/hydrui-util/src/nacl.ts:290-292 | bit 7 of the top limb tells whether the value was below the modulus |
| Poly1305.LoadBlock | web/hydrui-util/src/nacl.ts:256-258 | a block is its bytes with a one byte behind them |
| Poly1305.ClampKey | web/hydrui-util/src/nacl.ts:245-253 | r is the clamped first half of the key |
| Poly1305.AbsorbBlock | web/hydrui-util/src/nacl.ts:261-286 | one block: add, multiply, reduce |
| Poly1305.AbsorbAll | web/hydrui-util/src/nacl.ts:255-287 | all blocks of the message, the last one possibly short |
| Poly1305.TagValue | web/hydrui-util/src/nacl.ts:294-297 | the last sixteen limbs are the accumulator plus s modulo 2^128 |
| Poly1305Standard.ClampIsMask | web/hydrui-util/src/nacl.ts:245-253 | r is the first half of the key And 0x0ffffffc0ffffffc0ffffffc0fffffff |
| Poly1305Standard.Constants | web/hydrui-util/src/nacl.ts:227-229 | the modulus is 2^130-5, and tags are taken modulo 2^128 |
| Poly1305Standard.Example | web/hydrui-util/src/nacl.ts:231-299 | the tag of the example in section 2.5.2 of RFC 8439 |
| Salsa20.CoreSalsa20 | web/hydrui-util/src/nacl.ts:122-130 | the 64 bytes are the Salsa20 block: ten column-and-row double rounds plus the input matrix |
| Salsa20.CoreHsalsa20 | web/hydrui-util/src/nacl.ts:132-140 | the 32 bytes are the words 0, 5, 10, 15, 6, 7, 8, 9 of the double rounds, without the input |
| Salsa20.TwoRounds | web/hydrui-util/src/nacl.ts:92-105 | two of the transposing rounds are a column round and a row round |
| Salsa20.RoundsPair | web/hydrui-util/src/nacl.ts:92-105 | twenty rounds of the loop are ten double rounds |
| Salsa20.CoreRound | web/hydrui-util/src/nacl.ts:92-105 | one round through the buffers t and w |
| Salsa20.LoadMatrix | web/hydrui-util/src/nacl.ts:86-91 | the matrix of constants, key and input words |
| Salsa20.TakeBack | web/hydrui-util/src/nacl.ts:109-112 | subtracting what was added restores the eight words that are put out |
| SalsaStream.CryptoStreamSalsa20Xor | web/hydrui-util/src/nacl.ts:146-179 | for every length and offset byte i becomes message byte i (or 0) xor stream byte i, and nothing else is written |
| SalsaStream.Bump | web/hydrui-util/src/nacl.ts:164-169 | the carry loop adds one to the little-endian counter modulo 2^64 |
| SalsaStream.CounterValue | web/hydrui-util/src/nacl.ts:164-169 | the eight counter bytes are worth the block number modulo 2^64 |
| SalsaStream.CipherBlock | web/hydrui-util/src/nacl.ts:162-172 | one block extends the enciphered part by one block |
| Secretbox.SealedOpens | web/hydrui-util/src/nacl.ts:556-577 | opening a sealed message returns it, for every message, key and nonce |
| Secretbox.OpensToSealed | web/hydrui-util/src/nacl.ts:329-344 | a box opens to m if and only if it is long enough and is the sealing of m: in particular only if the stored 16 bytes are the recomputed tag |
| Secretbox.Vn | web/hydrui-util/src/nacl.ts:63-67 | the result is 0 if and only if the n bytes are equal, otherwise -1 |
| Secretbox.CryptoStreamXor | web/hydrui-util/src/nacl.ts:203-215 | the extended-nonce stream is xored into the buffer |
| Secretbox.CryptoSecretbox | web/hydrui-util/src/nacl.ts:314-327 | the shared buffer ends as sixteen zeros and the sealed box; shorter buffers are refused |
| Secretbox.CryptoOnetimeauthVerify | web/hydrui-util/src/nacl.ts:301-312 | 0 exactly if the stored bytes are the tag |
| Secretbox.CryptoSecretboxOpen | web/hydrui-util/src/nacl.ts:329-344 | 0 with thirty-two zeros and the message, or -1, as `Secretbox.Opened` says |
| Secretbox.SecretboxSeal | web/hydrui-util/src/nacl.ts:556-563 | the length errors, and otherwise the sealed box |
| Secretbox.SecretboxOpen | web/hydrui-util/src/nacl.ts:565-577 | the length errors, null, or the message |
| Secretbox.KeyInPlace | web/hydrui-util/src/nacl.ts:323-324 | the first 32 bytes of the shared buffer are the MAC key when the tag is computed over the rest |
| Salsa20Standard.QuarterRoundIs | web/hydrui-util/src/nacl.ts:93-101 | each word xored with the sum of two others, turned left by 7, 9, 13 and 18 places, as products and quotients by powers of two |
| Salsa20Standard.QuarterRoundExample | web/hydrui-util/src/nacl.ts:93-101 | an example of the Salsa20 specification |
| Salsa20Standard.RowRoundCells | web/hydrui-util/src/nacl.ts:92-103 | the cells of a row round, by arithmetic on their numbers |
| Salsa20Standard.ColumnRoundCells | web/hydrui-util/src/nacl.ts:92-103 | the cells of a column round |
| Salsa20Standard.MatrixCells | web/hydrui-util/src/nacl.ts:85-90 | constants on the diagonal, the key around them, the input in the middle |
| Salsa20Standard.ConstantText | web/hydrui-util/src/nacl.ts:142-145 | the constants are the text "expand 32-byte k" |
| Salsa20Standard.WordsLittleEndian | web/hydrui-util/src/nacl.ts:49-61 | words are little-endian when read and when written |
| Salsa20Standard.StreamWords | web/hydrui-util/src/nacl.ts:92-119 | a block is ten double rounds plus the matrix |
| Salsa20Standard.HSalsaWords | web/hydrui-util/src/nacl.ts:105-117 | HSalsa20 is the diagonal and the middle after ten double rounds |
| Salsa20Standard.XStreamNonce | web/hydrui-util/src/nacl.ts:203-215 | the first sixteen bytes of the nonce make the key, the other eight are the nonce |
| Salsa20Standard.BoxLayout | web/hydrui-util/src/nacl.ts:314-343 | sixteen bytes of tag, then the message xored with the stream from byte 32 on; the tag is that of these bytes under the first 32 of the stream |
| ScriptRoundTrip.ParsePrint | web/hydrui-client/src/utils/script/parse.ts:349-560 | parsing the minimally parenthesised tokens of any tree gives the tree with boolean literals made true, or the loop-limit error exactly if a chain is longer than the limit allows |
| ScriptRoundTrip.RoundTrip | web/hydrui-client/src/utils/script/parse.ts:349-560 | the tree itself comes back if and only if it has no false literal and its chains fit |
| ScriptRoundTrip.PrintInjective | web/hydrui-client/src/utils/script/parse.ts:357-560 | trees that fit and print alike are alike up to boolean literals |
| ScriptRoundTrip.FalseIsReadAsTrue | web/hydrui-client/src/utils/script/parse.ts:402-403 | a concrete literal that is not read back: false |
| ScriptRoundTrip.LongestSum | web/hydrui-client/src/utils/script/parse.ts:413-559 | sums of up to 5000 operators are read, longer ones are the loop-limit error |
| ScriptPrecedence.Precedence | web/hydrui-client/src/utils/script/parse.ts:453-539 | for all atoms and infix symbols: the second of two operators takes the operand between them if and only if its class is tighter, the classes spelled out symbol by symbol |
| ScriptPrecedence.Pair | web/hydrui-client/src/utils/script/parse.ts:453-539 | the tree node that each infix symbol stands for |
| ScriptPrecedence.Single | web/hydrui-client/src/utils/script/parse.ts:357-411 | the tree node that each token stands for by itself |
| ScriptPrecedence.OperatorThenConditional | web/hydrui-client/src/utils/script/parse.ts:533-543 | only the comma is looser than a conditional behind it |
| ScriptPrecedence.ConditionalThenOperator | web/hydrui-client/src/utils/script/parse.ts:377-386 | the last operand of a conditional takes the operators tighter than the logical or; others take the whole conditional |
| ScriptPrecedence.OperatorInConditional | web/hydrui-client/src/utils/script/parse.ts:377-386 | the middle operand takes the same ones; any other operator there is an error |
| ScriptPrecedence.TwoConditionals | web/hydrui-client/src/utils/script/parse.ts:377-386 | conditionals nest to the left, and one between the marks of another is an error |
| ScriptPrecedence.PrefixFirst | web/hydrui-client/src/utils/script/parse.ts:441-452 | prefix operators come before infix ones; which they are |
| ScriptPrecedence.SuffixFirst | web/hydrui-client/src/utils/script/parse.ts:421-440 | calls, subscripts and members come before both, from left to right |
| ScriptPrecedence.ParenthesesFirst | web/hydrui-client/src/utils/script/parse.ts:357-411 | parentheses come before everything else |
| ScriptShortest.Shortest | web/hydrui-client/src/utils/script/parse.ts:349-560 | no list of tokens that is parsed to a tree is shorter than the print of the tree |
| ScriptShortest.EveryTokenNeeded | web/hydrui-client/src/utils/script/parse.ts:349-560 | the printed parentheses are all needed: without any pair of tokens something else is parsed, or nothing |
| ScriptShortest.PartEnds | web/hydrui-client/src/utils/script/parse.ts:349-560 | at every depth a node that is read has cost at least the tokens it is printed with there, and nothing that could continue it follows |
| ScriptRoundTrip.PrintParses | web/hydrui-client/src/utils/script/parse.ts:357-560 | at every depth and before any tokens that cannot continue it, a printed tree is read to its end |
| ScriptRoundTrip.TernaryParses | web/hydrui-client/src/utils/script/parse.ts:377-386 | a conditional, left-associative like the other operators |
| ScriptRoundTrip.InfixParses | web/hydrui-client/src/utils/script/parse.ts:456-550 | a binary operator of levels 7 to 2 |
| ScriptRoundTrip.CallParses | web/hydrui-client/src/utils/script/parse.ts:425-435 | a call with an argument |
| ScriptRoundTrip.EmptyCallParses | web/hydrui-client/src/utils/script/parse.ts:425-431 | a call without one, read as a null argument |
| ScriptRoundTrip.SubscriptParses | web/hydrui-client/src/utils/script/parse.ts:436-440 | a subscript |
| ScriptRoundTrip.MemberParses | web/hydrui-client/src/utils/script/parse.ts:421-424 | a member access |
| ScriptParser.ParseSource | web/hydrui-client/src/utils/script/parse.ts:349-355 | the object-based parser returns what the grammar function returns, errors included |
| ScriptParser.Parser.ParseExpression | web/hydrui-client/src/utils/script/parse.ts:349-355 | the whole input must be consumed |
| ScriptParser.Parser.ParseExprPart | web/hydrui-client/src/utils/script/parse.ts:357-560 | agreement with the grammar at every depth: node, error and remaining tokens |
| ScriptParser.Parser.ParseLoop | web/hydrui-client/src/utils/script/parse.ts:413-559 | the loop with its counter |
| ScriptParser.Parser.Iterate | web/hydrui-client/src/utils/script/parse.ts:415-551 | one pass of the loop |
| ScriptParser.Parser.ParsePostfix | web/hydrui-client/src/utils/script/parse.ts:421-440 | the three postfix forms |
| ScriptParser.Parser.ParsePrefix | web/hydrui-client/src/utils/script/parse.ts:441-452 | the four unary operators, only where no operand has been read |
| ScriptParser.Parser.ParseInfix | web/hydrui-client/src/utils/script/parse.ts:453-550 | the operator levels in the order of the program |
| ScriptParser.Parser.ParseTernary | web/hydrui-client/src/utils/script/parse.ts:377-386 | the conditional and its colon |
| ScriptParser.Parser.AcceptAtom | web/hydrui-client/src/utils/script/parse.ts:388-411 | the tokens that start an expression |
| ScriptParser.Parser.Accept | web/hydrui-client/src/utils/script/parse.ts:68-77 | a matching token is consumed, and no other |
| ScriptParser.Parser.ExpectSym | web/hydrui-client/src/utils/script/parse.ts:79-104 | a missing token is an error of the right kind |
| ScriptParser.Parser.Advance | web/hydrui-client/src/utils/script/parse.ts:55-66 | one token less remains |
| WispServer.NextInv | internal/wisp/server.go:118-368 | every step of the main loop and of the three loops of each stream keeps the invariant |
| WispServer.RunInv | internal/wisp/server.go:118-368 | the invariant holds in every interleaving |
| WispServer.PendingIdIsCurrent | internal/wisp/server.go:171-184 | an id waiting on closeCh names the very stream object that is in the map |
| WispServer.LateCloseIsOwn | internal/wisp/server.go:171-184 | receiving a close leaves every other stream alone, also one connected later under the same id |
| WispServer.AtMostOnce | internal/wisp/server.go:352-368 | a write queue is closed at most once and not sent to afterwards; each stream sends at most one CLOSE packet and closes its connection at most once |
| WispServer.FinishClosesAll | internal/wisp/server.go:158-163 | a handler that finishes leaves no stream open: each is closed, and its connection has been closed once or a goroutine is about to do so |
| WispServer.FinishWitness | internal/wisp/server.go:158-163 | a run in which the broken connection to the client leads there |
| WispServer.InvalidWitness | internal/wisp/server.go:148-153 | a run in which an invalid packet ends the handler with a stream left open |
| WispServer.AnnouncesForever | internal/wisp/server.go:352-360 | a goroutine that announces a close when the handler is done does so for ever |
| WispServer.ClosesInOrder | internal/wisp/server.go:352-368 | a goroutine that is the first to close a stream sends one CLOSE packet, closes the connection and announces it; then the queue is closed and the stream forgotten |
| WispServer.WritesAll | internal/wisp/server.go:328-342 | while the write loop of a stream goes on and nothing fails, all that the stream has accepted can be written to its connection |
| WispServer.WrittenPrefix | internal/wisp/server.go:265-270 | the bytes written to the peer are a prefix of the DATA payloads of the stream, whatever closes when |
| WispServer.CloserInv | internal/wisp/server.go:352-368 | the steps of a closing goroutine |
| WispServer.DataInv | internal/wisp/server.go:265-270 | accepting a payload |
| WispServer.ConnectInv | internal/wisp/server.go:193-263 | connecting, with its refusals |
| WispServer.ReceiveInv | internal/wisp/server.go:171-184 | receiving from closeCh |
| WispServer.WriterInv | internal/wisp/server.go:328-350 | the steps of the peer-write loop |
| WispServer.GoesOnExactly | internal/wisp/server.go:265-270 | a main loop that puts a payload into a queue goes on in some interleaving, if and only if it does not face a full queue whose write loop has stopped |
| WispServer.WedgedForever | internal/wisp/server.go:265-270 | in that case it never goes on, whatever the other goroutines do |
| WispServer.WedgeWitness | internal/wisp/server.go:328-341 | a run that gets there: a write to the peer fails while two more payloads are coming |
| WispServer.CloseLeaks | internal/wisp/server.go:272-276 | a CLOSE packet that is the first to close a stream leaves nobody to announce it |
| WispServer.LeakedForever | internal/wisp/server.go:171-184 | until the handler ends, such a stream stays in the map, in the way of new ones with its id, and its queue stays open |
| WispReadPath.OverlapExactly | internal/wisp/server.go:295-326 | the buffer being filled is never the one being sent, if and only if no read succeeds with zero bytes during a send |
| WispReadPath.SentPrefix | internal/wisp/server.go:295-326 | if every successful read returns something, the client is sent a prefix of the peer's bytes |
| WispReadPath.EmptyReadCorrupts | internal/wisp/server.go:308-312 | a run with an empty read in which the client is sent a byte the peer never sent |
| WispReadPath.Drains | internal/wisp/server.go:295-326 | while the socket to the client works, all that has been read from a peer can be sent to the client |
| WispReadPath.NextInv | internal/wisp/server.go:295-326 | every step of the two loops but an empty read keeps the invariant |
| WispCredit.RunInv | internal/wisp/client.go:305-346 | in every reachable state a CONTINUE is on its way or credit, data on the way and counter reach the queue length |
| WispCredit.NextInv | internal/wisp/server.go:328-350 | every step of writer, refill and client keeps it |
| WispCredit.NeverStuck | internal/wisp/client.go:318-341 | zero credit implies that a packet is on its way |
| WispCredit.DeadlockExactly | internal/wisp/client.go:390-396 | no run can deadlock if and only if the queue length is in [1, 2^31-1] |
| WispCredit.SentBound | internal/wisp/server.go:342-347 | DATA sent is at most N * (1 + written div (N div 2 + 1)) |
| WispCredit.CreditReturns | internal/wisp/client.go:305-341 | in every reachable state the client has credit again after steps in which it sends nothing |
| WispDelivery.PrefixExactly | internal/wisp/client.go:376-388 | what is put into the channel is a prefix of what arrived, whatever the bytes are, if and only if nothing that holds a byte is enqueued after something that holds a byte was dropped |
| WispDelivery.NoGapPrefix | internal/wisp/client.go:376-388 | without such a gap the delivered bytes are a prefix of the received ones |
| WispDelivery.NoGapSnoc | internal/wisp/client.go:376-388 | a drop makes no gap, and an enqueued payload none unless something was dropped before |
| WispClient.ClientStream.Arrive | internal/wisp/client.go:173-188 | a payload whose stream is not in the map is dropped and recorded as such |
| WispClient.ClientStream.Check | internal/wisp/client.go:377-379 | a payload for a closed stream is dropped, any other one goes on to the select |
| WispClient.ClientStream.Select | internal/wisp/client.go:384-387 | the payload is appended to the channel, or, once the context is cancelled, possibly dropped |
| WispClient.ClientStream.CloseBegin | internal/wisp/client.go:359-362 | exactly the first caller closes |
| WispClient.ClientStream.CloseEnd | internal/wisp/client.go:364-374 | the stream leaves the map and writers wake up |
| WispClient.ClientStream.Cancel | internal/wisp/client.go:123-127 | the context is cancelled before anything else is closed; the invariant then allows gaps |
| WispClient.ClientStream.ClearStreams | internal/wisp/client.go:131-137 | the map is cleared and writers wake up |
| WispClient.ClientStream.ArriveClose | internal/wisp/client.go:173-196 | a CLOSE packet whose stream is not in the map is ignored |
| WispClient.ClientStream.RemoteClose | internal/wisp/client.go:398-408 | the error kept for readers, and the channel closed for the first time |
| WispClient.ClientStream.RemoveAfterClose | internal/wisp/client.go:194-206 | then the stream leaves the map |
| WispClient.ClientStream.ReadStart | internal/wisp/client.go:246-269 | buffered bytes first, then the errors in their order, otherwise Read blocks; nothing is lost or reordered |
| WispClient.ClientStream.ReadWoken | internal/wisp/client.go:271-288 | a payload is split between the caller and readBuf; a closed channel is drained before its error |
| WispClient.ClientStream.ReturnedPrefix | internal/wisp/client.go:246-289 | for all buffer sizes and all interleavings with closing, the bytes returned are a prefix of those delivered, and of those received unless there is a gap; there is none before the client is closed |
| WispClient.ClientStream.ReturnedFromPeer | internal/wisp/client.go:147-200 | end to end: through an in-order connection from the server's read path, what Read returns is a prefix of the bytes that the server read from the peer |
| WispReadPath.PacketsAreBytes | internal/wisp/server.go:308-318 | the payloads of the DATA packets sent are the bytes sent to the client, in order |
| WispClient.GapWitness | internal/wisp/client.go:384-387 | a run in which Read returns a later byte without the one before it, after the client was closed |
| WispClient.HangWitness | internal/wisp/client.go:359-374 | a reader without a deadline that is blocked when its stream is closed stays blocked |
| WispClient.HungStays | internal/wisp/client.go:173-198 | no step of the read loop, of writers or of closers wakes that reader |
| WispClient.WokenExactly | internal/wisp/client.go:246-289 | once a stream is closed and out of the map, its blocked reader can go on, after one step of the read loop or none, if and only if the stream is not in the hung state |
| WispClient.ClientStream.UpdateBuffer | internal/wisp/client.go:390-396 | the credit is replaced, as an int32, and bufferUpdateCh is closed and replaced |
| WispClient.ClientStream.WriteStart | internal/wisp/client.go:291-303 | a closed stream is an error, UDP needs no credit |
| WispClient.ClientStream.WritePass | internal/wisp/client.go:306-317 | the error of a closed stream or of a passed deadline, or else the credit of this moment |
| WispClient.ClientStream.TakeCredit | internal/wisp/client.go:317-324 | whatever has happened since, one credit is taken if and only if the credit is still the one that was seen |
| WispClient.ClientStream.TakeChannel | internal/wisp/client.go:326-329 | without credit, the channel that the next update will close |
| WispClient.ClientStream.WaitsDry | internal/wisp/client.go:317-341 | a waiting writer waits without credit unless an update came between its look at the credit and its look at the channel |
| WispClient.UpdateMissed | internal/wisp/client.go:317-341 | a run with such an update: the writer waits in spite of the credit |
| ChunkLoader.Loader.constructor | web/hydrui-client/src/store/pageStore.ts:172-205 | chunks of 256 ids in order, and both maps: every id is found at its last index and in the chunk of that index |
| ChunkLoader.Loader.IndexChunk | web/hydrui-client/src/store/pageStore.ts:181-186 | the maps after one chunk more |
| ChunkLoader.Loader.ChunksFor | web/hydrui-client/src/store/pageStore.ts:231-240 | the chunks of the known ids, each once, in the order in which they are first mentioned |
| ChunkLoader.Loader.ReprioritizeChunks | web/hydrui-client/src/store/pageStore.ts:211-230 | the queued wanted chunks move to the front, are demanded, and wake a waiting loop; requested and queued chunks still split the page |
| ChunkLoader.Loader.Reprioritize | web/hydrui-client/src/store/pageStore.ts:313-317 | the chunks asked for, in the order of first mention, go to the front of the queue, which keeps its elements; every queued one of them is demanded |
| ChunkLoader.Loader.DemandFetch | web/hydrui-client/src/store/pageStore.ts:318-321 | a call waits for the promises its chunks still have; each of these chunks is demanded or being fetched |
| ChunkLoader.Loader.Next | web/hydrui-client/src/store/pageStore.ts:332-349 | the chunk requested was never requested before, and no demanded chunk is left queued behind an undemanded one |
| ChunkLoader.Loader.Respond | web/hydrui-client/src/store/pageStore.ts:356-388 | whatever files it holds, a response resolves its chunk's promise and is merged into the loaded files; chunks with an incomplete answer are remembered; the loop pauses only when nothing is demanded |
| ChunkLoader.MergedKeys | web/hydrui-client/src/store/pageStore.ts:364-377 | an index is filled if and only if a file of its id has been received |
| ChunkLoader.Loader.Store | web/hydrui-client/src/store/pageStore.ts:364-377 | each file of a known id replaces what was at its index, in order; unknown ones are skipped |
| ChunkLoader.Loader.Wakeup | web/hydrui-client/src/store/pageStore.ts:128-140 | only a waiting loop is woken |
| ChunkLoader.Loader.SetIsLoadingPaused | web/hydrui-client/src/store/pageStore.ts:1078-1084 | ending the pause wakes the loop |
| ChunkLoader.Loader.Fail | web/hydrui-client/src/store/pageStore.ts:402-425 | a failed request ends the loop and rejects exactly the promises that are left |
| ChunkLoader.Loader.NoWaitHangs | web/hydrui-client/src/store/pageStore.ts:241-275 | nobody waits for a loop that is paused or over: every wait is resolved, or it is rejected, which happens only after a failure |
| ChunkLoader.Loader.RealizedFiles | web/hydrui-client/src/store/pageStore.ts:276-290 | after a wait: the loaded files of all ids in order, if and only if every id is in the page and a file of it has been received; an id of the page without a file is in a chunk whose answer was not complete |
| ChunkLoader.Loader.ResolvedIsFetched | web/hydrui-client/src/store/pageStore.ts:356-359 | a chunk without a promise has been fetched |
| ChunkLoader.Loader.FinishedLoadsAll | web/hydrui-client/src/store/pageStore.ts:332-388 | a finished loop has requested every chunk exactly once and loaded every id of the chunks that were answered completely |
| ChunkLoader.ReprioritizedFacts | web/hydrui-client/src/store/pageStore.ts:211-226 | reprioritising permutes the queue and keeps demanded chunks in front |
| ChunkLoader.ReprioritizeKeeps | web/hydrui-client/src/store/pageStore.ts:211-230 | the split, the promises and the order of demands survive |
| ChunkLoader.ReprioritizedOrder | web/hydrui-client/src/store/pageStore.ts:211-226 | wanted chunks are queued in the order in which they are wanted, before the others, which keep theirs |
| RangePlan.BlocksToFetch | web/hydrui-util/src/stream.ts:214-228 | the missing blocks between first and last, in increasing order |
| RangePlan.ContiguousRanges | web/hydrui-util/src/stream.ts:248-262 | the ranges expand to exactly the missing blocks in order, span at most 32, and each ends at a gap or because it is full |
| RangePlan.PlanUnique | web/hydrui-util/src/stream.ts:248-262 | there is only one such grouping |
| RangePlan.AddBlock | web/hydrui-util/src/stream.ts:251-262 | adding one missing block keeps the grouping maximal, ordered and within 32 blocks |
| RangeCache.RemoteFile.Prefetch | web/hydrui-util/src/stream.ts:230-246 | the error beyond the end, or the same three outcomes |
| RangeCache.RemoteFile.Advance | web/hydrui-util/src/stream.ts:235-265 | completed if nothing is missing; otherwise it waits for the pending current request, or has asked for the first of the missing ranges |
| RangeCache.RemoteFile.Resume | web/hydrui-util/src/stream.ts:235-246 | a rejected wait fails, a resolved one has the same three outcomes; it does not wait for a settled promise again |
| RangeCache.RemoteFile.ResumeAll | web/hydrui-util/src/stream.ts:235-246 | when the continuations that are due have run, nobody waits for a settled promise |
| RangeCache.RemoteFile.StartFetch | web/hydrui-util/src/stream.ts:267-289 | the first request of a fetch |
| RangeCache.RemoteFile.Deliver | web/hydrui-util/src/stream.ts:290-305 | an exact response makes its chunks fetched, settles the old promise only after the next exists, and starts the next request or completes |
| RangeCache.RemoteFile.FailRequest | web/hydrui-util/src/stream.ts:306-310 | a failure rejects the waiting and keeps the cache |
| RangeCache.RemoteFile.BeginRead | web/hydrui-util/src/stream.ts:199-208 | an abort error, the bounds error of the plain file, or a prefetch |
| RangeCache.RemoteFile.FinishRead | web/hydrui-util/src/stream.ts:209-211 | the bytes at the place where the read began, and those of the plain file unless the cursor has moved meanwhile |
| RangeCache.RemoteFile.Seek | web/hydrui-util/src/stream.ts:88-113 | as for the plain file: the cursor moves to base plus offset exactly if that is within the file |
| RangeCache.RemoteFile.CompletedBytes | web/hydrui-util/src/stream.ts:208-209 | after a completed prefetch the buffer holds the remote bytes |
| RangeCache.RemoteFile.NoLostWakeup | web/hydrui-util/src/stream.ts:278-286 | who waits on an unsettled promise has a running fetch that will settle it |
| RangeCache.RemoteFile.FetchedOnce | web/hydrui-util/src/stream.ts:267-310 | a chunk asked for twice had its earlier request fail; no two fetches run at once |
| RangeCache.NextRange | web/hydrui-util/src/stream.ts:273-302 | the step to the next range keeps the invariant |
| RangeCache.LastRange | web/hydrui-util/src/stream.ts:302-305 | the answer to the last range keeps the invariant and completes the fetch |
| RangeCache.RequestFails | web/hydrui-util/src/stream.ts:306-310 | a failed request keeps the invariant |
| RangeCache.AfterAnswer | web/hydrui-util/src/stream.ts:299-301 | the ranges that are left are the plan for what is still missing |
| RangeCache.NewRequest | web/hydrui-util/src/stream.ts:273-289 | a request for missing chunks repeats nothing |
| RangeCache.CacheGrows | web/hydrui-util/src/stream.ts:295-298 | writing the response at its first byte keeps every fetched chunk equal to the remote bytes |
| RangeCache.NeededExactly | web/hydrui-util/src/stream.ts:214-228 | the chunks that are looked at are exactly those that hold a byte of the read |
| FileCursor.SeekTo | web/hydrui-util/src/stream.ts:88-113 | a seek succeeds if and only if base plus offset lies within the file, and then goes there |
| FileCursor.SeekBack | web/hydrui-util/src/stream.ts:88-113 | every seek can be undone by each of the three kinds of seek |
| FileCursor.ReadsJoin | web/hydrui-util/src/stream.ts:115-128 | two reads at the cursor are one read of both sizes, errors included |
| FileCursor.ReadIsSeekAndRead | web/hydrui-util/src/stream.ts:115-128 | reading at an offset is seeking there and reading at the cursor, which is then back where it was |
| FileCursor.OffsetForRead | web/hydrui-util/src/stream.ts:115-123 | the given offset or the cursor, if and only if all bytes of the read lie within the file |
| FileCursor.MemoryFile.Read | web/hydrui-util/src/stream.ts:143-152 | the bytes at the given offset or at the cursor, which then advances, or the bounds error with the cursor kept |
| FileCursor.MemoryFile.Seek | web/hydrui-util/src/stream.ts:88-113 | the cursor moves to base plus offset exactly if that is within the file, and never leaves the file |
| CryptFrames.RoundTrip | internal/crypt/decrypt.go:24-53 | decrypting an encrypted stream gives the plaintext and a clean end, at the end of the input or at a zero terminator, leaving what follows it |
| CryptFrames.NestedRoundTrip | cmd/read-report/main.go:89-93 | two layers, with the terminator on the outer one only |
| CryptFrames.DecryptEncrypt | internal/crypt/decrypt.go:24-53 | decryption undoes encryption and goes on with what follows |
| CryptFrames.CutIsNoticed | internal/crypt/decrypt.go:34-45 | for every prefix of an encrypted stream: the end is clean if and only if nothing is missing or the cut is at a multiple of 8244 or 4 bytes behind one, and unexpected otherwise; the whole plaintext comes only from the whole stream |
| CryptReport.CutReport | cmd/read-report/main.go:67-102 | a report that is cut off anywhere is refused |
| CryptFrames.ReadOnExactly | internal/crypt/decrypt.go:24-53 | a caller that reads on after errors gets nothing but messages of boxes that opened, if and only if no refused box left a buffer behind |
| CryptFrames.BadBox | internal/crypt/decrypt.go:46-49 | a box that does not open is an error, and reading on gives as many zeros as its length less 48, modulo 2^32, before what follows it |
| CryptFrames.EncryptLength | internal/crypt/encrypt.go:21-28 | the encrypted length is Size of the plaintext length |
| CryptFrames.FrameLayout | internal/crypt/encrypt.go:36-63 | 8192 bytes at a time, or what is left, each as a box of 48 bytes more behind its length; 52 bytes more for each box in all |
| CryptFrames.PrefixIs | internal/crypt/encrypt.go:57 | the length is big-endian |
| CryptFrames.EncryptAppend | internal/crypt/encrypt.go:36-63 | whole chunks may be encrypted first and the rest later |
| CryptFrames.ClientSizeExact | web/hydrui-client/src/workers/bugreport.worker.ts:137-144 | the announced size is the encrypted length exactly while the boxes fit in 31 bits |
| CryptReaders.EncryptedReader.Read | internal/crypt/encrypt.go:36-63 | for every way the source ends, every read fills the buffer with the next bytes of the sealed stream, short only at its end, with the error of the source |
| CryptReaders.SealedIsEncrypt | internal/crypt/encrypt.go:48-58 | the sealed stream is the encryption of the source; a fatal error of the source drops the chunk begun, and an unexpected end of file is followed by empty boxes |
| CryptReaders.EmptyBoxes | internal/crypt/encrypt.go:48-58 | these never end |
| CryptReaders.SealedExactly | internal/crypt/encrypt.go:48-58 | the sealed stream is the encryption of the source if and only if the source ends cleanly, or with a fatal error behind whole chunks |
| CryptReaders.DecryptedReader.Read | internal/crypt/decrypt.go:24-53 | every read fills the buffer with the next plaintext, short only with the end the stream has; the zero buffer of a box that did not open is left to be read next, and nothing is left at other ends |
| CryptReaders.DecryptedReader.ReadFull | internal/crypt/decrypt.go:35-45 | an input without a byte ends the stream, a short one is unexpected |
| CryptReaders.ReadAll | internal/crypt/decrypt.go:24-53 | for every sequence of buffer sizes the plaintext comes in order, then the error, and what reading on would give |
| CryptReaders.WebsocketReader.Read | internal/bugreport/handler.go:191-213 | messages are one stream, however reads and messages overlap; a normal close between messages is its end, any other end comes as an error, also in the middle of a message |
| CryptReaders.WebsocketReader.ReadMessage | internal/bugreport/handler.go:204-211 | the inner loop over one message |
| CryptTransformer.CryptTransformer.Transform | web/hydrui-client/src/workers/bugreport.worker.ts:120-129 | all complete boxes of the bytes so far have been put out, the rest is queued |
| CryptTransformer.CryptTransformer.Flush | web/hydrui-client/src/workers/bugreport.worker.ts:130-132 | the output is the encryption of all bytes, plus an empty box exactly in the case of `CryptTransformer.ExtraBox` |
| CryptTransformer.CryptTransformer.WriteChunks | web/hydrui-client/src/workers/bugreport.worker.ts:76-115 | complete boxes only, or at the end whatever is queued |
| CryptTransformer.CryptTransformer.WriteChunk | web/hydrui-client/src/workers/bugreport.worker.ts:82-113 | one frame is put out and counted |
| CryptTransformer.CryptTransformer.TakeMessage | web/hydrui-client/src/workers/bugreport.worker.ts:82-99 | up to 8192 bytes off the front of the queue, and never fewer before the end |
| CryptTransformer.CryptTransformer.TakePiece | web/hydrui-client/src/workers/bugreport.worker.ts:92-98 | one chunk is split between buffer and queue |
| CryptTransformer.OutputDecrypts | web/hydrui-client/src/workers/bugreport.worker.ts:76-135 | the output decrypts to the bytes given, however they were cut |
| CryptTransformer.OutputLength | web/hydrui-client/src/workers/bugreport.worker.ts:137-144 | the announced size is right if and only if no empty chunk follows complete boxes at the end and the boxes fit in 31 bits |
| CryptTransformer.ExtraBoxWitness | web/hydrui-client/src/workers/bugreport.worker.ts:76-115 | a single empty chunk makes an empty box where no byte was announced |
| CryptTransformer.OnlyBytesMatter | web/hydrui-client/src/workers/bugreport.worker.ts:76-135 | without empty chunks at the end only the concatenation matters |
| CryptReport.ReportSize | internal/bugreport/handler.go:215-221 | the size given to the object store is the length of the report |
| CryptReport.Headings | internal/bugreport/handler.go:223-231 | the headings and the footer, character by character |
| CryptReport.ReportRoundTrip | internal/bugreport/handler.go:223-231 | a stored report is read back |
| CryptReport.NestedReport | cmd/read-report/main.go:67-102 | with client-encrypted data, decrypting twice gives the client's bytes |
| PsdTree.ConvertPsdLayers | web/hydrui-client/src/file/psd/layerUtils.ts:9-57 | visiting the tree of objects, parents first, lists every layer but the dividers once, in order, each at the depth of its open groups |
| PsdTree.Attach | web/hydrui-client/src/file/psd/layerUtils.ts:26-30 | a layer goes to the children of the innermost open group, or to the roots |
| PsdLayers.Appended | web/hydrui-client/src/file/psd/layerUtils.ts:26-31 | it comes last in the whole tree, as deep as the stack is high |
| PsdLayers.Grow | web/hydrui-client/src/file/psd/layerUtils.ts:26-31 | below every open group it comes last |
| PsdLayers.Frozen | web/hydrui-client/src/file/psd/layerUtils.ts:26-31 | nothing outside the open groups changes |
| PsdLayers.ScanLists | web/hydrui-client/src/file/psd/layerUtils.ts:13-54 | the list is the input without its dividers |
| PsdLayers.DepthCounts | web/hydrui-client/src/file/psd/layerUtils.ts:13-54 | the depth is the number of groups begun less those ended, if and only if no divider ends nothing; otherwise it is more |
| PsdTree.VisitIsPreorder | web/hydrui-client/src/file/psd/layerUtils.ts:9-57 | the objects show the tree that the rows describe |
| PsdCanvas.Render | web/hydrui-client/src/file/psd/render.ts:171-222 | the stack never empties; it ends at one canvas with every layer drawn at its depth in the tree if and only if the list is balanced, and every layer is drawn so if and only if it is balanced behind its first dividers |
| PsdCanvas.DrawnIsScan | web/hydrui-client/src/file/psd/render.ts:176-222 | the backward walk draws what the forward scan lists |
| PsdCanvas.BalancedExactly | web/hydrui-client/src/file/psd/render.ts:333-337 | the balanced lists are exactly those that end at one canvas and are drawn as the tree shows them |
| PsdCanvas.DrawnExactly | web/hydrui-client/src/file/psd/render.ts:171-222 | the walk draws what the tree shows exactly if the list is balanced behind its first dividers |
| PsdCanvas.AllDrawn | web/hydrui-client/src/file/psd/render.ts:182-197 | a walk that draws every layer has closed each group it entered |
| PsdCanvas.NotDrawnAsShown | web/hydrui-client/src/file/psd/render.ts:182-222 | two lists that are not: a group without its divider is skipped, and a layer before a stray divider is drawn too deep |
| PsdCanvas.BalancedHeight | web/hydrui-client/src/file/psd/render.ts:182-222 | in a balanced rest the stack is one higher than the groups open before it |
| Blake2b.Blake2bHash | web/hydrui-util/src/blake2b.ts:234-245 | the errors, or the digest of section 3.3 of RFC 7693 over the key block and the input, for every input below 2^53 bytes |
| Blake2b.DataIsStandard | web/hydrui-util/src/blake2b.ts:203-206 | the data are those of the standard except exactly for a key that is given but empty |
| Blake2b.PlainParameters | web/hydrui-util/src/blake2b.ts:193-202 | without salt and personalization the state is the IV with 0x0101kknn in its first word |
| Blake2b.HashIs | web/hydrui-util/src/blake2b.ts:210-232 | the last block holds 1 to 128 bytes, or none when there are no data, followed by zeros, and counts all bytes |
| Blake2b.ChainIs | web/hydrui-util/src/blake2b.ts:210-219 | every block before it counts the bytes so far |
| Blake2b.DigestWords | web/hydrui-util/src/blake2b.ts:227-231 | the digest holds the words of the state with the least significant byte first |
| Blake2bStandard.InitialVector | web/hydrui-util/src/blake2b.ts:100-104 | the fractional bits of the square roots of the first eight primes, as section 2.6 of RFC 7693 has it |
| Blake2bStandard.RootUnique | web/hydrui-util/src/blake2b.ts:100-104 | which determine them |
| Blake2bStandard.ScheduleNumerals | web/hydrui-util/src/blake2b.ts:106-122 | the rows of the message schedule, as hexadecimal numerals |
| Blake2bStandard.MixingIs | web/hydrui-util/src/blake2b.ts:63-97 | the eight assignments of G, with rotations by 32, 24, 16 and 63 bits |
| Blake2bStandard.FirstWordExample | web/hydrui-util/src/blake2b.ts:63-97 | one bit in the first message word |
| Blake2bStandard.SecondWordExample | web/hydrui-util/src/blake2b.ts:63-97 | one bit in the second |
| Blake2bStandard.RoundIs | web/hydrui-util/src/blake2b.ts:146-155 | a round is eight mixings on columns and diagonals, by arithmetic on the cells, with the next two words of the schedule each |
| Blake2bStandard.CompressionIs | web/hydrui-util/src/blake2b.ts:127-160 | what F does before and after twelve rounds |
| Blake2b.Context.Update | web/hydrui-util/src/blake2b.ts:210-219 | the bytes are appended to the data |
| Blake2b.Context.AddByte | web/hydrui-util/src/blake2b.ts:211-217 | a full buffer is compressed only when another byte arrives |
| Blake2b.Context.Final | web/hydrui-util/src/blake2b.ts:221-232 | the digest of the data: the last block is padded, counts all bytes and is flagged |
| Blake2b.Context.Compress | web/hydrui-util/src/blake2b.ts:127-160 | the compression function F of section 3.2 |
| Blake2b.Context.StartVector | web/hydrui-util/src/blake2b.ts:130-140 | the working vector of F: counter halves and inverted flag words |
| Blake2b.Init | web/hydrui-util/src/blake2b.ts:168-208 | errors, initial state, and the key as a full first block |
| Blake2b.Context.InitState | web/hydrui-util/src/blake2b.ts:200-202 | the IV xor the parameter block |
| Blake2b.Context.PutKey | web/hydrui-util/src/blake2b.ts:203-206 | the buffer counts as a full block of the padded key |
| Blake2b.ParameterBlock | web/hydrui-util/src/blake2b.ts:193-199 | the parameter block |
| Blake2b.LastBlock | web/hydrui-util/src/blake2b.ts:211-226 | what is in the buffer at the end is always the last block |
| Blake2b.OutIsDigest | web/hydrui-util/src/blake2b.ts:227-231 | signed shifts of the halves give the little-endian bytes of the words |
| Blake2bCore.B2bG | web/hydrui-util/src/blake2b.ts:63-97 | the mixing function G of section 3.1 on pairs of halves |
| Blake2bCore.Add64AA | web/hydrui-util/src/blake2b.ts:34-42 | 64-bit addition by halves |
| Blake2bCore.Add64AC | web/hydrui-util/src/blake2b.ts:44-55 | the same with a constant, whose low half may be negative |
| Blake2bCore.Turn64 | web/hydrui-util/src/blake2b.ts:77-80 | the four rotations of an exclusive or, by halves |
| Blake2bCore.TurnHalves | web/hydrui-util/src/blake2b.ts:77-96 | each pair of shifts is a rotation by 32, 24, 16 or 63 bits |
| Blake2bCore.AllRounds | web/hydrui-util/src/blake2b.ts:146-155 | twelve rounds of eight mixings with the message schedule |
| Blake2bCore.SigmaRow | web/hydrui-util/src/blake2b.ts:106-122 | the twelve rows of the table are the ten of the standard, the first two again |
| Blake2bCore.Get32Pair | web/hydrui-util/src/blake2b.ts:57-61 | two 32-bit reads make up a little-endian word |
| Words64.RotRFunnel | web/hydrui-util/src/blake2b.ts:84-91 | a rotation by less than 32 bits goes half by half |
| Words64.RotR63 | web/hydrui-util/src/blake2b.ts:95-96 | a rotation by 63 bits is one by 31 of the exchanged halves |
| Words64.XorHalves | web/hydrui-util/src/blake2b.ts:77-83 | exclusive or goes half by half |
| Bcrypt.CryptInverse | web/hydrui-util/src/bcrypt.ts:201-211 | with its keys reversed the block function undoes itself, for all keys and tables |
| Bcrypt.CryptBijective | web/hydrui-util/src/bcrypt.ts:201-211 | it is one-to-one and onto on pairs of 32-bit words |
| Bcrypt.RoundsBack | web/hydrui-util/src/bcrypt.ts:202-207 | after k rounds back the halves are those after 16-k rounds, under two keys |
| Bcrypt.CryptIsBlowfish | web/hydrui-util/src/bcrypt.ts:201-211 | on words without a sign the block function is Blowfish as it is defined, sixteen rounds and two last keys |
| Bcrypt.FPicks | web/hydrui-util/src/bcrypt.ts:190-200 | with three tables blank, F is the entry of the fourth at its byte, the most significant byte in the first table |
| Bcrypt.FBytes | web/hydrui-util/src/bcrypt.ts:190-200 | the four entries are added, xored and added |
| Bcrypt.KeysInOrder | web/hydrui-util/src/bcrypt.ts:201-211 | with blank tables, the even keys go to the left half and the odd ones to the right half, and the halves are exchanged |
| Bcrypt.BCrypt.EncryptBlock | web/hydrui-util/src/bcrypt.ts:201-211 | the loop with its exchanges computes the block function, and Blowfish on unsigned words |
| Bcrypt.BCrypt.TableValue | web/hydrui-util/src/bcrypt.ts:190-200 | the unreduced sum of signed words is Blowfish's function F modulo 2^32, and it changes the other half just as F does |
| BcryptBase64.DecodeEncode | web/hydrui-util/src/bcrypt.ts:275-309 | decoding an encoded byte string gives it back, for every length |
| BcryptBase64.EncodeBase64 | web/hydrui-util/src/bcrypt.ts:275-294 | groups of three bytes, the last one short |
| BcryptBase64.EncodeKeepsBits | web/hydrui-util/src/bcrypt.ts:275-294 | the characters are the same number in base 64, most significant first, with zero bits to fill the last one |
| BcryptBase64.DecodeBase64 | web/hydrui-util/src/bcrypt.ts:295-309 | any string, in groups of four characters, the last one short |
| BcryptBase64.JoinedIsOr | web/hydrui-util/src/bcrypt.ts:304 | the inclusive ors of the shifted places, with -1 for a character outside the alphabet |
| BcryptBase64.EncodeDecode | web/hydrui-util/src/bcrypt.ts:275-309 | encoding gives back a decoded string if and only if its characters are all in the alphabet and its last group is not a single character and has no bits set that no byte takes up |
| BcryptBase64.GroupUngroup | web/hydrui-util/src/bcrypt.ts:279-307 | the same for one group, whole or short |
| BcryptBase64.BadCharacter | web/hydrui-util/src/bcrypt.ts:300-307 | in a group of any length, a character outside the alphabet sets its own bits and all bits before it; as the last of four it hides the other three |
| BcryptBase64.LostBits | web/hydrui-util/src/bcrypt.ts:300-307 | two strings of the alphabet that are decoded alike |
| BcryptBase64.UngroupGroup | web/hydrui-util/src/bcrypt.ts:279-307 | one group, whole or short |
| BcryptBase64.Alphabet | web/hydrui-util/src/bcrypt.ts:276-277 | the alphabet, character by character |

## Left out

- Scalarmult.CryptoScalarmult: the windows x16 and x32 of one buffer x are separate arrays, and the copies of b and d behind them, which nothing reads, are dropped.
- Montgomery.FinishIsQuotient: that the power P - 2 is the inverse is proved from the primality of 2^255-19, which itself is not proved.
- Montgomery.LadderIsMultiple: the group law of the curve; any family of coordinates that the formulas respect takes its place.
- Field25519.M: callers have to stay in the limb range that the ladder keeps; arbitrary doubles are not covered.
- Field25519.Car25519: the bound on the limbs is the range of M's columns, in which every step is exact in a double.
- Sealed boxes, Diffie-Hellman boxes, key pairs and randomness; erasing of secrets.
- Words in Salsa20, Poly1305 and BLAKE2b are unsigned; JavaScript's signed view of them between operations is not followed, except where a signed value is shifted or stored (`Blake2b.OutIsDigest`, `Bcrypt.Xor32`).
- Blake2bCore.AllRounds: the flat table of 192 entries is written as twelve rows; the module's shared arrays v and m are made anew by each compression.
- Bcrypt.BCrypt.EncryptBlock: the key schedules, the cost loop and the constants of P and S; the block function is proved for all of them.
- Strings in bcrypt's base64 are sequences of characters; a character outside the basic plane counts as one, not as two code units.
- Script: the lexer, spans, partial mode, statements, function and lambda expressions, evaluation, and the source printers; number and string literals keep their text. The grammar has no expression for `&^`.
- ScriptParser.Parser.ParseLoop: the body of the one large loop is split into methods for its groups of branches.
- Wisp server: on values instead of objects, because every field is shared by concurrent loops. Dialing, packet parsing and the full delivery of data before a CLOSE are left out.
- WispServer.CloserInv: a goroutine may start to close at any time, which is more than the code does.
- WispCredit.RunInv: a waiting client is one without credit; the missed update of `WispClient.UpdateMissed` is not a step of that system.
- WispClient.ClientStream.ReadWoken: one Read of a stream runs at a time.
- WispCredit.SentBound: the credit is overwritten by each CONTINUE, so the packets on their way are not bounded by one queue length.
- WispClient.ClientStream.TakeCredit: the packet that is written then, and the timers of deadlines.
- WispClient.ClientStream.ReturnedFromPeer: the WebSocket connection between both sides is the assumption that packets arrive in order and unchanged.
- Loader: toasts and the cancelling of a wait by hand, the empty list, and pages without loader; a page that is replaced while its maps are still being built.
- RangeCache.RemoteFile.FinishRead: overlapping reads at the cursor all begin at the same place, because the cursor moves only after the await; what they return is proved, that the cursor then is a sensible one is not.
- RangeCache.RemoteFile.Deliver: the response is exactly the range asked for. The `| 0` of block numbers is dropped: files have fewer than 2^31 chunks. Offsets and sizes are not negative.
- Views handed to read callbacks: a read returns the bytes of the view.
- SubFile, createRemoteFile, DataStream and the SQLite reader on top of them.
- CryptReaders.EncryptedReader.Read: sealing does not fail; in the code it does so only without a source of randomness.
- CryptReaders.DecryptedReader.Read: the underlying reader goes on returning the same end after its bytes; an allocation that is too large for the machine does not fail.
- CryptReaders.WebsocketReader.Read: after an error the connection goes on returning it, and the limit on the content length around the reader is left out.
- CryptReport.NestedReport: the metadata are read to their end, as a JSON decoder with a large enough buffer does.
- Encryption itself: sealing and opening are functions with Open(Seal(m)) = m and 48 bytes of overhead.
- PsdTree.ConvertPsdLayers: names, sizes, visibility and the identifiers made up for layers without one.
- PsdCanvas.Render: pixels, masks, clipping, opacity and canvases that cannot be made; only the stack and what is drawn where.
- WebSocket, HTTP, object storage, React, canvas, ONNX and the viewers; packet serialisers, the pack archive, CSV and PackBits.
