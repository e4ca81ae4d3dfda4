# VSML processor, modelled in Dafny

VSML is a teaching CPU simulator that lives in one React page,
`pages/vsml.tsx`. It has a single accumulator, a program counter and a
memory of words. Memory grows as it is used. Every word is W bits wide
and splits into an O-bit opcode field (O is 4 or 5) and a W - O bit
address field. The width slider offers W from 8 to 64; a loaded v1 file
can set W from 4 to 31, and a v2 file any W of at least O. The opcode indexes a fixed table of 32
mnemonics. The page steps the program one instruction at a time. Around
the processor sit these controls:

- word-width and opcode-width controls that rewrite every instruction
  word for the new layout;
- the New, Reset and Add-rows buttons;
- a per-word instruction selector and address editor;
- an automatic input feed;
- a text file format (`v2`, read and written; `v1`, read only).

The project models that logic. It has one module per concern:

| module | file | what it holds |
|---|---|---|
| `Words` | words.dfy | unbounded integers read as W-bit words: the two's-complement conversions, `inBounds` as a loop proved equal to `Wrap`, the bitwise operations, and BigInt's truncating `/` and `%` |
| `Isa` | isa.dfy | the 32-entry instruction table; the opcode and address fields of a word and their encoding; the v1 opcode remapping |
| `Text` | text.dfy | the JavaScript string operations the page relies on: `split`/`join`, `trim`, `filter`, `toString(radix)`, `padStart`, the first-match `replace`, and what `BigInt(text)` accepts |
| `Alu` | alu.dfy | the accumulator's new value for every instruction that only computes, with the page's quirks kept; the OUA output loop and the INA character packing |
| `Reconfig` | reconfig.dfy | the three whole-memory rewrites done by the width controls, their exemption lists and cancellation |
| `Codec` | codec.dfy | the v2 save text, the v2 and v1 loaders, and the v1 splicing loop |
| `Machine` | machine.dfy | the processor state as a value; one step (`Exec`) as a function of the state before it and of what the user types; loading, saving and reconfiguring a state |
| `Controls` | controls.dfy | the opening state, New, Reset, Add rows, and the selector and address editor of one word |
| `Simulator` | simulator.dfy | class `Processor`: the same state held in fields and updated in place, one method per control, each proved equal to its function in `Machine` or `Controls` |

All reads in one `runStep` see the state from before the step, because
React batches the state updates. Memory updates queued through
`setDataItem` apply in order. `Machine.Exec` states this, and
`Simulator.Processor.Step` keeps a copy of memory to read from
(`Fetch`), in the same way.

The accumulator is brought back into range by the render after any
change (`pages/vsml.tsx:113`). The model applies that renormalisation
after every step, after a word-width change and after a load.

Legacy opcode 7 loads as index 8, JMP (`Codec.LegacySevenIsJump`).

## Model

| member | source | states |
|---|---|---|
| Words.Pow2 | pages/vsml.tsx:52 | `bigPow(2n, n)` is at least 1 |
| Words.Pow2Add | pages/vsml.tsx:270 | 2^(a+b) = 2^a * 2^b, which lets the opcode shift and the address width add up to W |
| Words.Pow2Monotone | pages/vsml.tsx:95 | a larger exponent gives a larger power of two |
| Words.SignedOfUnsigned | pages/vsml.tsx:67-68 | a value in the signed range, stored with `tcDecToDec`, is a W-bit word that `decToTcDec` reads back as that value |
| Words.UnsignedOfSigned | pages/vsml.tsx:67-68 | a W-bit word read with `decToTcDec` lies in the signed range, and `tcDecToDec` gives the same word back |
| Words.Wrap | pages/vsml.tsx:104-111 | the result lies in [-2^(W-1), 2^(W-1)) and differs from the input by a multiple of 2^W |
| Words.WrapUnique | pages/vsml.tsx:104-111 | any in-range value congruent to v mod 2^W is `Wrap(v)`, so `inBounds` has exactly one possible answer |
| Words.WrapIdentity | pages/vsml.tsx:104-111 | `inBounds` leaves an in-range value unchanged |
| Words.WrapIdempotent | pages/vsml.tsx:113 | wrapping twice is wrapping once, so the render-time renormalisation settles after one pass |
| Words.WrapShift | pages/vsml.tsx:104-111 | adding any multiple of 2^W does not change the wrapped value |
| Words.WrapBoundary | pages/vsml.tsx:104-111 | 2^(W-1), one past the largest value, wraps to the most negative value |
| Words.WrapWider | pages/vsml.tsx:273 | a value in range at W stays in range, unchanged, at any wider width |
| Words.WrapOfSigned | pages/vsml.tsx:67-68 | the signed and unsigned readings of a value wrap to the same accumulator |
| Words.InBounds | pages/vsml.tsx:104-111 | the two correction loops compute `Wrap(value, W)` |
| Words.BitAnd | pages/vsml.tsx:210 | BigInt `&` on non-negative operands is no larger than either operand |
| Words.BitOr | pages/vsml.tsx:211 | BigInt bitwise or is at least either operand and at most their sum |
| Words.BitXor | pages/vsml.tsx:212 | BigInt `^` is at most the sum of its operands |
| Words.AndMask | pages/vsml.tsx:126 | masking with 2^k - 1 keeps the low k bits: x & (2^k - 1) = x mod 2^k |
| Words.ShiftLeft | pages/vsml.tsx:216 | shifting a non-negative value left keeps it non-negative |
| Words.TruncatedDivision | pages/vsml.tsx:140-141 | BigInt `/` and `%` give a = b*q + r, with the remainder smaller than the divisor and of the dividend's sign |
| Words.TruncatedRemainder | pages/vsml.tsx:209 | BigInt `%` is the remainder of the magnitudes, carrying the dividend's sign |
| Isa.OpcodeOf | pages/vsml.tsx:568 | `instructions.indexOf(e)` is an index into the 32-entry table at which the chosen entry sits |
| Isa.CatalogueIndex | pages/vsml.tsx:10-44 | the table's entries are distinct: looking up the entry at index op gives op back |
| Isa.AddressIsLowBits | pages/vsml.tsx:532 | a word's address field is its low W - O bits, below 2^(W-O) |
| Isa.DecodeEncode | pages/vsml.tsx:568 | `(op << (W-O)) + addr` decodes (`:122`, `:126`) to op and addr whenever addr < 2^(W-O) |
| Isa.EncodeDecode | pages/vsml.tsx:531-532 | every word is the encoding of its own opcode and address fields |
| Isa.WithAddressFields | pages/vsml.tsx:96 | replacing the address field with an in-range address keeps the opcode field and reads back the new address |
| Isa.RemapMeaning | pages/vsml.tsx:376 | legacy opcodes 0-6 keep their meaning; 7-11 become JMP, JEQ, JLT, OUT and INP; 12-15 become HLT |
| Text.TrimStart | pages/vsml.tsx:364 | the result is a suffix of the input, everything removed is white space, and it does not start with white space |
| Text.TrimEnd | pages/vsml.tsx:364 | the result is a prefix of the input, everything removed is white space, and it does not end with white space |
| Text.Split | pages/vsml.tsx:170 | `split` gives at least one piece, and no piece holds the separator |
| Text.SplitFirstLine | pages/vsml.tsx:167 | splitting a line, a newline and the rest gives the line followed by the pieces of the rest |
| Text.SplitJoin | pages/vsml.tsx:170 | splitting the `join` of separator-free pieces gives the pieces back |
| Text.JoinSplit | pages/vsml.tsx:170 | joining the pieces of a `split` gives the text back |
| Text.DropEmpty | pages/vsml.tsx:187 | `filter(k => k)` keeps exactly the non-empty pieces: every kept piece is a non-empty piece of the input, and every non-empty piece is kept |
| Text.DropEmptyAppend | pages/vsml.tsx:187 | the filter works piece by piece, so kept pieces keep their order and number |
| Text.DropEmptyKeeps | pages/vsml.tsx:187 | when no piece is empty, the filter keeps them all |
| Text.DropBlank | pages/vsml.tsx:364 | `filter(k => k.trim())` keeps exactly the pieces that are not blank: every kept piece is one, and every one is kept |
| Text.DropBlankAppend | pages/vsml.tsx:364 | the filter works piece by piece, so kept pieces keep their order and number |
| Text.DropBlankKeeps | pages/vsml.tsx:364 | when no piece is blank, the filter keeps them all |
| Text.FormatNat | pages/vsml.tsx:333 | `toString(radix)` gives a non-empty digit string whose value is the number, with no leading zero: "0" for zero |
| Text.FormatInt | pages/vsml.tsx:151 | the decimal text of a number is never empty |
| Text.BinBound | pages/vsml.tsx:92 | k binary digits denote a number below 2^k |
| Text.BinCut | pages/vsml.tsx:156-158 | the leading digits of a binary string are the value divided by a power of two, and the trailing digits are the remainder |
| Text.PadStart | pages/vsml.tsx:153 | `padStart` gives max(length, n) characters: fill characters, then the input |
| Text.PadValue | pages/vsml.tsx:333 | padding binary digits with leading zeros keeps their value |
| Text.ReplaceFirst | pages/vsml.tsx:213 | the first-match `replace` keeps the length, puts the new character at the first occurrence and keeps everything else, and changes nothing when the character does not occur |
| Text.ParseFormatInt | pages/vsml.tsx:167 | `BigInt` parses the decimal text of any integer back to it |
| Text.ParseDecimal | pages/vsml.tsx:176 | `BigInt` of decimal digits is their value |
| Text.ParseSigned | pages/vsml.tsx:176 | `BigInt` of a minus sign and decimal digits is minus their value |
| Alu.RotrValue | pages/vsml.tsx:217 | ROR puts the low t bits at the top and the rest below them |
| Alu.RotrInverse | pages/vsml.tsx:217 | rotating a W-bit word right by t and then by W - t restores it |
| Alu.AddWraps | pages/vsml.tsx:137-138 | ADD and SUB wrap acc ± the operand word, whichever reading of that word is taken |
| Alu.SignedOperand | pages/vsml.tsx:137-138 | reading the operand as signed or as unsigned gives the same wrapped sum and difference |
| Alu.MulWraps | pages/vsml.tsx:139 | MUL wraps acc times the operand word |
| Alu.AdbIsAdd | pages/vsml.tsx:214 | ADB, the unsigned add reduced mod 2^W, always gives what ADD gives |
| Alu.DivideByZero | pages/vsml.tsx:140-141 | DIV, MOD, DIVS and MODS by zero set the accumulator to 0 |
| Alu.CompareRawWord | pages/vsml.tsx:218 | CMP of a negative accumulator with the word STA stores for it gives 0, because CMP compares with the raw unsigned word |
| Alu.ShiftOutClears | pages/vsml.tsx:216 | for SHL by W places or more, the value the shift expression denotes wraps to 0 |
| Alu.NotExamples | pages/vsml.tsx:213 | the NOT text swap turns 5 (`101`) into 3 (`011`) and 0 into 1 |
| Alu.NotOfFive | pages/vsml.tsx:213 | at W = 8, NOT of 5 gives 3, not the complement -6 |
| Alu.Byte | pages/vsml.tsx:156 | one 8-bit group of a word is below 256 |
| Alu.NonzeroBytes | pages/vsml.tsx:155-159 | the OUA loop over k groups prints at most k characters |
| Alu.OuaLoop | pages/vsml.tsx:152-161 | the loop that takes 8-bit groups from the low end computes `OuaChars`: the non-zero complete groups, highest first |
| Alu.NonzeroBytesHigh | pages/vsml.tsx:153-159 | groups of zeros above a word's top byte add nothing to OUA's output |
| Alu.InaCodes | pages/vsml.tsx:188 | one character code per character, with codes above 127 zeroed |
| Alu.PackIsBigEndian | pages/vsml.tsx:188 | the `reverse().map(v << 8i).reduce` packing is the big-endian number of the codes, up to four of them |
| Alu.BigEndianBytes | pages/vsml.tsx:188 | the bytes of a packed text of codes 1-127 are its characters, in order |
| Alu.InaOuaRoundTrip | pages/vsml.tsx:152-190 | OUA of the word INA packs from at most W/8 (and at most 4) characters of codes 1-127 prints those characters back |
| Reconfig.RefitFields | pages/vsml.tsx:266-271 | rewriting an instruction word for a new address width keeps its opcode and truncates its address to the new width |
| Reconfig.CutOpcodeFields | pages/vsml.tsx:297-302 | rewriting for a narrower opcode field keeps the opcode's low bits and the address |
| Reconfig.DataWordIsSmall | pages/vsml.tsx:269 | a word with opcode 0 is below 2^(W-O) and is its own address |
| Reconfig.SameFields | pages/vsml.tsx:268-270 | two words with the same opcode and address fields are the same word |
| Reconfig.RefitRoundTrip | pages/vsml.tsx:266-271 | widening the address field and narrowing it back restores every word |
| Reconfig.TopAddressBitClear | pages/vsml.tsx:280 | the bit that the 4-to-5 change checks is clear exactly when the address fits in one bit less |
| Reconfig.OpcodeBound | pages/vsml.tsx:122 | a word below 2^(W) has an opcode below 2^O |
| Reconfig.WidenCutRoundTrip | pages/vsml.tsx:285-302 | the 4-to-5 rewrite followed by the 5-to-4 rewrite restores a W-bit word whose top address bit is clear |
| Reconfig.CutWidenRoundTrip | pages/vsml.tsx:285-302 | the 5-to-4 rewrite followed by the 4-to-5 rewrite restores a word whose opcode fits in 4 bits |
| Reconfig.RefitAll | pages/vsml.tsx:266-271 | the word-width `data.map` keeps the length; exempt and opcode-0 words are unchanged; every other word keeps its opcode and has its address truncated |
| Reconfig.CutOpcodes | pages/vsml.tsx:297-302 | the 5-to-4 `data.map` keeps the length; exempt and opcode-0 words are unchanged; every other word keeps its address and the low 4 bits of its opcode |
| Reconfig.CountOpcodeAboveZero | pages/vsml.tsx:261 | the prompt's count is 0 exactly when no word has an opcode above the bound (0 for the word width, 15 for 5-to-4) |
| Reconfig.CountTopAddressBitZero | pages/vsml.tsx:280 | the 4-to-5 count is 0 exactly when no word has its top address bit set |
| Reconfig.RefitWithoutConflicts | pages/vsml.tsx:261-271 | when no word is an instruction, the word-width rewrite changes nothing |
| Reconfig.RefitSameWidth | pages/vsml.tsx:259-271 | rewriting for the same address width changes nothing |
| Reconfig.CutKeepsInstructions | pages/vsml.tsx:292-302 | the 5-to-4 rewrite keeps every opcode exactly when the count of opcodes above 15 is 0 |
| Reconfig.RefitKeepsLocations | pages/vsml.tsx:280-290 | the 4-to-5 rewrite keeps every address exactly when no word has its top address bit set |
| Reconfig.RefitAllRoundTrip | pages/vsml.tsx:266-271 | widening all words and narrowing them back restores memory |
| Reconfig.OpcodeWidenRoundTrip | pages/vsml.tsx:285-302 | when the 4-to-5 count is 0, a 4-to-5 change followed by 5-to-4 restores memory |
| Reconfig.OpcodeNarrowRoundTrip | pages/vsml.tsx:285-302 | when the 5-to-4 count is 0, a 5-to-4 change followed by 4-to-5 restores memory |
| Reconfig.Reply | pages/vsml.tsx:262 | without conflicting words no prompt is shown and the reply is the empty list; otherwise it is the user's answer |
| Reconfig.WordWidthMemory | pages/vsml.tsx:261-271 | the word-width rewrite keeps the memory length |
| Reconfig.WidenMemory | pages/vsml.tsx:280-290 | the 4-to-5 rewrite keeps the memory length |
| Reconfig.NarrowMemory | pages/vsml.tsx:292-302 | the 5-to-4 rewrite keeps the memory length |
| Reconfig.CancelChangesNothing | pages/vsml.tsx:263 | each control aborts exactly when its prompt was shown (count above 0) and cancelled |
| Reconfig.WordWidthFields | pages/vsml.tsx:265-271 | with an exemption list, the word-width rewrite keeps exempt and data words and refits the rest |
| Reconfig.WordWidthData | pages/vsml.tsx:261-263 | with no instruction words there is no prompt, and memory comes back unchanged |
| Reconfig.WordWidthRoundTrip | pages/vsml.tsx:258-273 | widening the word and narrowing it back, both without exemptions, restores memory |
| Reconfig.WidenFields | pages/vsml.tsx:280-290 | the 4-to-5 rewrite keeps exempt and data words; the rest keep their opcode and lose their top address bit |
| Reconfig.NarrowFields | pages/vsml.tsx:292-302 | the 5-to-4 rewrite keeps exempt and data words; the rest keep their address and their opcode mod 16 |
| Reconfig.WidenNarrowRoundTrip | pages/vsml.tsx:279-302 | 4-to-5 then 5-to-4 restores memory when no top address bit is set |
| Reconfig.NarrowWidenRoundTrip | pages/vsml.tsx:279-302 | 5-to-4 then 4-to-5 restores memory when no opcode exceeds 15 |
| Codec.SavedWords | pages/vsml.tsx:333 | the save text has one data line per memory word |
| Codec.ParseWords | pages/vsml.tsx:364 | a parsed data section has one word per line |
| Codec.SpliceWords | pages/vsml.tsx:372-378 | the `blob.splice` loop gives the v1 words: one per W-character chunk, the last chunk possibly shorter |
| Codec.Load | pages/vsml.tsx:351-380 | whatever loads gives an opcode width of 4 or 5, no larger than the word width |
| Codec.V2HeaderOfSave | pages/vsml.tsx:358 | the header line Save writes matches the v2 pattern and gives back O, W, PC and the unsigned accumulator |
| Codec.SavedWordDigits | pages/vsml.tsx:333 | a saved word is a non-empty binary string whose value is the word |
| Codec.ParseBinaryLines | pages/vsml.tsx:364 | non-empty binary lines parse to their values |
| Codec.DataLinesOf | pages/vsml.tsx:364 | the data lines after the header, less the blank ones, are the saved lines |
| Codec.SavedWordsAreBinary | pages/vsml.tsx:333 | every saved line is binary, and the lines read back as memory |
| Codec.SaveLoad | pages/vsml.tsx:358-364 | loading a saved text restores O, W, PC and memory; the accumulator comes back read in the current width, as written |
| Codec.SaveLoadSameWidth | pages/vsml.tsx:358-364 | when the current width is the saved width, loading a saved text restores everything |
| Codec.LoadIntended | pages/vsml.tsx:361 | the corrected loader, which reads the accumulator in the file's own width, gives a well-formed header |
| Codec.SaveLoadIntended | pages/vsml.tsx:358-364 | with the corrected loader, a saved text loads back exactly at any current width |
| Codec.LoadIntendedAgrees | pages/vsml.tsx:361 | the corrected loader agrees with the code whenever the current width is the file's |
| Codec.NarrowerWidthCorrupts | pages/vsml.tsx:361 | saving accumulator 200 at W = 16 and loading at W = 8 gives -56; the corrected loader gives 200 |
| Codec.UnknownFormatRejected | pages/vsml.tsx:354-355 | a text that does not begin with `v1;` or `v2;` changes nothing |
| Codec.MalformedDataLine | pages/vsml.tsx:360-364 | a v2 file with a data line that does not parse sets the registers but not memory |
| Codec.RegistersOnly | pages/vsml.tsx:360-364 | whenever the data section does not parse, only the registers are set |
| Codec.OneBadLine | pages/vsml.tsx:364 | one non-blank line that is not binary makes the whole data section fail |
| Codec.V2HeaderLine | pages/vsml.tsx:358 | the v2 pattern reads only the first line |
| Codec.V2HeaderPrefix | pages/vsml.tsx:358 | the pattern has no end anchor: anything after the accumulator's last binary digit is ignored |
| Codec.V1ForcesFourBitOpcodes | pages/vsml.tsx:366-370 | a v1 file always loads with O = 4 and the file's W |
| Codec.V1WordFields | pages/vsml.tsx:374-377 | each v1 word keeps its low W - 4 bits, and its opcode is the remapped legacy opcode |
| Codec.LegacyWord | pages/vsml.tsx:377 | `(seg & mask) + (v2ins << (W-4))` is the encoding of the remapped opcode and the address |
| Codec.LegacyFields | pages/vsml.tsx:377 | the v1 word built from a 32-bit value has the remapped opcode and the same address |
| Codec.V1BinaryChunk | pages/vsml.tsx:373-377 | a chunk of W binary digits gives its first 4 digits, remapped, as the opcode and its other digits as the address |
| Codec.BinaryChunkValue | pages/vsml.tsx:374 | `parseInt(chunk, 2)`, read as an unsigned 32-bit number, is the chunk's value for W up to 31 |
| Codec.BinaryChunkFields | pages/vsml.tsx:375 | the first 4 digits of a chunk are its opcode and the rest its address |
| Codec.ParseIntBinDigits | pages/vsml.tsx:374 | `parseInt` of binary digits is their value |
| Codec.SmallUint32 | pages/vsml.tsx:375 | `>>>` leaves a value below 2^31 unchanged |
| Codec.V1Chunks | pages/vsml.tsx:372-378 | a line made of full chunks gives one word per chunk |
| Codec.ChunkWords | pages/vsml.tsx:372-378 | the words of a list of chunks, one per chunk |
| Codec.LegacySevenIsJump | pages/vsml.tsx:376 | legacy opcode 7 maps to JMP |
| Codec.V1LegacyJump | pages/vsml.tsx:376 | a v1 chunk whose first four digits are 0111 loads as a JMP to the same address |
| Machine.Zeros | pages/vsml.tsx:318 | k zero words |
| Machine.Get | pages/vsml.tsx:116 | reading a word past the end of memory gives 0 |
| Machine.SetItem | pages/vsml.tsx:71-77 | after `setDataItem(i, v)` memory has length max(old length, i + 1), word i is v, every other old word is kept, and the gap is zeros |
| Machine.SetZeroExtends | pages/vsml.tsx:117-120 | writing 0 over a missing or zero word only appends zeros |
| Machine.FirstLine | pages/vsml.tsx:167 | the first line of the feed is a newline-free prefix of it, piece 0 of `split('\n')` |
| Machine.InaTake | pages/vsml.tsx:185-186 | INA takes at most W/8 characters, a prefix of the first line, all of it when it is shorter |
| Machine.RestAfterLine | pages/vsml.tsx:167-170 | the feed after consuming a line is the text after its newline |
| Machine.Advance | pages/vsml.tsx:222 | the step ends with PC + 1, memory kept, and the accumulator wrapped into range |
| Machine.Effect | pages/vsml.tsx:133-220 | an instruction's case never changes the widths, PC or the feed's on/off switch |
| Machine.Execute | pages/vsml.tsx:133-223 | a decoded instruction keeps the widths and leaves a well-formed state |
| Machine.Exec | pages/vsml.tsx:115-224 | a step keeps the widths and the feed switch, and leaves a well-formed state |
| Machine.StepOutcome | pages/vsml.tsx:122-134 | a step fails exactly when the opcode has no entry, halts exactly on HLT, and gives an input error exactly on auto-input INP with an unparsable line |
| Machine.ExecuteOutcome | pages/vsml.tsx:133-223 | a decoded instruction is never invalid; it halts exactly on HLT and fails exactly on auto-input INP with an unparsable line |
| Machine.TouchedExtends | pages/vsml.tsx:116-131 | the fetch and operand read only append zeros, at most up to PC + 1 and the operand + 1 |
| Machine.ExecuteControl | pages/vsml.tsx:142-150 | a taken jump sets PC to the address and changes nothing else; otherwise a continuing step sets PC + 1 |
| Machine.ControlFlow | pages/vsml.tsx:122-223 | HLT and an invalid word keep PC; JMP, and JEQ/JLT when taken, set PC to the address; everything else continues at PC + 1; the stopping and jumping steps change no register, output or feed |
| Machine.SmallOperand | pages/vsml.tsx:205-209 | the address field is below 2^(W-1), so `decToTcDec(targetIndex)` is the address itself |
| Machine.ArithmeticWraps | pages/vsml.tsx:137-141 | after an arithmetic instruction the accumulator is the exact result wrapped into range, and exactly it when it fits |
| Machine.ExecArithmetic | pages/vsml.tsx:205-209 | an arithmetic step sets the accumulator to the wrapped exact result and continues at PC + 1 |
| Machine.ExecuteArithmetic | pages/vsml.tsx:137-141 | the whole arithmetic step: memory from the fetch, PC + 1, accumulator wrapped |
| Machine.EffectArithmetic | pages/vsml.tsx:137-141 | the arithmetic cases change only the accumulator |
| Machine.AdvanceInRange | pages/vsml.tsx:113 | an in-range accumulator is left as it is by the renormalisation |
| Machine.DivisionByZero | pages/vsml.tsx:140-141 | division by a zero word or address sets the accumulator to 0 and the step continues at PC + 1 |
| Machine.AddOverflow | pages/vsml.tsx:137 | ADD of 1 to the largest value gives the most negative value (127 + 1 = -128 at W = 8) |
| Machine.EffectMemory | pages/vsml.tsx:136 | an instruction writes at most the word at its address; instructions that do not write leave memory as the fetch left it |
| Machine.EffectOutput | pages/vsml.tsx:151-161 | OUT and OUA append their line to the output; nothing else does; only INP and INA touch the feed |
| Machine.MemoryFrame | pages/vsml.tsx:115-224 | a step changes only the operand's word and zeros appended past the end; a step that does not store only appends zeros |
| Machine.OutputAppends | pages/vsml.tsx:151-161 | a step appends OUT's decimal line or OUA's characters and newline to the output, and nothing otherwise |
| Machine.OutLineReadsBack | pages/vsml.tsx:151 | OUT's line, fed back as input, is the first line and parses to the signed value printed |
| Machine.StoreAccumulator | pages/vsml.tsx:136 | STA stores the accumulator's W-bit form at the address, and it reads back as the accumulator |
| Machine.LoadAccumulator | pages/vsml.tsx:135 | LDA sets the accumulator to the signed reading of the word, wrapped |
| Machine.EffectNumber | pages/vsml.tsx:163-182 | INP stores the wrapped number's W-bit form in the accumulator (address 0) or at the address, and consumes one feed line |
| Machine.NumberInput | pages/vsml.tsx:163-182 | after INP the target holds the wrapped number, the feed has lost its first line in automatic mode, and PC + 1 |
| Machine.TextRead | pages/vsml.tsx:185-186 | automatic INA reads at most W/8 characters |
| Machine.EffectText | pages/vsml.tsx:183-203 | INA stores the packed text in the accumulator (address 0) or at the address, and removes it from the feed |
| Machine.TextInput | pages/vsml.tsx:183-203 | after INA the target holds the packed characters and PC + 1 |
| Machine.AfterTextKeepsRest | pages/vsml.tsx:186-187 | with no empty line after the taken characters, the feed after INA is exactly what followed them |
| Machine.AfterTextLineRest | pages/vsml.tsx:186-187 | when INA takes part of the first line, the rest of that line stays at the front of the feed |
| Machine.FirstLineDrop | pages/vsml.tsx:186 | dropping characters from inside the first line drops them from the first line |
| Machine.TextEcho | pages/vsml.tsx:152-201 | INA into a word followed by OUA of that word prints the text that was read |
| Machine.LoadState | pages/vsml.tsx:351-380 | a load, with the accumulator read in the current width as the page does, leaves a well-formed state and never touches the output or the feed |
| Machine.LoadStateIntended | pages/vsml.tsx:351-380 | the corrected load, which reads the accumulator in the file's own width, leaves a well-formed state and never touches the output or the feed |
| Machine.LoadStatesAgree | pages/vsml.tsx:361 | the page's load and the corrected one agree unless a v2 file was saved at another width than the current one |
| Machine.SaveLoadState | pages/vsml.tsx:333-364 | loading what was saved from one state into any other restores O, W, PC and every memory word; the accumulator is the saved unsigned word read in the current width and wrapped to the saved one |
| Machine.SaveLoadStateWider | pages/vsml.tsx:333-364 | loaded while the width is at least the saved one, a saved state comes back exactly |
| Machine.SaveLoadStateIntended | pages/vsml.tsx:333-364 | with the corrected load, a saved state comes back exactly whatever state it is loaded into |
| Machine.UnrecognisedUnchanged | pages/vsml.tsx:355-359 | a text matching neither header changes nothing, in the page's load and in the corrected one |
| Machine.MalformedKeepsMemory | pages/vsml.tsx:360-364 | a bad data line leaves memory as it was, with the header's O, W and PC applied |
| Machine.WordWidthChanged | pages/vsml.tsx:258-273 | changing W keeps the memory length, O, PC, output and feed, and leaves a well-formed state |
| Machine.WordWidthRoundTrip | pages/vsml.tsx:258-273 | widening W and narrowing it back, answering every prompt with no exemptions, restores the state |
| Machine.OpcodeWidthChanged | pages/vsml.tsx:276-306 | changing O keeps W, PC, the accumulator, output and feed, and O becomes the new width or stays; with W = O = 4 and 5 chosen nothing changes, and the page fails exactly when every word is zero |
| Machine.OpcodeWidenRestores | pages/vsml.tsx:279-305 | 4-to-5 then 5-to-4 restores a state whose words fit W and have the top address bit clear |
| Machine.OpcodeNarrowRestores | pages/vsml.tsx:279-305 | 5-to-4 then 4-to-5 restores a state whose opcodes fit in 4 bits |
| Controls.Initial | pages/vsml.tsx:55-70 | the opening state is well formed, with a 12-bit address field |
| Controls.ResetRegisters | pages/vsml.tsx:324-325 | Reset sets PC and the accumulator to 0, changes nothing else, and a second Reset does nothing |
| Controls.NewClears | pages/vsml.tsx:315-321 | a confirmed New on a memory with data gives sixteen zero words and PC and accumulator 0; otherwise nothing changes |
| Controls.NewIdempotent | pages/vsml.tsx:315 | after a confirmed New, a second New changes nothing |
| Controls.RowsAddedExtends | pages/vsml.tsx:443 | Add rows appends k zero words, changes nothing else, and the next step reads the same words |
| Controls.SelectedFields | pages/vsml.tsx:568 | the selector writes only word i, with the chosen entry's index as opcode and the old address, within W bits when the entry is on offer |
| Controls.SelectedExecutes | pages/vsml.tsx:568 | the entry selected for the word at PC is the instruction the next step decodes |
| Controls.PickedFields | pages/vsml.tsx:94-96 | clicking a row beyond the address range changes nothing; otherwise the word keeps its opcode and takes the row index as address |
| Controls.TypedFields | pages/vsml.tsx:92 | typed binary digits become the word's address field, keeping its opcode and every other word; the update fails exactly when the text is empty |
| Controls.TypedAgreesWithPicked | pages/vsml.tsx:92-96 | typing a row's index in binary and clicking that row write the same word |
| Simulator.Processor.constructor | pages/vsml.tsx:55-70 | a new processor holds the opening state |
| Simulator.Processor.SetDataItem | pages/vsml.tsx:71-77 | the in-place update gives memory `SetItem(mem, i, v)` and keeps every other field |
| Simulator.Processor.Step | pages/vsml.tsx:115-224 | the fields after `runStep` are `Exec`'s next state and the outcome is `Exec`'s |
| Simulator.Processor.Fetch | pages/vsml.tsx:116-131 | the fetch decodes the word at PC, reads the operand and writes zeros over missing words, as `Touched` says |
| Simulator.Processor.Apply | pages/vsml.tsx:133-219 | the fields after the instruction's case are `Effect`'s state |
| Simulator.Processor.StoreInput | pages/vsml.tsx:168-169 | address 0 stores to the accumulator; any other address, to that word |
| Simulator.Processor.Reset | pages/vsml.tsx:323-326 | the fields become `Controls.Reset` of the old ones |
| Simulator.Processor.New | pages/vsml.tsx:314-322 | the search for a nonzero word and the confirmed clear give `Controls.Cleared` |
| Simulator.Processor.AddRows | pages/vsml.tsx:443 | memory gains k zero words |
| Simulator.Processor.SelectInstruction | pages/vsml.tsx:568 | the fields become `Controls.InstructionSelected` |
| Simulator.Processor.TypeLocation | pages/vsml.tsx:92 | the fields become `Controls.LocationTyped`, and the failure it reports for an empty text is the one `Controls.LocationTyped` gives |
| Simulator.Processor.PickLocation | pages/vsml.tsx:94-96 | the fields become `Controls.LocationPicked` |
| Simulator.Processor.ChangeWordWidth | pages/vsml.tsx:258-273 | the fields become `Machine.WordWidthChanged`; `inBounds` renormalises the accumulator |
| Simulator.Processor.ChangeOpcodeWidth | pages/vsml.tsx:276-306 | the fields become `Machine.OpcodeWidthChanged`, and the failure it reports is the one that function gives |
| Simulator.Processor.Save | pages/vsml.tsx:333 | the text is the v2 save text of the fields |
| Simulator.Processor.Load | pages/vsml.tsx:357-380 | the fields become `Machine.LoadState` of the text |
| Simulator.Processor.LoadIntended | pages/vsml.tsx:357-380 | the fields become `Machine.LoadStateIntended` of the text |
| Simulator.Processor.Restore | pages/vsml.tsx:361-380 | the registers, and memory when it was restored, are set from the load's outcome, the accumulator through `inBounds` |
| Simulator.Processor.ToggleAutoInput | pages/vsml.tsx:399 | the checkbox flips only the feed switch |
| Simulator.Processor.SetInputFeed | pages/vsml.tsx:400 | the text area replaces only the feed |
| Simulator.Processor.SetOutput | pages/vsml.tsx:401 | editing the output text area changes only the output |

## Left out

- Rendering, styling and the page's other components: they hold no processor logic.
- The run loop (`pages/vsml.tsx:226-238`) and the speed slider (`:311`): these are timing and floating point. `Simulator.Processor.Step` is what the loop calls.
- `alert`, `confirm` and `prompt` are browser I/O. Their results are parameters: `confirmed` for New, `answer` for the exemption prompts (None means cancelled), and `Typed` for the number or text the user enters at INP or INA.
- The interactive re-prompt loops of INP and INA (`:172-178`, `:192-199`) are not modelled as loops. The model takes the first accepted answer. `Machine.Accepted` says which INA answers the loop accepts.
- The exemption list is taken as already parsed into indices. The `Number()` conversion of the prompt's text and its NaN entries are not modelled.
- Add rows with a count that is not a natural number is not modelled. The input field can give a negative or fractional count, which makes `new Array` throw.
- Typing a whole word in binary or decimal into a row's value field (`:536-552`) is left out. That editor lies outside the processor core.
- File download, `FileReader` and the sample loader (`:334-342`, `:351`, `:385-395`) are left out. The model keeps only the text that is saved and loaded. The sample loader's own copy of the v2 parsing is the same as the file loader's, but without the blank-line filter.
- An auto-input INP whose first line `BigInt` cannot parse makes the page throw (`inp = 0` mixes Number and BigInt). The model ends such a step with the outcome `InputError`. It keeps the fetch's memory writes and nothing else.
- INA packs with JavaScript's 32-bit `<<`, whose shift count is taken modulo 32. The model packs with `256^(i mod 4)`, which is the same shift for any number of characters. For codes up to 127 the 32-bit result stays positive. The round-trip lemmas assume at most four characters, because a fifth lands on the first one's byte.
- A v1 file whose width is outside 4-31 yields `Unsupported`. The page's 32-bit `Number` arithmetic on such a file is not modelled.
- A v2 header with W below O yields `Unsupported`, and the state is unchanged. The page would fail while rendering, on a negative exponent.
- Strings are sequences of characters. UTF-16 surrogate pairs and `charCodeAt` above the basic plane are not modelled.
- `bigPow` evaluates `2n ** n` through `eval`. It is modelled as the plain power `Pow2`.
- The word-width slider's guard `e.target.value === archi` compares a string with a BigInt, so it never holds. Releasing the slider at the same width therefore runs the rewrite anyway. `Reconfig.RefitSameWidth` shows that this rewrite changes nothing.
- Loading is not atomic. A v2 data line that does not parse leaves the registers already set (`Codec.MalformedDataLine`).
- Machine.OpcodeWidthChanged and Simulator.Processor.ChangeOpcodeWidth: with W = O = 4 and 5-bit opcodes chosen over an all-zero memory, the page sets O to 5 and then fails while rendering, on `bigPow(2n, -1n)` (`:532`). The model gives the outcome None and keeps the fields; what the page shows after the error is not modelled.
- Words.InBounds, Alu.AccAfter: running time and the engine's BigInt size limit are not modelled. `inBounds` (`:104-111`) adds or subtracts 2^W once per pass, so a result far out of range (SHL by a large operand, MUL of two large words at W = 64, a huge INP number) makes the page loop for an impractically long time. A shift or rotate by an operand of 2^30 or more builds a BigInt past the engine's limit, so the page throws after the fetch writes. In all these cases the model gives the mathematical value and continues.
- Machine.LoadState and Simulator.Processor.Load: the load's state updates (`:360-363`, `:367-370`) run in a `FileReader` callback. The model assumes React 18, which batches them into one render, so the accumulator is renormalised once, at the file's W. Under React 17 each update would render at once, and the accumulator would first be wrapped at the current W.
- Controls.LocationTyped: an empty typed address makes `BigInt('0b')` throw inside the memory update, and nothing catches it, so the page stops with an error. The model gives the outcome None and `Simulator.Processor.TypeLocation` keeps its fields; what the page shows after the error is not modelled.
- Words.BitAnd: the contract gives only bounds. The bitwise meaning is used through `Words.AndMask`, which states the mask case the page relies on.
- Words.BitOr: the contract gives only bounds, not the bitwise meaning.
- Words.BitXor: the contract gives only an upper bound, not the bitwise meaning.

## Findings

| source | as written | input that shows it | evidently intended | confidence | as-written member | corrected member |
|---|---|---|---|---|---|---|
| pages/vsml.tsx:361 | the v2 loader reads the saved unsigned accumulator with `decToTcDec`, which uses the current word width, before it sets W from the file | save at W = 16 with accumulator 200, then load while W = 8: the accumulator becomes -56 | read the accumulator in the file's own width, so a saved state loads back exactly | high, not executed | Codec.NarrowerWidthCorrupts | Codec.SaveLoadIntended |

At the state level, `Machine.LoadState` and `Simulator.Processor.Load` follow the page, and `Machine.SaveLoadState` states what such a load restores. `Machine.LoadStateIntended`, `Simulator.Processor.LoadIntended` and `Machine.SaveLoadStateIntended` are the corrected load and its exact round trip.
