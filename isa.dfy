/** The VSML instruction catalogue and the split of a word into an opcode
    field (the top O bits of a W-bit word) and an address field (the low
    W - O bits). */
module Isa {
  import opened Words

  /** The mnemonics, one per catalogue entry. */
  datatype Mnemonic =
    | HLT | LDA | STA | ADD | SUB | MUL | DIV | MOD
    | JMP | JEQ | JLT | OUT | OUA | INP | INA | NOP
    | ADDS | SUBS | MULS | DIVS | MODS | AND | OR | XOR
    | NOT | ADB | SHR | SHL | ROR | ROL | CMP | CMPS

  /** The catalogue in opcode order. It is indexed by the opcode field
      whatever the opcode width, so all 32 entries are reachable. */
  const Catalogue: seq<Mnemonic> := [
    HLT, LDA, STA, ADD, SUB, MUL, DIV, MOD,
    JMP, JEQ, JLT, OUT, OUA, INP, INA, NOP,
    ADDS, SUBS, MULS, DIVS, MODS, AND, OR, XOR,
    NOT, ADB, SHR, SHL, ROR, ROL, CMP, CMPS
  ]

  /** Instructions that neither read nor auto-extend memory at their address. */
  const NonTargetIns: seq<Mnemonic> := [HLT, ADDS, SUBS, MULS, DIVS, MODS, NOT, ROR, ROL]

  predicate UsesTarget(m: Mnemonic)
  {
    m !in NonTargetIns
  }

  /** The position of a mnemonic in the catalogue (`instructions.indexOf`). */
  function OpcodeOf(m: Mnemonic): (op: nat)
    ensures op < |Catalogue| && Catalogue[op] == m
  {
    match m
    case HLT => 0  case LDA => 1  case STA => 2  case ADD => 3
    case SUB => 4  case MUL => 5  case DIV => 6  case MOD => 7
    case JMP => 8  case JEQ => 9  case JLT => 10 case OUT => 11
    case OUA => 12 case INP => 13 case INA => 14 case NOP => 15
    case ADDS => 16 case SUBS => 17 case MULS => 18 case DIVS => 19
    case MODS => 20 case AND => 21 case OR => 22 case XOR => 23
    case NOT => 24 case ADB => 25 case SHR => 26 case SHL => 27
    case ROR => 28 case ROL => 29 case CMP => 30 case CMPS => 31
  }

  /** The catalogue lists each mnemonic once: OpcodeOf inverts indexing. */
  lemma {:induction false} CatalogueIndex(op: nat)
    requires op < |Catalogue|
    ensures OpcodeOf(Catalogue[op]) == op
  {
    if op < 16 {
      if op < 4 { CatalogueRow0(op); }
      else if op < 8 { CatalogueRow1(op); }
      else if op < 12 { CatalogueRow2(op); }
      else { CatalogueRow3(op); }
    } else {
      if op < 20 { CatalogueRow4(op); }
      else if op < 24 { CatalogueRow5(op); }
      else if op < 28 { CatalogueRow6(op); }
      else { CatalogueRow7(op); }
    }
  }

  /** CatalogueIndex four entries at a time, one literal case per opcode, so
      that each index into the catalogue is evaluated. */
  lemma {:induction false} CatalogueRow0(op: nat)
    requires 0 <= op < 4
    ensures OpcodeOf(Catalogue[op]) == op
  {
    if op == 0 { } else if op == 1 { } else if op == 2 { } else { }
  }

  lemma {:induction false} CatalogueRow1(op: nat)
    requires 4 <= op < 8
    ensures OpcodeOf(Catalogue[op]) == op
  {
    if op == 4 { } else if op == 5 { } else if op == 6 { } else { }
  }

  lemma {:induction false} CatalogueRow2(op: nat)
    requires 8 <= op < 12
    ensures OpcodeOf(Catalogue[op]) == op
  {
    if op == 8 { } else if op == 9 { } else if op == 10 { } else { }
  }

  lemma {:induction false} CatalogueRow3(op: nat)
    requires 12 <= op < 16
    ensures OpcodeOf(Catalogue[op]) == op
  {
    if op == 12 { } else if op == 13 { } else if op == 14 { } else { }
  }

  lemma {:induction false} CatalogueRow4(op: nat)
    requires 16 <= op < 20
    ensures OpcodeOf(Catalogue[op]) == op
  {
    if op == 16 { } else if op == 17 { } else if op == 18 { } else { }
  }

  lemma {:induction false} CatalogueRow5(op: nat)
    requires 20 <= op < 24
    ensures OpcodeOf(Catalogue[op]) == op
  {
    if op == 20 { } else if op == 21 { } else if op == 22 { } else { }
  }

  lemma {:induction false} CatalogueRow6(op: nat)
    requires 24 <= op < 28
    ensures OpcodeOf(Catalogue[op]) == op
  {
    if op == 24 { } else if op == 25 { } else if op == 26 { } else { }
  }

  lemma {:induction false} CatalogueRow7(op: nat)
    requires 28 <= op < 32
    ensures OpcodeOf(Catalogue[op]) == op
  {
    if op == 28 { } else if op == 29 { } else if op == 30 { } else { }
  }

  /** The entries offered for opcode width o: the first 2^o of the catalogue. */
  predicate Offered(m: Mnemonic, o: nat)
  {
    OpcodeOf(m) < Pow2(o)
  }

  /** `word >> addressWidth`. */
  function Opcode(word: nat, aw: nat): nat
  {
    DivNatural(word, Pow2(aw));
    word / Pow2(aw)
  }

  /** `word & (2^addressWidth - 1)`. */
  function Address(word: nat, aw: nat): nat
  {
    BitAnd(word, Pow2(aw) - 1)
  }

  /** `(opcode << addressWidth) + address`, as the instruction selector builds it. */
  function Encode(op: nat, addr: nat, aw: nat): nat
  {
    op * Pow2(aw) + addr
  }

  /** The address field is the word's remainder modulo 2^addressWidth. */
  lemma {:induction false} AddressIsLowBits(word: nat, aw: nat)
    ensures Address(word, aw) == word % Pow2(aw)
    ensures Address(word, aw) < Pow2(aw)
  {
    AndMask(word, aw);
  }

  /** Decoding an encoded instruction gives back its opcode and address. */
  lemma {:induction false} DecodeEncode(op: nat, addr: nat, aw: nat)
    requires addr < Pow2(aw)
    ensures Opcode(Encode(op, addr, aw), aw) == op
    ensures Address(Encode(op, addr, aw), aw) == addr
  {
    DivModUnique(Encode(op, addr, aw), Pow2(aw), op, addr);
    AddressIsLowBits(Encode(op, addr, aw), aw);
  }

  /** Every word is the encoding of its own fields. */
  lemma {:induction false} EncodeDecode(word: nat, aw: nat)
    ensures Encode(Opcode(word, aw), Address(word, aw), aw) == word
  {
    AddressIsLowBits(word, aw);
  }

  /** `(value >> aw << aw) + addr`: the word with its address field replaced. */
  function WithAddress(word: nat, addr: nat, aw: nat): nat
  {
    ShiftLeft(Opcode(word, aw), aw) + addr
  }

  /** Replacing the address field by an in-range index keeps the opcode field. */
  lemma {:induction false} WithAddressFields(word: nat, addr: nat, aw: nat)
    requires addr < Pow2(aw)
    ensures Opcode(WithAddress(word, addr, aw), aw) == Opcode(word, aw)
    ensures Address(WithAddress(word, addr, aw), aw) == addr
  {
    assert WithAddress(word, addr, aw) == Encode(Opcode(word, aw), addr, aw);
    DecodeEncode(Opcode(word, aw), addr, aw);
  }

  /** The opcode table of the legacy v1 format, indexed by legacy opcode. */
  const LegacyOpcodes: seq<nat> := [0, 1, 2, 3, 4, 5, 6, 8, 9, 10, 11, 13]

  /** A legacy opcode's current opcode; 12 to 15 have no entry and become 0,
      because `undefined << n` is 0. */
  function Remap(k: nat): nat
  {
    if k < |LegacyOpcodes| then LegacyOpcodes[k] else 0
  }

  /** Legacy opcodes keep their mnemonic's meaning: the first seven are
      unchanged, 7..11 move past MOD (jumps, OUT) and past OUA (INP), and
      the four unassigned values become HLT. */
  lemma {:induction false} RemapMeaning(k: nat)
    requires k < 16
    ensures k < 7 ==> Catalogue[Remap(k)] == Catalogue[k]
    ensures k == 7 ==> Catalogue[Remap(k)] == JMP
    ensures k == 8 ==> Catalogue[Remap(k)] == JEQ
    ensures k == 9 ==> Catalogue[Remap(k)] == JLT
    ensures k == 10 ==> Catalogue[Remap(k)] == OUT
    ensures k == 11 ==> Catalogue[Remap(k)] == INP
    ensures k >= 12 ==> Catalogue[Remap(k)] == HLT
    ensures Remap(k) < 16
  {
  }
}
