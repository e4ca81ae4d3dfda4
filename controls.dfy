/** The controls around the processor: the state the page opens with, the
    New, Reset and Add-rows buttons, and the per-word instruction selector
    and address editor. Each is a function from the state before to the
    state after. */
module Controls {
  import opened Words
  import opened Isa
  import opened Text
  import opened Machine

  /** The state the page opens with: 16-bit words, 4-bit opcodes, sixteen
      zero words, PC and accumulator 0, no output, the feed off and empty. */
  function Initial(): (r: State)
    ensures WellFormed(r) && AddressWidth(r) == 12
  {
    State(16, 4, 0, 0, Zeros(16), "", false, "")
  }

  /** Some word in memory is nonzero. */
  predicate HasData(mem: seq<nat>)
  {
    exists j :: 0 <= j < |mem| && mem[j] != 0
  }

  /** Reset: PC and the accumulator go back to 0. */
  function Reset(s: State): (r: State)
  {
    s.(pc := 0, acc := 0)
  }

  /** New: when some word is nonzero and the user confirms, memory becomes
      sixteen zero words and PC and the accumulator 0. An all-zero memory
      returns before asking, so nothing at all changes then. */
  function Cleared(s: State, confirmed: bool): (r: State)
  {
    if HasData(s.mem) && confirmed then Reset(s).(mem := Zeros(16)) else s
  }

  /** Add rows: k zero words appended to memory. */
  function RowsAdded(s: State, k: nat): (r: State)
  {
    s.(mem := s.mem + Zeros(k))
  }

  /** The instruction selector of word i: the opcode field becomes the
      chosen entry's catalogue index and the address field is kept. The
      menu offers the first 2^O entries. */
  function InstructionSelected(s: State, i: nat, m: Mnemonic): (r: State)
    requires i < |s.mem|
  {
    var aw := AddressWidth(s);
    s.(mem := SetItem(s.mem, i, Encode(OpcodeOf(m), Address(s.mem[i], aw), aw)))
  }

  /** Leaving the address editor of word i by clicking outside the table:
      the typed binary digits replace the address field. An empty text
      makes `BigInt('0b')` throw inside the memory update, which the page
      does not catch: that outcome is None. */
  function LocationTyped(s: State, i: nat, bits: string): (r: Option<State>)
    requires IsDigits(bits, 2)
  {
    if bits == [] then None
    else Some(s.(mem := SetItem(s.mem, i, WithAddress(Get(s.mem, i), ValueIn(bits, 2), AddressWidth(s)))))
  }

  /** Leaving the address editor of word i by clicking row `index`: that
      row's index replaces the address field, unless it is beyond the
      address range, which only raises an alert. */
  function LocationPicked(s: State, i: nat, index: nat): (r: State)
  {
    var aw := AddressWidth(s);
    if index > Pow2(aw) - 1 then s
    else s.(mem := SetItem(s.mem, i, WithAddress(Get(s.mem, i), index, aw)))
  }

  // ---------------------------------------------------------------------
  // New, Reset, Add rows

  /** Reset touches only PC and the accumulator, keeps the state well
      formed, and a second Reset changes nothing. */
  lemma {:induction false} ResetRegisters(s: State)
    requires WellFormed(s)
    ensures WellFormed(Reset(s)) && Reset(Reset(s)) == Reset(s)
    ensures Reset(s).pc == 0 && Reset(s).acc == 0 && Current(Reset(s)) == Get(s.mem, 0)
    ensures Reset(s).(pc := s.pc, acc := s.acc) == s
  {
    assert InRange(0, s.w) by { assert Pow2(s.w - 1) >= 1; }
  }

  /** A confirmed New on a memory holding data gives the opening memory and
      registers, keeping the widths, the output and the feed; declined, or
      on an all-zero memory, it changes nothing (not even PC). */
  lemma {:induction false} NewClears(s: State, confirmed: bool)
    requires WellFormed(s)
    ensures WellFormed(Cleared(s, confirmed))
    ensures HasData(s.mem) && confirmed ==>
      Cleared(s, confirmed) == Initial().(w := s.w, o := s.o, output := s.output, auto := s.auto, queue := s.queue)
    ensures !(HasData(s.mem) && confirmed) ==> Cleared(s, confirmed) == s
  {
    ResetRegisters(s);
  }

  /** After a confirmed New a second New changes nothing, confirmed or not:
      the memory the first leaves holds no data. */
  lemma {:induction false} NewIdempotent(s: State, second: bool)
    ensures Cleared(Cleared(s, true), second) == Cleared(s, true)
  {
    if HasData(s.mem) {
      assert !HasData(Zeros(16));
    }
  }

  /** Missing words read as zero, so appending zero words changes no read. */
  lemma {:induction false} ZeroExtendedReads(a: seq<nat>, b: seq<nat>, i: nat)
    requires ZeroExtended(a, b)
    ensures Get(b, i) == Get(a, i)
  {
    if i < |a| {
      assert b[..|a|][i] == b[i];
    }
  }

  /** Added rows are zero words after the old ones, so the next step
      fetches, decodes and reads the same words as before. */
  lemma {:induction false} RowsAddedExtends(s: State, k: nat)
    ensures var r := RowsAdded(s, k);
      |r.mem| == |s.mem| + k && ZeroExtended(s.mem, r.mem) && r.(mem := s.mem) == s &&
      Current(r) == Current(s) && Decoded(r) == Decoded(s) && Target(r) == Target(s)
  {
    var r := RowsAdded(s, k);
    assert r.mem[..|s.mem|] == s.mem;
    ZeroExtendedReads(s.mem, r.mem, s.pc);
    ZeroExtendedReads(s.mem, r.mem, Operand(s));
  }

  // ---------------------------------------------------------------------
  // Editing one word

  /** The selector writes word i only: its opcode field becomes the
      chosen entry's catalogue index, its address field is kept, and it fits
      in W bits when the entry is on offer. */
  lemma {:induction false} SelectedFields(s: State, i: nat, m: Mnemonic)
    requires WellFormed(s) && i < |s.mem|
    ensures var r := InstructionSelected(s, i, m); var aw := AddressWidth(s);
      |r.mem| == |s.mem| && r.(mem := s.mem) == s &&
      Opcode(r.mem[i], aw) == OpcodeOf(m) && Address(r.mem[i], aw) == Address(s.mem[i], aw) &&
      (forall j :: 0 <= j < |s.mem| && j != i ==> r.mem[j] == s.mem[j]) &&
      (Offered(m, s.o) ==> r.mem[i] < Pow2(s.w))
  {
    var aw := AddressWidth(s);
    SelectedWord(s.mem[i], m, s.o, aw);
    assert s.o + aw == s.w;
  }

  /** The entry selected at PC is the instruction the next step executes. */
  lemma {:induction false} SelectedExecutes(s: State, m: Mnemonic)
    requires WellFormed(s) && s.pc < |s.mem|
    ensures Decoded(InstructionSelected(s, s.pc, m)) == Some(m)
  {
    SelectedWord(s.mem[s.pc], m, s.o, AddressWidth(s));
  }

  /** The word the selector builds from `word`: opcode field the catalogue
      index of m, address field that of `word`, and at most o + aw bits when
      m is among the first 2^o entries. */
  lemma {:induction false} SelectedWord(word: nat, m: Mnemonic, o: nat, aw: nat)
    ensures var v := Encode(OpcodeOf(m), Address(word, aw), aw);
      Opcode(v, aw) == OpcodeOf(m) && Address(v, aw) == Address(word, aw) &&
      (Offered(m, o) ==> v < Pow2(o + aw))
  {
    var addr := Address(word, aw);
    AddressIsLowBits(word, aw);
    DecodeEncode(OpcodeOf(m), addr, aw);
    if Offered(m, o) {
      EncodedFits(OpcodeOf(m), addr, o, aw);
      Pow2Add(o, aw);
    }
  }

  /** An opcode below 2^o and an address below 2^aw encode below 2^o * 2^aw. */
  lemma {:induction false} EncodedFits(op: nat, addr: nat, o: nat, aw: nat)
    requires op < Pow2(o) && addr < Pow2(aw)
    ensures Encode(op, addr, aw) < Pow2(o) * Pow2(aw)
  {
    MulAtLeastBy(Pow2(o) - 1, op, Pow2(aw));
    assert (Pow2(o) - 1) * Pow2(aw) + Pow2(aw) == Pow2(o) * Pow2(aw);
  }

  /** Writing an in-range address into word i keeps its opcode field and
      every other word; at PC, the next step keeps its instruction and
      takes the new operand. */
  lemma {:induction false} AddressWritten(s: State, i: nat, addr: nat, r: State)
    requires WellFormed(s) && addr < Pow2(AddressWidth(s))
    requires r == s.(mem := SetItem(s.mem, i, WithAddress(Get(s.mem, i), addr, AddressWidth(s))))
    ensures Opcode(r.mem[i], AddressWidth(s)) == Opcode(Get(s.mem, i), AddressWidth(s))
    ensures Address(r.mem[i], AddressWidth(s)) == addr
    ensures forall j :: 0 <= j < |s.mem| && j != i ==> r.mem[j] == s.mem[j]
    ensures i == s.pc ==> Decoded(r) == Decoded(s) && Operand(r) == addr
  {
    WithAddressFields(Get(s.mem, i), addr, AddressWidth(s));
  }

  /** Picking row `index`: beyond the address range nothing changes;
      otherwise word i keeps its opcode and takes `index` as its address,
      memory growing only if word i lay beyond its end. */
  lemma {:induction false} PickedFields(s: State, i: nat, index: nat)
    requires WellFormed(s)
    ensures var r := LocationPicked(s, i, index); var aw := AddressWidth(s);
      (index >= Pow2(aw) ==> r == s) &&
      (index < Pow2(aw) ==>
        |r.mem| == (if i < |s.mem| then |s.mem| else i + 1) && r.(mem := s.mem) == s &&
        Opcode(r.mem[i], aw) == Opcode(Get(s.mem, i), aw) && Address(r.mem[i], aw) == index &&
        (forall j :: 0 <= j < |s.mem| && j != i ==> r.mem[j] == s.mem[j]) &&
        (i == s.pc ==> Decoded(r) == Decoded(s) && Operand(r) == index))
  {
    if index < Pow2(AddressWidth(s)) {
      AddressWritten(s, i, index, LocationPicked(s, i, index));
    }
  }

  /** Typing at most W - O binary digits: word i keeps its opcode and takes
      their value as its address; the update fails exactly when the text
      is empty. */
  lemma {:induction false} TypedFields(s: State, i: nat, bits: string)
    requires WellFormed(s) && IsDigits(bits, 2)
    ensures var r := LocationTyped(s, i, bits); var aw := AddressWidth(s);
      (r == None <==> bits == []) &&
      (bits != [] && |bits| <= aw ==>
        r.value.(mem := s.mem) == s &&
        Opcode(r.value.mem[i], aw) == Opcode(Get(s.mem, i), aw) && Address(r.value.mem[i], aw) == ValueIn(bits, 2) &&
        (forall j :: 0 <= j < |s.mem| && j != i ==> r.value.mem[j] == s.mem[j]) &&
        (i == s.pc ==> Decoded(r.value) == Decoded(s) && Operand(r.value) == ValueIn(bits, 2)))
  {
    if bits != [] && |bits| <= AddressWidth(s) {
      BinBound(bits);
      Pow2Monotone(|bits|, AddressWidth(s));
      AddressWritten(s, i, ValueIn(bits, 2), LocationTyped(s, i, bits).value);
    }
  }

  /** Typing the binary digits of a row index and clicking that row write
      the same word. */
  lemma {:induction false} TypedAgreesWithPicked(s: State, i: nat, bits: string)
    requires WellFormed(s) && IsDigits(bits, 2) && bits != [] && |bits| <= AddressWidth(s)
    ensures LocationTyped(s, i, bits) == Some(LocationPicked(s, i, ValueIn(bits, 2)))
  {
    BinBound(bits);
    Pow2Monotone(|bits|, AddressWidth(s));
  }
}
