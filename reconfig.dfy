/** Reinterpreting memory when the word width W or the opcode width O
    changes. A word whose opcode field is nonzero is treated as an
    instruction and rewritten so that it keeps its meaning under the new
    split; a word whose opcode field is zero, or whose index the user
    exempts, is left alone. */
module Reconfig {
  import opened Words
  import opened Isa
  import opened Text

  /** Keep the instruction, pad or trim the location: the rewrite done when
      the address width goes from aw to naw because W changed, or because O
      grew. `(v & (2^aw - 1) & (2^naw - 1)) + (ins << naw)`. */
  function Refit(v: nat, aw: nat, naw: nat): nat
  {
    var ins := Opcode(v, aw);
    if ins == 0 then v
    else BitAnd(BitAnd(v, Pow2(aw) - 1), Pow2(naw) - 1) + ShiftLeft(ins, naw)
  }

  /** Keep the location, trim the instruction to no bits: the rewrite done
      when O shrinks and the address field grows from aw to naw.
      `v - (ins << aw) + ((ins & (2^no - 1)) << naw)`. */
  function CutOpcode(v: nat, aw: nat, naw: nat, no: nat): nat
  {
    var ins := Opcode(v, aw);
    if ins == 0 then v
    else
      EncodeDecode(v, aw);
      v - ShiftLeft(ins, aw) + ShiftLeft(BitAnd(ins, Pow2(no) - 1), naw)
  }

  /** A refitted instruction has the same opcode, and its address is the
      old address cut to the new field. */
  lemma {:induction false} RefitFields(v: nat, aw: nat, naw: nat)
    requires Opcode(v, aw) > 0
    ensures Opcode(Refit(v, aw, naw), naw) == Opcode(v, aw)
    ensures Address(Refit(v, aw, naw), naw) == Address(v, aw) % Pow2(naw)
  {
    AddressIsLowBits(v, aw);
    AndMask(Address(v, aw), naw);
    var a := Address(v, aw) % Pow2(naw);
    assert Refit(v, aw, naw) == Encode(Opcode(v, aw), a, naw);
    DecodeEncode(Opcode(v, aw), a, naw);
  }

  /** A trimmed instruction has the same address, and its opcode is the old
      opcode cut to no bits. */
  lemma {:induction false} CutOpcodeFields(v: nat, aw: nat, naw: nat, no: nat)
    requires Opcode(v, aw) > 0 && aw <= naw
    ensures Opcode(CutOpcode(v, aw, naw, no), naw) == Opcode(v, aw) % Pow2(no)
    ensures Address(CutOpcode(v, aw, naw, no), naw) == Address(v, aw)
  {
    var ins := Opcode(v, aw);
    EncodeDecode(v, aw);
    AddressIsLowBits(v, aw);
    AndMask(ins, no);
    Pow2Monotone(aw, naw);
    var a := Address(v, aw);
    assert CutOpcode(v, aw, naw, no) == Encode(ins % Pow2(no), a, naw);
    DecodeEncode(ins % Pow2(no), a, naw);
  }

  /** A word whose opcode field is zero fits in its address field. */
  lemma {:induction false} DataWordIsSmall(v: nat, aw: nat)
    requires Opcode(v, aw) == 0
    ensures v < Pow2(aw) && Address(v, aw) == v
  {
    EncodeDecode(v, aw);
    AddressIsLowBits(v, aw);
  }

  /** Two words with the same fields are the same word. */
  lemma {:induction false} SameFields(x: nat, y: nat, aw: nat)
    requires Opcode(x, aw) == Opcode(y, aw) && Address(x, aw) == Address(y, aw)
    ensures x == y
  {
    EncodeDecode(x, aw);
    EncodeDecode(y, aw);
  }

  /** Widening the address field and narrowing it back restores every word. */
  lemma {:induction false} RefitRoundTrip(v: nat, aw: nat, naw: nat)
    requires aw <= naw
    ensures Refit(Refit(v, aw, naw), naw, aw) == v
  {
    Pow2Monotone(aw, naw);
    if Opcode(v, aw) == 0 {
      DataWordIsSmall(v, aw);
      DivModUnique(v, Pow2(naw), 0, v);
    } else {
      var v' := Refit(v, aw, naw);
      RefitFields(v, aw, naw);
      AddressIsLowBits(v, aw);
      DivModUnique(Address(v, aw), Pow2(naw), 0, Address(v, aw));
      RefitFields(v', naw, aw);
      AddressIsLowBits(v', naw);
      DivModUnique(Address(v, aw), Pow2(aw), 0, Address(v, aw));
      SameFields(Refit(v', naw, aw), v, aw);
    }
  }

  /** `(value >> (aw - 1)) & 1`: the top bit of the address field, which a
      one-bit wider opcode field takes over. With no address field the
      shift goes left and the bit is 0. */
  predicate TopAddressBit(v: nat, aw: nat)
  {
    aw >= 1 && (v / Pow2(aw - 1)) % 2 == 1
  }

  /** Below 2h, the quotient by h is a single bit telling whether a >= h. */
  lemma {:induction false} HalfDigit(a: int, h: int)
    requires h > 0 && 0 <= a < 2 * h
    ensures a / h == (if a < h then 0 else 1)
  {
    if a < h {
      DivModUnique(a, h, 0, a);
    } else {
      DivModUnique(a, h, 1, a - h);
    }
  }

  /** In v = ins * 2h + a with a < 2h, bit "h" of v is set exactly when a >= h. */
  lemma {:induction false} MiddleBit(v: int, ins: int, a: int, h: int)
    requires h > 0 && ins >= 0 && 0 <= a < 2 * h && v == ins * (2 * h) + a
    ensures (v / h) % 2 == 1 <==> a >= h
  {
    HalfDigit(a, h);
    var c := a / h;
    assert a == c * h + a % h;
    assert v == (2 * ins + c) * h + a % h;
    DivModUnique(v, h, 2 * ins + c, a % h);
    DivModUnique(2 * ins + c, 2, ins, c);
  }

  /** The top address bit is clear exactly when the address fits one bit less. */
  lemma {:induction false} TopAddressBitClear(v: nat, aw: nat)
    requires aw >= 1
    ensures !TopAddressBit(v, aw) <==> Address(v, aw) < Pow2(aw - 1)
  {
    var h := Pow2(aw - 1);
    assert Pow2(aw) == 2 * h;
    EncodeDecode(v, aw);
    AddressIsLowBits(v, aw);
    MiddleBit(v, Opcode(v, aw), Address(v, aw), h);
  }

  /** The opcode field of a word of width aw + o fits in o bits. */
  lemma {:induction false} OpcodeBound(v: nat, aw: nat, o: nat)
    requires v < Pow2(aw + o)
    ensures Opcode(v, aw) < Pow2(o)
  {
    Pow2Add(aw, o);
    EncodeDecode(v, aw);
    if Opcode(v, aw) >= Pow2(o) {
      MulAtLeastBy(Opcode(v, aw), Pow2(o), Pow2(aw));
    }
  }

  /** Growing O by one bit and shrinking it back restores every word of
      width aw + o whose top address bit is clear. */
  lemma {:induction false} WidenCutRoundTrip(v: nat, aw: nat, o: nat)
    requires aw >= 1 && v < Pow2(aw + o) && !TopAddressBit(v, aw)
    ensures CutOpcode(Refit(v, aw, aw - 1), aw - 1, aw, o) == v
  {
    TopAddressBitClear(v, aw);
    var a := Address(v, aw);
    if Opcode(v, aw) == 0 {
      DataWordIsSmall(v, aw);
      DivModUnique(v, Pow2(aw - 1), 0, v);
    } else {
      var ins := Opcode(v, aw);
      var v' := Refit(v, aw, aw - 1);
      RefitFields(v, aw, aw - 1);
      DivModUnique(a, Pow2(aw - 1), 0, a);
      CutOpcodeFields(v', aw - 1, aw, o);
      OpcodeBound(v, aw, o);
      DivModUnique(ins, Pow2(o), 0, ins);
      SameFields(CutOpcode(v', aw - 1, aw, o), v, aw);
    }
  }

  /** Shrinking O by one bit and growing it back restores every word whose
      instruction fits the smaller field. */
  lemma {:induction false} CutWidenRoundTrip(v: nat, aw: nat, o: nat)
    requires Opcode(v, aw) < Pow2(o)
    ensures Refit(CutOpcode(v, aw, aw + 1, o), aw + 1, aw) == v
  {
    Pow2Monotone(aw, aw + 1);
    var a := Address(v, aw);
    if Opcode(v, aw) == 0 {
      DataWordIsSmall(v, aw);
      DivModUnique(v, Pow2(aw + 1), 0, v);
    } else {
      var ins := Opcode(v, aw);
      var v' := CutOpcode(v, aw, aw + 1, o);
      CutOpcodeFields(v, aw, aw + 1, o);
      DivModUnique(ins, Pow2(o), 0, ins);
      RefitFields(v', aw + 1, aw);
      AddressIsLowBits(v, aw);
      DivModUnique(a, Pow2(aw), 0, a);
      SameFields(Refit(v', aw + 1, aw), v, aw);
    }
  }

  /** The memory after a W change or an O increase, with the given indices
      exempted. */
  function RefitAll(mem: seq<nat>, aw: nat, naw: nat, exempt: seq<int>): (r: seq<nat>)
    ensures |r| == |mem|
    ensures forall i :: 0 <= i < |mem| && (i in exempt || Opcode(mem[i], aw) == 0) ==> r[i] == mem[i]
    ensures forall i :: 0 <= i < |mem| && i !in exempt && Opcode(mem[i], aw) > 0 ==>
      Opcode(r[i], naw) == Opcode(mem[i], aw) && Address(r[i], naw) == Address(mem[i], aw) % Pow2(naw)
  {
    var r := seq(|mem|, i requires 0 <= i < |mem| => if i in exempt then mem[i] else Refit(mem[i], aw, naw));
    forall i | 0 <= i < |mem| && i !in exempt && Opcode(mem[i], aw) > 0
      ensures Opcode(r[i], naw) == Opcode(mem[i], aw) && Address(r[i], naw) == Address(mem[i], aw) % Pow2(naw)
    {
      RefitFields(mem[i], aw, naw);
    }
    r
  }

  /** The memory after an O decrease to no bits, with the given indices
      exempted. */
  function CutOpcodes(mem: seq<nat>, aw: nat, naw: nat, no: nat, exempt: seq<int>): (r: seq<nat>)
    requires aw <= naw
    ensures |r| == |mem|
    ensures forall i :: 0 <= i < |mem| && (i in exempt || Opcode(mem[i], aw) == 0) ==> r[i] == mem[i]
    ensures forall i :: 0 <= i < |mem| && i !in exempt && Opcode(mem[i], aw) > 0 ==>
      Opcode(r[i], naw) == Opcode(mem[i], aw) % Pow2(no) && Address(r[i], naw) == Address(mem[i], aw)
  {
    var r := seq(|mem|, i requires 0 <= i < |mem| => if i in exempt then mem[i] else CutOpcode(mem[i], aw, naw, no));
    forall i | 0 <= i < |mem| && i !in exempt && Opcode(mem[i], aw) > 0
      ensures Opcode(r[i], naw) == Opcode(mem[i], aw) % Pow2(no) && Address(r[i], naw) == Address(mem[i], aw)
    {
      CutOpcodeFields(mem[i], aw, naw, no);
    }
    r
  }

  /** How many words have an opcode field above the bound: with bound 0 the
      words a W change rewrites, with bound 15 the instructions an O
      decrease truncates. */
  function CountOpcodeAbove(mem: seq<nat>, aw: nat, bound: nat): nat
  {
    if mem == [] then 0
    else CountOpcodeAbove(mem[..|mem| - 1], aw, bound) + (if Opcode(mem[|mem| - 1], aw) > bound then 1 else 0)
  }

  /** How many words have their top address bit set: the locations an O
      increase cuts short. */
  function CountTopAddressBit(mem: seq<nat>, aw: nat): nat
  {
    if mem == [] then 0
    else CountTopAddressBit(mem[..|mem| - 1], aw) + (if TopAddressBit(mem[|mem| - 1], aw) then 1 else 0)
  }

  lemma {:induction false} CountOpcodeAboveZero(mem: seq<nat>, aw: nat, bound: nat)
    ensures CountOpcodeAbove(mem, aw, bound) == 0 <==> forall i :: 0 <= i < |mem| ==> Opcode(mem[i], aw) <= bound
  {
    if mem != [] {
      var init := mem[..|mem| - 1];
      CountOpcodeAboveZero(init, aw, bound);
      assert forall i :: 0 <= i < |init| ==> init[i] == mem[i];
    }
  }

  lemma {:induction false} CountTopAddressBitZero(mem: seq<nat>, aw: nat)
    ensures CountTopAddressBit(mem, aw) == 0 <==> forall i :: 0 <= i < |mem| ==> !TopAddressBit(mem[i], aw)
  {
    if mem != [] {
      var init := mem[..|mem| - 1];
      CountTopAddressBitZero(init, aw);
      assert forall i :: 0 <= i < |init| ==> init[i] == mem[i];
    }
  }

  /** When no word holds an instruction, a W change rewrites nothing. */
  lemma {:induction false} RefitWithoutConflicts(mem: seq<nat>, aw: nat, naw: nat, exempt: seq<int>)
    requires CountOpcodeAbove(mem, aw, 0) == 0
    ensures RefitAll(mem, aw, naw, exempt) == mem
  {
    CountOpcodeAboveZero(mem, aw, 0);
  }

  /** Setting the width it already has rewrites nothing. */
  lemma {:induction false} RefitSameWidth(mem: seq<nat>, aw: nat, exempt: seq<int>)
    ensures RefitAll(mem, aw, aw, exempt) == mem
  {
    var r := RefitAll(mem, aw, aw, exempt);
    forall i | 0 <= i < |mem|
      ensures r[i] == mem[i]
    {
      if i !in exempt && Opcode(mem[i], aw) > 0 {
        AddressIsLowBits(mem[i], aw);
        DivModUnique(Address(mem[i], aw), Pow2(aw), 0, Address(mem[i], aw));
        SameFields(r[i], mem[i], aw);
      }
    }
  }

  /** An O decrease to four bits keeps every instruction exactly when no
      opcode exceeds 15 (with no exemptions). */
  lemma {:induction false} CutKeepsInstructions(mem: seq<nat>, aw: nat, naw: nat)
    requires aw <= naw
    ensures (forall i :: 0 <= i < |mem| ==> Opcode(CutOpcodes(mem, aw, naw, 4, [])[i], naw) == Opcode(mem[i], aw))
      <==> CountOpcodeAbove(mem, aw, 15) == 0
  {
    var r := CutOpcodes(mem, aw, naw, 4, []);
    CountOpcodeAboveZero(mem, aw, 15);
    assert Pow2(4) == 16;
    forall i | 0 <= i < |mem|
      ensures Opcode(r[i], naw) == Opcode(mem[i], aw) <==> Opcode(mem[i], aw) <= 15
    {
      var ins := Opcode(mem[i], aw);
      if ins == 0 {
        DataWordIsSmall(mem[i], aw);
        Pow2Monotone(aw, naw);
        DivModUnique(mem[i], Pow2(naw), 0, mem[i]);
      } else if ins <= 15 {
        DivModUnique(ins, 16, 0, ins);
      }
    }
  }

  /** An O increase keeps every location exactly when no word has its top
      address bit set (with no exemptions). */
  lemma {:induction false} RefitKeepsLocations(mem: seq<nat>, aw: nat)
    requires aw >= 1
    ensures (forall i :: 0 <= i < |mem| ==> Address(RefitAll(mem, aw, aw - 1, [])[i], aw - 1) == Address(mem[i], aw))
      <==> CountTopAddressBit(mem, aw) == 0
  {
    var r := RefitAll(mem, aw, aw - 1, []);
    CountTopAddressBitZero(mem, aw);
    forall i | 0 <= i < |mem|
      ensures Address(r[i], aw - 1) == Address(mem[i], aw) <==> !TopAddressBit(mem[i], aw)
    {
      RefitWordKeepsAddress(mem[i], aw, r[i]);
    }
  }

  /** One word as an O increase rewrites it (a data word is kept, an
      instruction's address is cut to one bit fewer) keeps its address
      exactly when its top address bit is clear. */
  lemma {:induction false} RefitWordKeepsAddress(v: nat, aw: nat, x: nat)
    requires aw >= 1
    requires Opcode(v, aw) == 0 ==> x == v
    requires Opcode(v, aw) > 0 ==> Address(x, aw - 1) == Address(v, aw) % Pow2(aw - 1)
    ensures Address(x, aw - 1) == Address(v, aw) <==> !TopAddressBit(v, aw)
  {
    TopAddressBitClear(v, aw);
    ModKeeps(Address(v, aw), Pow2(aw - 1));
    if Opcode(v, aw) == 0 {
      DataWordIsSmall(v, aw);
      AddressIsLowBits(v, aw - 1);
    }
  }

  /** Reducing modulo p keeps a number exactly when it is below p. */
  lemma {:induction false} ModKeeps(a: nat, p: nat)
    requires p >= 1
    ensures a % p == a <==> a < p
  {
    if a < p {
      DivModUnique(a, p, 0, a);
    }
  }

  /** A W increase followed by the decrease back restores memory. */
  lemma {:induction false} RefitAllRoundTrip(mem: seq<nat>, aw: nat, naw: nat)
    requires aw <= naw
    ensures RefitAll(RefitAll(mem, aw, naw, []), naw, aw, []) == mem
  {
    var r := RefitAll(RefitAll(mem, aw, naw, []), naw, aw, []);
    forall i | 0 <= i < |mem|
      ensures r[i] == mem[i]
    {
      RefitRoundTrip(mem[i], aw, naw);
    }
  }

  /** An O increase by one bit followed by the decrease back restores every
      W-bit word when no top address bit was set. */
  lemma {:induction false} OpcodeWidenRoundTrip(mem: seq<nat>, aw: nat, o: nat)
    requires aw >= 1 && CountTopAddressBit(mem, aw) == 0
    requires forall i :: 0 <= i < |mem| ==> mem[i] < Pow2(aw + o)
    ensures CutOpcodes(RefitAll(mem, aw, aw - 1, []), aw - 1, aw, o, []) == mem
  {
    CountTopAddressBitZero(mem, aw);
    var r := CutOpcodes(RefitAll(mem, aw, aw - 1, []), aw - 1, aw, o, []);
    forall i | 0 <= i < |mem|
      ensures r[i] == mem[i]
    {
      WidenCutRoundTrip(mem[i], aw, o);
    }
  }

  /** An O decrease to four bits followed by the increase back restores
      memory when no opcode exceeded 15. */
  lemma {:induction false} OpcodeNarrowRoundTrip(mem: seq<nat>, aw: nat)
    requires CountOpcodeAbove(mem, aw, 15) == 0
    ensures RefitAll(CutOpcodes(mem, aw, aw + 1, 4, []), aw + 1, aw, []) == mem
  {
    CountOpcodeAboveZero(mem, aw, 15);
    assert Pow2(4) == 16;
    var r := RefitAll(CutOpcodes(mem, aw, aw + 1, 4, []), aw + 1, aw, []);
    forall i | 0 <= i < |mem|
      ensures r[i] == mem[i]
    {
      CutWidenRoundTrip(mem[i], aw, 4);
    }
  }

  // ---------------------------------------------------------------------
  // The prompts

  /** The exemptions in effect: none when no prompt was shown, otherwise
      the reply, where None is a cancelled prompt. */
  function Reply(prompted: bool, answer: Option<seq<int>>): (r: Option<seq<int>>)
    ensures !prompted ==> r == Some([])
    ensures prompted ==> r == answer
  {
    if prompted then answer else Some([])
  }

  /** Memory after the word width changes from address width aw to naw;
      the prompt appears when some word has a nonzero opcode field. None:
      cancelled, nothing changes. */
  function WordWidthMemory(mem: seq<nat>, aw: nat, naw: nat, answer: Option<seq<int>>): (r: Option<seq<nat>>)
    ensures r.Some? ==> |r.value| == |mem|
  {
    match Reply(CountOpcodeAbove(mem, aw, 0) > 0, answer)
    case None => None
    case Some(exempt) => Some(RefitAll(mem, aw, naw, exempt))
  }

  /** Memory after the opcode field grows by a bit, shrinking the address
      width aw by one; the prompt appears when some top address bit is
      set. */
  function WidenMemory(mem: seq<nat>, aw: nat, answer: Option<seq<int>>): (r: Option<seq<nat>>)
    ensures r.Some? ==> |r.value| == |mem|
    requires aw >= 1
  {
    match Reply(CountTopAddressBit(mem, aw) > 0, answer)
    case None => None
    case Some(exempt) => Some(RefitAll(mem, aw, aw - 1, exempt))
  }

  /** Memory after the opcode field shrinks to 4 bits, growing the address
      width aw by one; the prompt appears when some opcode is above 15. */
  function NarrowMemory(mem: seq<nat>, aw: nat, answer: Option<seq<int>>): (r: Option<seq<nat>>)
    ensures r.Some? ==> |r.value| == |mem|
  {
    match Reply(CountOpcodeAbove(mem, aw, 15) > 0, answer)
    case None => None
    case Some(exempt) => Some(CutOpcodes(mem, aw, aw + 1, 4, exempt))
  }

  /** A cancelled prompt changes nothing; without a prompt, or with a
      reply, every change goes through. */
  lemma {:induction false} CancelChangesNothing(mem: seq<nat>, aw: nat, naw: nat, answer: Option<seq<int>>)
    requires aw >= 1
    ensures WordWidthMemory(mem, aw, naw, answer) == None <==> CountOpcodeAbove(mem, aw, 0) > 0 && answer == None
    ensures WidenMemory(mem, aw, answer) == None <==> CountTopAddressBit(mem, aw) > 0 && answer == None
    ensures NarrowMemory(mem, aw, answer) == None <==> CountOpcodeAbove(mem, aw, 15) > 0 && answer == None
  {
  }

  /** After a word-width change every word is kept, and every instruction
      word not exempted at the prompt keeps its opcode and has its
      address padded or cut to the new width. */
  lemma {:induction false} WordWidthFields(mem: seq<nat>, aw: nat, naw: nat, exempt: seq<int>)
    ensures var r := WordWidthMemory(mem, aw, naw, Some(exempt));
      r.Some? && |r.value| == |mem|
      && (forall i :: 0 <= i < |mem| && (i in exempt || Opcode(mem[i], aw) == 0) ==> r.value[i] == mem[i])
      && (forall i :: 0 <= i < |mem| && i !in exempt && Opcode(mem[i], aw) > 0 ==>
            Opcode(r.value[i], naw) == Opcode(mem[i], aw) && Address(r.value[i], naw) == Address(mem[i], aw) % Pow2(naw))
  {
    if CountOpcodeAbove(mem, aw, 0) == 0 {
      RefitWithoutConflicts(mem, aw, naw, []);
      CountOpcodeAboveZero(mem, aw, 0);
    }
  }

  /** With no instruction in memory a word-width change keeps memory. */
  lemma {:induction false} WordWidthData(mem: seq<nat>, aw: nat, naw: nat, answer: Option<seq<int>>)
    requires CountOpcodeAbove(mem, aw, 0) == 0
    ensures WordWidthMemory(mem, aw, naw, answer) == Some(mem)
  {
    RefitWithoutConflicts(mem, aw, naw, []);
  }

  /** A wider word and back, accepting every rewrite, restores memory. */
  lemma {:induction false} WordWidthRoundTrip(mem: seq<nat>, aw: nat, naw: nat)
    requires aw <= naw
    ensures WordWidthMemory(mem, aw, naw, Some([])).Some?
    ensures WordWidthMemory(WordWidthMemory(mem, aw, naw, Some([])).value, naw, aw, Some([])) == Some(mem)
  {
    RefitAllRoundTrip(mem, aw, naw);
  }

  /** After the opcode field grows, words not exempted at the prompt keep
      their opcode and lose the top address bit; exempted and data words
      are kept. */
  lemma {:induction false} WidenFields(mem: seq<nat>, aw: nat, answer: Option<seq<int>>)
    requires aw >= 1 && answer.Some?
    ensures var r := WidenMemory(mem, aw, answer); var kept := Reply(CountTopAddressBit(mem, aw) > 0, answer).value;
      r.Some? && |r.value| == |mem|
      && (forall i :: 0 <= i < |mem| && (i in kept || Opcode(mem[i], aw) == 0) ==> r.value[i] == mem[i])
      && (forall i :: 0 <= i < |mem| && i !in kept && Opcode(mem[i], aw) > 0 ==>
            Opcode(r.value[i], aw - 1) == Opcode(mem[i], aw) && Address(r.value[i], aw - 1) == Address(mem[i], aw) % Pow2(aw - 1))
  {
  }

  /** After the opcode field shrinks, words not exempted at the prompt
      keep their address and have their opcode cut to 4 bits; exempted and
      data words are kept. */
  lemma {:induction false} NarrowFields(mem: seq<nat>, aw: nat, answer: Option<seq<int>>)
    requires answer.Some?
    ensures var r := NarrowMemory(mem, aw, answer); var kept := Reply(CountOpcodeAbove(mem, aw, 15) > 0, answer).value;
      r.Some? && |r.value| == |mem|
      && (forall i :: 0 <= i < |mem| && (i in kept || Opcode(mem[i], aw) == 0) ==> r.value[i] == mem[i])
      && (forall i :: 0 <= i < |mem| && i !in kept && Opcode(mem[i], aw) > 0 ==>
            Opcode(r.value[i], aw + 1) == Opcode(mem[i], aw) % 16 && Address(r.value[i], aw + 1) == Address(mem[i], aw))
  {
    assert Pow2(4) == 16;
  }

  /** Four to five opcode bits and back restores a memory of words of
      aw + 4 bits in which no top address bit is set; no prompt appears
      on the way up, so the reply there does not matter. */
  lemma {:induction false} WidenNarrowRoundTrip(mem: seq<nat>, aw: nat, answer: Option<seq<int>>)
    requires aw >= 1 && CountTopAddressBit(mem, aw) == 0
    requires forall i :: 0 <= i < |mem| ==> mem[i] < Pow2(aw + 4)
    ensures WidenMemory(mem, aw, answer).Some?
    ensures NarrowMemory(WidenMemory(mem, aw, answer).value, aw - 1, Some([])) == Some(mem)
  {
    OpcodeWidenRoundTrip(mem, aw, 4);
  }

  /** Five to four opcode bits and back restores memory in which no opcode
      is above 15; no prompt appears on the way down. */
  lemma {:induction false} NarrowWidenRoundTrip(mem: seq<nat>, aw: nat, answer: Option<seq<int>>)
    requires CountOpcodeAbove(mem, aw, 15) == 0
    ensures NarrowMemory(mem, aw, answer).Some?
    ensures WidenMemory(NarrowMemory(mem, aw, answer).value, aw + 1, Some([])) == Some(mem)
  {
    OpcodeNarrowRoundTrip(mem, aw);
  }
}
