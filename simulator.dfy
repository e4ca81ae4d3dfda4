/** The processor as the page holds it: one field per piece of state, and a
    method per control that updates the fields in place. Each method is
    proved against the function on snapshots (module Machine, module
    Controls) that says what the control does. */
module Simulator {
  import opened Words
  import opened Isa
  import opened Text
  import opened Alu
  import opened Machine
  import Controls
  import Reconfig
  import Codec

  class Processor {
    var w: nat
    var o: nat
    var pc: nat
    var acc: int
    var mem: seq<nat>
    var output: string
    var auto: bool
    var queue: string

    /** The fields as a value. */
    function Snapshot(): State
      reads this
    {
      State(w, o, pc, acc, mem, output, auto, queue)
    }

    predicate Valid()
      reads this
    {
      WellFormed(Snapshot())
    }

    /** The page as it opens. */
    constructor ()
      ensures Valid() && Snapshot() == Controls.Initial()
    {
      w, o, pc, acc := 16, 4, 0, 0;
      mem := Zeros(16);
      output, auto, queue := "", false, "";
    }

    /** setDataItem: word i becomes v; a memory too short for it is first
        padded with zeros up to i. */
    method SetDataItem(i: nat, v: nat)
      modifies this
      ensures Snapshot() == old(Snapshot()).(mem := SetItem(old(mem), i, v))
    {
      if i < |mem| {
        mem := mem[i := v];
      } else {
        mem := mem + Zeros(i - |mem|) + [v];
      }
    }

    /** runStep: fetch, decode and execute the word at PC. Every read sees
        the registers and the memory from before the step (`data`); the
        writes of the fetch and of the operand read come first, then the
        instruction's own case, then PC moves on and the accumulator is
        brought back into range. */
    method Step(typed: Typed) returns (outcome: Outcome)
      requires Valid()
      modifies this
      ensures Valid()
      ensures Snapshot() == Exec(old(Snapshot()), typed).next
      ensures outcome == Exec(old(Snapshot()), typed).outcome
    {
      ghost var s := Snapshot();
      var decoded, idx, target := Fetch(s);
      if decoded.None? {
        return Invalid;
      }
      var m := decoded.value;
      ExecDecoded(s, typed);
      if m == HLT {
        return Halted;
      }
      if Taken(m, acc) {
        pc := idx;
        return Continue;
      }
      if m == INP && auto && ParseBigInt(FirstLine(queue)) == None {
        return InputError;
      }
      ExecuteAdvances(s, m, idx, target, mem, typed);
      Apply(s, m, idx, target, typed);
      pc := pc + 1;
      acc := InBounds(acc, w);
      outcome := Continue;
    }

    /** The fetch and the operand read: a missing or zero word at PC is
        written as zero, the word is decoded, and a missing or zero operand
        word is written as zero for the instructions that read it. Both
        reads see the memory from before the step (`data`). */
    method Fetch(ghost s: State) returns (decoded: Option<Mnemonic>, idx: nat, target: nat)
      requires WellFormed(s) && Snapshot() == s
      modifies this
      ensures decoded == Decoded(s) && idx == Operand(s) && target == Target(s)
      ensures Snapshot() == if decoded.Some? then s.(mem := Touched(s, decoded.value)) else s
    {
      var data := mem;
      var aw := w - o;
      var value := Get(data, pc);
      if value == 0 {
        SetDataItem(pc, 0);
      }
      var op := Opcode(value, aw);
      idx := Address(value, aw);
      target := Get(data, idx);
      if op >= |Catalogue| {
        assert value != 0;
        return None, idx, target;
      }
      var m := Catalogue[op];
      if target == 0 && UsesTarget(m) {
        SetDataItem(idx, 0);
      }
      decoded := Some(m);
    }

    /** The instruction's own case of the switch, on the registers from
        before the step; memory already holds the fetch's writes. */
    method Apply(ghost s: State, m: Mnemonic, idx: nat, target: nat, typed: Typed)
      requires WellFormed(s) && Snapshot() == s.(mem := mem) && !(m == INP && InputFails(s))
      modifies this
      ensures Snapshot() == Effect(s, m, idx, target, old(mem), typed)
    {
      if m == STA {
        SignedOfUnsigned(acc, w);
        SetDataItem(idx, ToUnsigned(acc, w));
      } else if m == OUT {
        output := output + OutLine(target, w);
      } else if m == OUA {
        var text := OuaLoop(target, w);
        output := output + text + "\n";
      } else if m == INP {
        var n: int;
        if auto {
          n := ParseBigInt(FirstLine(queue)).value;
          queue := RestLines(queue);
        } else {
          n := typed.number;
        }
        var v := InBounds(n, w);
        SignedOfUnsigned(v, w);
        StoreInput(idx, ToUnsigned(v, w));
      } else if m == INA {
        var code: nat;
        if auto {
          var val := InaTake(queue, w);
          queue := AfterText(queue, |val|);
          code := InaValue(val);
        } else {
          code := InaValue(typed.text);
        }
        StoreInput(idx, code);
      } else {
        acc := AccAfter(m, acc, target, idx, w);
      }
    }

    /** INP and INA: address 0 means the accumulator, any other address
        that memory word. */
    method StoreInput(idx: nat, v: nat)
      modifies this
      ensures Snapshot() == Store(old(Snapshot()), idx, v)
    {
      if idx == 0 {
        acc := v;
      } else {
        SetDataItem(idx, v);
      }
    }

    /** The Reset button. */
    method Reset()
      requires Valid()
      modifies this
      ensures Valid() && Snapshot() == Controls.Reset(old(Snapshot()))
    {
      pc, acc := 0, 0;
      Controls.ResetRegisters(old(Snapshot()));
    }

    /** The New button: look for a nonzero word, and clear only if there is
        one and the user confirms. */
    method New(confirmed: bool)
      requires Valid()
      modifies this
      ensures Valid() && Snapshot() == Controls.Cleared(old(Snapshot()), confirmed)
    {
      var j := 0;
      while j < |mem| && mem[j] == 0
        invariant 0 <= j <= |mem|
        invariant forall k :: 0 <= k < j ==> mem[k] == 0
        decreases |mem| - j
      {
        j := j + 1;
      }
      Controls.NewClears(Snapshot(), confirmed);
      if j < |mem| && confirmed {
        mem := Zeros(16);
        pc, acc := 0, 0;
      }
    }

    /** The Add-rows button: k zero words at the end of memory. */
    method AddRows(k: nat)
      modifies this
      ensures Snapshot() == Controls.RowsAdded(old(Snapshot()), k)
    {
      mem := mem + Zeros(k);
    }

    /** Choosing entry m in the selector of word i. */
    method SelectInstruction(i: nat, m: Mnemonic)
      requires i < |mem|
      modifies this
      ensures Snapshot() == Controls.InstructionSelected(old(Snapshot()), i, m)
    {
      var aw := AddressWidth(Snapshot());
      SetDataItem(i, Encode(OpcodeOf(m), Address(mem[i], aw), aw));
    }

    /** Leaving the address editor of word i with `bits` typed. An empty
        text fails, which `failed` reports; the fields are then kept. */
    method TypeLocation(i: nat, bits: string) returns (failed: bool)
      requires IsDigits(bits, 2)
      modifies this
      ensures failed <==> Controls.LocationTyped(old(Snapshot()), i, bits) == None
      ensures Snapshot() == if failed then old(Snapshot()) else Controls.LocationTyped(old(Snapshot()), i, bits).value
    {
      failed := bits == [];
      if !failed {
        var aw := AddressWidth(Snapshot());
        SetDataItem(i, WithAddress(Get(mem, i), ValueIn(bits, 2), aw));
      }
    }

    /** Leaving the address editor of word i by clicking row `index`. */
    method PickLocation(i: nat, index: nat)
      modifies this
      ensures Snapshot() == Controls.LocationPicked(old(Snapshot()), i, index)
    {
      var aw := AddressWidth(Snapshot());
      if index <= Pow2(aw) - 1 {
        SetDataItem(i, WithAddress(Get(mem, i), index, aw));
      }
    }

    /** Releasing the word-width slider at newW; `answer` is the reply to
        the exemption prompt, None when it is cancelled. */
    method ChangeWordWidth(newW: nat, answer: Option<seq<int>>)
      requires Valid() && 8 <= newW <= 64
      modifies this
      ensures Valid() && Snapshot() == WordWidthChanged(old(Snapshot()), newW, answer)
    {
      var aw := AddressWidth(Snapshot());
      var rewritten := Reconfig.WordWidthMemory(mem, aw, newW - o, answer);
      if rewritten.Some? {
        mem := rewritten.value;
        w := newW;
        acc := InBounds(acc, newW);
      }
    }

    /** Choosing opcode width newO in the instruction-set menu. With
        W = O = 4 and 5 chosen over an all-zero memory the page fails,
        which `failed` reports; the fields are then kept. */
    method ChangeOpcodeWidth(newO: nat, answer: Option<seq<int>>) returns (failed: bool)
      requires Valid() && (newO == 4 || newO == 5)
      modifies this
      ensures failed <==> OpcodeWidthChanged(old(Snapshot()), newO, answer) == None
      ensures Valid() && Snapshot() == if failed then old(Snapshot()) else OpcodeWidthChanged(old(Snapshot()), newO, answer).value
    {
      failed := false;
      if newO > w {
        failed := AllZero(mem);
      } else if newO != o {
        var aw := AddressWidth(Snapshot());
        var rewritten := if newO > o then Reconfig.WidenMemory(mem, aw, answer) else Reconfig.NarrowMemory(mem, aw, answer);
        if rewritten.Some? {
          mem := rewritten.value;
          o := newO;
        }
      }
    }

    /** The Save button's text. */
    method Save() returns (text: string)
      requires Valid()
      ensures text == SaveState(Snapshot())
    {
      text := Codec.Save(o, w, pc, acc, mem);
    }

    /** Loading a file's text, as the page does: a v2 accumulator is read
        in the current width. */
    method Load(text: string)
      requires Valid()
      modifies this
      ensures Valid() && Snapshot() == LoadState(old(Snapshot()), text)
    {
      var loaded := Codec.Load(text, w);
      Restore(loaded);
    }

    /** Loading a file's text as evidently intended: a v2 accumulator is
        read in the width the file was saved with. */
    method LoadIntended(text: string)
      requires Valid()
      modifies this
      ensures Valid() && Snapshot() == LoadStateIntended(old(Snapshot()), text)
    {
      var loaded := Codec.LoadIntended(text);
      Restore(loaded);
    }

    /** Setting the registers, and memory when it was restored, from a
        load's outcome. */
    method Restore(loaded: Codec.Loaded)
      requires Valid()
      requires loaded.Registers? || loaded.Restored? ==> (loaded.h.o == 4 || loaded.h.o == 5) && loaded.h.o <= loaded.h.w
      modifies this
      ensures Valid() && Snapshot() == AfterLoad(old(Snapshot()), loaded)
    {
      match loaded
      case Registers(h) =>
        o, w, pc := h.o, h.w, h.pc;
        acc := InBounds(h.acc, h.w);
      case Restored(h, words) =>
        o, w, pc := h.o, h.w, h.pc;
        acc := InBounds(h.acc, h.w);
        mem := words;
      case Rejected =>
      case Unsupported =>
    }

    /** The automatic-input checkbox. */
    method ToggleAutoInput()
      modifies this
      ensures Snapshot() == old(Snapshot()).(auto := !old(auto))
    {
      auto := !auto;
    }

    /** Editing the input-feed text area. */
    method SetInputFeed(text: string)
      modifies this
      ensures Snapshot() == old(Snapshot()).(queue := text)
    {
      queue := text;
    }

    /** Editing the output text area. */
    method SetOutput(text: string)
      modifies this
      ensures Snapshot() == old(Snapshot()).(output := text)
    {
      output := text;
    }
  }
}
