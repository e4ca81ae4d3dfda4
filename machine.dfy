/** The VSML processor: its registers, its growable memory, the output
    pane and the typed-ahead input feed, and what one step of execution
    does to them. `State` is a snapshot of everything a step reads or
    writes; `Exec` says what a step does to a snapshot, and the class
    `Simulator.Processor` holds the same state in fields and updates them
    in place. */
module Machine {
  import opened Words
  import opened Isa
  import opened Text
  import opened Alu
  import Reconfig
  import Codec

  /** A snapshot of the processor: word width W, opcode width O, program
      counter, accumulator, memory, output text, whether the automatic
      input feed is on, and the feed's text. */
  datatype State = State(
    w: nat, o: nat, pc: nat, acc: int, mem: seq<nat>,
    output: string, auto: bool, queue: string)

  /** The opcode width is 4 or 5 and fits in the word, and the
      accumulator is in the signed range (it is renormalised on every
      render). */
  predicate WellFormed(s: State)
  {
    (s.o == 4 || s.o == 5) && s.o <= s.w && InRange(s.acc, s.w)
  }

  /** What the interactive prompts deliver: the number typed for INP and
      the text typed for INA. */
  datatype Typed = Typed(number: int, text: string)

  /** The INA prompt loop only accepts a text of at most W/8 characters,
      none with a code above 127. */
  predicate Accepted(typed: Typed, w: nat)
  {
    |typed.text| <= w / 8 && forall i :: 0 <= i < |typed.text| ==> typed.text[i] as int <= 127
  }

  /** What `runStep` reports: true (Continue), or false after HLT or an
      invalid instruction; InputError is the exception an unparsable
      typed-ahead INP line raises. */
  datatype Outcome = Continue | Halted | Invalid | InputError

  datatype Stepped = Stepped(next: State, outcome: Outcome)

  // ---------------------------------------------------------------------
  // Memory

  function Zeros(k: nat): (r: seq<nat>)
    ensures |r| == k && forall j :: 0 <= j < k ==> r[j] == 0
  {
    seq(k, _ => 0)
  }

  /** `data[i]`, where a missing word reads as zero. */
  function Get(mem: seq<nat>, i: nat): (r: nat)
    ensures i < |mem| ==> r == mem[i]
    ensures i >= |mem| ==> r == 0
  {
    if i < |mem| then mem[i] else 0
  }

  /** setDataItem: word i becomes v; a memory too short for it grows,
      the gap filled with zeros; every other word keeps its value. */
  function SetItem(mem: seq<nat>, i: nat, v: nat): (r: seq<nat>)
    ensures |r| == if i < |mem| then |mem| else i + 1
    ensures r[i] == v
    ensures forall j :: 0 <= j < |mem| && j != i ==> r[j] == mem[j]
    ensures forall j :: |mem| <= j < |r| && j != i ==> r[j] == 0
  {
    if i < |mem| then mem[i := v] else mem + Zeros(i - |mem|) + [v]
  }

  /** `after` is `before` with zero words appended. */
  predicate ZeroExtended(before: seq<nat>, after: seq<nat>)
  {
    |before| <= |after| && after[..|before|] == before
    && forall j :: |before| <= j < |after| ==> after[j] == 0
  }

  /** Writing a zero is at most a zero extension. */
  lemma {:induction false} SetZeroExtends(mem: seq<nat>, i: nat)
    requires i >= |mem| || mem[i] == 0
    ensures ZeroExtended(mem, SetItem(mem, i, 0))
  {
    var r := SetItem(mem, i, 0);
    assert r[..|mem|] == mem by {
      forall j | 0 <= j < |mem|
        ensures r[..|mem|][j] == mem[j]
      {
      }
    }
  }

  lemma {:induction false} ZeroExtendedTransitive(a: seq<nat>, b: seq<nat>, c: seq<nat>)
    requires ZeroExtended(a, b) && ZeroExtended(b, c)
    ensures ZeroExtended(a, c)
  {
    assert c[..|a|] == b[..|b|][..|a|];
  }

  // ---------------------------------------------------------------------
  // The input feed

  /** `queue.split('\n')[0]`: the text up to the first newline. */
  function FirstLine(q: string): (r: string)
    ensures |r| <= |q| && r == q[..|r|] && '\n' !in r
    ensures r == Split(q, '\n')[0]
  {
    if q == [] || q[0] == '\n' then [] else [q[0]] + FirstLine(q[1..])
  }

  /** `queue.split('\n').slice(1).join('\n')`: the feed after its first line. */
  function RestLines(q: string): string
  {
    Join(Split(q, '\n')[1..], '\n')
  }

  /** The feed after INA took `val` off the front of its first line:
      `queue.replace(val, '').split('\n').filter(k => k).join('\n')`. */
  function AfterText(q: string, n: nat): string
    requires n <= |q|
  {
    Join(DropEmpty(Split(q[n..], '\n')), '\n')
  }

  /** With no empty line in what follows the taken characters, the feed
      after INA is exactly that remainder. */
  lemma {:induction false} AfterTextKeepsRest(q: string, n: nat)
    requires n <= |q|
    requires forall i :: 0 <= i < |Split(q[n..], '\n')| ==> Split(q[n..], '\n')[i] != []
    ensures AfterText(q, n) == q[n..]
  {
    DropEmptyKeeps(Split(q[n..], '\n'));
    JoinSplit(q[n..], '\n');
  }

  /** When INA takes only part of the first line, the rest of that line
      stays at the front of the feed. */
  lemma {:induction false} AfterTextLineRest(q: string, n: nat)
    requires n < |FirstLine(q)|
    ensures FirstLine(q)[n..] <= AfterText(q, n)
  {
    FirstLineDrop(q, n);
    var ls := Split(q[n..], '\n');
    assert ls[0] == FirstLine(q)[n..] != [];
    assert DropEmpty(ls) == [ls[0]] + DropEmpty(ls[1..]);
    JoinStarts(DropEmpty(ls), '\n');
  }

  /** Dropping characters from inside the first line drops them from it. */
  lemma {:induction false} FirstLineDrop(q: string, n: nat)
    requires n <= |FirstLine(q)|
    ensures FirstLine(q[n..]) == FirstLine(q)[n..]
  {
    if n == 0 {
      assert q[0..] == q;
    } else {
      assert q[1..][n - 1..] == q[n..];
      FirstLineDrop(q[1..], n - 1);
    }
  }

  /** A join starts with its first piece. */
  lemma {:induction false} JoinStarts(ls: seq<string>, sep: char)
    requires |ls| >= 1
    ensures ls[0] <= Join(ls, sep)
  {
    if |ls| > 1 {
      assert Join(ls, sep) == ls[0] + ([sep] + Join(ls[1..], sep));
    }
  }

  /** The characters INA takes from the feed: the first W/8 of its first line. */
  function InaTake(q: string, w: nat): (r: string)
    ensures |r| <= w / 8 && |r| <= |q| && r == q[..|r|]
    ensures |r| <= |FirstLine(q)| && r == FirstLine(q)[..|r|] && (|r| < w / 8 ==> r == FirstLine(q))
  {
    var line := FirstLine(q);
    line[..if |line| <= w / 8 then |line| else w / 8]
  }

  /** Taking a line back off the front of the feed leaves what followed it. */
  lemma {:induction false} RestAfterLine(line: string, rest: string)
    requires '\n' !in line
    ensures FirstLine(line + "\n" + rest) == line
    ensures RestLines(line + "\n" + rest) == rest
  {
    SplitFirstLine(line, rest, '\n');
    assert ([line] + Split(rest, '\n'))[1..] == Split(rest, '\n');
    JoinSplit(rest, '\n');
  }

  // ---------------------------------------------------------------------
  // One step

  /** The address field width W - O. */
  function AddressWidth(s: State): nat
  {
    if s.o <= s.w then s.w - s.o else 0
  }

  /** The word at the program counter. */
  function Current(s: State): nat
  {
    Get(s.mem, s.pc)
  }

  /** Its opcode field. */
  function CurrentOpcode(s: State): nat
  {
    Opcode(Current(s), AddressWidth(s))
  }

  /** Its address field, the instruction's operand index. */
  function Operand(s: State): nat
  {
    Address(Current(s), AddressWidth(s))
  }

  /** Move on to the next instruction; the accumulator is brought back
      into the signed range. */
  function Advance(t: State): (r: Stepped)
    requires t.w >= 1
    ensures r.outcome == Continue && r.next.pc == t.pc + 1 && r.next.mem == t.mem
    ensures InRange(r.next.acc, t.w) && (r.next.acc - t.acc) % Pow2(t.w) == 0
  {
    Stepped(t.(pc := t.pc + 1, acc := Wrap(t.acc, t.w)), Continue)
  }

  /** INP and INA write to the accumulator when the address is 0, and to
      memory otherwise. */
  function Store(t: State, idx: nat, v: nat): State
  {
    if idx == 0 then t.(acc := v) else t.(mem := SetItem(t.mem, idx, v))
  }

  /** The memory after the fetch and the operand read: a missing or zero
      word at PC, and (for instructions that read it) at the operand, is
      written as zero, growing memory when it lies beyond the end. */
  function Touched(s: State, m: Mnemonic): seq<nat>
    requires s.o <= s.w
  {
    var fetched := if Current(s) == 0 then SetItem(s.mem, s.pc, 0) else s.mem;
    var idx := Operand(s);
    if Get(s.mem, idx) == 0 && UsesTarget(m) then SetItem(fetched, idx, 0) else fetched
  }

  /** The text OUT appends: the operand word read as two's complement, in
      decimal. */
  function OutLine(target: nat, w: nat): string
    requires w >= 1
  {
    FormatInt(ToSigned(target, w)) + "\n"
  }

  /** The jumps that are taken: JMP, JEQ on a zero accumulator, JLT on a
      negative one. */
  predicate Taken(m: Mnemonic, acc: int)
  {
    m == JMP || (m == JEQ && acc == 0) || (m == JLT && acc < 0)
  }

  /** INP with the feed on and a first line `BigInt` cannot parse. */
  predicate InputFails(s: State)
  {
    s.auto && ParseBigInt(FirstLine(s.queue)) == None
  }

  /** The number INP reads: from the feed's first line, or as typed. */
  function InputNumber(s: State, typed: Typed): int
    requires !InputFails(s)
  {
    if s.auto then ParseBigInt(FirstLine(s.queue)).value else typed.number
  }

  /** What an instruction that neither stops nor jumps does to the
      registers, memory, output and feed, before PC moves on and the
      accumulator is renormalised. Every read sees the state from before
      the step; `mem` is the memory after the fetch and the operand read.
      An interactive answer in `typed` is taken as given: the page's
      re-prompt loop only returns answers that satisfy `Accepted`, and the
      lemmas about INA's typed text assume it. */
  function Effect(s: State, m: Mnemonic, idx: nat, target: nat, mem: seq<nat>, typed: Typed): (r: State)
    requires WellFormed(s) && !(m == INP && InputFails(s))
    ensures r.w == s.w && r.o == s.o && r.pc == s.pc && r.auto == s.auto
  {
    var t := s.(mem := mem);
    if m == STA then
      SignedOfUnsigned(s.acc, s.w);
      t.(mem := SetItem(mem, idx, ToUnsigned(s.acc, s.w)))
    else if m == OUT then t.(output := s.output + OutLine(target, s.w))
    else if m == OUA then t.(output := s.output + OuaChars(target, s.w) + "\n")
    else if m == INP then
      var v := Wrap(InputNumber(s, typed), s.w);
      SignedOfUnsigned(v, s.w);
      var fed := if s.auto then t.(queue := RestLines(s.queue)) else t;
      Store(fed, idx, ToUnsigned(v, s.w))
    else if m == INA then
      if s.auto then
        var val := InaTake(s.queue, s.w);
        Store(t.(queue := AfterText(s.queue, |val|)), idx, InaValue(val))
      else Store(t, idx, InaValue(typed.text))
    else t.(acc := AccAfter(m, s.acc, target, idx, s.w))
  }

  /** What one instruction does: HLT stops, a taken jump moves PC to the
      operand, an unparsable typed-ahead INP line stops with an error, and
      everything else has its effect and moves on. */
  function Execute(s: State, m: Mnemonic, idx: nat, target: nat, mem: seq<nat>, typed: Typed): (r: Stepped)
    requires WellFormed(s)
    ensures r.next.w == s.w && r.next.o == s.o && r.next.auto == s.auto
    ensures WellFormed(r.next)
  {
    if m == HLT then Stepped(s.(mem := mem), Halted)
    else if Taken(m, s.acc) then Stepped(s.(mem := mem, pc := idx), Continue)
    else if m == INP && InputFails(s) then Stepped(s.(mem := mem), InputError)
    else Advance(Effect(s, m, idx, target, mem, typed))
  }

  /** runStep: fetch the word at PC, decode it, and execute it. An opcode
      field past the catalogue is an invalid instruction; such a word is
      nonzero, so nothing was written for it. */
  function Exec(s: State, typed: Typed): (r: Stepped)
    requires WellFormed(s)
    ensures r.next.w == s.w && r.next.o == s.o && r.next.auto == s.auto
    ensures WellFormed(r.next)
  {
    if CurrentOpcode(s) >= |Catalogue| then
      Stepped(s, Invalid)
    else
      var m := Catalogue[CurrentOpcode(s)];
      Execute(s, m, Operand(s), Get(s.mem, Operand(s)), Touched(s, m), typed)
  }

  // ---------------------------------------------------------------------
  // What a step does

  /** The mnemonic the word at PC decodes to, if the catalogue has one. */
  function Decoded(s: State): Option<Mnemonic>
  {
    if CurrentOpcode(s) < |Catalogue| then Some(Catalogue[CurrentOpcode(s)]) else None
  }

  /** The step transfers control to the operand. */
  predicate Jumps(s: State)
  {
    Decoded(s).Some? && Taken(Decoded(s).value, s.acc)
  }

  /** The word at the operand index, read before the step. */
  function Target(s: State): nat
  {
    Get(s.mem, Operand(s))
  }

  /** A step stops exactly on HLT, on an opcode past the catalogue, and on
      a typed-ahead line INP cannot parse. */
  lemma {:induction false} StepOutcome(s: State, typed: Typed)
    requires WellFormed(s)
    ensures Exec(s, typed).outcome == Invalid <==> Decoded(s) == None
    ensures Exec(s, typed).outcome == Halted <==> Decoded(s) == Some(HLT)
    ensures Exec(s, typed).outcome == InputError <==>
      Decoded(s) == Some(INP) && InputFails(s)
  {
    if CurrentOpcode(s) < |Catalogue| {
      var m := Catalogue[CurrentOpcode(s)];
      ExecuteOutcome(s, m, Operand(s), Target(s), Touched(s, m), typed);
    }
  }

  lemma {:induction false} ExecuteOutcome(s: State, m: Mnemonic, idx: nat, target: nat, mem: seq<nat>, typed: Typed)
    requires WellFormed(s)
    ensures Execute(s, m, idx, target, mem, typed).outcome != Invalid
    ensures Execute(s, m, idx, target, mem, typed).outcome == Halted <==> m == HLT
    ensures Execute(s, m, idx, target, mem, typed).outcome == InputError <==>
      m == INP && InputFails(s)
  {
  }

  /** A decoded step is the execution of its mnemonic on the memory left
      by the fetch and the operand read. */
  lemma {:induction false} ExecDecoded(s: State, typed: Typed)
    requires WellFormed(s) && Decoded(s).Some?
    ensures Exec(s, typed)
      == Execute(s, Decoded(s).value, Operand(s), Target(s), Touched(s, Decoded(s).value), typed)
  {
  }

  /** The fetch and the operand read only append zero words, and only as
      far as PC and the operand. */
  lemma {:induction false} TouchedExtends(s: State, m: Mnemonic)
    requires s.o <= s.w
    ensures ZeroExtended(s.mem, Touched(s, m))
    ensures |Touched(s, m)| <= Max(|s.mem|, Max(s.pc + 1, Operand(s) + 1))
  {
    var idx := Operand(s);
    var fetched := if Current(s) == 0 then SetItem(s.mem, s.pc, 0) else s.mem;
    if Current(s) == 0 {
      SetZeroExtends(s.mem, s.pc);
    }
    assert ZeroExtended(s.mem, fetched);
    if Get(s.mem, idx) == 0 && UsesTarget(m) {
      assert idx >= |fetched| || fetched[idx] == 0;
      SetZeroExtends(fetched, idx);
      ZeroExtendedTransitive(s.mem, fetched, Touched(s, m));
    }
  }

  function Max(a: nat, b: nat): nat
  {
    if a >= b then a else b
  }

  /** The program counter after a step, and what a jump leaves alone. */
  lemma {:induction false} ExecuteControl(s: State, m: Mnemonic, idx: nat, target: nat, mem: seq<nat>, typed: Typed)
    requires WellFormed(s)
    ensures var r := Execute(s, m, idx, target, mem, typed);
      r.outcome == Continue ==> r.next.pc == if Taken(m, s.acc) then idx else s.pc + 1
    ensures var r := Execute(s, m, idx, target, mem, typed);
      r.outcome != Continue || Taken(m, s.acc) ==>
        r.next.pc == (if r.outcome == Continue then idx else s.pc) && r.next.acc == s.acc
        && r.next.output == s.output && r.next.queue == s.queue && r.next.mem == mem
  {
  }

  /** Control flow: HLT, an invalid word and an input error leave PC where
      it was; JMP and a taken JEQ or JLT continue at the operand; every
      other instruction, untaken jumps, NOP and ROL included, continues at
      PC + 1. A stop or a jump changes nothing else but appended zeros. */
  lemma {:induction false} ControlFlow(s: State, typed: Typed)
    requires WellFormed(s)
    ensures var r := Exec(s, typed);
      r.outcome == Continue ==> r.next.pc == if Jumps(s) then Operand(s) else s.pc + 1
    ensures var r := Exec(s, typed);
      r.outcome != Continue ==> r.next.pc == s.pc
    ensures var r := Exec(s, typed);
      r.outcome != Continue || Jumps(s) ==>
        r.next.acc == s.acc && r.next.output == s.output && r.next.queue == s.queue
        && ZeroExtended(s.mem, r.next.mem)
  {
    if Decoded(s).Some? {
      var m := Decoded(s).value;
      ExecDecoded(s, typed);
      ExecuteControl(s, m, Operand(s), Target(s), Touched(s, m), typed);
      TouchedExtends(s, m);
    } else {
      assert Exec(s, typed).next == s;
      assert s.mem[..|s.mem|] == s.mem;
    }
  }

  // ---------------------------------------------------------------------
  // Arithmetic

  /** The ten arithmetic instructions. */
  predicate Arithmetic(m: Mnemonic)
  {
    m == ADD || m == SUB || m == MUL || m == DIV || m == MOD
    || m == ADDS || m == SUBS || m == MULS || m == DIVS || m == MODS
  }

  /** The exact result of an arithmetic instruction on the operand word
      read as two's complement (ADD to MOD) or on the operand index itself
      (ADDS to MODS). Division truncates toward zero, as BigInt division
      does, and a zero divisor gives 0. */
  function Exact(m: Mnemonic, acc: int, target: nat, idx: nat, w: nat): int
    requires w >= 1
  {
    var t := ToSigned(target, w);
    match m
    case ADD => acc + t
    case SUB => acc - t
    case MUL => acc * t
    case DIV => if t == 0 then 0 else TDiv(acc, t)
    case MOD => if t == 0 then 0 else TMod(acc, t)
    case ADDS => acc + idx
    case SUBS => acc - idx
    case MULS => acc * idx
    case DIVS => if idx == 0 then 0 else TDiv(acc, idx)
    case MODS => if idx == 0 then 0 else TMod(acc, idx)
    case _ => acc
  }

  /** An operand index is below 2^(W-O), so its two's-complement reading
      is itself. */
  lemma {:induction false} SmallOperand(s: State)
    requires WellFormed(s)
    ensures Operand(s) < Pow2(s.w - 1) && ToSigned(Operand(s), s.w) == Operand(s)
  {
    AddressIsLowBits(Current(s), AddressWidth(s));
    Pow2Monotone(AddressWidth(s), s.w - 1);
  }

  /** An arithmetic step leaves the exact result wrapped into the signed
      range: congruent to it modulo 2^W, and equal to it when it fits. */
  lemma {:induction false} ArithmeticWraps(s: State, typed: Typed)
    requires WellFormed(s) && Decoded(s).Some? && Arithmetic(Decoded(s).value)
    ensures var r := Exec(s, typed);
      var x := Exact(Decoded(s).value, s.acc, Target(s), Operand(s), s.w);
      r.outcome == Continue && r.next.pc == s.pc + 1
      && InRange(r.next.acc, s.w) && (r.next.acc - x) % Pow2(s.w) == 0
      && (InRange(x, s.w) ==> r.next.acc == x)
  {
    var m := Decoded(s).value;
    ExecDecoded(s, typed);
    SmallOperand(s);
    ExecuteArithmetic(s, m, Operand(s), Target(s), Touched(s, m), typed);
    WrapMeaning(Exec(s, typed).next.acc, Exact(m, s.acc, Target(s), Operand(s), s.w), s.w);
  }

  /** An arithmetic step's accumulator is its exact result wrapped. */
  lemma {:induction false} ExecArithmetic(s: State, m: Mnemonic, typed: Typed)
    requires WellFormed(s) && Decoded(s) == Some(m) && Arithmetic(m)
    ensures Exec(s, typed).next.acc == Wrap(Exact(m, s.acc, Target(s), Operand(s), s.w), s.w)
    ensures Exec(s, typed).outcome == Continue && Exec(s, typed).next.pc == s.pc + 1
  {
    ExecDecoded(s, typed);
    SmallOperand(s);
    ExecuteArithmetic(s, m, Operand(s), Target(s), Touched(s, m), typed);
  }

  lemma {:induction false} ExecuteArithmetic(s: State, m: Mnemonic, idx: nat, target: nat, mem: seq<nat>, typed: Typed)
    requires WellFormed(s) && Arithmetic(m) && ToSigned(idx, s.w) == idx
    ensures Execute(s, m, idx, target, mem, typed)
      == Stepped(s.(mem := mem, pc := s.pc + 1, acc := Wrap(Exact(m, s.acc, target, idx, s.w), s.w)), Continue)
  {
    ExecuteAdvances(s, m, idx, target, mem, typed);
    EffectArithmetic(s, m, idx, target, mem, typed);
    AdvanceInRange(s.(mem := mem, acc := Wrap(Exact(m, s.acc, target, idx, s.w), s.w)));
  }

  /** An arithmetic instruction's effect: the wrapped exact result in the
      accumulator. */
  lemma {:induction false} EffectArithmetic(s: State, m: Mnemonic, idx: nat, target: nat, mem: seq<nat>, typed: Typed)
    requires WellFormed(s) && Arithmetic(m) && ToSigned(idx, s.w) == idx
    ensures Effect(s, m, idx, target, mem, typed) == s.(mem := mem, acc := Wrap(Exact(m, s.acc, target, idx, s.w), s.w))
  {
    EffectUpdatesAcc(s, m, idx, target, mem, typed);
    ExactWrapped(m, s.acc, target, idx, s.w);
  }

  /** Moving on from a state whose accumulator is in range only advances PC. */
  lemma {:induction false} AdvanceInRange(t: State)
    requires t.w >= 1 && InRange(t.acc, t.w)
    ensures Advance(t) == Stepped(t.(pc := t.pc + 1), Continue)
  {
    WrapIdentity(t.acc, t.w);
  }

  /** An instruction that neither stops nor jumps has its effect and moves on. */
  lemma {:induction false} ExecuteAdvances(s: State, m: Mnemonic, idx: nat, target: nat, mem: seq<nat>, typed: Typed)
    requires WellFormed(s) && m != HLT && !Taken(m, s.acc) && !(m == INP && InputFails(s))
    ensures Execute(s, m, idx, target, mem, typed) == Advance(Effect(s, m, idx, target, mem, typed))
  {
  }

  /** An instruction without a case of its own only changes the accumulator. */
  lemma {:induction false} EffectUpdatesAcc(s: State, m: Mnemonic, idx: nat, target: nat, mem: seq<nat>, typed: Typed)
    requires WellFormed(s) && m != STA && m != OUT && m != OUA && m != INP && m != INA
    ensures Effect(s, m, idx, target, mem, typed) == s.(mem := mem, acc := AccAfter(m, s.acc, target, idx, s.w))
  {
  }

  lemma {:induction false} WrapMeaning(a: int, x: int, w: nat)
    requires w >= 1 && a == Wrap(x, w)
    ensures InRange(a, w) && (a - x) % Pow2(w) == 0 && (InRange(x, w) ==> a == x)
  {
    if InRange(x, w) {
      WrapIdentity(x, w);
    }
  }

  /** The accumulator an arithmetic instruction computes is its exact
      result wrapped. */
  lemma {:induction false} ExactWrapped(m: Mnemonic, acc: int, target: nat, idx: nat, w: nat)
    requires w >= 1 && InRange(acc, w) && Arithmetic(m) && ToSigned(idx, w) == idx
    ensures AccAfter(m, acc, target, idx, w) == Wrap(Exact(m, acc, target, idx, w), w)
  {
    match m
    case ADD =>
    case SUB =>
    case MUL =>
    case DIV =>
    case MOD =>
    case ADDS =>
    case SUBS =>
    case MULS =>
    case DIVS =>
    case MODS =>
  }

  /** DIV, MOD, DIVS and MODS by zero set the accumulator to 0 and go on. */
  lemma {:induction false} DivisionByZero(s: State, typed: Typed)
    requires WellFormed(s) && Decoded(s).Some?
    requires ((Decoded(s).value == DIV || Decoded(s).value == MOD) && ToSigned(Target(s), s.w) == 0)
      || ((Decoded(s).value == DIVS || Decoded(s).value == MODS) && Operand(s) == 0)
    ensures Exec(s, typed).outcome == Continue && Exec(s, typed).next.acc == 0
    ensures Exec(s, typed).next.pc == s.pc + 1
  {
    ArithmeticWraps(s, typed);
  }

  /** ADD of a word holding 1 to the largest signed accumulator wraps round
      to the smallest: at W = 8, 127 + 1 gives -128. */
  lemma {:induction false} AddOverflow(s: State, typed: Typed)
    requires WellFormed(s) && Decoded(s) == Some(ADD)
    requires s.acc == Pow2(s.w - 1) - 1 && ToSigned(Target(s), s.w) == 1
    ensures Exec(s, typed).next.acc == -(Pow2(s.w - 1) as int) && Exec(s, typed).next.pc == s.pc + 1
  {
    WrapBoundary(Exact(ADD, s.acc, Target(s), Operand(s), s.w), s.w);
    ExecArithmetic(s, ADD, typed);
  }

  // ---------------------------------------------------------------------
  // Memory, output and the feed

  /** STA, and INP or INA at a nonzero operand, write a word. */
  predicate Writes(m: Mnemonic, idx: nat)
  {
    m == STA || ((m == INP || m == INA) && idx != 0)
  }

  /** An effect writes at most the operand word. */
  lemma {:induction false} EffectMemory(s: State, m: Mnemonic, idx: nat, target: nat, mem: seq<nat>, typed: Typed)
    requires WellFormed(s) && !(m == INP && InputFails(s))
    ensures var e := Effect(s, m, idx, target, mem, typed);
      |mem| <= |e.mem| <= Max(|mem|, idx + 1)
      && (forall j :: 0 <= j < |mem| && j != idx ==> e.mem[j] == mem[j])
      && (forall j :: |mem| <= j < |e.mem| && j != idx ==> e.mem[j] == 0)
      && (!Writes(m, idx) ==> e.mem == mem)
  {
  }

  /** Only OUT and OUA write output, and only INP and INA take from the feed. */
  lemma {:induction false} EffectOutput(s: State, m: Mnemonic, idx: nat, target: nat, mem: seq<nat>, typed: Typed)
    requires WellFormed(s) && !(m == INP && InputFails(s))
    ensures var e := Effect(s, m, idx, target, mem, typed);
      e.output == s.output + (if m == OUT then OutLine(target, s.w)
        else if m == OUA then OuaChars(target, s.w) + "\n" else "")
      && (m != INP && m != INA ==> e.queue == s.queue)
  {
    if m != OUT && m != OUA {
      assert s.output + "" == s.output;
    }
  }

  /** A step writes memory only at the operand; elsewhere it only appends
      zero words, as far as PC and the operand. Unless it stores a word,
      memory is the old memory with zeros appended. */
  lemma {:induction false} MemoryFrame(s: State, typed: Typed)
    requires WellFormed(s)
    ensures var n := Exec(s, typed).next;
      |s.mem| <= |n.mem| <= Max(|s.mem|, Max(s.pc + 1, Operand(s) + 1))
      && (forall j :: 0 <= j < |s.mem| && j != Operand(s) ==> n.mem[j] == s.mem[j])
      && (forall j :: |s.mem| <= j < |n.mem| && j != Operand(s) ==> n.mem[j] == 0)
    ensures (Decoded(s).Some? && Writes(Decoded(s).value, Operand(s)) && Exec(s, typed).outcome == Continue)
      || ZeroExtended(s.mem, Exec(s, typed).next.mem)
  {
    var n := Exec(s, typed).next;
    if Decoded(s).None? {
      assert n == s;
      assert s.mem[..|s.mem|] == s.mem;
    } else {
      var m := Decoded(s).value;
      var touched := Touched(s, m);
      ExecDecoded(s, typed);
      TouchedExtends(s, m);
      ExecuteControl(s, m, Operand(s), Target(s), touched, typed);
      if m == HLT || Taken(m, s.acc) || (m == INP && InputFails(s)) {
        assert n.mem == touched;
      } else {
        ExecuteAdvances(s, m, Operand(s), Target(s), touched, typed);
        EffectMemory(s, m, Operand(s), Target(s), touched, typed);
        assert n.mem == Effect(s, m, Operand(s), Target(s), touched, typed).mem;
        Extended(s.mem, touched, n.mem, Operand(s));
      }
    }
  }

  /** Chaining a zero extension with a write at k. */
  lemma {:induction false} Extended(a: seq<nat>, b: seq<nat>, c: seq<nat>, k: nat)
    requires ZeroExtended(a, b) && |b| <= |c|
    requires forall j :: 0 <= j < |b| && j != k ==> c[j] == b[j]
    requires forall j :: |b| <= j < |c| && j != k ==> c[j] == 0
    ensures forall j :: 0 <= j < |a| && j != k ==> c[j] == a[j]
    ensures forall j :: |a| <= j < |c| && j != k ==> c[j] == 0
    ensures c == b ==> ZeroExtended(a, c)
  {
    forall j | 0 <= j < |a| && j != k
      ensures c[j] == a[j]
    {
      assert b[..|a|][j] == b[j];
    }
  }

  /** The output after a step: OUT appends the operand word in signed
      decimal, OUA its nonzero 8-bit groups as characters, each with a
      newline; every other step leaves the output alone. */
  lemma {:induction false} OutputAppends(s: State, typed: Typed)
    requires WellFormed(s)
    ensures Exec(s, typed).next.output == s.output
      + (if Decoded(s) == Some(OUT) then OutLine(Target(s), s.w)
         else if Decoded(s) == Some(OUA) then OuaChars(Target(s), s.w) + "\n" else "")
  {
    assert s.output + "" == s.output;
    if Decoded(s).Some? {
      var m := Decoded(s).value;
      ExecDecoded(s, typed);
      if !(m == HLT || Taken(m, s.acc) || (m == INP && InputFails(s))) {
        ExecuteAdvances(s, m, Operand(s), Target(s), Touched(s, m), typed);
        EffectOutput(s, m, Operand(s), Target(s), Touched(s, m), typed);
      }
    }
  }

  /** Printed numbers contain no line break. */
  lemma {:induction false} FormatIntOneLine(i: int)
    ensures '\n' !in FormatInt(i)
  {
    var d := FormatNat(if i < 0 then -i else i, 10);
    assert forall k :: 0 <= k < |d| ==> DigitValue(d[k]) < 10;
    assert FormatInt(i) == if i < 0 then "-" + d else d;
  }

  /** A line OUT prints, fed back as the first line of the input feed,
      is read by INP as the number printed. */
  lemma {:induction false} OutLineReadsBack(target: nat, w: nat, rest: string)
    requires w >= 1
    ensures FirstLine(OutLine(target, w) + rest) == FormatInt(ToSigned(target, w))
    ensures ParseBigInt(FirstLine(OutLine(target, w) + rest)) == Some(ToSigned(target, w))
    ensures RestLines(OutLine(target, w) + rest) == rest
  {
    var line := FormatInt(ToSigned(target, w));
    FormatIntOneLine(ToSigned(target, w));
    RestAfterLine(line, rest);
    assert OutLine(target, w) + rest == line + "\n" + rest;
    ParseFormatInt(ToSigned(target, w));
  }

  // ---------------------------------------------------------------------
  // Loads, stores and input

  /** STA stores the accumulator's unsigned form, which reads back as the
      accumulator. */
  lemma {:induction false} StoreAccumulator(s: State, typed: Typed)
    requires WellFormed(s) && Decoded(s) == Some(STA)
    ensures var r := Exec(s, typed);
      r.outcome == Continue && r.next.pc == s.pc + 1 && r.next.acc == s.acc
      && Operand(s) < |r.next.mem| && IsWord(r.next.mem[Operand(s)], s.w)
      && ToSigned(r.next.mem[Operand(s)], s.w) == s.acc
  {
    var touched := Touched(s, STA);
    ExecDecoded(s, typed);
    ExecuteAdvances(s, STA, Operand(s), Target(s), touched, typed);
    SignedOfUnsigned(s.acc, s.w);
    WrapIdentity(s.acc, s.w);
  }

  /** LDA loads the operand word read as two's complement; a word of W
      bits is loaded exactly. */
  lemma {:induction false} LoadAccumulator(s: State, typed: Typed)
    requires WellFormed(s) && Decoded(s) == Some(LDA)
    ensures var r := Exec(s, typed);
      r.outcome == Continue && r.next.pc == s.pc + 1
      && r.next.acc == Wrap(ToSigned(Target(s), s.w), s.w)
      && (IsWord(Target(s), s.w) ==> r.next.acc == ToSigned(Target(s), s.w))
  {
    var touched := Touched(s, LDA);
    ExecDecoded(s, typed);
    ExecuteAdvances(s, LDA, Operand(s), Target(s), touched, typed);
    EffectUpdatesAcc(s, LDA, Operand(s), Target(s), touched, typed);
    if IsWord(Target(s), s.w) {
      UnsignedOfSigned(Target(s), s.w);
      WrapIdentity(ToSigned(Target(s), s.w), s.w);
    }
  }

  /** The effect of INP that reads a number. */
  lemma {:induction false} EffectNumber(s: State, idx: nat, target: nat, mem: seq<nat>, typed: Typed)
    requires WellFormed(s) && !InputFails(s)
    ensures var e := Effect(s, INP, idx, target, mem, typed);
      var u := ToUnsigned(Wrap(InputNumber(s, typed), s.w), s.w);
      e.queue == (if s.auto then RestLines(s.queue) else s.queue)
      && (idx == 0 ==> e.acc == u)
      && (idx != 0 ==> e.acc == s.acc && idx < |e.mem| && e.mem[idx] == u)
  {
  }

  /** INP reads the feed's first line and drops it, or takes the typed
      number, wraps it into the signed range and stores it: in the
      accumulator for operand 0, else as a W-bit word at the operand. */
  lemma {:induction false} NumberInput(s: State, typed: Typed)
    requires WellFormed(s) && Decoded(s) == Some(INP) && !InputFails(s)
    ensures var r := Exec(s, typed); var v := Wrap(InputNumber(s, typed), s.w);
      r.outcome == Continue && r.next.pc == s.pc + 1
      && r.next.queue == (if s.auto then RestLines(s.queue) else s.queue)
      && (Operand(s) == 0 ==> r.next.acc == v)
      && (Operand(s) != 0 ==>
            r.next.acc == s.acc && Operand(s) < |r.next.mem|
            && IsWord(r.next.mem[Operand(s)], s.w) && ToSigned(r.next.mem[Operand(s)], s.w) == v)
  {
    var touched := Touched(s, INP);
    var v := Wrap(InputNumber(s, typed), s.w);
    ExecDecoded(s, typed);
    ExecuteAdvances(s, INP, Operand(s), Target(s), touched, typed);
    EffectNumber(s, Operand(s), Target(s), touched, typed);
    SignedOfUnsigned(v, s.w);
    WrapOfSigned(v, s.w);
    WrapIdentity(v, s.w);
    WrapIdentity(s.acc, s.w);
  }

  /** The text INA reads: the first W/8 characters of the feed's first
      line, or the typed text. */
  function TextRead(s: State, typed: Typed): (r: string)
    ensures s.auto ==> |r| <= s.w / 8
  {
    if s.auto then InaTake(s.queue, s.w) else typed.text
  }

  /** The effect of INA. */
  lemma {:induction false} EffectText(s: State, idx: nat, target: nat, mem: seq<nat>, typed: Typed)
    requires WellFormed(s)
    ensures var e := Effect(s, INA, idx, target, mem, typed);
      var val := TextRead(s, typed);
      e.queue == (if s.auto then AfterText(s.queue, |val|) else s.queue)
      && (idx == 0 ==> e.acc == InaValue(val))
      && (idx != 0 ==> e.acc == s.acc && idx < |e.mem| && e.mem[idx] == InaValue(val))
  {
  }

  /** INA packs the characters it reads into a word, the last character in
      the lowest byte, and stores it like INP; the feed loses the
      characters read and its empty lines. */
  lemma {:induction false} TextInput(s: State, typed: Typed)
    requires WellFormed(s) && Decoded(s) == Some(INA)
    ensures var r := Exec(s, typed); var val := TextRead(s, typed);
      r.outcome == Continue && r.next.pc == s.pc + 1
      && r.next.queue == (if s.auto then AfterText(s.queue, |val|) else s.queue)
      && (Operand(s) == 0 ==> r.next.acc == Wrap(InaValue(val), s.w))
      && (Operand(s) != 0 ==>
            r.next.acc == s.acc && Operand(s) < |r.next.mem| && r.next.mem[Operand(s)] == InaValue(val))
  {
    var touched := Touched(s, INA);
    ExecDecoded(s, typed);
    ExecuteAdvances(s, INA, Operand(s), Target(s), touched, typed);
    EffectText(s, Operand(s), Target(s), touched, typed);
    WrapIdentity(s.acc, s.w);
  }

  /** Text stored by INA at a nonzero operand prints back unchanged under
      OUA, when it has at most four characters with codes 1 to 127. */
  lemma {:induction false} TextEcho(s: State, typed: Typed)
    requires WellFormed(s) && Decoded(s) == Some(INA) && Operand(s) != 0
    requires !s.auto ==> Accepted(typed, s.w)
    requires |TextRead(s, typed)| <= 4
    requires forall i :: 0 <= i < |TextRead(s, typed)| ==> 1 <= TextRead(s, typed)[i] as int <= 127
    ensures Operand(s) < |Exec(s, typed).next.mem|
    ensures OuaChars(Exec(s, typed).next.mem[Operand(s)], s.w) == TextRead(s, typed)
  {
    TextInput(s, typed);
    InaOuaRoundTrip(TextRead(s, typed), s.w);
  }

  // ---------------------------------------------------------------------
  // Saving and loading

  /** The v2 text the Save button writes. */
  function SaveState(s: State): string
    requires WellFormed(s)
  {
    Codec.Save(s.o, s.w, s.pc, s.acc, s.mem)
  }

  /** Loading a text: the registers, and memory when every data line
      parses, come from the file; a rejected or unsupported text changes
      nothing, and the output and the input feed are never touched. A v2
      accumulator is read in the current width `s.w`, as the page does,
      and then renormalised for the loaded width. */
  function LoadState(s: State, text: string): (r: State)
    requires WellFormed(s)
    ensures WellFormed(r)
    ensures r.output == s.output && r.auto == s.auto && r.queue == s.queue
  {
    AfterLoad(s, Codec.Load(text, s.w))
  }

  /** Loading as evidently intended: the accumulator is read in the
      width the file was saved with. */
  function LoadStateIntended(s: State, text: string): (r: State)
    requires WellFormed(s)
    ensures WellFormed(r)
    ensures r.output == s.output && r.auto == s.auto && r.queue == s.queue
  {
    AfterLoad(s, Codec.LoadIntended(text))
  }

  /** The state after a load with the given outcome. */
  function AfterLoad(s: State, outcome: Codec.Loaded): (r: State)
    requires WellFormed(s)
    requires outcome.Registers? || outcome.Restored? ==> (outcome.h.o == 4 || outcome.h.o == 5) && outcome.h.o <= outcome.h.w
    ensures WellFormed(r)
  {
    match outcome
    case Registers(h) => s.(o := h.o, w := h.w, pc := h.pc, acc := Wrap(h.acc, h.w))
    case Restored(h, mem) => s.(o := h.o, w := h.w, pc := h.pc, acc := Wrap(h.acc, h.w), mem := mem)
    case Rejected => s
    case Unsupported => s
  }

  /** Loading what was saved from s into any state t restores O, W, PC
      and every memory word of s; the accumulator is the saved unsigned
      word read in t's width and wrapped to s's. */
  lemma {:induction false} SaveLoadState(s: State, t: State)
    requires WellFormed(s) && WellFormed(t)
    ensures var r := LoadState(t, SaveState(s));
      r.o == s.o && r.w == s.w && r.pc == s.pc && r.mem == s.mem
      && r.acc == Wrap(ToSigned(ToUnsigned(s.acc, s.w), t.w), s.w)
      && r.output == t.output && r.auto == t.auto && r.queue == t.queue
  {
    Codec.SaveLoad(s.o, s.w, s.pc, s.acc, s.mem, t.w);
  }

  /** Loaded into a state whose width is at least the saved one, a saved
      state comes back exactly. */
  lemma {:induction false} SaveLoadStateWider(s: State, t: State)
    requires WellFormed(s) && WellFormed(t) && t.w >= s.w
    ensures LoadState(t, SaveState(s)) == s.(output := t.output, auto := t.auto, queue := t.queue)
  {
    SaveLoadState(s, t);
    WrapReadWider(s.acc, s.w, t.w);
  }

  /** With the intended load, a saved state comes back exactly whatever
      state it is loaded into. */
  lemma {:induction false} SaveLoadStateIntended(s: State, t: State)
    requires WellFormed(s) && WellFormed(t)
    ensures LoadStateIntended(t, SaveState(s)) == s.(output := t.output, auto := t.auto, queue := t.queue)
  {
    Codec.SaveLoadIntended(s.o, s.w, s.pc, s.acc, s.mem);
    WrapIdentity(s.acc, s.w);
  }

  /** The page's load and the intended one differ only on a v2 file saved
      at another width than the current one. */
  lemma {:induction false} LoadStatesAgree(s: State, text: string)
    requires WellFormed(s)
    requires Codec.V2Header(text) == None || Codec.V2Header(text).value.w == s.w
    ensures LoadState(s, text) == LoadStateIntended(s, text)
  {
    Codec.LoadIntendedAgrees(text, s.w);
  }

  /** A text matching neither the v2 nor the v1 header changes nothing. */
  lemma {:induction false} UnrecognisedUnchanged(s: State, text: string)
    requires WellFormed(s) && Codec.V2Header(text) == None && Codec.V1Header(text) == None
    ensures LoadState(s, text) == s && LoadStateIntended(s, text) == s
  {
  }

  /** A v2 text with a data line that does not parse sets O, W, PC and the
      accumulator from its header but keeps memory. */
  lemma {:induction false} MalformedKeepsMemory(s: State, head: string, bad: string)
    requires WellFormed(s) && '\n' !in head && '\n' !in bad
    requires Codec.V2Header(head).Some? && Codec.V2Header(head).value.w >= Codec.V2Header(head).value.o
    requires Trim(bad) != [] && Codec.ParseBinLine(bad) == None
    ensures var r := LoadState(s, head + "\n" + bad); var f := Codec.V2Header(head).value;
      r.mem == s.mem && r.o == f.o && r.w == f.w && r.pc == f.pc
  {
    Codec.MalformedDataLine(head, bad, s.w);
    Codec.V2HeaderLine(head, bad);
  }

  // ---------------------------------------------------------------------
  // Reconfiguration

  /** Releasing the word-width slider at newW. The prompt's reply is
      `answer`; a cancelled prompt changes nothing. Otherwise memory is
      rewritten for the new address width and the accumulator is
      renormalised for the new W. */
  function WordWidthChanged(s: State, newW: nat, answer: Option<seq<int>>): (r: State)
    requires WellFormed(s) && 8 <= newW <= 64
    ensures WellFormed(r) && |r.mem| == |s.mem|
    ensures r.o == s.o && r.pc == s.pc && r.output == s.output && r.auto == s.auto && r.queue == s.queue
  {
    match Reconfig.WordWidthMemory(s.mem, AddressWidth(s), newW - s.o, answer)
    case None => s
    case Some(mem) => s.(w := newW, mem := mem, acc := Wrap(s.acc, newW))
  }

  lemma {:induction false} WordWidthStep(s: State, newW: nat, answer: Option<seq<int>>, aw: nat, naw: nat, mem: seq<nat>)
    requires WellFormed(s) && 8 <= newW <= 64 && aw == AddressWidth(s) && naw == newW - s.o
    requires Reconfig.WordWidthMemory(s.mem, aw, naw, answer) == Some(mem)
    ensures WordWidthChanged(s, newW, answer) == s.(w := newW, mem := mem, acc := Wrap(s.acc, newW))
  {
  }

  /** The fields a word-width round trip brings back: widening keeps the
      accumulator's value and narrowing back to W restores it. */
  lemma {:induction false} WordWidthShift(s: State, newW: nat, mem: seq<nat>)
    requires WellFormed(s) && s.w <= newW
    ensures var t := s.(w := newW, mem := mem, acc := Wrap(s.acc, newW));
      WellFormed(t) && AddressWidth(t) == newW - s.o && AddressWidth(s) == s.w - s.o &&
      t.(w := s.w, mem := s.mem, acc := Wrap(t.acc, s.w)) == s
  {
    WrapWider(s.acc, s.w, newW);
  }

  /** The second half of a word-width round trip. */
  lemma {:induction false} WordWidthBack(s: State, newW: nat, aw: nat, naw: nat, mem: seq<nat>)
    requires WellFormed(s) && 8 <= s.w <= newW <= 64 && aw == AddressWidth(s) && naw == newW - s.o
    requires Reconfig.WordWidthMemory(mem, naw, aw, Some([])) == Some(s.mem)
    ensures WordWidthChanged(s.(w := newW, mem := mem, acc := Wrap(s.acc, newW)), s.w, Some([])) == s
  {
    var t := s.(w := newW, mem := mem, acc := Wrap(s.acc, newW));
    WordWidthShift(s, newW, mem);
    WordWidthStep(t, s.w, Some([]), naw, aw, s.mem);
  }

  /** Widening the word and narrowing it back, accepting every rewrite,
      restores the state. */
  lemma {:induction false} WordWidthRoundTrip(s: State, newW: nat)
    requires WellFormed(s) && 8 <= s.w <= newW <= 64
    ensures WordWidthChanged(WordWidthChanged(s, newW, Some([])), s.w, Some([])) == s
  {
    var aw, naw := AddressWidth(s), newW - s.o;
    Reconfig.WordWidthRoundTrip(s.mem, aw, naw);
    var mem := Reconfig.WordWidthMemory(s.mem, aw, naw, Some([])).value;
    WordWidthStep(s, newW, Some([]), aw, naw, mem);
    WordWidthBack(s, newW, aw, naw, mem);
  }

  /** Every memory word is zero. */
  predicate AllZero(mem: seq<nat>)
  {
    forall i :: 0 <= i < |mem| ==> mem[i] == 0
  }

  /** Choosing opcode width newO: 4 to 5 bits refits the instructions to
      the shorter address, 5 to 4 bits cuts their opcodes to 4 bits. A
      cancelled prompt, or the width already chosen, changes nothing.
      With W = O = 4 (a loaded file can give it) and 5 chosen, the
      rewrite evaluates `2n ** -1n` on the first nonzero word, which
      throws before memory is set, so nothing changes; when every word is
      zero the handler completes, O becomes 5 and the next render throws
      on the same negative power: that outcome is None. */
  function OpcodeWidthChanged(s: State, newO: nat, answer: Option<seq<int>>): (r: Option<State>)
    requires WellFormed(s) && (newO == 4 || newO == 5)
    ensures r == None <==> newO > s.w && AllZero(s.mem)
    ensures r.Some? ==> WellFormed(r.value) && (r.value.o == s.o || r.value.o == newO)
    ensures r.Some? ==> (r.value.w == s.w && r.value.pc == s.pc && r.value.acc == s.acc
      && r.value.output == s.output && r.value.auto == s.auto && r.value.queue == s.queue)
    ensures r.Some? && newO > s.w ==> r.value == s
  {
    var aw := AddressWidth(s);
    if newO == s.o then Some(s)
    else if newO > s.w then (if AllZero(s.mem) then None else Some(s))
    else
      var rewritten := if newO > s.o then Reconfig.WidenMemory(s.mem, aw, answer) else Reconfig.NarrowMemory(s.mem, aw, answer);
      match rewritten
      case None => Some(s)
      case Some(mem) => Some(s.(o := newO, mem := mem))
  }

  /** Accepted widening: the state takes the new opcode width and memory. */
  lemma {:induction false} OpcodeWidenStep(s: State, answer: Option<seq<int>>, aw: nat, mem: seq<nat>)
    requires WellFormed(s) && s.o == 4 && 5 <= s.w && aw == AddressWidth(s)
    requires Reconfig.WidenMemory(s.mem, aw, answer) == Some(mem)
    ensures OpcodeWidthChanged(s, 5, answer) == Some(s.(o := 5, mem := mem))
  {
  }

  /** Accepted narrowing: the state takes the new opcode width and memory. */
  lemma {:induction false} OpcodeNarrowStep(s: State, answer: Option<seq<int>>, aw: nat, mem: seq<nat>)
    requires WellFormed(s) && s.o == 5 && aw == AddressWidth(s)
    requires Reconfig.NarrowMemory(s.mem, aw, answer) == Some(mem)
    ensures OpcodeWidthChanged(s, 4, answer) == Some(s.(o := 4, mem := mem))
  {
  }

  /** The state after widening, with the address one bit narrower, and the
      way back to the original. */
  lemma {:induction false} OpcodeWidenShift(s: State, naw: nat, mem: seq<nat>)
    requires WellFormed(s) && s.o == 4 && 5 <= s.w && AddressWidth(s) == naw + 1
    ensures var t := s.(o := 5, mem := mem);
      WellFormed(t) && AddressWidth(t) == naw && t.(o := 4, mem := s.mem) == s
  {
  }

  /** The state after narrowing, with the address one bit wider, and the
      way back to the original. */
  lemma {:induction false} OpcodeNarrowShift(s: State, aw: nat, mem: seq<nat>)
    requires WellFormed(s) && s.o == 5 && aw == AddressWidth(s)
    ensures var t := s.(o := 4, mem := mem);
      WellFormed(t) && 5 <= t.w && AddressWidth(t) == aw + 1 && t.(o := 5, mem := s.mem) == s
  {
  }

  /** The second half of an opcode-width round trip from 4 bits. */
  lemma {:induction false} OpcodeWidenBack(s: State, naw: nat, mem: seq<nat>)
    requires WellFormed(s) && s.o == 4 && 5 <= s.w && AddressWidth(s) == naw + 1
    requires Reconfig.NarrowMemory(mem, naw, Some([])) == Some(s.mem)
    ensures OpcodeWidthChanged(s.(o := 5, mem := mem), 4, Some([])) == Some(s)
  {
    var t := s.(o := 5, mem := mem);
    OpcodeWidenShift(s, naw, mem);
    OpcodeNarrowStep(t, Some([]), naw, s.mem);
  }

  /** Going from 4 to 5 opcode bits and back restores a memory of W-bit
      words in which no top address bit was set: no prompt appears either
      way and the reply does not matter. */
  lemma {:induction false} OpcodeWidenRestores(s: State, answer: Option<seq<int>>)
    requires WellFormed(s) && s.o == 4 && 5 <= s.w
    requires Reconfig.CountTopAddressBit(s.mem, AddressWidth(s)) == 0
    requires forall i :: 0 <= i < |s.mem| ==> IsWord(s.mem[i], s.w)
    ensures OpcodeWidthChanged(OpcodeWidthChanged(s, 5, answer).value, 4, Some([])) == Some(s)
  {
    assert Pow2(AddressWidth(s) + 4) == Pow2(s.w);
    OpcodeWidenRestoresAt(s, answer, AddressWidth(s), AddressWidth(s) - 1);
  }

  /** OpcodeWidenRestores with the address widths before and after named. */
  lemma {:induction false} OpcodeWidenRestoresAt(s: State, answer: Option<seq<int>>, aw: nat, naw: nat)
    requires WellFormed(s) && s.o == 4 && 5 <= s.w && aw == AddressWidth(s) && aw >= 1
    requires naw == aw - 1 && AddressWidth(s) == naw + 1
    requires Reconfig.CountTopAddressBit(s.mem, aw) == 0
    requires forall i :: 0 <= i < |s.mem| ==> s.mem[i] < Pow2(aw + 4)
    ensures OpcodeWidthChanged(OpcodeWidthChanged(s, 5, answer).value, 4, Some([])) == Some(s)
  {
    OpcodeWidenMemories(s, answer, aw, naw);
    var mem := Reconfig.WidenMemory(s.mem, aw, answer).value;
    OpcodeWidenStep(s, answer, aw, mem);
    OpcodeWidenBack(s, naw, mem);
  }

  /** The memory round trip behind OpcodeWidenRestores, at address widths
      aw and naw. */
  lemma {:induction false} OpcodeWidenMemories(s: State, answer: Option<seq<int>>, aw: nat, naw: nat)
    requires aw >= 1 && naw == aw - 1
    requires Reconfig.CountTopAddressBit(s.mem, aw) == 0
    requires forall i :: 0 <= i < |s.mem| ==> s.mem[i] < Pow2(aw + 4)
    ensures Reconfig.WidenMemory(s.mem, aw, answer).Some?
    ensures Reconfig.NarrowMemory(Reconfig.WidenMemory(s.mem, aw, answer).value, naw, Some([])) == Some(s.mem)
  {
    Reconfig.WidenNarrowRoundTrip(s.mem, aw, answer);
  }

  /** The second half of an opcode-width round trip from 5 bits. */
  lemma {:induction false} OpcodeNarrowBack(s: State, aw: nat, naw: nat, mem: seq<nat>)
    requires WellFormed(s) && s.o == 5 && aw == AddressWidth(s) && naw == aw + 1
    requires Reconfig.WidenMemory(mem, naw, Some([])) == Some(s.mem)
    ensures OpcodeWidthChanged(s.(o := 4, mem := mem), 5, Some([])) == Some(s)
  {
    var t := s.(o := 4, mem := mem);
    OpcodeNarrowShift(s, aw, mem);
    OpcodeWidenStep(t, Some([]), naw, s.mem);
  }

  /** Going from 5 to 4 opcode bits and back restores memory when no
      opcode was above 15. */
  lemma {:induction false} OpcodeNarrowRestores(s: State, answer: Option<seq<int>>)
    requires WellFormed(s) && s.o == 5
    requires Reconfig.CountOpcodeAbove(s.mem, AddressWidth(s), 15) == 0
    ensures OpcodeWidthChanged(OpcodeWidthChanged(s, 4, answer).value, 5, Some([])) == Some(s)
  {
    OpcodeNarrowRestoresAt(s, answer, AddressWidth(s));
  }

  /** OpcodeNarrowRestores with the address width named. */
  lemma {:induction false} OpcodeNarrowRestoresAt(s: State, answer: Option<seq<int>>, aw: nat)
    requires WellFormed(s) && s.o == 5 && aw == AddressWidth(s)
    requires Reconfig.CountOpcodeAbove(s.mem, aw, 15) == 0
    ensures OpcodeWidthChanged(OpcodeWidthChanged(s, 4, answer).value, 5, Some([])) == Some(s)
  {
    Reconfig.NarrowWidenRoundTrip(s.mem, aw, answer);
    var mem := Reconfig.NarrowMemory(s.mem, aw, answer).value;
    OpcodeNarrowStep(s, answer, aw, mem);
    OpcodeNarrowBack(s, aw, aw + 1, mem);
  }

}
