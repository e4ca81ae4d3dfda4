/** The `.vsml` file format. Version 2 (written and read): a header line
    `v2;O,W,PC,ACC` with O and W in decimal and PC and the unsigned
    accumulator in binary, then one line per memory word in binary padded
    to W digits. Version 1 (read only): `v1;W,PC,ACC` in decimal, then one
    line holding every word's W digits back to back, in the older 4-bit
    instruction numbering. */
module Codec {
  import opened Words
  import opened Isa
  import opened Text

  /** The registers a load sets. `acc` is the value assigned, before the
      accumulator is brought into the new W's range. */
  datatype Header = Header(o: nat, w: nat, pc: nat, acc: int)

  /** What loading a text does:
      - Rejected: nothing changes (unknown format, or a header that does
        not match);
      - Registers: the registers are set but memory is not (a data line
        that does not parse, or a v1 file without a data line);
      - Restored: registers and memory are replaced;
      - Unsupported: a header the processor cannot run with (W below O, or
        a v1 width outside 4..31). */
  datatype Loaded =
    | Rejected
    | Registers(h: Header)
    | Restored(h: Header, mem: seq<nat>)
    | Unsupported

  /** One memory word as saved: binary, left-padded with zeros to W digits. */
  function SavedWord(v: nat, w: nat): string
  {
    PadStart(FormatNat(v, 2), w, '0')
  }

  function SavedWords(mem: seq<nat>, w: nat): (r: seq<string>)
    ensures |r| == |mem|
  {
    seq(|mem|, i requires 0 <= i < |mem| => SavedWord(mem[i], w))
  }

  /** The v2 header line. */
  function HeaderLine(o: nat, w: nat, pc: nat, u: nat): string
  {
    "v2;" + FormatNat(o, 10) + "," + FormatNat(w, 10) + "," + FormatNat(pc, 2) + "," + FormatNat(u, 2)
  }

  /** The text the Save button writes. */
  function Save(o: nat, w: nat, pc: nat, acc: int, mem: seq<nat>): string
    requires w >= 1 && InRange(acc, w)
  {
    SignedOfUnsigned(acc, w);
    HeaderLine(o, w, pc, ToUnsigned(acc, w) as nat) + "\n" + Join(SavedWords(mem, w), '\n')
  }

  /** A maximal non-empty run of digits followed by a comma: its value and
      the text after the comma. */
  function DigitsThenComma(s: string, base: nat): Option<(nat, string)>
  {
    var n := Run(s, base);
    if n == 0 || n == |s| || s[n] != ',' then None
    else Some((ValueIn(s[..n], base), s[n + 1..]))
  }

  /** A non-empty run of digits at the start: its value. */
  function LeadingDigits(s: string, base: nat): Option<nat>
  {
    var n := Run(s, base);
    if n == 0 then None else Some(ValueIn(s[..n], base))
  }

  datatype V2Fields = V2Fields(o: nat, w: nat, pc: nat, acc: nat)

  /** `/^v2;(4|5),(\d+),([01]+),([01]+)/`, with no end anchor. */
  function V2Header(text: string): Option<V2Fields>
  {
    if |text| < 5 || text[..3] != "v2;" || !(text[3] == '4' || text[3] == '5') || text[4] != ',' then None
    else match DigitsThenComma(text[5..], 10)
      case None => None
      case Some(wf) =>
        match DigitsThenComma(wf.1, 2)
        case None => None
        case Some(pf) =>
          match LeadingDigits(pf.1, 2)
          case None => None
          case Some(acc) => Some(V2Fields(DigitValue(text[3]), wf.0, pf.0, acc))
  }

  datatype V1Fields = V1Fields(w: nat, pc: nat, acc: nat)

  /** `/^v1;(\d+),(\d+),(\d+)/`, with no end anchor. */
  function V1Header(text: string): Option<V1Fields>
  {
    if |text| < 3 || text[..3] != "v1;" then None
    else match DigitsThenComma(text[3..], 10)
      case None => None
      case Some(wf) =>
        match DigitsThenComma(wf.1, 10)
        case None => None
        case Some(pf) =>
          match LeadingDigits(pf.1, 10)
          case None => None
          case Some(acc) => Some(V1Fields(wf.0, pf.0, acc))
  }

  /** `BigInt('0b' + line)`: the line must be binary digits, optionally
      followed by white space (leading white space lands after the prefix
      and is refused). */
  function ParseBinLine(line: string): Option<nat>
  {
    var t := TrimEnd(line);
    if t != [] && IsDigits(t, 2) then Some(ValueIn(t, 2)) else None
  }

  /** The words of the data lines, or None if any line does not parse. */
  function ParseWords(lines: seq<string>): (r: Option<seq<nat>>)
    ensures r.Some? ==> |r.value| == |lines|
  {
    if lines == [] then Some([])
    else match ParseBinLine(lines[0])
      case None => None
      case Some(v) =>
        match ParseWords(lines[1..])
        case None => None
        case Some(vs) => Some([v] + vs)
  }

  /** `parseInt(chunk, 2)`: leading white space and a sign are skipped, then
      the longest run of binary digits is read. No digits gives NaN, which
      the bit operations that follow treat as 0. */
  function ParseIntBin(chunk: string): int
  {
    var t := TrimStart(chunk);
    var negative := t != [] && t[0] == '-';
    var body := if t != [] && (t[0] == '-' || t[0] == '+') then t[1..] else t;
    var n := Run(body, 2);
    if negative then -(ValueIn(body[..n], 2) as int) else ValueIn(body[..n], 2)
  }

  /** `ToUint32`, the unsigned 32-bit view `>>>` and `&` work on. */
  function Uint32(x: int): nat
  {
    x % 0x1_0000_0000
  }

  /** One v1 word in today's numbering:
      `(seg & (2^(W-4) - 1)) + (legacy[seg >>> (W-4)] << (W-4))`. */
  function V1Word(chunk: string, w: nat): nat
    requires w >= 4
  {
    LegacyValue(Uint32(ParseIntBin(chunk)), w - 4)
  }

  /** `(seg & mask) + (v2ins << aw)` for a 32-bit value u. */
  function LegacyValue(u: nat, aw: nat): nat
  {
    Address(u, aw) + ShiftLeft(Remap(Opcode(u, aw)), aw)
  }

  /** The words of the v1 data line, cut into chunks of W characters (the
      last may be shorter). */
  function V1Words(line: string, w: nat): seq<nat>
    requires w >= 4
    decreases |line|
  {
    if line == [] then []
    else
      var k := if |line| < w then |line| else w;
      [V1Word(line[..k], w)] + V1Words(line[k..], w)
  }

  /** Splicing the first chunk off moves its word to the end of the items. */
  lemma {:induction false} SpliceStep(items: seq<nat>, blob: string, w: nat, k: nat)
    requires w >= 4 && blob != [] && k == (if |blob| < w then |blob| else w)
    ensures items + V1Words(blob, w) == (items + [V1Word(blob[..k], w)]) + V1Words(blob[k..], w)
  {
    var word := V1Word(blob[..k], w);
    assert V1Words(blob, w) == [word] + V1Words(blob[k..], w);
  }

  /** The v1 loader's loop: splice W characters off the front of the line
      until it is used up, pushing one word per chunk. */
  method SpliceWords(line: string, w: nat) returns (items: seq<nat>)
    requires w >= 4
    ensures items == V1Words(line, w)
  {
    var blob := line;
    items := [];
    while |blob| > 0
      invariant items + V1Words(blob, w) == V1Words(line, w)
      decreases |blob|
    {
      var k := if |blob| < w then |blob| else w;
      SpliceStep(items, blob, w, k);
      items := items + [V1Word(blob[..k], w)];
      blob := blob[k..];
    }
  }

  /** What loading a text does, given the current word width, whose
      two's-complement reading the v2 accumulator goes through. */
  function Load(text: string, curW: nat): (r: Loaded)
    requires curW >= 1
    ensures r.Registers? || r.Restored? ==> (r.h.o == 4 || r.h.o == 5) && r.h.o <= r.h.w
  {
    match V2Header(text)
    case Some(f) =>
      if f.w < f.o then Unsupported
      else
        var h := Header(f.o, f.w, f.pc, ToSigned(f.acc, curW));
        (match ParseWords(DropBlank(Split(text, '\n')[1..]))
         case None => Registers(h)
         case Some(mem) => Restored(h, mem))
    case None =>
      match V1Header(text)
      case None => Rejected
      case Some(f) =>
        if f.w < 4 || f.w > 31 then Unsupported
        else
          var h := Header(4, f.w, f.pc, f.acc);
          var lines := Split(text, '\n');
          if |lines| < 2 then Registers(h) else Restored(h, V1Words(lines[1], f.w))
  }

  // ---------------------------------------------------------------------
  // The v2 round trip

  /** Decimal and binary digit strings hold only the characters 0 to 9. */
  lemma {:induction false} DigitChars(s: string, base: nat, c: char)
    requires base <= 10 && IsDigits(s, base) && c in s
    ensures '0' <= c <= '9'
  {
    var i :| 0 <= i < |s| && s[i] == c;
  }

  lemma {:induction false} DigitsThenCommaOf(d: string, rest: string, base: nat)
    requires base <= 10 && d != [] && IsDigits(d, base)
    ensures DigitsThenComma(d + [','] + rest, base) == Some((ValueIn(d, base), rest))
  {
    var s := d + [','] + rest;
    assert s == d + ([','] + rest);
    RunOf(d, [','] + rest, base);
    assert s[..|d|] == d && s[|d|] == ',' && s[|d| + 1..] == rest;
  }

  lemma {:induction false} LeadingDigitsOf(d: string, rest: string, base: nat)
    requires base <= 10 && d != [] && IsDigits(d, base)
    requires rest != [] ==> DigitValue(rest[0]) >= base
    ensures LeadingDigits(d + rest, base) == Some(ValueIn(d, base))
  {
    RunOf(d, rest, base);
    assert (d + rest)[..|d|] == d;
  }

  lemma {:induction false} SingleDigit(o: nat)
    requires o == 4 || o == 5
    ensures FormatNat(o, 10) == [DigitChar(o)] && DigitValue(DigitChar(o)) == o
  {
  }

  /** A header built from a digit and three digit strings matches the v2
      pattern, whatever follows the newline. */
  lemma {:induction false} V2HeaderOf(c: char, sw: string, sp: string, su: string, data: string)
    requires c == '4' || c == '5'
    requires sw != [] && IsDigits(sw, 10) && sp != [] && IsDigits(sp, 2) && su != [] && IsDigits(su, 2)
    ensures V2Header("v2;" + [c] + "," + sw + "," + sp + "," + su + "\n" + data)
      == Some(V2Fields(DigitValue(c), ValueIn(sw, 10), ValueIn(sp, 2), ValueIn(su, 2)))
  {
    var r3 := su + ("\n" + data);
    var r2 := sp + [','] + r3;
    var r1 := sw + [','] + r2;
    HeaderShape(c, sw, sp, su, data);
    V2HeaderAfterWidth(c, r1);
    DigitsThenCommaOf(sw, r2, 10);
    DigitsThenCommaOf(sp, r3, 2);
    LeadingDigitsOf(su, "\n" + data, 2);
  }

  /** The header text, regrouped from the right. */
  lemma {:induction false} HeaderShape(c: char, sw: string, sp: string, su: string, data: string)
    ensures "v2;" + [c] + "," + sw + "," + sp + "," + su + "\n" + data
      == "v2;" + [c] + [','] + (sw + [','] + (sp + [','] + (su + ("\n" + data))))
  {
  }

  /** After `v2;`, an opcode-width digit and a comma, the pattern reads the rest. */
  lemma {:induction false} V2HeaderAfterWidth(c: char, r1: string)
    requires c == '4' || c == '5'
    ensures var text := "v2;" + [c] + [','] + r1;
      text[..3] == "v2;" && text[3] == c && text[4] == ',' && text[5..] == r1
  {
  }

  /** The header fields of a saved text read back. */
  lemma {:induction false} V2HeaderOfSave(o: nat, w: nat, pc: nat, u: nat, data: string)
    requires o == 4 || o == 5
    ensures V2Header(HeaderLine(o, w, pc, u) + "\n" + data) == Some(V2Fields(o, w, pc, u))
  {
    SingleDigit(o);
    var sw, sp, su := FormatNat(w, 10), FormatNat(pc, 2), FormatNat(u, 2);
    assert HeaderLine(o, w, pc, u) + "\n" + data == "v2;" + [DigitChar(o)] + "," + sw + "," + sp + "," + su + "\n" + data;
    V2HeaderOf(DigitChar(o), sw, sp, su, data);
  }

  lemma {:induction false} SavedWordDigits(v: nat, w: nat)
    ensures SavedWord(v, w) != [] && IsDigits(SavedWord(v, w), 2)
    ensures ValueIn(SavedWord(v, w), 2) == v
  {
    PadValue(FormatNat(v, 2), w);
  }

  /** A digit string neither starts nor ends with white space. */
  lemma {:induction false} DigitEnds(s: string, base: nat)
    requires base <= 10 && s != [] && IsDigits(s, base)
    ensures !IsJsSpace(s[0]) && !IsJsSpace(s[|s| - 1])
  {
    assert DigitValue(s[0]) < base && DigitValue(s[|s| - 1]) < base;
  }

  /** Lines made of binary digits only. */
  predicate BinaryLines(ls: seq<string>)
  {
    forall i :: 0 <= i < |ls| ==> ls[i] != [] && IsDigits(ls[i], 2)
  }

  function LineValues(ls: seq<string>): (r: seq<nat>)
    ensures |r| == |ls|
  {
    seq(|ls|, i requires 0 <= i < |ls| => ValueIn(ls[i], 2))
  }

  /** A binary line has no newline and nothing to trim. */
  lemma {:induction false} BinaryLineShape(line: string)
    requires line != [] && IsDigits(line, 2)
    ensures Trim(line) == line && '\n' !in line
  {
    DigitEnds(line, 2);
    TrimUnchanged(line);
    if '\n' in line {
      DigitChars(line, 2, '\n');
    }
  }

  /** A binary line parses to its value. */
  lemma {:induction false} ParseBinaryLine(line: string)
    requires line != [] && IsDigits(line, 2)
    ensures ParseBinLine(line) == Some(ValueIn(line, 2))
  {
    DigitEnds(line, 2);
  }

  lemma {:induction false} ParseBinaryLines(ls: seq<string>)
    requires BinaryLines(ls)
    ensures ParseWords(ls) == Some(LineValues(ls))
  {
    if ls != [] {
      assert BinaryLines(ls[1..]) by {
        forall i | 0 <= i < |ls[1..]|
          ensures ls[1..][i] != [] && IsDigits(ls[1..][i], 2)
        {
          assert ls[1..][i] == ls[i + 1];
        }
      }
      ParseBinaryLines(ls[1..]);
      ParseBinaryLine(ls[0]);
      assert ParseWords(ls) == Some([ValueIn(ls[0], 2)] + LineValues(ls[1..]));
      assert [ValueIn(ls[0], 2)] + LineValues(ls[1..]) == LineValues(ls);
    }
  }

  /** Splitting after a first line leaves the lines of the rest. */
  lemma {:induction false} LinesAfterHead(head: string, rest: string)
    requires '\n' !in head
    ensures Split(head + "\n" + rest, '\n')[1..] == Split(rest, '\n')
  {
    assert head + "\n" + rest == head + ['\n'] + rest;
    SplitFirstLine(head, rest, '\n');
  }

  /** Joined binary lines split and filter back to themselves. */
  lemma {:induction false} BinaryLinesShape(ls: seq<string>)
    requires BinaryLines(ls)
    ensures forall i :: 0 <= i < |ls| ==> '\n' !in ls[i] && Trim(ls[i]) != []
  {
    forall i | 0 <= i < |ls|
      ensures '\n' !in ls[i] && Trim(ls[i]) != []
    {
      BinaryLineShape(ls[i]);
    }
  }

  lemma {:induction false} NoLines()
    ensures DropBlank(Split(Join([], '\n'), '\n')) == []
  {
    assert Split(Join([], '\n'), '\n') == [[]];
    assert Trim([]) == [];
  }

  /** Joining non-blank lines without newlines and splitting again gives them back. */
  lemma {:induction false} JoinedLines(ls: seq<string>)
    requires forall i :: 0 <= i < |ls| ==> '\n' !in ls[i] && Trim(ls[i]) != []
    ensures DropBlank(Split(Join(ls, '\n'), '\n')) == ls
  {
    if ls == [] {
      NoLines();
    } else {
      SplitJoin(ls, '\n');
      DropBlankKeeps(ls);
    }
  }

  /** The data lines of a text whose first line is followed by binary lines
      are those lines. */
  lemma {:induction false} DataLinesOf(head: string, ls: seq<string>)
    requires '\n' !in head && BinaryLines(ls)
    ensures DropBlank(Split(head + "\n" + Join(ls, '\n'), '\n')[1..]) == ls
  {
    LinesAfterHead(head, Join(ls, '\n'));
    BinaryLinesShape(ls);
    JoinedLines(ls);
  }

  /** Saved words are binary lines whose values are the memory words. */
  lemma {:induction false} SavedWordsAreBinary(mem: seq<nat>, w: nat)
    ensures BinaryLines(SavedWords(mem, w))
    ensures LineValues(SavedWords(mem, w)) == mem
  {
    var ls := SavedWords(mem, w);
    forall i | 0 <= i < |mem|
      ensures ls[i] != [] && IsDigits(ls[i], 2) && ValueIn(ls[i], 2) == mem[i]
    {
      SavedWordDigits(mem[i], w);
    }
  }

  lemma {:induction false} HeaderLineNoNewline(o: nat, w: nat, pc: nat, u: nat)
    ensures '\n' !in HeaderLine(o, w, pc, u)
  {
    var so, sw, sp, su := FormatNat(o, 10), FormatNat(w, 10), FormatNat(pc, 2), FormatNat(u, 2);
    if '\n' in so { DigitChars(so, 10, '\n'); }
    if '\n' in sw { DigitChars(sw, 10, '\n'); }
    if '\n' in sp { DigitChars(sp, 2, '\n'); }
    if '\n' in su { DigitChars(su, 2, '\n'); }
    assert HeaderLine(o, w, pc, u) == "v2;" + so + "," + sw + "," + sp + "," + su;
  }

  /** Loading a saved text restores O, W, PC and every memory word, and
      reads the saved accumulator in the current width. */
  lemma {:induction false} SaveLoad(o: nat, w: nat, pc: nat, acc: int, mem: seq<nat>, curW: nat)
    requires (o == 4 || o == 5) && w >= o && curW >= 1 && InRange(acc, w)
    ensures Load(Save(o, w, pc, acc, mem), curW)
      == Restored(Header(o, w, pc, ToSigned(ToUnsigned(acc, w), curW)), mem)
  {
    SignedOfUnsigned(acc, w);
    var u: nat := ToUnsigned(acc, w);
    var head := HeaderLine(o, w, pc, u);
    var ls := SavedWords(mem, w);
    V2HeaderOfSave(o, w, pc, u, Join(ls, '\n'));
    HeaderLineNoNewline(o, w, pc, u);
    SavedWordsAreBinary(mem, w);
    DataLinesOf(head, ls);
    ParseBinaryLines(ls);
  }

  /** At the width it was saved with, the accumulator comes back too. */
  lemma {:induction false} SaveLoadSameWidth(o: nat, w: nat, pc: nat, acc: int, mem: seq<nat>)
    requires (o == 4 || o == 5) && w >= o && InRange(acc, w)
    ensures Load(Save(o, w, pc, acc, mem), w) == Restored(Header(o, w, pc, acc), mem)
  {
    SaveLoad(o, w, pc, acc, mem, w);
    SignedOfUnsigned(acc, w);
  }

  /** Load as evidently intended: a v2 accumulator is read in the width
      the file was saved with, which its header states. */
  function LoadIntended(text: string): (r: Loaded)
    ensures r.Registers? || r.Restored? ==> (r.h.o == 4 || r.h.o == 5) && r.h.o <= r.h.w
  {
    var v2 := V2Header(text);
    Load(text, if v2.Some? && v2.value.w >= 1 then v2.value.w else 1)
  }

  /** Whatever the current width, a saved text loads back exactly. */
  lemma {:induction false} SaveLoadIntended(o: nat, w: nat, pc: nat, acc: int, mem: seq<nat>)
    requires (o == 4 || o == 5) && w >= o && InRange(acc, w)
    ensures LoadIntended(Save(o, w, pc, acc, mem)) == Restored(Header(o, w, pc, acc), mem)
  {
    SignedOfUnsigned(acc, w);
    var u: nat := ToUnsigned(acc, w);
    V2HeaderOfSave(o, w, pc, u, Join(SavedWords(mem, w), '\n'));
    SaveLoadSameWidth(o, w, pc, acc, mem);
  }

  /** The intended load differs from the written one only in a v2 file
      saved at another width than the current one. */
  lemma {:induction false} LoadIntendedAgrees(text: string, curW: nat)
    requires curW >= 1
    requires V2Header(text) == None || V2Header(text).value.w == curW
    ensures LoadIntended(text) == Load(text, curW)
  {
  }

  /** A file saved at 16 bits with accumulator 200, loaded while W is 8,
      comes back with accumulator -56; the intended load gives 200. */
  lemma {:induction false} NarrowerWidthCorrupts()
    ensures Load(Save(4, 16, 0, 200, []), 8) == Restored(Header(4, 16, 0, -56), [])
    ensures LoadIntended(Save(4, 16, 0, 200, [])) == Restored(Header(4, 16, 0, 200), [])
  {
    Pow2Values();
    var p7 := Pow2(7);
    var p15 := Pow2(15);
    assert p7 == 128;
    Pow2Add(7, 8);
    assert InRange(200, 16);
    SaveLoad(4, 16, 0, 200, [], 8);
    SaveLoadIntended(4, 16, 0, 200, []);
  }

  /** A text that starts with neither `v1;` nor `v2;` changes nothing. */
  lemma {:induction false} UnknownFormatRejected(text: string, curW: nat)
    requires curW >= 1
    requires |text| < 3 || (text[..3] != "v1;" && text[..3] != "v2;")
    ensures Load(text, curW) == Rejected
  {
  }

  /** A v2 header with a malformed data line sets the registers only. */
  lemma {:induction false} MalformedDataLine(head: string, bad: string, curW: nat)
    requires curW >= 1 && '\n' !in head && '\n' !in bad
    requires V2Header(head).Some? && V2Header(head).value.w >= V2Header(head).value.o
    requires Trim(bad) != [] && ParseBinLine(bad) == None
    ensures Load(head + "\n" + bad, curW).Registers?
  {
    OneBadLine(head, bad);
    V2HeaderLine(head, bad);
    RegistersOnly(head + "\n" + bad, curW);
  }

  /** A v2 load whose data lines do not all parse sets the registers only. */
  lemma {:induction false} RegistersOnly(text: string, curW: nat)
    requires curW >= 1
    requires V2Header(text).Some? && V2Header(text).value.w >= V2Header(text).value.o
    requires ParseWords(DropBlank(Split(text, '\n')[1..])) == None
    ensures Load(text, curW).Registers?
  {
  }

  lemma {:induction false} OneBadLine(head: string, bad: string)
    requires '\n' !in head && '\n' !in bad
    requires Trim(bad) != [] && ParseBinLine(bad) == None
    ensures ParseWords(DropBlank(Split(head + "\n" + bad, '\n')[1..])) == None
  {
    LinesAfterHead(head, bad);
    SplitNoSeparator(bad, '\n');
    assert DropBlank([bad]) == [bad];
  }

  /** A line after a matching v2 header does not change the header. */
  lemma {:induction false} V2HeaderLine(head: string, line: string)
    requires V2Header(head).Some?
    ensures V2Header(head + "\n" + line) == V2Header(head)
  {
    V2HeaderPrefix(head, "\n" + line);
    assert head + "\n" + line == head + ("\n" + line);
  }

  /** Text after a matching v2 header does not change the header. */
  lemma {:induction false} V2HeaderPrefix(head: string, tail: string)
    requires V2Header(head).Some?
    requires tail != [] ==> DigitValue(tail[0]) >= 2
    ensures V2Header(head + tail) == V2Header(head)
  {
    var t := head + tail;
    assert t[..3] == head[..3] && t[3] == head[3] && t[4] == head[4];
    assert t[5..] == head[5..] + tail;
    var wf := DigitsThenComma(head[5..], 10).value;
    DigitsThenCommaExtend(head[5..], tail, 10);
    var pf := DigitsThenComma(wf.1, 2).value;
    DigitsThenCommaExtend(wf.1, tail, 2);
    LeadingDigitsExtend(pf.1, tail, 2);
  }

  lemma {:induction false} DigitsThenCommaExtend(s: string, tail: string, base: nat)
    requires DigitsThenComma(s, base).Some?
    ensures DigitsThenComma(s + tail, base)
      == Some((DigitsThenComma(s, base).value.0, DigitsThenComma(s, base).value.1 + tail))
  {
    var n := Run(s, base);
    assert s == s[..n] + s[n..];
    assert s + tail == s[..n] + (s[n..] + tail);
    RunOf(s[..n], s[n..] + tail, base);
    assert (s + tail)[..n] == s[..n];
    assert (s + tail)[n + 1..] == s[n + 1..] + tail;
  }

  lemma {:induction false} LeadingDigitsExtend(s: string, tail: string, base: nat)
    requires LeadingDigits(s, base).Some?
    requires tail != [] ==> DigitValue(tail[0]) >= base
    ensures LeadingDigits(s + tail, base) == LeadingDigits(s, base)
  {
    var n := Run(s, base);
    assert s == s[..n] + s[n..];
    if n < |s| {
      assert s + tail == s[..n] + (s[n..] + tail);
      RunOf(s[..n], s[n..] + tail, base);
    } else {
      assert s + tail == s[..n] + tail;
      RunOf(s[..n], tail, base);
    }
    assert (s + tail)[..n] == s[..n];
  }

  // ---------------------------------------------------------------------
  // The v1 loader

  /** A v1 load forces O to 4. */
  lemma {:induction false} V1ForcesFourBitOpcodes(text: string, curW: nat)
    requires curW >= 1 && V2Header(text) == None && V1Header(text).Some?
    requires 4 <= V1Header(text).value.w <= 31
    ensures Load(text, curW).Registers? || Load(text, curW).Restored?
    ensures Load(text, curW).h.o == 4 && Load(text, curW).h.w == V1Header(text).value.w
  {
  }

  /** A v1 word keeps the chunk's low W-4 bits as its address and takes the
      remapped legacy opcode from the bits above. */
  lemma {:induction false} V1WordFields(chunk: string, w: nat)
    requires w >= 4
    ensures Opcode(V1Word(chunk, w), w - 4) == Remap(Opcode(Uint32(ParseIntBin(chunk)), w - 4))
    ensures Address(V1Word(chunk, w), w - 4) == Address(Uint32(ParseIntBin(chunk)), w - 4)
  {
    LegacyFields(Uint32(ParseIntBin(chunk)), w - 4);
  }

  /** The fields of the v1 word built from a 32-bit value. */
  lemma {:induction false} LegacyFields(u: nat, aw: nat)
    ensures Opcode(LegacyValue(u, aw), aw) == Remap(Opcode(u, aw))
    ensures Address(LegacyValue(u, aw), aw) == Address(u, aw)
  {
    LegacyWord(u, aw);
    DecodeEncode(Remap(Opcode(u, aw)), Address(u, aw), aw);
  }

  /** The v1 word built from a 32-bit value is the encoding of its remapped
      opcode and its address bits. */
  lemma {:induction false} LegacyWord(u: nat, aw: nat)
    ensures Address(u, aw) + ShiftLeft(Remap(Opcode(u, aw)), aw)
      == Encode(Remap(Opcode(u, aw)), Address(u, aw), aw)
    ensures Address(u, aw) < Pow2(aw)
  {
    AddressIsLowBits(u, aw);
  }

  /** For a chunk of exactly W binary digits, the legacy opcode is its first
      four digits and the address the remaining W-4 digits. */
  lemma {:induction false} V1BinaryChunk(chunk: string, w: nat)
    requires 4 <= w <= 31 && |chunk| == w && IsDigits(chunk, 2)
    ensures Opcode(V1Word(chunk, w), w - 4) == Remap(ValueIn(chunk[..4], 2))
    ensures Address(V1Word(chunk, w), w - 4) == ValueIn(chunk[4..], 2)
    ensures ValueIn(chunk[..4], 2) < 16
  {
    BinaryChunkValue(chunk, w);
    V1WordFields(chunk, w);
    BinaryChunkFields(chunk);
  }

  /** A chunk of at most 31 binary digits reads as its value. */
  lemma {:induction false} BinaryChunkValue(chunk: string, w: nat)
    requires w <= 31 && |chunk| == w && IsDigits(chunk, 2)
    ensures Uint32(ParseIntBin(chunk)) == ValueIn(chunk, 2)
  {
    ParseIntBinDigits(chunk);
    BinBound(chunk);
    SmallUint32(ValueIn(chunk, 2), w);
  }

  /** The first four binary digits of a chunk are its opcode field and the
      rest its address field. */
  lemma {:induction false} BinaryChunkFields(chunk: string)
    requires |chunk| >= 4 && IsDigits(chunk, 2)
    ensures Opcode(ValueIn(chunk, 2), |chunk| - 4) == ValueIn(chunk[..4], 2)
    ensures Address(ValueIn(chunk, 2), |chunk| - 4) == ValueIn(chunk[4..], 2)
    ensures ValueIn(chunk[..4], 2) < 16
  {
    BinCut(chunk, 4);
    AddressIsLowBits(ValueIn(chunk, 2), |chunk| - 4);
    BinBound(chunk[..4]);
    Pow2Values();
  }

  /** `parseInt` of binary digits is their value. */
  lemma {:induction false} ParseIntBinDigits(chunk: string)
    requires IsDigits(chunk, 2)
    ensures ParseIntBin(chunk) == ValueIn(chunk, 2)
  {
    if chunk != [] {
      assert DigitValue(chunk[0]) < 2;
    }
    assert TrimStart(chunk) == chunk;
    RunOf(chunk, [], 2);
    assert chunk + [] == chunk;
    assert chunk[..|chunk|] == chunk;
  }

  /** Values below 2^31 are their own 32-bit unsigned view. */
  lemma {:induction false} SmallUint32(v: nat, w: nat)
    requires w <= 31 && v < Pow2(w)
    ensures Uint32(v) == v
  {
    Pow2Monotone(w, 32);
    Pow2Values();
    DivModUnique(v, 0x1_0000_0000, 0, v);
  }

  /** The chunks laid end to end. */
  function Flatten(cs: seq<string>): (r: string)
    ensures cs != [] ==> r == cs[0] + Flatten(cs[1..])
  {
    if cs == [] then [] else cs[0] + Flatten(cs[1..])
  }

  /** A v1 data line made of chunks of exactly W characters holds one word
      per chunk, word i converted from chunk i. */
  lemma {:induction false} V1Chunks(cs: seq<string>, w: nat)
    requires w >= 4 && forall i :: 0 <= i < |cs| ==> |cs[i]| == w
    ensures V1Words(Flatten(cs), w) == ChunkWords(cs, w)
  {
    if cs != [] {
      V1Chunks(cs[1..], w);
      V1WordsCons(cs[0], Flatten(cs[1..]), w);
      ChunkWordsCons(cs, w);
    }
  }

  /** Word i converted from chunk i. */
  function ChunkWords(cs: seq<string>, w: nat): (r: seq<nat>)
    requires w >= 4
    ensures |r| == |cs| && forall i :: 0 <= i < |cs| ==> r[i] == V1Word(cs[i], w)
  {
    seq(|cs|, i requires 0 <= i < |cs| => V1Word(cs[i], w))
  }

  lemma {:induction false} ChunkWordsCons(cs: seq<string>, w: nat)
    requires w >= 4 && cs != []
    ensures ChunkWords(cs, w) == [V1Word(cs[0], w)] + ChunkWords(cs[1..], w)
  {
  }

  lemma {:induction false} V1WordsCons(c: string, rest: string, w: nat)
    requires w >= 4 && |c| == w
    ensures V1Words(c + rest, w) == [V1Word(c, w)] + V1Words(rest, w)
  {
    assert (c + rest)[..w] == c && (c + rest)[w..] == rest;
  }

  lemma {:induction false} LegacySevenIsJump()
    ensures Remap(7) == OpcodeOf(JMP)
  {
    assert Remap(7) == 8;
  }

  /** Legacy opcode 7 (the old JMP) loads as today's JMP, keeping the address. */
  lemma {:induction false} V1LegacyJump(chunk: string, w: nat)
    requires 4 <= w <= 31 && |chunk| == w && IsDigits(chunk, 2) && ValueIn(chunk[..4], 2) == 7
    ensures Opcode(V1Word(chunk, w), w - 4) == OpcodeOf(JMP)
    ensures Address(V1Word(chunk, w), w - 4) == ValueIn(chunk[4..], 2)
  {
    V1BinaryChunk(chunk, w);
    LegacySevenIsJump();
  }
}
