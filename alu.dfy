/** What one instruction does to the accumulator, and the two character
    conversions of the I/O instructions: OUA (a word printed as 8-bit
    character codes) and INA (characters packed into a word). */
module Alu {
  import opened Words
  import opened Isa
  import opened Text

  /** The accumulator an arithmetic, logic or compare instruction leaves,
      before the end-of-step normalisation. `target` is the word at the
      instruction's address, `idx` the address itself. Control and I/O
      instructions, NOP and ROL (which has no case) leave it unchanged. */
  function AccAfter(m: Mnemonic, acc: int, target: nat, idx: nat, w: nat): int
    requires w >= 1 && InRange(acc, w)
  {
    SignedOfUnsigned(acc, w);
    var u: nat := ToUnsigned(acc, w);
    var t := ToSigned(target, w);
    var i := ToSigned(idx, w);
    match m
    case LDA => t
    case ADD => Wrap(acc + t, w)
    case SUB => Wrap(acc - t, w)
    case MUL => Wrap(acc * t, w)
    case DIV => Wrap(if t == 0 then 0 else TDiv(acc, t), w)
    case MOD => Wrap(if t == 0 then 0 else TMod(acc, t), w)
    case ADDS => Wrap(acc + i, w)
    case SUBS => Wrap(acc - i, w)
    case MULS => Wrap(acc * i, w)
    case DIVS => Wrap(if i == 0 then 0 else TDiv(acc, i), w)
    case MODS => Wrap(if i == 0 then 0 else TMod(acc, i), w)
    case AND => Wrap(ToSigned(BitAnd(u, target), w), w)
    case OR => Wrap(ToSigned(BitOr(u, target), w), w)
    case XOR => Wrap(ToSigned(BitXor(u, target), w), w)
    case NOT => Wrap(ToSigned(NotSwap(u), w), w)
    case ADB => Wrap(ToSigned((u + target) % Pow2(w), w), w)
    case SHR => Wrap(ToSigned(u / Pow2(idx), w), w)
    case SHL => Wrap(ToSigned(u * Pow2(idx), w), w)
    case ROR => Wrap(Rotr(u, idx, w), w)
    case CMP => if acc == target then 1 else 0
    case CMPS => if acc == i then 1 else 0
    case _ => acc
  }

  /** NOT as the source computes it: on the unpadded binary text of the
      unsigned accumulator, the first '0' becomes '2', then the first '1'
      becomes '0', then the '2' becomes '1'. */
  function NotSwap(u: nat): nat
  {
    var s := FormatNat(u, 2);
    ValueIn(ReplaceFirst(ReplaceFirst(ReplaceFirst(s, '0', '2'), '1', '0'), '2', '1'), 2)
  }

  /** ROR: `((u & (2^t - 1)) << (W - t)) + (u >> t)`. */
  function Rotr(u: nat, t: nat, w: nat): int
  {
    ShiftLeft(BitAnd(u, Pow2(t) - 1), w - t) + u / Pow2(t)
  }

  lemma {:induction false} DivMod(u: int, p: int)
    requires p > 0
    ensures (u / p) * p + u % p == u
  {
  }

  lemma {:induction false} MulMonotone(a: int, b: int, c: int)
    requires a <= b && c >= 0
    ensures a * c <= b * c
  {
    assert b * c - a * c == (b - a) * c;
  }

  /** Swapping the two digits of a two-digit mixed-radix number. */
  lemma {:induction false} SwapDigits(u: int, pt: int, pr: int)
    requires pt > 0 && pr > 0 && 0 <= u < pt * pr
    ensures 0 <= u / pt < pr
    ensures 0 <= (u % pt) * pr + u / pt < pt * pr
    ensures ((u % pt) * pr + u / pt) / pr == u % pt
    ensures ((u % pt) * pr + u / pt) % pr == u / pt
  {
    var a, b := u / pt, u % pt;
    MulMonotone(b + 1, pt, pr);
    DivModUnique(b * pr + a, pr, b, a);
  }

  /** For a rotation amount within the width, ROR rotates a W-bit word and
      rotating the rest of the way round gives the word back. */
  lemma {:induction false} RotrInverse(u: nat, t: nat, w: nat)
    requires u < Pow2(w) && t <= w
    ensures 0 <= Rotr(u, t, w) < Pow2(w)
    ensures Rotr(Rotr(u, t, w) as nat, w - t, w) == u
  {
    var pt, pr := Pow2(t), Pow2(w - t);
    Pow2Add(t, w - t);
    SwapDigits(u, pt, pr);
    RotrValue(u, t, w);
    var r := (u % pt) * pr + u / pt;
    assert w - (w - t) == t;
    assert Pow2(w) == pr * pt;
    RotrValue(r, w - t, w);
    DivMod(u, pt);
  }

  /** The two fields of a rotation: the low t bits become the high ones. */
  lemma {:induction false} RotrValue(u: nat, t: nat, w: nat)
    requires t <= w
    ensures Rotr(u, t, w) == (u % Pow2(t)) * Pow2(w - t) + u / Pow2(t)
  {
    AndMask(u, t);
  }

  /** ADD of a word wraps the sum of the accumulator and the raw word. */
  lemma {:induction false} AddWraps(acc: int, target: nat, w: nat)
    requires w >= 1 && InRange(acc, w)
    ensures AccAfter(ADD, acc, target, 0, w) == Wrap(acc + target, w)
    ensures AccAfter(SUB, acc, target, 0, w) == Wrap(acc - target, w)
  {
    SignedOperand(acc, target, w);
  }

  /** Reading a word as signed does not change sums and differences modulo 2^W. */
  lemma {:induction false} SignedOperand(x: int, target: int, w: nat)
    requires w >= 1
    ensures Wrap(x + ToSigned(target, w), w) == Wrap(x + target, w)
    ensures Wrap(x - ToSigned(target, w), w) == Wrap(x - target, w)
  {
    if ToSigned(target, w) != target {
      assert ToSigned(target, w) == target - Pow2(w);
      WrapShift(x + target, -1, w);
      WrapShift(x - target, 1, w);
    }
  }

  /** MUL wraps the product with the raw word. */
  lemma {:induction false} MulWraps(acc: int, target: nat, w: nat)
    requires w >= 1 && InRange(acc, w)
    ensures AccAfter(MUL, acc, target, 0, w) == Wrap(acc * target, w)
  {
    var t := ToSigned(target, w);
    if t != target {
      assert acc * t == acc * target + (-acc) * Pow2(w);
      WrapShift(acc * target, -acc, w);
    }
  }

  /** ADB (add without range centring) leaves the same accumulator as ADD. */
  lemma {:induction false} AdbIsAdd(acc: int, target: nat, idx: nat, w: nat)
    requires w >= 1 && InRange(acc, w)
    ensures AccAfter(ADB, acc, target, idx, w) == AccAfter(ADD, acc, target, idx, w)
  {
    SignedOfUnsigned(acc, w);
    var u: nat := ToUnsigned(acc, w);
    ReducedSum(u + target, w);
    UnsignedSum(acc, target, w);
    AddWraps(acc, target, w);
  }

  /** Reducing a sum modulo 2^W and reading it as signed wraps the sum. */
  lemma {:induction false} ReducedSum(s: nat, w: nat)
    requires w >= 1
    ensures Wrap(ToSigned(s % Pow2(w), w), w) == Wrap(s, w)
  {
    var p := Pow2(w);
    WrapOfSigned(s % p, w);
    WrapShift(s % p, s / p, w);
    DivMod(s, p);
  }

  /** Adding to the unsigned view wraps like adding to the signed value. */
  lemma {:induction false} UnsignedSum(acc: int, target: int, w: nat)
    requires w >= 1
    ensures Wrap(ToUnsigned(acc, w) + target, w) == Wrap(acc + target, w)
  {
    if acc < 0 {
      WrapShift(acc + target, 1, w);
    }
  }

  /** Division and remainder by a zero divisor leave zero and do not fault. */
  lemma {:induction false} DivideByZero(acc: int, target: nat, w: nat)
    requires w >= 1 && InRange(acc, w) && ToSigned(target, w) == 0
    ensures AccAfter(DIV, acc, target, 0, w) == 0
    ensures AccAfter(MOD, acc, target, 0, w) == 0
    ensures AccAfter(DIVS, acc, target, 0, w) == 0
    ensures AccAfter(MODS, acc, target, 0, w) == 0
  {
    WrapIdentity(0, w);
  }

  /** CMP compares the signed accumulator with the raw, unsigned word, so a
      negative accumulator never equals the word that stores it. */
  lemma {:induction false} CompareRawWord(acc: int, w: nat)
    requires w >= 1 && InRange(acc, w) && acc < 0
    ensures AccAfter(CMP, acc, ToUnsigned(acc, w) as nat, 0, w) == 0
  {
  }

  /** A shift left by the width or more clears the accumulator. */
  lemma {:induction false} ShiftOutClears(acc: int, idx: nat, w: nat)
    requires w >= 1 && InRange(acc, w) && idx >= w
    ensures AccAfter(SHL, acc, 0, idx, w) == 0
  {
    SignedOfUnsigned(acc, w);
    ShiftedOut(ToUnsigned(acc, w), idx, w);
  }

  /** A multiple of 2^W wraps to zero. */
  lemma {:induction false} ShiftedOut(u: nat, idx: nat, w: nat)
    requires w >= 1 && idx >= w
    ensures Wrap(ToSigned(u * Pow2(idx), w), w) == 0
  {
    var k := u * Pow2(idx - w);
    Pow2Add(w, idx - w);
    assert u * Pow2(idx) == k * Pow2(w);
    WrapOfSigned(u * Pow2(idx), w);
    WrapShift(0, k, w);
    WrapIdentity(0, w);
  }

  lemma {:induction false} FormatFive()
    ensures FormatNat(5, 2) == "101"
  {
    assert FormatNat(1, 2) == "1";
    assert FormatNat(2, 2) == "10";
  }

  lemma {:induction false} SwapFive()
    ensures ReplaceFirst(ReplaceFirst(ReplaceFirst("101", '0', '2'), '1', '0'), '2', '1') == "011"
  {
    assert ReplaceFirst("101", '0', '2') == "121";
    assert ReplaceFirst("121", '1', '0') == "021";
    assert ReplaceFirst("021", '2', '1') == "011";
  }

  lemma {:induction false} ValueThree()
    ensures ValueIn("011", 2) == 3
  {
    assert "011"[..2] == "01";
    assert "01"[..1] == "0";
  }

  /** NOT is not a bitwise complement: it takes 5 to 3 and 0 to 1. */
  lemma {:induction false} NotExamples()
    ensures NotSwap(5) == 3 && NotSwap(0) == 1
  {
    FormatFive();
    SwapFive();
    ValueThree();
    assert FormatNat(0, 2) == "0";
    assert ValueIn("1", 2) == 1;
  }

  lemma {:induction false} AccNot(acc: int, w: nat)
    requires w >= 1 && InRange(acc, w)
    ensures AccAfter(NOT, acc, 0, 0, w) == Wrap(ToSigned(NotSwap(ToUnsigned(acc, w) as nat), w), w)
  {
    SignedOfUnsigned(acc, w);
  }

  /** On 8 bits NOT of the accumulator 5 leaves 3, not -6. */
  lemma {:induction false} NotOfFive()
    ensures AccAfter(NOT, 5, 0, 0, 8) == 3
  {
    var p7 := Pow2(7);
    assert p7 == 128;
    assert InRange(5, 8);
    AccNot(5, 8);
    assert ToUnsigned(5, 8) == 5;
    NotExamples();
    assert ToSigned(3, 8) == 3;
    WrapIdentity(3, 8);
  }

  /** Byte k of x, counting from the low end. */
  function Byte(x: nat, k: nat): (r: nat)
    ensures r < 256
  {
    if k == 0 then x % 256 else Byte(x / 256, k - 1)
  }

  /** Byte k is the remainder by 256 of the quotient by 2^(8k). */
  lemma {:induction false} ByteValue(x: nat, k: nat)
    ensures Byte(x, k) == (x / Pow2(8 * k)) % 256
  {
    if k > 0 {
      ByteValue(x / 256, k - 1);
      Pow2Eight();
      Pow2Add(8, 8 * (k - 1));
      assert 8 * k == 8 + 8 * (k - 1);
      DivDiv(x, 256, Pow2(8 * (k - 1)));
    }
  }

  /** Dividing twice is dividing by the product. */
  lemma {:induction false} DivDiv(x: int, a: int, b: int)
    requires x >= 0 && a > 0 && b > 0
    ensures (x / a) / b == x / (a * b)
  {
    var q := (x / a) / b;
    var r := ((x / a) % b) * a + x % a;
    assert x == (x / a) * a + x % a;
    assert x / a == q * b + (x / a) % b;
    assert x == q * (a * b) + r;
    assert r < a * b by {
      assert (x / a) % b + 1 <= b;
      assert ((x / a) % b + 1) * a <= b * a;
    }
    DivModUnique(x, a * b, q, r);
  }

  /** The characters of the nonzero bytes among the low k bytes of x,
      highest byte first. */
  function NonzeroBytes(x: nat, k: nat): (r: string)
    ensures |r| <= k
  {
    if k == 0 then []
    else
      var b := Byte(x, k - 1);
      (if b != 0 then [b as char] else []) + NonzeroBytes(x, k - 1)
  }

  /** The text OUA prints for a word (without the newline): the word's
      binary text, padded to W digits, read as whole 8-bit groups. */
  function OuaChars(x: nat, w: nat): string
  {
    NonzeroBytes(x, |PadStart(FormatNat(x, 2), w, '0')| / 8)
  }

  lemma {:induction false} Pow2Eight()
    ensures Pow2(8) == 256
  {
  }

  /** The group of eight digits ending m digits into a binary text of
      value x, where 8k digits follow it, is byte k of x. */
  lemma {:induction false} OuaGroup(full: string, x: nat, m: nat, k: nat)
    requires IsDigits(full, 2) && ValueIn(full, 2) == x
    requires 8 <= m && m + 8 * k == |full|
    ensures ValueIn(full[m - 8..m], 2) == Byte(x, k) < 256
  {
    BinCut(full, m);
    var pre := full[..m];
    assert IsDigits(pre, 2);
    BinCut(pre, m - 8);
    Pow2Eight();
    ByteValue(x, k);
    assert |pre| - (m - 8) == 8;
    assert pre[m - 8..] == full[m - 8..m];
  }

  /** The OUA loop: peel 8 binary digits at a time off the low end of the
      padded text, prepending each nonzero code as a character. */
  method OuaLoop(target: nat, w: nat) returns (out: string)
    ensures out == OuaChars(target, w)
  {
    var full := PadStart(FormatNat(target, 2), w, '0');
    PadValue(FormatNat(target, 2), w);
    var len := |full|;
    out := "";
    ghost var k: nat := 0;
    while len >= 8
      invariant 0 <= len <= |full| && len + 8 * k == |full|
      invariant out == NonzeroBytes(target, k)
      decreases len
    {
      OuaGroup(full, target, len, k);
      var code := ValueIn(full[len - 8..len], 2);
      if code != 0 {
        out := [code as char] + out;
      }
      len := len - 8;
      k := k + 1;
    }
    DivModUnique(|full|, 8, k, len);
  }

  /** Peeling the lowest byte off the group list. */
  lemma {:induction false} NonzeroBytesLow(x: nat, k: nat)
    ensures NonzeroBytes(x, k + 1)
      == NonzeroBytes(x / 256, k) + (if x % 256 != 0 then [(x % 256) as char] else [])
  {
    var low := if x % 256 != 0 then [(x % 256) as char] else [];
    if k == 0 {
      assert Byte(x, 0) == x % 256;
    } else {
      var b := Byte(x, k);
      var top := if b != 0 then [b as char] else [];
      assert NonzeroBytes(x, k + 1) == top + NonzeroBytes(x, k);
      NonzeroBytesLow(x, k - 1);
      assert b == Byte(x / 256, k - 1);
      assert NonzeroBytes(x / 256, k) == top + NonzeroBytes(x / 256, k - 1);
      assert top + (NonzeroBytes(x / 256, k - 1) + low) == (top + NonzeroBytes(x / 256, k - 1)) + low;
    }
  }

  /** Bytes above the value's size are zero and are dropped. */
  lemma {:induction false} NonzeroBytesHigh(x: nat, n: nat, g: nat)
    requires x < Pow2(8 * n) && n <= g
    ensures NonzeroBytes(x, g) == NonzeroBytes(x, n)
  {
    if g > n {
      NonzeroBytesHigh(x, n, g - 1);
      ByteValue(x, g - 1);
      Pow2Monotone(8 * n, 8 * (g - 1));
      DivModUnique(x, Pow2(8 * (g - 1)), 0, x);
    }
  }

  /** `charCodeAt`, with codes above 127 replaced by zero. */
  function InaCodes(s: string): (r: seq<nat>)
    ensures |r| == |s|
  {
    seq(|s|, i requires 0 <= i < |s| => if s[i] as int > 127 then 0 else s[i] as int)
  }

  /** `.reverse().map((v, i) => v << (i * 8)).reduce((t, v) => t + v, 0)`:
      the code j places from the end goes to byte j % 4, because a Number
      shift uses its count modulo 32. */
  function PackAt(codes: seq<nat>, j: nat): nat
  {
    if codes == [] then 0
    else codes[|codes| - 1] * Pow2(8 * (j % 4)) + PackAt(codes[..|codes| - 1], j + 1)
  }

  /** The word INA stores for a text. */
  function InaValue(s: string): nat
  {
    PackAt(InaCodes(s), 0)
  }

  /** The base-256 number whose digits, most significant first, are the codes. */
  function BigEndian(codes: seq<nat>): nat
  {
    if codes == [] then 0 else BigEndian(codes[..|codes| - 1]) * 256 + codes[|codes| - 1]
  }

  /** Up to four codes, INA packing is plain base-256, last code lowest. */
  lemma {:induction false} PackIsBigEndian(codes: seq<nat>, j: nat)
    requires |codes| + j <= 4
    ensures PackAt(codes, j) == BigEndian(codes) * Pow2(8 * j)
  {
    if codes != [] {
      var init := codes[..|codes| - 1];
      var c: int, b: int, p: int := codes[|codes| - 1], BigEndian(init), Pow2(8 * j);
      PackIsBigEndian(init, j + 1);
      NextByte(j);
      SmallShift(j);
      assert PackAt(codes, j) == c * p + b * (p * 256);
      assert BigEndian(codes) == b * 256 + c;
      NextDigit(c, b, p);
    }
  }

  /** A byte position below four is its own residue. */
  lemma {:induction false} SmallShift(j: nat)
    requires j < 4
    ensures j % 4 == j
  {
  }

  /** The weight of the next byte up. */
  lemma {:induction false} NextByte(j: nat)
    ensures Pow2(8 * (j + 1)) == Pow2(8 * j) * 256
  {
    Pow2Eight();
    Pow2Add(8 * j, 8);
    assert 8 * (j + 1) == 8 * j + 8;
  }

  lemma {:induction false} NextDigit(c: int, b: int, p: int)
    ensures c * p + b * (p * 256) == (b * 256 + c) * p
  {
  }

  lemma {:induction false} BigEndianBound(codes: seq<nat>)
    requires forall i :: 0 <= i < |codes| ==> codes[i] < 256
    ensures BigEndian(codes) < Pow2(8 * |codes|)
  {
    if codes != [] {
      var init := codes[..|codes| - 1];
      BigEndianBound(init);
      Pow2Eight();
      Pow2Add(8 * |init|, 8);
      assert 8 * |codes| == 8 * |init| + 8;
      assert BigEndian(init) + 1 <= Pow2(8 * |init|);
      assert (BigEndian(init) + 1) * 256 <= Pow2(8 * |init|) * 256;
    }
  }

  /** The nonzero bytes of a base-256 number made of nonzero codes are its codes. */
  lemma {:induction false} BigEndianBytes(s: string)
    requires forall i :: 0 <= i < |s| ==> 1 <= s[i] as int <= 127
    ensures NonzeroBytes(BigEndian(InaCodes(s)), |s|) == s
  {
    if s != [] {
      var init := s[..|s| - 1];
      assert InaCodes(s)[..|s| - 1] == InaCodes(init);
      BigEndianBytes(init);
      var x := BigEndian(InaCodes(s));
      var last := InaCodes(s)[|s| - 1];
      DivModUnique(x, 256, BigEndian(InaCodes(init)), last);
      NonzeroBytesLow(x, |s| - 1);
      assert (last as char) == s[|s| - 1];
      assert init + [s[|s| - 1]] == s;
    }
  }

  /** A valid INA text of at most four characters, none of them NUL, comes
      back out of OUA unchanged (at any width that has room for it). */
  lemma {:induction false} InaOuaRoundTrip(s: string, w: nat)
    requires |s| <= 4 && |s| <= w / 8
    requires forall i :: 0 <= i < |s| ==> 1 <= s[i] as int <= 127
    ensures OuaChars(InaValue(s), w) == s
  {
    var codes := InaCodes(s);
    PackIsBigEndian(codes, 0);
    var x := BigEndian(codes);
    assert InaValue(s) == x;
    BigEndianBound(codes);
    var g := |PadStart(FormatNat(x, 2), w, '0')| / 8;
    assert g >= w / 8;
    NonzeroBytesHigh(x, |s|, g);
    BigEndianBytes(s);
  }
}
