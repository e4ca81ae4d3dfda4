/** The JavaScript string operations the processor relies on: line
    splitting and joining, white-space trimming, number formatting in a
    radix, and the string-to-BigInt conversion used for typed-ahead input. */
module Text {
  import opened Words

  datatype Option<T> = None | Some(value: T)

  /** The characters `String.prototype.trim` and `BigInt(string)` strip:
      ECMAScript white space and line terminators. */
  predicate IsJsSpace(c: char)
  {
    var k := c as int;
    k == 0x09 || k == 0x0A || k == 0x0B || k == 0x0C || k == 0x0D || k == 0x20
    || k == 0xA0 || k == 0x1680 || (0x2000 <= k <= 0x200A) || k == 0x2028
    || k == 0x2029 || k == 0x202F || k == 0x205F || k == 0x3000 || k == 0xFEFF
  }

  /** `trimStart`: the longest white-space prefix is removed. */
  function TrimStart(s: string): (r: string)
    ensures |r| <= |s| && r == s[|s| - |r|..]
    ensures forall i :: 0 <= i < |s| - |r| ==> IsJsSpace(s[i])
    ensures r != [] ==> !IsJsSpace(r[0])
  {
    if s != [] && IsJsSpace(s[0]) then TrimStart(s[1..]) else s
  }

  /** `trimEnd`: the longest white-space suffix is removed. */
  function TrimEnd(s: string): (r: string)
    ensures |r| <= |s| && r == s[..|r|]
    ensures forall i :: |r| <= i < |s| ==> IsJsSpace(s[i])
    ensures r != [] ==> !IsJsSpace(r[|r| - 1])
  {
    if s != [] && IsJsSpace(s[|s| - 1]) then TrimEnd(s[..|s| - 1]) else s
  }

  function Trim(s: string): string
  {
    TrimEnd(TrimStart(s))
  }

  /** A string that neither starts nor ends with white space trims to itself. */
  lemma {:induction false} TrimUnchanged(s: string)
    requires s != [] && !IsJsSpace(s[0]) && !IsJsSpace(s[|s| - 1])
    ensures Trim(s) == s
  {
  }

  /** `s.split(sep)`: the pieces between separators; never empty. */
  function Split(s: string, sep: char): (r: seq<string>)
    ensures |r| >= 1
    ensures forall i :: 0 <= i < |r| ==> sep !in r[i]
  {
    if s == [] then [[]]
    else
      var rest := Split(s[1..], sep);
      if s[0] == sep then [[]] + rest
      else [[s[0]] + rest[0]] + rest[1..]
  }

  /** `ls.join(sep)`. */
  function Join(ls: seq<string>, sep: char): string
  {
    if |ls| == 0 then []
    else if |ls| == 1 then ls[0]
    else ls[0] + [sep] + Join(ls[1..], sep)
  }

  /** A separator-free prefix lands in the first piece. */
  lemma {:induction false} SplitPrefix(a: string, t: string, sep: char)
    requires sep !in a
    ensures Split(a + t, sep) == [a + Split(t, sep)[0]] + Split(t, sep)[1..]
  {
    if a != [] {
      assert (a + t)[1..] == a[1..] + t;
      SplitPrefix(a[1..], t, sep);
      assert [a[0]] + (a[1..] + Split(t, sep)[0]) == a + Split(t, sep)[0];
    } else {
      var r := Split(t, sep);
      assert a + t == t;
      assert a + r[0] == r[0];
      assert [r[0]] + r[1..] == r;
    }
  }

  /** Everything up to the first separator is the first line. */
  lemma {:induction false} SplitFirstLine(a: string, b: string, sep: char)
    requires sep !in a
    ensures Split(a + [sep] + b, sep) == [a] + Split(b, sep)
  {
    var t := [sep] + b;
    assert a + [sep] + b == a + t;
    SplitPrefix(a, t, sep);
    assert t[0] == sep && t[1..] == b;
    assert Split(t, sep) == [[]] + Split(b, sep);
    assert a + [] == a;
  }

  /** Splitting undoes joining separator-free lines. */
  lemma {:induction false} SplitJoin(ls: seq<string>, sep: char)
    requires |ls| >= 1
    requires forall i :: 0 <= i < |ls| ==> sep !in ls[i]
    ensures Split(Join(ls, sep), sep) == ls
  {
    if |ls| == 1 {
      SplitPrefix(ls[0], [], sep);
      assert ls[0] + [] == ls[0];
    } else {
      SplitJoin(ls[1..], sep);
      SplitFirstLine(ls[0], Join(ls[1..], sep), sep);
      assert [ls[0]] + ls[1..] == ls;
    }
  }

  /** Joining undoes splitting. */
  lemma {:induction false} JoinSplit(s: string, sep: char)
    ensures Join(Split(s, sep), sep) == s
  {
    if s != [] {
      var rest := Split(s[1..], sep);
      JoinSplit(s[1..], sep);
      if s[0] == sep {
        assert [[]] + rest == Split(s, sep);
        assert ([[]] + rest)[1..] == rest;
      } else if |rest| == 1 {
      } else {
        assert ([[s[0]] + rest[0]] + rest[1..])[1..] == rest[1..];
      }
    }
  }

  /** Without separator-free pieces `split` returns the string itself. */
  lemma {:induction false} SplitNoSeparator(a: string, sep: char)
    requires sep !in a
    ensures Split(a, sep) == [a]
  {
    SplitPrefix(a, [], sep);
    assert a + [] == a;
  }

  /** The lines that are not empty (`filter(k => k)`). */
  function DropEmpty(ls: seq<string>): (r: seq<string>)
    ensures |r| <= |ls|
    ensures forall i :: 0 <= i < |r| ==> r[i] != [] && r[i] in ls
    ensures forall p :: p in ls && p != [] ==> p in r
  {
    if ls == [] then []
    else if ls[0] == [] then DropEmpty(ls[1..])
    else [ls[0]] + DropEmpty(ls[1..])
  }

  /** The lines with a non-space character (`filter(k => k.trim())`). */
  function DropBlank(ls: seq<string>): (r: seq<string>)
    ensures |r| <= |ls|
    ensures forall i :: 0 <= i < |r| ==> Trim(r[i]) != [] && r[i] in ls
    ensures forall p :: p in ls && Trim(p) != [] ==> p in r
  {
    if ls == [] then []
    else if Trim(ls[0]) == [] then DropBlank(ls[1..])
    else [ls[0]] + DropBlank(ls[1..])
  }

  /** The filter works piece by piece: filtering two lists one after the
      other is filtering their concatenation, so the kept pieces keep
      their order and multiplicity. */
  lemma {:induction false} DropEmptyAppend(a: seq<string>, b: seq<string>)
    ensures DropEmpty(a + b) == DropEmpty(a) + DropEmpty(b)
  {
    if a != [] {
      assert (a + b)[0] == a[0] && (a + b)[1..] == a[1..] + b;
      DropEmptyAppend(a[1..], b);
    } else {
      assert a + b == b;
    }
  }

  /** With no empty piece the filter keeps everything. */
  lemma {:induction false} DropEmptyKeeps(ls: seq<string>)
    requires forall i :: 0 <= i < |ls| ==> ls[i] != []
    ensures DropEmpty(ls) == ls
  {
    if ls != [] {
      DropEmptyKeeps(ls[1..]);
      assert [ls[0]] + ls[1..] == ls;
    }
  }

  /** As DropEmptyAppend, for the blank-line filter. */
  lemma {:induction false} DropBlankAppend(a: seq<string>, b: seq<string>)
    ensures DropBlank(a + b) == DropBlank(a) + DropBlank(b)
  {
    if a != [] {
      var ab := a + b;
      assert ab[0] == a[0] && ab[1..] == a[1..] + b;
      DropBlankAppend(a[1..], b);
      if Trim(a[0]) == [] {
        assert DropBlank(ab) == DropBlank(ab[1..]);
      } else {
        assert DropBlank(ab) == [a[0]] + DropBlank(ab[1..]);
      }
    } else {
      assert a + b == b;
    }
  }

  /** With no blank piece the filter keeps everything. */
  lemma {:induction false} DropBlankKeeps(ls: seq<string>)
    requires forall i :: 0 <= i < |ls| ==> Trim(ls[i]) != []
    ensures DropBlank(ls) == ls
  {
    if ls != [] {
      assert Trim(ls[0]) != [];
      DropBlankKeeps(ls[1..]);
      assert DropBlank(ls) == [ls[0]] + DropBlank(ls[1..]);
      assert [ls[0]] + ls[1..] == ls;
    }
  }

  /** The value of a digit character in radix up to 36; 36 for a non-digit. */
  function DigitValue(c: char): nat
  {
    if '0' <= c <= '9' then c as int - '0' as int
    else if 'a' <= c <= 'z' then c as int - 'a' as int + 10
    else if 'A' <= c <= 'Z' then c as int - 'A' as int + 10
    else 36
  }

  function DigitChar(d: nat): (c: char)
    requires d < 10
    ensures DigitValue(c) == d
  {
    ('0' as int + d) as char
  }

  predicate IsDigits(s: string, base: nat)
  {
    forall i :: 0 <= i < |s| ==> DigitValue(s[i]) < base
  }

  /** The number a digit string denotes in the given radix. */
  function ValueIn(s: string, base: nat): nat
  {
    if s == [] then 0 else ValueIn(s[..|s| - 1], base) * base + DigitValue(s[|s| - 1])
  }

  lemma {:induction false} DivStep(n: nat, base: nat)
    requires 2 <= base <= n
    ensures n / base < n && n % base < base
    ensures (n / base) * base + n % base == n
  {
    var q := n / base;
    assert n == q * base + n % base;
  }

  lemma {:induction false} AppendDigit(p: string, d: char, base: nat)
    requires IsDigits(p, base) && DigitValue(d) < base
    ensures IsDigits(p + [d], base)
    ensures ValueIn(p + [d], base) == ValueIn(p, base) * base + DigitValue(d)
  {
    assert (p + [d])[..|p|] == p;
  }

  /** `n.toString(base)` for radix 2 and 10: no leading zeros, "0" for zero. */
  function FormatNat(n: nat, base: nat): (r: string)
    requires 2 <= base <= 10
    ensures |r| >= 1 && IsDigits(r, base)
    ensures ValueIn(r, base) == n
    ensures (n == 0 ==> r == "0") && (n > 0 ==> r[0] != '0')
  {
    if n < base then [DigitChar(n)]
    else
      DivStep(n, base);
      var p := FormatNat(n / base, base);
      var d := DigitChar(n % base);
      AppendDigit(p, d, base);
      p + [d]
  }

  /** `i.toString()` for a BigInt. */
  function FormatInt(i: int): (r: string)
    ensures |r| >= 1
  {
    if i < 0 then "-" + FormatNat(-i, 10) else FormatNat(i, 10)
  }

  /** Binary strings compose by place value. */
  lemma {:induction false} BinAppend(a: string, b: string)
    ensures ValueIn(a + b, 2) == ValueIn(a, 2) * Pow2(|b|) + ValueIn(b, 2)
  {
    if b == [] {
      assert a + b == a;
    } else {
      var b' := b[..|b| - 1];
      var d := DigitValue(b[|b| - 1]);
      assert (a + b)[..|a + b| - 1] == a + b';
      assert ValueIn(a + b, 2) == ValueIn(a + b', 2) * 2 + d;
      BinAppend(a, b');
      assert ValueIn(b, 2) == ValueIn(b', 2) * 2 + d;
      assert Pow2(|b|) == 2 * Pow2(|b'|);
      PlaceValue(ValueIn(a, 2), Pow2(|b'|), ValueIn(b', 2), d);
    }
  }

  lemma {:induction false} PlaceValue(x: int, p: int, y: int, d: int)
    ensures (x * p + y) * 2 + d == x * (2 * p) + (y * 2 + d)
  {
  }

  lemma {:induction false} BinBound(s: string)
    requires IsDigits(s, 2)
    ensures ValueIn(s, 2) < Pow2(|s|)
  {
    if s != [] {
      BinBound(s[..|s| - 1]);
    }
  }

  /** A binary string read from a cut point: the part before is the quotient,
      the part after the remainder, by the power of two of the cut. */
  lemma {:induction false} BinCut(s: string, m: nat)
    requires IsDigits(s, 2) && m <= |s|
    ensures ValueIn(s[..m], 2) == ValueIn(s, 2) / Pow2(|s| - m)
    ensures ValueIn(s[m..], 2) == ValueIn(s, 2) % Pow2(|s| - m)
  {
    assert s == s[..m] + s[m..];
    BinAppend(s[..m], s[m..]);
    BinBound(s[m..]);
    DivModUnique(ValueIn(s, 2), Pow2(|s| - m), ValueIn(s[..m], 2), ValueIn(s[m..], 2));
  }

  /** A number below 2^w has at most w binary digits. */
  lemma {:induction false} BinLength(n: nat, w: nat)
    requires w >= 1 && n < Pow2(w)
    ensures |FormatNat(n, 2)| <= w
  {
    if n >= 2 {
      assert w >= 2;
      BinLength(n / 2, w - 1);
    }
  }

  function Repeat(c: char, k: nat): (r: string)
    ensures |r| == k && forall i :: 0 <= i < k ==> r[i] == c
  {
    seq(k, _ => c)
  }

  /** `s.padStart(n, c)`. */
  function PadStart(s: string, n: nat, c: char): (r: string)
    ensures |r| == if |s| >= n then |s| else n
    ensures r[|r| - |s|..] == s
    ensures forall i :: 0 <= i < |r| - |s| ==> r[i] == c
  {
    if |s| >= n then s else Repeat(c, n - |s|) + s
  }

  lemma {:induction false} ZerosValue(k: nat)
    ensures ValueIn(Repeat('0', k), 2) == 0
  {
    if k > 0 {
      assert Repeat('0', k)[..k - 1] == Repeat('0', k - 1);
      ZerosValue(k - 1);
    }
  }

  /** Zero padding keeps a binary string's value and digits. */
  lemma {:induction false} PadValue(s: string, n: nat)
    requires IsDigits(s, 2)
    ensures IsDigits(PadStart(s, n, '0'), 2)
    ensures ValueIn(PadStart(s, n, '0'), 2) == ValueIn(s, 2)
  {
    if |s| < n {
      var z := Repeat('0', n - |s|);
      ZerosValue(n - |s|);
      BinAppend(z, s);
      assert ValueIn(z + s, 2) == 0 * Pow2(|s|) + ValueIn(s, 2);
      assert PadStart(s, n, '0') == z + s;
    }
  }

  /** The length of the longest prefix of digits in the radix. */
  function Run(s: string, base: nat): (r: nat)
    ensures r <= |s| && IsDigits(s[..r], base)
    ensures r < |s| ==> DigitValue(s[r]) >= base
  {
    if s == [] || DigitValue(s[0]) >= base then 0
    else
      var r := 1 + Run(s[1..], base);
      assert s[..r] == [s[0]] + s[1..][..r - 1];
      r
  }

  /** The run of a digit string followed by a non-digit is the digit string. */
  lemma {:induction false} RunOf(a: string, t: string, base: nat)
    requires IsDigits(a, base)
    requires t != [] ==> DigitValue(t[0]) >= base
    ensures Run(a + t, base) == |a|
  {
    if a == [] {
      assert a + t == t;
    } else {
      assert (a + t)[1..] == a[1..] + t;
      RunOf(a[1..], t, base);
    }
  }

  /** `s.replace(/a/, b)` for one-character patterns: the first `a` becomes `b`. */
  function ReplaceFirst(s: string, a: char, b: char): (r: string)
    ensures |r| == |s|
    ensures a !in s ==> r == s
    ensures forall k :: FirstAt(s, a, k) ==> r == s[..k] + [b] + s[k + 1..]
  {
    if s == [] then []
    else if s[0] == a then [b] + s[1..]
    else
      var t := ReplaceFirst(s[1..], a, b);
      ReplaceLater(s, a, b, t);
      [s[0]] + t
  }

  /** Position k holds the first a of s. */
  predicate FirstAt(s: string, a: char, k: int)
  {
    0 <= k < |s| && s[k] == a && a !in s[..k]
  }

  /** When s does not start with a, its first a lies in s[1..]. */
  lemma {:induction false} ReplaceLater(s: string, a: char, b: char, t: string)
    requires s != [] && s[0] != a
    requires forall k :: FirstAt(s[1..], a, k) ==> t == s[1..][..k] + [b] + s[1..][k + 1..]
    ensures forall k :: FirstAt(s, a, k) ==> [s[0]] + t == s[..k] + [b] + s[k + 1..]
  {
    forall k | FirstAt(s, a, k)
      ensures [s[0]] + t == s[..k] + [b] + s[k + 1..]
    {
      assert k >= 1;
      assert s[1..][k - 1] == a;
      assert s[1..][..k - 1] == s[1..k];
      assert FirstAt(s[1..], a, k - 1);
      assert s[1..][k..] == s[k + 1..];
      assert [s[0]] + (s[1..k] + [b] + s[k + 1..]) == s[..k] + [b] + s[k + 1..];
    }
  }

  /** `BigInt(s)`: after trimming, either empty (zero), a radix-prefixed
      literal (0x, 0o, 0b, unsigned), or a signed decimal literal; anything
      else throws, which is None here. */
  function ParseBigInt(s: string): Option<int>
  {
    var t := Trim(s);
    if t == [] then Some(0)
    else if |t| >= 2 && t[0] == '0' && (t[1] == 'x' || t[1] == 'X') then ParseDigits(t[2..], 16, false)
    else if |t| >= 2 && t[0] == '0' && (t[1] == 'o' || t[1] == 'O') then ParseDigits(t[2..], 8, false)
    else if |t| >= 2 && t[0] == '0' && (t[1] == 'b' || t[1] == 'B') then ParseDigits(t[2..], 2, false)
    else if t[0] == '-' then ParseDigits(t[1..], 10, true)
    else if t[0] == '+' then ParseDigits(t[1..], 10, false)
    else ParseDigits(t, 10, false)
  }

  function ParseDigits(d: string, base: nat, negative: bool): Option<int>
  {
    if d != [] && IsDigits(d, base) then Some(if negative then -(ValueIn(d, base) as int) else ValueIn(d, base))
    else None
  }

  /** A printed integer parses back to itself. */
  lemma {:induction false} ParseFormatInt(i: int)
    ensures ParseBigInt(FormatInt(i)) == Some(i)
  {
    if i < 0 {
      ParseNegative(i);
    } else {
      ParseNonNegative(i);
    }
  }

  lemma {:induction false} ParseNegative(i: int)
    requires i < 0
    ensures ParseBigInt(FormatInt(i)) == Some(i)
  {
    var digits := FormatNat(-i, 10);
    assert FormatInt(i) == "-" + digits;
    ParseSigned(digits);
  }

  lemma {:induction false} ParseNonNegative(i: int)
    requires i >= 0
    ensures ParseBigInt(FormatInt(i)) == Some(i)
  {
    ParseDecimal(FormatNat(i, 10));
  }

  /** A decimal digit string parses to its value. */
  lemma {:induction false} ParseDecimal(s: string)
    requires s != [] && IsDigits(s, 10)
    ensures ParseBigInt(s) == Some(ValueIn(s, 10))
  {
    assert DigitValue(s[0]) < 10 && DigitValue(s[|s| - 1]) < 10;
    TrimUnchanged(s);
    assert |s| >= 2 ==> DigitValue(s[1]) < 10;
  }

  /** A minus sign followed by a decimal digit string parses to the negated value. */
  lemma {:induction false} ParseSigned(d: string)
    requires d != [] && IsDigits(d, 10)
    ensures ParseBigInt("-" + d) == Some(-(ValueIn(d, 10) as int))
  {
    var s := "-" + d;
    assert DigitValue(d[|d| - 1]) < 10;
    assert s[|s| - 1] == d[|d| - 1];
    TrimUnchanged(s);
    assert s[1..] == d;
  }
}
