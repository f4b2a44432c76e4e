/** Numbers as text: the field printer of the formatter, and the option parsers that read numbers back. */
module NumberText {
  import opened Options

  const TWO_63 := 0x8000_0000_0000_0000
  const TWO_64 := 0x1_0000_0000_0000_0000

  datatype Flags = Flags(zeroPad: bool, sign: bool, plus: bool, space: bool, left: bool, hexPrep: bool, uppercase: bool)

  function Base(hex: bool): nat { if hex then 16 else 10 }

  function TimesBase(hex: bool, v: nat): nat { if hex then 16 * v else 10 * v }

  function DigitChar(d: nat, upper: bool): (c: char)
    requires d < 16
  {
    if d < 10 then ('0' as int + d) as char else ((if upper then 'A' else 'a') as int + (d - 10)) as char
  }

  /** The digits of a number, the most significant first; none for zero. */
  function Digits(n: nat, hex: bool, upper: bool): string {
    if n == 0 then "" else if hex then Digits(n / 16, hex, upper) + [DigitChar(n % 16, upper)]
    else Digits(n / 10, hex, upper) + [DigitChar(n % 10, upper)]
  }

  function Fill(c: char, n: int): (s: string)
    ensures |s| == if n > 0 then n else 0
    ensures forall i :: 0 <= i < |s| ==> s[i] == c
    decreases n
  {
    if n <= 0 then "" else Fill(c, n - 1) + [c]
  }

  function Max(a: int, b: int): int { if a > b then a else b }

  function Abs(n: int): nat { if n < 0 then -n else n }

  /** The parts of a field. */
  function Sign(num: int, f: Flags): string {
    if !f.sign then "" else if num < 0 then "-" else if f.plus then "+" else if f.space then " " else ""
  }

  function Prefix(num: int, hex: bool, f: Flags): string { if f.hexPrep && hex && num != 0 then "0x" else "" }

  function Significant(num: int, hex: bool, precision: int, f: Flags): string {
    if num == 0 && precision != 0 then "0" else Digits(Abs(num), hex, f.uppercase)
  }

  predicate PadsWithZeros(precision: int, f: Flags) { f.zeroPad && !f.left && precision == -1 }

  /** A field: a start, digits filled up with zeros to the precision, and padding in one of three places. `size`
      characters are left for all after the start. */
  function Assembled(start: string, d: string, size: int, precision: int, left: bool, zeros: bool): string {
    var body := Fill('0', precision - |d|) + d;
    var pad := size - |body|;
    Join(if left || zeros then "" else Fill(' ', pad), start, if zeros then Fill('0', pad) else "", body,
         if left then Fill(' ', pad) else "")
  }

  function Join(a: string, b: string, c: string, d: string, e: string): string { a + b + c + d + e }

  function Field(num: int, hex: bool, size: int, precision: int, f: Flags): string {
    var start := Sign(num, f) + Prefix(num, hex, f);
    Assembled(start, Significant(num, hex, precision, f), size - |start|, precision, f.left,
              PadsWithZeros(precision, f))
  }

  /** A field is as wide as asked for, or as its parts need. */
  lemma FieldLength(num: int, hex: bool, size: int, precision: int, f: Flags)
    ensures |Field(num, hex, size, precision, f)| ==
            Max(size, |Sign(num, f)| + |Prefix(num, hex, f)| + Max(|Significant(num, hex, precision, f)|, precision))
  {
  }

  const SIGNED := Flags(false, true, false, false, false, false, false)
  const UNSIGNED := SIGNED.(sign := false)

  lemma OneDigitText(d: nat, hex: bool, upper: bool)
    requires 0 < d < Base(hex)
    ensures Digits(d, hex, upper) == [DigitChar(d, upper)]
  {
  }

  lemma TwoDigitText(d: nat, e: nat, hex: bool, upper: bool)
    requires 0 < d < Base(hex) && e < Base(hex)
    ensures Digits(TimesBase(hex, d) + e, hex, upper) == [DigitChar(d, upper), DigitChar(e, upper)]
  {
    OneDigitText(d, hex, upper);
    NextDigitText(d, e, hex, upper);
    hide Digits;
  }

  lemma NextDigitText(n: nat, e: nat, hex: bool, upper: bool)
    requires 0 < n && e < Base(hex)
    ensures Digits(TimesBase(hex, n) + e, hex, upper) == Digits(n, hex, upper) + [DigitChar(e, upper)]
  {
    var m := TimesBase(hex, n) + e;
    assert if hex then m / 16 == n && m % 16 == e else m / 10 == n && m % 10 == e;
  }

  /** Fields as the C standard has them: `%d`, `%5d`, `%-5d` and `%05d`. */
  lemma KnownWidths()
    ensures Field(-7, false, 0, -1, SIGNED) == "-7"
    ensures Field(42, false, 5, -1, SIGNED) == "   42"
    ensures Field(42, false, 5, -1, SIGNED.(left := true)) == "42   "
    ensures Field(-42, false, 5, -1, SIGNED.(zeroPad := true)) == "-0042"
  {
    OneDigitText(7, false, false);
    TwoDigitText(4, 2, false, false);
    hide Digits;
  }

  /** `%.3d`, `%8.3d` and `%08.3d`. */
  lemma KnownPrecisions()
    ensures Field(5, false, 0, 3, SIGNED) == "005"
    ensures Field(-5, false, 8, 3, SIGNED) == "    -005"
    ensures Field(5, false, 8, 3, SIGNED.(zeroPad := true)) == "     005"
  {
    OneDigitText(5, false, false);
    assert Fill('0', 2) == "00" && Fill(' ', 4) == "    " && Fill(' ', 5) == "     ";
    NoFill();
    hide Digits, Fill;
  }

  /** `%d`, `%.0d` and `%2d` of 0. */
  lemma KnownZeros()
    ensures Field(0, false, 0, -1, SIGNED) == "0" && Field(0, false, 0, 0, SIGNED) == ""
    ensures Field(0, false, 2, -1, SIGNED) == " 0"
  {
    assert Digits(0, false, false) == "";
    hide Digits;
  }

  /** `%+d`, `% d` and both, and `%u` of them. */
  lemma KnownSigns()
    ensures Field(1, false, 0, -1, SIGNED.(plus := true)) == "+1"
            && Field(1, false, 0, -1, SIGNED.(space := true)) == " 1"
    ensures Field(1, false, 0, -1, SIGNED.(plus := true, space := true)) == "+1"
    ensures Field(-1, false, 0, -1, SIGNED.(plus := true)) == "-1"
    ensures Field(1, false, 0, -1, UNSIGNED.(plus := true)) == "1"
  {
    OneDigitText(1, false, false);
    hide Digits;
  }

  /** `%x`, `%X`, `%#x`, `%#08x` and `%#x` of 0. */
  lemma KnownHex()
    ensures Field(0xBE, true, 0, -1, UNSIGNED) == "be"
    ensures Field(0xBE, true, 0, -1, UNSIGNED.(uppercase := true)) == "BE"
    ensures Field(0xA0, true, 0, -1, UNSIGNED.(hexPrep := true)) == "0xa0"
    ensures Field(0xA0, true, 8, -1, UNSIGNED.(hexPrep := true, zeroPad := true)) == "0x0000a0"
    ensures Field(0, true, 0, -1, UNSIGNED.(hexPrep := true)) == "0"
  {
    TwoDigitText(11, 14, true, false);
    TwoDigitText(11, 14, true, true);
    TwoDigitText(10, 0, true, false);
    hide Digits;
  }

  function Pow(base: nat, k: nat): nat { if k == 0 then 1 else base * Pow(base, k - 1) }

  lemma TwentyDigits()
    ensures TWO_64 <= Pow(10, 20) && TWO_64 <= Pow(16, 20)
  {
    assert Pow(10, 5) == 100000;
    assert Pow(10, 10) == 100000 * Pow(10, 5);
    assert Pow(10, 15) == 100000 * Pow(10, 10);
    assert Pow(10, 20) == 100000 * Pow(10, 15);
    assert Pow(16, 4) == 0x10000;
    assert Pow(16, 8) == 0x10000 * Pow(16, 4);
    assert Pow(16, 12) == 0x10000 * Pow(16, 8);
    assert Pow(16, 16) == 0x10000 * Pow(16, 12);
    assert Pow(16, 20) == 0x10000 * Pow(16, 16);
  }

  function Backwards(s: string): (r: string)
    ensures |r| == |s|
  {
    if s == "" then "" else [s[|s| - 1]] + Backwards(s[..|s| - 1])
  }

  /** `while(n-- > 0) *str++ = c`, the form of all the padding loops; `n1` is the counter afterwards. */
  method Pad(str: string, c: char, n: int) returns (str1: string, n1: int)
    ensures str1 == str + Fill(c, n) && n1 == if n > 0 then -1 else n - 1
  {
    str1, n1 := str, n;
    while n1 > 0
      invariant n1 == n || 0 <= n1 < n
      invariant str1 == str + Fill(c, n - n1)
    {
      str1 := str1 + [c];
      n1 := n1 - 1;
    }
    n1 := n1 - 1;
  }

  /** The loop that takes a number apart, least significant digit first, into twenty characters. */
  method TakeApart(n: nat, hex: bool, upper: bool, tmp: array<char>) returns (i: nat)
    requires n < TWO_64 && tmp.Length == 20
    modifies tmp
    ensures i <= 20 && Digits(n, hex, upper) == Backwards(tmp[..i])
  {
    hide Pow, Digits, Backwards;
    var m: nat := n;
    i := 0;
    TwentyDigits();
    ZeroDigits(hex, upper, tmp[..0]);
    while m != 0
      invariant i <= 20 && m < Pow(Base(hex), 20 - i)
      invariant Digits(n, hex, upper) == Digits(m, hex, upper) + Backwards(tmp[..i])
      decreases m
    {
      OneDigit(m, hex, 20 - i);
      ghost var taken := tmp[..i];
      DigitsStep(n, m, hex, upper, taken);
      tmp[i] := DigitChar(if hex then m % 16 else m % 10, upper);
      assert tmp[..i + 1] == taken + [tmp[i]];
      m := if hex then m / 16 else m / 10;
      i := i + 1;
    }
  }

  lemma DigitsStep(n: nat, m: nat, hex: bool, upper: bool, taken: string)
    requires m > 0 && Digits(n, hex, upper) == Digits(m, hex, upper) + Backwards(taken)
    ensures var c := DigitChar(if hex then m % 16 else m % 10, upper);
            Digits(n, hex, upper) == Digits(if hex then m / 16 else m / 10, hex, upper) + Backwards(taken + [c])
  {
    var c := DigitChar(if hex then m % 16 else m % 10, upper);
    assert (taken + [c])[..|taken|] == taken;
  }

  lemma OneDigit(m: nat, hex: bool, k: nat)
    requires 0 < m < Pow(Base(hex), k)
    ensures k > 0 && (if hex then m / 16 else m / 10) < Pow(Base(hex), k - 1)
  {
  }

  /** The digits, last in first out. */
  method EmitDigits(str: string, tmp: array<char>, n: nat) returns (str1: string)
    requires n <= tmp.Length
    ensures str1 == str + Backwards(tmp[..n])
  {
    hide Backwards;
    str1 := str;
    var i: nat := n;
    NoneBackwards();
    while i > 0
      invariant i <= n && str1 + Backwards(tmp[..i]) == str + Backwards(tmp[..n])
    {
      LastFirst(tmp[..i]);
      i := i - 1;
      assert tmp[..i + 1][..i] == tmp[..i];
      str1 := str1 + [tmp[i]];
    }
  }

  /** The second half of `processNumber`, from where the number has been taken apart: what comes before the digits. */
  method EmitStart(sign: string, prefix: bool, size: int, left: bool, zeroPad: bool) returns (str: string, size1: int)
    ensures str == (if left || zeroPad then "" else Fill(' ', size)) + (if prefix then sign + "0x" else sign)
                   + (if zeroPad then Fill('0', size) else "")
    ensures if left && !zeroPad then size1 == size else size1 < 0
  {
    hide Fill;
    str, size1 := "", size;
    if !(zeroPad || left) {
      str, size1 := Pad(str, ' ', size1);
    }
    assert str == if left || zeroPad then "" else Fill(' ', size);
    str := str + sign;
    if prefix {
      str := str + "0x";
    }
    if zeroPad {
      str, size1 := Pad(str, '0', size1);
    }
  }

  method EmitField(sign: string, prefix: bool, tmp: array<char>, i: nat, size: int, precision: int, left: bool,
                   zeroPad: bool)
    returns (str: string)
    requires i <= tmp.Length && !(left && zeroPad)
    ensures str == Assembled(if prefix then sign + "0x" else sign, Backwards(tmp[..i]), size, precision, left, zeroPad)
  {
    hide Backwards, Fill;
    var precision1 := if i > precision then i else precision;
    var size1 := size - precision1;
    ghost var d, pad := Backwards(tmp[..i]), size1;
    NoFill();
    str, size1 := EmitStart(sign, prefix, size1, left, zeroPad);
    ghost var front := str;
    str, precision1 := Pad(str, '0', precision1 - i);
    str := EmitDigits(str, tmp, i);
    assert str == front + (Fill('0', precision - i) + d);
    assert Fill(' ', size1) == if left then Fill(' ', pad) else "";
    str, size1 := Pad(str, ' ', size1);
  }

  lemma NoFill()
    ensures forall c, n :: n <= 0 ==> Fill(c, n) == ""
  {
  }

  lemma NoneBackwards()
    ensures Backwards("") == ""
  {
  }

  /** `processNumber`. The most negative number has no negation in 64 bits and is left out. */
  method ProcessNumber(num: int, hex: bool, size: int, precision: int, f: Flags) returns (str: string)
    requires if f.sign then -TWO_63 < num < TWO_63 else 0 <= num < TWO_64
    requires precision >= -1
    ensures str == Field(num, hex, size, precision, f)
  {
    hide Digits, Fill, Backwards, Assembled;
    var n: int, size1 := num, size;
    var sign := "";
    if f.sign {
      if num < 0 {
        sign := "-";
        n := -num;
        size1 := size1 - 1;
      } else if f.plus {
        sign := "+";
        size1 := size1 - 1;
      } else if f.space {
        sign := " ";
        size1 := size1 - 1;
      }
    }
    var tmp := new char[20](i => '0');
    var i, hexPrep := 0, f.hexPrep;
    if n == 0 {
      if precision != 0 {
        tmp[0] := '0';
        i := 1;
      }
      hexPrep := false;
      ZeroDigits(hex, f.uppercase, tmp[..i]);
    } else {
      i := TakeApart(n, hex, f.uppercase, tmp);
    }
    assert Backwards(tmp[..i]) == Significant(num, hex, precision, f);
    var zeroPad := f.zeroPad && !(f.left || precision != -1);
    if hexPrep && hex {
      size1 := size1 - 2;
    }
    str := EmitField(sign, hexPrep && hex, tmp, i, size1, precision, f.left, zeroPad);
    assert Sign(num, f) + Prefix(num, hex, f) == if hexPrep && hex then sign + "0x" else sign;
  }

  lemma ZeroDigits(hex: bool, upper: bool, t: string)
    ensures Digits(0, hex, upper) == ""
    ensures |t| <= 1 ==> Backwards(t) == t
  {
  }

  lemma LastFirst(s: string)
    requires s != ""
    ensures Backwards(s) == [s[|s| - 1]] + Backwards(s[..|s| - 1])
  {
  }

  function DigitValue(c: char, hex: bool): Option<nat> {
    if '0' <= c <= '9' then Some(c as int - '0' as int)
    else if hex && 'a' <= c <= 'f' then Some(c as int - 'a' as int + 10)
    else if hex && 'A' <= c <= 'F' then Some(c as int - 'A' as int + 10)
    else None
  }

  /** A number cut to 64 bits. */
  function Wrap(v: nat): nat { v % TWO_64 }

  /** The value of a string of digits in 64-bit arithmetic, if it is one. */
  function ValueOf(s: string, hex: bool): Option<nat>
  {
    if s == "" then Some(0)
    else
      var d := DigitValue(s[|s| - 1], hex);
      match ValueOf(s[..|s| - 1], hex)
      case None => None
      case Some(v) => if d == None then None else Some(Wrap(TimesBase(hex, v) + d.value))
  }

  /** The value of digits without a limit. */
  function Exact(s: string, hex: bool): nat {
    if s == "" then 0
    else
      (if hex then 16 else 10) * Exact(s[..|s| - 1], hex)
      + match DigitValue(s[|s| - 1], hex) case None => 0 case Some(d) => d
  }

  /** The value of a string of digits is taken in 64 bits. */
  lemma {:induction false} ValueIn64Bits(s: string, hex: bool)
    requires ValueOf(s, hex).Some?
    ensures ValueOf(s, hex).value == Exact(s, hex) % 0x1_0000_0000_0000_0000
    decreases |s|
  {
    if s != "" {
      var t := s[..|s| - 1];
      ValueIn64Bits(t, hex);
      CutProduct(Exact(t, hex), if hex then 16 else 10, DigitValue(s[|s| - 1], hex).value);
    }
  }

  lemma CutProduct(x: nat, k: nat, d: nat)
    requires k == 10 || k == 16
    ensures (k * (x % TWO_64) + d) % TWO_64 == (k * x + d) % TWO_64
  {
    var q, r := x / TWO_64, x % TWO_64;
    assert k * x + d == k * r + d + TWO_64 * (k * q);
    CutMultiple(k * r + d, k * q);
  }

  lemma CutMultiple(a: nat, q: nat)
    ensures (a + TWO_64 * q) % TWO_64 == a % TWO_64
  {
  }

  function SignLength(val: string): nat { if |val| >= 2 && (val[0] == '+' || val[0] == '-') then 1 else 0 }

  function ToSigned(u: int): int { if u % TWO_64 < TWO_63 then u % TWO_64 else u % TWO_64 - TWO_64 }

  function DecOption(val: string, minval: int, maxval: int): Option<int> {
    match ValueOf(val[SignLength(val)..], false)
    case None => None
    case Some(u) =>
      var res := ToSigned(if SignLength(val) == 1 && val[0] == '-' then 0 - u as int else u);
      if minval <= res <= maxval then Some(res) else None
  }

  function HexOption(val: string, minval: int, maxval: int): Option<int> {
    match ValueOf(val, true)
    case None => None
    case Some(u) => if minval <= u <= maxval then Some(u) else None
  }

  lemma NextDigit(val: string, from: nat, i: nat, hex: bool)
    requires from <= i < |val|
    ensures ValueOf(val[from..i + 1], hex) ==
            if ValueOf(val[from..i], hex) == None || DigitValue(val[i], hex) == None then None
            else Some(Wrap(TimesBase(hex, ValueOf(val[from..i], hex).value) + DigitValue(val[i], hex).value))
  {
    assert val[from..i + 1][..i - from] == val[from..i];
  }

  /** A character that is no digit anywhere fails the whole. */
  lemma {:induction false} NonDigitFails(s: string, k: nat, hex: bool)
    requires k < |s| && DigitValue(s[k], hex) == None
    ensures ValueOf(s, hex) == None
    decreases |s|
  {
    if k < |s| - 1 {
      NonDigitFails(s[..|s| - 1], k, hex);
    }
  }

  /** The code a parser returns and what it stores: the value and 0, or 0 and -1. */
  predicate Stored(code: int, out: int, r: Option<int>) {
    match r
    case None => code == -1 && out == 0
    case Some(v) => code == 0 && out == v
  }

  /** The loop of `parseDecIntOptionImpl`. */
  method DecDigits(val: string, from: nat) returns (ok: bool, res: nat)
    requires from <= |val|
    ensures ValueOf(val[from..], false) == if ok then Some(res) else None
  {
    var i := from;
    res := 0;
    while i < |val|
      invariant from <= i <= |val|
      invariant ValueOf(val[from..i], false) == Some(res)
    {
      NextDigit(val, from, i, false);
      if !('0' <= val[i] <= '9') {
        NonDigitFails(val[from..], i - from, false);
        return false, res;
      }
      res := Wrap(10 * res + (val[i] as int - '0' as int));
      i := i + 1;
    }
    assert val[from..|val|] == val[from..];
    ok := true;
  }

  /** `parseDecIntOptionImpl`. Signed overflow wraps around. */
  method ParseDecIntOption(val: string, minval: int, maxval: int) returns (code: int, out: int)
    ensures Stored(code, out, DecOption(val, minval, maxval))
  {
    out := 0;
    var i := 0;
    var negative := false;
    if |val| >= 2 {
      if val[0] == '+' {
        i := i + 1;
      } else if val[0] == '-' {
        negative := true;
        i := i + 1;
      }
    }
    var ok, res := DecDigits(val, i);
    if !ok {
      return -1, out;
    }
    var signed := ToSigned(if negative then 0 - res as int else res);
    if signed <= maxval && signed >= minval {
      return 0, signed;
    }
    return -1, out;
  }

  /** `parseHexIntOption`. */
  method ParseHexIntOption(val: string, minval: int, maxval: int) returns (code: int, out: int)
    ensures Stored(code, out, HexOption(val, minval, maxval))
  {
    out := 0;
    var res := 0;
    for i := 0 to |val|
      invariant ValueOf(val[0..i], true) == Some(res)
    {
      NextDigit(val, 0, i, true);
      var c := val[i];
      if '0' <= c <= '9' {
        res := Wrap(16 * res + (c as int - '0' as int));
      } else if 'a' <= c <= 'f' {
        res := Wrap(16 * res + (c as int - 'a' as int + 10));
      } else if 'A' <= c <= 'F' {
        res := Wrap(16 * res + (c as int - 'A' as int + 10));
      } else {
        NonDigitFails(val, i, true);
        return -1, out;
      }
    }
    assert val[0..|val|] == val;
    if res <= maxval && res >= minval {
      return 0, res;
    }
    return -1, out;
  }

  lemma DigitCharValue(d: nat, upper: bool, hex: bool)
    requires d < Base(hex)
    ensures DigitValue(DigitChar(d, upper), hex) == Some(d)
  {
  }

  lemma AppendDigit(s: string, v: nat, d: nat, hex: bool, upper: bool)
    requires ValueOf(s, hex) == Some(v) && d < Base(hex) && TimesBase(hex, v) + d < TWO_64
    ensures ValueOf(s + [DigitChar(d, upper)], hex) == Some(TimesBase(hex, v) + d)
  {
    hide ValueOf, DigitChar, DigitValue, TimesBase, Wrap;
    DigitCharValue(d, upper, hex);
    LastDigit(s, DigitChar(d, upper), hex);
    SmallValue(TimesBase(hex, v) + d);
  }

  lemma LastDigit(s: string, c: char, hex: bool)
    ensures ValueOf(s + [c], hex) ==
            match ValueOf(s, hex)
            case None => None
            case Some(v) => if DigitValue(c, hex) == None then None
              else Some(Wrap(TimesBase(hex, v) + DigitValue(c, hex).value))
  {
    hide DigitValue, TimesBase;
    assert (s + [c])[..|s|] == s;
  }

  lemma SmallValue(v: nat)
    requires v < TWO_64
    ensures Wrap(v) == v
  {
  }

  lemma {:induction false} ZerosValue(k: int, hex: bool)
    ensures ValueOf(Fill('0', k), hex) == Some(0)
    decreases k
  {
    if k > 0 {
      ZerosValue(k - 1, hex);
      AppendDigit(Fill('0', k - 1), 0, 0, hex, false);
      assert DigitChar(0, false) == '0';
    }
  }

  /** The digits of a number, with any zeros before them, have its value. */
  lemma {:induction false} DigitsValue(k: int, n: nat, hex: bool, upper: bool)
    requires n < TWO_64
    ensures ValueOf(Fill('0', k) + Digits(n, hex, upper), hex) == Some(n)
    decreases n
  {
    var z := Fill('0', k);
    if n == 0 {
      ZerosValue(k, hex);
      assert z + "" == z;
    } else {
      var m: nat, d: nat := if hex then n / 16 else n / 10, if hex then n % 16 else n % 10;
      DigitsValue(k, m, hex, upper);
      assert z + Digits(n, hex, upper) == z + Digits(m, hex, upper) + [DigitChar(d, upper)];
      AppendDigit(z + Digits(m, hex, upper), m, d, hex, upper);
    }
  }

  /** The zeros and digits of a field have the value of the number. */
  lemma BodyValue(k: int, num: int, hex: bool, precision: int, f: Flags)
    requires Abs(num) < TWO_64
    ensures ValueOf(Fill('0', k) + Significant(num, hex, precision, f), hex) == Some(Abs(num))
  {
    if num == 0 && precision != 0 {
      var z := if k < 0 then 0 else k;
      ZerosValue(z + 1, hex);
      assert Fill('0', k) == Fill('0', z);
      assert Fill('0', z + 1) == Fill('0', z) + "0";
    } else {
      DigitsValue(k, Abs(num), hex, f.uppercase);
    }
  }

  /** The field asked for is wider than its parts, and filled up with spaces. */
  predicate SpacePadded(num: int, hex: bool, size: int, precision: int, f: Flags) {
    && !PadsWithZeros(precision, f)
    && size > |Sign(num, f)| + |Prefix(num, hex, f)| + Max(|Significant(num, hex, precision, f)|, precision)
  }

  lemma PaddedHasSpace(num: int, hex: bool, size: int, precision: int, f: Flags)
    requires SpacePadded(num, hex, size, precision, f)
    ensures var s := Field(num, hex, size, precision, f);
            s != "" && s[if f.left then |s| - 1 else 0] == ' '
  {
  }

  lemma JoinMiddle(b: string, c: string, d: string)
    ensures Join("", b, c, d, "") == b + (c + d)
  {
    assert "" + b == b;
  }

  lemma AssembledUnpadded(start: string, d: string, size: int, precision: int, left: bool, zeros: bool) returns (k: int)
    requires zeros ==> precision == -1 && !left
    requires zeros || size <= Max(|d|, precision)
    ensures Assembled(start, d, size, precision, left, zeros) == start + (Fill('0', k) + d)
    ensures !zeros ==> k == precision - |d|
  {
    hide Fill, Join;
    NoFill();
    var p := Fill('0', precision - |d|);
    if zeros {
      k := size - |d|;
      JoinMiddle(start, Fill('0', k), p + d);
      assert p + d == d;
    } else {
      k := precision - |d|;
      JoinMiddle(start, "", p + d);
      assert "" + (p + d) == p + d;
    }
  }

  /** A field without padding spaces is its start, zeros and the digits. */
  lemma Unpadded(num: int, hex: bool, size: int, precision: int, f: Flags) returns (k: int)
    requires !SpacePadded(num, hex, size, precision, f)
    ensures Field(num, hex, size, precision, f)
         == Sign(num, f) + Prefix(num, hex, f) + (Fill('0', k) + Significant(num, hex, precision, f))
    ensures precision == 0 ==> k <= 0
  {
    hide Assembled, Fill, Sign, Prefix, Significant;
    var start := Sign(num, f) + Prefix(num, hex, f);
    k := AssembledUnpadded(start, Significant(num, hex, precision, f), size - |start|, precision, f.left,
                           PadsWithZeros(precision, f));
  }

  lemma {:induction false} DigitsAreDigits(n: nat, hex: bool, upper: bool)
    ensures forall i :: 0 <= i < |Digits(n, hex, upper)| ==> DigitValue(Digits(n, hex, upper)[i], hex) != None
    ensures n > 0 ==> Digits(n, hex, upper) != ""
    decreases n
  {
    if n > 0 {
      DigitsAreDigits(if hex then n / 16 else n / 10, hex, upper);
      DigitCharValue(if hex then n % 16 else n % 10, upper, hex);
    }
  }

  /** Whether the decimal parser gets back a printed number: no space in the field, and not a plus sign alone. */
  predicate DecReadable(num: int, size: int, precision: int, f: Flags) {
    && !SpacePadded(num, false, size, precision, f)
    && Sign(num, f) != " "
    && !(num == 0 && precision == 0 && Sign(num, f) != "")
  }

  /** Printing a signed number and parsing the field gives the number back exactly when the field is readable, whatever
      the flags, the width and the precision. */
  lemma DecRoundTrip(num: int, size: int, precision: int, f: Flags, minval: int, maxval: int)
    requires -TWO_63 < num < TWO_63 && f.sign && minval <= num <= maxval
    ensures DecOption(Field(num, false, size, precision, f), minval, maxval) == Some(num)
       <==> DecReadable(num, size, precision, f)
  {
    hide Field, Fill, Significant, DecOption, DecReadable, SpacePadded;
    if SpacePadded(num, false, size, precision, f) {
      PaddedUnreadable(num, size, precision, f, minval, maxval);
    } else {
      UnpaddedReadable(num, size, precision, f, minval, maxval);
    }
  }

  lemma PaddedUnreadable(num: int, size: int, precision: int, f: Flags, minval: int, maxval: int)
    requires SpacePadded(num, false, size, precision, f)
    ensures DecOption(Field(num, false, size, precision, f), minval, maxval) == None
            && !DecReadable(num, size, precision, f)
  {
    hide Field, Significant, ValueOf, SpacePadded, ToSigned, Sign;
    var s := Field(num, false, size, precision, f);
    PaddedHasSpace(num, false, size, precision, f);
    SpaceFails(s, if f.left then |s| - 1 else 0);
  }

  lemma UnpaddedReadable(num: int, size: int, precision: int, f: Flags, minval: int, maxval: int)
    requires -TWO_63 < num < TWO_63 && f.sign && minval <= num <= maxval && !SpacePadded(num, false, size, precision, f)
    ensures DecOption(Field(num, false, size, precision, f), minval, maxval) == Some(num)
       <==> DecReadable(num, size, precision, f)
  {
    hide Field, Fill, Significant, ValueOf, SpacePadded, DecOption;
    var k := Unpadded(num, false, size, precision, f);
    var body := Fill('0', k) + Significant(num, false, precision, f);
    BodyDigits(k, num, precision, f);
    BodyValue(k, num, false, precision, f);
    OptionOfParts(num, Sign(num, f), body, minval, maxval);
  }

  /** What the parser makes of a sign and the digits of a number. */
  lemma OptionOfParts(num: int, sign: string, body: string, minval: int, maxval: int)
    requires -TWO_63 < num < TWO_63 && minval <= num <= maxval && ValueOf(body, false) == Some(Abs(num))
    requires forall i :: 0 <= i < |body| ==> '0' <= body[i] <= '9'
    requires if num < 0 then sign == "-" else sign == "" || sign == "+" || sign == " "
    ensures DecOption(sign + "" + body, minval, maxval) == Some(num) <==> sign != " " && !(sign != "" && body == "")
  {
    hide ValueOf, ToSigned, SignLength;
    ParseSigned(sign, body, Abs(num));
    SignedValue(Abs(num));
  }

  lemma SignedValue(n: nat)
    requires n < TWO_63
    ensures ToSigned(n) == n && ToSigned(0 - n) == -(n as int)
  {
    if n > 0 {
      assert (0 - n) % TWO_64 == TWO_64 - n;
    }
  }

  lemma SpaceFails(s: string, k: nat)
    requires k < |s| && s[k] == ' ' && (k == 0 || k == |s| - 1)
    ensures ValueOf(s[SignLength(s)..], false) == None
  {
    NonDigitFails(s[SignLength(s)..], k - SignLength(s), false);
  }

  lemma BodyDigits(k: int, num: int, precision: int, f: Flags)
    requires precision == 0 ==> k <= 0
    ensures var body := Fill('0', k) + Significant(num, false, precision, f);
            && (forall i :: 0 <= i < |body| ==> '0' <= body[i] <= '9')
            && (body == "" <==> num == 0 && precision == 0)
  {
    DigitsAreDigits(Abs(num), false, f.uppercase);
  }

  /** What the parser makes of a sign and digits. */
  lemma ParseSigned(sign: string, body: string, n: nat)
    requires sign == "" || sign == "-" || sign == "+" || sign == " "
    requires forall i :: 0 <= i < |body| ==> '0' <= body[i] <= '9'
    requires ValueOf(body, false) == Some(n)
    ensures var s := sign + "" + body;
            && ValueOf(s[SignLength(s)..], false)
              == (if sign == " " || (sign != "" && body == "") then None else Some(n))
            && (SignLength(s) == 1 <==> body != "" && (sign == "-" || sign == "+"))
            && (sign != "" ==> s[0] == sign[0])
  {
    hide ValueOf;
    var s := sign + "" + body;
    SignThenBody(sign, body);
    if sign == "" {
      NoSign(body);
    } else {
      if sign == " " || body == "" {
        NonDigitFails(s, 0, false);
      }
    }
  }

  lemma SignThenBody(sign: string, body: string)
    requires |sign| <= 1
    ensures var s := sign + "" + body;
            if sign == "" then s == body else |s| == |body| + 1 && s[0] == sign[0] && s[1..] == body && s[0..] == s
  {
  }

  lemma NoSign(body: string)
    requires forall i :: 0 <= i < |body| ==> '0' <= body[i] <= '9'
    ensures SignLength(body) == 0 && body[0..] == body
  {
  }

  /** An unsigned number printed in hexadecimal and parsed comes back exactly when the field has neither spaces nor
      "0x". */
  lemma HexRoundTrip(num: int, size: int, precision: int, f: Flags, minval: int, maxval: int)
    requires 0 <= num < TWO_64 && !f.sign && minval <= num <= maxval
    ensures HexOption(Field(num, true, size, precision, f), minval, maxval) == Some(num)
       <==> !SpacePadded(num, true, size, precision, f) && !(f.hexPrep && num != 0)
  {
    hide Field, Fill, Significant, ValueOf, SpacePadded;
    var s := Field(num, true, size, precision, f);
    if SpacePadded(num, true, size, precision, f) {
      PaddedHasSpace(num, true, size, precision, f);
      NonDigitFails(s, if f.left then |s| - 1 else 0, true);
    } else {
      var k := Unpadded(num, true, size, precision, f);
      var body := Fill('0', k) + Significant(num, true, precision, f);
      BodyValue(k, num, true, precision, f);
      if f.hexPrep && num != 0 {
        assert s == "0x" + body && s[1] == 'x';
        NonDigitFails(s, 1, true);
      } else {
        assert s == body;
      }
    }
  }
}
