/** Numbers as text (Kernel/Printk.c: number, skip_atoi). */
module Numbers {
  import opened Words

  /** The type argument, bit by bit. */
  datatype Flags = Flags(zeropad: bool, sign: bool, plus: bool, space: bool, left: bool, special: bool, small: bool)

  const TWO_63: nat := 0x8000_0000_0000_0000

  /** A value of C's long. */
  predicate Long(x: int) { -(TWO_63 as int) <= x < TWO_63 }

  /** TempStr */
  const CELLS: nat := 50

  // ----- digits -----

  function Quotient(v: nat, b: nat): (r: nat)
    requires b >= 2
    ensures v > 0 ==> r < v
  {
    Smaller(v, b);
    v / b
  }

  lemma Smaller(v: nat, b: nat)
    requires b >= 2
    ensures v > 0 ==> v / b < v
  {
  }

  function Remainder(v: nat, b: nat): (r: nat)
    requires b >= 2
    ensures r < b
  {
    v % b
  }

  /** The digits of v as the division loop yields them, the lowest first; none for 0. */
  function Loop(v: nat, b: nat): (r: seq<nat>)
    requires b >= 2
    decreases v
  {
    if v == 0 then [] else [Remainder(v, b)] + Loop(Quotient(v, b), b)
  }

  function Digits(v: nat, b: nat): (r: seq<nat>)
    requires b >= 2
  {
    if v == 0 then [0] else Loop(v, b)
  }

  /** What digits, the lowest first, are worth. */
  function Worth(ds: seq<nat>, b: nat): (r: nat)
  {
    if ds == [] then 0 else ds[0] + b * Worth(ds[1..], b)
  }

  function Pow(b: nat, n: nat): (r: nat)
  {
    if n == 0 then 1 else b * Pow(b, n - 1)
  }

  lemma DivMod(v: nat, b: nat)
    requires b >= 2
    ensures v == Remainder(v, b) + b * Quotient(v, b)
  {
  }

  /** The digits stand for the value, and each is below the base. */
  lemma {:induction false} LoopWorth(v: nat, b: nat)
    requires b >= 2
    ensures Worth(Loop(v, b), b) == v
    ensures forall i | 0 <= i < |Loop(v, b)| :: Loop(v, b)[i] < b
    decreases v
  {
    if v > 0 {
      LoopWorth(Quotient(v, b), b);
      DivMod(v, b);
      hide Quotient, Remainder;
    }
  }

  /** v needs at most n digits exactly if it is below the n-th power of the base. */
  lemma {:induction false} LoopLength(v: nat, b: nat, n: nat)
    requires b >= 2
    ensures |Loop(v, b)| <= n <==> v < Pow(b, n)
    decreases n
  {
    if v > 0 && n > 0 {
      LoopLength(Quotient(v, b), b, n - 1);
      DivMod(v, b);
      hide Loop, Pow;
      Compare(Quotient(v, b), Remainder(v, b), b, Pow(b, n - 1));
    } else {
      PowPositive(b, n);
    }
  }

  lemma {:induction false} PowPositive(b: nat, n: nat)
    requires b >= 1
    ensures Pow(b, n) >= 1
    decreases n
  {
    if n > 0 {
      PowPositive(b, n - 1);
      assert b * Pow(b, n - 1) >= 1;
    }
  }

  lemma Compare(q: nat, r: nat, b: nat, p: nat)
    requires r < b
    ensures q < p <==> r + b * q < b * p
  {
    if q < p {
      assert b * (q + 1) <= b * p;
    } else {
      assert b * q >= b * p;
    }
  }

  lemma {:induction false} PowAdd(b: nat, m: nat, n: nat)
    ensures Pow(b, m + n) == Pow(b, m) * Pow(b, n)
    decreases m
  {
    if m > 0 {
      PowAdd(b, m - 1, n);
      assert b * (Pow(b, m - 1) * Pow(b, n)) == b * Pow(b, m - 1) * Pow(b, n);
    }
  }

  lemma {:induction false} PowMonotone(a: nat, b: nat, n: nat)
    requires a <= b
    ensures Pow(a, n) <= Pow(b, n)
    decreases n
  {
    if n > 0 {
      PowMonotone(a, b, n - 1);
      Products(a, b, Pow(a, n - 1), Pow(b, n - 1));
    }
  }

  lemma Products(a: nat, b: nat, x: nat, y: nat)
    requires a <= b && x <= y
    ensures a * x <= b * y
  {
  }

  lemma PowersOf3()
    ensures Pow(3, 41) > TWO_64
  {
    assert Pow(3, 5) == 243;
    PowAdd(3, 5, 5);
    PowAdd(3, 10, 10);
    PowAdd(3, 20, 20);
    PowAdd(3, 40, 1);
    assert Pow(3, 1) == 3;
  }

  lemma PowersOf2()
    ensures Pow(2, 50) == 0x4_0000_0000_0000
  {
    assert Pow(2, 5) == 32;
    PowAdd(2, 5, 5);
    PowAdd(2, 10, 10);
    PowAdd(2, 20, 5);
    PowAdd(2, 25, 25);
  }

  /** From base 3 on a 64-bit value has at most 41 digits. In base 2 it fits the 50 cells of TempStr
      exactly if it is below 2 to the 50th. */
  lemma CellsSuffice(v: nat, b: nat)
    requires b >= 2 && v < TWO_64
    ensures b >= 3 ==> |Digits(v, b)| <= 41
    ensures b == 2 ==> (|Digits(v, b)| <= CELLS <==> v < 0x4_0000_0000_0000)
  {
    hide Loop, Pow;
    if b >= 3 {
      PowersOf3();
      PowMonotone(3, b, 41);
      LoopLength(v, b, 41);
    } else {
      PowersOf2();
      LoopLength(v, b, 50);
    }
  }

  // ----- characters -----

  const CAPITALS: string := "0123456789ABCDEFGHIJKLMNOPQRSTUVWXYZ"
  const SMALLS: string := "0123456789abcdefghijklmnopqrstuvwxyz"

  function Letter(d: nat, small: bool): (r: char)
    requires d < 36
  {
    if small then SMALLS[d] else CAPITALS[d]
  }

  /** The digits as text, the highest first. */
  function Text(ds: seq<nat>, small: bool): (r: string)
    requires forall i | 0 <= i < |ds| :: ds[i] < 36
    ensures |r| == |ds|
  {
    if ds == [] then "" else Text(ds[1..], small) + [Letter(ds[0], small)]
  }

  function Repeat(c: char, n: int): (r: string)
    ensures |r| == if n > 0 then n else 0
  {
    seq(if n > 0 then n else 0, _ => c)
  }

  // ----- number -----

  /** The sign character, if any. */
  function SignOf(num: int, f: Flags): (r: string)
  {
    if f.sign && num < 0 then "-" else if f.plus then "+" else if f.space then " " else ""
  }

  /** The 64-bit number that is divided: a negative one counts as unsigned if it has no sign. */
  function Magnitude(num: int, f: Flags): (r: nat)
    requires Long(num)
    ensures r < TWO_64
  {
    if f.sign && num < 0 then -num else if num < 0 then num + TWO_64 else num
  }

  function PrefixOf(base: int, f: Flags): (r: string)
  {
    if !f.special then "" else if base == 8 then "0" else if base == 16 then "0x" else ""
  }

  function Most(a: int, b: int): (r: int) { if a > b then a else b }

  /** field_width less sign, octal prefix and digits. */
  function Room(num: int, base: int, width: int, precision: int, f: Flags): (r: int)
    requires Long(num) && base >= 2
  {
    width - |SignOf(num, f)| - (if f.special && base == 8 then 1 else 0) - Most(precision, |Digits(Magnitude(num, f), base)|)
  }

  /** The digits with the zeros before them: those that fill the width, and those of the precision. */
  function Body(v: nat, base: int, fill: int, precision: int, small: bool): (r: string)
    requires 2 <= base <= 36
  {
    DigitsBelow(v, base);
    var ds := Digits(v, base);
    Repeat('0', fill) + Repeat('0', Most(precision, |ds|) - |ds|) + Text(ds, small)
  }

  /** What number writes; None for a base it refuses. */
  function Number(num: int, base: int, width: int, precision: int, f: Flags): (r: Option<string>)
    requires Long(num)
  {
    if base < 2 || base > 36 then None
    else
      var w := Room(num, base, width, precision, f);
      Some(Repeat(' ', if f.left || f.zeropad then 0 else w)
         + SignOf(num, f) + PrefixOf(base, f)
         + Body(Magnitude(num, f), base, if f.zeropad && !f.left then w else 0, precision, f.small)
         + Repeat(' ', if f.left then w else 0))
  }

  lemma DigitsBelow(v: nat, b: nat)
    requires b >= 2
    ensures Digits(v, b) != [] && forall i | 0 <= i < |Digits(v, b)| :: Digits(v, b)[i] < b
  {
    LoopWorth(v, b);
  }

  /** The length: sign and prefix, and the most of the precision, the digits and the width that is
      left. It is never less than the width, and more only for want of room or by the prefix 0x,
      which the width does not count. */
  lemma NumberLength(num: int, base: int, width: int, precision: int, f: Flags)
    requires Long(num) && 2 <= base <= 36
    ensures Number(num, base, width, precision, f).Some?
    ensures var out := Number(num, base, width, precision, f).value; var n := |Digits(Magnitude(num, f), base)|;
      var sign, prefix := |SignOf(num, f)|, |PrefixOf(base, f)|;
      && |out| == sign + prefix + Most(Most(precision, n), width - sign - if base == 8 then prefix else 0)
      && |out| >= width
  {
  }

  // ----- what the text says -----

  predicate IsDigit(c: char) { '0' <= c <= '9' }

  /** The digit a character stands for. */
  function DigitOf(c: char): (r: nat)
  {
    if '0' <= c <= '9' then c as nat - '0' as nat
    else if 'A' <= c <= 'Z' then c as nat - 'A' as nat + 10
    else if 'a' <= c <= 'z' then c as nat - 'a' as nat + 10
    else 0
  }

  /** A text of digits read as a number. */
  function ValueOf(s: string, b: nat): (r: nat)
  {
    if s == "" then 0 else DigitOf(s[|s| - 1]) + b * ValueOf(s[..|s| - 1], b)
  }

  lemma LetterStandsFor(d: nat, small: bool)
    requires d < 36
    ensures DigitOf(Letter(d, small)) == d && (d < 10 ==> IsDigit(Letter(d, small)))
  {
  }

  lemma {:induction false} TextValue(ds: seq<nat>, b: nat, small: bool)
    requires forall i | 0 <= i < |ds| :: ds[i] < 36
    ensures ValueOf(Text(ds, small), b) == Worth(ds, b)
    decreases |ds|
  {
    hide Letter, DigitOf;
    if ds != [] {
      TextValue(ds[1..], b, small);
      LetterStandsFor(ds[0], small);
      LastLetter(Text(ds[1..], small), Letter(ds[0], small), b);
      hide ValueOf;
    }
  }

  lemma LastLetter(s: string, c: char, b: nat)
    ensures ValueOf(s + [c], b) == DigitOf(c) + b * ValueOf(s, b)
  {
  }

  lemma {:induction false} ValueAppend(x: string, y: string, b: nat)
    ensures ValueOf(x + y, b) == ValueOf(x, b) * Pow(b, |y|) + ValueOf(y, b)
    decreases |y|
  {
    if y == "" {
      assert x + y == x;
    } else {
      var z := y[..|y| - 1];
      ValueAppend(x, z, b);
      assert (x + y)[..|x + y| - 1] == x + z;
      Distribute(ValueOf(x, b), Pow(b, |z|), ValueOf(z, b), b);
    }
  }

  lemma Distribute(x: int, p: int, y: int, b: int)
    ensures b * (x * p + y) == x * (b * p) + b * y
  {
  }

  lemma {:induction false} ZerosAreNothing(n: int, b: nat)
    ensures ValueOf(Repeat('0', n), b) == 0
    decreases n
  {
    if n > 0 {
      ZerosAreNothing(n - 1, b);
      assert Repeat('0', n)[..n - 1] == Repeat('0', n - 1);
    }
  }

  /** All digits, with the zeros they are padded with, stand for the magnitude. */
  lemma BodyValue(v: nat, base: int, fill: int, precision: int, small: bool)
    requires 2 <= base <= 36
    ensures Body(v, base, fill, precision, small) != "" && ValueOf(Body(v, base, fill, precision, small), base) == v
  {
    var ds := Digits(v, base);
    DigitsBelow(v, base);
    DigitsWorth(v, base);
    hide Digits, Worth, ValueOf, Text, Repeat, Pow;
    TextValue(ds, base, small);
    var k := Most(precision, |ds|) - |ds|;
    var x, y, t := Repeat('0', fill), Repeat('0', k), Text(ds, small);
    ZerosAreNothing(fill, base);
    ZerosAreNothing(k, base);
    ValueAppend(x, y, base);
    ValueAppend(x + y, t, base);
    assert 0 * Pow(base, |y|) == 0 && 0 * Pow(base, |t|) == 0;
  }

  lemma DigitsWorth(v: nat, b: nat)
    requires b >= 2
    ensures Worth(Digits(v, b), b) == v && Digits(v, b) != []
  {
    LoopWorth(v, b);
    if v == 0 { assert [0][1..] == []; }
    hide Loop;
  }

  /** What number writes is blanks, sign, prefix, digits, blanks; the digits stand for the magnitude,
      and sign and magnitude give the number back. */
  lemma NumberMeans(num: int, base: int, width: int, precision: int, f: Flags) returns (before: int, digits: string, after: int)
    requires Long(num) && 2 <= base <= 36
    ensures Number(num, base, width, precision, f)
      == Some(Repeat(' ', before) + SignOf(num, f) + PrefixOf(base, f) + digits + Repeat(' ', after))
    ensures digits != "" && ValueOf(digits, base) == Magnitude(num, f)
    ensures f.sign || num >= 0 ==> num == if SignOf(num, f) == "-" then 0 - Magnitude(num, f) else Magnitude(num, f)
  {
    var w := Room(num, base, width, precision, f);
    before, after := if f.left || f.zeropad then 0 else w, if f.left then w else 0;
    var fill := if f.zeropad && !f.left then w else 0;
    digits := Body(Magnitude(num, f), base, fill, precision, f.small);
    hide Body, Room, ValueOf, Repeat;
    BodyValue(Magnitude(num, f), base, fill, precision, f.small);
  }

  /** Which sign there is: a minus for a negative number if a sign is asked for at all, else a plus or a
      blank as asked for, the plus before the blank. */
  lemma SignMeans(num: int, f: Flags)
    ensures SignOf(num, f) == "-" <==> f.sign && num < 0
    ensures SignOf(num, f) == "+" <==> f.plus && !(f.sign && num < 0)
    ensures SignOf(num, f) == " " <==> f.space && !f.plus && !(f.sign && num < 0)
    ensures |SignOf(num, f)| <= 1 && (SignOf(num, f) == "" <==> !f.plus && !f.space && !(f.sign && num < 0))
  {
  }

  /** The prefix names the base, for the two bases that have one. */
  lemma PrefixMeans(base: int, f: Flags)
    ensures PrefixOf(base, f) == "0x" <==> f.special && base == 16
    ensures PrefixOf(base, f) == "0" <==> f.special && base == 8
    ensures PrefixOf(base, f) == "" <==> !f.special || (base != 8 && base != 16)
  {
  }

  /** Digits above nine are small letters or capitals, as asked for. */
  lemma {:induction false} TextCase(ds: seq<nat>, small: bool)
    requires forall i | 0 <= i < |ds| :: ds[i] < 36
    ensures forall i | 0 <= i < |ds| :: var c := Text(ds, small)[i]; IsDigit(c) || if small then 'a' <= c <= 'z' else 'A' <= c <= 'Z'
    decreases |ds|
  {
    if ds != [] { TextCase(ds[1..], small); }
  }

  /** Where the width goes: to blanks in front, to zeros, or with left to blanks behind; and the digits are
      as many as the precision asks for, but for those zeros. */
  lemma Padding(num: int, base: int, width: int, precision: int, f: Flags) returns (digits: string)
    requires Long(num) && 2 <= base <= 36
    ensures var w := Room(num, base, width, precision, f); var n := Most(precision, |Digits(Magnitude(num, f), base)|);
      var mid := SignOf(num, f) + PrefixOf(base, f);
      && |digits| == n + (if f.zeropad && !f.left && w > 0 then w else 0)
      && Number(num, base, width, precision, f) == Some(
           (if f.left then mid + digits + Repeat(' ', w)
            else if f.zeropad then mid + digits
            else Repeat(' ', w) + mid + digits))
  {
    hide Room, SignOf, PrefixOf, Magnitude, Digits, Text;
    var w := Room(num, base, width, precision, f);
    digits := Body(Magnitude(num, f), base, if f.zeropad && !f.left then w else 0, precision, f.small);
    Around(w, SignOf(num, f), PrefixOf(base, f), digits);
  }

  lemma Around(w: int, sign: string, prefix: string, digits: string)
    ensures Repeat(' ', 0) + sign + prefix + digits + Repeat(' ', w) == sign + prefix + digits + Repeat(' ', w)
    ensures Repeat(' ', 0) + sign + prefix + digits + Repeat(' ', 0) == sign + prefix + digits
    ensures Repeat(' ', w) + sign + prefix + digits + Repeat(' ', 0) == Repeat(' ', w) + (sign + prefix) + digits
  {
  }

  // ----- skip_atoi -----

  /** A value of C's int after an operation on int, with wrap-around. */
  function Wrap32(x: int): (r: int)
  {
    (x + 0x8000_0000) % 0x1_0000_0000 - 0x8000_0000
  }

  /** skip_atoi from a value on: the value, and the text that is left. */
  function SkipAtoi(s: string, val: int): (r: (int, string))
  {
    if s != "" && IsDigit(s[0]) then SkipAtoi(s[1..], Wrap32(Wrap32(val * 10 + s[0] as int) - '0' as int)) else (val, s)
  }

  lemma WrapAgain(x: int, y: int)
    ensures Wrap32(Wrap32(x) + y) == Wrap32(x + y)
    ensures Wrap32(Wrap32(x) * 10 + y) == Wrap32(x * 10 + y)
  {
    var k := (x + 0x8000_0000) / 0x1_0000_0000;
    assert Wrap32(x) == x - k * 0x1_0000_0000;
    WrapShift(x + y, k);
    WrapShift(x * 10 + y, 10 * k);
  }

  lemma WrapShift(x: int, k: int)
    ensures Wrap32(x - k * 0x1_0000_0000) == Wrap32(x)
  {
  }

  /** Digits are read up to the first character that is none; the value is right up to wrap-around. */
  lemma {:induction false} SkipReads(t: string, rest: string, a: int)
    requires (forall i | 0 <= i < |t| :: IsDigit(t[i])) && (rest != "" ==> !IsDigit(rest[0]))
    ensures SkipAtoi(t + rest, Wrap32(a)) == (Wrap32(a * Pow(10, |t|) + ValueOf(t, 10)), rest)
    decreases |t|
  {
    hide Wrap32;
    if t == "" {
      assert t + rest == rest;
    } else {
      var d := t[0] as int - '0' as int;
      assert (t + rest)[0] == t[0] && (t + rest)[1..] == t[1..] + rest;
      WrapAgain(a, t[0] as int);
      WrapAgain(a * 10 + t[0] as int, -('0' as int));
      SkipReads(t[1..], rest, a * 10 + d);
      ValueAppend([t[0]], t[1..], 10);
      assert [t[0]] + t[1..] == t;
      OneDigit(t[0]);
      Shifted(a, d, Pow(10, |t| - 1));
    }
  }

  lemma Shifted(a: int, d: int, p: int)
    ensures (a * 10 + d) * p == a * (10 * p) + d * p
  {
  }

  lemma OneDigit(c: char)
    requires IsDigit(c)
    ensures ValueOf([c], 10) == c as nat - '0' as nat
  {
  }

  lemma {:induction false} DecimalDigits(ds: seq<nat>, small: bool)
    requires forall i | 0 <= i < |ds| :: ds[i] < 10
    ensures forall i | 0 <= i < |Text(ds, small)| :: IsDigit(Text(ds, small)[i])
    decreases |ds|
  {
    if ds != [] {
      DecimalDigits(ds[1..], small);
      LetterStandsFor(ds[0], small);
    }
  }

  /** skip_atoi gives back what number wrote in plain decimal, and leaves the rest, exactly for the
      values below 2 to the 31st. */
  lemma SkipInvertsDecimal(num: int, small: bool, rest: string)
    requires Long(num) && num >= 0 && (rest != "" ==> !IsDigit(rest[0]))
    ensures var f := Flags(false, true, false, false, false, false, small);
      Number(num, 10, -1, -1, f).Some? &&
      var r := SkipAtoi(Number(num, 10, -1, -1, f).value + rest, 0);
      r == (Wrap32(num), rest) && (r.0 == num <==> num < 0x8000_0000)
  {
    hide Number, Digits, Text, ValueOf, SkipAtoi, Wrap32, Pow, IsDigit;
    PlainText(num, small);
    PlainValue(num, small);
    var t := Text(Digits(num, 10), small);
    SkipReads(t, rest, 0);
    assert 0 * Pow(10, |t|) == 0;
    WrapOnly(num);
  }

  lemma PlainValue(v: nat, small: bool)
    requires forall i | 0 <= i < |Digits(v, 10)| :: Digits(v, 10)[i] < 36
    ensures var t := Text(Digits(v, 10), small); ValueOf(t, 10) == v && forall i | 0 <= i < |t| :: IsDigit(t[i])
  {
    DigitsBelow(v, 10);
    LoopWorth(v, 10);
    TextValue(Digits(v, 10), 10, small);
    DecimalDigits(Digits(v, 10), small);
    hide Text, ValueOf, Loop, IsDigit;
  }

  lemma PlainText(num: int, small: bool)
    requires Long(num) && num >= 0
    ensures forall i | 0 <= i < |Digits(num, 10)| :: Digits(num, 10)[i] < 36
    ensures var f := Flags(false, true, false, false, false, false, small);
      Number(num, 10, -1, -1, f) == Some(Text(Digits(num, 10), small))
  {
    DigitsBelow(num, 10);
    hide Text, Loop;
    var t := Text(Digits(num, 10), small);
    assert "" + t == t && t + "" == t;
    assert Body(num, 10, 0, -1, small) == t;
  }

  lemma WrapOnly(num: int)
    requires 0 <= num < TWO_63
    ensures Wrap32(0) == 0 && (Wrap32(num) == num <==> num < 0x8000_0000)
  {
  }
}
