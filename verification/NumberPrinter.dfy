/** number as it runs (Kernel/Printk.c): the digits go to TempStr, then the text to the buffer. */
module NumberPrinter {
  import opened Words
  import opened Numbers

  /** while(n-- > 0) *str++ = c */
  method Fill(str: array<char>, at: nat, c: char, n: int) returns (pos: nat, left: int)
    requires at + |Repeat(c, n)| <= str.Length
    modifies str
    ensures pos == at + |Repeat(c, n)| && left == if n > 0 then -1 else n - 1
    ensures str[..pos] == old(str[..at]) + Repeat(c, n) && (forall k | pos <= k < str.Length :: str[k] == old(str[k]))
  {
    pos, left := at, n;
    while left > 0
      invariant at <= pos && pos - at == n - left && (n > 0 ==> left >= 0) && (n <= 0 ==> left == n)
      invariant pos <= str.Length && str[..pos] == old(str[..at]) + Repeat(c, pos - at) && (forall k | pos <= k < str.Length :: str[k] == old(str[k]))
    {
      left := left - 1;
      str[pos] := c;
      pos := pos + 1;
    }
    left := left - 1;
  }

  /** *str++ for each character of s. */
  method Put(str: array<char>, at: nat, s: string) returns (pos: nat)
    requires at + |s| <= str.Length
    modifies str
    ensures pos == at + |s| && str[..pos] == old(str[..at]) + s && (forall k | pos <= k < str.Length :: str[k] == old(str[k]))
  {
    pos := at;
    while pos < at + |s|
      invariant at <= pos <= at + |s| && str[..pos] == old(str[..at]) + s[..pos - at] && (forall k | pos <= k < str.Length :: str[k] == old(str[k]))
    {
      str[pos] := s[pos - at];
      pos := pos + 1;
    }
  }

  /** Cell k of TempStr holds digit k. */
  predicate Holds(cells: seq<char>, ds: seq<nat>, small: bool)
  {
    |cells| == |ds| && forall k | 0 <= k < |ds| :: ds[k] < 36 && cells[k] == Letter(ds[k], small)
  }

  /** The division loop; not ok where the source goes on behind the cells. */
  method Divide(temp: array<char>, v: nat, base: nat, small: bool) returns (i: nat, ok: bool)
    requires 2 <= base <= 36 && temp.Length > 0
    modifies temp
    ensures ok <==> |Digits(v, base)| <= temp.Length
    ensures i <= temp.Length && (ok ==> i == |Digits(v, base)| && Holds(temp[..i], Digits(v, base), small))
  {
    i, ok := 0, true;
    if v == 0 {
      temp[0] := '0';
      i := 1;
      assert Letter(0, small) == '0';
    } else {
      var n := v;
      ghost var done: seq<nat> := [];
      assert [] + Loop(v, base) == Loop(v, base);
      while n != 0
        invariant i <= temp.Length && Loop(v, base) == done + Loop(n, base) && |done| == i
        invariant Holds(temp[..i], done, small)
        decreases n
      {
        if i == temp.Length {
          assert Loop(n, base) != [];
          return i, false;
        }
        Smaller(n, base);
        assert done + ([Remainder(n, base)] + Loop(Quotient(n, base), base)) == done + [Remainder(n, base)] + Loop(Quotient(n, base), base);
        temp[i] := Letter(Remainder(n, base), small);
        done := done + [Remainder(n, base)];
        n := Quotient(n, base);
        i := i + 1;
      }
      assert done + [] == done;
    }
  }

  lemma {:induction false} HeldText(cells: seq<char>, ds: seq<nat>, small: bool)
    requires Holds(cells, ds, small)
    ensures forall k | 0 <= k < |ds| :: Text(ds, small)[k] == cells[|ds| - 1 - k]
    decreases |ds|
  {
    if ds != [] {
      HeldText(cells[1..], ds[1..], small);
    }
  }

  /** while(i-- > 0) *str++ = TempStr[i] */
  method Copy(str: array<char>, at: nat, temp: array<char>, count: nat, ghost ds: seq<nat>, small: bool) returns (pos: nat)
    requires str != temp && count == |ds| <= temp.Length && at + |ds| <= str.Length && Holds(temp[..count], ds, small)
    modifies str
    ensures pos == at + |ds| && str[..pos] == old(str[..at]) + Text(ds, small) && (forall k | pos <= k < str.Length :: str[k] == old(str[k]))
  {
    pos := at;
    var i := count;
    ghost var t := Text(ds, small);
    HeldText(temp[..count], ds, small);
    hide Text;
    while i > 0
      invariant 0 <= i <= count && pos == at + count - i
      invariant str[..pos] == old(str[..at]) + t[..count - i] && (forall k | pos <= k < str.Length :: str[k] == old(str[k]))
    {
      i := i - 1;
      assert t[count - i - 1] == temp[..count][i];
      str[pos] := temp[i];
      pos := pos + 1;
    }
    assert t[..count] == t;
  }

  /** Blanks, sign and prefix, zeros: everything before the digits' own zeros. */
  method WriteHead(str: array<char>, at: nat, sign: string, prefix: string, width: int, zeropad: bool, left: bool)
    returns (pos: nat, w: int)
    requires !(zeropad && left) && at + |HeadText(sign, prefix, width, zeropad, left)| <= str.Length
    modifies str
    ensures pos == at + |HeadText(sign, prefix, width, zeropad, left)|
    ensures str[..pos] == old(str[..at]) + HeadText(sign, prefix, width, zeropad, left)
    ensures (forall k | pos <= k < str.Length :: str[k] == old(str[k]))
    ensures left ==> w == width
    ensures !left ==> w <= -1
  {
    pos, w := at, width;
    if !(zeropad || left) { pos, w := Fill(str, pos, ' ', w); }
    pos := Put(str, pos, sign);
    pos := Put(str, pos, prefix);
    if !left { pos, w := Fill(str, pos, if zeropad then '0' else ' ', w); }
  }

  function HeadText(sign: string, prefix: string, w: int, zeropad: bool, left: bool): (r: string)
  {
    Repeat(' ', if left || zeropad then 0 else w) + sign + prefix + Repeat('0', if zeropad then w else 0)
  }

  /** The text after TempStr is filled: blanks, sign, prefix, zeros, digits, blanks. */
  method Write(str: array<char>, at: nat, temp: array<char>, count: nat, sign: string, prefix: string,
               width: int, precision: int, zeropad: bool, left: bool, ghost ds: seq<nat>, small: bool) returns (pos: nat)
    requires str != temp && count == |ds| <= temp.Length && Holds(temp[..count], ds, small) && precision >= count
    requires !(zeropad && left)
    requires at + |Pieces(ds, small, sign, prefix, width, precision, zeropad, left)| <= str.Length
    modifies str
    ensures pos == at + |Pieces(ds, small, sign, prefix, width, precision, zeropad, left)|
    ensures str[..pos] == old(str[..at]) + Pieces(ds, small, sign, prefix, width, precision, zeropad, left)
    ensures (forall k | pos <= k < str.Length :: str[k] == old(str[k]))
  {
    Regroup(ds, small, sign, prefix, width, precision, zeropad, left);
    hide Text, Letter, Pieces, HeadText;
    var w, spent;
    pos, w := WriteHead(str, at, sign, prefix, width, zeropad, left);
    assert temp[..count] == old(temp[..count]);
    pos, spent := Fill(str, pos, '0', precision - count);
    pos := Copy(str, pos, temp, count, ds, small);
    pos, spent := Fill(str, pos, ' ', w);
    assert Repeat(' ', w) == Repeat(' ', if left then width else 0);
  }

  lemma Regroup(ds: seq<nat>, small: bool, sign: string, prefix: string, w: int, precision: int, zeropad: bool, left: bool)
    requires forall i | 0 <= i < |ds| :: ds[i] < 36
    ensures Pieces(ds, small, sign, prefix, w, precision, zeropad, left)
      == HeadText(sign, prefix, w, zeropad, left) + Repeat('0', precision - |ds|) + Text(ds, small) + Repeat(' ', if left then w else 0)
  {
  }

  function Pieces(ds: seq<nat>, small: bool, sign: string, prefix: string, w: int, precision: int, zeropad: bool, left: bool): (r: string)
    requires forall i | 0 <= i < |ds| :: ds[i] < 36
  {
    Repeat(' ', if left || zeropad then 0 else w) + sign + prefix
      + (Repeat('0', if zeropad then w else 0) + Repeat('0', precision - |ds|) + Text(ds, small))
      + Repeat(' ', if left then w else 0)
  }

  /** number, for the 50 cells of TempStr; None if it refuses the base. The digits leave the cells
      exactly in base 2 from 2 to the 50th on. */
  method Format(str: array<char>, at: nat, temp: array<char>, num: int, base: int, width: int, precision: int, f: Flags)
    returns (r: Option<nat>, overflow: bool)
    requires Long(num) && str != temp && temp.Length == CELLS && at <= str.Length
    requires var out := Number(num, base, width, precision, f); out.Some? ==> at + |out.value| <= str.Length
    modifies str, temp
    ensures overflow <==> base == 2 && Magnitude(num, f) >= 0x4_0000_0000_0000
    ensures r.None? <==> base < 2 || base > 36 || overflow
    ensures var out := Number(num, base, width, precision, f);
      r.Some? ==> (out.Some? && r.value == at + |out.value| && str[..r.value] == old(str[..at]) + out.value
                   && forall k | r.value <= k < str.Length :: str[k] == old(str[k]))
    ensures r.None? ==> str[..] == old(str[..])
  {
    if base < 2 || base > 36 { return None, false; }
    AsPieces(num, base, width, precision, f);
    CellsSuffice(Magnitude(num, f), base);
    hide Pieces, Digits, Number, Magnitude, SignOf, PrefixOf, Text, Loop, Room;
    RoomIs(num, base, width, precision, f);
    var v, sign, prefix, w := Prepare(num, base, width, f);
    var pos, ok := FormatDigits(str, at, temp, v, base, sign, prefix, w, precision, f.zeropad && !f.left, f.left, f.small);
    return if ok then Some(pos) else None, !ok;
  }

  /** number once sign, prefix and width are known. */
  method FormatDigits(str: array<char>, at: nat, temp: array<char>, v: nat, base: nat, sign: string, prefix: string,
                      width: int, precision: int, zeropad: bool, left: bool, small: bool)
    returns (pos: nat, ok: bool)
    requires 2 <= base <= 36 && str != temp && temp.Length > 0 && !(zeropad && left)
    requires forall i | 0 <= i < |Digits(v, base)| :: Digits(v, base)[i] < 36
    requires at + |Pieces(Digits(v, base), small, sign, prefix, width - Most(precision, |Digits(v, base)|),
                          Most(precision, |Digits(v, base)|), zeropad, left)| <= str.Length
    modifies str, temp
    ensures ok <==> |Digits(v, base)| <= temp.Length
    ensures !ok ==> str[..] == old(str[..])
    ensures var ds := Digits(v, base); var p := Most(precision, |ds|);
      var out := Pieces(ds, small, sign, prefix, width - p, p, zeropad, left);
      ok ==> (pos == at + |out| && str[..pos] == old(str[..at]) + out
              && forall k | pos <= k < str.Length :: str[k] == old(str[k]))
  {
    hide Pieces, Digits;
    var count;
    count, ok := Divide(temp, v, base, small);
    if !ok { return at, false; }
    var p := if count > precision then count else precision;
    pos := Write(str, at, temp, count, sign, prefix, width - p, p, zeropad, left, Digits(v, base), small);
  }

  lemma RoomIs(num: int, base: int, width: int, precision: int, f: Flags)
    requires Long(num) && base >= 2
    ensures Room(num, base, width, precision, f) ==
      width - |SignOf(num, f)| - (if f.special && base == 8 then 1 else 0) - Most(precision, |Digits(Magnitude(num, f), base)|)
  {
  }

  /** Magnitude, sign and prefix, and the width that is left for the digits. */
  method Prepare(num: int, base: int, width: int, f: Flags) returns (v: nat, sign: string, prefix: string, w: int)
    requires Long(num)
    ensures v == Magnitude(num, f) && sign == SignOf(num, f) && prefix == PrefixOf(base, f)
    ensures w == width - |sign| - if f.special && base == 8 then 1 else 0
  {
    sign, v, w := "", if num < 0 then num + TWO_64 else num, width;
    if f.sign && num < 0 {
      sign := "-";
      v := -num;
    } else if f.plus {
      sign := "+";
    } else if f.space {
      sign := " ";
    }
    if sign != "" { w := w - 1; }
    if f.special && base == 8 { w := w - 1; }
    prefix := if !f.special then "" else if base == 8 then "0" else if base == 16 then "0x" else "";
  }

  lemma AsPieces(num: int, base: int, width: int, precision: int, f: Flags)
    requires Long(num) && 2 <= base <= 36
    ensures var ds := Digits(Magnitude(num, f), base);
      && (forall i | 0 <= i < |ds| :: ds[i] < 36)
      && Number(num, base, width, precision, f)
        == Some(Pieces(ds, f.small, SignOf(num, f), PrefixOf(base, f), Room(num, base, width, precision, f),
                       Most(precision, |ds|), f.zeropad && !f.left, f.left))
  {
    DigitsBelow(Magnitude(num, f), base);
    hide Text, Digits, Repeat, SignOf, PrefixOf;
  }

  /** skip_atoi, moving through the text. */
  method Skip(s: string) returns (val: int, at: nat)
    ensures at <= |s| && (val, s[at..]) == SkipAtoi(s, 0)
  {
    val, at := 0, 0;
    assert s[0..] == s;
    hide Wrap32;
    while at < |s| && '0' <= s[at] <= '9'
      invariant at <= |s| && SkipAtoi(s, 0) == SkipAtoi(s[at..], val)
      decreases |s| - at
    {
      assert s[at..][1..] == s[at + 1..];
      val := Wrap32(Wrap32(val * 10 + s[at] as int) - '0' as int);
      at := at + 1;
    }
  }
}
