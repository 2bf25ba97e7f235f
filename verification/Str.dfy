/** source/util/str.c: C strings in memory, and numerals written and read in place.

    A pointer is an address in a byte memory and NULL is 0. `char` is unsigned, as on ARM. An int
    that overflows wraps around in two's complement.
 */
module Str {
  import opened Bits

  // ----- C strings

  /** The bytes at `a` up to the terminator spell `s`. */
  ghost predicate CString(m: seq<Byte>, a: nat, s: seq<Byte>) {
    && 0 < a && a + |s| < |m|
    && m[a..a + |s|] == s
    && 0 !in s
    && m[a + |s|] == 0
  }

  lemma CStringAt(m: seq<Byte>, a: nat, s: seq<Byte>, i: nat)
    requires CString(m, a, s) && i <= |s|
    ensures m[a + i] == (if i < |s| then s[i] else 0)
    ensures i < |s| ==> s[i] != 0
  {
    if i < |s| {
      assert m[a..a + |s|][i] == s[i];
    }
  }

  /** `strlen`; None stands for the (size_t)-1 it answers for NULL. */
  method Strlen(m: seq<Byte>, str: nat, ghost s: seq<Byte>) returns (ret: int)
    requires str != 0 ==> CString(m, str, s)
    ensures ret == if str != 0 then |s| else -1
  {
    ret := -1;
    if str != 0 {
      ret := 0;
      var p := str;
      CStringAt(m, str, s, 0);
      while m[p] != 0
        invariant 0 <= ret <= |s| && p == str + ret
        invariant m[p] == if ret < |s| then s[ret] else 0
        decreases |s| - ret
      {
        p := p + 1;
        ret := ret + 1;
        CStringAt(m, str, s, ret);
      }
      CStringAt(m, str, s, ret);
    }
  }

  /** `strcmp`: the difference at the first mismatch within `str1`, so 0 exactly when the first
      string is a prefix of the second. The second string is never read past its terminator:
      nothing is assumed about the memory behind it. */
  method Strcmp(m: seq<Byte>, str1: nat, str2: nat, ghost s1: seq<Byte>, ghost s2: seq<Byte>) returns (ret: int)
    requires str1 != 0 ==> CString(m, str1, s1)
    requires str2 != 0 ==> CString(m, str2, s2)
    ensures str1 == 0 || str2 == 0 ==> ret == 0
    ensures str1 != 0 && str2 != 0 ==> (ret == 0 <==> s1 <= s2)
    ensures str1 != 0 && str2 != 0 && ret != 0 ==>
              exists i :: 0 <= i < |s1| && i <= |s2| && s1[..i] == s2[..i]
                          && ret == s1[i] as int - (if i < |s2| then s2[i] as int else 0)
  {
    var i := 0;
    ret := 0;
    if str1 != 0 && str2 != 0 {
      var len := Strlen(m, str1, s1);
      while i < len
        invariant 0 <= i <= |s1| && i <= |s2| && len == |s1| && ret == 0
        invariant s1[..i] == s2[..i]
      {
        CStringAt(m, str1, s1, i);
        CStringAt(m, str2, s2, i);
        if m[str1 + i] != m[str2 + i] {
          ret := m[str1 + i] as int - m[str2 + i] as int;
          Mismatch(s1, s2, i);
          break;
        }
        i := i + 1;
        len := Strlen(m, str1, s1);
      }
    }
  }

  lemma Mismatch(s1: seq<Byte>, s2: seq<Byte>, i: nat)
    requires i < |s1| && (i >= |s2| || s1[i] != s2[i])
    ensures !(s1 <= s2)
  {
  }

  // ----- reversal

  function Reverse(s: seq<Byte>): (r: seq<Byte>)
    ensures |r| == |s|
  {
    if s == [] then [] else Reverse(s[1..]) + [s[0]]
  }

  lemma {:induction false} ReverseConcat(s: seq<Byte>, t: seq<Byte>)
    ensures Reverse(s + t) == Reverse(t) + Reverse(s)
  {
    if s == [] {
      assert s + t == t;
    } else {
      assert (s + t)[1..] == s[1..] + t;
      ReverseConcat(s[1..], t);
    }
  }

  lemma {:induction false} ReverseKeeps(s: seq<Byte>, x: Byte)
    ensures x in Reverse(s) <==> x in s
  {
    if s != [] {
      ReverseKeeps(s[1..], x);
    }
  }

  lemma {:induction false} ReverseAt(s: seq<Byte>)
    ensures forall i :: 0 <= i < |s| ==> Reverse(s)[i] == s[|s| - 1 - i]
  {
    if s != [] {
      ReverseAt(s[1..]);
    }
  }

  lemma {:induction false} ReverseTwice(s: seq<Byte>)
    ensures Reverse(Reverse(s)) == s
  {
    if s != [] {
      ReverseTwice(s[1..]);
      ReverseConcat(Reverse(s[1..]), [s[0]]);
      assert Reverse([s[0]]) == [s[0]];
    }
  }

  /** Bytes outside lo..hi are as before. */
  ghost predicate Framed(m: seq<Byte>, m': seq<Byte>, lo: int, hi: int) {
    |m| == |m'| && forall a :: 0 <= a < |m| && !(lo <= a < hi) ==> m'[a] == m[a]
  }

  /** `s` after `n` rounds of swapping the ends inwards. */
  function Swapped(s: seq<Byte>, n: nat): (r: seq<Byte>)
    ensures |r| == |s|
    ensures forall j :: 0 <= j < |s| ==> r[j] == if j < n || j > |s| - 1 - n then s[|s| - 1 - j] else s[j]
  {
    seq(|s|, j requires 0 <= j < |s| => if j < n || j > |s| - 1 - n then s[|s| - 1 - j] else s[j])
  }

  /** `len/2`, rounded towards zero */
  function Half(len: int): int {
    if len < 0 then -(-len / 2) else len / 2
  }

  /** Memory after the two bytes at `p` and `q` changed places. */
  function Exchanged(m: seq<Byte>, p: nat, q: nat): seq<Byte>
    requires p < |m| && q < |m|
  {
    m[p := m[q]][q := m[p]]
  }

  /** Memory after `i` rounds of the loop of `strrev`. */
  ghost predicate Reversing(m0: seq<Byte>, m: seq<Byte>, str: nat, s: seq<Byte>, i: nat) {
    && |m0| == |m| && CString(m0, str, s)
    && if s == [] then i <= 1 && m == if i == 0 then m0 else Exchanged(m0, str - 1, str)
       else m[str..str + |s|] == Swapped(s, i) && m[str + |s|] == 0 && Framed(m0, m, str, str + |s|)
  }

  lemma ReversingStarts(m: seq<Byte>, str: nat, s: seq<Byte>)
    requires CString(m, str, s)
    ensures Reversing(m, m, str, s, 0)
  {
    assert Swapped(s, 0) == s;
  }

  lemma RoundInBounds(m0: seq<Byte>, m: seq<Byte>, str: nat, s: seq<Byte>, i: nat)
    requires Reversing(m0, m, str, s, i) && i <= Half(|s| - 1)
    ensures str + i < |m| && 0 <= str + |s| - 1 - i < |m| && (s == [] ==> i == 0)
  {
  }

  lemma ReversingStep(m0: seq<Byte>, m: seq<Byte>, str: nat, s: seq<Byte>, i: nat)
    requires Reversing(m0, m, str, s, i) && i <= Half(|s| - 1)
    ensures str + i < |m| && 0 <= str + |s| - 1 - i < |m|
    ensures Reversing(m0, Exchanged(m, str + i, str + |s| - 1 - i), str, s, i + 1)
  {
    RoundInBounds(m0, m, str, s, i);
    if s != [] {
      SwapsEnds(m0, m, str, s, i);
    }
  }

  /** What `strrev` leaves behind. */
  ghost predicate Reversed(m0: seq<Byte>, m: seq<Byte>, str: nat, s: seq<Byte>) {
    if s == [] then 0 < str < |m0| && m == Exchanged(m0, str - 1, str)
    else CString(m, str, Reverse(s)) && Framed(m0, m, str, str + |s|)
  }

  lemma ReversingEnds(m0: seq<Byte>, m: seq<Byte>, str: nat, s: seq<Byte>, i: nat)
    requires Reversing(m0, m, str, s, i) && i == if |s| == 1 then 0 else Half(|s| - 1) + 1
    ensures Reversed(m0, m, str, s)
  {
    if s != [] {
      AllSwapped(s, i);
      ReverseKeeps(s, 0);
    }
  }

  lemma AllSwapped(s: seq<Byte>, i: nat)
    requires s != [] && i == if |s| == 1 then 0 else Half(|s| - 1) + 1
    ensures Swapped(s, i) == Reverse(s)
  {
    hide Reverse, Swapped;
    ReverseAt(s);
    forall j | 0 <= j < |s| ensures Swapped(s, i)[j] == s[|s| - 1 - j] {
      MiddleReached(|s|, i, j);
    }
  }

  lemma MiddleReached(n: nat, i: nat, j: nat)
    requires j < n && i == if n == 1 then 0 else Half(n - 1) + 1
    ensures j < i || j > n - 1 - i || j == n - 1 - j
  {
  }

  /** `strrev`. For an empty string the loop still runs once, with length -1, and the terminator
      changes places with the byte before the string. */
  method Strrev(mem: array<Byte>, str: nat, ghost s: seq<Byte>) returns (ret: nat)
    requires str != 0 ==> CString(mem[..], str, s)
    modifies mem
    ensures ret == str
    ensures if str == 0 then mem[..] == old(mem[..]) else Reversed(old(mem[..]), mem[..], str, s)
  {
    ret := 0;
    if str != 0 {
      ret := str;
      var len := Strlen(mem[..], str, s);
      len := len - 1;
      ReversingStarts(mem[..], str, s);
      var i := 0;
      if len != 0 {
        i := SwapInwards(mem, str, len, s);
      }
      ReversingEnds(old(mem[..]), mem[..], str, s, i);
    }
  }

  /** The loop of `strrev`. */
  method SwapInwards(mem: array<Byte>, str: nat, len: int, ghost s: seq<Byte>) returns (i: nat)
    requires len == |s| - 1 && CString(mem[..], str, s)
    modifies mem
    ensures i == Half(len) + 1 && Reversing(old(mem[..]), mem[..], str, s, i)
  {
    i := 0;
    ReversingStarts(mem[..], str, s);
    while i <= Half(len)
      invariant 0 <= i <= Half(len) + 1
      invariant Reversing(old(mem[..]), mem[..], str, s, i)
    {
      SwapOnce(mem, str, len, i, s, old(mem[..]));
      i := i + 1;
    }
  }

  /** Its body. */
  method SwapOnce(mem: array<Byte>, str: nat, len: int, i: nat, ghost s: seq<Byte>, ghost m0: seq<Byte>)
    requires len == |s| - 1 && i <= Half(len) && Reversing(m0, mem[..], str, s, i)
    modifies mem
    ensures Reversing(m0, mem[..], str, s, i + 1)
  {
    ReversingStep(m0, mem[..], str, s, i);
    SwapBytes(mem, str + i, str + len - i);
  }

  method SwapBytes(mem: array<Byte>, p: nat, q: nat)
    requires p < mem.Length && q < mem.Length
    modifies mem
    ensures mem[..] == Exchanged(old(mem[..]), p, q)
  {
    var tmp := mem[p];
    mem[p] := mem[q];
    mem[q] := tmp;
  }

  lemma SwapsEnds(m0: seq<Byte>, m: seq<Byte>, str: nat, s: seq<Byte>, i: nat)
    requires s != [] && 2 * i <= |s| - 1 && str + |s| < |m| && Framed(m0, m, str, str + |s|)
    requires m[str..str + |s|] == Swapped(s, i)
    ensures var m' := Exchanged(m, str + i, str + |s| - 1 - i);
            && m'[str..str + |s|] == Swapped(s, i + 1) && m'[str + |s|] == m[str + |s|]
            && Framed(m0, m', str, str + |s|)
  {
    var t, j := m[str..str + |s|], |s| - 1 - i;
    var m' := Exchanged(m, str + i, str + j);
    assert m'[str..str + |s|] == t[i := t[j]][j := t[i]];
    SwapRound(s, i);
  }

  lemma SwapRound(s: seq<Byte>, i: nat)
    requires 2 * i <= |s| - 1
    ensures var t, j := Swapped(s, i), |s| - 1 - i; t[i := t[j]][j := t[i]] == Swapped(s, i + 1)
  {
  }

  /** So an empty string survives exactly when the byte before it is 0. */
  lemma EmptyReversal(m: seq<Byte>, str: nat)
    requires CString(m, str, [])
    ensures CString(Exchanged(m, str - 1, str), str, []) <==> m[str - 1] == 0
  {
    var m' := Exchanged(m, str - 1, str);
    assert m'[str] == m[str - 1] && m'[str..str] == [];
  }

  // ----- numerals

  /** The character of a digit: '0'..'9', then 'A' upwards. */
  function DigitChar(d: nat): Byte
    requires d < 16
  {
    if d <= 9 then d + 48 else d + 55
  }

  /** The digits of `v` in `base`, least significant first; nothing for 0. */
  function RevDigits(v: nat, base: nat): (r: seq<Byte>)
    requires 2 <= base <= 16
    ensures forall c :: c in r ==> c != 0
    ensures v > 0 ==> r != []
  {
    if v == 0 then [] else
      assert v / base < v by { Smaller(v, base); }
      [DigitChar(v % base)] + RevDigits(v / base, base)
  }

  lemma Smaller(v: nat, base: nat)
    requires v > 0 && base >= 2
    ensures 0 <= v / base < v
  {
  }

  /** The numeral of `v`, most significant digit first. */
  function Numeral(v: nat, base: nat): seq<Byte>
    requires 2 <= base <= 16
  {
    if v == 0 then [48] else Reverse(RevDigits(v, base))
  }

  /** The digit that a character stands for: '0'..'9' or 'A'..'F'. */
  function CharDigit(c: Byte): int {
    if c <= 57 then c as int - 48 else c as int - 55
  }

  /** The number that a text denotes, read from its most significant digit. */
  function Value(s: seq<Byte>, base: nat): int {
    if s == [] then 0 else base * Value(s[..|s| - 1], base) + CharDigit(s[|s| - 1])
  }

  predicate IsDigitOf(c: Byte, base: nat) {
    (48 <= c <= 57 || 65 <= c <= 70) && CharDigit(c) < base
  }

  /** A numeral as one writes it: at least one digit, and no leading zero except in "0". */
  predicate IsNumeral(s: seq<Byte>, base: nat) {
    && s != []
    && (forall i :: 0 <= i < |s| ==> IsDigitOf(s[i], base))
    && (s[0] == 48 ==> |s| == 1)
  }

  const INT_MIN := -0x8000_0000
  const INT_MAX := 0x7FFF_FFFF

  /** Two's complement wrap-around of an int. */
  function Wrap(x: int): (y: int)
    ensures INT_MIN <= y <= INT_MAX && (x - y) % 0x1_0000_0000 == 0
    ensures INT_MIN <= x <= INT_MAX ==> y == x
  {
    (x + 0x8000_0000) % 0x1_0000_0000 - 0x8000_0000
  }

  /** What `itoa` writes. Negating INT_MIN leaves it negative, and no digit is produced. */
  function ItoaText(val: int): seq<Byte> {
    if val == INT_MIN then [45]
    else if val < 0 then [45] + Numeral(-val, 10)
    else Numeral(val, 10)
  }

  lemma {:induction false} DigitCount(v: nat, base: nat, limit: nat, k: nat)
    requires 2 <= base <= 16 && limit == Power(base, k) && v < limit
    ensures |RevDigits(v, base)| <= k
    decreases k
  {
    hide RevDigits, DigitChar;
    DigitsStep(v, base);
    if v > 0 {
      assert k > 0;
      var p := Power(base, k - 1);
      assert limit == base * p;
      DividedBelow(v, base, p);
      DigitCount(v / base, base, p, k - 1);
    }
  }

  lemma DigitsStep(v: nat, base: nat)
    requires 2 <= base <= 16
    ensures v / base >= 0 && |RevDigits(v, base)| == if v == 0 then 0 else 1 + |RevDigits(v / base, base)|
  {
  }

  function Power(base: nat, k: nat): nat {
    if k == 0 then 1 else base * Power(base, k - 1)
  }

  lemma DividedBelow(v: nat, base: nat, p: nat)
    requires base > 0 && v < base * p
    ensures v / base < p
  {
    var q := v / base;
    assert v == base * q + v % base;
    if q >= p {
      MulMonotonic(p, q, base);
    }
  }

  lemma TenDigits(v: nat)
    requires v <= 0x8000_0000
    ensures |RevDigits(v, 10)| <= 10
  {
    assert Power(10, 2) == 100 && Power(10, 4) == 10000 && Power(10, 6) == 1000000 && Power(10, 8) == 100000000;
    assert Power(10, 10) == 10000000000;
    DigitCount(v, 10, Power(10, 10), 10);
  }

  lemma EightHexDigits(v: Word)
    ensures |RevDigits(v, 16)| <= 8
  {
    assert Power(16, 2) == 0x100 && Power(16, 4) == 0x1_0000 && Power(16, 6) == 0x100_0000;
    assert Power(16, 8) == WORD_LIMIT;
    DigitCount(v, 16, Power(16, 8), 8);
  }

  /** Writes digits until the value is used up; shared by the loops of `itoa` and `itox`, which
      differ in the base only. */
  method WriteDigits(mem: array<Byte>, str: nat, v: nat, base: nat) returns (offset: nat)
    requires 2 <= base <= 16 && str + |RevDigits(v, base)| <= mem.Length
    modifies mem
    ensures offset == |RevDigits(v, base)| && mem[str..str + offset] == RevDigits(v, base)
    ensures Framed(old(mem[..]), mem[..], str, str + offset)
  {
    offset := 0;
    var val: nat := v;
    while val > 0
      invariant str + offset + |RevDigits(val, base)| == str + |RevDigits(v, base)|
      invariant mem[str..str + offset] + RevDigits(val, base) == RevDigits(v, base)
      invariant Framed(old(mem[..]), mem[..], str, str + offset)
      decreases val
    {
      Smaller(val, base);
      ghost var before := mem[str..str + offset];
      var c := val % base;
      mem[str + offset] := DigitChar(c);
      offset := offset + 1;
      assert mem[str..str + offset] == before + [DigitChar(c)];
      val := val / base;
    }
  }

  /** The last two statements of both conversions. */
  method TerminateAndReverse(mem: array<Byte>, str: nat, offset: nat, ghost text: seq<Byte>)
    requires str > 0 && offset > 0 && str + offset < mem.Length
    requires mem[str..str + offset] == text && 0 !in text
    modifies mem
    ensures CString(mem[..], str, Reverse(text))
    ensures Framed(old(mem[..]), mem[..], str, str + offset + 1)
  {
    mem[str + offset] := 0;
    assert mem[..][str..str + offset] == text;
    var r := Strrev(mem, str, text);
  }

  /** The text before it is reversed. */
  function WrittenText(val: int): seq<Byte>
    requires INT_MIN <= val <= INT_MAX
  {
    if val < 0 then RevDigits(if Wrap(-val) > 0 then Wrap(-val) else 0, 10) + [45]
    else RevDigits(val, 10)
  }

  lemma ReversedText(val: int)
    requires INT_MIN <= val <= INT_MAX && val != 0
    ensures Reverse(WrittenText(val)) == ItoaText(val)
    ensures 0 < |WrittenText(val)| <= 11 && 0 !in WrittenText(val)
    ensures var v := if val < 0 then Wrap(-val) else val; |RevDigits(if v > 0 then v else 0, 10)| <= 10
  {
    var v := if val < 0 then Wrap(-val) else val;
    if v > 0 {
      TenDigits(v);
      ReverseConcat(RevDigits(v, 10), [45]);
    }
    assert Reverse([45]) == [45];
  }

  /** The digits of the absolute value, then the sign: the first half of `itoa`. */
  method WriteSigned(mem: array<Byte>, val: int, str: nat) returns (offset: nat)
    requires INT_MIN <= val <= INT_MAX && str + |WrittenText(val)| <= mem.Length
    modifies mem
    ensures offset == |WrittenText(val)| && mem[str..str + offset] == WrittenText(val)
    ensures Framed(old(mem[..]), mem[..], str, str + offset)
  {
    var v := if val < 0 then Wrap(-val) else val;
    var sign := val < 0;
    offset := WriteDigits(mem, str, if v > 0 then v else 0, 10);
    if sign {
      ghost var digits := mem[str..str + offset];
      mem[str + offset] := 45;
      offset := offset + 1;
      assert mem[str..str + offset] == digits + [45];
    }
  }

  /** `itoa`: at most 12 bytes, terminator included. */
  method Itoa(mem: array<Byte>, val: int, str: nat) returns (ret: nat)
    requires INT_MIN <= val <= INT_MAX
    requires str != 0 ==> str + 12 <= mem.Length
    modifies mem
    ensures ret == str
    ensures str != 0 ==> CString(mem[..], str, ItoaText(val)) && |ItoaText(val)| + 1 <= 12
    ensures str != 0 ==> Framed(old(mem[..]), mem[..], str, str + 12)
    ensures str == 0 ==> mem[..] == old(mem[..])
  {
    ret := 0;
    if str != 0 {
      ret := str;
      if val != 0 {
        ReversedText(val);
        var offset := WriteSigned(mem, val, str);
        TerminateAndReverse(mem, str, offset, WrittenText(val));
      } else {
        mem[str] := 48;
        mem[str + 1] := 0;
        assert mem[..][str..str + 1] == [48];
      }
    }
  }

  /** `itox`: the uppercase hexadecimal numeral, at most 9 bytes. */
  method Itox(mem: array<Byte>, val: Word, str: nat) returns (ret: nat)
    requires str != 0 ==> str + 9 <= mem.Length
    modifies mem
    ensures ret == str
    ensures str != 0 ==> CString(mem[..], str, Numeral(val, 16)) && |Numeral(val, 16)| + 1 <= 9
    ensures IsNumeral(Numeral(val, 16), 16) && Value(Numeral(val, 16), 16) == val
    ensures str != 0 ==> Framed(old(mem[..]), mem[..], str, str + 9)
    ensures str == 0 ==> mem[..] == old(mem[..])
  {
    NumeralMeaning(val, 16);
    ret := 0;
    if str != 0 {
      ret := str;
      EightHexDigits(val);
      if val != 0 {
        var offset := WriteDigits(mem, str, val, 16);
        TerminateAndReverse(mem, str, offset, RevDigits(val, 16));
      } else {
        mem[str] := 48;
        mem[str + 1] := 0;
        assert mem[..][str..str + 1] == [48];
      }
    }
  }

  // ----- reading numerals

  predicate IsDigit(c: Byte) {
    48 <= c <= 57
  }

  predicate AllDigits(s: seq<Byte>) {
    forall i :: 0 <= i < |s| ==> IsDigit(s[i])
  }

  /** What `atoi` answers. */
  function AtoiValue(s: seq<Byte>): int {
    if s != [] && s[0] == 45 then Wrap(-DigitsValue(s[1..])) else DigitsValue(s)
  }

  function DigitsValue(s: seq<Byte>): int {
    if AllDigits(s) then Wrap(Value(s, 10)) else 0
  }

  lemma WrapStep(x: int, d: int)
    ensures Wrap(10 * Wrap(x) + d) == Wrap(10 * x + d)
  {
    var k := (x + 0x8000_0000) / 0x1_0000_0000;
    assert Wrap(x) == x - k * 0x1_0000_0000;
    WrapPeriod(10 * x + d, 10 * k);
  }

  lemma WrapPeriod(y: int, n: int)
    ensures Wrap(y - n * 0x1_0000_0000) == Wrap(y)
  {
    var q, r := (y + 0x8000_0000) / 0x1_0000_0000, (y + 0x8000_0000) % 0x1_0000_0000;
    RemainderUnique(y - n * 0x1_0000_0000 + 0x8000_0000, q - n, r);
  }

  lemma RemainderUnique(x: int, q: int, r: nat)
    requires x == q * 0x1_0000_0000 + r && r < 0x1_0000_0000
    ensures x % 0x1_0000_0000 == r
  {
  }

  /** `atoi`: accumulates in an int, so a numeral that is too long comes out modulo 2^32. */
  method Atoi(m: seq<Byte>, str: nat, ghost s: seq<Byte>) returns (ret: int)
    requires str != 0 ==> CString(m, str, s)
    ensures ret == if str != 0 then AtoiValue(s) else 0
    ensures str != 0 ==>
              var t := if s != [] && s[0] == 45 then s[1..] else s;
              ret == if exists i :: 0 <= i < |t| && !(48 <= t[i] <= 57) then 0
                     else Wrap(if t == s then Value(t, 10) else -Value(t, 10))
  {
    ret := 0;
    if str != 0 {
      var p, sign := str, false;
      ghost var t := s;
      CStringAt(m, str, s, 0);
      if m[p] == 45 {
        sign := true;
        p := p + 1;
        t := s[1..];
        TailString(m, str, s);
      }
      ret := AtoiDigits(m, p, t);
      if sign {
        WrapNegated(Value(t, 10));
        ret := Wrap(-ret);
      }
    }
  }

  lemma WrapNegated(x: int)
    ensures Wrap(-Wrap(x)) == Wrap(-x)
  {
    var k := (x + 0x8000_0000) / 0x1_0000_0000;
    assert Wrap(x) == x - k * 0x1_0000_0000;
    WrapPeriod(-x, -k);
  }

  lemma TailString(m: seq<Byte>, a: nat, s: seq<Byte>)
    requires CString(m, a, s) && s != []
    ensures CString(m, a + 1, s[1..])
  {
    assert m[a + 1..a + |s|] == m[a..a + |s|][1..];
  }

  /** The digit loop of `atoi`. */
  method AtoiDigits(m: seq<Byte>, str: nat, ghost s: seq<Byte>) returns (ret: int)
    requires CString(m, str, s)
    ensures ret == DigitsValue(s)
  {
    ret := 0;
    var p := str;
    ghost var i := 0;
    assert s[..0] == [];
    CStringAt(m, str, s, 0);
    while m[p] != 0
      invariant 0 <= i <= |s| && p == str + i && m[p] == (if i < |s| then s[i] else 0)
      invariant AllDigits(s[..i]) && ret == Wrap(Value(s[..i], 10))
      decreases |s| - i
    {
      CStringAt(m, str, s, i);
      if m[p] >= 48 && m[p] <= 57 {
        assert s[..i + 1][..i] == s[..i];
        WrapStep(Value(s[..i], 10), s[i] as int - 48);
        ret := Wrap(Wrap(ret * 10) + (m[p] as int - 48));
        WrapInner(Value(s[..i], 10), s[i] as int - 48);
        p := p + 1;
        i := i + 1;
        CStringAt(m, str, s, i);
      } else {
        assert !IsDigit(s[i]);
        return 0;
      }
    }
    CStringAt(m, str, s, i);
    assert s[..i] == s;
  }

  lemma WrapInner(x: int, d: int)
    ensures Wrap(Wrap(Wrap(x) * 10) + d) == Wrap(10 * x + d)
  {
    WrapStep(x, d);
    var y := Wrap(x) * 10;
    var k := (y + 0x8000_0000) / 0x1_0000_0000;
    assert Wrap(y) == y - k * 0x1_0000_0000;
    WrapPeriod(y + d, k);
  }

  // ----- round trips

  /** Value of digits written least significant first. */
  function RevValue(r: seq<Byte>, base: nat): int {
    if r == [] then 0 else CharDigit(r[0]) + base * RevValue(r[1..], base)
  }

  lemma RevValueCons(d: nat, r: seq<Byte>, base: nat)
    requires d < base <= 16
    ensures RevValue([DigitChar(d)] + r, base) == d + base * RevValue(r, base)
  {
    assert ([DigitChar(d)] + r)[1..] == r;
  }

  lemma RevDigitsCons(d: nat, v: nat, base: nat)
    requires 2 <= base <= 16 && d < base && d + base * v > 0
    ensures RevDigits(d + base * v, base) == [DigitChar(d)] + RevDigits(v, base)
  {
    DivModUnique(d + base * v, base, v, d);
  }

  lemma ValueStep(v: nat, d: nat, q: nat, base: nat)
    requires 2 <= base <= 16 && d < base && v == d + base * q && v > 0
    requires RevValue(RevDigits(q, base), base) == q
    ensures RevValue(RevDigits(v, base), base) == v
  {
    RevDigitsCons(d, q, base);
    RevValueCons(d, RevDigits(q, base), base);
  }

  lemma LastDigit(v: nat, base: nat) returns (d: nat, q: nat)
    requires v > 0 && base >= 2
    ensures d < base && v == d + base * q && q < v
  {
    Smaller(v, base);
    d, q := v % base, v / base;
  }

  lemma {:induction false} RevDigitsValue(v: nat, base: nat)
    requires 2 <= base <= 16
    ensures RevValue(RevDigits(v, base), base) == v
  {
    if v > 0 {
      var d, q := LastDigit(v, base);
      RevDigitsValue(q, base);
      ValueStep(v, d, q, base);
    }
  }

  lemma {:induction false} ReverseValue(r: seq<Byte>, base: nat)
    ensures Value(Reverse(r), base) == RevValue(r, base)
  {
    if r != [] {
      ReverseValue(r[1..], base);
      assert Reverse(r)[..|r| - 1] == Reverse(r[1..]);
    }
  }

  /** Canonical numerals, least significant digit first: proper digits, and no leading zero. */
  predicate CanonicalRev(r: seq<Byte>, base: nat)
    requires 2 <= base <= 16
  {
    && (forall i :: 0 <= i < |r| ==> exists d: nat :: d < base && r[i] == DigitChar(d))
    && (r != [] ==> r[|r| - 1] != 48)
  }

  lemma {:induction false} RevDigitsCanonical(v: nat, base: nat)
    requires 2 <= base <= 16
    ensures CanonicalRev(RevDigits(v, base), base)
  {
    if v > 0 {
      Smaller(v, base);
      RevDigitsCanonical(v / base, base);
      var r, q := RevDigits(v, base), RevDigits(v / base, base);
      assert r == [DigitChar(v % base)] + q;
      assert forall i :: 0 < i < |r| ==> r[i] == q[i - 1];
      if v / base == 0 {
        assert v == v % base;
      }
    }
  }

  lemma CanonicalHead(r: seq<Byte>, base: nat) returns (d: nat)
    requires 2 <= base <= 16 && CanonicalRev(r, base) && r != []
    ensures CanonicalRev(r[1..], base)
    ensures d < base && r == [DigitChar(d)] + r[1..]
    ensures r[1..] == [] ==> d > 0
  {
    d :| d < base && r[0] == DigitChar(d);
  }

  /** A canonical numeral is determined by its value: `itox` writes the only one. */
  lemma {:induction false} CanonicalUnique(r: seq<Byte>, base: nat)
    requires 2 <= base <= 16 && CanonicalRev(r, base)
    ensures RevValue(r, base) >= 0 && (r != [] ==> RevValue(r, base) > 0)
    ensures RevDigits(RevValue(r, base), base) == r
    decreases |r|
  {
    if r != [] {
      var d := CanonicalHead(r, base);
      CanonicalUnique(r[1..], base);
      var v := RevValue(r[1..], base);
      RevValueCons(d, r[1..], base);
      MulMonotonic(if v > 0 then 1 else 0, base, v);
      RevDigitsCons(d, v, base);
    }
  }

  // ----- the text that is written

  /** `itoa` and `itox` write a numeral of the value: proper digits, the most significant one first,
      none missing and none too many. */
  lemma NumeralMeaning(v: nat, base: nat)
    requires 2 <= base <= 16
    ensures IsNumeral(Numeral(v, base), base) && Value(Numeral(v, base), base) == v
  {
    if v == 0 {
      assert [48][..0] == [];
    } else {
      var r := RevDigits(v, base);
      RevDigitsValue(v, base);
      ReverseValue(r, base);
      RevDigitsCanonical(v, base);
      ReverseAt(r);
      forall i | 0 <= i < |r| ensures IsDigitOf(Reverse(r)[i], base) {
        var d: nat :| d < base && r[|r| - 1 - i] == DigitChar(d);
      }
    }
  }

  /** And it is the only numeral of that value. */
  lemma NumeralUnique(s: seq<Byte>, base: nat)
    requires 2 <= base <= 16 && IsNumeral(s, base)
    ensures Value(s, base) >= 0 && Numeral(Value(s, base), base) == s
  {
    if s == [48] {
      assert s[..0] == [];
    } else {
      ReversedCanonical(s, base);
      CanonicalUnique(Reverse(s), base);
      ReverseTwice(s);
      ReverseValue(Reverse(s), base);
    }
  }

  lemma ReversedCanonical(s: seq<Byte>, base: nat)
    requires 2 <= base <= 16 && IsNumeral(s, base) && s != [48]
    ensures Reverse(s) != [] && CanonicalRev(Reverse(s), base)
  {
    hide Reverse;
    var r := Reverse(s);
    ReverseAt(s);
    forall i | 0 <= i < |r| ensures exists d: nat :: d < base && r[i] == DigitChar(d) {
      DigitExists(s[|s| - 1 - i], base);
    }
    assert r[|r| - 1] == s[0] != 48;
  }

  lemma DigitExists(c: Byte, base: nat)
    requires 2 <= base <= 16 && IsDigitOf(c, base)
    ensures exists d: nat :: d < base && c == DigitChar(d)
  {
    assert c == DigitChar(CharDigit(c));
  }

  /** What `itoa` writes for every int but INT_MIN: a sign for a negative one, and the numeral of
      the absolute value. */
  lemma ItoaTextMeaning(val: int)
    requires INT_MIN <= val <= INT_MAX
    ensures 0 <= val ==> IsNumeral(ItoaText(val), 10) && Value(ItoaText(val), 10) == val
    ensures INT_MIN < val < 0 ==>
              && ItoaText(val)[0] == 45 && IsNumeral(ItoaText(val)[1..], 10)
              && Value(ItoaText(val)[1..], 10) == -val
    ensures val == INT_MIN ==> ItoaText(val) == [45]
  {
    NumeralMeaning(if val < 0 then -val else val, 10);
    assert INT_MIN < val < 0 ==> ItoaText(val)[1..] == Numeral(-val, 10);
  }

  /** `atoi` undoes `itoa` for every int except INT_MIN, which is written "-" and read back 0. */
  lemma AtoiUndoesItoa(val: int)
    requires INT_MIN <= val <= INT_MAX
    ensures AtoiValue(ItoaText(val)) == val <==> val != INT_MIN
  {
    var t := ItoaText(val);
    ItoaTextMeaning(val);
    if val == INT_MIN {
      assert t[1..] == [];
    } else if val < 0 {
      DecimalDigits(t[1..]);
    } else {
      DecimalDigits(t);
    }
  }

  lemma DecimalDigits(s: seq<Byte>)
    requires IsNumeral(s, 10)
    ensures AllDigits(s) && s[0] != 45
  {
    assert IsDigitOf(s[0], 10);
    forall i | 0 <= i < |s| ensures IsDigit(s[i]) {
      assert IsDigitOf(s[i], 10);
    }
  }
}
