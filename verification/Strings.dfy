/** Numbers as text (src/lib/string.c): itoa emits digits backwards and turns them round in place
    with strinv; atoi reads decimal digits. */
module Strings {
  type Byte = b: int | 0 <= b < 256
  const MOD := 0x1_0000_0000

  /** The C string at the front of a buffer. */
  ghost predicate IsString(buf: seq<Byte>, s: seq<Byte>)
  {
    |s| < |buf| && buf[..|s|] == s && buf[|s|] == 0 && forall i :: 0 <= i < |s| ==> s[i] != 0
  }

  function Reversed(s: seq<Byte>): (r: seq<Byte>)
    ensures |r| == |s| && forall i :: 0 <= i < |s| ==> r[i] == s[|s| - 1 - i]
  {
    seq(|s|, i requires 0 <= i < |s| => s[|s| - 1 - i])
  }

  // ---------------------------------------------------------------------------
  // The text of a number

  function Glyph(digit: nat): (c: Byte)
    ensures c != 0
  {
    if digit < 10 then 0x30 + digit else if digit < 16 then 0x41 + (digit - 10) else 0x3F
  }

  function Quot(v: nat, base: nat): (q: nat)
    requires 2 <= base
    ensures q > 0 ==> q < v
  {
    assert v == v / base * base + v % base;
    Twice(v / base, base);
    v / base
  }

  lemma Twice(q: nat, base: nat)
    requires 2 <= base
    ensures q * base >= 2 * q
  {
    assert q * base == 2 * q + q * (base - 2);
  }

  function Rem(v: nat, base: nat): (r: nat)
    requires 2 <= base
    ensures r < base
  {
    v % base
  }

  /** Digits, least significant first. */
  function Emit(v: nat, base: nat): (s: seq<Byte>)
    requires 2 <= base <= 128
    ensures |s| > 0 && forall i :: 0 <= i < |s| ==> s[i] != 0
  {
    [Glyph(Rem(v, base))] + (if Quot(v, base) == 0 then [] else Emit(Quot(v, base), base))
  }

  /** The radix mark, backwards. */
  function Mark(base: nat): (s: seq<Byte>)
    ensures |s| <= 2 && forall i :: 0 <= i < |s| ==> s[i] != 0
  {
    if base == 16 then [0x78, 0x30] else if base == 8 then [0x6F, 0x30] else if base == 2 then [0x62, 0x30] else []
  }

  function Text(v: nat, base: nat): seq<Byte>
    requires 2 <= base <= 128
  {
    Reversed(Emit(v, base) + Mark(base))
  }

  // ---------------------------------------------------------------------------
  // Reading it back

  function DigitOf(c: Byte): int { if c < 0x41 then c - 0x30 else c - 0x41 + 10 }

  /** The number a digit string stands for, most significant first. */
  function Number(s: seq<Byte>, base: nat): int
  {
    if s == [] then 0 else Number(s[..|s| - 1], base) * base + DigitOf(s[|s| - 1])
  }

  /** The digits itoa emits, turned round, stand for the number in any base. */
  lemma {:induction false} EmitMeans(v: nat, base: nat)
    requires 2 <= base <= 16
    ensures Number(Reversed(Emit(v, base)), base) == v
    decreases v
  {
    var s := Reversed(Emit(v, base));
    var n := |s| - 1;
    assert v == Quot(v, base) * base + Rem(v, base);
    hide Quot, Rem;
    if Quot(v, base) > 0 {
      EmitMeans(Quot(v, base), base);
      assert s[..n] == Reversed(Emit(Quot(v, base), base));
    } else {
      assert s[..n] == [];
    }
  }

  /** The digits are shown as the characters 0 to 9 and A to F. */
  lemma GlyphIs(d: nat)
    requires d < 16
    ensures Glyph(d) == "0123456789ABCDEF"[d] as int && DigitOf(Glyph(d)) == d
  {
    assert '9' as int == '0' as int + 9 && 'F' as int == 'A' as int + 5;
  }

  /** No leading zero: the last digit emitted, which is shown first, is 0 only for the number 0. */
  lemma {:induction false} NoLeadingZero(v: nat, base: nat)
    requires 2 <= base <= 128
    ensures Emit(v, base)[|Emit(v, base)| - 1] == '0' as int <==> v == 0
    decreases v
  {
    assert v == Quot(v, base) * base + Rem(v, base);
    hide Quot, Rem;
    if Quot(v, base) > 0 {
      NoLeadingZero(Quot(v, base), base);
      assert Quot(v, base) * base > 0 by { Twice(Quot(v, base), base); }
    }
  }

  /** Read from the front: the radix mark "0x", "0o" or "0b" where there is one, then digits that
      stand for the number. */
  lemma TextMeans(v: nat, base: nat)
    requires 2 <= base <= 16
    ensures var s, k := Text(v, base), if base in {2, 8, 16} then 2 else 0;
      && k < |s| && Number(s[k..], base) == v
      && (k == 2 ==> s[..2] == [0x30, if base == 16 then 0x78 else if base == 8 then 0x6F else 0x62])
  {
    var s, e := Text(v, base), Emit(v, base);
    EmitMeans(v, base);
    assert s[|Mark(base)|..] == Reversed(e);
  }

  /** From base 18 on the text does not tell the number: digits above 15 all show as a question mark. */
  lemma TextAmbiguous(base: nat)
    requires 18 <= base <= 128
    ensures Text(16, base) == Text(17, base)
  {
    assert Quot(16, base) == 0 && Rem(16, base) == 16 && Quot(17, base) == 0 && Rem(17, base) == 17;
    assert Emit(16, base) == [0x3F] && Emit(17, base) == [0x3F];
  }

  predicate IsDigit(c: Byte) { 0x30 <= c <= 0x39 }

  function Signed(x: int): (r: int)
    ensures -0x8000_0000 <= r < 0x8000_0000 && (x - r) % 0x1_0000_0000 == 0
  {
    var m := x % MOD; if m < MOD / 2 then m else m - MOD
  }

  /** 32-bit steps lose nothing but multiples of 2^32. */
  lemma SignedStep(x: int, d: int)
    ensures Signed(Signed(x) * 10 + d) == Signed(x * 10 + d)
  {
    var k := (x - Signed(x)) / MOD;
    assert x == Signed(x) + k * MOD;
    Congruent(Signed(x) * 10 + d, 10 * k);
  }

  lemma Congruent(x: int, k: int)
    ensures (x + k * MOD) % MOD == x % MOD
  {
    var q := x / MOD;
    assert x + k * MOD == (q + k) * MOD + x % MOD;
  }

  /** How many digits there are at the front. */
  function Leading(s: seq<Byte>): (n: nat)
    ensures n <= |s| && (forall i :: 0 <= i < n ==> IsDigit(s[i])) && (n < |s| ==> !IsDigit(s[n]))
    ensures (forall i :: 0 <= i < n ==> '0' as int <= s[i] <= '9' as int) && (n < |s| ==> s[n] < '0' as int || s[n] > '9' as int)
  {
    if s == [] || !IsDigit(s[0]) then 0 else 1 + Leading(s[1..])
  }

  /** What atoi makes of a string. */
  function Read(s: seq<Byte>): int { Signed(Number(s[..Leading(s)], 10)) }

  lemma {:induction false} EmitDigits(v: nat)
    ensures forall i :: 0 <= i < |Emit(v, 10)| ==> IsDigit(Emit(v, 10)[i])
  {
    if Quot(v, 10) > 0 {
      EmitDigits(Quot(v, 10));
    }
  }

  /** atoi undoes itoa in base 10 exactly for the numbers an int can hold. */
  lemma ReadUndoesText(v: nat)
    requires v < MOD
    ensures Read(Text(v, 10)) == v <==> v < MOD / 2
  {
    var s := Text(v, 10);
    assert Emit(v, 10) + Mark(10) == Emit(v, 10);
    EmitDigits(v);
    EmitMeans(v, 10);
    assert forall i :: 0 <= i < |s| ==> IsDigit(s[i]);
    assert Leading(s) == |s| && s[..|s|] == s;
  }

  // ---------------------------------------------------------------------------
  // The code

  method Strlen(buf: array<Byte>, ghost s: seq<Byte>) returns (n: nat)
    requires IsString(buf[..], s)
    ensures n == |s|
  {
    n := 0;
    assert forall i :: 0 <= i < |s| ==> buf[i] == buf[..|s|][i];
    while buf[n] != 0
      invariant n <= |s|
      decreases |s| - n
    {
      n := n + 1;
    }
  }

  /** strcpy: the first byte, then on to the next terminator, at `m`.  For a string that is not
      empty that is its own. */
  method Strcpy(to: array<Byte>, from: array<Byte>, ghost s: seq<Byte>, ghost m: nat)
    requires to != from && IsString(from[..], s) && 1 <= m < from.Length && m < to.Length
    requires from[m] == 0 && forall i :: 1 <= i < m ==> from[i] != 0
    modifies to
    ensures IsString(to[..], s) && to[..m] == from[..m] && to[m + 1..] == old(to[..])[m + 1..]
    ensures s != [] ==> m == |s|
  {
    ghost var was := to[..];
    assert forall i :: 0 <= i < |s| ==> from[i] == from[..|s|][i];
    to[0] := from[0];
    var i := 1;
    while from[i] != 0
      invariant 1 <= i <= m && forall x :: 0 <= x < to.Length ==> to[x] == if x < i then from[x] else was[x]
      decreases m - i
    {
      to[i] := from[i];
      i := i + 1;
    }
    to[i] := 0;
    assert forall x :: 0 <= x < |s| ==> to[x] == s[x];
  }

  /** strinv: the string turned round, in its own place. */
  method Strinv(str: array<Byte>, ghost s: seq<Byte>)
    requires IsString(str[..], s) && s != []
    modifies str
    ensures IsString(str[..], Reversed(s))
  {
    var n := Strlen(str, s);
    var buf := new Byte[n + 2];
    var cur: nat := 0;
    var i: int := n - 1;
    assert str[..n] == s;
    while i >= 0
      invariant -1 <= i < n && cur == n - 1 - i && buf[..cur] == Reversed(s)[..cur] && str[..] == old(str[..])
    {
      buf[cur] := str[i];
      assert buf[..cur + 1] == buf[..cur] + [str[i]] && str[..n][i] == s[i];
      cur, i := cur + 1, i - 1;
    }
    buf[cur] := 0;
    assert IsString(buf[..], Reversed(s));
    assert forall x :: 0 <= x < n ==> buf[x] == buf[..n][x];
    Strcpy(str, buf, Reversed(s), n);
  }

  /** The digit loop of itoa. */
  method PutDigits(value0: nat, str: array<Byte>, base: nat) returns (pos: nat)
    requires 2 <= base <= 128 && |Emit(value0, base)| <= str.Length
    modifies str
    ensures pos == |Emit(value0, base)| && str[..pos] == Emit(value0, base)
  {
    var value: nat, more := value0, true;
    pos := 0;
    hide Quot, Rem;
    ghost var digits, rest := Emit(value0, base), Emit(value0, base);
    while more
      invariant more ==> rest == Emit(value, base)
      invariant !more ==> rest == []
      invariant pos <= |digits| && rest == digits[pos..] && forall i :: 0 <= i < pos ==> str[i] == digits[i]
      decreases more, value
    {
      assert rest[0] == Glyph(Rem(value, base)) && digits[pos] == rest[0];
      var digit := Rem(value, base);
      str[pos] := Glyph(digit);
      value, pos := Quot(value, base), pos + 1;
      more := value > 0;
      rest := rest[1..];
    }
  }

  /** itoa: the number's text, radix mark included; the position after the terminator. */
  method Itoa(value: nat, str: array<Byte>, base: nat) returns (r: nat)
    requires 2 <= base <= 128 && |Text(value, base)| < str.Length
    modifies str
    ensures IsString(str[..], Text(value, base)) && r == |Text(value, base)| + 1
  {
    ghost var digits, mark := Emit(value, base), Mark(base);
    var pos := PutDigits(value, str, base);
    hide Emit;
    if base == 16 {
      str[pos], str[pos + 1] := 0x78, 0x30;
      pos := pos + 2;
    } else if base == 8 {
      str[pos], str[pos + 1] := 0x6F, 0x30;
      pos := pos + 2;
    } else if base == 2 {
      str[pos], str[pos + 1] := 0x62, 0x30;
      pos := pos + 2;
    }
    assert str[..pos] == digits + mark;
    str[pos] := 0;
    r := pos + 1;
    assert str[..pos] == digits + mark;
    Strinv(str, digits + mark);
  }

  method Atoi(str: array<Byte>, ghost s: seq<Byte>) returns (value: int)
    requires IsString(str[..], s)
    ensures value == Read(s)
  {
    value := 0;
    var i := 0;
    assert str[..|s|] == s;
    while IsDigit(str[i])
      invariant i <= Leading(s) && value == Signed(Number(s[..i], 10))
      decreases Leading(s) - i
    {
      assert i < |s| && s[i] == str[i];
      assert s[..i + 1][..i] == s[..i];
      SignedStep(Number(s[..i], 10), str[i] - 0x30);
      value := Signed(value * 10 + (str[i] - 0x30));
      i := i + 1;
    }
    assert i < |s| ==> str[i] == s[i];
  }
}
