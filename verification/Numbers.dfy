/** Number text: ValueToHex and ValueToString of gnu-efi/lib/print.c, and xtoi and Atoi of
    gnu-efi/lib/str.c that read it back.
 */
module Numbers {
  import opened Division
  import opened Strings

  const ZERO: Char16 := '0' as int
  const COMMA: Char16 := ',' as int
  const MINUS: Char16 := '-' as int
  const SPACE: Char16 := ' ' as int

  // ----- positional notation -----

  /** The digits of `v`, most significant first; none for zero. */
  function Digits(v: nat, base: nat): (ds: seq<nat>)
    requires base >= 2
    ensures forall i :: 0 <= i < |ds| ==> ds[i] < base
    ensures v > 0 ==> ds != [] && ds[0] != 0
  {
    if v == 0 then [] else Digits(v / base, base) + [v % base]
  }

  function Value(ds: seq<nat>, base: nat): nat {
    if ds == [] then 0 else Value(ds[..|ds| - 1], base) * base + ds[|ds| - 1]
  }

  lemma {:induction false} ValueOfDigits(v: nat, base: nat)
    requires base >= 2
    ensures Value(Digits(v, base), base) == v
    decreases v
  {
    if v != 0 {
      ValueOfDigits(v / base, base);
      var front := Digits(v / base, base);
      assert Digits(v, base)[..|front|] == front;
      DivMod(v, base);
      hide Digits;
      assert Value(front + [v % base], base) == Value(front, base) * base + v % base;
    }
  }

  lemma DivMod(v: nat, base: nat)
    requires base > 0
    ensures (v / base) * base + v % base == v
  {}

  /** A number below base^n has at most n digits. */
  lemma {:induction false} DigitCount(v: nat, base: nat, n: nat, bound: nat)
    requires base >= 2 && v < bound && bound <= Power(base, n)
    ensures |Digits(v, base)| <= n
    decreases n
  {
    if n != 0 && v != 0 {
      assert v / base < Power(base, n - 1) by {
        assert v < base * Power(base, n - 1);
      }
      DigitCount(v / base, base, n - 1, Power(base, n - 1));
    }
  }

  function Power(base: nat, n: nat): nat {
    if n == 0 then 1 else base * Power(base, n - 1)
  }

  // ----- hexadecimal -----

  function HexChar(d: nat): Char16
    requires d < 16
  {
    if d < 10 then ZERO + d else 'A' as int + (d - 10)
  }

  function HexText(v: nat): (s: Text)
  {
    if v == 0 then [ZERO] else
      var ds := Digits(v, 16);
      seq(|ds|, i requires 0 <= i < |ds| => HexChar(ds[i]))
  }

  lemma HexFits()
    ensures Power(16, 16) == TWO64 && Power(10, 20) >= TWO64
  {
    assert Power(16, 4) == 0x10000;
    assert Power(16, 8) == 0x10000_0000 by { assert Power(16, 6) == 0x1000000; }
    assert Power(16, 12) == 0x1_0000_0000_0000 by { assert Power(16, 10) == 0x100_0000_0000; }
    assert Power(16, 16) == TWO64 by { assert Power(16, 14) == 0x100_0000_0000_0000; }
    assert Power(10, 4) == 10000;
    assert Power(10, 8) == 100000000 by { assert Power(10, 6) == 1000000; }
    assert Power(10, 12) == 1000000000000 by { assert Power(10, 10) == 10000000000; }
    assert Power(10, 16) == 10000000000000000 by { assert Power(10, 14) == 100000000000000; }
    assert Power(10, 20) == 100000000000000000000 by { assert Power(10, 18) == 1000000000000000000; }
  }

  lemma HexTextLength(v: U64)
    ensures |Digits(v, 16)| <= 16 && |HexText(v)| <= 16
  {
    HexFits();
    DigitCount(v, 16, 16, TWO64);
  }

  /** From `start` on, `now` holds the first `n` characters of `text`; elsewhere it is as it was. */
  ghost predicate Wrote(now: seq<Char16>, was: seq<Char16>, start: nat, text: seq<Char16>, n: nat) {
    && |now| == |was| && n <= |text| && start + n <= |was|
    && (forall k :: 0 <= k < n ==> now[start + k] == text[k])
    && (forall k :: 0 <= k < start || start + n <= k < |was| ==> now[k] == was[k])
  }

  /** The buffer holds `text` and its terminator at the front and is otherwise as it was. */
  ghost predicate Holds(now: seq<Char16>, was: seq<Char16>, text: seq<Char16>) {
    Wrote(now, was, 0, text + [0], |text| + 1)
  }

  lemma HoldsMeans(now: seq<Char16>, was: seq<Char16>, text: seq<Char16>)
    ensures Holds(now, was, text) <==>
      && |text| < |now| == |was|
      && (forall k :: 0 <= k < |text| ==> now[k] == text[k]) && now[|text|] == 0
      && forall k :: |text| < k < |was| ==> now[k] == was[k]
  {
    var ended := text + [0];
    assert ended[|text|] == 0 && forall k :: 0 <= k < |text| ==> ended[k] == text[k];
    if Holds(now, was, text) {
      assert forall k :: 0 <= k < |ended| ==> now[0 + k] == ended[k];
    }
  }

  /** `*(p2++) = ch` */
  method Put(buffer: array<Char16>, m: nat, ch: Char16,
             ghost was: seq<Char16>, ghost start: nat, ghost text: seq<Char16>)
    requires start <= m < buffer.Length && m - start < |text| && text[m - start] == ch
    requires Wrote(buffer[..], was, start, text, m - start)
    modifies buffer
    ensures Wrote(buffer[..], was, start, text, m - start + 1)
  {
    buffer[m] := ch;
  }

  /** `str` holds the text back to front. */
  ghost predicate HoldsReversed(str: seq<Char16>, text: seq<Char16>, n: nat) {
    n <= |text| && n <= |str| && forall k :: 0 <= k < n ==> str[k] == text[|text| - 1 - k]
  }

  /** The digits of `v` are what is still missing from `str`. */
  ghost predicate CollectingHex(v: nat, ds: seq<nat>, n: nat, str: seq<Char16>, text: Text) {
    && |text| == |ds| && (forall i :: 0 <= i < |ds| ==> ds[i] < 16 && text[i] == HexChar(ds[i]))
    && n <= |ds| && Digits(v, 16) == ds[..|ds| - n] && HoldsReversed(str, text, n)
  }

  lemma HexTextOf(v: nat)
    requires v != 0
    ensures var ds, text := Digits(v, 16), HexText(v);
      |text| == |ds| && forall i :: 0 <= i < |ds| ==> ds[i] < 16 && text[i] == HexChar(ds[i])
  {}

  lemma CollectHexStep(v: nat, ds: seq<nat>, n: nat, str: seq<Char16>, text: Text)
    requires v != 0 && CollectingHex(v, ds, n, str, text) && |ds| <= |str|
    ensures n < |str| && CollectingHex(v / 16, ds, n + 1, str[n := HexChar(v % 16)], text)
  {
    var rest := ds[..|ds| - n];
    LastDigit(v, rest, 16);
    hide Digits, HexChar;
    assert rest[..|rest| - 1] == ds[..|ds| - n - 1];
    assert text[|ds| - 1 - n] == HexChar(v % 16);
  }

  lemma NoHexDigits(ds: seq<nat>, n: nat)
    requires n <= |ds| && Digits(0, 16) == ds[..|ds| - n]
    ensures n == |ds|
  {}

  /** The first loop: digits are collected lowest first. */
  method CollectHex(str: array<Char16>, value: U64) returns (n: nat)
    requires value != 0 && str.Length >= 16
    modifies str
    ensures n == |HexText(value)| <= 16 && HoldsReversed(str[..], HexText(value), n)
  {
    HexTextLength(value);
    HexTextOf(value);
    ghost var text, ds := HexText(value), Digits(value, 16);
    var v: U64 := value;
    n := 0;
    assert CollectingHex(v, ds, 0, str[..], text) by { assert ds[..|ds|] == ds; }
    hide HexText, Digits, HoldsReversed;
    while v != 0
      invariant CollectingHex(v, ds, n, str[..], text)
      decreases v
    {
      CollectHexStep(v, ds, n, str[..], text);
      hide CollectingHex;
      str[n] := HexChar(v % 16);
      n := n + 1;
      v := v / 16;
    }
    NoHexDigits(ds, n);
  }

  /** The second loop: the digits go out the other way round. */
  method EmitHex(buffer: array<Char16>, str: array<Char16>, total: nat, ghost text: Text)
    requires buffer != str && total == |text| < buffer.Length && HoldsReversed(str[..], text, total)
    modifies buffer
    ensures Wrote(buffer[..], old(buffer[..]), 0, text, total)
  {
    ghost var was := buffer[..];
    var n: nat, m: nat := total, 0;
    while n != 0
      invariant n + m == total && HoldsReversed(str[..], text, n) && Wrote(buffer[..], was, 0, text, m)
    {
      assert str[..][n - 1] == text[m];
      hide HoldsReversed, Wrote;
      n := n - 1;
      Put(buffer, m, str[n], was, 0, text);
      m := m + 1;
      FewerReversed(str[..], text, n);
    }
  }

  lemma FewerReversed(str: seq<Char16>, text: seq<Char16>, n: nat)
    requires HoldsReversed(str, text, n + 1)
    ensures HoldsReversed(str, text, n)
  {}

  /** ValueToHex. */
  method ValueToHex(buffer: array<Char16>, value: U64)
    requires buffer.Length >= 17
    modifies buffer
    ensures Holds(buffer[..], old(buffer[..]), HexText(value))
  {
    if value == 0 {
      buffer[0], buffer[1] := ZERO, 0;
      return;
    }
    ghost var was := buffer[..];
    var str := new Char16[30];
    var n := CollectHex(str, value);
    hide *;
    EmitHex(buffer, str, n, HexText(value));
    WroteMore(buffer[..], was, HexText(value));
    Put(buffer, n, 0, was, 0, HexText(value) + [0]);
    Terminated(buffer[..], was, HexText(value));
  }

  /** The terminator does not change what has been written so far. */
  lemma WroteMore(now: seq<Char16>, was: seq<Char16>, text: seq<Char16>)
    requires Wrote(now, was, 0, text, |text|)
    ensures Wrote(now, was, 0, text + [0], |text|)
  {}

  lemma Terminated(now: seq<Char16>, was: seq<Char16>, text: seq<Char16>)
    requires Wrote(now, was, 0, text + [0], |text| + 1)
    ensures Holds(now, was, text)
  {}

  // ----- decimal -----

  function DigitChar(d: nat): Char16
    requires d < 10
  {
    ZERO + d
  }

  function Plain(ds: seq<nat>): (s: Text)
    requires forall i :: 0 <= i < |ds| ==> ds[i] < 10
    ensures |s| == |ds|
  {
    seq(|ds|, i requires 0 <= i < |ds| => DigitChar(ds[i]))
  }

  /** A comma is due in front of `n` digits that are left. */
  predicate Due(n: nat) { n % 3 == 0 }

  /** The digits from position `k` on, a comma before each digit that has a positive multiple of three
      digits from it to the end, except before the first. */
  function Grouped(ds: seq<nat>, k: nat): Text
    requires k <= |ds| && forall i :: 0 <= i < |ds| ==> ds[i] < 10
    decreases |ds| - k
  {
    if k == |ds| then [] else
      (if k > 0 && Due(|ds| - k) then [COMMA] else []) + [DigitChar(ds[k])] + Grouped(ds, k + 1)
  }

  function Magnitude(v: int): nat {
    if v < 0 then -v else v
  }

  function Thirds(n: nat): nat { n / 3 }

  lemma {:induction false} GroupedLength(ds: seq<nat>, k: nat)
    requires 0 < k <= |ds| && forall i :: 0 <= i < |ds| ==> ds[i] < 10
    ensures |Grouped(ds, k)| == (|ds| - k) + Thirds(|ds| - k)
    decreases |ds| - k
  {
    if k < |ds| {
      GroupedStep(ds, k);
      hide *;
      GroupedLength(ds, k + 1);
      NextThird(|ds| - (k + 1));
    } else {
      NoThirds();
    }
  }

  lemma GroupedStep(ds: seq<nat>, k: nat)
    requires k < |ds| && forall i :: 0 <= i < |ds| ==> ds[i] < 10
    ensures |Grouped(ds, k)| == (if k > 0 && Due(|ds| - k) then 2 else 1) + |Grouped(ds, k + 1)|
  {}

  lemma GroupedAll(ds: seq<nat>)
    requires ds != [] && forall i :: 0 <= i < |ds| ==> ds[i] < 10
    ensures |Grouped(ds, 0)| == |ds| + Thirds(|ds| - 1)
  {
    GroupedStep(ds, 0);
    hide *;
    GroupedLength(ds, 1);
  }

  lemma NoThirds()
    ensures Thirds(0) == 0
  {}

  lemma NextThird(n: nat)
    ensures Thirds(n + 1) == Thirds(n) + if Due(n + 1) then 1 else 0
  {}

  lemma GroupedShape(left: nat, len: nat)
    requires len == left + Thirds(left)
    ensures len % 4 != 3 && (Due(left + 1) <==> len % 4 == 2)
  {
    var q, r := left / 3, left % 3;
    assert left == 3 * q + r && len == 4 * q + r;
    FourthRest(q, r);
    ThirdRest(q, r);
  }

  lemma FourthRest(q: nat, r: nat)
    requires r < 3
    ensures (4 * q + r) % 4 == r
  {}

  lemma ThirdRest(q: nat, r: nat)
    requires r < 3
    ensures Due(3 * q + r + 1) <==> r == 2
  {}

  /** Counted from the right, the commas stand at every fourth place and nowhere else. */
  predicate CommasEveryFourth(t: seq<Char16>) {
    forall i :: 0 <= i < |t| ==> (t[|t| - 1 - i] == COMMA <==> i % 4 == 3)
  }

  lemma {:induction false} CommaPlaces(ds: seq<nat>, k: nat)
    requires k <= |ds| && forall i :: 0 <= i < |ds| ==> ds[i] < 10
    ensures CommasEveryFourth(Grouped(ds, k))
    decreases |ds| - k
  {
    if k < |ds| {
      var left, u, comma := |ds| - k - 1, Grouped(ds, k + 1), k > 0 && Due(|ds| - k);
      assert Grouped(ds, k) == (if comma then [COMMA] else []) + [DigitChar(ds[k])] + u;
      NoComma(ds[k]);
      hide *;
      CommaPlaces(ds, k + 1);
      GroupedLength(ds, k + 1);
      GroupedShape(left, |u|);
      CommaPlacesStep(u, DigitChar(ds[k]), comma, Grouped(ds, k));
    }
  }

  lemma CommaPlacesStep(u: seq<Char16>, digit: Char16, comma: bool, t: seq<Char16>)
    requires CommasEveryFourth(u)
    requires t == (if comma then [COMMA] else []) + [digit] + u
    requires digit != COMMA && |u| % 4 != 3 && (comma ==> |u| % 4 == 2)
    ensures CommasEveryFourth(t)
  {
    forall i | 0 <= i < |t|
      ensures t[|t| - 1 - i] == COMMA <==> i % 4 == 3
    {
      if i < |u| {
        assert t[|t| - 1 - i] == u[|u| - 1 - i];
      } else if i == |u| {
        assert t[|t| - 1 - i] == digit;
      }
    }
  }

  function WithoutCommas(s: Text): Text {
    if s == [] then [] else (if s[0] == COMMA then [] else [s[0]]) + WithoutCommas(s[1..])
  }

  /** Taking the commas out leaves the plain digits. */
  lemma {:induction false} CommasOut(ds: seq<nat>, k: nat)
    requires k <= |ds| && forall i :: 0 <= i < |ds| ==> ds[i] < 10
    ensures WithoutCommas(Grouped(ds, k)) == Plain(ds[k..])
    decreases |ds| - k
  {
    if k < |ds| {
      var comma, c := k > 0 && Due(|ds| - k), DigitChar(ds[k]);
      assert Grouped(ds, k) == (if comma then [COMMA] else []) + [c] + Grouped(ds, k + 1);
      PlainStep(ds, k);
      NoComma(ds[k]);
      hide *;
      CommasOut(ds, k + 1);
      CommaOut(comma, c, Grouped(ds, k + 1));
    }
  }

  lemma PlainStep(ds: seq<nat>, k: nat)
    requires k < |ds| && forall i :: 0 <= i < |ds| ==> ds[i] < 10
    ensures Plain(ds[k..]) == [DigitChar(ds[k])] + Plain(ds[k + 1..])
  {}

  lemma NoComma(d: nat)
    requires d < 10
    ensures DigitChar(d) != COMMA && DigitChar(d) != 0
  {}

  lemma CommaOut(comma: bool, c: Char16, u: Text)
    requires c != COMMA && c != 0
    ensures WithoutCommas((if comma then [COMMA] else []) + [c] + u) == [c] + WithoutCommas(u)
  {
    var rest := [c] + u;
    assert rest[1..] == u && WithoutCommas(rest) == [c] + WithoutCommas(u);
    if comma {
      var t := [COMMA] + [c] + u;
      assert t[1..] == rest;
    }
  }

  lemma LastDigit(v: nat, ds: seq<nat>, base: nat)
    requires base >= 2 && v != 0 && ds == Digits(v, base)
    ensures ds != [] && ds[|ds| - 1] == v % base && ds[..|ds| - 1] == Digits(v / base, base)
  {}

  const CA: seq<nat> := [3, 1, 2]

  /** The digits of `v` are what is still missing from `str`. */
  ghost predicate Collecting(v: nat, ds: seq<nat>, n: nat, str: seq<Char16>) {
    && (forall i :: 0 <= i < |ds| ==> ds[i] < 10)
    && n <= |ds| && Digits(v, 10) == ds[..|ds| - n] && HoldsReversed(str, Plain(ds), n)
  }

  lemma CollectStep(v: nat, ds: seq<nat>, n: nat, str: seq<Char16>)
    requires v != 0 && Collecting(v, ds, n, str) && |ds| <= |str|
    ensures n < |str| && Collecting(v / 10, ds, n + 1, str[n := DigitChar(v % 10)])
  {
    var rest := ds[..|ds| - n];
    LastDigit(v, rest, 10);
    assert Plain(ds)[|ds| - 1 - n] == DigitChar(ds[|ds| - 1 - n]);
    hide Digits, DigitChar, Plain;
    assert rest[..|rest| - 1] == ds[..|ds| - n - 1];
  }

  /** `v2 = DivU64x32(v2, 10, &r)` and the character for the remainder. */
  method NextDigit(v: U64) returns (rest: U64, c: Char16)
    ensures rest == v / 10 && c == DigitChar(v % 10)
  {
    hide Steps;
    var r: U32;
    rest, r := DivU64x32(v, 10);
    c := r + ZERO;
  }

  method CollectDecimal(str: array<Char16>, value: U64) returns (n: nat)
    requires value != 0 && str.Length >= 20
    modifies str
    ensures n == |Digits(value, 10)| <= 20 && HoldsReversed(str[..], Plain(Digits(value, 10)), n)
  {
    ghost var ds := Digits(value, 10);
    TwentyDigits(value);
    var v: U64 := value;
    n := 0;
    CollectingStarts(v, str[..]);
    hide *;
    while v != 0
      invariant Collecting(v, ds, n, str[..])
      decreases v
    {
      CollectStep(v, ds, n, str[..]);
      v, str[n] := NextDigit(v);
      n := n + 1;
    }
    CollectingEnds(ds, n, str[..]);
  }

  lemma NoDigits()
    ensures Digits(0, 10) == []
  {}

  lemma TwentyDigits(v: nat)
    requires v < TWO64
    ensures |Digits(v, 10)| <= 20
  {
    HexFits();
    hide Power;
    DigitCount(v, 10, 20, TWO64);
  }

  lemma CollectingStarts(v: nat, str: seq<Char16>)
    ensures Collecting(v, Digits(v, 10), 0, str)
  {
    var ds := Digits(v, 10);
    assert ds[..|ds|] == ds;
  }

  lemma CollectingEnds(ds: seq<nat>, n: nat, str: seq<Char16>)
    requires Collecting(0, ds, n, str)
    ensures n == |ds| && (forall i :: 0 <= i < |ds| ==> ds[i] < 10) && HoldsReversed(str, Plain(ds), n)
  {
    NoDigits();
  }

  /** The counter `c` before the digit with `left` digits from it to the end; a comma is due at 1. */
  function Countdown(left: nat, total: nat): nat {
    if left % 3 != 0 then left % 3 + 1 else if left == total then 4 else 1
  }

  lemma GroupedSplit(ds: seq<nat>, k: nat)
    requires k < |ds| && forall i :: 0 <= i < |ds| ==> ds[i] < 10
    ensures Grouped(ds, k) ==
      (if Countdown(|ds| - k, |ds|) == 1 then [COMMA] else []) + [DigitChar(ds[k])] + Grouped(ds, k + 1)
  {}

  lemma CountdownNext(left: nat, total: nat)
    requires 1 < left <= total
    ensures Countdown(left - 1, total) == if Countdown(left, total) == 1 then 3 else Countdown(left, total) - 1
  {}

  /** One turn of the second loop: a comma when one is due, then the next digit. */
  method EmitDigit(buffer: array<Char16>, start: nat, at: nat, digit: Char16, counter: nat, ghost rest: Text,
                   ghost was: seq<Char16>, ghost text: Text) returns (m: nat, c: nat)
    requires counter > 0 && start <= at < buffer.Length
    requires at - start <= |text| && text[at - start..] == (if counter == 1 then [COMMA] else []) + [digit] + rest
    requires Wrote(buffer[..], was, start, text, at - start) && start + |text| < buffer.Length
    modifies buffer
    ensures start <= m <= start + |text| && text[m - start..] == rest
    ensures Wrote(buffer[..], was, start, text, m - start)
    ensures c == if counter == 1 then 3 else counter - 1
  {
    hide Wrote;
    m, c := at, counter - 1;
    ghost var tail := text[at - start..];
    if c == 0 {
      assert tail[0] == text[m - start] && tail[1] == text[m + 1 - start];
      Put(buffer, m, COMMA, was, start, text);
      m := m + 1;
      c := 3;
    } else {
      assert tail[0] == text[m - start];
    }
    Put(buffer, m, digit, was, start, text);
    m := m + 1;
    assert text[m - start..] == tail[m - at..];
  }

  /** The second loop, with commas: the digits held back to front in `str` go out from buffer[m] on. */
  method EmitGrouped(buffer: array<Char16>, start: nat, str: array<Char16>, total: nat, ghost ds: seq<nat>)
    returns (m: nat)
    requires buffer != str && 0 < total == |ds| && forall i :: 0 <= i < |ds| ==> ds[i] < 10
    requires HoldsReversed(str[..], Plain(ds), total) && start + |Grouped(ds, 0)| < buffer.Length
    modifies buffer
    ensures m == start + |Grouped(ds, 0)|
    ensures Wrote(buffer[..], old(buffer[..]), start, Grouped(ds, 0), m - start)
  {
    ghost var was, text := buffer[..], Grouped(ds, 0);
    var c, n: nat := CA[total % 3] + 1, total;
    m := start;
    while n != 0
      invariant n <= total && (n != 0 ==> c == Countdown(n, total))
      invariant start <= m <= start + |text| && text[m - start..] == Grouped(ds, total - n)
      invariant Wrote(buffer[..], was, start, text, m - start)
    {
      GroupedSplit(ds, total - n);
      hide Grouped, Wrote, Countdown;
      assert str[..][n - 1] == DigitChar(ds[total - n]);
      if n > 1 {
        CountdownNext(n, total);
      }
      m, c := EmitDigit(buffer, start, m, str[n - 1], c, Grouped(ds, total - n + 1), was, text);
      n := n - 1;
    }
  }

  /** The second loop without commas: the countdown from 999 never ends. */
  method EmitPlain(buffer: array<Char16>, start: nat, str: array<Char16>, total: nat, ghost ds: seq<nat>)
    returns (m: nat)
    requires buffer != str && 0 < total == |ds| <= 20 && forall i :: 0 <= i < |ds| ==> ds[i] < 10
    requires HoldsReversed(str[..], Plain(ds), total) && start + total < buffer.Length
    modifies buffer
    ensures m == start + total
    ensures Wrote(buffer[..], old(buffer[..]), start, Plain(ds), total)
  {
    ghost var was, text := buffer[..], Plain(ds);
    hide Plain;
    var c, n := 999 + 1, total;
    m := start;
    while n != 0
      invariant n <= total && c == 1000 - (total - n) && m == start + (total - n)
      invariant Wrote(buffer[..], was, start, text, total - n)
    {
      c := c - 1;
      n := n - 1;
      buffer[m] := str[n];
      m := m + 1;
    }
  }

  function Sign(v: int): Text {
    if v < 0 then [MINUS] else []
  }

  /** The digits of a nonzero value as they are printed. */
  function Body(v: int, comma: bool): Text {
    var ds := Digits(Magnitude(v), 10);
    if comma then Grouped(ds, 0) else Plain(ds)
  }

  function DecimalText(v: int, comma: bool): Text {
    if v == 0 then [ZERO] else Sign(v) + Body(v, comma)
  }

  lemma BodyLength(v: int, comma: bool)
    requires v != 0 && Magnitude(v) < TWO64
    ensures var n := |Digits(Magnitude(v), 10)|;
      0 < n <= 20 && |Body(v, comma)| == if comma then n + (n - 1) / 3 else n
  {
    HexFits();
    DigitCount(Magnitude(v), 10, 20, TWO64);
    GroupedAll(Digits(Magnitude(v), 10));
  }

  method EmitBody(buffer: array<Char16>, start: nat, str: array<Char16>, total: nat, comma: bool, ghost v: int)
    returns (m: nat)
    requires buffer != str && v != 0 && Magnitude(v) < TWO64 && total == |Digits(Magnitude(v), 10)|
    requires HoldsReversed(str[..], Plain(Digits(Magnitude(v), 10)), total) && start + |Body(v, comma)| < buffer.Length
    modifies buffer
    ensures m == start + |Body(v, comma)|
    ensures Wrote(buffer[..], old(buffer[..]), start, Body(v, comma), m - start)
  {
    BodyLength(v, comma);
    ghost var ds := Digits(Magnitude(v), 10);
    hide Digits, Plain, Grouped, Wrote, HoldsReversed;
    if comma {
      m := EmitGrouped(buffer, start, str, total, ds);
    } else {
      m := EmitPlain(buffer, start, str, total, ds);
    }
  }

  /** ValueToString on an INT64. Negating the least INT64 wraps round to itself, which the division
      then takes as the UINT64 2^63, its magnitude. */
  method ValueToString(buffer: array<Char16>, comma: bool, value: int)
    requires buffer.Length >= 28 && -(TWO64 / 2) <= value < TWO64 / 2
    modifies buffer
    ensures Holds(buffer[..], old(buffer[..]), DecimalText(value, comma))
  {
    ghost var was, text := buffer[..], DecimalText(value, comma);
    if value == 0 {
      buffer[0], buffer[1] := ZERO, 0;
      return;
    }
    ghost var body := Body(value, comma);
    var start := if value < 0 then 1 else 0;
    TextParts(value, comma, start);
    hide *;
    NothingWritten(was, text);
    if value < 0 {
      Put(buffer, 0, MINUS, was, 0, text);
    }
    ghost var signed := buffer[..];
    var str := new Char16[40];
    var n := CollectDecimal(str, Magnitude(value));
    var m := EmitBody(buffer, start, str, n, comma, value);
    Assembled(was, signed, buffer[..], text, body, start);
    Put(buffer, m, 0, was, 0, text + [0]);
    assert Holds(buffer[..], was, text) by { Terminated(buffer[..], was, text); }
  }

  lemma TextParts(v: int, comma: bool, start: nat)
    requires v != 0 && -(TWO64 / 2) <= v < TWO64 / 2 && start == if v < 0 then 1 else 0
    ensures 0 < Magnitude(v) < TWO64
    ensures var text, body := DecimalText(v, comma), Body(v, comma);
      |text| == start + |body| < 28 && text[start..] == body && (v < 0 ==> text[0] == MINUS)
  {
    BodyLength(v, comma);
    hide Body, Digits;
  }

  lemma NothingWritten(was: seq<Char16>, text: seq<Char16>)
    ensures Wrote(was, was, 0, text, 0)
  {}

  lemma Assembled(was: seq<Char16>, signed: seq<Char16>, now: seq<Char16>,
                  text: seq<Char16>, body: seq<Char16>, start: nat)
    requires start + |body| == |text| && text[start..] == body
    requires Wrote(signed, was, 0, text, start) && Wrote(now, signed, start, body, |body|) && |text| < |was|
    ensures Wrote(now, was, 0, text + [0], |text|)
  {}

  // ----- reading numbers back -----

  function SkipSpaces(s: Text): Text {
    if s != [] && s[0] == SPACE then SkipSpaces(s[1..]) else s
  }

  /** What a character is worth as a hex digit, in either case; 16 when it is none. */
  function HexWorth(c: Char16): nat {
    if '0' as int <= c <= '9' as int then c - '0' as int
    else if 'A' as int <= c <= 'F' as int then c - ('A' as int - 10)
    else if 'a' as int <= c <= 'f' as int then c - ('a' as int - 10)
    else 16
  }

  function DecimalWorth(c: Char16): nat {
    if '0' as int <= c <= '9' as int then c - '0' as int else 10
  }

  /** The digits in front of `s`, as far as they go. */
  function Leading(s: Text, base: nat): (ds: seq<nat>)
    ensures |ds| <= |s|
  {
    var d := if s == [] then base else if base == 16 then HexWorth(s[0]) else DecimalWorth(s[0]);
    if d >= base then [] else [d] + Leading(s[1..], base)
  }

  function XtoiOf(s: Text): U64 {
    Wrap(Value(Leading(SkipSpaces(s), 16), 16))
  }

  function AtoiOf(s: Text): U64 {
    Wrap(Value(Leading(SkipSpaces(s), 10), 10))
  }

  method SkipWhite(s: Text) returns (i: nat)
    ensures i <= |s| && s[i..] == SkipSpaces(s)
  {
    i := 0;
    while At(s, i) != 0 && At(s, i) == SPACE
      invariant i <= |s| && SkipSpaces(s[i..]) == SkipSpaces(s)
      decreases |s| - i
    {
      assert s[i..][1..] == s[i + 1..];
      i := i + 1;
    }
  }

  lemma {:induction false} ValueStep(ds: seq<nat>, k: nat, base: nat)
    requires k < |ds|
    ensures Value(ds[..k + 1], base) == Value(ds[..k], base) * base + ds[k]
  {
    assert ds[..k + 1][..k] == ds[..k];
  }

  /** UINTN arithmetic. */
  function Wrap(x: nat): U64 {
    x % TWO64
  }

  /** Reducing before a multiply-and-add changes nothing after it. */
  lemma WrapStep(x: nat, base: nat, d: nat)
    ensures ((x % TWO64) * base + d) % TWO64 == (x * base + d) % TWO64
  {
    var q := x / TWO64;
    assert x * base + d == ((x % TWO64) * base + d) + TWO64 * (q * base) by {
      assert x == TWO64 * q + x % TWO64;
      assert x * base == TWO64 * q * base + (x % TWO64) * base;
    }
    ModShift((x % TWO64) * base + d, q * base);
  }

  lemma {:induction false} ModShift(a: nat, q: nat)
    ensures (a + TWO64 * q) % TWO64 == a % TWO64
  {
    if q != 0 {
      ModShift(a, q - 1);
      assert a + TWO64 * q == (a + TWO64 * (q - 1)) + TWO64;
    }
  }

  lemma Accumulate(u: nat, ds: seq<nat>, k: nat, base: nat)
    requires k < |ds| && u == Wrap(Value(ds[..k], base))
    ensures Wrap(u * base + ds[k]) == Wrap(Value(ds[..k + 1], base))
  {
    ValueStep(ds, k, base);
    WrapStep(Value(ds[..k], base), base, ds[k]);
  }

  /** `(u << 4) | d` on 64 bits: the shift leaves four zero bits for the digit. */
  lemma ShiftOr(u: nat, d: nat)
    requires d < 16
    ensures Wrap(u * 16) + d == Wrap(u * 16 + d)
  {
    var q, r := (u * 16) / TWO64, (u * 16) % TWO64;
    assert u * 16 == TWO64 * q + r;
    assert r == 16 * (u - q * (TWO64 / 16));
    DivModUnique(u * 16 + d, TWO64, q, r + d);
  }

  function Worth(c: Char16, base: nat): nat {
    if base == 16 then HexWorth(c) else DecimalWorth(c)
  }

  lemma Suffix(s: Text, i: nat)
    requires i < |s|
    ensures s[i..] != [] && s[i..][0] == s[i] && s[i..][1..] == s[i + 1..]
  {}

  lemma LeadingStep(s: Text, i: nat, base: nat)
    requires i < |s| && base >= 2
    ensures Leading(s[i..], base) ==
      if Worth(s[i], base) < base then [Worth(s[i], base)] + Leading(s[i + 1..], base) else []
  {
    Suffix(s, i);
  }

  /** Reading so far: the digits in front of `i` are worth `u`, reduced to 64 bits. */
  ghost predicate Reading(s: Text, base: nat, start: nat, i: nat, u: nat) {
    start <= i <= |s| && var ds := Leading(s[start..], base);
      i - start <= |ds| && ds[i - start..] == Leading(s[i..], base) && u == Wrap(Value(ds[..i - start], base))
  }

  lemma ReadingStart(s: Text, base: nat, start: nat)
    requires start <= |s|
    ensures Reading(s, base, start, start, 0)
  {
    var ds := Leading(s[start..], base);
    assert ds[0..] == ds;
  }

  lemma ReadingDigit(s: Text, base: nat, start: nat, i: nat, u: nat)
    requires base >= 2 && Reading(s, base, start, i, u) && i < |s| && Worth(s[i], base) < base
    ensures Reading(s, base, start, i + 1, Wrap(u * base + Worth(s[i], base)))
  {
    var ds, k, d := Leading(s[start..], base), i - start, Worth(s[i], base);
    LeadingStep(s, i, base);
    assert ds[k..] == [d] + Leading(s[i + 1..], base);
    hide Leading, Worth, Value, Wrap;
    TailStep(ds, k, d, Leading(s[i + 1..], base));
    Accumulate(u, ds, k, base);
  }

  lemma TailStep(ds: seq<nat>, k: nat, d: nat, rest: seq<nat>)
    requires k <= |ds| && ds[k..] == [d] + rest
    ensures k < |ds| && ds[k] == d && ds[k + 1..] == rest
  {
    assert ds[k..][0] == d && ds[k..][1..] == rest;
  }

  lemma ReadingDone(s: Text, base: nat, start: nat, i: nat, u: nat)
    requires base >= 2 && Reading(s, base, start, i, u) && (i < |s| ==> Worth(s[i], base) >= base)
    ensures u == Wrap(Value(Leading(s[start..], base), base))
  {
    if i < |s| {
      LeadingStep(s, i, base);
    }
    var ds := Leading(s[start..], base);
    assert ds[i - start..] == [];
    assert ds[..i - start] == ds;
  }

  lemma HexCase(c: Char16)
    ensures var up := if 'a' as int <= c <= 'f' as int then c - ('a' as int - 'A' as int) else c;
      var worth := up - (if up >= 'A' as int then 'A' as int - 10 else '0' as int);
      if '0' as int <= up <= '9' as int || 'A' as int <= up <= 'F' as int then Worth(c, 16) == worth < 16
      else Worth(c, 16) == 16
  {}

  /** What `c` is worth after its case is folded to `up`, the way xtoi takes it in. */
  lemma ReadingHex(s: Text, start: nat, i: nat, u: nat, up: nat)
    requires Reading(s, 16, start, i, u) && i < |s|
    requires up == if 'a' as int <= s[i] <= 'f' as int then s[i] - ('a' as int - 'A' as int) else s[i]
    ensures if '0' as int <= up <= '9' as int || 'A' as int <= up <= 'F' as int
      then var d := up - (if up >= 'A' as int then 'A' as int - 10 else '0' as int);
        Wrap(u * 16) + d < TWO64 && Reading(s, 16, start, i + 1, Wrap(u * 16) + d)
      else Worth(s[i], 16) >= 16
  {
    HexCase(s[i]);
    var d := Worth(s[i], 16);
    if d < 16 {
      ReadingDigit(s, 16, start, i, u);
      ShiftOr(u, d);
    }
    hide Reading, Worth;
  }

  /** Reading began behind the white space, at `start`. */
  ghost predicate Parsing(s: Text, base: nat, start: nat, i: nat, u: nat) {
    start <= i <= |s| && s[start..] == SkipSpaces(s) && Reading(s, base, start, i, u)
  }

  lemma ParsingStart(s: Text, base: nat, start: nat)
    requires start <= |s| && s[start..] == SkipSpaces(s)
    ensures Parsing(s, base, start, start, 0)
  {
    hide Leading, Value, Wrap;
    ReadingStart(s, base, start);
  }

  /** One turn of the loop of xtoi: on to the next character, or the answer. */
  lemma XtoiTurn(s: Text, start: nat, i: nat, u: nat)
    requires i <= |s| && Parsing(s, 16, start, i, u)
    ensures var c := At(s, i);
      var up := if 'a' as int <= c <= 'f' as int then c - ('a' as int - 'A' as int) else c;
      if c != 0 && ('0' as int <= up <= '9' as int || 'A' as int <= up <= 'F' as int) then
        var d := up - (if up >= 'A' as int then 'A' as int - 10 else '0' as int);
        i < |s| && Wrap(u * 16) + d < TWO64 && Parsing(s, 16, start, i + 1, Wrap(u * 16) + d)
      else u == XtoiOf(s)
  {
    hide Reading, Worth, Leading, Value, Wrap, SkipSpaces;
    var c := At(s, i);
    if c == 0 {
      ReadingDone(s, 16, start, i, u);
    } else {
      var up := if 'a' as int <= c <= 'f' as int then c - ('a' as int - 'A' as int) else c;
      ReadingHex(s, start, i, u, up);
      if !('0' as int <= up <= '9' as int || 'A' as int <= up <= 'F' as int) {
        ReadingDone(s, 16, start, i, u);
      }
    }
  }

  /** The same for Atoi. */
  lemma AtoiTurn(s: Text, start: nat, i: nat, u: nat)
    requires i <= |s| && Parsing(s, 10, start, i, u)
    ensures var c := At(s, i);
      if c != 0 && '0' as int <= c <= '9' as int then
        i < |s| && Parsing(s, 10, start, i + 1, Wrap(u * 10 + (c - '0' as int)))
      else u == AtoiOf(s)
  {
    hide Reading, Leading, Value, Wrap, SkipSpaces;
    var c := At(s, i);
    if c != 0 && '0' as int <= c <= '9' as int {
      ReadingDigit(s, 10, start, i, u);
    } else {
      ReadingDone(s, 10, start, i, u);
    }
  }

  /** xtoi: UINTN arithmetic, so only the last sixteen hex digits can matter. */
  method Xtoi(s: Text) returns (u: U64)
    ensures u == XtoiOf(s)
  {
    u := 0;
    hide *;
    var i := SkipWhite(s);
    ghost var start := i;
    ParsingStart(s, 16, start);
    while true
      invariant i <= |s| && Parsing(s, 16, start, i, u)
      decreases |s| - i
    {
      XtoiTurn(s, start, i, u);
      var c := At(s, i);
      if c == 0 {
        break;
      }
      if 'a' as int <= c <= 'f' as int {
        c := c - ('a' as int - 'A' as int);
      }
      if '0' as int <= c <= '9' as int || 'A' as int <= c <= 'F' as int {
        u := Wrap(u * 16) + (c - (if c >= 'A' as int then 'A' as int - 10 else '0' as int));
      } else {
        break;
      }
      i := i + 1;
    }
  }

  /** Atoi. */
  method Atoi(s: Text) returns (u: U64)
    ensures u == AtoiOf(s)
  {
    u := 0;
    hide *;
    var i := SkipWhite(s);
    ghost var start := i;
    ParsingStart(s, 10, start);
    while true
      invariant i <= |s| && Parsing(s, 10, start, i, u)
      decreases |s| - i
    {
      AtoiTurn(s, start, i, u);
      var c := At(s, i);
      if c != 0 && '0' as int <= c <= '9' as int {
        u := Wrap(u * 10 + (c - '0' as int));
      } else {
        break;
      }
      i := i + 1;
    }
  }

  lemma {:induction false} LeadingOfHex(ds: seq<nat>, text: Text)
    requires |text| == |ds| && forall i :: 0 <= i < |ds| ==> ds[i] < 16 && text[i] == HexChar(ds[i])
    ensures Leading(text, 16) == ds
  {
    if ds != [] {
      LeadingOfHex(ds[1..], text[1..]);
    }
  }

  lemma SingleZero(base: nat)
    requires base == 10 || base == 16
    ensures Leading([ZERO], base) == [0] && Value([0], base) == 0
  {
    assert [ZERO][1..] == [] && [0][..0] == [];
  }

  /** Text that starts with a digit is read without skipping anything. */
  lemma ReadsBack(text: Text, ds: seq<nat>, base: nat, v: U64)
    requires text != [] && text[0] != SPACE && Leading(text, base) == ds && Value(ds, base) == v
    ensures Wrap(Value(Leading(SkipSpaces(text), base), base)) == v
  {
    assert SkipSpaces(text) == text;
  }

  /** xtoi(ValueToHex(v)) == v. */
  lemma HexRoundTrip(v: U64)
    ensures XtoiOf(HexText(v)) == v
  {
    if v == 0 {
      SingleZero(16);
    } else {
      var ds, text := Digits(v, 16), HexText(v);
      LeadingOfHex(ds, text);
      ValueOfDigits(v, 16);
      assert text[0] == HexChar(ds[0]);
      hide *;
      ReadsBack(text, ds, 16, v);
      XtoiMeans(text);
    }
  }

  lemma XtoiMeans(s: Text)
    ensures XtoiOf(s) == Wrap(Value(Leading(SkipSpaces(s), 16), 16))
  {}

  lemma AtoiMeans(s: Text)
    ensures AtoiOf(s) == Wrap(Value(Leading(SkipSpaces(s), 10), 10))
  {}

  /** Digits up to something that is not a digit are read as they stand. */
  lemma {:induction false} LeadingOfDecimal(ds: seq<nat>, rest: Text)
    requires forall i :: 0 <= i < |ds| ==> ds[i] < 10
    requires rest == [] || DecimalWorth(rest[0]) == 10
    ensures Leading(Plain(ds) + rest, 10) == ds
  {
    if ds != [] {
      PlainStep(ds, 0);
      assert ds[0..] == ds;
      NoComma(ds[0]);
      hide *;
      LeadingOfDecimal(ds[1..], rest);
      LeadingCons(ds[0], Plain(ds[1..]) + rest);
      assert [DigitChar(ds[0])] + Plain(ds[1..]) + rest == [DigitChar(ds[0])] + (Plain(ds[1..]) + rest);
    }
  }

  lemma LeadingCons(d: nat, t: Text)
    requires d < 10 && DigitChar(d) != 0
    ensures Leading([DigitChar(d)] + t, 10) == [d] + Leading(t, 10)
  {
    assert ([DigitChar(d)] + t)[1..] == t;
  }

  lemma PositiveRoundTrip(v: U64)
    requires v > 0
    ensures AtoiOf(DecimalText(v, false)) == v
  {
    var ds, text := Digits(v, 10), DecimalText(v, false);
    assert text == Plain(ds) + [] && text[0] == DigitChar(ds[0]);
    LeadingOfDecimal(ds, []);
    ValueOfDigits(v, 10);
    hide *;
    ReadsBack(text, ds, 10, v);
    AtoiMeans(text);
  }

  lemma NegativeReadsZero(v: int)
    requires v < 0
    ensures AtoiOf(DecimalText(v, false)) == 0
  {
    var text := DecimalText(v, false);
    assert text[0] == MINUS;
    hide DecimalText;
    assert Leading(text, 10) == [];
  }

  /** Atoi(ValueToString(v)) == v exactly for the values that are not negative. */
  lemma DecimalRoundTrip(v: int)
    requires -(TWO64 / 2) <= v < TWO64 / 2
    ensures AtoiOf(DecimalText(v, false)) == v <==> v >= 0
  {
    if v == 0 {
      SingleZero(10);
    } else if v < 0 {
      NegativeReadsZero(v);
    } else {
      PositiveRoundTrip(v);
    }
  }

  /** With commas the text is the plain text with commas added, at every fourth place from the right
      of the digits and nowhere else, and never in front. */
  lemma CommaText(v: int)
    requires v != 0
    ensures var t := Body(v, true);
      && WithoutCommas(t) == Body(v, false)
      && CommasEveryFourth(t)
      && t != [] && t[0] != COMMA
  {
    var ds := Digits(Magnitude(v), 10);
    CommasOut(ds, 0);
    CommaPlaces(ds, 0);
    GroupedAll(ds);
    assert ds[0..] == ds;
  }

  /** A UINT64 seen as an INT64, which is how `%lu` hands it to ValueToString. */
  function AsInt64(v: U64): int {
    if v < TWO64 / 2 then v else v - TWO64
  }

  /** `%lu` prints the unsigned value exactly for values below 2^63. */
  lemma UnsignedIff(v: U64, comma: bool)
    ensures DecimalText(AsInt64(v), comma) == DecimalText(v, comma) <==> v < TWO64 / 2
  {
    if v >= TWO64 / 2 {
      BodyLength(v, comma);
      assert DecimalText(AsInt64(v), comma)[0] == MINUS;
      assert DecimalText(v, comma)[0] == DigitChar(Digits(v, 10)[0]);
    }
  }

  // ----- the texts and the readings in full -----

  lemma OneMoreDigit(v: nat, base: nat, d: nat)
    requires base >= 2 && v > 0 && d < base
    ensures Digits(v * base + d, base) == Digits(v, base) + [d]
  {
    DivModUnique(v * base + d, base, v, d);
  }

  lemma OneDigit(d: nat, base: nat)
    requires 0 < d < base && base >= 2
    ensures Digits(d, base) == [d]
  {
    DivModUnique(d, base, 0, d);
  }

  lemma PlainMore(ds: seq<nat>, d: nat)
    requires d < 10 && forall i :: 0 <= i < |ds| ==> ds[i] < 10
    ensures Plain(ds + [d]) == Plain(ds) + [48 + d]
  {}

  lemma DigitText(d: nat, comma: bool)
    requires d < 10
    ensures DecimalText(d, comma) == [48 + d]
  {
    if d > 0 {
      OneDigit(d, 10);
      hide Digits;
      assert Grouped([d], 1) == [];
    }
  }

  /** A digit is printed as itself, and one more digit is one more character at the end. */
  lemma DecimalGrows(v: nat, d: nat, comma: bool)
    requires v > 0 && d < 10
    ensures DecimalText(d, comma) == [48 + d]
    ensures DecimalText(10 * v + d, false) == DecimalText(v, false) + [48 + d]
  {
    hide *;
    DigitText(d, comma);
    OneMoreDigit(v, 10, d);
    PositiveText(v);
    PositiveText(10 * v + d);
    PlainMore(Digits(v, 10), d);
  }

  /** A negative number is its opposite behind a minus sign, with commas and without. */
  lemma NegativeText(v: int, comma: bool)
    requires v < 0
    ensures DecimalText(v, comma) == [45] + DecimalText(-v, comma)
  {
    hide Digits, Plain, Grouped;
  }

  lemma ThreeMoreDigits(v: nat, a: nat, b: nat, c: nat)
    requires v > 0 && a < 10 && b < 10 && c < 10
    ensures Digits(1000 * v + 100 * a + 10 * b + c, 10) == Digits(v, 10) + [a, b, c]
  {
    hide *;
    OneMoreDigit(v, 10, a);
    OneMoreDigit(10 * v + a, 10, b);
    OneMoreDigit(100 * v + 10 * a + b, 10, c);
    assert Digits(v, 10) + [a] + [b] + [c] == Digits(v, 10) + [a, b, c];
  }

  /** With commas, numbers below 1000 are printed as without; three more digits go behind a comma. */
  lemma CommasGrow(v: nat, a: nat, b: nat, c: nat)
    requires v > 0 && a < 10 && b < 10 && c < 10
    ensures v < 1000 ==> DecimalText(v, true) == DecimalText(v, false)
    ensures DecimalText(1000 * v + 100 * a + 10 * b + c, true) == DecimalText(v, true) + [44, 48 + a, 48 + b, 48 + c]
  {
    var ds := Digits(v, 10);
    ThreeMoreDigits(v, a, b, c);
    if v < 1000 {
      ThreeDigits(v);
      FewGrouped(ds, 0);
      assert ds[0..] == ds;
    }
    DigitsThere(v);
    hide *;
    ThreeMore(ds, a, b, c, 0);
    PositiveText(v);
    PositiveText(1000 * v + 100 * a + 10 * b + c);
  }

  lemma DigitsThere(v: nat)
    requires v > 0
    ensures Digits(v, 10) != []
  {}

  lemma PositiveText(v: nat)
    requires v > 0
    ensures DecimalText(v, true) == Grouped(Digits(v, 10), 0) && DecimalText(v, false) == Plain(Digits(v, 10))
  {
    hide Digits, Grouped, Plain;
  }

  lemma ThreeDigits(v: nat)
    requires v < 1000
    ensures |Digits(v, 10)| <= 3
  {
    assert Power(10, 3) == 1000;
    DigitCount(v, 10, 3, 1000);
  }

  lemma {:induction false} FewGrouped(ds: seq<nat>, k: nat)
    requires k <= |ds| <= 3 && forall i :: 0 <= i < |ds| ==> ds[i] < 10
    ensures Grouped(ds, k) == Plain(ds[k..])
    decreases |ds| - k
  {
    if k < |ds| {
      FewGrouped(ds, k + 1);
      PlainStep(ds, k);
    }
  }

  lemma {:induction false} ThreeMore(ds: seq<nat>, a: nat, b: nat, c: nat, k: nat)
    requires k <= |ds| && ds != [] && a < 10 && b < 10 && c < 10 && forall i :: 0 <= i < |ds| ==> ds[i] < 10
    ensures Grouped(ds + [a, b, c], k) == Grouped(ds, k) + [44, 48 + a, 48 + b, 48 + c]
    decreases |ds| - k
  {
    hide *;
    var more := ds + [a, b, c];
    if k < |ds| {
      var front := if k > 0 && (|ds| - k) % 3 == 0 then [44, 48 + ds[k]] else [48 + ds[k]];
      ThreeMore(ds, a, b, c, k + 1);
      GroupedAt(ds, k, front);
      DueThree(|ds| - k);
      GroupedAt(more, k, front);
      Reassociate(front, Grouped(ds, k + 1), [44, 48 + a, 48 + b, 48 + c]);
    } else {
      LastThree(ds, a, b, c);
      GroupedEnds(ds);
    }
  }

  lemma DueThree(n: nat)
    ensures (n + 3) % 3 == n % 3
  {}

  lemma Reassociate(s: seq<Char16>, t: seq<Char16>, u: seq<Char16>)
    ensures s + (t + u) == (s + t) + u
  {}

  lemma LastThree(ds: seq<nat>, a: nat, b: nat, c: nat)
    requires ds != [] && a < 10 && b < 10 && c < 10 && forall i :: 0 <= i < |ds| ==> ds[i] < 10
    ensures Grouped(ds + [a, b, c], |ds|) == [44, 48 + a, 48 + b, 48 + c]
  {
    hide *;
    var more, n := ds + [a, b, c], |ds|;
    assert more[n] == a && more[n + 1] == b && more[n + 2] == c;
    GroupedEnds(more);
    GroupedAt(more, n + 2, [48 + c]);
    GroupedAt(more, n + 1, [48 + b]);
    GroupedAt(more, n, [44, 48 + a]);
  }

  lemma GroupedAt(ds: seq<nat>, k: nat, front: seq<Char16>)
    requires k < |ds| && forall i :: 0 <= i < |ds| ==> ds[i] < 10
    requires front == if k > 0 && (|ds| - k) % 3 == 0 then [44, 48 + ds[k]] else [48 + ds[k]]
    ensures Grouped(ds, k) == front + Grouped(ds, k + 1)
  {}

  lemma GroupedEnds(ds: seq<nat>)
    requires forall i :: 0 <= i < |ds| ==> ds[i] < 10
    ensures Grouped(ds, |ds|) == []
  {}

  /** The same in base 16, with capital letters. */
  lemma HexGrows(v: nat, d: nat)
    requires v > 0 && d < 16
    ensures HexText(d) == [if d < 10 then 48 + d else 55 + d]
    ensures HexText(16 * v + d) == HexText(v) + [if d < 10 then 48 + d else 55 + d]
  {
    HexDigitText(d);
    OneMoreDigit(v, 16, d);
    hide Digits;
  }

  lemma HexDigitText(d: nat)
    requires d < 16
    ensures HexText(d) == [if d < 10 then 48 + d else 55 + d]
  {
    if d > 0 {
      OneDigit(d, 16);
      hide Digits;
    }
  }

  lemma {:induction false} LeadingAll(s: Text, rest: Text, base: nat)
    requires base == 10 || base == 16
    requires forall i :: 0 <= i < |s| ==> Worth(s[i], base) < base
    requires rest == [] || Worth(rest[0], base) >= base
    ensures Leading(s + rest, base) == seq(|s|, i requires 0 <= i < |s| => Worth(s[i], base))
  {
    if s != [] {
      LeadingAll(s[1..], rest, base);
      assert (s + rest)[1..] == s[1..] + rest;
    }
  }

  lemma ReadOne(s: Text, c: Char16, base: nat)
    requires (base == 10 || base == 16) && c != 0
    requires forall i :: 0 <= i < |s| ==> Worth(s[i], base) < base
    requires Worth(c, base) < base
    ensures Wrap(Value(Leading(s + [c], base), base)) ==
      Wrap(Wrap(Value(Leading(s, base), base)) * base + Worth(c, base))
  {
    hide *;
    var ds := Leading(s, base);
    LeadingMore(s, c, base);
    ValueMore(ds, Worth(c, base), base);
    WrapAgain(Value(ds, base), base, Worth(c, base));
  }

  lemma LeadingMore(s: Text, c: Char16, base: nat)
    requires (base == 10 || base == 16) && c != 0
    requires forall i :: 0 <= i < |s| ==> Worth(s[i], base) < base
    requires Worth(c, base) < base
    ensures Leading(s + [c], base) == Leading(s, base) + [Worth(c, base)]
  {
    hide Leading, Worth;
    LeadingAll(s, [], base);
    LeadingAll(s + [c], [], base);
    assert s + [] == s && (s + [c]) + [] == s + [c];
  }

  lemma ValueMore(ds: seq<nat>, d: nat, base: nat)
    ensures Value(ds + [d], base) == Value(ds, base) * base + d
  {
    assert (ds + [d])[..|ds|] == ds;
  }

  lemma WrapAgain(x: nat, base: nat, d: nat)
    ensures Wrap(Wrap(x) * base + d) == Wrap(x * base + d)
  {
    WrapStep(x, base, d);
  }

  lemma Skips(s: Text, t: Text)
    ensures s != [] && s[0] != 32 ==> SkipSpaces(s + t) == s + t
    ensures s == [] || s[0] != 32 ==> SkipSpaces(s) == s
    ensures SkipSpaces([32] + s) == SkipSpaces(s)
  {
    assert ([32] + s)[1..] == s;
  }

  lemma DecimalDigit(c: Char16)
    ensures Worth(c, 10) == if 48 <= c <= 57 then c - 48 else 10
  {}

  lemma WrapMeans(x: nat)
    ensures Wrap(x) == x % 0x1_0000_0000_0000_0000
  {}

  /** Reading digits, from `base` on, after which `rest` does not count. */
  lemma ReadGrows(s: Text, c: Char16, rest: Text, base: nat)
    requires (base == 10 || base == 16) && c != 0
    requires (forall i :: 0 <= i < |s| ==> Worth(s[i], base) < base && s[i] != 32) && Worth(c, base) < base && c != 32
    requires rest == [] || Worth(rest[0], base) >= base
    ensures Leading(SkipSpaces(s + [c]), base) == Leading(s + [c], base)
    ensures Leading(SkipSpaces(s), base) == Leading(s, base)
    ensures Wrap(Value(Leading(s + [c], base), base)) ==
      Wrap(Wrap(Value(Leading(s, base), base)) * base + Worth(c, base))
    ensures s != [] || rest == [] || rest[0] != 32 ==> Leading(SkipSpaces(s + rest), base) == Leading(s, base)
  {
    hide *;
    ReadOne(s, c, base);
    LeadingAll(s, rest, base);
    LeadingAll(s, [], base);
    assert s + [] == s && [c] + [] == [c];
    Skips(s, [c]);
    Skips(s, rest);
    if s == [] {
      assert s + [c] == [c] && s + rest == rest;
      Skips([c], []);
      Skips(rest, []);
    }
  }

  lemma NothingToRead()
    ensures AtoiOf([]) == 0 && XtoiOf([]) == 0
  {}

  /** Atoi passes over spaces in front. Another digit at the end counts ten times what stands before it and itself,
      modulo 2^64, and what follows the digits does not count. */
  lemma AtoiGrows(s: Text, c: Char16, rest: Text)
    requires (forall i :: 0 <= i < |s| ==> 48 <= s[i] <= 57) && 48 <= c <= 57
    requires rest == [] || !(48 <= rest[0] <= 57)
    ensures AtoiOf([]) == 0 && AtoiOf([32] + rest) == AtoiOf(rest) && AtoiOf([32] + s) == AtoiOf(s)
    ensures AtoiOf(s + [c]) == (10 * AtoiOf(s) + (c - 48)) % 0x1_0000_0000_0000_0000
    ensures s != [] || rest == [] || rest[0] != 32 ==> AtoiOf(s + rest) == AtoiOf(s)
  {
    hide *;
    forall k: Char16
      ensures Worth(k, 10) == if 48 <= k <= 57 then k - 48 else 10
    {
      DecimalDigit(k);
    }
    NothingToRead();
    Skips(s, []);
    Skips(rest, []);
    ReadGrows(s, c, rest, 10);
    AtoiMeans(s);
    AtoiMeans(rest);
    AtoiMeans([32] + s);
    AtoiMeans([32] + rest);
    AtoiMeans(s + [c]);
    AtoiMeans(s + rest);
    WrapMeans(AtoiOf(s) * 10 + (c - 48));
  }

  function HexDigit(c: Char16): int {
    if 48 <= c <= 57 then c - 48 else if 65 <= c <= 70 then c - 55 else if 97 <= c <= 102 then c - 87 else -1
  }

  /** The same for xtoi, whose digits go on with the letters from A to F, capital or not. */
  lemma XtoiGrows(s: Text, c: Char16, rest: Text)
    requires (forall i :: 0 <= i < |s| ==> HexDigit(s[i]) >= 0) && HexDigit(c) >= 0
    requires rest == [] || HexDigit(rest[0]) < 0
    ensures XtoiOf([]) == 0 && XtoiOf([32] + rest) == XtoiOf(rest) && XtoiOf([32] + s) == XtoiOf(s)
    ensures XtoiOf(s + [c]) == (16 * XtoiOf(s) + HexDigit(c)) % 0x1_0000_0000_0000_0000
    ensures s != [] || rest == [] || rest[0] != 32 ==> XtoiOf(s + rest) == XtoiOf(s)
  {
    HexDigits();
    hide *;
    NothingToRead();
    Skips(s, []);
    Skips(rest, []);
    ReadGrows(s, c, rest, 16);
    XtoiMeans(s);
    XtoiMeans(rest);
    XtoiMeans([32] + s);
    XtoiMeans([32] + rest);
    XtoiMeans(s + [c]);
    XtoiMeans(s + rest);
    WrapMeans(XtoiOf(s) * 16 + HexDigit(c));
  }

  lemma HexDigits()
    ensures forall c :: Worth(c, 16) == if HexDigit(c) < 0 then 16 else HexDigit(c)
    ensures HexDigit(0) < 0 && HexDigit(32) < 0 && forall c :: HexDigit(c) < 16
  {}
}
