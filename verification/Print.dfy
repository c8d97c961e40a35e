/** Formatted output of gnu-efi/lib/print.c below the format string: the staging buffer that collects
    characters (PPUTC, PFLUSH, PITEM) and the two sinks it is flushed to (_SPrint, _PoolPrint).
 */
module Print {
  import opened Strings
  import opened Options

  const PRINT_STRING_LEN := 200
  const LF: Char16 := 10
  const CR: Char16 := 13
  const BLANK: Char16 := ' ' as int

  /** UINTN arithmetic on 64 bits. */
  const NO_LIMIT := 0xFFFF_FFFF_FFFF_FFFF

  /** What a run of characters becomes on its way through PPUTC. */
  function Crlf(cs: Text): Text {
    if cs == [] then [] else Crlf(cs[..|cs| - 1]) + Expand(cs[|cs| - 1])
  }

  function Expand(c: Char16): (s: seq<Char16>)
    ensures c != 0 ==> 0 !in s
  {
    if c == LF then [CR, LF] else [c]
  }

  function Min(a: nat, b: nat): nat {
    if a <= b then a else b
  }

  // ----- the sinks -----

  /** `now` is `was` with `text` at `start`. */
  ghost predicate Overwritten(now: seq<Char16>, was: seq<Char16>, start: nat, text: seq<Char16>) {
    && |now| == |was| && start + |text| <= |was|
    && (forall k :: 0 <= k < |text| ==> now[start + k] == text[k])
    && (forall k :: 0 <= k < start || start + |text| <= k < |was| ==> now[k] == was[k])
  }

  /** CopyMem of characters. */
  method CopyChars(dst: array<Char16>, at: nat, text: seq<Char16>)
    requires at + |text| <= dst.Length
    modifies dst
    ensures Overwritten(dst[..], old(dst[..]), at, text)
  {
    for i := 0 to |text|
      invariant Overwritten(dst[..], old(dst[..]), at, text[..i])
    {
      dst[at + i] := text[i];
    }
  }

  lemma OverwrittenPrefix(now: seq<Char16>, was: seq<Char16>, start: nat, text: seq<Char16>)
    requires Overwritten(now, was, start, text)
    ensures now[..start + |text|] == was[..start] + text
  {}

  /** POOL_PRINT: a text under construction in a caller's buffer or in a pool block. */
  class PoolPrint {
    var str: array?<Char16>
    var len: nat
    var maxlen: nat
    /** How often the pool has had no room. */
    ghost var failures: nat
    /** The pool blocks allocated for the text and not yet freed. */
    ghost var live: set<array<Char16>>

    constructor (str: array?<Char16>, maxlen: nat)
      ensures this.str == str && this.maxlen == maxlen && len == 0 && failures == 0 && live == {}
    {
      this.str, this.maxlen, len, failures, live := str, maxlen, 0, 0, {};
    }

    ghost predicate Sound()
      reads this
    {
      len <= maxlen && (str == null ==> maxlen == 0) && (str != null ==> len <= str.Length)
    }

    ghost function Contents(): seq<Char16>
      reads this, str
      requires Sound()
    {
      if str == null then [] else str[..len]
    }

    /** A pool text is NUL-terminated inside its block, the only one it has; a zeroed POOL_PRINT has none. */
    ghost predicate Pooled()
      reads this, str
    {
      && Sound() && live == (if str == null then {} else {str})
      && (str != null ==> str.Length == maxlen && len < maxlen && str[len] == 0)
    }

    lemma PooledMeans()
      requires Pooled()
      ensures Sound()
      ensures if str == null then live == {} && Contents() == []
              else live == {str} && len < str.Length && str[len] == 0 && Contents() == str[..len]
    {}

    /** _SPrint: append as much of the chunk as `maxlen` allows, and terminate. */
    method SPrint(chunk: Text)
      requires Sound() && (maxlen > 0 ==> Min(len + |chunk|, maxlen) < str.Length)
      modifies this`len, str
      ensures Sound() && len == Min(old(len) + |chunk|, maxlen)
      ensures Contents() == old(Contents()) + chunk[..len - old(len)]
      ensures maxlen > 0 ==> str[len] == 0
      ensures str != null ==>
        forall i :: (if maxlen > 0 then len + 1 else len) <= i < str.Length ==> str[i] == old(str[i])
    {
      var n := |chunk|;
      if len + n > maxlen {
        n := maxlen - len;
      }
      if str != null {
        CopyChars(str, len, chunk[..n]);
        OverwrittenPrefix(str[..], old(str[..]), len, chunk[..n]);
      }
      len := len + n;
      if len < maxlen {
        str[len] := 0;
      } else if maxlen != 0 {
        str[maxlen] := 0;
      }
    }

    /** ReallocatePool of the text so far: a new block, if the pool has room, and in any case the old one is
        freed. */
    method Grow(newlen: nat)
      requires Pooled() && newlen > len
      modifies this
      ensures str == null ==> len == 0 && maxlen == 0 && failures == old(failures) + 1 && live == {}
      ensures str != null ==>
        && fresh(str) && str.Length == maxlen == newlen && len == old(len) && failures == old(failures)
        && live == {str} && Sound() && Contents() == old(Contents())
    {
      maxlen := newlen;
      var room: bool := *;
      var block: array?<Char16> := null;
      if room {
        block := new Char16[newlen](_ => 0);
        live := live + {block};
      }
      if str != null {
        if block != null {
          CopyChars(block, 0, str[..len]);
          assert block[..len] == old(Contents());
        }
        live := live - {str};
      }
      str := block;
      if str == null {
        failures := failures + 1;
        len, maxlen := 0, 0;
      }
    }

    /** _PoolPrint: grow the block when the chunk and its terminator do not fit, then append. When the
        pool has no room the text so far and the chunk are lost. */
    method PoolAppend(chunk: Text)
      requires Pooled()
      modifies this, str
      ensures Pooled()
      ensures str == old(str) || str == null || fresh(str)
      ensures if str == null then len == 0 && failures == old(failures) + 1
              else failures == old(failures) && Contents() == old(Contents()) + chunk
    {
      var newlen := len + |chunk| + 1;
      if newlen > maxlen {
        Grow(newlen + PRINT_STRING_LEN);
      }
      SPrint(chunk);
    }
  }

  function Repeat(c: Char16, count: nat): (s: seq<Char16>)
    ensures |s| == count && (c != 0 ==> 0 !in s)
  {
    seq(count, _ => c)
  }

  // ----- items -----

  /** PRINT_ITEM as PITEM finds it; a FieldWidth of (UINTN)-1 is None. */
  datatype Item = Item(text: Text, width: nat, fieldWidth: Option<nat>, pad: Char16, padBefore: bool)

  predicate PadIsPlain(it: Item) {
    it.pad != 0 && it.pad != LF
  }

  /** The item's length once the field width has cut it. */
  function ItemLength(it: Item): (n: nat)
    ensures n <= |it.text|
  {
    if it.fieldWidth.Some? then Min(|it.text|, it.fieldWidth.value) else |it.text|
  }

  function PaddedWidth(it: Item): (w: nat)
    ensures ItemLength(it) <= w
  {
    if ItemLength(it) > it.width then ItemLength(it) else it.width
  }

  lemma NoLineFeed(it: Item)
    requires PadIsPlain(it)
    ensures it.pad != 0 && it.pad != LF && BLANK != 0 && BLANK != LF
  {}

  /** The blanks that fill the field up. */
  function Fill(it: Item): nat {
    if it.fieldWidth.Some? && it.fieldWidth.value > PaddedWidth(it) then it.fieldWidth.value - PaddedWidth(it) else 0
  }

  /** What PITEM prints. */
  function Field(it: Item): Text
    requires PadIsPlain(it)
  {
    var blanks: Text := Repeat(BLANK, Fill(it));
    var item: Text := Repeat(it.pad, PaddedWidth(it) - ItemLength(it)) + it.text[..ItemLength(it)];
    if it.padBefore then blanks + item else item + blanks
  }

  /** The field is blanks, padding, the item and blanks, blanks on the side asked for only. The item is cut to the field
      width, padded to its width and filled up with blanks to the field width, so the field is as wide as the larger of
      the two widths, or as the item when that is wider and uncut. */
  lemma FieldShape(it: Item)
    requires PadIsPlain(it)
    ensures var n := if it.fieldWidth.Some? && it.fieldWidth.value < |it.text| then it.fieldWidth.value else |it.text|;
      var w := if n > it.width then n else it.width;
      var fill := if it.fieldWidth.Some? && it.fieldWidth.value > w then it.fieldWidth.value - w else 0;
      var item := seq(w - n, _ => it.pad) + it.text[..n];
      && Field(it) == (if it.padBefore then seq(fill, _ => 32) + item else item + seq(fill, _ => 32))
      && |Field(it)| == Max(Max(it.width, n), if it.fieldWidth.Some? then it.fieldWidth.value else 0)
  {
    FieldWidth(it);
    assert Repeat(BLANK, Fill(it)) == seq(Fill(it), _ => 32);
    assert Repeat(it.pad, PaddedWidth(it) - ItemLength(it)) == seq(PaddedWidth(it) - ItemLength(it), _ => it.pad);
  }

  lemma FieldWidth(it: Item)
    ensures PaddedWidth(it) + Fill(it) ==
      Max(Max(it.width, ItemLength(it)), if it.fieldWidth.Some? then it.fieldWidth.value else 0)
    ensures PaddedWidth(it) >= ItemLength(it)
  {}

  function Max(a: nat, b: nat): nat {
    if a >= b then a else b
  }

  /** What a format string comes down to: plain characters, formatted items, and attribute changes, which
      print nothing but flush what is staged. */
  datatype Piece = Plain(c: Char16) | Formatted(item: Item) | Attribute

  predicate Printable(ps: seq<Piece>) {
    forall i :: 0 <= i < |ps| ==>
      match ps[i] case Plain(c) => c != 0 case Formatted(it) => PadIsPlain(it) case Attribute => true
  }

  function Rendered(p: Piece): Text
    requires Printable([p])
  {
    assert [p][0] == p;
    match p case Plain(c) => [c] case Formatted(it) => Field(it) case Attribute => []
  }

  function Render(ps: seq<Piece>): Text
    requires Printable(ps)
  {
    if ps == [] then [] else
      assert forall i :: 0 <= i < |ps| - 1 ==> ps[..|ps| - 1][i] == ps[i];
      Render(ps[..|ps| - 1]) + Rendered(ps[|ps| - 1])
  }

  /** The characters that reach the sink. */
  function Shown(ps: seq<Piece>): Text
    requires Printable(ps)
  {
    Crlf(Render(ps))
  }

  /** What one more piece shows: a line feed a CR in front of it, another character itself, an item its field, with a
      CR in front of each line feed, and an attribute change nothing. */
  lemma ShownMeans(ps: seq<Piece>, c: Char16, it: Item)
    requires Printable(ps) && c != 0 && PadIsPlain(it)
    ensures Printable([]) && Shown([]) == []
    ensures Printable(ps + [Plain(c)]) && Shown(ps + [Plain(c)]) == Shown(ps) + if c == 10 then [13, 10] else [c]
    ensures Printable(ps + [Formatted(it)]) && Shown(ps + [Formatted(it)]) == Shown(ps) + Crlf(Field(it))
    ensures Printable(ps + [Attribute]) && Shown(ps + [Attribute]) == Shown(ps)
  {
    CrlfOne(c);
    hide Crlf, Render, Field;
    ShownMore(ps, Plain(c));
    ShownMore(ps, Formatted(it));
    ShownMore(ps, Attribute);
    CrlfNone([]);
    NothingShown([]);
  }

  lemma ShownMore(ps: seq<Piece>, p: Piece)
    requires Printable(ps) && Printable([p])
    ensures Printable(ps + [p]) && Shown(ps + [p]) == Shown(ps) + Crlf(Rendered(p))
  {
    var all := ps + [p];
    assert [p][0] == p && all[|ps|] == p && all[..|ps|] == ps && all[..|ps| + 1] == all;
    assert Printable(all);
    hide *;
    RenderStep(all, |ps|);
  }

  lemma {:induction false} CrlfConcat(u: Text, v: Text)
    ensures Crlf(u + v) == Crlf(u) + Crlf(v)
  {
    if v == [] {
      assert u + v == u;
    } else {
      var n := |v| - 1;
      CrlfConcat(u, v[..n]);
      LastOfConcat(u, v);
      hide Expand;
      Regroup2(Crlf(u), Crlf(v[..n]), Expand(v[n]));
    }
  }

  /** The text with the CR in front of each LF taken out. */
  function Uncrlf(t: seq<Char16>): seq<Char16> {
    if t == [] then []
    else if |t| >= 2 && t[|t| - 1] == LF && t[|t| - 2] == CR then Uncrlf(t[..|t| - 2]) + [LF]
    else Uncrlf(t[..|t| - 1]) + [t[|t| - 1]]
  }

  lemma UncrlfBehind(t: seq<Char16>, c: Char16)
    ensures Uncrlf(t + Expand(c)) == Uncrlf(t) + [c]
  {
    var u := t + Expand(c);
    if c == LF {
      assert u[..|u| - 2] == t;
    } else {
      assert u[..|u| - 1] == t;
    }
  }

  /** Taking them out again gives the characters that went in: nothing is lost, doubled or reordered. */
  lemma {:induction false} CrlfUndone(cs: Text)
    ensures Uncrlf(Crlf(cs)) == cs
  {
    if cs != [] {
      var n := |cs| - 1;
      assert Crlf(cs) == Crlf(cs[..n]) + Expand(cs[n]) && cs == cs[..n] + [cs[n]];
      hide Crlf, Uncrlf, Expand;
      CrlfUndone(cs[..n]);
      UncrlfBehind(Crlf(cs[..n]), cs[n]);
    }
  }

  /** Every LF that comes out has a CR in front. */
  lemma {:induction false} EveryLfHasCr(cs: Text, i: nat)
    requires i < |Crlf(cs)| && Crlf(cs)[i] == LF
    ensures i > 0 && Crlf(cs)[i - 1] == CR
  {
    var front := Crlf(cs[..|cs| - 1]);
    if i < |front| {
      EveryLfHasCr(cs[..|cs| - 1], i);
    }
  }

  lemma LastOfConcat(u: Text, v: Text)
    requires v != []
    ensures Crlf(u + v) == Crlf(u + v[..|v| - 1]) + Expand(v[|v| - 1])
  {
    assert (u + v)[..|u| + |v| - 1] == u + v[..|v| - 1];
  }

  lemma Regroup2(a: seq<Char16>, b: seq<Char16>, c: seq<Char16>)
    ensures a + (b + c) == a + b + c
  {}

  lemma {:induction false} CrlfRepeat(c: Char16, count: nat)
    requires c != 0 && c != LF
    ensures Crlf(Repeat(c, count)) == Repeat(c, count)
  {
    if count != 0 {
      CrlfRepeat(c, count - 1);
      assert Repeat(c, count)[..count - 1] == Repeat(c, count - 1);
    }
  }

  lemma CrlfOfThree(a: Text, b: Text, c: Text)
    ensures Crlf(a + (b + c)) == Crlf(a) + Crlf(b) + Crlf(c) && Crlf((a + b) + c) == Crlf(a) + Crlf(b) + Crlf(c)
  {
    hide *;
    CrlfConcat(a, b + c);
    CrlfConcat(b, c);
    CrlfConcat(a + b, c);
    CrlfConcat(a, b);
    Regroup2(Crlf(a), Crlf(b), Crlf(c));
  }

  lemma FieldIs(it: Item)
    requires PadIsPlain(it)
    ensures var blanks, pads := Repeat(BLANK, Fill(it)), Repeat(it.pad, PaddedWidth(it) - ItemLength(it));
      Field(it) == if it.padBefore then blanks + (pads + it.text[..ItemLength(it)])
                   else (pads + it.text[..ItemLength(it)]) + blanks
  {}

  lemma FieldCrlf(it: Item)
    requires PadIsPlain(it)
    ensures var blanks, pads := Repeat(BLANK, Fill(it)), Repeat(it.pad, PaddedWidth(it) - ItemLength(it));
      Crlf(Field(it)) == if it.padBefore then blanks + pads + Crlf(it.text[..ItemLength(it)])
                         else pads + Crlf(it.text[..ItemLength(it)]) + blanks
  {
    var blanks: Text, pads: Text := Repeat(BLANK, Fill(it)), Repeat(it.pad, PaddedWidth(it) - ItemLength(it));
    CrlfRepeat(BLANK, Fill(it));
    CrlfRepeat(it.pad, PaddedWidth(it) - ItemLength(it));
    FieldIs(it);
    hide *;
    if it.padBefore {
      CrlfOfThree(blanks, pads, it.text[..ItemLength(it)]);
    } else {
      CrlfOfThree(pads, it.text[..ItemLength(it)], blanks);
    }
  }

  lemma NothingShown(ps: seq<Piece>)
    ensures Printable(ps[..0]) && Shown(ps[..0]) == []
  {}

  lemma RenderStep(ps: seq<Piece>, i: nat)
    requires Printable(ps) && i < |ps|
    ensures Printable(ps[..i]) && Printable([ps[i]]) && Printable(ps[..i + 1])
    ensures Shown(ps[..i + 1]) == Shown(ps[..i]) + Crlf(Rendered(ps[i]))
  {
    assert ps[..i + 1][..i] == ps[..i];
    hide Crlf, Rendered;
    CrlfConcat(Render(ps[..i]), Rendered(ps[i]));
  }

  lemma PrintablePrefix(ps: seq<Piece>, i: nat)
    requires Printable(ps) && i <= |ps|
    ensures Printable(ps[..i])
  {}

  lemma {:induction false} ShownGrows(ps: seq<Piece>, i: nat, k: nat)
    requires Printable(ps) && i <= k <= |ps|
    ensures Printable(ps[..i]) && Printable(ps[..k]) && |Shown(ps[..i])| <= |Shown(ps[..k])|
    decreases k
  {
    hide *;
    PrintablePrefix(ps, i);
    PrintablePrefix(ps, k);
    if i < k {
      ShownGrows(ps, i, k - 1);
      RenderStep(ps, k - 1);
    }
  }

  /** The first half of PITEM: the item's length, and how far it is padded and filled. */
  method Measure(it: Item) returns (len: nat, width: nat, fill: nat)
    ensures len == ItemLength(it) && width == PaddedWidth(it) && fill == Fill(it)
  {
    len := 0;
    while (it.fieldWidth.None? || len < it.fieldWidth.value) && At(it.text, len) != 0
      invariant len <= ItemLength(it)
      decreases |it.text| - len
    {
      len := len + 1;
    }
    var fieldWidth := if it.fieldWidth.None? then len else it.fieldWidth.value;
    width := if len > it.width then len else it.width;
    fill := if width < fieldWidth then fieldWidth - width else 0;
  }

  // ----- the staging buffer -----

  lemma CrlfStep(s: Text, i: nat)
    requires i < |s|
    ensures Crlf(s[..i + 1]) == Crlf(s[..i]) + Expand(s[i]) && |Crlf(s[..i + 1])| <= |Crlf(s)|
    decreases |s| - i
  {
    assert s[..i + 1][..i] == s[..i];
    if i + 1 == |s| {
      assert s[..i + 1] == s;
    } else {
      CrlfStep(s, i + 1);
    }
  }

  lemma Regroup(out: seq<Char16>, a: seq<Char16>, b: seq<Char16>, c: seq<Char16>)
    ensures out + (a + b + c) == out + a + b + c
  {}

  lemma CrlfNone(s: Text)
    ensures Crlf(s[..0]) == []
  {}

  lemma CrlfOne(c: Char16)
    requires c != 0
    ensures Crlf([c]) == Expand(c) == if c == 10 then [13, 10] else [c]
  {
    assert [c][..0] == [];
  }

  ghost predicate IsSuffix(s: seq<Char16>, all: seq<Char16>) {
    |s| <= |all| && s == all[|all| - |s|..]
  }

  /** What the sink is due to hold after `sent` characters, from `start`. */
  ghost predicate Delivered(contents: seq<Char16>, growing: bool, maxlen: nat, failed: bool,
                            start: seq<Char16>, sent: seq<Char16>) {
    var all := start + sent;
    if !growing then contents == all[..Min(|all|, maxlen)]
    else if !failed then contents == all
    else |contents| <= |all| && contents == all[|all| - |contents|..]
  }

  lemma DeliveredLimited(contents: seq<Char16>, maxlen: nat, failed: bool, start: seq<Char16>, sent: seq<Char16>,
                         chunk: seq<Char16>, n: nat)
    requires Delivered(contents, false, maxlen, failed, start, sent)
    requires n == Min(|contents| + |chunk|, maxlen) && |contents| <= n
    ensures Delivered(contents + chunk[..n - |contents|], false, maxlen, failed, start, sent + chunk)
  {
    assert start + (sent + chunk) == (start + sent) + chunk;
  }

  lemma DeliveredPooled(contents: seq<Char16>, now: seq<Char16>, maxlen: nat, maxlen': nat, failed: bool, failed': bool,
                        start: seq<Char16>, sent: seq<Char16>, chunk: seq<Char16>)
    requires Delivered(contents, true, maxlen, failed, start, sent)
    requires (now == contents + chunk && failed' == failed) || (now == [] && failed')
    ensures Delivered(now, true, maxlen', failed', start, sent + chunk)
  {
    assert start + (sent + chunk) == (start + sent) + chunk;
  }

  lemma DeliveredLength(contents: seq<Char16>, maxlen: nat, failed: bool, start: seq<Char16>, sent: seq<Char16>)
    requires Delivered(contents, false, maxlen, failed, start, sent)
    ensures |contents| <= |start| + |sent| && |contents| <= maxlen
  {}

  lemma DeliveredToPool(contents: seq<Char16>, maxlen: nat, failed: bool, start: seq<Char16>, sent: seq<Char16>)
    requires Delivered(contents, true, maxlen, failed, start, sent)
    ensures IsSuffix(contents, start + sent) && (!failed ==> contents == start + sent)
  {}

  /** Behind the text and its terminator a caller's buffer is as it was. */
  ghost predicate BeyondKept(now: seq<Char16>, len: nat, maxlen: nat, was: seq<Char16>) {
    |now| == |was| && forall i :: (if maxlen > 0 then len + 1 else len) <= i < |now| ==> now[i] == was[i]
  }

  /** PRINT_STATE: `buffer` stages characters until the end of it is reached; `growing` says which of the
      two sinks is the Output function. */
  class PrintState {
    const buffer: array<Char16>
    var pos: nat
    var Len: nat
    const growing: bool
    const spc: PoolPrint
    /** The sink's text and failure count when the run began, what has been flushed to it since, and the
        most it will ever be sent. */
    ghost const start: seq<Char16>
    ghost const failures0: nat
    ghost var sent: Text
    ghost const planned: nat
    ghost const memory: seq<Char16>

    ghost function Output(): seq<Char16>
      reads this, buffer
    {
      if pos <= buffer.Length then sent + buffer[..pos] else sent
    }

    ghost predicate SinkReady()
      reads spc, spc.str
    {
      if growing then spc.Pooled()
      else
        && spc.Sound() && (spc.maxlen > 0 ==> Min(planned, spc.maxlen) < spc.str.Length)
        && (spc.str != null ==> BeyondKept(spc.str[..], spc.len, spc.maxlen, memory))
    }

    ghost predicate Valid()
      reads this, buffer, spc, spc.str
    {
      && buffer.Length == PRINT_STRING_LEN && pos < PRINT_STRING_LEN && 0 !in buffer[..pos]
      && spc.str != buffer && SinkReady()
      && |start| + |sent| + pos <= planned
      && failures0 <= spc.failures
      && Delivered(spc.Contents(), growing, spc.maxlen, spc.failures > failures0, start, sent)
    }

    constructor (spc: PoolPrint, growing: bool, ghost out: nat)
      requires if growing then spc.Pooled()
               else spc.Sound() && (spc.maxlen > 0 ==> Min(|spc.Contents()| + out, spc.maxlen) < spc.str.Length)
      ensures Valid() && fresh(this) && fresh(buffer) && this.spc == spc && this.growing == growing
      ensures Output() == [] && Len == 0 && start == spc.Contents() && failures0 == spc.failures
      ensures planned == |spc.Contents()| + out && Ready()
      ensures spc.str != null ==> memory == spc.str[..]
    {
      buffer := new Char16[PRINT_STRING_LEN](_ => 0);
      pos, Len := 0, 0;
      this.growing, this.spc := growing, spc;
      start, failures0, sent := spc.Contents(), spc.failures, [];
      memory := if spc.str == null then [] else spc.str[..];
      planned := |spc.Contents()| + out;
    }

    /** The Output call of PFLUSH. */
    method Deliver(chunk: Text)
      requires Valid() && chunk == buffer[..pos]
      modifies spc, spc.str
      ensures SinkReady() && failures0 <= spc.failures && spc.str != buffer
      ensures Delivered(spc.Contents(), growing, spc.maxlen, spc.failures > failures0, start, sent + chunk)
      ensures spc.str == old(spc.str) || spc.str == null || fresh(spc.str)
      ensures !growing ==>
        spc.str == old(spc.str) && spc.maxlen == old(spc.maxlen) && spc.failures == old(spc.failures)
      ensures !growing && spc.maxlen > 0 ==> spc.str[spc.len] == 0
      ensures growing && spc.str == null ==> spc.failures > failures0
    {
      hide Delivered, IsSuffix;
      ghost var was, failed, maxlen := spc.Contents(), spc.failures > failures0, spc.maxlen;
      if growing {
        spc.PoolAppend(chunk);
        DeliveredPooled(was, spc.Contents(), maxlen, spc.maxlen, failed, spc.failures > failures0, start, sent, chunk);
      } else {
        DeliveredLength(was, maxlen, failed, start, sent);
        spc.SPrint(chunk);
        DeliveredLimited(was, maxlen, failed, start, sent, chunk, spc.len);
      }
    }

    /** PFLUSH: terminate what is staged and hand it to the sink as one string. */
    method Flush()
      requires Valid()
      modifies this`pos, this`sent, buffer, spc, spc.str
      ensures Valid() && pos == 0 && Output() == old(Output())
      ensures spc.str == old(spc.str) || spc.str == null || fresh(spc.str)
      ensures !growing ==>
        spc.str == old(spc.str) && spc.maxlen == old(spc.maxlen) && spc.failures == old(spc.failures)
      ensures !growing && spc.maxlen > 0 ==> spc.str[spc.len] == 0
      ensures growing && spc.str == null ==> spc.failures > failures0
    {
      var chunk := Terminate();
      hide Delivered, SinkReady, IsSuffix, BeyondKept;
      Deliver(chunk);
      pos := 0;
      sent := sent + chunk;
      assert buffer[..pos] == [];
    }

    /** `*ps->Pos = 0`: the staged characters have become a string. */
    method Terminate() returns (chunk: Text)
      requires Valid()
      modifies buffer
      ensures Valid() && Output() == old(Output()) && chunk == buffer[..pos] && buffer[pos] == 0
    {
      hide Delivered;
      buffer[pos] := 0;
      assert buffer[..pos] == old(buffer[..pos]);
      chunk := buffer[..pos];
    }

    /** PPUTC: a newline gets a carriage return in front; a full buffer is flushed. */
    method PutChar(c: Char16)
      requires Ready() && c != 0
      requires |start| + |Output()| + |Expand(c)| <= planned
      modifies this`pos, this`Len, this`sent, buffer, spc, spc.str
      ensures Ready()
      ensures Output() == old(Output()) + Expand(c) && Len == old(Len) + |Expand(c)|
      ensures spc.str == old(spc.str) || spc.str == null || fresh(spc.str)
      ensures !growing ==>
        spc.str == old(spc.str) && spc.maxlen == old(spc.maxlen) && spc.failures == old(spc.failures)
      decreases if c == LF then 1 else 0
    {
      hide Delivered;
      if c == LF {
        PutChar(CR);
      }
      Stage(c);
      if pos >= PRINT_STRING_LEN - 1 {
        Flush();
      }
    }

    /** `*ps->Pos = c; ps->Pos += 1; ps->Len += 1` */
    method Stage(c: Char16)
      requires Valid() && pos + 1 < PRINT_STRING_LEN && c != 0 && |start| + |Output()| < planned
      modifies this`pos, this`Len, buffer
      ensures Valid() && Output() == old(Output()) + [c] && Len == old(Len) + 1 && pos == old(pos) + 1
    {
      hide Delivered;
      buffer[pos] := c;
      pos := pos + 1;
      Len := Len + 1;
      assert buffer[..pos] == old(buffer[..pos]) + [c];
    }

    /** Ready for another character. */
    ghost predicate Ready()
      reads this, buffer, spc, spc.str
    {
      Valid() && pos + 1 < PRINT_STRING_LEN
    }

    /** A loop of PPUTC calls on the same character. */
    method PutMany(c: Char16, count: nat)
      requires Ready() && c != 0 && c != LF && |start| + |Output()| + count <= planned
      modifies this`pos, this`Len, this`sent, buffer, spc, spc.str
      ensures Ready() && Output() == old(Output()) + Repeat(c, count) && Len == old(Len) + count
      ensures spc.str == old(spc.str) || spc.str == null || fresh(spc.str)
      ensures !growing ==>
        spc.str == old(spc.str) && spc.maxlen == old(spc.maxlen) && spc.failures == old(spc.failures)
    {
      hide Delivered, SinkReady;
      for i := 0 to count
        invariant Ready() && Output() == old(Output()) + Repeat(c, i) && Len == old(Len) + i
        invariant spc.str == old(spc.str) || spc.str == null || fresh(spc.str)
        invariant !growing ==>
          spc.str == old(spc.str) && spc.maxlen == old(spc.maxlen) && spc.failures == old(spc.failures)
      {
        PutChar(c);
        assert Repeat(c, i + 1) == Repeat(c, i) + [c];
      }
    }

    /** A loop of PPUTC calls along a string. */
    method PutText(s: Text)
      requires Ready() && |start| + |Output()| + |Crlf(s)| <= planned
      modifies this`pos, this`Len, this`sent, buffer, spc, spc.str
      ensures Ready() && Output() == old(Output()) + Crlf(s) && Len == old(Len) + |Crlf(s)|
      ensures spc.str == old(spc.str) || spc.str == null || fresh(spc.str)
      ensures !growing ==>
        spc.str == old(spc.str) && spc.maxlen == old(spc.maxlen) && spc.failures == old(spc.failures)
    {
      hide *;
      CrlfNone(s);
      assert s[..|s|] == s;
      for i := 0 to |s|
        invariant Ready() && Output() == old(Output()) + Crlf(s[..i]) && Len == old(Len) + |Crlf(s[..i])|
        invariant spc.str == old(spc.str) || spc.str == null || fresh(spc.str)
        invariant !growing ==>
          spc.str == old(spc.str) && spc.maxlen == old(spc.maxlen) && spc.failures == old(spc.failures)
      {
        CrlfStep(s, i);
        PutChar(s[i]);
      }
    }

    /** PITEM. */
    method PutItem(it: Item)
      requires Ready() && PadIsPlain(it) && |start| + |Output()| + |Crlf(Field(it))| <= planned
      modifies this`pos, this`Len, this`sent, buffer, spc, spc.str
      ensures Ready() && Output() == old(Output()) + Crlf(Field(it)) && Len == old(Len) + |Crlf(Field(it))|
      ensures spc.str == old(spc.str) || spc.str == null || fresh(spc.str)
      ensures !growing ==>
        spc.str == old(spc.str) && spc.maxlen == old(spc.maxlen) && spc.failures == old(spc.failures)
    {
      hide *;
      FieldCrlf(it);
      NoLineFeed(it);
      var len, width, fill := Measure(it);
      ghost var out, body := Output(), Crlf(it.text[..len]);
      ghost var blanks, pads := Repeat(BLANK, fill), Repeat(it.pad, width - len);
      if it.padBefore {
        Regroup(out, blanks, pads, body);
        PutMany(BLANK, fill);
      } else {
        Regroup(out, pads, body, blanks);
      }
      PutMany(it.pad, width - len);
      PutText(it.text[..len]);
      if !it.padBefore {
        PutMany(BLANK, fill);
      }
    }

    lemma ReadyIsValid()
      requires Ready()
      ensures Valid()
    {}

    lemma FlushedIsReady()
      requires Valid() && pos == 0
      ensures Ready()
    {}

    method PutPiece(p: Piece)
      requires Ready() && Printable([p]) && |start| + |Output()| + |Crlf(Rendered(p))| <= planned
      modifies this`pos, this`Len, this`sent, buffer, spc, spc.str
      ensures Ready() && Output() == old(Output()) + Crlf(Rendered(p)) && Len == old(Len) + |Crlf(Rendered(p))|
      ensures spc.str == old(spc.str) || spc.str == null || fresh(spc.str)
      ensures !growing ==>
        spc.str == old(spc.str) && spc.maxlen == old(spc.maxlen) && spc.failures == old(spc.failures)
    {
      assert [p][0] == p;
      hide Delivered, SinkReady, Crlf, Field;
      match p {
        case Plain(c) =>
          CrlfOne(c);
          PutChar(c);
        case Formatted(it) =>
          PutItem(it);
        case Attribute =>
          Flush();
          FlushedIsReady();
      }
    }

    /** Everything staged has gone to the pool. */
    lemma PoolHasIt()
      requires Valid() && growing && pos == 0
      ensures spc.Pooled() && spc.failures >= failures0 && IsSuffix(spc.Contents(), start + Output())
      ensures spc.failures == failures0 ==> spc.Contents() == start + Output()
    {
      hide Delivered, IsSuffix;
      assert Output() == sent by {
        assert buffer[..pos] == [];
      }
      DeliveredToPool(spc.Contents(), spc.maxlen, spc.failures > failures0, start, sent);
    }

    /** The pieces of a format string one after the other, then the last flush. */
    method PrintPieces(ps: seq<Piece>) returns (len: nat)
      requires Ready() && Printable(ps) && Output() == [] && Len == 0 && |start| + |Shown(ps)| <= planned
      modifies this`pos, this`Len, this`sent, buffer, spc, spc.str
      ensures Valid() && pos == 0 && Output() == Shown(ps) && len == |Shown(ps)|
      ensures spc.str == old(spc.str) || spc.str == null || fresh(spc.str)
      ensures !growing ==>
        spc.str == old(spc.str) && spc.maxlen == old(spc.maxlen) && spc.failures == old(spc.failures)
      ensures !growing && spc.maxlen > 0 ==> spc.str[spc.len] == 0
      ensures growing && spc.str == null ==> spc.failures > failures0
    {
      hide *;
      NothingShown(ps);
      assert ps[..|ps|] == ps;
      for i := 0 to |ps|
        invariant Printable(ps[..i]) && Ready() && Output() == Shown(ps[..i]) && Len == |Shown(ps[..i])|
        invariant spc.str == old(spc.str) || spc.str == null || fresh(spc.str)
        invariant !growing ==>
          spc.str == old(spc.str) && spc.maxlen == old(spc.maxlen) && spc.failures == old(spc.failures)
      {
        RenderStep(ps, i);
        ShownGrows(ps, i + 1, |ps|);
        PutPiece(ps[i]);
      }
      ReadyIsValid();
      Flush();
      len := Len;
    }
  }

  // ----- SPrint and CatPrint -----

  /** StrSize / sizeof(CHAR16) - 1 in UINTN arithmetic: sizes 0 and 1 wrap round to no limit. */
  function Limit(strSize: nat): nat {
    if strSize >= 2 then strSize / 2 - 1 else NO_LIMIT
  }

  /** A size of 2 or 3 bytes is the one limit of no characters. */
  lemma NoLimitIff(strSize: nat)
    ensures Limit(strSize) == 0 <==> strSize == 2 || strSize == 3
  {}

  /** VSPrint. The buffer gets the longest prefix of the output that fits beside a terminator, and the
      terminator, exactly when the size is neither 2 nor 3 bytes; then nothing is written, not even the
      terminator. */
  method VSPrint(str: array<Char16>, strSize: nat, ps: seq<Piece>) returns (len: nat)
    requires Printable(ps) && |Shown(ps)| < NO_LIMIT
    requires if strSize >= 2 then strSize / 2 <= str.Length else |Shown(ps)| < str.Length
    modifies str
    ensures len == if 2 <= strSize && strSize / 2 <= |Shown(ps)| then strSize / 2 - 1 else |Shown(ps)|
    ensures len <= str.Length && str[..len] == Shown(ps)[..len]
    ensures if strSize == 2 || strSize == 3 then str[..] == old(str[..]) else len < str.Length && str[len] == 0
    ensures forall i :: len < i < str.Length ==> str[i] == old(str[i])
  {
    hide Shown, IsSuffix;
    NoLimitIff(strSize);
    var spc := new PoolPrint(str, Limit(strSize));
    ghost var was, out := str[..], Shown(ps);
    assert spc.Contents() == [];
    var state := new PrintState(spc, false, |out|);
    var printed := state.PrintPieces(ps);
    len := spc.len;
    assert [] + out == out;
  }

  /** CatPrint on a POOL_PRINT: as long as the pool has room the whole output is appended; whatever
      happens, the text left is the end of everything printed, NUL-terminated in its block. */
  method CatPrint(spc: PoolPrint, ps: seq<Piece>) returns (str: array?<Char16>)
    requires Printable(ps) && spc.Pooled()
    modifies spc, spc.str
    ensures spc.Pooled() && str == spc.str && spc.failures >= old(spc.failures)
    ensures str == old(spc.str) || str == null || fresh(str)
    ensures if str == null then spc.live == {} && spc.Contents() == []
            else spc.live == {str} && spc.len < str.Length && str[spc.len] == 0 && spc.Contents() == str[..spc.len]
    ensures spc.failures == old(spc.failures) ==> str != null && spc.Contents() == old(spc.Contents()) + Shown(ps)
    ensures var all, left := old(spc.Contents()) + Shown(ps), spc.Contents();
      |left| <= |all| && left == all[|all| - |left|..]
  {
    hide *;
    spc.PooledMeans();
    var state := new PrintState(spc, true, |Shown(ps)|);
    var printed := state.PrintPieces(ps);
    state.PoolHasIt();
    spc.PooledMeans();
    SuffixMeans(spc.Contents(), old(spc.Contents()) + Shown(ps));
    str := spc.str;
  }

  lemma SuffixMeans(s: seq<Char16>, all: seq<Char16>)
    requires IsSuffix(s, all)
    ensures |s| <= |all| && s == all[|all| - |s|..]
  {}

  predicate AllPrintable(runs: seq<seq<Piece>>) {
    forall i :: 0 <= i < |runs| ==> Printable(runs[i])
  }

  function AllShown(runs: seq<seq<Piece>>): Text
    requires AllPrintable(runs)
  {
    if runs == [] then [] else AllShown(runs[..|runs| - 1]) + Shown(runs[|runs| - 1])
  }

  lemma OneRunMore(runs: seq<seq<Piece>>, i: nat)
    requires AllPrintable(runs) && i < |runs|
    ensures Printable(runs[i]) && AllPrintable(runs[..i]) && AllPrintable(runs[..i + 1])
    ensures AllShown(runs[..i + 1]) == AllShown(runs[..i]) + Shown(runs[i])
  {
    assert runs[..i + 1][..i] == runs[..i];
    hide Shown;
  }

  lemma NoRuns()
    ensures AllPrintable([]) && AllShown([]) == []
  {}

  /** Any series of CatPrint calls on a zeroed POOL_PRINT leaves the concatenation of their outputs,
      NUL-terminated with len < maxlen, if the pool never runs out of room, and never more than one block. */
  method CatPrintAll(runs: seq<seq<Piece>>) returns (spc: PoolPrint)
    requires AllPrintable(runs)
    ensures fresh(spc) && spc.Pooled() && |spc.live| <= 1
    ensures spc.failures == 0 ==> spc.Contents() == AllShown(runs)
    ensures spc.failures == 0 && runs != [] ==> spc.str != null && spc.len < spc.maxlen && spc.str[spc.len] == 0
  {
    spc := new PoolPrint(null, 0);
    assert runs[..0] == [] && runs[..|runs|] == runs;
    NoRuns();
    hide AllShown, Shown, Printable, AllPrintable;
    for i := 0 to |runs|
      invariant fresh(spc) && spc.Pooled() && (spc.str != null ==> fresh(spc.str)) && AllPrintable(runs[..i])
      invariant spc.failures == 0 ==> spc.Contents() == AllShown(runs[..i])
      invariant spc.failures == 0 && i > 0 ==> spc.str != null
    {
      OneRunMore(runs, i);
      var str := CatPrint(spc, runs[i]);
    }
  }
}
