/** The SMBIOS structure walker of gnu-efi/lib/smbios.c over tables laid out as in section 6.1.3 of DMTF
    DSP0134: a formatted area, then NUL-terminated strings closed by one more NUL.
 */
module Smbios {
  import opened Options

  type Byte = b: int | 0 <= b < 256
  type UInt16 = n: int | 0 <= n < 0x1_0000

  // ----- the format -----

  datatype Structure = Structure(formatted: seq<Byte>, strings: seq<seq<Byte>>)

  predicate StringsOk(strings: seq<seq<Byte>>) {
    forall i :: 0 <= i < |strings| ==> strings[i] != [] && 0 !in strings[i]
  }

  /** Byte 0 of the formatted area is the type, byte 1 its length. */
  predicate StructureOk(s: Structure) {
    |s.formatted| >= 4 && s.formatted[1] == |s.formatted| && StringsOk(s.strings)
  }

  function Joined(strings: seq<seq<Byte>>): seq<Byte> {
    if strings == [] then [] else strings[0] + [0] + Joined(strings[1..])
  }

  /** The unformatted area. */
  function Area(strings: seq<seq<Byte>>): seq<Byte> {
    if strings == [] then [0, 0] else Joined(strings) + [0]
  }

  function Encode(s: Structure): seq<Byte> {
    s.formatted + Area(s.strings)
  }

  function EncodeTable(ss: seq<Structure>): seq<Byte> {
    if ss == [] then [] else Encode(ss[0]) + EncodeTable(ss[1..])
  }

  /** Where structure `i` starts; structure |ss| is the end of the table. */
  function Start(ss: seq<Structure>, i: nat): nat
    requires i <= |ss|
  {
    |EncodeTable(ss[..i])|
  }

  /** Where string `k`, counted from 1, starts in its structure. */
  function StringOffset(s: Structure, k: nat): nat
    requires 1 <= k <= |s.strings| + 1
  {
    |s.formatted| + |Joined(s.strings[..k - 1])|
  }

  predicate ReadsAt(mem: seq<Byte>, at: nat, bytes: seq<Byte>) {
    at + |bytes| <= |mem| && mem[at..at + |bytes|] == bytes
  }

  predicate Holds(mem: seq<Byte>, at: nat, s: Structure) {
    StructureOk(s) && ReadsAt(mem, at, Encode(s))
  }

  /** The bytes of a structure: the formatted area, each string with a NUL behind it, and one more NUL, or two NULs
      when there is no string. A table has them one after the other. */
  lemma EncodeMeans(s: Structure, str: seq<Byte>, strings: seq<seq<Byte>>, ss: seq<Structure>)
    ensures Joined([]) == [] && Joined([str] + strings) == str + [0] + Joined(strings)
    ensures Encode(s) == s.formatted + if s.strings == [] then [0, 0] else Joined(s.strings) + [0]
    ensures EncodeTable([]) == [] && EncodeTable([s] + ss) == Encode(s) + EncodeTable(ss)
  {
    assert ([str] + strings)[1..] == strings && ([s] + ss)[1..] == ss;
    hide Encode;
    assert Encode(s) == s.formatted + Area(s.strings);
  }

  lemma HoldsMeans(mem: seq<Byte>, at: nat, s: Structure)
    ensures Holds(mem, at, s) <==>
      && |s.formatted| >= 4 && s.formatted[1] == |s.formatted|
      && (forall i :: 0 <= i < |s.strings| ==> s.strings[i] != [] && forall c :: c in s.strings[i] ==> c != 0)
      && at + |Encode(s)| <= |mem| && mem[at..at + |Encode(s)|] == Encode(s)
  {
    hide Encode;
    assert forall i :: 0 <= i < |s.strings| ==> (0 !in s.strings[i] <==> forall c :: c in s.strings[i] ==> c != 0);
  }

  // ----- reading it back -----

  lemma ReadsParts(mem: seq<Byte>, at: nat, a: seq<Byte>, b: seq<Byte>)
    ensures ReadsAt(mem, at, a + b) <==> ReadsAt(mem, at, a) && ReadsAt(mem, at + |a|, b)
  {
    if ReadsAt(mem, at, a + b) {
      var m := mem[at..at + |a + b|];
      assert mem[at..at + |a|] == m[..|a|] && mem[at + |a|..at + |a| + |b|] == m[|a|..];
    }
    if ReadsAt(mem, at, a) && ReadsAt(mem, at + |a|, b) {
      assert mem[at..at + |a + b|] == mem[at..at + |a|] + mem[at + |a|..at + |a| + |b|];
    }
  }

  lemma ReadsOne(mem: seq<Byte>, at: nat, b: Byte)
    ensures ReadsAt(mem, at, [b]) <==> at < |mem| && mem[at] == b
  {
    if at < |mem| {
      assert mem[at..at + 1] == [mem[at]];
    }
  }

  lemma ReadsIndex(mem: seq<Byte>, at: nat, bytes: seq<Byte>, j: nat)
    requires ReadsAt(mem, at, bytes) && j < |bytes|
    ensures mem[at + j] == bytes[j]
  {
    assert mem[at + j] == mem[at..at + |bytes|][j];
  }

  lemma JoinedFirst(strings: seq<seq<Byte>>)
    requires strings != []
    ensures Joined(strings) == strings[0] + [0] + Joined(strings[1..])
  {}

  lemma {:induction false} JoinedSplit(strings: seq<seq<Byte>>, i: nat)
    requires i < |strings|
    ensures Joined(strings) == Joined(strings[..i]) + (strings[i] + [0]) + Joined(strings[i + 1..])
    ensures Joined(strings[..i + 1]) == Joined(strings[..i]) + (strings[i] + [0])
  {
    if i > 0 {
      JoinedFirst(strings);
      JoinedFirst(strings[..i]);
      JoinedFirst(strings[..i + 1]);
      hide Joined;
      JoinedSplit(strings[1..], i - 1);
      assert strings[1..][..i - 1] == strings[..i][1..] && strings[1..][..i] == strings[..i + 1][1..];
      assert strings[1..][i - 1 + 1..] == strings[i + 1..];
    } else {
      assert strings[..1][1..] == [];
    }
  }

  /** Characters of a string are not NUL. */
  lemma Characters(mem: seq<Byte>, at: nat, s: seq<Byte>)
    requires 0 !in s && ReadsAt(mem, at, s)
    ensures forall j :: at <= j < at + |s| ==> mem[j] != 0
  {
    forall j | at <= j < at + |s|
      ensures mem[j] != 0
    {
      ReadsIndex(mem, at, s, j - at);
      assert s[j - at] in s;
    }
  }

  /** The strings are over where a NUL stands in place of a first character. */
  lemma OverIff(mem: seq<Byte>, at: nat, ss: seq<seq<Byte>>)
    requires StringsOk(ss) && ReadsAt(mem, at, Joined(ss) + [0])
    ensures at < |mem| && (mem[at] == 0 <==> ss == [])
  {
    ReadsIndex(mem, at, Joined(ss) + [0], 0);
    if ss != [] {
      assert ss[0][0] in ss[0];
    }
  }

  lemma Regroup(a: seq<Byte>, b: seq<Byte>, c: seq<Byte>, d: seq<Byte>, e: seq<Byte>)
    ensures a + (b + c + d + e) == (a + b) + (c + (d + e))
  {}

  /** String `k` stands at its offset, NUL-terminated, and the rest of the area follows. */
  lemma StringReads(mem: seq<Byte>, at: nat, s: Structure, k: nat)
    requires Holds(mem, at, s) && 1 <= k <= |s.strings|
    ensures ReadsAt(mem, at + StringOffset(s, k), s.strings[k - 1] + [0])
    ensures StringOffset(s, k + 1) == StringOffset(s, k) + |s.strings[k - 1]| + 1
    ensures ReadsAt(mem, at + StringOffset(s, k + 1), Joined(s.strings[k..]) + [0])
  {
    var head, str, tail := Joined(s.strings[..k - 1]), s.strings[k - 1] + [0], Joined(s.strings[k..]);
    EncodedAround(s, k, head, str, tail);
    hide *;
    ReadsBehind(mem, at, s.formatted + head, str, tail + [0]);
  }

  lemma EncodedAround(s: Structure, k: nat, head: seq<Byte>, str: seq<Byte>, tail: seq<Byte>)
    requires 1 <= k <= |s.strings| && head == Joined(s.strings[..k - 1]) && str == s.strings[k - 1] + [0]
    requires tail == Joined(s.strings[k..])
    ensures Encode(s) == (s.formatted + head) + (str + (tail + [0]))
    ensures StringOffset(s, k) == |s.formatted + head| && |str| == |s.strings[k - 1]| + 1
    ensures StringOffset(s, k + 1) == StringOffset(s, k) + |str|
  {
    JoinedSplit(s.strings, k - 1);
    hide Joined;
    Regroup(s.formatted, head, str, tail, [0]);
  }

  lemma ReadsBehind(mem: seq<Byte>, at: nat, a: seq<Byte>, b: seq<Byte>, c: seq<Byte>)
    requires ReadsAt(mem, at, a + (b + c))
    ensures ReadsAt(mem, at + |a|, b) && ReadsAt(mem, at + |a| + |b|, c)
  {
    hide *;
    ReadsParts(mem, at, a, b + c);
    ReadsParts(mem, at + |a|, b, c);
  }

  // ----- a table means one thing -----

  lemma {:induction false} AreaUnique(mem: seq<Byte>, at: nat, ss: seq<seq<Byte>>, tt: seq<seq<Byte>>)
    requires StringsOk(ss) && StringsOk(tt)
    requires ReadsAt(mem, at, Joined(ss) + [0]) && ReadsAt(mem, at, Joined(tt) + [0])
    ensures ss == tt
    decreases |ss|
  {
    hide *;
    OverIff(mem, at, ss);
    OverIff(mem, at, tt);
    if ss != [] {
      StringsParts(ss);
      StringsParts(tt);
      FirstReads(mem, at, ss);
      FirstReads(mem, at, tt);
      FirstUnique(mem, at, ss[0], tt[0]);
      AreaUnique(mem, at + |ss[0]| + 1, ss[1..], tt[1..]);
      assert ss == [ss[0]] + ss[1..] && tt == [tt[0]] + tt[1..];
    }
  }

  lemma StringsParts(ss: seq<seq<Byte>>)
    requires ss != [] && StringsOk(ss)
    ensures 0 !in ss[0] && StringsOk(ss[1..])
  {}

  lemma EndMoved(a: seq<Byte>, b: seq<Byte>)
    ensures a + [0] + b + [0] == a + ([0] + (b + [0]))
  {}

  lemma FirstReads(mem: seq<Byte>, at: nat, ss: seq<seq<Byte>>)
    requires ss != [] && ReadsAt(mem, at, Joined(ss) + [0])
    ensures ReadsAt(mem, at, ss[0]) && ReadsAt(mem, at + |ss[0]|, [0])
    ensures ReadsAt(mem, at + |ss[0]| + 1, Joined(ss[1..]) + [0])
  {
    JoinedFirst(ss);
    hide *;
    EndMoved(ss[0], Joined(ss[1..]));
    ReadsParts(mem, at, ss[0], [0] + (Joined(ss[1..]) + [0]));
    ReadsParts(mem, at + |ss[0]|, [0], Joined(ss[1..]) + [0]);
  }

  lemma FirstUnique(mem: seq<Byte>, at: nat, s: seq<Byte>, t: seq<Byte>)
    requires 0 !in s && 0 !in t && ReadsAt(mem, at, s) && ReadsAt(mem, at, t)
    requires ReadsAt(mem, at + |s|, [0]) && ReadsAt(mem, at + |t|, [0])
    ensures s == t
  {
    ReadsOne(mem, at + |s|, 0);
    ReadsOne(mem, at + |t|, 0);
    Characters(mem, at, s);
    Characters(mem, at, t);
    assert |s| == |t|;
  }

  lemma AreaReads(mem: seq<Byte>, at: nat, s: Structure)
    requires Holds(mem, at, s)
    ensures at + 1 < |mem| && mem[at + 1] == |s.formatted| && ReadsAt(mem, at, s.formatted)
    ensures ReadsAt(mem, at + |s.formatted|, Joined(s.strings) + [0])
    ensures s.strings == [] ==> ReadsAt(mem, at + |s.formatted|, [0] + [0])
  {
    ReadsParts(mem, at, s.formatted, Area(s.strings));
    ReadsIndex(mem, at, s.formatted, 1);
    if s.strings == [] {
      assert [0, 0] == [0] + [0];
      ReadsParts(mem, at + |s.formatted|, [0], [0]);
      assert Joined([]) + [0] == [0];
    }
  }

  lemma SameFormatted(mem: seq<Byte>, at: nat, s: Structure, t: Structure)
    requires Holds(mem, at, s) && Holds(mem, at, t)
    ensures s.formatted == t.formatted
  {
    AreaReads(mem, at, s);
    AreaReads(mem, at, t);
    hide Holds;
  }

  /** Memory holds at most one structure at a place. */
  lemma HoldsUnique(mem: seq<Byte>, at: nat, s: Structure, t: Structure)
    requires Holds(mem, at, s) && Holds(mem, at, t)
    ensures s == t
  {
    SameFormatted(mem, at, s, t);
    AreaReads(mem, at, s);
    AreaReads(mem, at, t);
    hide ReadsAt, Joined, Encode;
    AreaUnique(mem, at + |s.formatted|, s.strings, t.strings);
  }

  // ----- the walker -----

  /** Where string `k` of structure `s` is found. A structure without strings still has a string 1, the
      empty one. */
  function StringOf(at: nat, s: Structure, k: nat): Option<nat> {
    if k == 1 || 1 < k <= |s.strings| then Some(at + StringOffset(s, k)) else None
  }

  /** What a call with `k` answers in structure `s` at `at`, and where it leaves the pointer. */
  predicate Answer(at: nat, s: Structure, k: nat, r: Option<nat>, raw: nat) {
    r == StringOf(at, s, k) && raw == if k == 0 || r.Some? then at else at + |Encode(s)|
  }

  /** Whatever structure memory holds at `at`, the answer is the one for it. */
  ghost predicate Answers(mem: seq<Byte>, at: nat, k: nat, r: Option<nat>, raw: nat) {
    forall s :: Holds(mem, at, s) ==> Answer(at, s, k, r, raw)
  }

  /** String number 0 is answered with NULL; 1, or the number of a string, with the place where it starts, 1 right
      behind the formatted area; any other number with NULL, and the pointer moves on behind the structure. */
  lemma AnswersMean(mem: seq<Byte>, at: nat, s: Structure, k: nat, r: Option<nat>, raw: nat)
    requires Holds(mem, at, s)
    ensures StringOffset(s, 1) == |s.formatted|
    ensures Answers(mem, at, k, r, raw) <==>
      if k == 0 then r == None && raw == at
      else if k == 1 || k <= |s.strings| then r == Some(at + StringOffset(s, k)) && raw == at
      else r == None && raw == at + |Encode(s)|
  {
    FirstOffset(s);
    hide Holds, StringOffset, Encode;
    if Answer(at, s, k, r, raw) {
      AnswersFor(mem, at, s, k, r, raw);
    }
  }

  lemma AnswersFor(mem: seq<Byte>, at: nat, s: Structure, k: nat, r: Option<nat>, raw: nat)
    requires Holds(mem, at, s) && Answer(at, s, k, r, raw)
    ensures Answers(mem, at, k, r, raw)
  {
    hide Holds, Answer;
    forall t | Holds(mem, at, t)
      ensures Answer(at, t, k, r, raw)
    {
      HoldsUnique(mem, at, s, t);
    }
  }

  lemma AnswerFound(mem: seq<Byte>, at: nat, s: Structure, k: nat)
    requires Holds(mem, at, s) && (k == 1 || 1 < k <= |s.strings|)
    ensures Answers(mem, at, k, Some(at + StringOffset(s, k)), at)
  {
    AnswersFor(mem, at, s, k, Some(at + StringOffset(s, k)), at);
  }

  lemma AnswerNone(mem: seq<Byte>, at: nat, s: Structure, k: nat)
    requires Holds(mem, at, s) && (k == 0 || (k > 1 && k > |s.strings|))
    ensures Answers(mem, at, k, None, if k == 0 then at else at + |Encode(s)|)
  {
    AnswersFor(mem, at, s, k, None, if k == 0 then at else at + |Encode(s)|);
  }

  class StructurePointer {
    var raw: nat

    constructor (at: nat)
      ensures raw == at
    {
      raw := at;
    }

    method LibGetSmbiosString(mem: seq<Byte>, stringNumber: UInt16) returns (r: Option<nat>)
      requires Readable(mem, raw)
      modifies this
      ensures Answers(mem, old(raw), stringNumber, r, raw)
    {
      hide *;
      ghost var s := Parse(mem, raw);
      AreaReads(mem, raw, s);
      FirstOffset(s);
      var str := raw + mem[raw + 1];
      var index := 1;
      r := None;
      while index <= stringNumber
        invariant 1 <= index && (index == 1 || index <= |s.strings|) && (index == 1 || index <= stringNumber)
        invariant raw == old(raw) && str == raw + StringOffset(s, index)
        decreases stringNumber + 1 - index
      {
        if stringNumber == index {
          AnswerFound(mem, raw, s, stringNumber);
          return Some(str);
        }
        str := SkipString(mem, str, raw, s, index);
        if mem[str] == 0 {
          AnswerNone(mem, raw, s, stringNumber);
          raw := str + 1;
          return None;
        }
        index := index + 1;
      }
      AnswerNone(mem, raw, s, stringNumber);
      return None;
    }
  }

  lemma FirstOffset(s: Structure)
    ensures StringOffset(s, 1) == |s.formatted|
  {}

  /** `for (; *String != 0; String++); String++;` */
  method SkipString(mem: seq<Byte>, start: nat, ghost at: nat, ghost s: Structure, ghost k: nat) returns (str: nat)
    requires Holds(mem, at, s) && 1 <= k && (k == 1 || k <= |s.strings|) && start == at + StringOffset(s, k)
    ensures str < |mem|
    ensures mem[str] == 0 ==> k >= |s.strings| && str + 1 == at + |Encode(s)|
    ensures mem[str] != 0 ==> k < |s.strings| && str == at + StringOffset(s, k + 1)
  {
    ghost var len := if s.strings == [] then 0 else |s.strings[k - 1]|;
    SkipFacts(mem, at, s, k, len);
    hide *;
    str := start;
    while mem[str] != 0
      invariant start <= str <= start + len < |mem|
      decreases start + len - str
    {
      str := str + 1;
    }
    str := str + 1;
  }

  lemma SkipNone(mem: seq<Byte>, at: nat, s: Structure)
    requires Holds(mem, at, s) && s.strings == []
    ensures StringOffset(s, 1) == |s.formatted| && |Encode(s)| == |s.formatted| + 2
    ensures var start := at + |s.formatted|; start + 1 < |mem| && mem[start] == 0 && mem[start + 1] == 0
  {
    AreaReads(mem, at, s);
    hide Holds, ReadsAt;
    ReadsParts(mem, at + |s.formatted|, [0], [0]);
    ReadsOne(mem, at + |s.formatted|, 0);
    ReadsOne(mem, at + |s.formatted| + 1, 0);
  }

  lemma LastOffset(s: Structure)
    requires s.strings != []
    ensures StringOffset(s, |s.strings| + 1) + 1 == |Encode(s)|
  {
    assert s.strings[..|s.strings|] == s.strings;
  }

  lemma SkipOne(mem: seq<Byte>, at: nat, s: Structure, k: nat)
    requires Holds(mem, at, s) && 1 <= k <= |s.strings|
    ensures var start, len := at + StringOffset(s, k), |s.strings[k - 1]|;
      && start + len + 1 < |mem| && mem[start + len] == 0
      && (forall j :: start <= j < start + len ==> mem[j] != 0)
      && (mem[start + len + 1] == 0 <==> k == |s.strings|)
      && start + len + 1 == at + StringOffset(s, k + 1)
    ensures k == |s.strings| ==> StringOffset(s, k + 1) + 1 == |Encode(s)|
  {
    StringReads(mem, at, s, k);
    LastOffset(s);
    var start, str, len := at + StringOffset(s, k), s.strings[k - 1], |s.strings[k - 1]|;
    assert StringsOk(s.strings[k..]);
    assert 0 !in str;
    hide Holds, ReadsAt, StringOffset, Joined, Encode;
    ReadsParts(mem, start, str, [0]);
    ReadsOne(mem, start + len, 0);
    Characters(mem, start, str);
    OverIff(mem, start + len + 1, s.strings[k..]);
  }

  lemma SkipFacts(mem: seq<Byte>, at: nat, s: Structure, k: nat, len: nat)
    requires Holds(mem, at, s) && 1 <= k && (k == 1 || k <= |s.strings|)
    requires len == if s.strings == [] then 0 else |s.strings[k - 1]|
    ensures var start := at + StringOffset(s, k);
      && start + len + 1 < |mem| && mem[start + len] == 0
      && (forall j :: start <= j < start + len ==> mem[j] != 0)
      && (mem[start + len + 1] == 0 ==> k >= |s.strings| && start + len + 2 == at + |Encode(s)|)
      && (mem[start + len + 1] != 0 ==> k < |s.strings| && start + len + 1 == at + StringOffset(s, k + 1))
  {
    if s.strings == [] {
      SkipNone(mem, at, s);
    } else {
      SkipOne(mem, at, s, k);
    }
  }

  // ----- which memory holds a structure -----

  function FirstNul(mem: seq<Byte>, at: nat, j: nat): (z: nat)
    requires at <= j < |mem| && mem[j] == 0
    ensures at <= z <= j && mem[z] == 0 && 0 !in mem[at..z]
    decreases j - at
  {
    if mem[at] == 0 then at else
      var z := FirstNul(mem, at + 1, j);
      assert mem[at..z] == [mem[at]] + mem[at + 1..z];
      z
  }

  lemma {:induction false} ParseArea(mem: seq<Byte>, at: nat, j: nat) returns (ss: seq<seq<Byte>>)
    requires at <= j + 1 && j + 1 < |mem| && mem[j] == 0 == mem[j + 1]
    ensures StringsOk(ss) && ReadsAt(mem, at, Joined(ss) + [0])
    decreases j + 1 - at
  {
    if mem[at] == 0 {
      ss := [];
      ReadsOne(mem, at, 0);
      assert Joined(ss) + [0] == [0];
    } else {
      var z := FirstNul(mem, at, j);
      var rest := ParseArea(mem, z + 1, j);
      ReadsOne(mem, z, 0);
      FirstJoins(mem, at, mem[at..z], rest);
      ss := [mem[at..z]] + rest;
    }
  }

  lemma FirstJoins(mem: seq<Byte>, at: nat, str: seq<Byte>, rest: seq<seq<Byte>>)
    requires ReadsAt(mem, at, str) && ReadsAt(mem, at + |str|, [0])
    requires ReadsAt(mem, at + |str| + 1, Joined(rest) + [0])
    ensures ReadsAt(mem, at, Joined([str] + rest) + [0])
  {
    assert ([str] + rest)[1..] == rest;
    assert Joined([str] + rest) + [0] == str + ([0] + (Joined(rest) + [0]));
    hide Joined, ReadsAt;
    ReadsParts(mem, at + |str|, [0], Joined(rest) + [0]);
    ReadsParts(mem, at, str, [0] + (Joined(rest) + [0]));
  }

  predicate HasDoubleNul(mem: seq<Byte>, from: nat) {
    exists j :: from <= j < |mem| - 1 && mem[j] == 0 && mem[j + 1] == 0
  }

  /** What the walker can be given: a formatted area that fits, and a double NUL after it, the first string
      not being empty unless it is followed by the second NUL. */
  predicate Readable(mem: seq<Byte>, at: nat) {
    && at + 1 < |mem| && mem[at + 1] >= 4
    && var area := at + mem[at + 1];
       area + 1 < |mem| && (mem[area] == 0 ==> mem[area + 1] == 0) && HasDoubleNul(mem, area)
  }

  lemma ReadableIff(mem: seq<Byte>, at: nat)
    ensures (exists s :: Holds(mem, at, s)) <==> Readable(mem, at)
  {
    if s :| Holds(mem, at, s) {
      HoldsReadable(mem, at, s);
    }
    if Readable(mem, at) {
      var s := Parse(mem, at);
    }
  }

  lemma HoldsReadable(mem: seq<Byte>, at: nat, s: Structure)
    requires Holds(mem, at, s)
    ensures Readable(mem, at)
  {
    AreaReads(mem, at, s);
    if s.strings == [] {
      SkipNone(mem, at, s);
    } else {
      FirstOffset(s);
      SkipOne(mem, at, s, 1);
      assert s.strings[0] != [];
      SkipOne(mem, at, s, |s.strings|);
    }
  }

  lemma Parse(mem: seq<Byte>, at: nat) returns (s: Structure)
    requires Readable(mem, at)
    ensures Holds(mem, at, s)
  {
    var area := at + mem[at + 1];
    var strings := [];
    if mem[area] == 0 {
      assert mem[area..area + 2] == [0, 0];
    } else {
      var j :| area <= j < |mem| - 1 && mem[j] == 0 && mem[j + 1] == 0;
      strings := ParseArea(mem, area, j);
      OverIff(mem, area, strings);
    }
    s := Structure(mem[at..area], strings);
    ReadsParts(mem, at, s.formatted, Area(strings));
  }

  // ----- a whole table -----

  predicate AllOk(ss: seq<Structure>) {
    forall i :: 0 <= i < |ss| ==> StructureOk(ss[i]) && |ss[i].strings| < 0xFFFF
  }

  predicate TableAt(mem: seq<Byte>, base: nat, ss: seq<Structure>) {
    (forall i :: 0 <= i < |ss| ==> StructureOk(ss[i])) && ReadsAt(mem, base, EncodeTable(ss))
  }

  lemma {:induction false} TableSplit(ss: seq<Structure>, i: nat)
    requires i < |ss|
    ensures EncodeTable(ss) == EncodeTable(ss[..i]) + (Encode(ss[i]) + EncodeTable(ss[i + 1..]))
    ensures Start(ss, i + 1) == Start(ss, i) + |Encode(ss[i])|
  {
    hide Encode;
    if i > 0 {
      TableSplit(ss[1..], i - 1);
      assert ss[1..][..i - 1] == ss[..i][1..] && ss[1..][..i] == ss[..i + 1][1..];
      assert ss[1..][i - 1 + 1..] == ss[i + 1..];
    } else {
      assert ss[..1][1..] == [];
    }
  }

  /** Structure `i` is found at its start. */
  lemma StartHolds(mem: seq<Byte>, base: nat, ss: seq<Structure>, i: nat)
    requires TableAt(mem, base, ss) && i < |ss|
    ensures Holds(mem, base + Start(ss, i), ss[i]) && Readable(mem, base + Start(ss, i))
  {
    hide Readable, Encode;
    TableSplit(ss, i);
    ReadsMiddle(mem, base, EncodeTable(ss[..i]), Encode(ss[i]), EncodeTable(ss[i + 1..]));
    hide EncodeTable, ReadsAt;
    HoldsReadable(mem, base + Start(ss, i), ss[i]);
  }

  lemma ReadsMiddle(mem: seq<Byte>, at: nat, a: seq<Byte>, b: seq<Byte>, c: seq<Byte>)
    requires ReadsAt(mem, at, a + (b + c))
    ensures ReadsAt(mem, at + |a|, b)
  {
    ReadsParts(mem, at, a, b + c);
    ReadsParts(mem, at + |a|, b, c);
  }

  /** String number 0xFFFF skips to the next structure, exactly when there are fewer than 65535 strings. */
  lemma SkipIff(mem: seq<Byte>, base: nat, ss: seq<Structure>, i: nat, r: Option<nat>, raw: nat)
    requires TableAt(mem, base, ss) && i < |ss| && Answers(mem, base + Start(ss, i), 0xFFFF, r, raw)
    ensures r == None && raw == base + Start(ss, i + 1) <==> |ss[i].strings| < 0xFFFF
  {
    StartHolds(mem, base, ss, i);
    TableSplit(ss, i);
  }

  lemma Skipped(mem: seq<Byte>, base: nat, ss: seq<Structure>, i: nat, r: Option<nat>, raw: nat)
    requires TableAt(mem, base, ss) && AllOk(ss) && i < |ss| && Answers(mem, base + Start(ss, i), 0xFFFF, r, raw)
    ensures raw == base + Start(ss, i + 1)
  {
    SkipIff(mem, base, ss, i, r, raw);
  }

  ghost predicate SkipsTo(mem: seq<Byte>, from: nat, to: nat) {
    exists r :: Answers(mem, from, 0xFFFF, r, to)
  }

  /** Repeated calls with 0xFFFF visit the start of every structure in order. */
  lemma {:induction false} SkipsVisitStarts(mem: seq<Byte>, base: nat, ss: seq<Structure>, raws: seq<nat>, k: nat)
    requires TableAt(mem, base, ss) && AllOk(ss) && |raws| == |ss| + 1 && raws[0] == base && k <= |ss|
    requires forall i, j :: 0 <= i < j < |raws| && j == i + 1 ==> SkipsTo(mem, raws[i], raws[j])
    ensures raws[k] == base + Start(ss, k)
  {
    if k == 0 {
      assert ss[..0] == [];
    } else {
      SkipsVisitStarts(mem, base, ss, raws, k - 1);
      assert SkipsTo(mem, raws[k - 1], raws[k]);
      hide TableAt, AllOk, Answers, Start;
      var r :| Answers(mem, raws[k - 1], 0xFFFF, r, raws[k]);
      Skipped(mem, base, ss, k - 1, r, raws[k]);
    }
  }

  // ----- the system's GUID and serial number -----

  datatype Found = Nothing | System(uuid: seq<Byte>, serialNumber: Option<nat>)

  function TypeOf(s: Structure): int { if s.formatted == [] then -1 else s.formatted[0] }

  /** The first structure of type 1, or |ss|. */
  function FirstSystem(ss: seq<Structure>): (j: nat)
    ensures j <= |ss| && (j < |ss| ==> TypeOf(ss[j]) == 1)
    ensures forall i :: 0 <= i < j ==> TypeOf(ss[i]) != 1
  {
    if ss == [] || TypeOf(ss[0]) == 1 then 0 else 1 + FirstSystem(ss[1..])
  }

  /** Only the first type 1 structure counts: one too short hides any later one. */
  function SystemOf(ss: seq<Structure>, base: nat, tableLength: nat): Found {
    var j := FirstSystem(ss);
    if j == |ss| || Start(ss, j) >= tableLength || |ss[j].formatted| < 0x19 then Nothing else
      System(ss[j].formatted[8..24], StringOf(base + Start(ss, j), ss[j], ss[j].formatted[7]))
  }

  // ----- the system structure that should have been found -----

  /** Whether a structure has the GUID and the serial number. */
  predicate IsSystem(s: Structure) {
    TypeOf(s) == 1 && |s.formatted| >= 0x19
  }

  /** The first such structure, or |ss|. */
  function FirstUsable(ss: seq<Structure>): (j: nat)
    ensures j <= |ss| && (j < |ss| ==> IsSystem(ss[j]))
    ensures forall i :: 0 <= i < j ==> !IsSystem(ss[i])
  {
    if ss == [] || IsSystem(ss[0]) then 0 else 1 + FirstUsable(ss[1..])
  }

  /** What a search for the system's GUID and serial number should find in the table. */
  function UsableOf(ss: seq<Structure>, base: nat, tableLength: nat): Found {
    var j := FirstUsable(ss);
    if j == |ss| || Start(ss, j) >= tableLength then Nothing else
      System(ss[j].formatted[8..24], StringOf(base + Start(ss, j), ss[j], ss[j].formatted[7]))
  }

  /** The system is that of structure `j`, the first of type 1, if it starts in the table and has at least 25 bytes:
      bytes 8 to 23 are the GUID, and byte 7 is the number of the serial number. */
  lemma SystemMeans(ss: seq<Structure>, base: nat, tableLength: nat, j: nat)
    requires j <= |ss| && forall i :: 0 <= i < |ss| ==> |ss[i].formatted| > 0
    requires j < |ss| ==> ss[j].formatted[0] == 1
    requires forall i :: 0 <= i < j ==> ss[i].formatted[0] != 1
    ensures SystemOf(ss, base, tableLength) ==
      if j == |ss| || Start(ss, j) >= tableLength || |ss[j].formatted| < 25 then Nothing else
        var at, n := base + Start(ss, j), ss[j].formatted[7];
        System(ss[j].formatted[8..24],
               if n == 1 || 1 < n <= |ss[j].strings| then Some(at + StringOffset(ss[j], n)) else None)
  {
    assert FirstSystem(ss) == j;
    hide Start, StringOffset, FirstSystem;
  }

  /** The system that should be found is that of the first structure of type 1 with at least 25 bytes. */
  lemma UsableMeans(ss: seq<Structure>, base: nat, tableLength: nat, j: nat)
    requires j <= |ss| && forall i :: 0 <= i < |ss| ==> |ss[i].formatted| > 0
    requires j < |ss| ==> ss[j].formatted[0] == 1 && |ss[j].formatted| >= 25
    requires forall i :: 0 <= i < j ==> ss[i].formatted[0] != 1 || |ss[i].formatted| < 25
    ensures UsableOf(ss, base, tableLength) ==
      if j == |ss| || Start(ss, j) >= tableLength then Nothing else
        var at, n := base + Start(ss, j), ss[j].formatted[7];
        System(ss[j].formatted[8..24],
               if n == 1 || 1 < n <= |ss[j].strings| then Some(at + StringOffset(ss[j], n)) else None)
  {
    assert FirstUsable(ss) == j;
    hide Start, StringOffset, FirstUsable;
  }

  /** The search finds it exactly when the first type 1 structure, if there is one, is long enough, or no later
      one in range is: a first one that is too short hides it. */
  lemma SystemFoundIff(ss: seq<Structure>, base: nat, tableLength: nat)
    ensures var j, usable := FirstSystem(ss), FirstUsable(ss);
      SystemOf(ss, base, tableLength) == UsableOf(ss, base, tableLength) <==>
        j == |ss| || |ss[j].formatted| >= 0x19 || usable == |ss| || Start(ss, usable) >= tableLength
  {
    var j, usable := FirstSystem(ss), FirstUsable(ss);
    assert usable < |ss| ==> j <= usable;
    assert j < |ss| && |ss[j].formatted| >= 0x19 ==> usable == j;
    hide FirstSystem, FirstUsable, Start, StringOf;
  }

  /** An old structure without GUID and serial number in front of a full one. */
  lemma LaterSystemHidden(a: Structure, b: Structure, base: nat, tableLength: nat)
    requires TypeOf(a) == 1 && |a.formatted| < 0x19 && IsSystem(b) && |Encode(a)| < tableLength
    ensures SystemOf([a, b], base, tableLength) == Nothing && UsableOf([a, b], base, tableLength).System?
  {
    var ss := [a, b];
    assert ss[1..] == [b];
    assert ss[..1] == [a] && ss[..0] == [] && [a][1..] == [] && EncodeTable([a]) == Encode(a) + [];
    assert FirstSystem(ss) == 0;
    assert FirstUsable([b]) == 0 && FirstUsable(ss) == 1;
  }

  // ----- the search loop -----

  lemma {:induction false} StartsGrow(ss: seq<Structure>, i: nat, j: nat)
    requires i <= j <= |ss| && forall k :: 0 <= k < |ss| ==> StructureOk(ss[k])
    ensures Start(ss, i) + (j - i) <= Start(ss, j)
    decreases j - i
  {
    if i < j {
      TableSplit(ss, i);
      hide Start;
      StartsGrow(ss, i + 1, j);
    }
  }

  /** The structures known to stand in memory reach as far as the walk can get: to the end of the table, or to
      a type 1 structure, which it never passes. */
  predicate Enough(ss: seq<Structure>, tableLength: nat) {
    tableLength <= |EncodeTable(ss)| || FirstSystem(ss) < |ss|
  }

  /** How the walk stands: structure `i`, at `raw`, is next, nothing of type 1 before it. */
  ghost predicate Walking(mem: seq<Byte>, base: nat, ss: seq<Structure>, tableLength: nat, i: nat, raw: nat) {
    && TableAt(mem, base, ss) && AllOk(ss) && Enough(ss, tableLength)
    && i <= FirstSystem(ss) && i < |ss| && i <= Start(ss, i) < tableLength && raw == base + Start(ss, i)
  }

  lemma LoopStart(mem: seq<Byte>, base: nat, ss: seq<Structure>, tableLength: nat)
    requires TableAt(mem, base, ss) && AllOk(ss) && Enough(ss, tableLength)
    ensures Looping(mem, base, ss, tableLength, 0, base, 0)
  {
    assert ss[..0] == [];
  }

  lemma PartOf(mem: seq<Byte>, at: nat, s: seq<Byte>, i: nat, j: nat)
    requires ReadsAt(mem, at, s) && i <= j <= |s|
    ensures mem[at + i..at + j] == s[i..j]
  {
    forall k | i <= k < j
      ensures mem[at + k] == s[k]
    {
      ReadsIndex(mem, at, s, k);
    }
  }

  lemma FormattedReads(mem: seq<Byte>, at: nat, s: Structure)
    requires Holds(mem, at, s)
    ensures at + |s.formatted| <= |mem| && |s.formatted| >= 4
    ensures mem[at] == TypeOf(s) && mem[at + 1] == |s.formatted|
    ensures |s.formatted| >= 0x19 ==> mem[at + 7] == s.formatted[7] && mem[at + 8..at + 24] == s.formatted[8..24]
  {
    AreaReads(mem, at, s);
    ReadsIndex(mem, at, s.formatted, 0);
    if |s.formatted| >= 0x19 {
      ReadsIndex(mem, at, s.formatted, 7);
      PartOf(mem, at, s.formatted, 8, 24);
    }
  }

  lemma WalkHere(mem: seq<Byte>, base: nat, ss: seq<Structure>, tableLength: nat, i: nat, raw: nat)
    requires Walking(mem, base, ss, tableLength, i, raw)
    ensures i < tableLength && raw + 1 < |mem| && Readable(mem, raw)
    ensures mem[raw] == 1 && mem[raw + 1] < 0x19 ==> SystemOf(ss, base, tableLength) == Nothing
    ensures mem[raw + 1] >= 0x19 ==> raw + 24 <= |mem|
  {
    hide Readable, Holds, EncodeTable, TableAt, AllOk, Start;
    StartHolds(mem, base, ss, i);
    FormattedReads(mem, raw, ss[i]);
  }

  lemma AnswerOf(mem: seq<Byte>, at: nat, s: Structure, k: nat, r: Option<nat>, raw: nat)
    requires Holds(mem, at, s) && Answers(mem, at, k, r, raw)
    ensures Answer(at, s, k, r, raw)
  {}

  lemma WalkFound(mem: seq<Byte>, base: nat, ss: seq<Structure>, tableLength: nat, i: nat, raw: nat,
                  r: Option<nat>, after: nat)
    requires Walking(mem, base, ss, tableLength, i, raw) && raw + 24 <= |mem|
    requires mem[raw] == 1 && mem[raw + 1] >= 0x19 && Answers(mem, raw, mem[raw + 7], r, after)
    ensures SystemOf(ss, base, tableLength) == System(mem[raw + 8..raw + 24], r)
  {
    hide Readable, Holds, Answers, EncodeTable, TableAt, AllOk, Start;
    StartHolds(mem, base, ss, i);
    FormattedReads(mem, raw, ss[i]);
    AnswerOf(mem, raw, ss[i], mem[raw + 7], r, after);
    assert i == FirstSystem(ss);
    hide FirstSystem;
  }

  lemma StartBeyond(ss: seq<Structure>, i: nat)
    requires i <= FirstSystem(ss) && forall k :: 0 <= k < |ss| ==> StructureOk(ss[k])
    ensures i <= Start(ss, i) <= Start(ss, FirstSystem(ss))
    ensures i == |ss| ==> Start(ss, i) == |EncodeTable(ss)|
  {
    StartsGrow(ss, 0, i);
    StartsGrow(ss, i, FirstSystem(ss));
    assert ss[..|ss|] == ss;
  }

  lemma WalkOn(mem: seq<Byte>, base: nat, ss: seq<Structure>, tableLength: nat, i: nat, raw: nat,
               r: Option<nat>, after: nat)
    requires Walking(mem, base, ss, tableLength, i, raw) && raw < |mem| && mem[raw] != 1
    requires Answers(mem, raw, 0xFFFF, r, after)
    ensures if after < base + tableLength then Walking(mem, base, ss, tableLength, i + 1, after)
      else SystemOf(ss, base, tableLength) == Nothing
  {
    hide Readable, Holds, Answers;
    StartHolds(mem, base, ss, i);
    FormattedReads(mem, raw, ss[i]);
    Skipped(mem, base, ss, i, r, after);
    assert TypeOf(ss[i]) != 1;
    hide TypeOf, Start, EncodeTable;
    StartBeyond(ss, i + 1);
  }

  /** The loop: structure `i` is next, or the walk is stuck on a type 1 structure that is too short. */
  ghost predicate Looping(mem: seq<Byte>, base: nat, ss: seq<Structure>, tableLength: nat, i: nat, raw: nat,
                          index: nat)
  {
    && (tableLength == 0 ==> SystemOf(ss, base, tableLength) == Nothing)
    && (tableLength > 0 ==> Walking(mem, base, ss, tableLength, i, raw) && i < tableLength)
    && (index == i || SystemOf(ss, base, tableLength) == Nothing)
    && (index != i ==> raw + 1 < |mem| && mem[raw] == 1 && mem[raw + 1] < 0x19)
  }

  lemma LoopStuck(mem: seq<Byte>, base: nat, ss: seq<Structure>, tableLength: nat, i: nat, raw: nat, index: nat)
    requires Looping(mem, base, ss, tableLength, i, raw, index) && index < tableLength
    ensures raw + 1 < |mem| && Readable(mem, raw) && (mem[raw + 1] >= 0x19 ==> raw + 24 <= |mem|)
    ensures mem[raw] == 1 && mem[raw + 1] < 0x19 ==> Looping(mem, base, ss, tableLength, i, raw, index + 1)
  {
    hide Walking, SystemOf, Readable;
    WalkHere(mem, base, ss, tableLength, i, raw);
  }

  lemma LoopFound(mem: seq<Byte>, base: nat, ss: seq<Structure>, tableLength: nat, i: nat, raw: nat, index: nat,
                  r: Option<nat>, after: nat)
    requires Looping(mem, base, ss, tableLength, i, raw, index) && index < tableLength && raw + 24 <= |mem|
    requires mem[raw] == 1 && mem[raw + 1] >= 0x19 && Answers(mem, raw, mem[raw + 7], r, after)
    ensures SystemOf(ss, base, tableLength) == System(mem[raw + 8..raw + 24], r)
  {
    hide Walking, SystemOf, Answers;
    WalkFound(mem, base, ss, tableLength, i, raw, r, after);
  }

  lemma LoopOn(mem: seq<Byte>, base: nat, ss: seq<Structure>, tableLength: nat, i: nat, raw: nat, index: nat,
               r: Option<nat>, after: nat)
    requires Looping(mem, base, ss, tableLength, i, raw, index) && index < tableLength
    requires raw < |mem| && mem[raw] != 1 && Answers(mem, raw, 0xFFFF, r, after)
    ensures if after < base + tableLength then Looping(mem, base, ss, tableLength, i + 1, after, index + 1)
      else SystemOf(ss, base, tableLength) == Nothing
  {
    hide Walking, SystemOf, Answers;
    WalkOn(mem, base, ss, tableLength, i, raw, r, after);
    if after < base + tableLength {
      WalkHere(mem, base, ss, tableLength, i + 1, after);
    }
  }

  lemma LoopEnd(mem: seq<Byte>, base: nat, ss: seq<Structure>, tableLength: nat, i: nat, raw: nat, index: nat)
    requires Looping(mem, base, ss, tableLength, i, raw, index) && index >= tableLength
    ensures SystemOf(ss, base, tableLength) == Nothing
  {
    hide Walking, SystemOf;
  }

  method LibGetSmbiosSystemGuidAndSerialNumber(mem: seq<Byte>, base: nat, tableLength: UInt16, ghost ss: seq<Structure>)
    returns (found: Found)
    requires TableAt(mem, base, ss) && AllOk(ss) && Enough(ss, tableLength)
    ensures found == SystemOf(ss, base, tableLength)
  {
    var smbios := new StructurePointer(base);
    var smbiosEnd := base + tableLength;
    var index: nat := 0;
    ghost var i: nat := 0;
    LoopStart(mem, base, ss, tableLength);
    hide *;
    while index < tableLength
      invariant Looping(mem, base, ss, tableLength, i, smbios.raw, index)
    {
      var at := smbios.raw;
      LoopStuck(mem, base, ss, tableLength, i, at, index);
      if mem[at] == 1 {
        if mem[at + 1] < 0x19 {
          index := index + 1;
          continue;
        }
        var serialNumber := smbios.LibGetSmbiosString(mem, mem[at + 7]);
        LoopFound(mem, base, ss, tableLength, i, at, index, serialNumber, smbios.raw);
        return System(mem[at + 8..at + 24], serialNumber);
      }
      var r := smbios.LibGetSmbiosString(mem, 0xFFFF);
      LoopOn(mem, base, ss, tableLength, i, at, index, r, smbios.raw);
      if smbios.raw >= smbiosEnd {
        return Nothing;
      }
      i := i + 1;
      index := index + 1;
    }
    LoopEnd(mem, base, ss, tableLength, i, smbios.raw, index);
    return Nothing;
  }
}
