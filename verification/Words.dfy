/** 64-bit little-endian words in a byte memory. */
module Words {

  type Byte = b: int | 0 <= b < 256

  const WORD := 8
  const TWO64 := 0x1_0000_0000_0000_0000

  function Bytes(v: nat, n: nat): (s: seq<Byte>)
    ensures |s| == n
  {
    if n == 0 then [] else [v % 256] + Bytes(v / 256, n - 1)
  }

  function Number(s: seq<Byte>): nat {
    if s == [] then 0 else s[0] as int + 256 * Number(s[1..])
  }

  function Power256(n: nat): nat {
    if n == 0 then 1 else 256 * Power256(n - 1)
  }

  lemma {:induction false} NumberOfBytes(v: nat, n: nat)
    requires v < Power256(n)
    ensures Number(Bytes(v, n)) == v
  {
    if n != 0 {
      NumberOfBytes(v / 256, n - 1);
      assert Bytes(v, n)[1..] == Bytes(v / 256, n - 1);
    }
  }

  lemma {:induction false} BytesOfNumber(s: seq<Byte>)
    ensures Bytes(Number(s), |s|) == s && Number(s) < Power256(|s|)
  {
    if s != [] {
      BytesOfNumber(s[1..]);
      assert Number(s) % 256 == s[0] && Number(s) / 256 == Number(s[1..]);
    }
  }

  lemma Power256Word()
    ensures Power256(WORD) == TWO64
  {
    assert Power256(2) == 0x10000;
    assert Power256(4) == 0x10000_0000;
    assert Power256(6) == 0x1_0000_0000_0000;
  }

  /** The word at address `a`. */
  function Load(mem: seq<Byte>, a: nat): (v: nat)
    requires a + WORD <= |mem|
    ensures v < TWO64
  {
    BytesOfNumber(mem[a..a + WORD]);
    Power256Word();
    Number(mem[a..a + WORD])
  }

  /** Eight bytes, the lowest first. */
  lemma LoadMeans(mem: seq<Byte>, a: nat)
    requires a + 8 <= |mem|
    ensures Load(mem, a) == mem[a] as int + 0x100 * mem[a + 1] as int + 0x1_0000 * mem[a + 2] as int
      + 0x100_0000 * mem[a + 3] as int + 0x1_0000_0000 * mem[a + 4] as int + 0x100_0000_0000 * mem[a + 5] as int
      + 0x1_0000_0000_0000 * mem[a + 6] as int + 0x100_0000_0000_0000 * mem[a + 7] as int
  {
    var s := mem[a..a + 8];
    NumberStep(s, 0);
    NumberStep(s, 1);
    NumberStep(s, 2);
    NumberStep(s, 3);
    NumberStep(s, 4);
    NumberStep(s, 5);
    NumberStep(s, 6);
    NumberStep(s, 7);
    assert s[0..] == s && s[8..] == [] && Number([]) == 0;
    hide Number;
    assert forall i :: 0 <= i < 8 ==> s[i] == mem[a + i];
  }

  lemma NumberStep(s: seq<Byte>, i: nat)
    requires i < |s|
    ensures Number(s[i..]) == s[i] as int + 256 * Number(s[i + 1..])
  {
    assert s[i..][1..] == s[i + 1..];
  }

  /** The memory with the word `v` stored at address `a`. */
  function Store(mem: seq<Byte>, a: nat, v: nat): (r: seq<Byte>)
    requires a + WORD <= |mem|
    ensures |r| == |mem|
  {
    mem[..a] + Bytes(v, WORD) + mem[a + WORD..]
  }

  predicate Apart(a: nat, n: nat, b: nat, m: nat) {
    a + n <= b || b + m <= a
  }

  lemma LoadStore(mem: seq<Byte>, a: nat, v: nat)
    requires a + WORD <= |mem| && v < TWO64
    ensures Load(Store(mem, a, v), a) == v
  {
    Power256Word();
    NumberOfBytes(v, WORD);
    assert Store(mem, a, v)[a..a + WORD] == Bytes(v, WORD);
  }

  lemma StoreKeeps(mem: seq<Byte>, a: nat, v: nat, b: nat, n: nat)
    requires a + WORD <= |mem| && b + n <= |mem| && Apart(a, WORD, b, n)
    ensures Store(mem, a, v)[b..b + n] == mem[b..b + n]
  {
    var s := Store(mem, a, v);
    forall i | b <= i < b + n
      ensures s[i] == mem[i]
    {
      if i >= a + WORD {
        assert mem[a + WORD..][i - a - WORD] == mem[i];
      }
    }
  }

  lemma LoadKept(mem: seq<Byte>, mem': seq<Byte>, a: nat)
    requires |mem| == |mem'| && a + WORD <= |mem| && mem[a..a + WORD] == mem'[a..a + WORD]
    ensures Load(mem, a) == Load(mem', a)
  {}

  /** Equal stretches have equal parts. */
  lemma PartKept(mem: seq<Byte>, mem': seq<Byte>, a: nat, n: nat, b: nat, k: nat)
    requires a + n <= |mem| && a + n <= |mem'| && mem[a..a + n] == mem'[a..a + n]
    requires a <= b && b + k <= a + n
    ensures mem[b..b + k] == mem'[b..b + k]
  {
    forall i | b <= i < b + k
      ensures mem[i] == mem'[i]
    {
      assert mem[i] == mem[a..a + n][i - a] && mem'[i] == mem'[a..a + n][i - a];
    }
  }

  lemma LoadDetermines(mem: seq<Byte>, mem': seq<Byte>, a: nat, i: nat)
    requires |mem| == |mem'| && a <= i < a + WORD <= |mem| && Load(mem, a) == Load(mem', a)
    ensures mem[i] == mem'[i]
  {
    var s, s' := mem[a..a + WORD], mem'[a..a + WORD];
    BytesOfNumber(s);
    BytesOfNumber(s');
    assert s[i - a] == s'[i - a];
  }

  method LoadWord(mem: array<Byte>, a: nat) returns (v: nat)
    requires a + WORD <= mem.Length
    ensures v == Load(mem[..], a) < TWO64
  {
    assert mem[..][a..a + WORD] == mem[a..a + WORD];
    v := Load(mem[..], a);
  }

  method StoreWord(mem: array<Byte>, a: nat, v: nat)
    requires a + WORD <= mem.Length
    modifies mem
    ensures mem[..] == Store(old(mem[..]), a, v)
  {
    ghost var was := mem[..];
    var rest := v;
    for i := 0 to WORD
      invariant rest >= 0 && Bytes(v, WORD) == mem[a..a + i] + Bytes(rest, WORD - i)
      invariant mem[..a] == was[..a] && mem[a + i..] == was[a + i..]
    {
      mem[a + i] := rest % 256;
      rest := rest / 256;
    }
    assert mem[..] == mem[..a] + mem[a..a + WORD] + mem[a + WORD..];
  }
}
