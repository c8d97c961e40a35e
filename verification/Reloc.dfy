/** The self-relocators of gnu-efi/gnuefi/reloc_x86_64.c and reloc_aarch64.c: after the scan of the dynamic
    section one walk over the relocation table that fixes up words of the loaded image in place.
 */
module Reloc {
  import opened Words
  import opened RelocScan

  datatype Status = Success | LoadError

  // ----- storing a list of words -----

  datatype Fix = Fix(addr: nat, value: nat)

  predicate Fits(fs: seq<Fix>, size: nat) {
    forall i :: 0 <= i < |fs| ==> fs[i].addr + WORD <= size && fs[i].value < TWO64
  }

  predicate Disjoint(fs: seq<Fix>) {
    forall i, j :: 0 <= i < j < |fs| ==> Apart(fs[i].addr, WORD, fs[j].addr, WORD)
  }

  function Assigned(mem: seq<Byte>, fs: seq<Fix>): (r: seq<Byte>)
    requires Fits(fs, |mem|)
    ensures |r| == |mem|
  {
    if fs == [] then mem else
      var last := fs[|fs| - 1];
      Store(Assigned(mem, fs[..|fs| - 1]), last.addr, last.value)
  }

  /** Bytes away from every fixed word stay as they were. */
  lemma {:induction false} AssignedKeeps(mem: seq<Byte>, fs: seq<Fix>, b: nat, n: nat)
    requires Fits(fs, |mem|) && b + n <= |mem|
    requires forall i :: 0 <= i < |fs| ==> Apart(fs[i].addr, WORD, b, n)
    ensures Assigned(mem, fs)[b..b + n] == mem[b..b + n]
  {
    if fs != [] {
      var k := |fs| - 1;
      AssignedKeeps(mem, fs[..k], b, n);
      StoreKeeps(Assigned(mem, fs[..k]), fs[k].addr, fs[k].value, b, n);
    }
  }

  /** Each fixed word holds its value. */
  lemma {:induction false} AssignedAt(mem: seq<Byte>, fs: seq<Fix>, i: nat)
    requires Fits(fs, |mem|) && Disjoint(fs) && i < |fs|
    ensures Load(Assigned(mem, fs), fs[i].addr) == fs[i].value
  {
    var k := |fs| - 1;
    var before := Assigned(mem, fs[..k]);
    if i == k {
      LoadStore(before, fs[k].addr, fs[k].value);
    } else {
      AssignedAt(mem, fs[..k], i);
      StoreKeeps(before, fs[k].addr, fs[k].value, fs[i].addr, WORD);
      LoadKept(before, Assigned(mem, fs), fs[i].addr);
    }
  }

  predicate Covers(f: Fix, p: nat) {
    f.addr <= p < f.addr + WORD
  }

  lemma CoveredByte(mem: seq<Byte>, fs: seq<Fix>, i: nat, mem': seq<Byte>, gs: seq<Fix>, j: nat, p: nat)
    requires |mem| == |mem'| && Fits(fs, |mem|) && Disjoint(fs) && Fits(gs, |mem|) && Disjoint(gs)
    requires i < |fs| && j < |gs| && fs[i] == gs[j] && Covers(fs[i], p)
    ensures Assigned(mem, fs)[p] == Assigned(mem', gs)[p]
  {
    AssignedAt(mem, fs, i);
    AssignedAt(mem', gs, j);
    hide Assigned;
    LoadDetermines(Assigned(mem, fs), Assigned(mem', gs), fs[i].addr, p);
  }

  lemma UncoveredByte(mem: seq<Byte>, fs: seq<Fix>, p: nat)
    requires Fits(fs, |mem|) && p < |mem| && forall i :: 0 <= i < |fs| ==> !Covers(fs[i], p)
    ensures Assigned(mem, fs)[p] == mem[p]
  {
    AssignedKeeps(mem, fs, p, 1);
    hide Assigned;
    assert Assigned(mem, fs)[p..p + 1][0] == mem[p..p + 1][0];
  }

  /** Lists with the same members leave alike every byte that was alike. */
  lemma SameFixesByte(mem: seq<Byte>, fs: seq<Fix>, mem': seq<Byte>, gs: seq<Fix>, p: nat)
    requires p < |mem| == |mem'| && mem[p] == mem'[p]
    requires Fits(fs, |mem|) && Disjoint(fs) && Fits(gs, |mem|) && Disjoint(gs)
    requires forall f :: f in fs <==> f in gs
    ensures Assigned(mem, fs)[p] == Assigned(mem', gs)[p]
  {
    hide Assigned, Disjoint, Fits;
    if i :| 0 <= i < |fs| && Covers(fs[i], p) {
      assert fs[i] in gs;
      var j :| 0 <= j < |gs| && gs[j] == fs[i];
      CoveredByte(mem, fs, i, mem', gs, j, p);
    } else {
      assert forall j :: 0 <= j < |gs| ==> gs[j] in fs;
      UncoveredByte(mem, fs, p);
      UncoveredByte(mem', gs, p);
    }
  }

  // ----- the relocation table -----

  /** How a machine treats its RELATIVE entries: their type number, the bytes of an entry it reads, and
      whether it takes the addend from the entry or from the word itself. */
  datatype Treatment = Treatment(relative: nat, width: nat, fromEntry: bool)

  const X86_64 := Treatment(8, 16, false)
  const AARCH64 := Treatment(1027, 24, true)

  type Machine = m: Treatment | m == X86_64 || m == AARCH64 witness X86_64

  type Step = n: nat | n > 0 witness 1

  /** A table, or what is left of it: the next entry, the size of an entry, the size left, the load offset. */
  datatype Table = Table(rel: nat, relent: Step, relsz: int, ldbase: nat) {
    /** `rel += relent` and `relsz -= relent`. */
    function Rest(): (t: Table)
      ensures t.rel == rel + relent && t.relent == relent && t.relsz == relsz - relent && t.ldbase == ldbase
    {
      Table(rel + relent, relent, relsz - relent, ldbase)
    }

    function Left(): (n: nat)
      ensures n == if relsz > 0 then relsz else 0
    {
      if relsz > 0 then relsz else 0
    }
  }

  /** ELF64_R_TYPE: the low half of r_info. */
  function TypeAt(mem: seq<Byte>, rel: nat): nat
    requires rel + 2 * WORD <= |mem|
  {
    Load(mem, rel + WORD) % 0x1_0000_0000
  }

  function TargetAt(mem: seq<Byte>, rel: nat, ldbase: nat): nat
    requires rel + 2 * WORD <= |mem|
  {
    (ldbase + Load(mem, rel)) % TWO64
  }

  /** The entry lies in memory, and so does the word it points to. */
  predicate EntryIn(mem: seq<Byte>, m: Machine, rel: nat, ldbase: nat)
  {
    && rel + m.width <= |mem|
    && (TypeAt(mem, rel) == m.relative ==> TargetAt(mem, rel, ldbase) + WORD <= |mem|)
  }

  /** The whole table, as far as `relsz` says, lies in memory. */
  predicate TableIn(mem: seq<Byte>, m: Machine, t: Table)
    decreases t.Left()
  {
    t.relsz <= 0 || (EntryIn(mem, m, t.rel, t.ldbase) && TableIn(mem, m, t.Rest()))
  }

  /** What one entry asks for. */
  function FixAt(mem: seq<Byte>, m: Machine, rel: nat, ldbase: nat): (fs: seq<Fix>)
    requires EntryIn(mem, m, rel, ldbase)
    ensures |fs| <= 1 && Fits(fs, |mem|)
  {
    if TypeAt(mem, rel) != m.relative then [] else
      var addr := TargetAt(mem, rel, ldbase);
      [Fix(addr, (ldbase + if m.fromEntry then Load(mem, rel + 2 * WORD) else Load(mem, addr)) % TWO64)]
  }

  /** What the whole table asks for, read from one memory. */
  function Fixes(mem: seq<Byte>, m: Machine, t: Table): (fs: seq<Fix>)
    requires TableIn(mem, m, t)
    ensures Fits(fs, |mem|)
    decreases t.Left()
  {
    if t.relsz <= 0 then [] else
      FixAt(mem, m, t.rel, t.ldbase) + Fixes(mem, m, t.Rest())
  }

  /** No fixed word overlaps what is read of the table. */
  predicate ClearOfTable(fs: seq<Fix>, m: Machine, t: Table)
    decreases t.Left()
  {
    t.relsz <= 0 ||
    (&& (forall i :: 0 <= i < |fs| ==> Apart(fs[i].addr, WORD, t.rel, m.width))
     && ClearOfTable(fs, m, t.Rest()))
  }

  /** The linker's side of the bargain. */
  predicate WellPlaced(mem: seq<Byte>, m: Machine, t: Table)
  {
    && TableIn(mem, m, t)
    && Disjoint(Fixes(mem, m, t))
    && ClearOfTable(Fixes(mem, m, t), m, t)
  }

  lemma AssignedOne(mem: seq<Byte>, f: Fix)
    requires f.addr + WORD <= |mem| && f.value < TWO64
    ensures Fits([f], |mem|) && Assigned(mem, [f]) == Store(mem, f.addr, f.value)
  {
    assert [f][..0] == [];
  }

  /** One entry, in place: `*addr += ldbase` or `*addr = ldbase + r_addend`. */
  method ApplyEntry(mem: array<Byte>, m: Machine, rel: nat, ldbase: nat)
    requires EntryIn(mem[..], m, rel, ldbase)
    modifies mem
    ensures mem[..] == Assigned(old(mem[..]), FixAt(old(mem[..]), m, rel, ldbase))
  {
    ghost var was := mem[..];
    var info := LoadWord(mem, rel + WORD);
    if info % 0x1_0000_0000 == m.relative {
      var offset := LoadWord(mem, rel);
      var addr := (ldbase + offset) % TWO64;
      var addend;
      if m.fromEntry {
        addend := LoadWord(mem, rel + 2 * WORD);
      } else {
        addend := LoadWord(mem, addr);
      }
      var value := (ldbase + addend) % TWO64;
      assert FixAt(was, m, rel, ldbase) == [Fix(addr, value)];
      AssignedOne(was, Fix(addr, value));
      hide Assigned, Store, Load, FixAt, TypeAt, TargetAt, EntryIn, Fits;
      StoreWord(mem, addr, value);
    }
  }

  lemma {:induction false} AssignedMore(mem: seq<Byte>, fs: seq<Fix>, gs: seq<Fix>)
    requires Fits(fs, |mem|) && Fits(gs, |mem|) && |gs| <= 1
    ensures Fits(fs + gs, |mem|) && Assigned(mem, fs + gs) == Assigned(Assigned(mem, fs), gs)
  {
    if gs == [] {
      assert fs + gs == fs;
    } else {
      assert (fs + gs)[..|fs|] == fs && gs[..0] == [];
    }
  }

  /** An entry whose bytes and word are untouched asks for the same fix. */
  lemma FixAtKept(mem: seq<Byte>, now: seq<Byte>, m: Machine, rel: nat, ldbase: nat)
    requires EntryIn(mem, m, rel, ldbase) && |now| == |mem|
    requires now[rel..rel + m.width] == mem[rel..rel + m.width]
    requires TypeAt(mem, rel) == m.relative && !m.fromEntry ==>
      Load(now, TargetAt(mem, rel, ldbase)) == Load(mem, TargetAt(mem, rel, ldbase))
    ensures EntryIn(now, m, rel, ldbase) && FixAt(now, m, rel, ldbase) == FixAt(mem, m, rel, ldbase)
  {
    hide Load;
    PartKept(mem, now, rel, m.width, rel, WORD);
    PartKept(mem, now, rel, m.width, rel + WORD, WORD);
    LoadKept(mem, now, rel);
    LoadKept(mem, now, rel + WORD);
    if m.fromEntry {
      PartKept(mem, now, rel, m.width, rel + 2 * WORD, WORD);
      LoadKept(mem, now, rel + 2 * WORD);
    }
  }

  /** The rest of the table asks for what remains of `all` once `done` is made. */
  ghost predicate Placed(mem: seq<Byte>, m: Machine, all: seq<Fix>, done: seq<Fix>, t: Table)
  {
    && TableIn(mem, m, t) && ClearOfTable(all, m, t)
    && Fits(all, |mem|) && Disjoint(all)
    && all == done + Fixes(mem, m, t)
  }

  /** The walk so far: `done` fixes made. */
  ghost predicate Walking(mem: seq<Byte>, now: seq<Byte>, m: Machine, all: seq<Fix>, done: seq<Fix>, t: Table)
  {
    Placed(mem, m, all, done, t) && Fits(done, |mem|) && now == Assigned(mem, done)
  }

  lemma DisjointParts(done: seq<Fix>, fix: seq<Fix>, rest: seq<Fix>)
    requires Disjoint(done + fix + rest)
    ensures forall i, j :: 0 <= i < |done| && 0 <= j < |fix| ==> Apart(done[i].addr, WORD, fix[j].addr, WORD)
  {
    var all := done + fix + rest;
    forall i, j | 0 <= i < |done| && 0 <= j < |fix|
      ensures Apart(done[i].addr, WORD, fix[j].addr, WORD)
    {
      assert done[i] == all[i] && fix[j] == all[|done| + j];
    }
  }

  /** Earlier fixes leave an entry, and the word it fixes, alone. */
  lemma EntryKept(mem: seq<Byte>, m: Machine, done: seq<Fix>, rest: seq<Fix>, rel: nat, ldbase: nat)
    requires EntryIn(mem, m, rel, ldbase) && Fits(done, |mem|)
    requires Disjoint(done + FixAt(mem, m, rel, ldbase) + rest)
    requires forall i :: 0 <= i < |done| ==> Apart(done[i].addr, WORD, rel, m.width)
    ensures EntryIn(Assigned(mem, done), m, rel, ldbase)
    ensures FixAt(Assigned(mem, done), m, rel, ldbase) == FixAt(mem, m, rel, ldbase)
  {
    hide Assigned, Load, Disjoint;
    var fix := FixAt(mem, m, rel, ldbase);
    DisjointParts(done, fix, rest);
    AssignedKeeps(mem, done, rel, m.width);
    if TypeAt(mem, rel) == m.relative {
      assert fix[0].addr == TargetAt(mem, rel, ldbase);
      AssignedKeeps(mem, done, fix[0].addr, WORD);
      hide FixAt, TypeAt, TargetAt;
      LoadKept(mem, Assigned(mem, done), fix[0].addr);
    }
    hide *;
    FixAtKept(mem, Assigned(mem, done), m, rel, ldbase);
  }

  lemma WalkEntry(mem: seq<Byte>, now: seq<Byte>, m: Machine, all: seq<Fix>, done: seq<Fix>, t: Table)
    requires t.relsz > 0 && Walking(mem, now, m, all, done, t)
    ensures |now| == |mem| && EntryIn(mem, m, t.rel, t.ldbase) && EntryIn(now, m, t.rel, t.ldbase)
    ensures FixAt(now, m, t.rel, t.ldbase) == FixAt(mem, m, t.rel, t.ldbase)
  {
    hide EntryIn, FixAt, Assigned, Disjoint;
    var rest := Fixes(mem, m, t.Rest());
    assert all == done + FixAt(mem, m, t.rel, t.ldbase) + rest;
    assert forall i :: 0 <= i < |done| ==> done[i] == all[i];
    hide Fits, Fixes, TableIn;
    EntryKept(mem, m, done, rest, t.rel, t.ldbase);
  }

  lemma WalkNext(mem: seq<Byte>, m: Machine, all: seq<Fix>, done: seq<Fix>, t: Table)
    requires t.relsz > 0 && Placed(mem, m, all, done, t)
    requires EntryIn(mem, m, t.rel, t.ldbase)
    ensures Placed(mem, m, all, done + FixAt(mem, m, t.rel, t.ldbase), t.Rest())
  {
    hide EntryIn, FixAt, Disjoint, Fits, Apart;
    assert all == (done + FixAt(mem, m, t.rel, t.ldbase)) + Fixes(mem, m, t.Rest());
  }

  lemma WalkStep(mem: seq<Byte>, now: seq<Byte>, m: Machine, all: seq<Fix>, done: seq<Fix>, t: Table)
    requires t.relsz > 0 && Walking(mem, now, m, all, done, t)
    requires EntryIn(mem, m, t.rel, t.ldbase)
    ensures Fits(FixAt(mem, m, t.rel, t.ldbase), |now|)
    ensures Walking(mem, Assigned(now, FixAt(mem, m, t.rel, t.ldbase)), m, all, done + FixAt(mem, m, t.rel, t.ldbase),
                    t.Rest())
  {
    hide EntryIn, FixAt, Assigned, Fits, Placed;
    AssignedMore(mem, done, FixAt(mem, m, t.rel, t.ldbase));
    WalkNext(mem, m, all, done, t);
  }

  lemma WalkStart(mem: seq<Byte>, m: Machine, t: Table)
    requires WellPlaced(mem, m, t)
    ensures Walking(mem, mem, m, Fixes(mem, m, t), [], t)
  {}

  lemma WalkEnd(mem: seq<Byte>, now: seq<Byte>, m: Machine, all: seq<Fix>, done: seq<Fix>, t: Table)
    requires t.relsz <= 0 && Walking(mem, now, m, all, done, t)
    ensures all == done && Fits(all, |mem|) && now == Assigned(mem, all)
  {}

  // ----- the walk itself -----

  /** Every entry the walk comes to, in memory as it is by then, lies in memory, and so does its word. */
  predicate Runs(mem: seq<Byte>, m: Machine, t: Table)
    decreases t.Left()
  {
    t.relsz <= 0 ||
    (EntryIn(mem, m, t.rel, t.ldbase) &&
     Runs(Assigned(mem, FixAt(mem, m, t.rel, t.ldbase)), m, t.Rest()))
  }

  /** The memory after the walk: each entry is read when its turn comes. */
  function Walked(mem: seq<Byte>, m: Machine, t: Table): (r: seq<Byte>)
    requires Runs(mem, m, t)
    ensures |r| == |mem|
    decreases t.Left()
  {
    if t.relsz <= 0 then mem else
      Walked(Assigned(mem, FixAt(mem, m, t.rel, t.ldbase)), m, t.Rest())
  }

  lemma WalkedNext(mem: seq<Byte>, m: Machine, t: Table)
    requires t.relsz > 0 && Runs(mem, m, t)
    ensures EntryIn(mem, m, t.rel, t.ldbase)
    ensures var next := Assigned(mem, FixAt(mem, m, t.rel, t.ldbase));
      && Runs(next, m, t.Rest())
      && Walked(mem, m, t) == Walked(next, m, t.Rest())
  {
    hide EntryIn, FixAt, Assigned;
  }

  lemma WalkedDone(mem: seq<Byte>, m: Machine, t: Table)
    requires t.relsz <= 0
    ensures Runs(mem, m, t) && Walked(mem, m, t) == mem
  {}

  lemma {:induction false} WalkedFrom(mem: seq<Byte>, now: seq<Byte>, m: Machine, all: seq<Fix>, done: seq<Fix>,
                                      t: Table)
    requires Walking(mem, now, m, all, done, t)
    ensures Runs(now, m, t) && Fits(all, |mem|)
    ensures Walked(now, m, t) == Assigned(mem, all)
    decreases t.Left()
  {
    hide EntryIn, FixAt, Assigned, Walking, Fits;
    if t.relsz <= 0 {
      WalkEnd(mem, now, m, all, done, t);
    } else {
      WalkEntry(mem, now, m, all, done, t);
      WalkStep(mem, now, m, all, done, t);
      var fix := FixAt(mem, m, t.rel, t.ldbase);
      WalkedFrom(mem, Assigned(now, fix), m, all, done + fix, t.Rest());
    }
  }

  /** For words that are disjoint, and clear of the table, the walk makes the fixes read off the table at the
      start. */
  lemma WalkedIsFixes(mem: seq<Byte>, m: Machine, t: Table)
    requires WellPlaced(mem, m, t)
    ensures Runs(mem, m, t)
    ensures Walked(mem, m, t) == Assigned(mem, Fixes(mem, m, t))
  {
    WalkStart(mem, m, t);
    WalkedFrom(mem, mem, m, Fixes(mem, m, t), [], t);
  }

  /** _relocate, from the table found on: `while (relsz > 0)`. */
  method WalkTable(mem: array<Byte>, m: Machine, table: Table)
    requires Runs(mem[..], m, table)
    modifies mem
    ensures mem[..] == Walked(old(mem[..]), m, table)
  {
    hide *;
    var t := table;
    while t.relsz > 0
      invariant Runs(mem[..], m, t)
      invariant Walked(mem[..], m, t) == Walked(old(mem[..]), m, table)
      decreases t.relsz
    {
      WalkedNext(mem[..], m, t);
      ApplyEntry(mem, m, t.rel, t.ldbase);
      t := t.Rest();
    }
    WalkedDone(mem[..], m, t);
  }

  /** _relocate. */
  method Relocate(mem: array<Byte>, m: Machine, dyn: seq<Dyn>, ldbase: nat) returns (status: Status)
    requires exists i :: 0 <= i < |dyn| && dyn[i].tag == DT_NULL
    requires var f := Scan(dyn[..Live(dyn)], ldbase);
      f.rel != 0 && f.relent != 0 ==> f.relent > 0 && Runs(mem[..], m, Table(f.rel, f.relent, f.relsz, ldbase))
    modifies mem
    ensures var f := Scan(dyn[..Live(dyn)], ldbase);
      if f.rel == 0 || f.relent == 0
      then mem[..] == old(mem[..]) && status == if f.rel == 0 && f.relent == 0 then Success else LoadError
      else status == Success && mem[..] == Walked(old(mem[..]), m, Table(f.rel, f.relent, f.relsz, ldbase))
    ensures var was, f := old(mem[..]), Scan(dyn[..Live(dyn)], ldbase);
      f.rel != 0 && f.relent != 0 && WellPlaced(was, m, Table(f.rel, f.relent, f.relsz, ldbase)) ==>
        forall i: nat :: IsEntry(Table(f.rel, f.relent, f.relsz, ldbase), i) ==>
          EntryDone(was, mem[..], m, f.rel + i * f.relent, ldbase)
  {
    ghost var was := mem[..];
    var f := ScanDynamic(dyn, ldbase);
    if f.rel == 0 && f.relent == 0 {
      return Success;
    }
    if f.rel == 0 || f.relent == 0 {
      return LoadError;
    }
    var t := Table(f.rel, f.relent, f.relsz, ldbase);
    WalkTable(mem, m, t);
    status := Success;
    hide *;
    if WellPlaced(was, m, t) {
      EveryEntryDone(was, m, t);
    }
  }

  // ----- what a run means -----

  lemma PartOf(mem: seq<Byte>, a: nat, n: nat, i: nat)
    requires a + n <= |mem| && i + WORD <= n
    ensures mem[a + i..a + i + WORD] == mem[a..a + n][i..i + WORD]
  {
    var s, t := mem[a + i..a + i + WORD], mem[a..a + n][i..i + WORD];
    forall k | 0 <= k < WORD
      ensures s[k] == t[k]
    {
      assert t[k] == mem[a..a + n][i + k];
    }
  }

  lemma SameParts(mem: seq<Byte>, now: seq<Byte>, n: nat, a: nat, b: nat, i: nat)
    requires a + n <= |mem| && b + n <= |now| && mem[a..a + n] == now[b..b + n] && i + WORD <= n
    ensures Load(mem, a + i) == Load(now, b + i)
  {
    PartOf(mem, a, n, i);
    PartOf(now, b, n, i);
  }

  lemma SameEntryBytes(mem: seq<Byte>, now: seq<Byte>, m: Machine, rel: nat, to: nat, ldbase: nat)
    requires rel + m.width <= |mem| && to + m.width <= |now|
    requires now[to..to + m.width] == mem[rel..rel + m.width]
    ensures TypeAt(now, to) == TypeAt(mem, rel) && TargetAt(now, to, ldbase) == TargetAt(mem, rel, ldbase)
    ensures m.fromEntry ==> Load(now, to + 2 * WORD) == Load(mem, rel + 2 * WORD)
  {
    SameParts(mem, now, m.width, rel, to, 0);
    SameParts(mem, now, m.width, rel, to, WORD);
    if m.fromEntry {
      SameParts(mem, now, m.width, rel, to, 2 * WORD);
    }
  }

  /** Where entry `i` starts. */
  function Entry(t: Table, i: nat): nat {
    t.rel + i * t.relent
  }

  /** The walk gets to entry `i`. */
  predicate IsEntry(t: Table, i: nat) {
    i * t.relent < t.relsz
  }

  lemma FirstEntry(t: Table)
    ensures Entry(t, 0) == t.rel && (t.relsz > 0 ==> IsEntry(t, 0))
  {}

  lemma SomeEntry(t: Table, i: nat)
    requires IsEntry(t, i)
    ensures t.relsz > 0
  {}

  lemma SomeFix(mem: seq<Byte>, m: Machine, t: Table, f: Fix)
    requires TableIn(mem, m, t)
    requires f in Fixes(mem, m, t)
    ensures t.relsz > 0
  {}

  lemma LaterEntry(t: Table, i: nat)
    ensures Entry(t, i + 1) == Entry(t.Rest(), i)
    ensures IsEntry(t, i + 1) <==> IsEntry(t.Rest(), i)
  {
    assert (i + 1) * t.relent == i * t.relent + t.relent;
  }

  lemma {:induction false} EntriesIn(mem: seq<Byte>, m: Machine, t: Table, i: nat)
    requires TableIn(mem, m, t) && IsEntry(t, i)
    ensures EntryIn(mem, m, Entry(t, i), t.ldbase)
    decreases i
  {
    SomeEntry(t, i);
    hide EntryIn, Entry, IsEntry;
    FirstEntry(t);
    if i > 0 {
      LaterEntry(t, i - 1);
      EntriesIn(mem, m, t.Rest(), i - 1);
    }
  }

  lemma FixesNext(mem: seq<Byte>, m: Machine, t: Table, f: Fix)
    requires t.relsz > 0 && TableIn(mem, m, t)
    ensures EntryIn(mem, m, t.rel, t.ldbase) && TableIn(mem, m, t.Rest())
    ensures f in Fixes(mem, m, t) <==>
      f in FixAt(mem, m, t.rel, t.ldbase) || f in Fixes(mem, m, t.Rest())
  {
    hide EntryIn, FixAt;
  }

  /** Every entry's fix is made. */
  lemma {:induction false} EntryFixed(mem: seq<Byte>, m: Machine, t: Table,
                                      i: nat, f: Fix)
    requires TableIn(mem, m, t) && IsEntry(t, i)
    requires EntryIn(mem, m, Entry(t, i), t.ldbase) && f in FixAt(mem, m, Entry(t, i), t.ldbase)
    ensures f in Fixes(mem, m, t)
    decreases i
  {
    hide *;
    SomeEntry(t, i);
    FirstEntry(t);
    FixesNext(mem, m, t, f);
    if i > 0 {
      LaterEntry(t, i - 1);
      EntryFixed(mem, m, t.Rest(), i - 1, f);
    }
  }

  /** Every fix is some entry's. */
  lemma {:induction false} FixOfEntry(mem: seq<Byte>, m: Machine, t: Table,
                                      f: Fix)
    returns (i: nat)
    requires TableIn(mem, m, t)
    requires f in Fixes(mem, m, t)
    ensures IsEntry(t, i) && EntryIn(mem, m, Entry(t, i), t.ldbase)
    ensures f in FixAt(mem, m, Entry(t, i), t.ldbase)
    decreases t.Left()
  {
    hide *;
    SomeFix(mem, m, t, f);
    FirstEntry(t);
    FixesNext(mem, m, t, f);
    if f in FixAt(mem, m, t.rel, t.ldbase) {
      i := 0;
    } else {
      var k := FixOfEntry(mem, m, t.Rest(), f);
      LaterEntry(t, k);
      i := k + 1;
    }
  }

  lemma FixMade(mem: seq<Byte>, fs: seq<Fix>, f: Fix)
    requires Fits(fs, |mem|) && Disjoint(fs) && f in fs
    ensures f.addr + WORD <= |mem| && Load(Assigned(mem, fs), f.addr) == f.value
  {
    var k :| 0 <= k < |fs| && fs[k] == f;
    AssignedAt(mem, fs, k);
  }

  /** After a run every RELATIVE entry's word holds what the entry asks for: on x86_64 its old value plus
      `ldbase`, on AArch64 the addend plus `ldbase`. */
  lemma EveryEntryApplied(mem: seq<Byte>, m: Machine, t: Table, i: nat)
    requires WellPlaced(mem, m, t) && IsEntry(t, i)
    ensures EntryIn(mem, m, Entry(t, i), t.ldbase) && Runs(mem, m, t)
    ensures var after, entry := Walked(mem, m, t), Entry(t, i);
      TypeAt(mem, entry) == m.relative ==>
        var slot := TargetAt(mem, entry, t.ldbase);
        Load(after, slot) == (t.ldbase + if m.fromEntry then Load(mem, entry + 2 * WORD) else Load(mem, slot)) % TWO64
  {
    hide Assigned, Disjoint, Fits, Fixes, TableIn, Entry, IsEntry, ClearOfTable, Load, Runs, Walked, FixAt;
    hide WellPlaced, TargetAt;
    WellPlacedTable(mem, m, t);
    WalkedIsFixes(mem, m, t);
    EntriesIn(mem, m, t, i);
    var fs, entry := Fixes(mem, m, t), Entry(t, i);
    if TypeAt(mem, entry) == m.relative {
      var f := TheFix(mem, m, entry, t.ldbase);
      EntryFixed(mem, m, t, i, f);
      FixMade(mem, fs, f);
    }
  }

  lemma MachinesAre()
    ensures X86_64.relative == 8 && X86_64.width == 16 && !X86_64.fromEntry
    ensures AARCH64.relative == 1027 && AARCH64.width == 24 && AARCH64.fromEntry
  {}

  /** The entry at `entry` lies in memory. If the low half of its second word is the machine's type, then the word
      at `ldbase` plus its first word, modulo 2^64, holds `ldbase` plus the addend. */
  predicate EntryDone(mem: seq<Byte>, after: seq<Byte>, m: Machine, entry: nat, ldbase: nat) {
    && |after| == |mem| && entry + 16 <= |mem| && (m.fromEntry ==> entry + 24 <= |mem|)
    && (Load(mem, entry + 8) % 0x1_0000_0000 == m.relative ==>
          var slot := (ldbase + Load(mem, entry)) % 0x1_0000_0000_0000_0000;
          && slot + 8 <= |mem|
          && Load(after, slot) ==
               (ldbase + if m.fromEntry then Load(mem, entry + 16) else Load(mem, slot)) % 0x1_0000_0000_0000_0000)
  }

  lemma Applied(mem: seq<Byte>, after: seq<Byte>, m: Machine, entry: nat, ldbase: nat)
    requires |after| == |mem| && EntryIn(mem, m, entry, ldbase)
    requires TypeAt(mem, entry) == m.relative ==>
      var slot := TargetAt(mem, entry, ldbase);
      Load(after, slot) == (ldbase + if m.fromEntry then Load(mem, entry + 2 * WORD) else Load(mem, slot)) % TWO64
    ensures EntryDone(mem, after, m, entry, ldbase)
  {
    hide Load;
  }

  lemma EntryAt(t: Table, i: nat)
    ensures Entry(t, i) == t.rel + i * t.relent && (IsEntry(t, i) <==> i * t.relent < t.relsz)
  {}

  /** Every entry of the table, `i` entry sizes behind its start. */
  lemma EveryEntryDone(mem: seq<Byte>, m: Machine, t: Table)
    requires WellPlaced(mem, m, t)
    ensures Runs(mem, m, t)
    ensures forall i: nat :: IsEntry(t, i) ==> EntryDone(mem, Walked(mem, m, t), m, t.rel + i * t.relent, t.ldbase)
  {
    WalkedIsFixes(mem, m, t);
    hide *;
    forall i: nat | IsEntry(t, i)
      ensures EntryDone(mem, Walked(mem, m, t), m, t.rel + i * t.relent, t.ldbase)
    {
      EveryEntryApplied(mem, m, t, i);
      Applied(mem, Walked(mem, m, t), m, Entry(t, i), t.ldbase);
      EntryAt(t, i);
    }
  }

  /** The same written out. */
  lemma EntryMeans(mem: seq<Byte>, m: Machine, t: Table, i: nat, entry: nat)
    requires WellPlaced(mem, m, t) && i * t.relent < t.relsz && entry == t.rel + i * t.relent
    ensures Runs(mem, m, t)
    ensures entry + 16 <= |mem| && (m.fromEntry ==> entry + 24 <= |mem|)
    ensures Load(mem, entry + 8) % 0x1_0000_0000 == m.relative ==>
      var slot := (t.ldbase + Load(mem, entry)) % 0x1_0000_0000_0000_0000;
      && slot + 8 <= |mem|
      && Load(Walked(mem, m, t), slot) ==
           (t.ldbase + if m.fromEntry then Load(mem, entry + 16) else Load(mem, slot)) % 0x1_0000_0000_0000_0000
  {
    EntryAt(t, i);
    hide *;
    EveryEntryDone(mem, m, t);
    DoneMeans(mem, Walked(mem, m, t), m, entry, t.ldbase);
  }

  lemma DoneMeans(mem: seq<Byte>, after: seq<Byte>, m: Machine, entry: nat, ldbase: nat)
    requires EntryDone(mem, after, m, entry, ldbase)
    ensures |after| == |mem| && entry + 16 <= |mem| && (m.fromEntry ==> entry + 24 <= |mem|)
    ensures Load(mem, entry + 8) % 0x1_0000_0000 == m.relative ==>
      var slot := (ldbase + Load(mem, entry)) % 0x1_0000_0000_0000_0000;
      && slot + 8 <= |mem|
      && Load(after, slot) ==
           (ldbase + if m.fromEntry then Load(mem, entry + 16) else Load(mem, slot)) % 0x1_0000_0000_0000_0000
  {
    hide Load;
  }

  /** What the table asks for, written out: one fix for each RELATIVE entry, and nothing else. */
  lemma FixesMean(mem: seq<Byte>, m: Machine, t: Table, f: Fix)
    requires TableIn(mem, m, t)
    ensures f in Fixes(mem, m, t) <==> exists i: nat :: IsEntry(t, i) && Asks(mem, m, t, Entry(t, i), f)
  {
    hide Fixes, TableIn, Entry, IsEntry, Load;
    if f in Fixes(mem, m, t) {
      var i := FixOfEntry(mem, m, t, f);
    }
    if i: nat :| IsEntry(t, i) && Asks(mem, m, t, Entry(t, i), f) {
      EntriesIn(mem, m, t, i);
      EntryFixed(mem, m, t, i, f);
    }
  }

  /** The entry at `entry` is RELATIVE and asks for the fix. */
  predicate Asks(mem: seq<Byte>, m: Machine, t: Table, entry: nat, f: Fix) {
    && entry + m.width <= |mem| && Load(mem, entry + 8) % 0x1_0000_0000 == m.relative
    && f.addr == (t.ldbase + Load(mem, entry)) % 0x1_0000_0000_0000_0000 && f.addr + 8 <= |mem|
    && f.value ==
         (t.ldbase + if m.fromEntry then Load(mem, entry + 16) else Load(mem, f.addr)) % 0x1_0000_0000_0000_0000
  }

  lemma WellPlacedTable(mem: seq<Byte>, m: Machine, t: Table)
    requires WellPlaced(mem, m, t)
    ensures TableIn(mem, m, t)
    ensures var fs := Fixes(mem, m, t); Fits(fs, |mem|) && Disjoint(fs)
  {}

  lemma TheFix(mem: seq<Byte>, m: Machine, rel: nat, ldbase: nat) returns (f: Fix)
    requires EntryIn(mem, m, rel, ldbase) && TypeAt(mem, rel) == m.relative
    ensures f in FixAt(mem, m, rel, ldbase) && f.addr == TargetAt(mem, rel, ldbase)
    ensures f.value == (ldbase + if m.fromEntry then Load(mem, rel + 2 * WORD) else Load(mem, f.addr)) % TWO64
  {
    f := FixAt(mem, m, rel, ldbase)[0];
  }

  // ----- the order of the entries -----

  /** Each entry of the one table stands somewhere in the other, and its word holds the same. */
  ghost predicate HasEntriesOf(mem: seq<Byte>, mem': seq<Byte>, m: Machine, t: Table)
  {
    forall i: nat :: IsEntry(t, i) ==> EntryHeld(mem, mem', m, t, i)
  }

  ghost predicate EntryHeld(mem: seq<Byte>, mem': seq<Byte>, m: Machine, t: Table, i: nat)
  {
    exists j: nat :: IsEntry(t, j)
      && SameEntry(mem, mem', m, Entry(t, i), Entry(t, j), t.ldbase)
  }

  predicate SameEntry(mem: seq<Byte>, mem': seq<Byte>, m: Machine, rel: nat, rel': nat, ldbase: nat)
  {
    && EntryIn(mem, m, rel, ldbase) && rel' + m.width <= |mem'| == |mem|
    && mem'[rel'..rel' + m.width] == mem[rel..rel + m.width]
    && (TypeAt(mem, rel) == m.relative ==>
         var slot := TargetAt(mem, rel, ldbase); mem[slot..slot + WORD] == mem'[slot..slot + WORD])
  }

  lemma SameEntryFix(mem: seq<Byte>, mem': seq<Byte>, m: Machine, rel: nat, rel': nat, ldbase: nat)
    requires SameEntry(mem, mem', m, rel, rel', ldbase)
    ensures EntryIn(mem', m, rel', ldbase) && FixAt(mem', m, rel', ldbase) == FixAt(mem, m, rel, ldbase)
  {
    SameEntryBytes(mem, mem', m, rel, rel', ldbase);
  }

  lemma FixesCarryOver(mem: seq<Byte>, mem': seq<Byte>, m: Machine, t: Table, f: Fix)
    requires TableIn(mem, m, t)
    requires TableIn(mem', m, t) && HasEntriesOf(mem, mem', m, t)
    requires f in Fixes(mem, m, t)
    ensures f in Fixes(mem', m, t)
  {
    hide TableIn, EntryIn, FixAt, Fixes, SameEntry, IsEntry, Entry;
    var i := FixOfEntry(mem, m, t, f);
    assert EntryHeld(mem, mem', m, t, i);
    var j: nat :| IsEntry(t, j)
      && SameEntry(mem, mem', m, Entry(t, i), Entry(t, j), t.ldbase);
    SameEntryFix(mem, mem', m, Entry(t, i), Entry(t, j), t.ldbase);
    EntryFixed(mem', m, t, j, f);
  }

  /** Two images that differ only in the order of their tables' entries are relocated alike: after the run
      they differ only where they differed before. */
  lemma TableOrderIrrelevant(mem: seq<Byte>, mem': seq<Byte>, m: Machine, t: Table, p: nat)
    requires p < |mem| == |mem'| && mem[p] == mem'[p]
    requires WellPlaced(mem, m, t) && WellPlaced(mem', m, t)
    requires HasEntriesOf(mem, mem', m, t)
    requires HasEntriesOf(mem', mem, m, t)
    ensures Runs(mem, m, t) && Runs(mem', m, t)
    ensures Walked(mem, m, t)[p] == Walked(mem', m, t)[p]
  {
    WalkedIsFixes(mem, m, t);
    WalkedIsFixes(mem', m, t);
    hide Assigned, Disjoint, Fits, Fixes, TableIn, HasEntriesOf, ClearOfTable, Walked, Runs;
    var fs, gs := Fixes(mem, m, t), Fixes(mem', m, t);
    forall f
      ensures f in fs <==> f in gs
    {
      if f in fs {
        FixesCarryOver(mem, mem', m, t, f);
      }
      if f in gs {
        FixesCarryOver(mem', mem, m, t, f);
      }
    }
    SameFixesByte(mem, fs, mem', gs, p);
  }

  // ----- the two machines -----

  /** One table entry in the two machines' terms, the x86_64 word already holding the addend. */
  predicate SameMeaning(x: seq<Byte>, a: seq<Byte>, rel: nat, ldbase: nat) {
    && EntryIn(x, X86_64, rel, ldbase) && EntryIn(a, AARCH64, rel, ldbase)
    && Load(x, rel) == Load(a, rel)
    && (TypeAt(x, rel) == X86_64.relative <==> TypeAt(a, rel) == AARCH64.relative)
    && (TypeAt(x, rel) == X86_64.relative ==> Load(x, TargetAt(x, rel, ldbase)) == Load(a, rel + 2 * WORD))
  }

  ghost predicate SameTables(x: seq<Byte>, a: seq<Byte>, t: Table) {
    forall i: nat :: IsEntry(t, i) ==> SameMeaning(x, a, Entry(t, i), t.ldbase)
  }

  lemma SameRest(x: seq<Byte>, a: seq<Byte>, t: Table)
    requires t.relsz > 0 && SameTables(x, a, t)
    ensures SameMeaning(x, a, t.rel, t.ldbase) && SameTables(x, a, t.Rest())
  {
    FirstEntry(t);
    assert SameMeaning(x, a, Entry(t, 0), t.ldbase);
    hide SameMeaning, Entry, IsEntry;
    forall i: nat | IsEntry(t.Rest(), i)
      ensures SameMeaning(x, a, Entry(t.Rest(), i), t.ldbase)
    {
      LaterEntry(t, i);
      assert SameMeaning(x, a, Entry(t, i + 1), t.ldbase);
    }
  }

  lemma SameMeaningFix(x: seq<Byte>, a: seq<Byte>, rel: nat, ldbase: nat)
    requires SameMeaning(x, a, rel, ldbase)
    ensures FixAt(x, X86_64, rel, ldbase) == FixAt(a, AARCH64, rel, ldbase)
  {}

  /** On such tables the two relocators make the same fixes. */
  lemma {:induction false} MachinesAgree(x: seq<Byte>, a: seq<Byte>, t: Table)
    requires SameTables(x, a, t)
    ensures TableIn(x, X86_64, t) && TableIn(a, AARCH64, t)
    ensures Fixes(x, X86_64, t) == Fixes(a, AARCH64, t)
    decreases t.Left()
  {
    hide SameTables, FixAt;
    if t.relsz > 0 {
      SameRest(x, a, t);
      SameMeaningFix(x, a, t.rel, t.ldbase);
      MachinesAgree(x, a, t.Rest());
    }
  }

  /** So images that differ in no other byte than the type fields of their entries, and in the words that one
      of them holds the addends in, are relocated alike. */
  lemma MachinesRelocateAlike(x: seq<Byte>, a: seq<Byte>, t: Table, p: nat)
    requires SameTables(x, a, t) && p < |x| == |a|
    requires WellPlaced(x, X86_64, t) && WellPlaced(a, AARCH64, t)
    requires x[p] == a[p] || exists f :: f in Fixes(x, X86_64, t) && Covers(f, p)
    ensures Runs(x, X86_64, t) && Runs(a, AARCH64, t)
    ensures Walked(x, X86_64, t)[p] == Walked(a, AARCH64, t)[p]
  {
    WalkedIsFixes(x, X86_64, t);
    WalkedIsFixes(a, AARCH64, t);
    MachinesAgree(x, a, t);
    var fs := Fixes(x, X86_64, t);
    hide Assigned, Disjoint, Fits, Fixes, TableIn, ClearOfTable, Walked, Runs, SameTables;
    if f :| f in fs && Covers(f, p) {
      var i :| 0 <= i < |fs| && fs[i] == f;
      CoveredByte(x, fs, i, a, fs, i, p);
    } else {
      SameFixesByte(x, fs, a, fs, p);
    }
  }
}
