/** Relocation tables of which several entries name one word: what the walk of the self-relocators makes of
    them on either machine, in any order, and in a second run.
 */
module RelocRepeats {
  import opened Words
  import opened Reloc

  /** Where the walk still has to read, the memory is as it was. */
  predicate SameTable(mem: seq<Byte>, now: seq<Byte>, m: Machine, t: Table)
    decreases t.Left()
  {
    && |now| == |mem|
    && (t.relsz <= 0 ||
        (&& t.rel + m.width <= |mem| && now[t.rel..t.rel + m.width] == mem[t.rel..t.rel + m.width]
         && SameTable(mem, now, m, t.Rest())))
  }

  lemma {:induction false} SameTableStored(mem: seq<Byte>, now: seq<Byte>, m: Machine, all: seq<Fix>, f: Fix, v: nat,
                                           t: Table)
    requires SameTable(mem, now, m, t)
    requires f in all && f.addr + WORD <= |mem| && ClearOfTable(all, m, t)
    ensures SameTable(mem, Store(now, f.addr, v), m, t)
    decreases t.Left()
  {
    hide Store;
    if t.relsz > 0 {
      StoreKeeps(now, f.addr, v, t.rel, m.width);
      SameTableStored(mem, now, m, all, f, v, t.Rest());
    }
  }

  lemma {:induction false} SameTableAtStart(mem: seq<Byte>, m: Machine, t: Table)
    requires TableIn(mem, m, t)
    ensures SameTable(mem, mem, m, t)
    decreases t.Left()
  {
    if t.relsz > 0 {
      SameTableAtStart(mem, m, t.Rest());
    }
  }

  /** What becomes of the word at `a`, holding `v` at first, when the fixes are made one after the other. */
  function Folded(fs: seq<Fix>, m: Machine, a: nat, v: nat, ldbase: nat): nat {
    if fs == [] then v
    else if fs[0].addr != a then Folded(fs[1..], m, a, v, ldbase)
    else Folded(fs[1..], m, a, if m.fromEntry then fs[0].value else (ldbase + v) % TWO64, ldbase)
  }

  /** How many of the fixes are for the word at `a`. */
  function Times(fs: seq<Fix>, a: nat): nat {
    if fs == [] then 0 else (if fs[0].addr == a then 1 else 0) + Times(fs[1..], a)
  }

  lemma {:induction false} TimesMean(fs: seq<Fix>, a: nat)
    ensures Times(fs, a) == |set i | 0 <= i < |fs| && fs[i].addr == a|
    decreases |fs|
  {
    if fs != [] {
      var n := |fs| - 1;
      var front, all := set i | 0 <= i < n && fs[..n][i].addr == a, set i | 0 <= i < |fs| && fs[i].addr == a;
      TimesMean(fs[..n], a);
      TimesJoin(fs[..n], [fs[n]], a);
      assert fs == fs[..n] + [fs[n]] && [fs[n]][1..] == [];
      assert all == if fs[n].addr == a then front + {n} else front;
    }
  }

  /** A table whose words may coincide, as long as none overlaps what is read of the table. */
  predicate Spared(mem: seq<Byte>, m: Machine, t: Table)
  {
    && TableIn(mem, m, t)
    && ClearOfTable(Fixes(mem, m, t), m, t)
  }

  /** The word at `a` is named by an entry as a whole or not at all. */
  predicate Whole(fs: seq<Fix>, a: nat) {
    forall i :: 0 <= i < |fs| ==> fs[i].addr == a || Apart(fs[i].addr, WORD, a, WORD)
  }

  /** Words that the entries name coincide or lie apart. */
  predicate Coincide(fs: seq<Fix>) {
    forall i :: 0 <= i < |fs| ==> Whole(fs, fs[i].addr)
  }

  /** What an entry asks for when the walk comes to it, against what it asked for at the start. */
  predicate Later(fs: seq<Fix>, gs: seq<Fix>, now: seq<Byte>, m: Machine, ldbase: nat) {
    && |gs| == |fs| <= 1 && Fits(fs, |now|) && Fits(gs, |now|)
    && (fs != [] ==> gs[0].addr == fs[0].addr)
    && (fs != [] ==> gs[0].value == if m.fromEntry then fs[0].value else (ldbase + Load(now, fs[0].addr)) % TWO64)
  }

  lemma EntryLater(mem: seq<Byte>, now: seq<Byte>, m: Machine, rel: nat, ldbase: nat)
    requires EntryIn(mem, m, rel, ldbase) && |now| == |mem|
    requires now[rel..rel + m.width] == mem[rel..rel + m.width]
    ensures EntryIn(now, m, rel, ldbase)
    ensures Later(FixAt(mem, m, rel, ldbase), FixAt(now, m, rel, ldbase), now, m, ldbase)
  {
    hide Load;
    SameEntryBytes(mem, now, m, rel, rel, ldbase);
  }

  lemma StoreShows(now: seq<Byte>, f: Fix, a: nat)
    requires f.addr + WORD <= |now| && f.value < TWO64 && a + WORD <= |now|
    requires f.addr == a || Apart(f.addr, WORD, a, WORD)
    ensures Load(Store(now, f.addr, f.value), a) == if f.addr == a then f.value else Load(now, a)
  {
    hide Load, Store;
    if f.addr == a {
      LoadStore(now, f.addr, f.value);
    } else {
      StoreKeeps(now, f.addr, f.value, a, WORD);
      LoadKept(now, Store(now, f.addr, f.value), a);
    }
  }

  lemma EntryShows(fs: seq<Fix>, gs: seq<Fix>, now: seq<Byte>, m: Machine, ldbase: nat, a: nat)
    requires Later(fs, gs, now, m, ldbase) && a + WORD <= |now| && Whole(fs, a)
    ensures Load(Assigned(now, gs), a) == Folded(fs, m, a, Load(now, a), ldbase)
  {
    hide Load, Store, Assigned;
    if fs == [] {
      AssignedNone(now, gs);
    } else {
      assert gs == [gs[0]] && fs[1..] == [];
      AssignedOne(now, gs[0]);
      StoreShows(now, gs[0], a);
    }
  }

  lemma AssignedNone(mem: seq<Byte>, fs: seq<Fix>)
    requires fs == []
    ensures Fits(fs, |mem|) && Assigned(mem, fs) == mem
  {}

  lemma {:induction false} FoldedJoin(fs: seq<Fix>, gs: seq<Fix>, m: Machine, a: nat, v: nat, ldbase: nat)
    ensures Folded(fs + gs, m, a, v, ldbase) == Folded(gs, m, a, Folded(fs, m, a, v, ldbase), ldbase)
  {
    if fs == [] {
      assert fs + gs == gs;
    } else {
      assert (fs + gs)[1..] == fs[1..] + gs;
      var w := if m.fromEntry then fs[0].value else (ldbase + v) % TWO64;
      FoldedJoin(fs[1..], gs, m, a, if fs[0].addr == a then w else v, ldbase);
    }
  }

  /** In the middle of the walk: the table ahead is as it was. */
  predicate Ahead(mem: seq<Byte>, now: seq<Byte>, m: Machine, all: seq<Fix>, t: Table)
  {
    && TableIn(mem, m, t) && ClearOfTable(all, m, t)
    && (forall f :: f in Fixes(mem, m, t) ==> f in all)
    && SameTable(mem, now, m, t)
  }

  lemma AheadEntry(mem: seq<Byte>, now: seq<Byte>, m: Machine, all: seq<Fix>, t: Table)
    requires t.relsz > 0 && Ahead(mem, now, m, all, t)
    ensures EntryIn(mem, m, t.rel, t.ldbase) && EntryIn(now, m, t.rel, t.ldbase) && |now| == |mem|
    ensures Later(FixAt(mem, m, t.rel, t.ldbase), FixAt(now, m, t.rel, t.ldbase), now, m, t.ldbase)
    ensures TableIn(mem, m, t.Rest())
    ensures Fixes(mem, m, t) ==
      FixAt(mem, m, t.rel, t.ldbase) + Fixes(mem, m, t.Rest())
  {
    hide EntryIn, FixAt, Later;
    EntryLater(mem, now, m, t.rel, t.ldbase);
  }

  lemma LaterSpares(mem: seq<Byte>, now: seq<Byte>, m: Machine, all: seq<Fix>, fs: seq<Fix>, gs: seq<Fix>,
                    t: Table, ldbase: nat)
    requires SameTable(mem, now, m, t) && ClearOfTable(all, m, t)
    requires |now| == |mem| && Later(fs, gs, now, m, ldbase) && forall f :: f in fs ==> f in all
    ensures Fits(gs, |now|) && SameTable(mem, Assigned(now, gs), m, t)
  {
    hide Assigned, Load, SameTable, ClearOfTable;
    if gs == [] {
      AssignedNone(now, gs);
    } else {
      assert gs == [gs[0]] && fs[0] in all;
      AssignedOne(now, gs[0]);
      SameTableStored(mem, now, m, all, fs[0], gs[0].value, t);
    }
  }

  lemma AheadHas(mem: seq<Byte>, now: seq<Byte>, m: Machine, all: seq<Fix>, t: Table)
    requires t.relsz > 0 && Ahead(mem, now, m, all, t)
    requires EntryIn(mem, m, t.rel, t.ldbase)
    ensures forall f :: f in FixAt(mem, m, t.rel, t.ldbase) ==> f in all
  {
    hide EntryIn, FixAt;
    assert forall f :: f in FixAt(mem, m, t.rel, t.ldbase) ==> f in Fixes(mem, m, t);
  }

  lemma AheadNext(mem: seq<Byte>, now: seq<Byte>, m: Machine, all: seq<Fix>, fs: seq<Fix>, gs: seq<Fix>, t: Table)
    requires t.relsz > 0 && Ahead(mem, now, m, all, t)
    requires EntryIn(mem, m, t.rel, t.ldbase) && fs == FixAt(mem, m, t.rel, t.ldbase) && Later(fs, gs, now, m, t.ldbase)
    ensures Fits(gs, |now|)
    ensures Ahead(mem, Assigned(now, gs), m, all, t.Rest())
  {
    hide EntryIn, FixAt, Assigned, Load, Later;
    AheadHas(mem, now, m, all, t);
    LaterSpares(mem, now, m, all, fs, gs, t.Rest(), t.ldbase);
  }

  /** From here on the word at `a` goes through the fixes still to come, and stays if there are none. */
  lemma {:induction false} SlotFrom(mem: seq<Byte>, now: seq<Byte>, m: Machine, all: seq<Fix>, t: Table, a: nat)
    requires Ahead(mem, now, m, all, t)
    requires TableIn(mem, m, t)
    requires a + WORD <= |now| && Whole(Fixes(mem, m, t), a)
    ensures Runs(now, m, t)
    ensures Load(Walked(now, m, t), a)
      == Folded(Fixes(mem, m, t), m, a, Load(now, a), t.ldbase)
    decreases t.Left()
  {
    hide Ahead, EntryIn, FixAt, Assigned, Load, Later, TableIn;
    if t.relsz > 0 {
      AheadEntry(mem, now, m, all, t);
      var fs, gs := FixAt(mem, m, t.rel, t.ldbase), FixAt(now, m, t.rel, t.ldbase);
      AheadNext(mem, now, m, all, fs, gs, t);
      var rest := Fixes(mem, m, t.Rest());
      assert Whole(fs + rest, a);
      WholeParts(fs, rest, a);
      hide Whole, Folded, Fixes;
      SlotFrom(mem, Assigned(now, gs), m, all, t.Rest(), a);
      EntryShows(fs, gs, now, m, t.ldbase, a);
      FoldedJoin(fs, rest, m, a, Load(now, a), t.ldbase);
    }
  }

  lemma WholeParts(fs: seq<Fix>, gs: seq<Fix>, a: nat)
    requires Whole(fs + gs, a)
    ensures Whole(fs, a) && Whole(gs, a)
  {
    forall i | 0 <= i < |gs|
      ensures gs[i].addr == a || Apart(gs[i].addr, WORD, a, WORD)
    {
      assert (fs + gs)[|fs| + i] == gs[i];
    }
    forall i | 0 <= i < |fs|
      ensures fs[i].addr == a || Apart(fs[i].addr, WORD, a, WORD)
    {
      assert (fs + gs)[i] == fs[i];
    }
  }

  lemma SlotFolds(mem: seq<Byte>, m: Machine, t: Table, a: nat)
    requires Spared(mem, m, t)
    requires a + WORD <= |mem| && Whole(Fixes(mem, m, t), a)
    ensures Runs(mem, m, t) && TableIn(mem, m, t)
    ensures Load(Walked(mem, m, t), a)
      == Folded(Fixes(mem, m, t), m, a, Load(mem, a), t.ldbase)
  {
    SameTableAtStart(mem, m, t);
    SlotFrom(mem, mem, m, Fixes(mem, m, t), t, a);
  }

  lemma {:induction false} FoldedCounts(fs: seq<Fix>, a: nat, v: nat, ldbase: nat)
    requires v < TWO64
    ensures Folded(fs, X86_64, a, v, ldbase) == (v + Times(fs, a) * ldbase) % TWO64
  {
    if fs != [] {
      var rest, w := Times(fs[1..], a), if fs[0].addr == a then (ldbase + v) % TWO64 else v;
      FoldedCounts(fs[1..], a, w, ldbase);
      assert Folded(fs, X86_64, a, v, ldbase) == (w + rest * ldbase) % TWO64;
      assert Times(fs, a) == if fs[0].addr == a then 1 + rest else rest;
      hide Folded, Times;
      if fs[0].addr == a {
        OnceMore(v, rest, ldbase);
      }
    }
  }

  lemma OnceMore(v: nat, n: nat, ldbase: nat)
    ensures ((ldbase + v) % TWO64 + n * ldbase) % TWO64 == (v + (1 + n) * ldbase) % TWO64
  {
    var y := n * ldbase;
    assert (1 + n) * ldbase == ldbase + y;
    ModAdds(ldbase + v, y);
  }

  lemma ModAdds(x: nat, y: nat)
    ensures (x % TWO64 + y) % TWO64 == (x + y) % TWO64
  {}

  lemma {:induction false} FoldedLast(fs: seq<Fix>, a: nat, v: nat, ldbase: nat, k: nat)
    requires k < |fs| && fs[k].addr == a && forall i :: k < i < |fs| ==> fs[i].addr != a
    ensures Folded(fs, AARCH64, a, v, ldbase) == fs[k].value
  {
    var w := if fs[0].addr == a then fs[0].value else v;
    if k > 0 {
      assert fs[1..][k - 1] == fs[k] && forall i :: k - 1 < i < |fs[1..]| ==> fs[1..][i] == fs[i + 1];
      FoldedLast(fs[1..], a, w, ldbase, k - 1);
    } else {
      assert forall i :: 0 <= i < |fs[1..]| ==> fs[1..][i] == fs[i + 1];
      FoldedNone(fs[1..], AARCH64, a, w, ldbase);
    }
  }

  lemma {:induction false} FoldedNone(fs: seq<Fix>, m: Machine, a: nat, v: nat, ldbase: nat)
    requires forall i :: 0 <= i < |fs| ==> fs[i].addr != a
    ensures Folded(fs, m, a, v, ldbase) == v
  {
    if fs != [] {
      FoldedNone(fs[1..], m, a, v, ldbase);
    }
  }

  /** On x86_64 a word takes `ldbase` once for every entry that names it, so it ends as its entry asked iff
      the further additions come to nothing. */
  lemma NamedAgainAddsAgain(mem: seq<Byte>, t: Table, a: nat)
    requires Spared(mem, X86_64, t)
    requires a + WORD <= |mem| && Whole(Fixes(mem, X86_64, t), a)
    ensures Runs(mem, X86_64, t)
    ensures var after := Load(Walked(mem, X86_64, t), a);
      var n := Times(Fixes(mem, X86_64, t), a);
      && after == (Load(mem, a) + n * t.ldbase) % TWO64
      && (n > 0 ==> (after == (Load(mem, a) + t.ldbase) % TWO64 <==> (n - 1) * t.ldbase % TWO64 == 0))
  {
    hide Spared, Runs, Walked, Fixes, Folded, Load, TableIn, Times, Whole, Fits;
    SlotFolds(mem, X86_64, t, a);
    var fs := Fixes(mem, X86_64, t);
    FoldedCounts(fs, a, Load(mem, a), t.ldbase);
    if Times(fs, a) > 0 {
      MoreAdded(Load(mem, a), Times(fs, a), t.ldbase);
    }
  }

  lemma StaysIff(a: nat, v: nat)
    requires v < TWO64
    ensures (a + v) % TWO64 == v <==> a % TWO64 == 0
  {
    var q := (a + v) / TWO64;
    assert a + v == q * TWO64 + (a + v) % TWO64;
  }

  lemma MoreAdded(v: nat, n: nat, ldbase: nat)
    requires n > 0
    ensures (v + n * ldbase) % TWO64 == (v + ldbase) % TWO64 <==> (n - 1) * ldbase % TWO64 == 0
  {
    var y := (n - 1) * ldbase;
    assert n * ldbase == ldbase + y;
    ModAdds(v + ldbase, y);
    StaysIff(y, (v + ldbase) % TWO64);
  }

  /** On AArch64 the last entry that names the word decides. */
  lemma NamedAgainLastDecides(mem: seq<Byte>, t: Table, a: nat, k: nat)
    requires Spared(mem, AARCH64, t)
    requires a + WORD <= |mem| && Whole(Fixes(mem, AARCH64, t), a)
    requires var fs := Fixes(mem, AARCH64, t);
      k < |fs| && fs[k].addr == a && forall i :: k < i < |fs| ==> fs[i].addr != a
    ensures Runs(mem, AARCH64, t)
    ensures Load(Walked(mem, AARCH64, t), a)
      == Fixes(mem, AARCH64, t)[k].value
  {
    SlotFolds(mem, AARCH64, t, a);
    FoldedLast(Fixes(mem, AARCH64, t), a, Load(mem, a), t.ldbase, k);
  }

  lemma {:induction false} ByteFrom(mem: seq<Byte>, now: seq<Byte>, m: Machine, all: seq<Fix>, t: Table, p: nat)
    requires Ahead(mem, now, m, all, t)
    requires TableIn(mem, m, t) && p < |now|
    requires forall f :: f in Fixes(mem, m, t) ==> !Covers(f, p)
    ensures Runs(now, m, t)
    ensures Walked(now, m, t)[p] == now[p]
    decreases t.Left()
  {
    hide Ahead, EntryIn, FixAt, Assigned, Later, TableIn, Covers;
    if t.relsz > 0 {
      AheadEntry(mem, now, m, all, t);
      var fs, gs := FixAt(mem, m, t.rel, t.ldbase), FixAt(now, m, t.rel, t.ldbase);
      AheadNext(mem, now, m, all, fs, gs, t);
      assert forall f :: f in fs ==> f in Fixes(mem, m, t);
      hide Fixes, Fits;
      LaterByte(fs, gs, now, m, t.ldbase, p);
      ByteFrom(mem, Assigned(now, gs), m, all, t.Rest(), p);
    }
  }

  lemma LaterByte(fs: seq<Fix>, gs: seq<Fix>, now: seq<Byte>, m: Machine, ldbase: nat, p: nat)
    requires Later(fs, gs, now, m, ldbase) && p < |now| && forall f :: f in fs ==> !Covers(f, p)
    ensures Fits(gs, |now|) && Assigned(now, gs)[p] == now[p]
  {
    hide Load, Assigned;
    assert fs != [] ==> !Covers(fs[0], p);
    UncoveredByte(now, gs, p);
  }

  lemma UnnamedByte(mem: seq<Byte>, m: Machine, t: Table, p: nat)
    requires Spared(mem, m, t) && p < |mem|
    requires forall f :: f in Fixes(mem, m, t) ==> !Covers(f, p)
    ensures Runs(mem, m, t) && Walked(mem, m, t)[p] == mem[p]
  {
    SameTableAtStart(mem, m, t);
    ByteFrom(mem, mem, m, Fixes(mem, m, t), t, p);
  }

  /** The entry is RELATIVE and byte `p` belongs to its word. */
  predicate Touches(mem: seq<Byte>, m: Machine, rel: nat, ldbase: nat, p: nat)
  {
    && EntryIn(mem, m, rel, ldbase) && TypeAt(mem, rel) == m.relative
    && TargetAt(mem, rel, ldbase) <= p < TargetAt(mem, rel, ldbase) + WORD
  }

  /** A byte in no RELATIVE entry's word stays as it was. */
  lemma NothingElseChanges(mem: seq<Byte>, m: Machine, t: Table, p: nat)
    requires Spared(mem, m, t) && p < |mem|
    requires forall i: nat :: IsEntry(t, i) ==> !Touches(mem, m, Entry(t, i), t.ldbase, p)
    ensures Runs(mem, m, t) && Walked(mem, m, t)[p] == mem[p]
  {
    hide TableIn, Fixes, FixAt, EntryIn, Covers, Entry, IsEntry, ClearOfTable, Runs, Walked, Touches;
    forall f | f in Fixes(mem, m, t)
      ensures !Covers(f, p)
    {
      var i := FixOfEntry(mem, m, t, f);
      assert !Touches(mem, m, Entry(t, i), t.ldbase, p);
      NotCovered(mem, m, Entry(t, i), t.ldbase, f, p);
    }
    UnnamedByte(mem, m, t, p);
  }

  lemma NotCovered(mem: seq<Byte>, m: Machine, rel: nat, ldbase: nat, f: Fix, p: nat)
    requires EntryIn(mem, m, rel, ldbase) && f in FixAt(mem, m, rel, ldbase)
    requires !Touches(mem, m, rel, ldbase, p)
    ensures !Covers(f, p)
  {}

  /** On x86_64 every fix adds `ldbase` to the word as it is. */
  lemma FixAdds(mem: seq<Byte>, t: Table, f: Fix)
    requires TableIn(mem, X86_64, t)
    requires f in Fixes(mem, X86_64, t)
    ensures f.addr + WORD <= |mem| && f.value == (t.ldbase + Load(mem, f.addr)) % TWO64
  {
    hide Fixes, TableIn, Load, Entry, IsEntry;
    var i := FixOfEntry(mem, X86_64, t, f);
  }

  lemma {:induction false} LastNamed(fs: seq<Fix>, a: nat) returns (k: nat)
    requires Times(fs, a) > 0
    ensures k < |fs| && fs[k].addr == a && forall i :: k < i < |fs| ==> fs[i].addr != a
  {
    if Times(fs[1..], a) > 0 {
      var j := LastNamed(fs[1..], a);
      assert forall i :: j + 1 < i < |fs| ==> fs[i] == fs[1..][i - 1];
      k := j + 1;
    } else {
      k := 0;
      NotNamed(fs[1..], a);
      assert forall i :: 0 < i < |fs| ==> fs[i] == fs[1..][i - 1];
    }
  }

  lemma {:induction false} NotNamed(fs: seq<Fix>, a: nat)
    requires Times(fs, a) == 0
    ensures forall i :: 0 <= i < |fs| ==> fs[i].addr != a
  {
    if fs != [] {
      NotNamed(fs[1..], a);
      assert forall i :: 0 < i < |fs| ==> fs[i] == fs[1..][i - 1];
    }
  }

  /** Where each word holds its addends, the two machines agree on a word exactly when what x86_64 adds more than
      once comes to nothing. */
  lemma MachinesAgreeIff(x: seq<Byte>, a: seq<Byte>, t: Table, slot: nat)
    requires SameTables(x, a, t) && slot + WORD <= |x| == |a|
    requires Spared(x, X86_64, t) && Spared(a, AARCH64, t)
    requires Whole(Fixes(x, X86_64, t), slot)
    requires Times(Fixes(x, X86_64, t), slot) > 0
    ensures Runs(x, X86_64, t) && Runs(a, AARCH64, t)
    ensures var n := Times(Fixes(x, X86_64, t), slot);
      var x', a' := Walked(x, X86_64, t), Walked(a, AARCH64, t);
      Load(x', slot) == Load(a', slot) <==> (n - 1) * t.ldbase % TWO64 == 0
  {
    hide Fixes, TableIn, ClearOfTable, Walked, Runs, Load, Times, Whole, SameTables;
    MachinesAgree(x, a, t);
    var fs := Fixes(x, X86_64, t);
    var k := LastNamed(fs, slot);
    NamedAgainLastDecides(a, t, slot, k);
    FixAdds(x, t, fs[k]);
    NamedAgainAddsAgain(x, t, slot);
  }

  lemma SameMembers(fs: seq<Fix>, gs: seq<Fix>)
    requires multiset(fs) == multiset(gs)
    ensures forall f :: f in fs <==> f in gs
  {
    assert forall f :: f in fs <==> f in multiset(fs);
    assert forall f :: f in gs <==> f in multiset(gs);
  }

  lemma OneLess(fs: seq<Fix>, gs: seq<Fix>, k: nat)
    requires fs != [] && k < |gs| && gs[k] == fs[0] && multiset(fs) == multiset(gs)
    ensures multiset(fs[1..]) == multiset(gs[..k] + gs[k + 1..])
  {
    assert fs == [fs[0]] + fs[1..] && gs == gs[..k] + [gs[k]] + gs[k + 1..];
    assert multiset(fs[1..]) == multiset(fs) - multiset{fs[0]};
    assert multiset(gs[..k] + gs[k + 1..]) == multiset(gs) - multiset{gs[k]};
  }

  lemma {:induction false} TimesAnyOrder(fs: seq<Fix>, gs: seq<Fix>, a: nat)
    requires multiset(fs) == multiset(gs)
    ensures Times(fs, a) == Times(gs, a)
  {
    assert |fs| == |gs| by {
      assert |multiset(fs)| == |multiset(gs)|;
    }
    if fs != [] {
      SameMembers(fs, gs);
      assert fs[0] in gs;
      var k :| 0 <= k < |gs| && gs[k] == fs[0];
      OneLess(fs, gs, k);
      TimesAnyOrder(fs[1..], gs[..k] + gs[k + 1..], a);
      TimesWithout(gs, k, a);
    }
  }

  lemma TimesWithout(fs: seq<Fix>, k: nat, a: nat)
    requires k < |fs|
    ensures Times(fs, a) == Times(fs[..k] + fs[k + 1..], a) + if fs[k].addr == a then 1 else 0
  {
    TimesJoin(fs[..k], fs[k + 1..], a);
    TimesJoin(fs[..k], fs[k..], a);
    assert fs[k..][1..] == fs[k + 1..] && fs[..k] + fs[k..] == fs;
  }

  lemma {:induction false} TimesJoin(fs: seq<Fix>, gs: seq<Fix>, a: nat)
    ensures Times(fs + gs, a) == Times(fs, a) + Times(gs, a)
  {
    if fs == [] {
      assert fs + gs == gs;
    } else {
      assert (fs + gs)[1..] == fs[1..] + gs;
      TimesJoin(fs[1..], gs, a);
    }
  }

  lemma SameSum(x: nat, y: nat, ldbase: nat)
    requires x < TWO64 && y < TWO64 && (ldbase + x) % TWO64 == (ldbase + y) % TWO64
    ensures x == y
  {
    var q, r := (ldbase + x) / TWO64, (ldbase + y) / TWO64;
    assert x - y == (q - r) * TWO64;
  }

  /** On x86_64 the order of the entries does not matter even where words coincide: tables that ask for the same
      fixes equally often leave every byte alike that was alike. */
  lemma RepeatedWordsAnyOrder(mem: seq<Byte>, mem': seq<Byte>, t: Table, p: nat)
    requires p < |mem| == |mem'| && mem[p] == mem'[p]
    requires Spared(mem, X86_64, t) && Spared(mem', X86_64, t)
    requires Coincide(Fixes(mem, X86_64, t))
    requires multiset(Fixes(mem, X86_64, t))
      == multiset(Fixes(mem', X86_64, t))
    ensures Runs(mem, X86_64, t) && Runs(mem', X86_64, t)
    ensures Walked(mem, X86_64, t)[p] == Walked(mem', X86_64, t)[p]
  {
    hide Fixes, TableIn, ClearOfTable, Walked, Runs, Load, Times, Covers, Whole, Fits;
    var fs, gs := Fixes(mem, X86_64, t), Fixes(mem', X86_64, t);
    SameMembers(fs, gs);
    if f :| f in fs && Covers(f, p) {
      SharedWord(mem, mem', t, f, p);
    } else {
      UnnamedByte(mem, X86_64, t, p);
      UnnamedByte(mem', X86_64, t, p);
    }
  }

  lemma SharedWord(mem: seq<Byte>, mem': seq<Byte>, t: Table, f: Fix, p: nat)
    requires |mem| == |mem'| && Covers(f, p)
    requires Spared(mem, X86_64, t) && Spared(mem', X86_64, t)
    requires f in Fixes(mem, X86_64, t)
    requires Coincide(Fixes(mem, X86_64, t))
    requires multiset(Fixes(mem, X86_64, t))
      == multiset(Fixes(mem', X86_64, t))
    ensures p < |mem| && Runs(mem, X86_64, t) && Runs(mem', X86_64, t)
    ensures Walked(mem, X86_64, t)[p] == Walked(mem', X86_64, t)[p]
  {
    hide Fixes, TableIn, ClearOfTable, Walked, Runs, Load, Times, Whole, Fits;
    var fs, gs := Fixes(mem, X86_64, t), Fixes(mem', X86_64, t);
    SameMembers(fs, gs);
    WholeElsewhere(fs, gs, f);
    TimesAnyOrder(fs, gs, f.addr);
    FixAdds(mem, t, f);
    FixAdds(mem', t, f);
    SameSum(Load(mem, f.addr), Load(mem', f.addr), t.ldbase);
    NamedAgainAddsAgain(mem, t, f.addr);
    NamedAgainAddsAgain(mem', t, f.addr);
    var after := Walked(mem, X86_64, t);
    var after' := Walked(mem', X86_64, t);
    LoadDetermines(after, after', f.addr, p);
  }

  lemma WholeElsewhere(fs: seq<Fix>, gs: seq<Fix>, f: Fix)
    requires Coincide(fs) && f in fs && forall g :: g in fs <==> g in gs
    ensures Whole(fs, f.addr) && Whole(gs, f.addr)
  {
    var i :| 0 <= i < |fs| && fs[i] == f;
    assert Whole(fs, fs[i].addr);
    forall j | 0 <= j < |gs|
      ensures gs[j].addr == f.addr || Apart(gs[j].addr, WORD, f.addr, WORD)
    {
      assert gs[j] in fs;
    }
  }

  // ----- a second run -----

  /** The walk from here on leaves the table `whole` alone. */
  lemma {:induction false} TableStays(mem: seq<Byte>, now: seq<Byte>, m: Machine, all: seq<Fix>, whole: Table,
                                      t: Table)
    requires Ahead(mem, now, m, all, t)
    requires SameTable(mem, now, m, whole) && ClearOfTable(all, m, whole)
    ensures Runs(now, m, t)
    ensures SameTable(mem, Walked(now, m, t), m, whole)
    decreases t.Left()
  {
    hide Ahead, EntryIn, FixAt, Assigned, Later, TableIn, SameTable, ClearOfTable, Fixes;
    if t.relsz > 0 {
      AheadEntry(mem, now, m, all, t);
      var fs, gs := FixAt(mem, m, t.rel, t.ldbase), FixAt(now, m, t.rel, t.ldbase);
      AheadNext(mem, now, m, all, fs, gs, t);
      AheadHas(mem, now, m, all, t);
      LaterSpares(mem, now, m, all, fs, gs, whole, t.ldbase);
      TableStays(mem, Assigned(now, gs), m, all, whole, t.Rest());
    }
  }

  /** What the unchanged table asks for now, against what it asked for then. */
  predicate AsksAgain(fs: seq<Fix>, gs: seq<Fix>, now: seq<Byte>, m: Machine, ldbase: nat) {
    && |gs| == |fs| && Fits(fs, |now|)
    && (forall i :: 0 <= i < |fs| ==> gs[i].addr == fs[i].addr)
    && (m.fromEntry ==> gs == fs)
  }

  lemma {:induction false} TableAsksAgain(mem: seq<Byte>, now: seq<Byte>, m: Machine, t: Table)
    requires TableIn(mem, m, t)
    requires SameTable(mem, now, m, t)
    ensures TableIn(now, m, t)
    ensures var fs, gs := Fixes(mem, m, t), Fixes(now, m, t);
      AsksAgain(fs, gs, now, m, t.ldbase)
    decreases t.Left()
  {
    hide EntryIn, FixAt, AsksAgain, Later, Load;
    if t.relsz > 0 {
      EntryLater(mem, now, m, t.rel, t.ldbase);
      TableAsksAgain(mem, now, m, t.Rest());
      hide TableIn, SameTable, Fixes;
      AsksAgainJoin(FixAt(mem, m, t.rel, t.ldbase), FixAt(now, m, t.rel, t.ldbase),
        Fixes(mem, m, t.Rest()),
        Fixes(now, m, t.Rest()), now, m, t.ldbase);
    } else {
      NothingAsked(now, m, t.ldbase);
    }
  }

  lemma AsksAgainJoin(fs: seq<Fix>, gs: seq<Fix>, fs': seq<Fix>, gs': seq<Fix>, now: seq<Byte>, m: Machine, ldbase: nat)
    requires Later(fs, gs, now, m, ldbase) && AsksAgain(fs', gs', now, m, ldbase)
    ensures AsksAgain(fs + fs', gs + gs', now, m, ldbase)
  {}

  lemma NothingAsked(now: seq<Byte>, m: Machine, ldbase: nat)
    ensures AsksAgain([], [], now, m, ldbase)
  {}

  lemma {:induction false} SameAddressesClear(fs: seq<Fix>, gs: seq<Fix>, m: Machine, t: Table)
    requires |gs| == |fs| && forall i :: 0 <= i < |fs| ==> gs[i].addr == fs[i].addr
    requires ClearOfTable(fs, m, t)
    ensures ClearOfTable(gs, m, t)
    decreases t.Left()
  {
    if t.relsz > 0 {
      SameAddressesClear(fs, gs, m, t.Rest());
    }
  }

  lemma {:induction false} SameAddressesTimes(fs: seq<Fix>, gs: seq<Fix>, a: nat)
    requires |gs| == |fs| && forall i :: 0 <= i < |fs| ==> gs[i].addr == fs[i].addr
    ensures Times(gs, a) == Times(fs, a) && (Whole(fs, a) ==> Whole(gs, a))
  {
    if fs != [] {
      SameAddressesTimes(fs[1..], gs[1..], a);
    }
  }

  /** After one run the table can be walked again, and names the same words. */
  lemma SparedAgain(mem: seq<Byte>, m: Machine, t: Table)
    requires Spared(mem, m, t)
    ensures Runs(mem, m, t)
    ensures var fs, after := Fixes(mem, m, t), Walked(mem, m, t);
      && Spared(after, m, t)
      && AsksAgain(fs, Fixes(after, m, t), after, m, t.ldbase)
  {
    hide Fixes, TableIn, ClearOfTable, SameTable, Walked, Runs;
    var fs := Fixes(mem, m, t);
    SameTableAtStart(mem, m, t);
    TableStays(mem, mem, m, fs, t, t);
    var after := Walked(mem, m, t);
    TableAsksAgain(mem, after, m, t);
    SameAddressesClear(fs, Fixes(after, m, t), m, t);
  }

  /** On AArch64 what the word held first does not matter. */
  lemma {:induction false} FoldedForgets(fs: seq<Fix>, a: nat, v: nat, w: nat, ldbase: nat)
    requires exists i :: 0 <= i < |fs| && fs[i].addr == a
    ensures Folded(fs, AARCH64, a, v, ldbase) == Folded(fs, AARCH64, a, w, ldbase)
  {
    if fs[0].addr != a {
      var i :| 0 <= i < |fs| && fs[i].addr == a;
      assert fs[1..][i - 1].addr == a;
      FoldedForgets(fs[1..], a, v, w, ldbase);
    }
  }

  lemma FoldedAgain(fs: seq<Fix>, gs: seq<Fix>, m: Machine, a: nat, v: nat, w: nat, ldbase: nat)
    requires |gs| == |fs| && (forall i :: 0 <= i < |fs| ==> gs[i].addr == fs[i].addr)
    requires (m.fromEntry ==> gs == fs) && v < TWO64 && w == Folded(fs, m, a, v, ldbase) < TWO64
    requires exists i :: 0 <= i < |fs| && fs[i].addr == a
    ensures Folded(gs, m, a, w, ldbase) == w <==> m.fromEntry || Times(fs, a) * ldbase % TWO64 == 0
  {
    hide Folded, Times;
    if m.fromEntry {
      FoldedForgets(fs, a, v, w, ldbase);
    } else {
      SameAddressesTimes(fs, gs, a);
      FoldedCounts(gs, a, w, ldbase);
      StaysIff(Times(fs, a) * ldbase, w);
    }
  }

  lemma SlotAgain(mem: seq<Byte>, m: Machine, t: Table, a: nat)
    requires Spared(mem, m, t)
    requires a + WORD <= |mem| && Whole(Fixes(mem, m, t), a)
    requires var fs := Fixes(mem, m, t); exists i :: 0 <= i < |fs| && fs[i].addr == a
    ensures Runs(mem, m, t)
    ensures var n := Times(Fixes(mem, m, t), a);
      var after := Walked(mem, m, t);
      && Runs(after, m, t)
      && (Load(Walked(after, m, t), a) == Load(after, a)
          <==> m.fromEntry || n * t.ldbase % TWO64 == 0)
  {
    hide Fixes, TableIn, ClearOfTable, Walked, Runs, Load, Folded, Times, Whole, Fits;
    SparedAgain(mem, m, t);
    var after := Walked(mem, m, t);
    var fs, gs := Fixes(mem, m, t), Fixes(after, m, t);
    SameAddressesTimes(fs, gs, a);
    SlotFolds(mem, m, t, a);
    SlotFolds(after, m, t, a);
    FoldedAgain(fs, gs, m, a, Load(mem, a), Load(after, a), t.ldbase);
  }

  lemma SameIffWords(x: seq<Byte>, y: seq<Byte>, fs: seq<Fix>)
    requires |x| == |y| && Fits(fs, |x|)
    requires forall p: nat :: p < |x| && (forall f :: f in fs ==> !Covers(f, p)) ==> x[p] == y[p]
    ensures x == y <==> forall i :: 0 <= i < |fs| ==> Load(x, fs[i].addr) == Load(y, fs[i].addr)
  {
    if forall i :: 0 <= i < |fs| ==> Load(x, fs[i].addr) == Load(y, fs[i].addr) {
      forall p: nat | p < |x|
        ensures x[p] == y[p]
      {
        if f :| f in fs && Covers(f, p) {
          LoadDetermines(x, y, f.addr, p);
        }
      }
    }
  }

  /** All that is added to a word comes to nothing. */
  predicate Vanishing(fs: seq<Fix>, ldbase: nat) {
    forall i :: 0 <= i < |fs| ==> Times(fs, fs[i].addr) * ldbase % TWO64 == 0
  }

  /** A second run changes nothing exactly when entries carry their addends, or `ldbase` times the number of
      entries that name a word is nothing for every word named. */
  lemma SecondRunIff(mem: seq<Byte>, m: Machine, t: Table)
    requires Spared(mem, m, t)
    requires Coincide(Fixes(mem, m, t))
    ensures Runs(mem, m, t)
    ensures var after := Walked(mem, m, t);
      && Runs(after, m, t)
      && (Walked(after, m, t) == after
          <==> m.fromEntry || Vanishing(Fixes(mem, m, t), t.ldbase))
  {
    hide Fixes, TableIn, ClearOfTable, Walked, Runs, Load, Times, Whole, Covers;
    SparedAgain(mem, m, t);
    var after := Walked(mem, m, t);
    var fs, gs := Fixes(mem, m, t), Fixes(after, m, t);
    SparedRuns(after, m, t);
    var twice := Walked(after, m, t);
    forall p: nat | p < |after| && forall f :: f in fs ==> !Covers(f, p)
      ensures twice[p] == after[p]
    {
      CoversAlike(fs, gs, p);
      UnnamedByte(after, m, t, p);
    }
    SameIffWords(twice, after, fs);
    forall i | 0 <= i < |fs|
      ensures Load(twice, fs[i].addr) == Load(after, fs[i].addr)
        <==> m.fromEntry || Times(fs, fs[i].addr) * t.ldbase % TWO64 == 0
    {
      SlotAgain(mem, m, t, fs[i].addr);
    }
  }

  lemma SparedRuns(mem: seq<Byte>, m: Machine, t: Table)
    requires Spared(mem, m, t)
    ensures Runs(mem, m, t)
  {
    SparedAgain(mem, m, t);
  }

  lemma CoversAlike(fs: seq<Fix>, gs: seq<Fix>, p: nat)
    requires |gs| == |fs| && (forall i :: 0 <= i < |fs| ==> gs[i].addr == fs[i].addr)
    requires forall f :: f in fs ==> !Covers(f, p)
    ensures forall f :: f in gs ==> !Covers(f, p)
  {
    forall f | f in gs
      ensures !Covers(f, p)
    {
      var i :| 0 <= i < |gs| && gs[i] == f;
      assert fs[i] in fs;
    }
  }

  lemma {:induction false} TimesWhenApart(fs: seq<Fix>, i: nat)
    requires Disjoint(fs) && i < |fs|
    ensures Times(fs, fs[i].addr) == 1
  {
    assert Disjoint(fs[1..]) by {
      assert forall j :: 0 <= j < |fs[1..]| ==> fs[1..][j] == fs[j + 1];
    }
    if i == 0 {
      NoTimes(fs[1..], fs[0].addr);
    } else {
      assert fs[1..][i - 1] == fs[i] && Apart(fs[0].addr, WORD, fs[i].addr, WORD);
      TimesWhenApart(fs[1..], i - 1);
    }
  }

  lemma {:induction false} NoTimes(fs: seq<Fix>, a: nat)
    requires forall i :: 0 <= i < |fs| ==> fs[i].addr != a
    ensures Times(fs, a) == 0
  {
    if fs != [] {
      NoTimes(fs[1..], a);
    }
  }

  /** For words that lie apart: when nothing is loaded off its linked address, or no entry is RELATIVE. */
  lemma SecondRunApartIff(mem: seq<Byte>, m: Machine, t: Table)
    requires WellPlaced(mem, m, t)
    ensures Runs(mem, m, t)
    ensures var after := Walked(mem, m, t);
      && Runs(after, m, t)
      && (Walked(after, m, t) == after
          <==> m.fromEntry || t.ldbase % TWO64 == 0 || Fixes(mem, m, t) == [])
  {
    hide TableIn, Fixes, ClearOfTable, Walked, Runs, Times;
    var fs := Fixes(mem, m, t);
    SecondRunIff(mem, m, t);
    forall i | 0 <= i < |fs|
      ensures Times(fs, fs[i].addr) * t.ldbase % TWO64 == 0 <==> t.ldbase % TWO64 == 0
    {
      TimesWhenApart(fs, i);
    }
    assert fs != [] ==> (Vanishing(fs, t.ldbase) <==> Times(fs, fs[0].addr) * t.ldbase % TWO64 == 0);
  }
}
