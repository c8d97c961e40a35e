/** The scan of the dynamic section with which the self-relocators of gnu-efi/gnuefi/reloc_x86_64.c and
    reloc_aarch64.c begin.
 */
module RelocScan {
  import opened Words

  const DT_NULL := 0
  const DT_RELA := 7
  const DT_RELASZ := 8
  const DT_RELAENT := 9

  datatype Dyn = Dyn(tag: int, val: nat)

  /** What the scan finds: table address, table size and entry size. */
  datatype Found = Found(rel: nat, relsz: int, relent: int)

  /** An unsigned 64-bit value stored in a `long`. */
  function Signed(v: nat): int {
    var w := v % TWO64;
    if w < TWO64 / 2 then w else w - TWO64
  }

  function Scanned(f: Found, d: Dyn, ldbase: nat): Found {
    if d.tag == DT_RELA then f.(rel := (d.val + ldbase) % TWO64)
    else if d.tag == DT_RELASZ then f.(relsz := Signed(d.val))
    else if d.tag == DT_RELAENT then f.(relent := Signed(d.val))
    else f
  }

  function Scan(dyn: seq<Dyn>, ldbase: nat): Found {
    if dyn == [] then Found(0, 0, 0) else Scanned(Scan(dyn[..|dyn| - 1], ldbase), dyn[|dyn| - 1], ldbase)
  }

  /** Entry `i` is the last one with its tag. */
  predicate LastOf(dyn: seq<Dyn>, i: nat, tag: int) {
    i < |dyn| && dyn[i].tag == tag && forall j :: i < j < |dyn| ==> dyn[j].tag != tag
  }

  predicate IsTag(tag: int) {
    tag == DT_RELA || tag == DT_RELASZ || tag == DT_RELAENT
  }

  function ValueFor(f: Found, tag: int): int {
    if tag == DT_RELA then f.rel else if tag == DT_RELASZ then f.relsz else f.relent
  }

  /** The last entry of each tag counts: an address is offset by `ldbase`, a size is read as signed. */
  lemma {:induction false} ScanLast(dyn: seq<Dyn>, ldbase: nat, tag: int, i: nat)
    requires IsTag(tag) && LastOf(dyn, i, tag)
    ensures ValueFor(Scan(dyn, ldbase), tag) ==
      if tag == DT_RELA then (dyn[i].val + ldbase) % TWO64 else Signed(dyn[i].val)
  {
    hide Signed;
    var k := |dyn| - 1;
    if i < k {
      ScanLast(dyn[..k], ldbase, tag, i);
    }
  }

  /** The same for each tag, in numbers: 7 for the table, 8 for its size, 9 for the size of an entry. */
  lemma ScanMeans(dyn: seq<Dyn>, ldbase: nat, i: nat)
    requires i < |dyn| && forall j :: i < j < |dyn| ==> dyn[j].tag != dyn[i].tag
    ensures var f, v := Scan(dyn, ldbase), dyn[i].val % 0x1_0000_0000_0000_0000;
      var signed := if v < 0x8000_0000_0000_0000 then v else v - 0x1_0000_0000_0000_0000;
      && (dyn[i].tag == 7 ==> f.rel == (dyn[i].val + ldbase) % 0x1_0000_0000_0000_0000)
      && (dyn[i].tag == 8 ==> f.relsz == signed)
      && (dyn[i].tag == 9 ==> f.relent == signed)
  {
    if dyn[i].tag == 7 || dyn[i].tag == 8 || dyn[i].tag == 9 {
      ScanLast(dyn, ldbase, dyn[i].tag, i);
    }
    hide Scan;
  }

  /** Without an entry of the tag the value stays 0. */
  lemma {:induction false} ScanAbsent(dyn: seq<Dyn>, ldbase: nat, tag: int)
    requires IsTag(tag) && forall i :: 0 <= i < |dyn| ==> dyn[i].tag != tag
    ensures ValueFor(Scan(dyn, ldbase), tag) == 0
  {
    if dyn != [] {
      ScanAbsent(dyn[..|dyn| - 1], ldbase, tag);
    }
  }

  lemma AbsentMeans(dyn: seq<Dyn>, ldbase: nat)
    ensures (forall i :: 0 <= i < |dyn| ==> dyn[i].tag != 7) ==> Scan(dyn, ldbase).rel == 0
    ensures (forall i :: 0 <= i < |dyn| ==> dyn[i].tag != 8) ==> Scan(dyn, ldbase).relsz == 0
    ensures (forall i :: 0 <= i < |dyn| ==> dyn[i].tag != 9) ==> Scan(dyn, ldbase).relent == 0
  {
    forall tag | IsTag(tag) && forall i :: 0 <= i < |dyn| ==> dyn[i].tag != tag
      ensures ValueFor(Scan(dyn, ldbase), tag) == 0
    {
      ScanAbsent(dyn, ldbase, tag);
    }
    hide Scan;
  }

  /** The entries in front of the first DT_NULL. */
  function Live(dyn: seq<Dyn>): (n: nat)
    requires exists i :: 0 <= i < |dyn| && dyn[i].tag == DT_NULL
    ensures n < |dyn| && dyn[n].tag == DT_NULL && forall i :: 0 <= i < n ==> dyn[i].tag != DT_NULL
  {
    if dyn[0].tag == DT_NULL then 0 else
      assert exists i :: 0 <= i < |dyn[1..]| && dyn[1..][i].tag == DT_NULL by {
        var i :| 0 <= i < |dyn| && dyn[i].tag == DT_NULL;
        assert dyn[1..][i - 1].tag == DT_NULL;
      }
      1 + Live(dyn[1..])
  }

  lemma LiveMeans(dyn: seq<Dyn>)
    requires exists i :: 0 <= i < |dyn| && dyn[i].tag == 0
    ensures Live(dyn) < |dyn| && dyn[Live(dyn)].tag == 0 && forall i :: 0 <= i < Live(dyn) ==> dyn[i].tag != 0
  {}

  method ScanDynamic(dyn: seq<Dyn>, ldbase: nat) returns (f: Found)
    requires exists i :: 0 <= i < |dyn| && dyn[i].tag == DT_NULL
    ensures f == Scan(dyn[..Live(dyn)], ldbase)
  {
    f := Found(0, 0, 0);
    var i: nat := 0;
    while dyn[i].tag != DT_NULL
      invariant i <= Live(dyn) && f == Scan(dyn[..i], ldbase)
      decreases Live(dyn) - i
    {
      assert dyn[..i + 1][..i] == dyn[..i];
      f := Scanned(f, dyn[i], ldbase);
      i := i + 1;
    }
  }
}
