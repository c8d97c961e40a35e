/** The intrusive doubly linked rings of gnu-efi/inc/efilink.h. A ring is a cycle of entries through
    Flink, with Blink as its inverse; the list it stands for is what follows the head.
 */
module RingList {

  /** A pointer stored in a link: to an entry, or to an address with no entry behind it. */
  datatype Link = To(entry: ListEntry) | Address(address: int)

  class ListEntry {
    var Flink: Link
    var Blink: Link

    constructor ()
    {
      Flink, Blink := Address(0), Address(0);
    }
  }

  predicate Distinct(ring: seq<ListEntry>) {
    forall i, j :: 0 <= i < j < |ring| ==> ring[i] != ring[j]
  }

  /** `b` follows `a`, and each says so. */
  ghost predicate Joined(a: ListEntry, b: ListEntry)
    reads a, b
  {
    a.Flink == To(b) && b.Blink == To(a)
  }

  /** The entries of `ring`, head first, are linked into one cycle in this order. */
  ghost predicate Linked(ring: seq<ListEntry>)
    reads ring
  {
    && ring != [] && Distinct(ring)
    && (forall i :: 0 < i < |ring| ==> Joined(ring[i - 1], ring[i]))
    && Joined(ring[|ring| - 1], ring[0])
  }

  /** That is: the entries are distinct, and each is linked with the next, the last with the first. */
  lemma LinkedMeans(ring: seq<ListEntry>)
    ensures Linked(ring) <==>
      && ring != []
      && (forall i, j :: 0 <= i < j < |ring| ==> ring[i] != ring[j])
      && forall i :: 0 <= i < |ring| ==>
           var next := ring[if i + 1 == |ring| then 0 else i + 1];
           ring[i].Flink == To(next) && next.Blink == To(ring[i])
  {
    if Linked(ring) {
      forall i | 0 <= i < |ring|
        ensures Joined(ring[i], ring[if i + 1 == |ring| then 0 else i + 1])
      {
        assert i + 1 < |ring| ==> Joined(ring[i + 1 - 1], ring[i + 1]);
      }
    }
  }

  /** InitializeListHead. */
  method InitializeListHead(head: ListEntry)
    modifies head
    ensures Linked([head])
  {
    head.Flink := To(head);
    head.Blink := To(head);
  }

  /** IsListEmpty. */
  method IsListEmpty(head: ListEntry, ghost ring: seq<ListEntry>) returns (empty: bool)
    requires Linked(ring) && ring[0] == head
    ensures empty <==> ring == [head]
  {
    empty := head.Flink == To(head);
    assert |ring| > 1 ==> Joined(ring[1 - 1], ring[1]);
  }

  /** InsertTailList: the entry goes in front of the head, which is behind the last one. */
  method InsertTailList(head: ListEntry, entry: ListEntry, ghost ring: seq<ListEntry>)
    requires Linked(ring) && ring[0] == head && entry !in ring
    modifies head, entry, ring[|ring| - 1]
    ensures Linked(ring + [entry])
  {
    var blink := head.Blink.entry;
    entry.Flink := To(head);
    entry.Blink := To(blink);
    blink.Flink := To(entry);
    head.Blink := To(entry);
  }

  /** InsertHeadList: the entry goes behind the head. */
  method InsertHeadList(head: ListEntry, entry: ListEntry, ghost ring: seq<ListEntry>)
    requires Linked(ring) && ring[0] == head && entry !in ring
    modifies head, entry, ring[if |ring| > 1 then 1 else 0]
    ensures Linked([head, entry] + ring[1..])
  {
    assert |ring| > 1 ==> Joined(ring[1 - 1], ring[1]);
    var flink := head.Flink.entry;
    entry.Flink := To(flink);
    entry.Blink := To(head);
    flink.Blink := To(entry);
    head.Flink := To(entry);
  }

  function Without(ring: seq<ListEntry>, k: nat): seq<ListEntry>
    requires k < |ring|
  {
    ring[..k] + ring[k + 1..]
  }

  /** The position in front of `k`, and the one behind it, round the ring. */
  function Before(k: nat, n: nat): nat
    requires k < n
  {
    if k == 0 then n - 1 else k - 1
  }

  function After(k: nat, n: nat): nat
    requires k < n
  {
    if k + 1 == n then 0 else k + 1
  }

  lemma Around(ring: seq<ListEntry>, k: nat)
    requires Linked(ring) && k < |ring|
    ensures Joined(ring[Before(k, |ring|)], ring[k]) && Joined(ring[k], ring[After(k, |ring|)])
  {
    assert k + 1 < |ring| ==> Joined(ring[k + 1 - 1], ring[k + 1]);
  }

  lemma WithoutDistinct(ring: seq<ListEntry>, k: nat)
    requires Distinct(ring) && k < |ring|
    ensures Distinct(Without(ring, k))
  {}

  lemma WithoutEnds(ring: seq<ListEntry>, k: nat)
    requires 1 < |ring| && k < |ring|
    ensures var now := Without(ring, k);
      && now[0] == ring[if k == 0 then 1 else 0]
      && now[|now| - 1] == ring[if k == |ring| - 1 then |ring| - 2 else |ring| - 1]
  {}

  /** The two assignments that take entry `k` out from between its neighbours. */
  method SpliceOut(blink: ListEntry, flink: ListEntry, ghost ring: seq<ListEntry>, ghost k: nat)
    requires Linked(ring) && k < |ring| && blink == ring[Before(k, |ring|)] && flink == ring[After(k, |ring|)]
    modifies blink, flink
    ensures if |ring| > 1 then Linked(Without(ring, k)) else Linked(ring)
    ensures blink.Flink == To(flink) && flink.Blink == To(blink)
    ensures blink != flink ==> blink.Blink == old(blink.Blink) && flink.Flink == old(flink.Flink)
  {
    Around(ring, k);
    assert k != 0 && k != |ring| - 1 ==> ring[0] != flink && ring[|ring| - 1] != blink;
    blink.Flink := To(flink);
    flink.Blink := To(blink);
    ghost var n, now := |ring|, Without(ring, k);
    if n > 1 {
      forall m | 0 < m < |now|
        ensures Joined(now[m - 1], now[m])
      {
        if m < k {
          assert ring[m - 1] != blink && ring[m] != flink;
          assert old(Joined(ring[m - 1], ring[m]));
        } else if m > k {
          assert ring[m] != blink && ring[m + 1] != flink;
          assert old(Joined(ring[m + 1 - 1], ring[m + 1]));
        } else {
          assert now[m - 1] == blink && now[m] == flink;
        }
      }
      assert Distinct(now) by { WithoutDistinct(ring, k); }
      WithoutEnds(ring, k);
    }
  }

  /** The ring with `entry` directly in front of entry `i`; in front of the head is the tail. */
  function Inserted(ring: seq<ListEntry>, i: nat, entry: ListEntry): (r: seq<ListEntry>)
    requires i < |ring|
    ensures |r| == |ring| + 1
  {
    var at := if i == 0 then |ring| else i;
    ring[..at] + [entry] + ring[at..]
  }

  lemma InsertedDistinct(ring: seq<ListEntry>, i: nat, entry: ListEntry)
    requires i < |ring| && Distinct(ring) && entry !in ring
    ensures Distinct(Inserted(ring, i, entry))
  {}

  /** The four assignments that put `entry` between `e` and `blink`, the entry in front of it. When `entry`
      is one of the two itself they make it its own neighbour. */
  method SpliceIn(e: ListEntry, blink: ListEntry, entry: ListEntry, ghost ring: seq<ListEntry>, ghost i: nat)
    requires e != entry ==> Linked(ring) && i < |ring| && ring[i] == e && entry !in ring
    requires e == entry || blink == entry || blink == ring[Before(i, |ring|)]
    modifies e, blink, entry
    ensures e != entry && blink != entry ==> Linked(Inserted(ring, i, entry))
    ensures e == entry || blink == entry ==> entry.Flink == To(entry) && entry.Blink == To(entry)
  {
    entry.Flink := To(e);
    entry.Blink := To(blink);
    blink.Flink := To(entry);
    e.Blink := To(entry);
    if e != entry && blink != entry {
      ghost var at, now := if i == 0 then |ring| else i, Inserted(ring, i, entry);
      InsertedDistinct(ring, i, entry);
      forall m | 0 < m < |now|
        ensures Joined(now[m - 1], now[m])
      {
        if m < at {
          assert old(Joined(ring[m - 1], ring[m]));
        } else if m > at + 1 {
          assert old(Joined(ring[m - 2], ring[m - 1]));
        }
      }
    }
  }

  /** _RemoveEntryList: the entry's own links stay as they were. The only entry of a ring stays linked
      to itself. */
  method Unlink(entry: ListEntry, ghost ring: seq<ListEntry>, ghost k: nat)
    requires Linked(ring) && k < |ring| && ring[k] == entry
    modifies ring[Before(k, |ring|)], ring[After(k, |ring|)]
    ensures if |ring| > 1 then Linked(Without(ring, k)) else Linked(ring)
    ensures entry.Flink == old(entry.Flink) && entry.Blink == old(entry.Blink)
  {
    Around(ring, k);
    var flink := entry.Flink.entry;
    var blink := entry.Blink.entry;
    SpliceOut(blink, flink, ring, k);
  }

  const BAD_POINTER := Address(-1)

  /** RemoveEntryList with EFI_DEBUG, which spoils the entry's own links. */
  method RemoveEntryList(entry: ListEntry, ghost ring: seq<ListEntry>, ghost k: nat)
    requires Linked(ring) && k < |ring| && ring[k] == entry
    modifies ring[Before(k, |ring|)], ring[After(k, |ring|)], entry
    ensures |ring| > 1 ==> Linked(Without(ring, k))
    ensures entry.Flink == BAD_POINTER && entry.Blink == BAD_POINTER
  {
    Unlink(entry, ring, k);
    assert entry !in Without(ring, k);
    entry.Flink := BAD_POINTER;
    entry.Blink := BAD_POINTER;
  }

  /** The ring with entry `j` moved directly in front of entry `i`; an entry stays where it is in front of
      itself. */
  function MovedBefore(ring: seq<ListEntry>, i: nat, j: nat): (r: seq<ListEntry>)
    requires i < |ring| && j < |ring|
    ensures |r| == |ring|
  {
    if i == j then ring else Inserted(Without(ring, j), if i < j then i else i - 1, ring[j])
  }

  /** Where the entries stand: in front of the head is the end of the list. */
  lemma ListsMean(ring: seq<ListEntry>, entry: ListEntry, i: nat, j: nat)
    requires i < |ring| && j < |ring|
    ensures Before(i, |ring|) == (if i > 0 then i else |ring|) - 1
    ensures After(i, |ring|) == if i < |ring| - 1 then i + 1 else 0
    ensures Without(ring, j) == ring[..j] + ring[j + 1..]
    ensures Inserted(ring, i, entry) == if i == 0 then ring + [entry] else ring[..i] + [entry] + ring[i..]
    ensures i == j ==> MovedBefore(ring, i, j) == ring
    ensures 0 < i < j ==> MovedBefore(ring, i, j) == ring[..i] + [ring[j]] + ring[i..j] + ring[j + 1..]
    ensures 0 == i < j ==> MovedBefore(ring, i, j) == ring[..j] + ring[j + 1..] + [ring[j]]
    ensures j < i && 1 < i ==> MovedBefore(ring, i, j) == ring[..j] + ring[j + 1..i] + [ring[j]] + ring[i..]
  {}

  lemma SelfLinkedBreaks(ring: seq<ListEntry>, entry: ListEntry)
    requires |ring| > 1 && entry in ring && entry.Flink == To(entry)
    ensures !Linked(ring)
  {
    if Linked(ring) {
      var k :| 0 <= k < |ring| && ring[k] == entry;
      Around(ring, k);
    }
  }

  lemma LeftOut(ring1: seq<ListEntry>, ring2: seq<ListEntry>, j: nat)
    requires Distinct(ring2) && j < |ring2| && forall e :: e in ring1 ==> e !in ring2
    ensures forall e :: e in Without(ring2, j) ==> e !in ring1 && e != ring2[j]
  {}

  twostate lemma StillLinked(ring: seq<ListEntry>)
    requires old(Linked(ring))
    requires forall e :: e in ring ==> e.Flink == old(e.Flink) && e.Blink == old(e.Blink)
    ensures Linked(ring)
  {}

  lemma OneIsRing(entry: ListEntry, ring: seq<ListEntry>)
    requires ring == [entry] && entry.Flink == To(entry) && entry.Blink == To(entry)
    ensures Linked(ring)
  {}

  /** Once entry `j` is out, entry `i` still has in front of it what it had, unless that was entry `j`. */
  lemma StillThere(ring: seq<ListEntry>, i: nat, j: nat)
    requires Distinct(ring) && i < |ring| && j < |ring| && i != j
    ensures var rest, at := Without(ring, j), if i < j then i else i - 1;
      && at < |rest| && rest[at] == ring[i] && ring[j] !in rest
      && (j != Before(i, |ring|) ==> rest[Before(at, |rest|)] == ring[Before(i, |ring|)] != ring[j])
    ensures |MovedBefore(ring, i, j)| == |ring| && ring[j] in MovedBefore(ring, i, j)
  {
    var at := if i < j then i else i - 1;
    assert MovedBefore(ring, i, j)[if at == 0 then |ring| - 1 else at] == ring[j];
  }

  /** SwapListEntries puts entry2 directly before entry1, exactly when they are two entries and entry2 is not
      there already, or when there is only one entry. Otherwise the stale copies of the links make entry2
      point to itself, which breaks the ring. */
  method SwapListEntries(entry1: ListEntry, entry2: ListEntry, ghost ring: seq<ListEntry>, ghost i: nat, ghost j: nat)
    requires Linked(ring) && i < |ring| && j < |ring| && ring[i] == entry1 && ring[j] == entry2
    modifies entry1, entry2, ring[Before(i, |ring|)], ring[Before(j, |ring|)], ring[After(j, |ring|)]
    ensures Linked(MovedBefore(ring, i, j)) <==> |ring| == 1 || (i != j && j != Before(i, |ring|))
    ensures i == j || j == Before(i, |ring|) ==> entry2.Flink == To(entry2) && entry2.Blink == To(entry2)
    ensures |ring| > 1 && (i == j || j == Before(i, |ring|)) ==> !Linked(ring)
  {
    Around(ring, i);
    Around(ring, j);
    var entry2Flink := entry2.Flink.entry;
    var entry2Blink := entry2.Blink.entry;
    var entry1Blink := entry1.Blink.entry;
    if i != j {
      StillThere(ring, i, j);
    }
    SpliceOut(entry2Blink, entry2Flink, ring, j);
    ghost var rest, at := Without(ring, j), if i == j then 0 else if i < j then i else i - 1;
    assert MovedBefore(ring, i, j) == if i == j then ring else Inserted(rest, at, entry2);
    hide Linked, Joined, Without, Distinct, Before, After, MovedBefore, Inserted;
    SpliceIn(entry1, entry1Blink, entry2, rest, at);
    if |ring| == 1 {
      OneIsRing(entry2, ring);
    } else if i == j || j == Before(i, |ring|) {
      SelfLinkedBreaks(MovedBefore(ring, i, j), entry2);
      SelfLinkedBreaks(ring, entry2);
    }
  }

  /** Unlinking an entry of another ring. */
  method TakeOut(entry: ListEntry, ghost ring: seq<ListEntry>, ghost other: seq<ListEntry>, ghost j: nat)
    requires Linked(ring) && Linked(other) && j < |other| && other[j] == entry && forall e :: e in ring ==> e !in other
    modifies other[Before(j, |other|)], other[After(j, |other|)]
    ensures Linked(ring) && (|other| > 1 ==> Linked(Without(other, j)))
  {
    assert other[Before(j, |other|)] in other && other[After(j, |other|)] in other;
    Unlink(entry, other, j);
    hide Without, Before, After;
    StillLinked(ring);
  }

  /** SwapListEntries on entries of two rings: entry2 is taken over from its ring. */
  method SwapAcrossRings(entry1: ListEntry, entry2: ListEntry, ghost ring1: seq<ListEntry>, ghost i: nat,
                         ghost ring2: seq<ListEntry>, ghost j: nat)
    requires Linked(ring1) && i < |ring1| && ring1[i] == entry1 && Linked(ring2) && j < |ring2| && ring2[j] == entry2
    requires forall e :: e in ring1 ==> e !in ring2
    modifies entry1, entry2, ring1[Before(i, |ring1|)], ring2[Before(j, |ring2|)], ring2[After(j, |ring2|)]
    ensures Linked(Inserted(ring1, i, entry2)) && (|ring2| > 1 ==> Linked(Without(ring2, j)))
  {
    Around(ring1, i);
    var entry1Blink := entry1.Blink.entry;
    assert entry1Blink in ring1;
    LeftOut(ring1, ring2, j);
    ghost var left := if |ring2| > 1 then Without(ring2, j) else [];
    TakeOut(entry2, ring1, ring2, j);
    label Out:
    hide Linked, Joined, Without, Inserted, Distinct;
    SpliceIn(entry1, entry1Blink, entry2, ring1, i);
    if |ring2| > 1 {
      StillLinked@Out(left);
    }
  }
}
