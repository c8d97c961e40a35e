/** RtConvertList of gnu-efi/lib/runtime/vm.c: one turn round a ring that rewrites both links of every
    entry for the virtual address map, in place.
 */
module ConvertList {
  import opened RingList

  /** RT->ConvertPointer: what the firmware makes of a pointer under a debug disposition. */
  type Converter = (int, Link) -> Link

  /** The disposition passed for a link: DebugDisposition for links to the head, 0 for all others. */
  function Disposition(debug: int, head: ListEntry, link: Link): int {
    if link == To(head) then debug else 0
  }

  function Convert(conv: Converter, debug: int, head: ListEntry, link: Link): Link {
    conv(Disposition(debug, head, link), link)
  }

  /** Entry `k`'s links are the conversions of its links in the ring. */
  ghost predicate Converted(conv: Converter, debug: int, ring: seq<ListEntry>, k: nat)
    requires k < |ring|
    reads ring[k]
  {
    && ring[k].Flink == Convert(conv, debug, ring[0], To(ring[After(k, |ring|)]))
    && ring[k].Blink == Convert(conv, debug, ring[0], To(ring[Before(k, |ring|)]))
  }

  /** Each link is what the converter makes of the link in the ring, under the debug disposition if that leads to the
      head. */
  lemma ConvertedMeans(conv: Converter, debug: int, ring: seq<ListEntry>, k: nat)
    requires k < |ring|
    ensures var next, prev := ring[if k + 1 < |ring| then k + 1 else 0], ring[if k > 0 then k - 1 else |ring| - 1];
      Converted(conv, debug, ring, k) <==>
        && ring[k].Flink == conv(if next == ring[0] then debug else 0, To(next))
        && ring[k].Blink == conv(if prev == ring[0] then debug else 0, To(prev))
  {}

  /** The calls the loop makes for entry `k`, in order. */
  function CallsFor(debug: int, ring: seq<ListEntry>, k: nat): seq<(int, Link)>
    requires k < |ring|
  {
    var flink, blink := To(ring[After(k, |ring|)]), To(ring[Before(k, |ring|)]);
    [(Disposition(debug, ring[0], flink), flink), (Disposition(debug, ring[0], blink), blink)]
  }

  function Calls(debug: int, ring: seq<ListEntry>, k: nat): seq<(int, Link)>
    requires k <= |ring|
  {
    if k == 0 then [] else Calls(debug, ring, k - 1) + CallsFor(debug, ring, k - 1)
  }

  /** Entry `k`'s links are still those of the ring. */
  ghost predicate Untouched(ring: seq<ListEntry>, k: nat)
    requires k < |ring|
    reads ring[k]
  {
    ring[k].Flink == To(ring[After(k, |ring|)]) && ring[k].Blink == To(ring[Before(k, |ring|)])
  }

  lemma AllUntouched(ring: seq<ListEntry>)
    requires Linked(ring)
    ensures forall k :: 0 <= k < |ring| ==> Untouched(ring, k)
  {
    forall k | 0 <= k < |ring|
      ensures Untouched(ring, k)
    {
      Around(ring, k);
    }
  }

  /** Both links of one entry. */
  method ConvertEntry(conv: Converter, debug: int, head: ListEntry, link: ListEntry,
                      ghost ring: seq<ListEntry>, ghost k: nat)
    returns (ghost calls: seq<(int, Link)>)
    requires k < |ring| && ring[k] == link && ring[0] == head && Untouched(ring, k)
    modifies link
    ensures Converted(conv, debug, ring, k) && calls == CallsFor(debug, ring, k)
  {
    var disposition := if link.Flink == To(head) then debug else 0;
    calls := [(disposition, link.Flink)];
    link.Flink := conv(disposition, link.Flink);
    disposition := if link.Blink == To(head) then debug else 0;
    calls := calls + [(disposition, link.Blink)];
    link.Blink := conv(disposition, link.Blink);
  }

  /** RtConvertList. Whatever the firmware's conversion does, each link is converted once, from the value
      it had in the ring, and the loop stops after one full turn. */
  method RtConvertList(conv: Converter, debug: int, head: ListEntry, ghost ring: seq<ListEntry>)
    returns (ghost calls: seq<(int, Link)>)
    requires Linked(ring) && ring[0] == head
    modifies ring
    ensures forall k :: 0 <= k < |ring| ==> Converted(conv, debug, ring, k)
    ensures calls == Calls(debug, ring, |ring|)
  {
    AllUntouched(ring);
    assert Distinct(ring) && ring != [];
    hide Linked, Joined, Converted, CallsFor;
    var link := head;
    ghost var k := 0;
    calls := [];
    var again := true;
    while again
      invariant 0 <= k <= |ring| && again == (k < |ring|) && link == if again then ring[k] else head
      invariant forall m :: 0 <= m < k ==> Converted(conv, debug, ring, m)
      invariant forall m :: k <= m < |ring| ==> Untouched(ring, m)
      invariant calls == Calls(debug, ring, k)
      decreases |ring| - k
    {
      assert Untouched(ring, k);
      var nextLink := link.Flink.entry;
      hide Untouched;
      ghost var made := ConvertEntry(conv, debug, head, link, ring, k);
      calls := calls + made;
      link := nextLink;
      k := k + 1;
      assert k < |ring| ==> ring[0] != ring[k];
      again := link != head;
    }
  }

  /** The virtual addresses `at` describe the converted ring: following the stored links from the
      address of one entry leads to the address of the next, and back. */
  ghost predicate LinkedAt(ring: seq<ListEntry>, at: seq<int>)
    reads ring
  {
    && |at| == |ring|
    && forall k :: 0 <= k < |ring| ==>
         ring[k].Flink == Address(at[After(k, |ring|)]) && ring[k].Blink == Address(at[Before(k, |ring|)])
  }

  /** If the firmware sends the entries to virtual addresses, under either disposition, the converted
      list is the same ring at those addresses. */
  lemma VirtualRing(conv: Converter, debug: int, ring: seq<ListEntry>, at: seq<int>)
    requires ring != [] && |at| == |ring|
    requires forall k :: 0 <= k < |ring| ==> Converted(conv, debug, ring, k)
    requires forall k :: 0 <= k < |ring| ==> conv(0, To(ring[k])) == conv(debug, To(ring[k])) == Address(at[k])
    ensures LinkedAt(ring, at)
  {
    forall k | 0 <= k < |ring|
      ensures ring[k].Flink == Address(at[After(k, |ring|)]) && ring[k].Blink == Address(at[Before(k, |ring|)])
    {
      assert Converted(conv, debug, ring, k);
    }
  }

  /** The link `n` steps from the first entry, following the stored Flinks from virtual address to virtual
      address. */
  ghost function Followed(ring: seq<ListEntry>, at: seq<int>, n: nat): Link
    requires |at| == |ring| > 0
    reads ring
  {
    if n == 0 then Address(at[0]) else
      var here := Followed(ring, at, n - 1);
      if here.Address? && here.address in at then
        var k :| 0 <= k < |at| && at[k] == here.address;
        ring[k].Flink
      else here
  }

  lemma FollowedMeans(ring: seq<ListEntry>, at: seq<int>, n: nat, k: nat)
    requires |at| == |ring| && k < |ring| && forall i, j :: 0 <= i < j < |at| ==> at[i] != at[j]
    ensures Followed(ring, at, 0) == Address(at[0])
    ensures Followed(ring, at, n) == Address(at[k]) ==> Followed(ring, at, n + 1) == ring[k].Flink
  {}

  lemma FollowedOn(ring: seq<ListEntry>, at: seq<int>, n: nat)
    requires LinkedAt(ring, at) && n < |ring| && Followed(ring, at, n) == Address(at[n])
    requires forall i, j :: 0 <= i < j < |at| ==> at[i] != at[j]
    ensures Followed(ring, at, n + 1) == Address(at[After(n, |ring|)])
  {
    hide After;
  }

  /** So at its virtual addresses the list still visits every entry in order and comes round to the first. */
  lemma {:induction false} VirtualTurn(conv: Converter, debug: int, ring: seq<ListEntry>, at: seq<int>, n: nat)
    requires n <= |ring| == |at| && ring != [] && forall i, j :: 0 <= i < j < |at| ==> at[i] != at[j]
    requires forall k :: 0 <= k < |ring| ==> Converted(conv, debug, ring, k)
    requires forall k :: 0 <= k < |ring| ==> conv(0, To(ring[k])) == conv(debug, To(ring[k])) == Address(at[k])
    ensures Followed(ring, at, n) == Address(at[if n == |ring| then 0 else n])
  {
    hide Converted, Followed, LinkedAt;
    if n > 0 {
      VirtualTurn(conv, debug, ring, at, n - 1);
      VirtualRing(conv, debug, ring, at);
      FollowedOn(ring, at, n - 1);
    } else {
      FollowedNowhere(ring, at);
    }
  }

  lemma FollowedNowhere(ring: seq<ListEntry>, at: seq<int>)
    requires |at| == |ring| > 0
    ensures Followed(ring, at, 0) == Address(at[0])
  {}

  /** Over the whole turn the firmware is called twice for each entry, Flink first, and gets the debug
      disposition for exactly two links, those that lead to the head: the last entry's Flink and the Blink of
      the entry behind the head. */
  lemma {:induction false} DebugCalls(debug: int, ring: seq<ListEntry>, n: nat, c: nat)
    requires Distinct(ring) && n <= |ring| && c < 2 * n && debug != 0
    ensures |Calls(debug, ring, n)| == 2 * n
    ensures var call, k := Calls(debug, ring, n)[c], c / 2;
      && call.1 == To(ring[if c % 2 == 0 then After(k, |ring|) else Before(k, |ring|)])
      && call.0 == (if c == 2 * (|ring| - 1) || c == 2 * After(0, |ring|) + 1 then debug else 0)
  {
    CallCount(debug, ring, n);
    CallCount(debug, ring, n - 1);
    if c < 2 * (n - 1) {
      DebugCalls(debug, ring, n - 1, c);
    } else {
      DebugDispositions(debug, ring, n - 1);
    }
  }

  lemma DebugDispositions(debug: int, ring: seq<ListEntry>, k: nat)
    requires Distinct(ring) && k < |ring| && debug != 0
    ensures var calls := CallsFor(debug, ring, k);
      (calls[0].0 == debug <==> k == |ring| - 1) && (calls[1].0 == debug <==> After(0, |ring|) == k)
  {
    var b := Before(k, |ring|);
    assert b != 0 ==> ring[0] != ring[b];
    var a := After(k, |ring|);
    assert a != 0 ==> ring[0] != ring[a];
  }

  lemma {:induction false} CallCount(debug: int, ring: seq<ListEntry>, k: nat)
    requires k <= |ring|
    ensures |Calls(debug, ring, k)| == 2 * k
  {
    if k != 0 {
      CallCount(debug, ring, k - 1);
    }
  }
}
