/** The packed byte format of EFI device paths (gnu-efi/inc/efidevp.h; section 9.3.1 of UEFI 2.4):
    nodes of type, subtype, 16-bit length and payload, ended by an End-Entire node. Memory is bytes
    and offsets; a path is also the list of nodes those bytes spell.
 */
module DevicePathNodes {

  type Byte = b: int | 0 <= b < 256

  const END_TYPE: Byte := 0x7F
  const ENTIRE: Byte := 0xFF
  const INSTANCE: Byte := 0x01
  const HEADER := 4
  const MAX_LENGTH := 0xFFFF

  datatype Node = Node(kind: Byte, sub: Byte, payload: seq<Byte>)

  const END_ENTIRE := Node(END_TYPE, ENTIRE, [])
  const END_INSTANCE := Node(END_TYPE, INSTANCE, [])

  function Length(n: Node): nat {
    HEADER + |n.payload|
  }

  /** DevicePathType masks off the top bit, which marks an unpacked node. */
  predicate IsEndType(n: Node) {
    n.kind % 0x80 == END_TYPE
  }

  predicate IsEnd(n: Node) {
    IsEndType(n) && n.sub == ENTIRE
  }

  predicate Sized(ns: seq<Node>) {
    forall i :: 0 <= i < |ns| ==> Length(ns[i]) <= MAX_LENGTH
  }

  /** The nodes of a whole path: the last one, and only that, is an End-Entire node. */
  predicate IsPath(ns: seq<Node>) {
    && Sized(ns) && ns != [] && IsEnd(ns[|ns| - 1])
    && forall i :: 0 <= i < |ns| - 1 ==> !IsEnd(ns[i])
  }

  /** A path is a nonempty list of nodes of at most 65535 bytes of which the last, and only that, has type 0x7F, with
      the top bit or without, and subtype 0xFF. */
  lemma PathMeans(ns: seq<Node>)
    ensures IsPath(ns) <==>
      && ns != []
      && forall i :: 0 <= i < |ns| ==>
           4 + |ns[i].payload| <= 65535 && (ns[i].kind % 128 == 127 && ns[i].sub == 255 <==> i == |ns| - 1)
  {}

  // ----- bytes -----

  function Enc(n: Node): (b: seq<Byte>)
    requires Length(n) <= MAX_LENGTH
    ensures |b| == Length(n)
  {
    [n.kind, n.sub, Length(n) % 256, Length(n) / 256] + n.payload
  }

  function Bytes(ns: seq<Node>): seq<Byte>
    requires Sized(ns)
  {
    if ns == [] then [] else Enc(ns[0]) + Bytes(ns[1..])
  }

  /** Where node `k` starts. */
  function Offset(ns: seq<Node>, k: nat): nat
    requires k <= |ns|
  {
    if k == 0 then 0 else Offset(ns, k - 1) + Length(ns[k - 1])
  }

  function Total(ns: seq<Node>): nat {
    Offset(ns, |ns|)
  }

  lemma {:induction false} BytesConcat(us: seq<Node>, vs: seq<Node>)
    requires Sized(us) && Sized(vs)
    ensures Sized(us + vs) && Bytes(us + vs) == Bytes(us) + Bytes(vs)
  {
    if us == [] {
      assert us + vs == vs;
    } else {
      assert (us + vs)[1..] == us[1..] + vs && (us + vs)[0] == us[0];
      hide Enc;
      BytesConcat(us[1..], vs);
    }
  }

  lemma {:induction false} BytesLength(ns: seq<Node>, k: nat)
    requires Sized(ns) && k <= |ns|
    ensures |Bytes(ns[..k])| == Offset(ns, k)
  {
    if k != 0 {
      BytesLength(ns, k - 1);
      assert ns[..k] == ns[..k - 1] + [ns[k - 1]];
      BytesConcat(ns[..k - 1], [ns[k - 1]]);
    }
  }

  lemma BytesTotal(ns: seq<Node>)
    requires Sized(ns)
    ensures |Bytes(ns)| == Total(ns)
  {
    BytesLength(ns, |ns|);
    assert ns[..|ns|] == ns;
  }

  lemma {:induction false} OffsetConcat(us: seq<Node>, vs: seq<Node>, k: nat)
    requires k <= |vs|
    ensures Offset(us + vs, |us| + k) == Total(us) + Offset(vs, k)
    decreases k
  {
    if k == 0 {
      OffsetPrefix(us + vs, us, |us|);
    } else {
      OffsetConcat(us, vs, k - 1);
    }
  }

  lemma {:induction false} OffsetPrefix(us: seq<Node>, vs: seq<Node>, k: nat)
    requires k <= |us| && k <= |vs| && us[..k] == vs[..k]
    ensures Offset(us, k) == Offset(vs, k)
  {
    if k != 0 {
      assert us[..k][k - 1] == vs[..k][k - 1];
      assert us[..k - 1] == us[..k][..k - 1] && vs[..k - 1] == vs[..k][..k - 1];
      OffsetPrefix(us, vs, k - 1);
    }
  }

  lemma {:induction false} OffsetMonotone(ns: seq<Node>, j: nat, k: nat)
    requires j <= k <= |ns|
    ensures Offset(ns, j) + HEADER * (k - j) <= Offset(ns, k)
  {
    if j < k {
      OffsetMonotone(ns, j, k - 1);
    }
  }

  // ----- a path in memory -----

  /** The bytes of `ns` stand in `mem` at `off`. */
  ghost predicate NodesAt(mem: seq<Byte>, off: nat, ns: seq<Node>) {
    Sized(ns) && off + Total(ns) <= |mem| && mem[off..off + Total(ns)] == Bytes(ns)
  }

  ghost predicate PathAt(mem: seq<Byte>, off: nat, ns: seq<Node>) {
    IsPath(ns) && NodesAt(mem, off, ns)
  }

  /** The 16-bit length field of the node at `p`. */
  function LengthAt(mem: seq<Byte>, p: nat): nat
    requires p + HEADER <= |mem|
  {
    mem[p + 2] as int + 256 * mem[p + 3] as int
  }

  lemma SliceOfSlice(mem: seq<Byte>, a: nat, b: nat, c: nat, d: nat)
    requires a <= b <= |mem| && c <= d <= b - a
    ensures mem[a..b][c..d] == mem[a + c..a + d]
  {
    var s, t := mem[a..b][c..d], mem[a + c..a + d];
    forall i | 0 <= i < |s|
      ensures s[i] == t[i]
    {
      assert s[i] == mem[a..b][c + i];
    }
  }

  lemma MiddlePart(a: seq<Byte>, b: seq<Byte>, c: seq<Byte>)
    ensures (a + b + c)[|a|..|a| + |b|] == b
  {}

  /** The bytes of a stretch of nodes. */
  lemma BytesOfPart(ns: seq<Node>, j: nat, k: nat)
    requires Sized(ns) && j <= k <= |ns|
    ensures Sized(ns[j..k]) && Offset(ns, j) <= Offset(ns, k) <= Total(ns) == |Bytes(ns)|
    ensures Bytes(ns)[Offset(ns, j)..Offset(ns, k)] == Bytes(ns[j..k])
    ensures Total(ns[j..k]) == Offset(ns, k) - Offset(ns, j)
  {
    var us, vs, ws := ns[..j], ns[j..k], ns[k..];
    assert ns == us + vs + ws && ns[..k] == us + vs && ns[..|ns|] == ns && vs[..|vs|] == vs;
    assert Sized(us) && Sized(vs) && Sized(ws) && Sized(us + vs);
    hide Offset, Bytes, Sized;
    BytesConcat(us + vs, ws);
    BytesConcat(us, vs);
    BytesLength(ns, j);
    BytesLength(ns, k);
    BytesLength(ns, |ns|);
    BytesLength(vs, |vs|);
    OffsetMonotone(ns, j, k);
    OffsetMonotone(ns, k, |ns|);
    MiddlePart(Bytes(us), Bytes(vs), Bytes(ws));
  }

  /** Cutting a stretch of nodes out of a longer one. */
  lemma SubNodes(mem: seq<Byte>, off: nat, ns: seq<Node>, j: nat, k: nat)
    requires NodesAt(mem, off, ns) && j <= k <= |ns|
    ensures Offset(ns, j) <= Offset(ns, k) <= Total(ns)
    ensures Total(ns[j..k]) == Offset(ns, k) - Offset(ns, j)
    ensures NodesAt(mem, off + Offset(ns, j), ns[j..k])
  {
    hide Offset, Bytes, Total, Sized;
    BytesOfPart(ns, j, k);
    SliceOfSlice(mem, off, off + Total(ns), Offset(ns, j), Offset(ns, k));
  }

  /** The bytes of node `k`. */
  lemma EncodedAt(ns: seq<Node>, k: nat)
    requires Sized(ns) && k < |ns|
    ensures Length(ns[k]) >= HEADER && Length(ns[k]) <= MAX_LENGTH
    ensures Offset(ns, k) + Length(ns[k]) == Offset(ns, k + 1) <= |Bytes(ns)| == Total(ns)
    ensures Bytes(ns)[Offset(ns, k)..Offset(ns, k + 1)] == Enc(ns[k])
  {
    assert Offset(ns, k) + Length(ns[k]) == Offset(ns, k + 1);
    OneEncoded(ns, k);
    hide Bytes, Offset, Enc;
    BytesOfPart(ns, k, k + 1);
  }

  lemma OneEncoded(ns: seq<Node>, k: nat)
    requires Sized(ns) && k < |ns|
    ensures Sized(ns[k..k + 1]) && Bytes(ns[k..k + 1]) == Enc(ns[k])
  {
    assert ns[k..k + 1] == [ns[k]] && [ns[k]][1..] == [];
    hide Enc;
  }

  lemma EncodedHeader(n: Node)
    requires Length(n) <= MAX_LENGTH
    ensures Enc(n)[0] == n.kind && Enc(n)[1] == n.sub && Enc(n)[2] as int + 256 * Enc(n)[3] as int == Length(n)
  {}

  /** What stands at the start of node `k`. */
  lemma NodeAt(mem: seq<Byte>, off: nat, ns: seq<Node>, k: nat)
    requires NodesAt(mem, off, ns) && k < |ns|
    ensures var p := off + Offset(ns, k);
      && p + Length(ns[k]) == off + Offset(ns, k + 1) <= |mem|
      && mem[p] == ns[k].kind && mem[p + 1] == ns[k].sub && LengthAt(mem, p) == Length(ns[k])
      && mem[p..p + Length(ns[k])] == Enc(ns[k])
  {
    hide Bytes, Offset, Enc, Length;
    EncodedAt(ns, k);
    EncodedHeader(ns[k]);
    var p := off + Offset(ns, k);
    SliceOfSlice(mem, off, off + Total(ns), Offset(ns, k), Offset(ns, k + 1));
    FirstBytes(mem, p, Enc(ns[k]));
  }

  lemma FirstBytes(mem: seq<Byte>, p: nat, e: seq<Byte>)
    requires HEADER <= |e| && p + |e| <= |mem| && mem[p..p + |e|] == e
    ensures mem[p] == e[0] && mem[p + 1] == e[1] && mem[p + 2] == e[2] && mem[p + 3] == e[3]
  {
    var s := mem[p..p + |e|];
    assert s[0] == e[0] && s[1] == e[1] && s[2] == e[2] && s[3] == e[3];
  }

  /** A stretch of nodes read on from its second node. */
  lemma NodesTail(mem: seq<Byte>, off: nat, ns: seq<Node>)
    requires NodesAt(mem, off, ns) && ns != []
    ensures off + Length(ns[0]) <= |mem| && HEADER <= Length(ns[0]) == LengthAt(mem, off) <= MAX_LENGTH
    ensures mem[off..off + Length(ns[0])] == Enc(ns[0])
    ensures NodesAt(mem, off + Length(ns[0]), ns[1..])
  {
    assert Offset(ns, 0) == 0 && Offset(ns, 1) == Length(ns[0]);
    NodeAt(mem, off, ns, 0);
    SubNodes(mem, off, ns, 1, |ns|);
    assert ns[1..|ns|] == ns[1..];
  }

  /** The bytes determine the nodes: of two stretches read at one place, one is a prefix of the other. */
  lemma {:induction false} PrefixNodes(mem: seq<Byte>, off: nat, us: seq<Node>, vs: seq<Node>)
    requires NodesAt(mem, off, us) && NodesAt(mem, off, vs)
    ensures us <= vs || vs <= us
    decreases |us|
  {
    if us != [] && vs != [] {
      NodesTail(mem, off, us);
      NodesTail(mem, off, vs);
      hide NodesAt, LengthAt, Enc;
      SameNode(us[0], vs[0], mem, off);
      PrefixNodes(mem, off + Length(us[0]), us[1..], vs[1..]);
      assert us == [us[0]] + us[1..] && vs == [vs[0]] + vs[1..];
    }
  }

  /** Two paths read at one place are the same path. */
  lemma PathUnique(mem: seq<Byte>, off: nat, us: seq<Node>, vs: seq<Node>)
    requires PathAt(mem, off, us) && PathAt(mem, off, vs)
    ensures us == vs
  {
    var m, n := |us| - 1, |vs| - 1;
    assert m < n ==> us[m] != vs[m];
    assert n < m ==> us[n] != vs[n];
    PrefixNodes(mem, off, us, vs);
  }

  lemma OneMoreNode(n: Node, ns: seq<Node>)
    ensures Total([]) == 0 && Total([n] + ns) == 4 + |n.payload| + Total(ns)
    ensures Sized([n] + ns) <==> 4 + |n.payload| <= 65535 && Sized(ns)
    ensures Sized([]) && Bytes([]) == []
    ensures Sized([n] + ns) ==>
      var length := 4 + |n.payload|;
      Bytes([n] + ns) == [n.kind, n.sub, length % 256, length / 256] + n.payload + Bytes(ns)
  {
    var all := [n] + ns;
    assert all[0] == n && all[1..] == ns && (forall i :: 0 <= i < |ns| ==> all[i + 1] == ns[i]);
    OffsetConcat([n], ns, |ns|);
    assert Offset([n], 1) == Offset([n], 0) + Length(n);
  }

  /** What it is for nodes to stand somewhere: type, subtype, the length in two bytes, the lower one first, and the
      payload, then the next node. */
  lemma NodesMean(mem: seq<Byte>, off: nat, n: Node, ns: seq<Node>, length: nat)
    requires length == 4 + |n.payload|
    ensures NodesAt(mem, off, []) <==> off <= |mem|
    ensures NodesAt(mem, off, [n] + ns) <==>
      && length <= 65535 && off + length <= |mem|
      && mem[off] == n.kind && mem[off + 1] == n.sub && mem[off + 2] as int + 256 * mem[off + 3] as int == length
      && mem[off + 4..off + length] == n.payload
      && NodesAt(mem, off + length, ns)
  {
    OneMoreNode(n, ns);
    hide Sized, Bytes, Total;
    if length <= 65535 && Sized(ns) && off + length + Total(ns) <= |mem| {
      Stretches(mem, off, [n.kind, n.sub, length % 256, length / 256], n.payload, Bytes(ns), Total(ns));
    }
  }

  lemma Stretches(mem: seq<Byte>, off: nat, h: seq<Byte>, payload: seq<Byte>, rest: seq<Byte>, total: nat)
    requires |h| == 4 && off + 4 + |payload| + total <= |mem|
    ensures var length := 4 + |payload|;
      mem[off..off + length + total] == h + payload + rest <==>
        && mem[off] == h[0] && mem[off + 1] == h[1] && mem[off + 2] == h[2] && mem[off + 3] == h[3]
        && mem[off + 4..off + length] == payload && mem[off + length..off + length + total] == rest
  {
    var length := 4 + |payload|;
    var end := off + length + total;
    var all := mem[off..end];
    SliceOfSlice(mem, off, end, 0, 4);
    SliceOfSlice(mem, off, end, 4, length);
    SliceOfSlice(mem, off, end, length, length + total);
    assert all == all[..4] + all[4..length] + all[length..];
    assert all[0] == mem[off] && all[1] == mem[off + 1] && all[2] == mem[off + 2] && all[3] == mem[off + 3];
    if all == h + payload + rest {
      assert (h + payload + rest)[..4] == h && (h + payload + rest)[4..length] == payload;
      assert (h + payload + rest)[length..] == rest;
    }
  }

  lemma SameNode(u: Node, v: Node, mem: seq<Byte>, p: nat)
    requires Length(u) == Length(v) <= MAX_LENGTH && p + Length(u) <= |mem|
    requires mem[p..p + Length(u)] == Enc(u) && mem[p..p + Length(u)] == Enc(v)
    ensures u == v
  {
    assert u.payload == Enc(u)[HEADER..] && v.payload == Enc(v)[HEADER..];
    assert Enc(u)[0] == Enc(v)[0] && Enc(u)[1] == Enc(v)[1];
  }

  // ----- the macros of efidevp.h, on memory -----

  function DevicePathNodeLength(mem: array<Byte>, p: nat): (l: nat)
    requires p + HEADER <= mem.Length
    reads mem
    ensures l == LengthAt(mem[..], p)
  {
    mem[p + 2] as int + 256 * mem[p + 3] as int
  }

  predicate IsDevicePathEndType(mem: array<Byte>, p: nat)
    requires p < mem.Length
    reads mem
  {
    mem[p] % 0x80 == END_TYPE
  }

  predicate IsDevicePathEnd(mem: array<Byte>, p: nat)
    requires p + 1 < mem.Length
    reads mem
  {
    IsDevicePathEndType(mem, p) && mem[p + 1] == ENTIRE
  }

  /** CopyMem between different blocks. */
  method CopyMem(dst: array<Byte>, at: nat, src: array<Byte>, from: nat, count: nat)
    requires dst != src && at + count <= dst.Length && from + count <= src.Length
    modifies dst
    ensures dst[..] == old(dst[..])[..at] + src[from..from + count] + old(dst[..])[at + count..]
  {
    ghost var was := dst[..];
    var i := 0;
    while i < count
      invariant i <= count
      invariant dst[at..at + i] == src[from..from + i]
      invariant dst[..at] == was[..at] && dst[at + i..] == was[at + i..]
    {
      dst[at + i] := src[from + i];
      i := i + 1;
    }
  }

  // ----- walking to the end -----

  /** The bytes DevicePathSize counts: those of the path, but of its end node only the header. */
  function Counted(ns: seq<Node>): (b: seq<Byte>)
    requires IsPath(ns)
    ensures |b| == Offset(ns, |ns| - 1) + HEADER
  {
    BytesOfPart(ns, 0, |ns|);
    Bytes(ns)[..Offset(ns, |ns| - 1) + HEADER]
  }

  /** As much of the path stands in `mem` as a walk to its end reads. */
  ghost predicate HeadersAt(mem: seq<Byte>, off: nat, ns: seq<Node>) {
    IsPath(ns) && off + |Counted(ns)| <= |mem| && mem[off..off + |Counted(ns)|] == Counted(ns)
  }

  lemma PathHeaders(mem: seq<Byte>, off: nat, ns: seq<Node>)
    requires PathAt(mem, off, ns)
    ensures HeadersAt(mem, off, ns)
  {
    EndsAt(ns, |ns| - 1);
    SliceOfSlice(mem, off, off + Total(ns), 0, |Counted(ns)|);
    hide Offset, Bytes, Sized;
  }

  /** The offset of a node is the sum of the lengths in front of it; counted are the bytes up to the last node and four
      more. */
  lemma CountedMeans(ns: seq<Node>, k: nat)
    requires IsPath(ns) && k < |ns|
    ensures Offset(ns, 0) == 0 && Offset(ns, k + 1) == Offset(ns, k) + 4 + |ns[k].payload|
    ensures Offset(ns, |ns| - 1) + 4 <= |Bytes(ns)| && Counted(ns) == Bytes(ns)[..Offset(ns, |ns| - 1) + 4]
  {
    CountedIs(ns, k);
    hide Bytes;
  }

  lemma FirstOfSlice(b: seq<Byte>, n: nat, p: nat, q: nat, e: seq<Byte>)
    requires p + HEADER <= q <= |b| && p + HEADER <= n <= |b| && b[p..q] == e
    ensures b[..n][p..p + HEADER] == e[..HEADER]
  {
    assert forall i :: 0 <= i < HEADER ==> e[i] == b[p..q][i];
  }

  lemma CountedIs(ns: seq<Node>, k: nat)
    requires IsPath(ns) && k < |ns|
    ensures |Counted(ns)| <= |Bytes(ns)| && Counted(ns) == Bytes(ns)[..|Counted(ns)|]
    ensures Offset(ns, k) + HEADER <= |Counted(ns)| == Offset(ns, |ns| - 1) + HEADER
  {
    hide Offset, Bytes, IsEnd;
    BytesTotal(ns);
    EndsAt(ns, |ns| - 1);
    OffsetMonotone(ns, k, |ns| - 1);
  }

  lemma HeaderBytes(ns: seq<Node>, k: nat)
    requires IsPath(ns) && k < |ns|
    ensures var p := Offset(ns, k);
      && p + HEADER <= |Counted(ns)| && Counted(ns)[p..p + HEADER] == Enc(ns[k])[..HEADER]
  {
    CountedIs(ns, k);
    hide *;
    EncodedAt(ns, k);
    FirstOfSlice(Bytes(ns), |Counted(ns)|, Offset(ns, k), Offset(ns, k + 1), Enc(ns[k]));
  }

  /** The walk stands on node `k` of the path `ns` that starts at `off`. */
  ghost predicate On(mem: seq<Byte>, off: nat, ns: seq<Node>, p: nat, k: nat) {
    && k < |ns| && p == off + Offset(ns, k) && p + HEADER <= |mem|
    && mem[p] == ns[k].kind && mem[p + 1] == ns[k].sub && p + LengthAt(mem, p) == off + Offset(ns, k + 1)
  }

  lemma HeaderWithin(mem: seq<Byte>, off: nat, c: seq<Byte>, p: nat, e: seq<Byte>)
    requires off + |c| <= |mem| && mem[off..off + |c|] == c
    requires p + HEADER <= |c| && HEADER <= |e| && c[p..p + HEADER] == e[..HEADER]
    ensures off + p + HEADER <= |mem| && mem[off + p] == e[0] && mem[off + p + 1] == e[1]
    ensures LengthAt(mem, off + p) == e[2] as int + 256 * e[3] as int
  {
    SliceOfSlice(mem, off, off + |c|, p, p + HEADER);
    FirstBytes(mem, off + p, e[..HEADER]);
  }

  lemma HeadersIs(mem: seq<Byte>, off: nat, ns: seq<Node>)
    requires HeadersAt(mem, off, ns)
    ensures IsPath(ns) && Sized(ns) && ns != []
    ensures off + |Counted(ns)| <= |mem| && mem[off..off + |Counted(ns)|] == Counted(ns)
  {}

  lemma OnIs(mem: seq<Byte>, off: nat, ns: seq<Node>, k: nat, p: nat)
    requires k < |ns| && p == Offset(ns, k) && off + p + HEADER <= |mem|
    requires mem[off + p] == ns[k].kind && mem[off + p + 1] == ns[k].sub && LengthAt(mem, off + p) == Length(ns[k])
    ensures On(mem, off, ns, off + p, k)
  {
    assert Offset(ns, k + 1) == p + Length(ns[k]);
  }

  lemma OnNode(mem: seq<Byte>, off: nat, ns: seq<Node>, k: nat)
    requires HeadersAt(mem, off, ns) && k < |ns|
    ensures On(mem, off, ns, off + Offset(ns, k), k)
  {
    hide *;
    HeadersIs(mem, off, ns);
    var p := Offset(ns, k);
    HeaderBytes(ns, k);
    EncodedAt(ns, k);
    EncodedHeader(ns[k]);
    HeaderWithin(mem, off, Counted(ns), p, Enc(ns[k]));
    OnIs(mem, off, ns, k, p);
  }

  lemma OffsetZero(ns: seq<Node>)
    ensures Offset(ns, 0) == 0
  {}

  lemma EndsAt(ns: seq<Node>, k: nat)
    requires IsPath(ns) && k < |ns|
    ensures IsEnd(ns[k]) <==> k == |ns| - 1
    ensures Total(ns) == Offset(ns, |ns| - 1) + Length(ns[|ns| - 1])
  {}

  /** The walk begins at the first node. */
  lemma WalkBegins(mem: seq<Byte>, off: nat, ns: seq<Node>)
    requires HeadersAt(mem, off, ns)
    ensures On(mem, off, ns, off, 0)
  {
    OnNode(mem, off, ns, 0);
  }

  lemma EndHere(n: Node, mem: array<Byte>, p: nat)
    requires p + 1 < mem.Length && mem[p] == n.kind && mem[p + 1] == n.sub
    ensures IsDevicePathEnd(mem, p) <==> IsEnd(n)
  {}

  /** What a walk sees on a node, and where it goes from there. */
  lemma OnStep(mem: array<Byte>, off: nat, ns: seq<Node>, p: nat, k: nat)
    requires HeadersAt(mem[..], off, ns) && On(mem[..], off, ns, p, k)
    ensures k < |ns| && p + 1 < p + HEADER <= mem.Length && DevicePathNodeLength(mem, p) == Length(ns[k])
    ensures IsDevicePathEnd(mem, p) <==> k == |ns| - 1
    ensures k < |ns| - 1 ==> On(mem[..], off, ns, p + DevicePathNodeLength(mem, p), k + 1)
  {
    HeadersIs(mem[..], off, ns);
    hide HeadersAt, IsPath, IsEnd, Offset, Counted, Sized, Bytes;
    EndsAt(ns, k);
    EndHere(ns[k], mem, p);
    if k < |ns| - 1 {
      OnNode(mem[..], off, ns, k + 1);
    }
  }

  /** DevicePathSize: four bytes are counted for the End-Entire node, whatever its length says. */
  method DevicePathSize(mem: array<Byte>, off: nat, ghost ns: seq<Node>) returns (size: nat)
    requires HeadersAt(mem[..], off, ns)
    ensures size == Offset(ns, |ns| - 1) + HEADER == |Counted(ns)|
    ensures Length(ns[|ns| - 1]) == HEADER ==> size == Total(ns)
  {
    hide *;
    var p: nat := off;
    ghost var k: nat := 0;
    WalkBegins(mem[..], off, ns);
    OnStep(mem, off, ns, p, k);
    while !IsDevicePathEnd(mem, p)
      invariant On(mem[..], off, ns, p, k) && k < |ns| && p + 1 < mem.Length
      invariant IsDevicePathEnd(mem, p) <==> k == |ns| - 1
      decreases |ns| - k
    {
      OnStep(mem, off, ns, p, k);
      p := p + DevicePathNodeLength(mem, p);
      k := k + 1;
      OnStep(mem, off, ns, p, k);
    }
    SizeHere(mem[..], off, ns, p);
    size := p - off + HEADER;
  }

  lemma SizeHere(mem: seq<Byte>, off: nat, ns: seq<Node>, p: nat)
    requires HeadersAt(mem, off, ns) && On(mem, off, ns, p, |ns| - 1)
    ensures ns != [] && p - off + HEADER == Offset(ns, |ns| - 1) + HEADER == |Counted(ns)| && p - off + HEADER >= 0
    ensures Length(ns[|ns| - 1]) == HEADER ==> p - off + HEADER == Total(ns)
  {
    EndsAt(ns, |ns| - 1);
  }

  /** DuplicateDevicePath; `hasRoom` says whether AllocatePool has room. The copy is the same path exactly
      when the end node is a bare header. */
  method DuplicateDevicePath(mem: array<Byte>, off: nat, hasRoom: bool, ghost ns: seq<Node>)
    returns (copy: array?<Byte>)
    requires PathAt(mem[..], off, ns)
    ensures copy == null <==> !hasRoom
    ensures copy != null ==> fresh(copy) && copy[..] == Counted(ns)
    ensures copy != null ==> (PathAt(copy[..], 0, ns) <==> Length(ns[|ns| - 1]) == HEADER)
    ensures copy != null && Length(ns[|ns| - 1]) == HEADER ==> copy[..] == Bytes(ns)
  {
    PathHeaders(mem[..], off, ns);
    var size := DevicePathSize(mem, off, ns);
    copy := null;
    if hasRoom {
      copy := new Byte[size];
      CopyMem(copy, 0, mem, off, size);
      assert copy[..] == mem[..][off..off + size];
      CountedIsPathIff(ns);
    }
  }

  lemma CountedIsPathIff(ns: seq<Node>)
    requires IsPath(ns)
    ensures PathAt(Counted(ns), 0, ns) <==> Length(ns[|ns| - 1]) == HEADER
    ensures Length(ns[|ns| - 1]) == HEADER ==> Counted(ns) == Bytes(ns)
  {
    CountedIs(ns, |ns| - 1);
    EndsAt(ns, |ns| - 1);
    BytesOfPart(ns, 0, |ns|);
    hide Bytes, Offset, IsPath;
    if Length(ns[|ns| - 1]) == HEADER {
      assert Counted(ns)[0..|Bytes(ns)|] == Bytes(ns);
    }
  }
}
