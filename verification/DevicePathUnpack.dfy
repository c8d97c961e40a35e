/** UnpackDevicePath of gnu-efi/lib/dpath.c: a copy of a device path in which every node is padded with
    zeros to the machine's alignment (MIN_ALIGNMENT_SIZE, 4 or 8 bytes) and marked as unpacked.
 */
module DevicePathUnpack {
  import opened DevicePathNodes

  const UNPACKED := 0x80

  predicate Alignment(a: nat) {
    a == 4 || a == 8
  }

  function Remainder(a: nat, x: nat): nat
    requires Alignment(a)
  {
    if a == 4 then x % 4 else x % 8
  }

  predicate Aligned(a: nat, x: nat)
    requires Alignment(a)
  {
    Remainder(a, x) == 0
  }

  /** ALIGN_SIZE: the bytes missing to the next multiple. */
  function Pad(a: nat, size: nat): nat
    requires Alignment(a)
  {
    if Aligned(a, size) then 0 else a - Remainder(a, size)
  }

  function PaddedLength(a: nat, n: Node): (l: nat)
    requires Alignment(a)
    ensures Aligned(a, l) && Length(n) <= l < Length(n) + a
  {
    Length(n) + Pad(a, Length(n))
  }

  function Zeros(k: nat): (z: seq<Byte>)
    ensures |z| == k && forall i :: 0 <= i < k ==> z[i] == 0
  {
    seq(k, _ => 0)
  }

  /** What the node is meant to become. */
  function Unpacked(a: nat, n: Node): Node
    requires Alignment(a)
  {
    Node(n.kind % 0x80 + UNPACKED, n.sub, n.payload + Zeros(Pad(a, Length(n))))
  }

  function UnpackedAll(a: nat, ns: seq<Node>): (us: seq<Node>)
    requires Alignment(a)
    ensures |us| == |ns| && forall i :: 0 <= i < |ns| ==> us[i] == Unpacked(a, ns[i])
  {
    seq(|ns|, i requires 0 <= i < |ns| => Unpacked(a, ns[i]))
  }

  /** The bytes the second pass leaves for a node; its length field keeps only 16 bits. */
  function Image(a: nat, n: Node): (b: seq<Byte>)
    requires Alignment(a)
    ensures |b| == PaddedLength(a, n)
  {
    var l := PaddedLength(a, n);
    [n.kind % 0x80 + UNPACKED, n.sub, l % 256, (l / 256) % 256] + n.payload + Zeros(Pad(a, Length(n)))
  }

  function ImageAll(a: nat, ns: seq<Node>): seq<Byte>
    requires Alignment(a)
  {
    if ns == [] then [] else ImageAll(a, ns[..|ns| - 1]) + Image(a, ns[|ns| - 1])
  }

  /** A node becomes the same node with the top bit of its type set and zeros up to the least multiple `l` of the
      alignment that holds it; in the block its length field has the lower 16 bits of `l`. */
  lemma UnpackedMeans(a: nat, ns: seq<Node>, n: Node, l: nat)
    requires (a == 4 && l % 4 == 0) || (a == 8 && l % 8 == 0)
    requires 4 + |n.payload| <= l < 4 + |n.payload| + a
    ensures var zeros := seq(l - 4 - |n.payload|, _ => 0);
      && Unpacked(a, n) == Node(n.kind % 128 + 128, n.sub, n.payload + zeros)
      && Image(a, n) == [n.kind % 128 + 128, n.sub, l % 256, l / 256 % 256] + n.payload + zeros
    ensures UnpackedAll(a, []) == [] && UnpackedAll(a, ns + [n]) == UnpackedAll(a, ns) + [Unpacked(a, n)]
    ensures ImageAll(a, []) == [] && ImageAll(a, ns + [n]) == ImageAll(a, ns) + Image(a, n)
  {
    LeastMultiple(a, 4 + |n.payload|, l);
    assert (ns + [n])[..|ns|] == ns;
  }

  lemma LeastMultiple(a: nat, size: nat, l: nat)
    requires (a == 4 && l % 4 == 0) || (a == 8 && l % 8 == 0)
    requires size <= l < size + a
    ensures Alignment(a) && size + Pad(a, size) == l
  {
    if a == 4 {
      var q, k, r := l / 4, size / 4, size % 4;
      assert 4 * k + r <= 4 * q < 4 * k + r + 4;
      assert q == if r == 0 then k else k + 1;
    } else {
      var q, k, r := l / 8, size / 8, size % 8;
      assert 8 * k + r <= 8 * q < 8 * k + r + 8;
      assert q == if r == 0 then k else k + 1;
    }
  }

  lemma ImageStep(a: nat, ns: seq<Node>, k: nat)
    requires Alignment(a) && k < |ns|
    ensures ImageAll(a, ns[..k + 1]) == ImageAll(a, ns[..k]) + Image(a, ns[k])
  {
    assert ns[..k + 1][..k] == ns[..k];
  }

  lemma SameRemainder4(x: nat, y: nat)
    requires x % 4 == 0
    ensures (x + y) % 4 == y % 4
  {
    var q, k, r := x / 4, y / 4, y % 4;
    assert x + y == 4 * (q + k) + r;
  }

  lemma SameRemainder8(x: nat, y: nat)
    requires x % 8 == 0
    ensures (x + y) % 8 == y % 8
  {
    var q, k, r := x / 8, y / 8, y % 8;
    assert x + y == 8 * (q + k) + r;
  }

  lemma AlignedSum(a: nat, x: nat, y: nat)
    requires Alignment(a) && Aligned(a, x)
    ensures Aligned(a, x + y) == Aligned(a, y) && Pad(a, x + y) == Pad(a, y)
  {
    if a == 4 {
      SameRemainder4(x, y);
    } else {
      SameRemainder8(x, y);
    }
  }

  lemma ImageLength(a: nat, n: Node)
    requires Alignment(a)
    ensures |Image(a, n)| == PaddedLength(a, n) == Length(n) + Pad(a, Length(n)) && Aligned(a, PaddedLength(a, n))
  {}

  lemma {:induction false} ImageAligned(a: nat, ns: seq<Node>, k: nat)
    requires Alignment(a) && k <= |ns|
    ensures Aligned(a, |ImageAll(a, ns[..k])|)
  {
    if k == 0 {
      assert ns[..0] == [];
    } else {
      hide *;
      ImageAligned(a, ns, k - 1);
      ImageStep(a, ns, k - 1);
      ImageLength(a, ns[k - 1]);
      AlignedSum(a, |ImageAll(a, ns[..k - 1])|, |Image(a, ns[k - 1])|);
    }
  }

  /** Rounding the running total up rounds up the node just added. */
  lemma RunningTotal(a: nat, ns: seq<Node>, k: nat)
    requires Alignment(a) && k < |ns|
    ensures var size := |ImageAll(a, ns[..k])| + Length(ns[k]);
      |ImageAll(a, ns[..k + 1])| == size + Pad(a, size)
  {
    hide ImageAll, Image, Aligned, Pad, PaddedLength;
    ImageAligned(a, ns, k);
    ImageStep(a, ns, k);
    ImageLength(a, ns[k]);
    AlignedSum(a, |ImageAll(a, ns[..k])|, Length(ns[k]));
  }

  lemma PrefixOfMore(x: seq<Byte>, y: seq<Byte>, z: seq<Byte>)
    requires x <= y
    ensures x <= y + z
  {}

  lemma {:induction false} ImagePrefix(a: nat, ns: seq<Node>, j: nat, k: nat)
    requires Alignment(a) && j <= k <= |ns|
    ensures ImageAll(a, ns[..j]) <= ImageAll(a, ns[..k])
    decreases k
  {
    hide *;
    if j < k {
      ImagePrefix(a, ns, j, k - 1);
      ImageStep(a, ns, k - 1);
      PrefixOfMore(ImageAll(a, ns[..j]), ImageAll(a, ns[..k - 1]), Image(a, ns[k - 1]));
    }
  }

  // ----- the two passes -----

  /** The first pass stands on node `k`, having counted `size` bytes. */
  ghost predicate Sizing(mem: seq<Byte>, src: nat, a: nat, ns: seq<Node>, p: nat, k: nat, size: nat)
    requires Alignment(a)
  {
    PathAt(mem, src, ns) && On(mem, src, ns, p, k) && size == |ImageAll(a, ns[..k])|
  }

  lemma SizingStarts(mem: seq<Byte>, src: nat, a: nat, ns: seq<Node>)
    requires Alignment(a) && PathAt(mem, src, ns)
    ensures Sizing(mem, src, a, ns, src, 0, 0)
  {
    PathHeaders(mem, src, ns);
    WalkBegins(mem, src, ns);
    assert ns[..0] == [];
    ImageOfNothing(a);
  }

  lemma SizingIs(mem: seq<Byte>, src: nat, a: nat, ns: seq<Node>, p: nat, k: nat, size: nat)
    requires Alignment(a) && Sizing(mem, src, a, ns, p, k, size)
    ensures PathAt(mem, src, ns) && On(mem, src, ns, p, k) && k < |ns| && size == |ImageAll(a, ns[..k])|
    ensures p + 1 < p + HEADER <= |mem|
  {}

  lemma SizingWhen(mem: seq<Byte>, src: nat, a: nat, ns: seq<Node>, p: nat, k: nat, size: nat)
    requires Alignment(a) && PathAt(mem, src, ns) && On(mem, src, ns, p, k)
    requires k <= |ns| && size == |ImageAll(a, ns[..k])|
    ensures Sizing(mem, src, a, ns, p, k, size)
  {}

  lemma SizingStep(mem: array<Byte>, src: nat, a: nat, ns: seq<Node>, p: nat, k: nat, size: nat)
    requires Alignment(a) && Sizing(mem[..], src, a, ns, p, k, size)
    ensures k < |ns| && p + 1 < p + HEADER <= mem.Length
    ensures var sum := size + DevicePathNodeLength(mem, p);
      if IsDevicePathEnd(mem, p) then sum + Pad(a, sum) == |ImageAll(a, ns)|
      else Sizing(mem[..], src, a, ns, p + DevicePathNodeLength(mem, p), k + 1, sum + Pad(a, sum))
  {
    hide *;
    SizingIs(mem[..], src, a, ns, p, k, size);
    PathHeaders(mem[..], src, ns);
    OnStep(mem, src, ns, p, k);
    RunningTotal(a, ns, k);
    assert ns[..|ns|] == ns;
    if !IsDevicePathEnd(mem, p) {
      var sum := size + DevicePathNodeLength(mem, p);
      SizingWhen(mem[..], src, a, ns, p + DevicePathNodeLength(mem, p), k + 1, sum + Pad(a, sum));
    }
  }

  /** The first pass: the size to ask the pool for. */
  method UnpackedSize(mem: array<Byte>, src: nat, a: nat, ghost ns: seq<Node>) returns (size: nat)
    requires Alignment(a) && PathAt(mem[..], src, ns)
    ensures size == |ImageAll(a, ns)|
  {
    hide *;
    var p: nat := src;
    ghost var k: nat := 0;
    size := 0;
    SizingStarts(mem[..], src, a, ns);
    while true
      invariant Sizing(mem[..], src, a, ns, p, k, size)
      decreases |ns| - k
    {
      SizingStep(mem, src, a, ns, p, k, size);
      size := size + DevicePathNodeLength(mem, p);
      size := size + Pad(a, size);
      if IsDevicePathEnd(mem, p) {
        break;
      }
      p := p + DevicePathNodeLength(mem, p);
      k := k + 1;
    }
  }

  lemma ImageOfNothing(a: nat)
    requires Alignment(a)
    ensures ImageAll(a, []) == []
  {}

  lemma OnNodeLength(mem: seq<Byte>, off: nat, ns: seq<Node>, p: nat, k: nat)
    requires PathAt(mem, off, ns) && On(mem, off, ns, p, k)
    ensures LengthAt(mem, p) == Length(ns[k]) <= MAX_LENGTH && p + Length(ns[k]) <= |mem|
    ensures mem[p..p + Length(ns[k])] == Enc(ns[k])
  {
    NodeAt(mem, off, ns, k);
  }

  /** The block is written up to `dest` and still zero behind. */
  ghost predicate Imaged(block: seq<Byte>, dest: nat, image: seq<Byte>) {
    && dest == |image| <= |block| && block[..dest] == image
    && forall i :: dest <= i < |block| ==> block[i] == 0
  }

  /** One turn of the second pass, at a node of length `size`. */
  method UnpackNode(block: array<Byte>, at: nat, mem: array<Byte>, p: nat, a: nat, ghost n: Node, ghost done: seq<Byte>)
    returns (dest: nat)
    requires Alignment(a) && block != mem && Length(n) <= MAX_LENGTH
    requires p + Length(n) <= mem.Length && mem[..][p..p + Length(n)] == Enc(n) && LengthAt(mem[..], p) == Length(n)
    requires Imaged(block[..], at, done) && at + PaddedLength(a, n) <= block.Length
    modifies block
    ensures dest == at + PaddedLength(a, n) && Imaged(block[..], dest, done + Image(a, n))
  {
    ghost var was := block[..];
    var size := DevicePathNodeLength(mem, p);
    CopyMem(block, at, mem, p, size);
    assert mem[p..p + size] == mem[..][p..p + size];
    size := size + Pad(a, size);
    ghost var copied := block[..];
    hide Enc, Image, Imaged, Pad, Remainder;
    block[at + 2] := size % 256;
    block[at + 3] := (size / 256) % 256;
    block[at] := block[at] % 0x80 + UNPACKED;
    dest := at + size;
    NodeImaged(was, copied, block[..], at, a, n, done);
  }

  lemma NodeImaged(was: seq<Byte>, copied: seq<Byte>, now: seq<Byte>, at: nat, a: nat, n: Node, done: seq<Byte>)
    requires Alignment(a) && Length(n) <= MAX_LENGTH && Imaged(was, at, done) && at + PaddedLength(a, n) <= |was|
    requires copied == was[..at] + Enc(n) + was[at + Length(n)..]
    requires |now| == |copied|
    requires now[at] == n.kind % 0x80 + UNPACKED
    requires now[at + 2] == PaddedLength(a, n) % 256 && now[at + 3] == (PaddedLength(a, n) / 256) % 256
    requires forall i :: 0 <= i < |now| && i != at && i != at + 2 && i != at + 3 ==> now[i] == copied[i]
    ensures Imaged(now, at + PaddedLength(a, n), done + Image(a, n))
  {
    var l, e, img := PaddedLength(a, n), Enc(n), Image(a, n);
    forall i | 0 <= i < |now|
      ensures i < at ==> now[i] == done[i]
      ensures at <= i < at + l ==> now[i] == img[i - at]
      ensures at + l <= i ==> now[i] == 0
    {
      if i < at {
        assert now[i] == copied[i] == was[..at][i];
      } else if i < at + Length(n) {
        assert copied[i] == e[i - at];
      } else {
        assert now[i] == copied[i] == was[i] == 0;
      }
    }
    assert now[..at + l] == done + img;
  }

  /** UnpackDevicePath; `hasRoom` says whether AllocateZeroPool succeeds. */
  method UnpackDevicePath(mem: array<Byte>, src: nat, a: nat, hasRoom: bool, ghost ns: seq<Node>)
    returns (newPath: array?<Byte>)
    requires Alignment(a) && PathAt(mem[..], src, ns)
    ensures newPath == null <==> !hasRoom
    ensures newPath != null ==> fresh(newPath) && newPath[..] == ImageAll(a, ns)
  {
    var total := UnpackedSize(mem, src, a, ns);
    if !hasRoom {
      return null;
    }
    var block := new Byte[total](_ => 0);
    UnpackInto(block, mem, src, a, ns);
    newPath := block;
  }

  /** The second pass stands on node `k`, the images of the nodes before it written up to `dest`. */
  ghost predicate Unpacking(mem: seq<Byte>, src: nat, block: seq<Byte>, a: nat, ns: seq<Node>,
                            p: nat, k: nat, dest: nat)
    requires Alignment(a)
  {
    && PathAt(mem, src, ns) && On(mem, src, ns, p, k)
    && |block| == |ImageAll(a, ns)| && Imaged(block, dest, ImageAll(a, ns[..k]))
  }

  lemma UnpackingStarts(mem: seq<Byte>, src: nat, block: seq<Byte>, a: nat, ns: seq<Node>)
    requires Alignment(a) && PathAt(mem, src, ns) && |block| == |ImageAll(a, ns)|
    requires forall i :: 0 <= i < |block| ==> block[i] == 0
    ensures Unpacking(mem, src, block, a, ns, src, 0, 0)
  {
    PathHeaders(mem, src, ns);
    WalkBegins(mem, src, ns);
    assert ns[..0] == [];
    ImageOfNothing(a);
  }

  lemma UnpackingNode(mem: seq<Byte>, src: nat, block: seq<Byte>, a: nat, ns: seq<Node>, p: nat, k: nat, dest: nat)
    requires Alignment(a) && Unpacking(mem, src, block, a, ns, p, k, dest)
    ensures k < |ns| && p + Length(ns[k]) <= |mem| && Length(ns[k]) <= MAX_LENGTH
    ensures mem[p..p + Length(ns[k])] == Enc(ns[k]) && LengthAt(mem, p) == Length(ns[k])
    ensures Imaged(block, dest, ImageAll(a, ns[..k])) && dest + PaddedLength(a, ns[k]) <= |block|
  {
    OnNodeLength(mem, src, ns, p, k);
    hide PathAt, Imaged;
    RoomForNode(block, dest, a, ns, k);
  }

  lemma UnpackingStep(mem: array<Byte>, src: nat, block: seq<Byte>, block': seq<Byte>, a: nat, ns: seq<Node>,
                      p: nat, k: nat, dest: nat, dest': nat)
    requires Alignment(a) && Unpacking(mem[..], src, block, a, ns, p, k, dest) && |block'| == |block|
    requires Imaged(block', dest', ImageAll(a, ns[..k]) + Image(a, ns[k]))
    ensures p + 1 < p + HEADER <= mem.Length
    ensures if IsDevicePathEnd(mem, p) then block' == ImageAll(a, ns)
      else Unpacking(mem[..], src, block', a, ns, p + DevicePathNodeLength(mem, p), k + 1, dest')
  {
    hide *;
    UnpackingIs(mem[..], src, block, a, ns, p, k, dest);
    PathHeaders(mem[..], src, ns);
    OnStep(mem, src, ns, p, k);
    ImageStep(a, ns, k);
    if IsDevicePathEnd(mem, p) {
      AllImaged(block', dest', a, ns);
    } else {
      UnpackingWhen(mem[..], src, block', a, ns, p + DevicePathNodeLength(mem, p), k + 1, dest');
    }
  }

  lemma UnpackingIs(mem: seq<Byte>, src: nat, block: seq<Byte>, a: nat, ns: seq<Node>, p: nat, k: nat, dest: nat)
    requires Alignment(a) && Unpacking(mem, src, block, a, ns, p, k, dest)
    ensures PathAt(mem, src, ns) && On(mem, src, ns, p, k) && k < |ns| && |block| == |ImageAll(a, ns)|
  {}

  lemma UnpackingWhen(mem: seq<Byte>, src: nat, block: seq<Byte>, a: nat, ns: seq<Node>, p: nat, k: nat, dest: nat)
    requires Alignment(a) && PathAt(mem, src, ns) && On(mem, src, ns, p, k) && k <= |ns|
    requires |block| == |ImageAll(a, ns)| && Imaged(block, dest, ImageAll(a, ns[..k]))
    ensures Unpacking(mem, src, block, a, ns, p, k, dest)
  {}

  lemma AllImaged(block: seq<Byte>, dest: nat, a: nat, ns: seq<Node>)
    requires Alignment(a) && |block| == |ImageAll(a, ns)| && Imaged(block, dest, ImageAll(a, ns[..|ns|]))
    ensures block == ImageAll(a, ns)
  {
    assert ns[..|ns|] == ns;
  }

  /** The second pass. */
  method UnpackInto(block: array<Byte>, mem: array<Byte>, src: nat, a: nat, ghost ns: seq<Node>)
    requires Alignment(a) && PathAt(mem[..], src, ns) && block != mem
    requires block.Length == |ImageAll(a, ns)| && forall i :: 0 <= i < block.Length ==> block[i] == 0
    modifies block
    ensures block[..] == ImageAll(a, ns)
  {
    hide *;
    var p: nat, dest: nat := src, 0;
    ghost var k: nat := 0;
    UnpackingStarts(mem[..], src, block[..], a, ns);
    while true
      invariant Unpacking(mem[..], src, block[..], a, ns, p, k, dest)
      decreases |ns| - k
    {
      UnpackingNode(mem[..], src, block[..], a, ns, p, k, dest);
      ghost var was, from := block[..], dest;
      dest := UnpackNode(block, dest, mem, p, a, ns[k], ImageAll(a, ns[..k]));
      UnpackingStep(mem, src, was, block[..], a, ns, p, k, from, dest);
      if IsDevicePathEnd(mem, p) {
        break;
      }
      p := p + DevicePathNodeLength(mem, p);
      k := k + 1;
    }
  }

  lemma RoomForNode(block: seq<Byte>, dest: nat, a: nat, ns: seq<Node>, k: nat)
    requires Alignment(a) && k < |ns| && Imaged(block, dest, ImageAll(a, ns[..k])) && |block| == |ImageAll(a, ns)|
    ensures ImageAll(a, ns[..k + 1]) == ImageAll(a, ns[..k]) + Image(a, ns[k])
    ensures dest + PaddedLength(a, ns[k]) <= |block|
  {
    ImageStep(a, ns, k);
    ImagePrefix(a, ns, k + 1, |ns|);
    assert ns[..|ns|] == ns;
  }

  // ----- what the unpacked path reads as -----

  /** Every node's padded length still fits the 16-bit length field. */
  predicate AllFit(a: nat, ns: seq<Node>)
    requires Alignment(a)
  {
    forall i :: 0 <= i < |ns| ==> PaddedLength(a, ns[i]) <= MAX_LENGTH
  }

  lemma UnpackedLength(a: nat, n: Node)
    requires Alignment(a)
    ensures Length(Unpacked(a, n)) == PaddedLength(a, n)
    ensures IsEnd(Unpacked(a, n)) == IsEnd(n)
    ensures PaddedLength(a, n) <= MAX_LENGTH ==> Image(a, n) == Enc(Unpacked(a, n))
  {}

  lemma {:induction false} ImageIsBytes(a: nat, ns: seq<Node>, k: nat)
    requires Alignment(a) && k <= |ns| && AllFit(a, ns[..k])
    ensures Sized(UnpackedAll(a, ns[..k])) && ImageAll(a, ns[..k]) == Bytes(UnpackedAll(a, ns[..k]))
  {
    if k == 0 {
      assert ns[..0] == [];
    } else {
      LastFits(a, ns, k);
      ImageStep(a, ns, k - 1);
      UnpackedLength(a, ns[k - 1]);
      hide *;
      ImageIsBytes(a, ns, k - 1);
      BytesOne(Unpacked(a, ns[k - 1]));
      BytesConcat(UnpackedAll(a, ns[..k - 1]), [Unpacked(a, ns[k - 1])]);
    }
  }

  lemma BytesOne(n: Node)
    requires Length(n) <= MAX_LENGTH
    ensures Sized([n]) && Bytes([n]) == Enc(n)
  {
    assert [n][1..] == [];
  }

  lemma LastFits(a: nat, ns: seq<Node>, k: nat)
    requires Alignment(a) && 0 < k <= |ns| && AllFit(a, ns[..k])
    ensures AllFit(a, ns[..k - 1]) && PaddedLength(a, ns[k - 1]) <= MAX_LENGTH
    ensures ns[..k - 1 + 1] == ns[..k]
    ensures UnpackedAll(a, ns[..k]) == UnpackedAll(a, ns[..k - 1]) + [Unpacked(a, ns[k - 1])]
  {
    assert forall i :: 0 <= i < k - 1 ==> ns[..k - 1][i] == ns[..k][i];
    assert ns[..k][k - 1] == ns[k - 1];
  }

  /** All of a block that holds exactly the bytes of `us`. */
  lemma BytesAt(us: seq<Node>)
    requires Sized(us)
    ensures NodesAt(Bytes(us), 0, us)
  {
    BytesLength(us, |us|);
    assert us[..|us|] == us;
  }

  lemma UnpackedIsPath(a: nat, ns: seq<Node>)
    requires Alignment(a) && IsPath(ns) && AllFit(a, ns)
    ensures IsPath(UnpackedAll(a, ns))
  {
    var us := UnpackedAll(a, ns);
    forall i | 0 <= i < |us|
      ensures Length(us[i]) <= MAX_LENGTH && IsEnd(us[i]) == IsEnd(ns[i])
    {
      UnpackedLength(a, ns[i]);
    }
  }

  /** When every padded length fits, the block reads as the unpacked nodes, and they fill it. */
  lemma UnpackedReads(a: nat, ns: seq<Node>)
    requires Alignment(a) && IsPath(ns) && AllFit(a, ns)
    ensures PathAt(ImageAll(a, ns), 0, UnpackedAll(a, ns)) && Total(UnpackedAll(a, ns)) == |ImageAll(a, ns)|
  {
    assert ns[..|ns|] == ns;
    ImageIsBytes(a, ns, |ns|);
    UnpackedIsPath(a, ns);
    BytesAt(UnpackedAll(a, ns));
  }

  /** A node of more than 65535 padded bytes gets the length field 0. */
  lemma ZeroLength(a: nat, n: Node)
    requires Alignment(a) && Length(n) <= MAX_LENGTH && PaddedLength(a, n) > MAX_LENGTH
    ensures PaddedLength(a, n) == 0x10000 && Image(a, n)[2] == 0 && Image(a, n)[3] == 0
  {
    if a == 4 {
      assert PaddedLength(a, n) % 4 == 0;
    } else {
      assert PaddedLength(a, n) % 8 == 0;
    }
  }

  lemma FirstMisfit(a: nat, ns: seq<Node>) returns (k: nat)
    requires Alignment(a) && !AllFit(a, ns)
    ensures k < |ns| && PaddedLength(a, ns[k]) > MAX_LENGTH && AllFit(a, ns[..k])
  {
    k := 0;
    while PaddedLength(a, ns[k]) <= MAX_LENGTH
      invariant k < |ns| && AllFit(a, ns[..k])
      invariant exists i :: k <= i < |ns| && PaddedLength(a, ns[i]) > MAX_LENGTH
      decreases |ns| - k
    {
      k := k + 1;
    }
  }

  /** Otherwise no path at all can be read from the block: a walker is stuck on the zero length. */
  lemma MisfitUnreadable(a: nat, ns: seq<Node>, us: seq<Node>)
    requires Alignment(a) && IsPath(ns) && !AllFit(a, ns)
    ensures !PathAt(ImageAll(a, ns), 0, us)
  {
    var k := FirstMisfit(a, ns);
    var good, block := UnpackedAll(a, ns[..k]), ImageAll(a, ns);
    MisfitLayout(a, ns, k);
    NoEndBefore(a, ns, k);
    hide ImageAll, UnpackedAll, AllFit, Image, PaddedLength;
    NothingBehind(block, good, us);
  }

  /** Behind nodes that do not end the path a length of zero ends the reading. */
  lemma NothingBehind(block: seq<Byte>, good: seq<Node>, us: seq<Node>)
    requires NodesAt(block, 0, good) && forall i :: 0 <= i < |good| ==> !IsEnd(good[i])
    requires Total(good) + HEADER <= |block| && LengthAt(block, Total(good)) == 0
    ensures !PathAt(block, 0, us)
  {
    assert PathAt(block, 0, us) ==> IsPath(us) && NodesAt(block, 0, us);
    var k := |good|;
    assert good[..k] == good && Total(good) == Offset(good, k);
    hide *;
    if PathAt(block, 0, us) {
      PrefixNodes(block, 0, good, us);
      NotPrefix(good, us);
      OffsetPrefix(good, us, k);
      NoZeroLength(us[k]);
      NodeAt(block, 0, us, k);
    }
  }

  lemma NoZeroLength(n: Node)
    ensures Length(n) > 0
  {}

  lemma NotPrefix(good: seq<Node>, us: seq<Node>)
    requires IsPath(us) && forall i :: 0 <= i < |good| ==> !IsEnd(good[i])
    requires good <= us || us <= good
    ensures good <= us && |good| < |us|
  {}

  lemma NoEndBefore(a: nat, ns: seq<Node>, k: nat)
    requires Alignment(a) && IsPath(ns) && k < |ns|
    ensures forall i :: 0 <= i < k ==> !IsEnd(UnpackedAll(a, ns[..k])[i])
  {
    forall i | 0 <= i < k
      ensures !IsEnd(UnpackedAll(a, ns[..k])[i])
    {
      assert ns[..k][i] == ns[i];
      UnpackedLength(a, ns[i]);
    }
  }

  /** In front of the first misfit the block reads well; there it has a zero length. */
  lemma MisfitLayout(a: nat, ns: seq<Node>, k: nat)
    requires Alignment(a) && IsPath(ns) && k < |ns| && AllFit(a, ns[..k]) && PaddedLength(a, ns[k]) > MAX_LENGTH
    ensures var good, block := UnpackedAll(a, ns[..k]), ImageAll(a, ns);
      && NodesAt(block, 0, good) && Total(good) + HEADER <= |block| && LengthAt(block, Total(good)) == 0
  {
    var good, block := UnpackedAll(a, ns[..k]), ImageAll(a, ns);
    ImageIsBytes(a, ns, k);
    BytesAt(good);
    ImageStep(a, ns, k);
    ImagePrefix(a, ns, k, |ns|);
    ImagePrefix(a, ns, k + 1, |ns|);
    assert ns[..|ns|] == ns;
    ZeroLength(a, ns[k]);
    hide ImageAll, UnpackedAll, AllFit, PaddedLength, Offset, Bytes;
    ZeroLengthAt(block, Bytes(good), Image(a, ns[k]));
  }

  lemma ZeroLengthAt(block: seq<Byte>, front: seq<Byte>, image: seq<Byte>)
    requires front + image <= block && |image| >= HEADER && image[2] == 0 && image[3] == 0
    ensures |front| + HEADER <= |block| && LengthAt(block, |front|) == 0 && block[0..|front|] == front
  {
    assert (front + image)[|front| + 2] == image[2] && (front + image)[|front| + 3] == image[3];
  }

  /** The unpacked block can be read as a path exactly when every padded node fits a 16-bit length;
      what it reads as is then settled by UnpackedReads. */
  lemma ReadableIff(a: nat, ns: seq<Node>)
    requires Alignment(a) && IsPath(ns)
    ensures (exists us :: PathAt(ImageAll(a, ns), 0, us)) <==> AllFit(a, ns)
  {
    if AllFit(a, ns) {
      UnpackedReads(a, ns);
    } else {
      forall us: seq<Node>
        ensures !PathAt(ImageAll(a, ns), 0, us)
      {
        MisfitUnreadable(a, ns, us);
      }
    }
  }

  /** Every unpacked node starts on an alignment boundary. */
  lemma {:induction false} NodesAligned(a: nat, ns: seq<Node>, k: nat)
    requires Alignment(a) && k <= |ns|
    ensures Aligned(a, Offset(UnpackedAll(a, ns), k))
  {
    if k != 0 {
      NodesAligned(a, ns, k - 1);
      UnpackedLength(a, ns[k - 1]);
      ImageLength(a, ns[k - 1]);
      var us := UnpackedAll(a, ns);
      hide Unpacked, UnpackedAll, PaddedLength, Aligned;
      AlignedSum(a, Offset(us, k - 1), Length(us[k - 1]));
    }
  }

  /** Unpacking what has been unpacked changes nothing. */
  lemma UnpackTwice(a: nat, ns: seq<Node>)
    requires Alignment(a)
    ensures UnpackedAll(a, UnpackedAll(a, ns)) == UnpackedAll(a, ns)
    ensures AllFit(a, ns) ==> ImageAll(a, UnpackedAll(a, ns)) == ImageAll(a, ns)
  {
    var us := UnpackedAll(a, ns);
    forall i | 0 <= i < |ns|
      ensures Unpacked(a, us[i]) == us[i] && PaddedLength(a, us[i]) == PaddedLength(a, ns[i])
    {
      UnpackedLength(a, ns[i]);
      NoMorePadding(a, us[i]);
    }
    assert UnpackedAll(a, us) == us;
    if AllFit(a, ns) {
      assert ns[..|ns|] == ns && us[..|us|] == us;
      ImageIsBytes(a, ns, |ns|);
      ImageIsBytes(a, us, |us|);
    }
  }

  lemma NoMorePadding(a: nat, u: Node)
    requires Alignment(a) && Aligned(a, Length(u)) && u.kind >= UNPACKED
    ensures Unpacked(a, u) == u && PaddedLength(a, u) == Length(u)
  {
    assert u.payload + Zeros(0) == u.payload;
  }
}
