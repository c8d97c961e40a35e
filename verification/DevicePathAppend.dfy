/** Joining device paths: AppendDevicePath, AppendDevicePathNode and AppendDevicePathInstance of
    gnu-efi/lib/dpath.c. Each builds its result in a fresh pool block.
 */
module DevicePathAppend {
  import opened DevicePathNodes
  import opened DevicePathInstances
  import opened Options

  /** How a call ends: with a block, without memory, or by writing past the block or through NULL. */
  datatype Ending = Built | NoMemory | Overrun | NullWrite

  // ----- filling a block -----

  /** The first `pos` bytes of the block are `done`. */
  ghost predicate Filled(block: seq<Byte>, pos: nat, done: seq<Byte>) {
    pos == |done| <= |block| && block[..pos] == done
  }

  lemma FilledMore(was: seq<Byte>, now: seq<Byte>, pos: nat, done: seq<Byte>, more: seq<Byte>)
    requires Filled(was, pos, done) && pos + |more| <= |now| && |was| <= |now|
    requires now[..pos] == was[..pos] && now[pos..pos + |more|] == more
    ensures Filled(now, pos + |more|, done + more)
  {
    assert now[..pos + |more|] == now[..pos] + now[pos..pos + |more|];
  }

  /** CopyMem behind what is already there. */
  method PutBytes(block: array<Byte>, pos: nat, src: array<Byte>, from: nat, count: nat, ghost done: seq<Byte>)
    requires block != src && Filled(block[..], pos, done)
    requires from + count <= src.Length && pos + count <= block.Length
    modifies block
    ensures Filled(block[..], pos + count, done + src[..][from..from + count])
  {
    ghost var was := block[..];
    CopyMem(block, pos, src, from, count);
    assert block[..][..pos] == was[..pos] && block[..][pos..pos + count] == src[..][from..from + count];
    FilledMore(was, block[..], pos, done, src[..][from..from + count]);
  }

  /** CopyMem of one of the two constant end nodes. */
  method PutEnd(block: array<Byte>, pos: nat, end: Node, ghost done: seq<Byte>)
    requires end == END_ENTIRE || end == END_INSTANCE
    requires Filled(block[..], pos, done) && pos + HEADER <= block.Length
    modifies block
    ensures Filled(block[..], pos + HEADER, done + Enc(end))
  {
    ghost var was := block[..];
    block[pos], block[pos + 1], block[pos + 2], block[pos + 3] := end.kind, end.sub, 4, 0;
    assert block[..][pos..pos + HEADER] == Enc(end);
    FilledMore(was, block[..], pos, done, Enc(end));
  }

  // ----- AppendDevicePath -----

  /** What the copy loop writes: each piece, the counted bytes of the second path with its own end node, and an
      End-Instance node. */
  function Glued(ps: seq<seq<Node>>, c2: seq<Byte>): seq<Byte>
    requires AllPlain(ps)
  {
    if ps == [] then [] else Glued(ps[..|ps| - 1], c2) + (Bytes(ps[|ps| - 1]) + c2 + Enc(END_INSTANCE))
  }

  /** The same with the last end marker changed. */
  function Appended(ps: seq<seq<Node>>, c2: seq<Byte>): seq<Byte>
    requires ps != [] && AllPlain(ps)
  {
    Glued(ps[..|ps| - 1], c2) + (Bytes(ps[|ps| - 1]) + c2 + Enc(END_ENTIRE))
  }

  /** The pieces of a path have the bytes to be copied. */
  function PlainPieces(ns: seq<Node>): (ps: seq<seq<Node>>)
    requires IsPath(ns)
    ensures ps == Pieces(ns) && ps != [] && AllPlain(ps)
  {
    PiecesPlain(ns);
    Pieces(ns)
  }

  /** The bytes written for two paths. */
  function Written(ns1: seq<Node>, ns2: seq<Node>): nat
    requires IsPath(ns1) && IsPath(ns2)
  {
    |Glued(PlainPieces(ns1), Counted(ns2))|
  }

  function Blocks(size: nat, count: nat): nat {
    size * count
  }

  /** The size the function asks the pool for. */
  function Asked(ns1: seq<Node>, ns2: seq<Node>): nat
    requires IsPath(ns1) && IsPath(ns2)
  {
    Blocks(|Counted(ns1)|, |Pieces(ns1)|) + |Counted(ns2)|
  }

  /** The bytes in order: each piece with the second path, and an end marker, of subtype 1 but for the last, which has
      0xFF. The loop writes as many bytes, and the block is for one first path a piece and one second path. */
  lemma AppendedMeans(piece: seq<Node>, ps: seq<seq<Node>>, c2: seq<Byte>)
    requires Plain(piece) && AllPlain(ps)
    ensures AllPlain([piece]) && Appended([piece], c2) == Bytes(piece) + c2 + [0x7F, 0xFF, 4, 0]
    ensures AllPlain([piece] + ps)
    ensures ps != [] ==> Appended([piece] + ps, c2) == Bytes(piece) + c2 + [0x7F, 1, 4, 0] + Appended(ps, c2)
  {
    OnePlain(piece, ps);
    EndBytes();
    hide *;
    if ps != [] {
      AppendedFront(piece, ps, c2);
    }
    GluedNone(c2);
    assert [piece] == [] + [piece];
    GluedLast([piece], piece, [], c2);
  }

  lemma WrittenMeans(ns1: seq<Node>, ns2: seq<Node>)
    requires IsPath(ns1) && IsPath(ns2)
    ensures Written(ns1, ns2) == |Appended(PlainPieces(ns1), Counted(ns2))|
    ensures Asked(ns1, ns2) == |Counted(ns1)| * |Pieces(ns1)| + |Counted(ns2)|
  {
    hide Glued, Appended, Enc, Counted, IsPath, Plain, Bytes, Pieces;
    var done := LastTurn(PlainPieces(ns1), Counted(ns2));
  }

  lemma OnePlain(piece: seq<Node>, ps: seq<seq<Node>>)
    requires Plain(piece) && AllPlain(ps)
    ensures AllPlain([piece]) && AllPlain([piece] + ps)
  {}

  lemma EndBytes()
    ensures Enc(END_INSTANCE) == [0x7F, 1, 4, 0] && Enc(END_ENTIRE) == [0x7F, 0xFF, 4, 0]
  {}

  lemma {:induction false} GluedFront(piece: seq<Node>, ps: seq<seq<Node>>, c2: seq<Byte>)
    requires Plain(piece) && AllPlain(ps)
    ensures AllPlain([piece] + ps)
    ensures Glued([piece] + ps, c2) == Bytes(piece) + c2 + Enc(END_INSTANCE) + Glued(ps, c2)
  {
    var all, front := [piece] + ps, Bytes(piece) + c2 + Enc(END_INSTANCE);
    OnePlain(piece, ps);
    hide *;
    if ps == [] {
      GluedLast([piece], piece, [], c2);
      GluedNone(c2);
      assert all == [] + [piece] && front + [] == front && [] + front == front && [piece] == [] + [piece];
    } else {
      var n := |ps| - 1;
      var last := ps[n];
      FrontPlain(ps);
      GluedFront(piece, ps[..n], c2);
      OnePlain(piece, ps[..n]);
      assert ps == ps[..n] + [last] && all == ([piece] + ps[..n]) + [last];
      GluedLast(all, last, [piece] + ps[..n], c2);
      GluedLast(ps, last, ps[..n], c2);
      Joined(front, Glued(ps[..n], c2), Bytes(last) + c2 + Enc(END_INSTANCE));
    }
  }

  lemma GluedLast(all: seq<seq<Node>>, last: seq<Node>, ps: seq<seq<Node>>, c2: seq<Byte>)
    requires AllPlain(all) && all == ps + [last]
    ensures AllPlain(ps) && Plain(last)
    ensures Glued(all, c2) == Glued(ps, c2) + (Bytes(last) + c2 + Enc(END_INSTANCE))
    ensures Appended(all, c2) == Glued(ps, c2) + (Bytes(last) + c2 + Enc(END_ENTIRE))
  {
    assert all[|ps|] == last && all[..|ps|] == ps;
    hide Bytes, Enc, Plain;
  }

  lemma GluedNone(c2: seq<Byte>)
    ensures Glued([], c2) == []
  {}

  lemma FrontPlain(ps: seq<seq<Node>>)
    requires AllPlain(ps) && ps != []
    ensures AllPlain(ps[..|ps| - 1]) && Plain(ps[|ps| - 1])
  {}

  lemma Joined(a: seq<Byte>, b: seq<Byte>, c: seq<Byte>)
    ensures a + b + c == a + (b + c)
  {}

  lemma AppendedFront(piece: seq<Node>, ps: seq<seq<Node>>, c2: seq<Byte>)
    requires Plain(piece) && AllPlain(ps) && ps != []
    ensures AllPlain([piece] + ps)
    ensures Appended([piece] + ps, c2) == Bytes(piece) + c2 + Enc(END_INSTANCE) + Appended(ps, c2)
  {
    var all, n := [piece] + ps, |ps| - 1;
    var last := ps[n];
    OnePlain(piece, ps);
    hide *;
    FrontPlain(ps);
    GluedFront(piece, ps[..n], c2);
    assert ps == ps[..n] + [last] && all == ([piece] + ps[..n]) + [last];
    GluedLast(all, last, [piece] + ps[..n], c2);
    GluedLast(ps, last, ps[..n], c2);
    Joined(Bytes(piece) + c2 + Enc(END_INSTANCE), Glued(ps[..n], c2), Bytes(last) + c2 + Enc(END_ENTIRE));
  }

  lemma GluedStep(ps: seq<seq<Node>>, c2: seq<Byte>, k: nat)
    requires k < |ps| && AllPlain(ps)
    ensures AllPlain(ps[..k]) && AllPlain(ps[..k + 1]) && Plain(ps[k])
    ensures Glued(ps[..k + 1], c2) == Glued(ps[..k], c2) + Bytes(ps[k]) + c2 + Enc(END_INSTANCE)
    ensures |Glued(ps[..k + 1], c2)| == |Glued(ps[..k], c2)| + Total(ps[k]) + |c2| + HEADER
  {
    assert ps[..k + 1][..k] == ps[..k] && ps[k][..|ps[k]|] == ps[k];
    BytesLength(ps[k], |ps[k]|);
    hide Bytes, Offset;
    var g := Glued(ps[..k], c2);
    assert g + (Bytes(ps[k]) + c2 + Enc(END_INSTANCE)) == g + Bytes(ps[k]) + c2 + Enc(END_INSTANCE);
  }

  lemma {:induction false} GluedGrows(ps: seq<seq<Node>>, c2: seq<Byte>, j: nat, k: nat)
    requires j <= k <= |ps| && AllPlain(ps)
    ensures AllPlain(ps[..j]) && AllPlain(ps[..k]) && |Glued(ps[..j], c2)| <= |Glued(ps[..k], c2)|
    decreases k
  {
    if j < k {
      GluedGrows(ps, c2, j, k - 1);
      GluedStep(ps, c2, k - 1);
    }
  }

  /** The copy loop. It stops as soon as a copy would leave the block. */
  method CopyInstances(block: array<Byte>, mem1: array<Byte>, src1: nat, mem2: array<Byte>, src2: nat, size2: nat,
                       ghost ns1: seq<Node>, ghost ns2: seq<Node>) returns (pos: nat, ending: Ending)
    requires block != mem1 && block != mem2
    requires PathAt(mem1[..], src1, ns1) && HeadersAt(mem2[..], src2, ns2) && size2 == |Counted(ns2)|
    modifies block
    ensures ending == if Written(ns1, ns2) > block.Length then Overrun else Built
    ensures ending == Built ==> Filled(block[..], pos, Glued(PlainPieces(ns1), Counted(ns2)))
  {
    ghost var m1, m2 := mem1[..], mem2[..];
    ghost var ps, rest, k := PlainPieces(ns1), ns1, 0;
    var cursor: Option<nat> := Some(src1);
    pos := 0;
    IterationStarts(m1, src1, ns1);
    assert ps[..0] == [] && ps[..|ps|] == ps && Glued([], Counted(ns2)) == [];
    hide PathAt, HeadersAt, NodesAt, Pieces, Glued, Yields, Total, Sized, Iterating, AllPlain;
    while cursor.Some?
      invariant mem1[..] == m1 && mem2[..] == m2
      invariant 0 <= k <= |ps| && AllPlain(ps[..k]) && Filled(block[..], pos, Glued(ps[..k], Counted(ns2)))
      invariant Iterating(m1, ps, k, cursor, rest)
      decreases if cursor.Some? then |rest| + 1 else 0
    {
      IterationIs(m1, ps, k, cursor, rest);
      var fits, newPos, next := CopyNext(block, pos, mem1, cursor.value, mem2, src2, size2, ps, k, rest, ns2);
      if !fits {
        return pos, Overrun;
      }
      pos, k, cursor, rest := newPos, k + 1, next, Ahead(rest, next);
    }
    IterationIs(m1, ps, k, cursor, rest);
    ending := Built;
  }

  /** One turn of the copy loop: fetch the next piece and copy it with the second path. */
  method CopyNext(block: array<Byte>, at: nat, mem1: array<Byte>, cursor: nat, mem2: array<Byte>, src2: nat, size2: nat,
                  ghost ps: seq<seq<Node>>, ghost k: nat, ghost rest: seq<Node>, ghost ns2: seq<Node>)
    returns (fits: bool, pos: nat, next: Option<nat>)
    requires block != mem1 && block != mem2 && k < |ps| && AllPlain(ps) && AllPlain(ps[..k])
    requires IsPath(ns2) && HeadersAt(mem2[..], src2, ns2) && size2 == |Counted(ns2)|
    requires Filled(block[..], at, Glued(ps[..k], Counted(ns2)))
    requires PathAt(mem1[..], cursor, rest) && Iterating(mem1[..], ps, k, Some(cursor), rest)
    modifies block
    ensures !fits ==> |Glued(ps, Counted(ns2))| > block.Length
    ensures AllPlain(ps[..k + 1]) && (fits ==> Filled(block[..], pos, Glued(ps[..k + 1], Counted(ns2))))
    ensures Iterating(mem1[..], ps, k + 1, next, Ahead(rest, next)) && (next.Some? ==> |Ahead(rest, next)| < |rest|)
  {
    hide *;
    ghost var m1, c2 := mem1[..], Counted(ns2);
    var inst, size;
    inst, size, next := DevicePathInstance(mem1, Some(cursor), rest);
    IterationStep(m1, ps, k, cursor, rest, size, next);
    NoMoreThanAll(block[..], at, ps, c2, k);
    fits := CopyOne(block, at, mem1, inst.value, size, mem2, src2, size2, Glued(ps[..k], c2), ps[k], ns2);
    pos := at + size + size2 + HEADER;
    assert mem1[..] == m1;
  }

  /** The next turn's end is no further on than the end of the whole loop. */
  lemma NoMoreThanAll(block: seq<Byte>, pos: nat, ps: seq<seq<Node>>, c2: seq<Byte>, k: nat)
    requires k < |ps| && AllPlain(ps) && AllPlain(ps[..k]) && Filled(block, pos, Glued(ps[..k], c2))
    ensures Plain(ps[k]) && AllPlain(ps[..k + 1]) && pos < pos + Total(ps[k]) + |c2| + HEADER <= |Glued(ps, c2)|
    ensures Glued(ps[..k + 1], c2) == Glued(ps[..k], c2) + Bytes(ps[k]) + c2 + Enc(END_INSTANCE)
  {
    GluedStep(ps, c2, k);
    GluedGrows(ps, c2, k + 1, |ps|);
    assert ps[..|ps|] == ps;
  }

  /** One turn: the three CopyMem calls. */
  method CopyOne(block: array<Byte>, at: nat, mem1: array<Byte>, inst: nat, size: nat,
                 mem2: array<Byte>, src2: nat, size2: nat,
                 ghost done: seq<Byte>, ghost piece: seq<Node>, ghost ns2: seq<Node>) returns (fits: bool)
    requires block != mem1 && block != mem2 && Filled(block[..], at, done)
    requires NodesAt(mem1[..], inst, piece) && size == Total(piece)
    requires HeadersAt(mem2[..], src2, ns2) && size2 == |Counted(ns2)|
    modifies block
    ensures fits <==> at + size + size2 + HEADER <= block.Length
    ensures fits ==>
      Filled(block[..], at + size + size2 + HEADER, done + Bytes(piece) + Counted(ns2) + Enc(END_INSTANCE))
  {
    hide Filled, Counted, IsPath, Enc, Bytes, Offset;
    var pos := at;
    if pos + size > block.Length {
      return false;
    }
    PutBytes(block, pos, mem1, inst, size, done);
    pos := pos + size;
    if pos + size2 > block.Length {
      return false;
    }
    PutBytes(block, pos, mem2, src2, size2, done + Bytes(piece));
    pos := pos + size2;
    if pos + HEADER > block.Length {
      return false;
    }
    PutEnd(block, pos, END_INSTANCE, done + Bytes(piece) + Counted(ns2));
    fits := true;
  }

  /** Stepping back over the last end marker. */
  lemma StepBack(block: seq<Byte>, pos: nat, done: seq<Byte>)
    requires Filled(block, pos, done + Enc(END_INSTANCE))
    ensures pos >= HEADER && Filled(block, pos - HEADER, done)
  {
    assert block[..pos - HEADER] == block[..pos][..pos - HEADER];
  }

  /** AppendDevicePath. */
  method AppendDevicePath(mem1: array<Byte>, src1: Option<nat>, mem2: array<Byte>, src2: Option<nat>, hasRoom: bool,
                          ghost ns1: seq<Node>, ghost ns2: seq<Node>) returns (block: array?<Byte>, ending: Ending)
    requires src1.Some? || src2.Some?
    requires src1.Some? ==> PathAt(mem1[..], src1.value, ns1)
    requires src2.Some? ==> PathAt(mem2[..], src2.value, ns2)
    ensures block != null <==> ending == Built
    ensures block != null ==> fresh(block)
    ensures src1.None? ==> ending == (if hasRoom then Built else NoMemory) && (hasRoom ==> block[..] == Counted(ns2))
    ensures src2.None? ==> ending == (if hasRoom then Built else NoMemory) && (hasRoom ==> block[..] == Counted(ns1))
    ensures src1.Some? && src2.Some? ==>
      && ending == (if !hasRoom then NoMemory else if Written(ns1, ns2) > Asked(ns1, ns2) then Overrun else Built)
      && (ending == Built ==>
          block.Length == Asked(ns1, ns2)
          && Filled(block[..], Written(ns1, ns2), Appended(PlainPieces(ns1), Counted(ns2)))
          && Appended(PlainPieces(ns1), Counted(ns2)) <= block[..])
  {
    if src1.None? {
      block := DuplicateDevicePath(mem2, src2.value, hasRoom, ns2);
      return block, if hasRoom then Built else NoMemory;
    }
    if src2.None? {
      block := DuplicateDevicePath(mem1, src1.value, hasRoom, ns1);
      return block, if hasRoom then Built else NoMemory;
    }
    hide PathAt, Written, Asked, Appended;
    block, ending := AppendBoth(mem1, src1.value, mem2, src2.value, hasRoom, ns1, ns2);
  }

  method AppendBoth(mem1: array<Byte>, src1: nat, mem2: array<Byte>, src2: nat, hasRoom: bool,
                    ghost ns1: seq<Node>, ghost ns2: seq<Node>) returns (block: array?<Byte>, ending: Ending)
    requires PathAt(mem1[..], src1, ns1) && PathAt(mem2[..], src2, ns2)
    ensures block != null <==> ending == Built
    ensures ending == (if !hasRoom then NoMemory else if Written(ns1, ns2) > Asked(ns1, ns2) then Overrun else Built)
    ensures ending == Built ==>
      && fresh(block) && block.Length == Asked(ns1, ns2)
      && Filled(block[..], Written(ns1, ns2), Appended(PlainPieces(ns1), Counted(ns2)))
  {
    PathIs(mem1[..], src1, ns1);
    PathIs(mem2[..], src2, ns2);
    hide *;
    PathHeaders(mem1[..], src1, ns1);
    PathHeaders(mem2[..], src2, ns2);
    var src1Size := DevicePathSize(mem1, src1, ns1);
    var src1Inst := DevicePathInstanceCount(mem1, Some(src1), ns1);
    var src2Size := DevicePathSize(mem2, src2, ns2);
    if !hasRoom {
      return null, NoMemory;
    }
    SizeAsked(ns1, ns2, src1Size, src1Inst, src2Size);
    var dst := new Byte[src1Size * src1Inst + src2Size];
    var pos;
    pos, ending := CopyInstances(dst, mem1, src1, mem2, src2, src2Size, ns1, ns2);
    if ending == Overrun {
      return null, Overrun;
    }
    ChangeLastEnd(dst, pos, ns1, ns2);
    block := dst;
  }

  lemma PathIs(mem: seq<Byte>, off: nat, ns: seq<Node>)
    requires PathAt(mem, off, ns)
    ensures IsPath(ns)
  {}

  lemma SizeAsked(ns1: seq<Node>, ns2: seq<Node>, size1: nat, count1: nat, size2: nat)
    requires IsPath(ns1) && IsPath(ns2)
    requires size1 == |Counted(ns1)| && count1 == |Pieces(ns1)| && size2 == |Counted(ns2)|
    ensures size1 * count1 >= 0 && size1 * count1 + size2 == Asked(ns1, ns2)
  {
    assert Asked(ns1, ns2) == Blocks(size1, count1) + size2;
  }

  /** The last end marker becomes End-Entire. */
  method ChangeLastEnd(block: array<Byte>, pos: nat, ghost ns1: seq<Node>, ghost ns2: seq<Node>)
    requires IsPath(ns1) && IsPath(ns2) && Filled(block[..], pos, Glued(PlainPieces(ns1), Counted(ns2)))
    modifies block
    ensures Filled(block[..], Written(ns1, ns2), Appended(PlainPieces(ns1), Counted(ns2)))
  {
    ghost var ps, c2 := PlainPieces(ns1), Counted(ns2);
    hide *;
    ghost var done := LastTurn(ps, c2);
    StepBack(block[..], pos, done);
    FilledLength(block[..], pos, Glued(ps, c2));
    PutEnd(block, pos - HEADER, END_ENTIRE, done);
  }

  lemma LastTurn(ps: seq<seq<Node>>, c2: seq<Byte>) returns (done: seq<Byte>)
    requires ps != [] && AllPlain(ps)
    ensures Glued(ps, c2) == done + Enc(END_INSTANCE) && Appended(ps, c2) == done + Enc(END_ENTIRE)
    ensures |Enc(END_INSTANCE)| == |Enc(END_ENTIRE)| == HEADER
  {
    var front := Glued(ps[..|ps| - 1], c2);
    done := front + (Bytes(ps[|ps| - 1]) + c2);
    hide Glued, Enc, Bytes;
  }

  lemma FilledLength(block: seq<Byte>, pos: nat, done: seq<Byte>)
    requires Filled(block, pos, done)
    ensures pos == |done| <= |block|
  {}

  // ----- what AppendDevicePath achieves -----

  /** What the comment above AppendDevicePath describes: the second path appended to every instance. */
  function Promised(insts1: seq<seq<Node>>, insts2: seq<seq<Node>>): (insts: seq<seq<Node>>)
    requires insts2 != []
    ensures |insts| == |insts1| * |insts2|
  {
    if insts1 == [] then [] else [insts1[0] + insts2[0]] + insts2[1..] + Promised(insts1[1..], insts2)
  }

  lemma PromisedMeans(inst: seq<Node>, insts1: seq<seq<Node>>, insts2: seq<seq<Node>>)
    requires insts2 != []
    ensures Promised([], insts2) == []
    ensures Promised([inst] + insts1, insts2) == [inst + insts2[0]] + insts2[1..] + Promised(insts1, insts2)
  {
    assert ([inst] + insts1)[1..] == insts1;
  }

  lemma {:induction false} GluedStarts(ps: seq<seq<Node>>, c2: seq<Byte>)
    requires ps != [] && AllPlain(ps)
    ensures Bytes(ps[0]) + c2 <= Appended(ps, c2)
    ensures Bytes(ps[0]) + c2 <= Glued(ps, c2)
    decreases |ps|
  {
    var front := ps[..|ps| - 1];
    hide Bytes, Enc;
    if front == [] {
      assert Glued([], c2) == [];
      assert Appended(ps, c2) == Bytes(ps[0]) + c2 + Enc(END_ENTIRE);
    } else {
      GluedStarts(front, c2);
    }
  }

  /** The header of a node. */
  function Enc0(n: Node): seq<Byte>
  {
    if Length(n) <= MAX_LENGTH then Enc(n)[..HEADER] else []
  }

  /** What a reader finds when the nodes `q` and the header of `end` start the block. */
  ghost predicate FindsBehind(block: seq<Byte>, q: seq<Node>, end: Node) {
    var at, l := Total(q), Length(end);
    && at + HEADER <= |block|
    && if at + l <= |block| then PathAt(block, 0, q + [end.(payload := block[at + HEADER..at + l])])
       else forall us :: !PathAt(block, 0, us)
  }

  /** The nodes `q` stand at the start, and behind them the header of an end node: what a reader finds is a path
      whose end node has the bytes that follow for its payload, and nothing if they are too few. */
  lemma ReadBehind(block: seq<Byte>, q: seq<Node>, end: Node)
    requires NodesAt(block, 0, q) && IsEnd(end) && Length(end) <= MAX_LENGTH
    requires forall i :: 0 <= i < |q| ==> !IsEnd(q[i])
    requires var at := Total(q); at + HEADER <= |block| && block[at..at + HEADER] == Enc0(end)
    ensures FindsBehind(block, q, end)
  {
    var at, l := Total(q), Length(end);
    EndHeader(block, at, end);
    if at + l <= |block| {
      var end' := end.(payload := block[at + HEADER..at + l]);
      hide IsEnd, NodesAt, Offset;
      WholeEnd(block, at, end, end');
      NodesBehind(block, q, end');
    } else {
      forall us
        ensures !PathAt(block, 0, us)
      {
        TooShort(block, q, us, l);
      }
    }
  }

  lemma TooShort(block: seq<Byte>, q: seq<Node>, us: seq<Node>, l: nat)
    requires NodesAt(block, 0, q) && forall i :: 0 <= i < |q| ==> !IsEnd(q[i])
    requires Total(q) + HEADER <= |block| && LengthAt(block, Total(q)) == l && Total(q) + l > |block|
    ensures !PathAt(block, 0, us)
  {
    assert PathAt(block, 0, us) ==> IsPath(us) && NodesAt(block, 0, us);
    assert Total(q) == Offset(q, |q|);
    hide *;
    if PathAt(block, 0, us) {
      PrefixNodes(block, 0, q, us);
      PathGoesOn(q, us);
      OffsetPrefix(q, us, |q|);
      NodeAt(block, 0, us, |q|);
    }
  }

  lemma PathGoesOn(q: seq<Node>, us: seq<Node>)
    requires IsPath(us) && (forall i :: 0 <= i < |q| ==> !IsEnd(q[i])) && (q <= us || us <= q)
    ensures q <= us && |q| < |us| && us[..|q|] == q == q[..|q|]
  {}

  lemma EndHeader(block: seq<Byte>, at: nat, end: Node)
    requires Length(end) <= MAX_LENGTH && at + HEADER <= |block| && block[at..at + HEADER] == Enc(end)[..HEADER]
    ensures block[at] == end.kind && block[at + 1] == end.sub && LengthAt(block, at) == Length(end)
  {
    var e := block[at..at + HEADER];
    assert e[0] == block[at] && e[1] == block[at + 1] && e[2] == block[at + 2] && e[3] == block[at + 3];
    assert forall i :: 0 <= i < HEADER ==> e[i] == Enc(end)[i];
  }

  lemma WholeEnd(block: seq<Byte>, at: nat, end: Node, end': Node)
    requires Length(end) <= MAX_LENGTH && at + Length(end) <= |block| && block[at..at + HEADER] == Enc(end)[..HEADER]
    requires end' == end.(payload := block[at + HEADER..at + Length(end)])
    ensures Length(end') == Length(end) && block[at..at + Length(end)] == Enc(end')
  {
    var l := Length(end);
    assert block[at..at + l] == block[at..at + HEADER] + block[at + HEADER..at + l];
    assert Enc(end') == Enc(end)[..HEADER] + end'.payload;
  }

  lemma NodesBehind(block: seq<Byte>, q: seq<Node>, n: Node)
    requires NodesAt(block, 0, q) && Length(n) <= MAX_LENGTH && Total(q) + Length(n) <= |block|
    requires block[Total(q)..Total(q) + Length(n)] == Enc(n)
    ensures NodesAt(block, 0, q + [n])
  {
    BytesConcat(q, [n]);
    OffsetConcat(q, [n], 1);
    OneNode(n);
    assert Bytes([n]) == Enc(n) + Bytes([]);
    hide Bytes, Offset, Enc;
    var at, l := Total(q), Length(n);
    assert block[0..at + l] == block[0..at] + block[at..at + l];
  }

  /** The path with another payload in its end node. */
  function Reread(ns: seq<Node>, payload: seq<Byte>): seq<Node>
    requires ns != []
  {
    ns[..|ns| - 1] + [ns[|ns| - 1].(payload := payload)]
  }

  lemma RereadIs(inst: seq<Node>, ns: seq<Node>, payload: seq<Byte>)
    requires ns != []
    ensures (inst + ns[..|ns| - 1]) + [ns[|ns| - 1].(payload := payload)] == inst + Reread(ns, payload)
    ensures Reread(ns, ns[|ns| - 1].payload) == ns
  {}

  lemma CountedSplit(ns: seq<Node>)
    requires IsPath(ns)
    ensures var front, end := ns[..|ns| - 1], ns[|ns| - 1];
      && Sized(front) && IsEnd(end) && Length(end) <= MAX_LENGTH && (forall i :: 0 <= i < |front| ==> !IsEnd(front[i]))
      && Counted(ns) == Bytes(front) + Enc(end)[..HEADER]
      && |Counted(ns)| == Total(front) + HEADER && Total(ns) == Total(front) + Length(end)
  {
    var front, end := ns[..|ns| - 1], ns[|ns| - 1];
    assert ns == front + [end] && front[..|front|] == front;
    assert Sized(front) && Sized([end]);
    BytesConcat(front, [end]);
    BytesLength(front, |front|);
    OffsetConcat(front, [end], 1);
    OffsetPrefix(ns, front, |front|);
    OneNode(end);
    assert Bytes([end]) == Enc(end) + Bytes([]);
    hide Bytes, Offset, Enc;
  }

  /** What a reader finds at the start of the block: the nodes `inst` and the path `ns` behind them, and no more.
      An End-Entire node of more than four bytes swallows what follows, and is none when too little does. */
  ghost predicate Finds(block: seq<Byte>, inst: seq<Node>, ns: seq<Node>)
    requires IsPath(ns)
  {
    var to, whole := Total(inst) + |Counted(ns)|, Total(inst) + Total(ns);
    && to <= |block| && to <= whole
    && if whole <= |block| then PathAt(block, 0, inst + Reread(ns, block[to..whole]))
       else forall us :: !PathAt(block, 0, us)
  }

  /** A reader of the block finds the first piece with the second path behind it. */
  lemma AppendedReads(block: seq<Byte>, pos: nat, ps: seq<seq<Node>>, ns2: seq<Node>)
    requires ps != [] && AllPlain(ps) && IsPath(ns2) && Filled(block, pos, Appended(ps, Counted(ns2)))
    ensures Finds(block, ps[0], ns2)
    ensures Length(ns2[|ns2| - 1]) == HEADER ==> PathAt(block, 0, ps[0] + ns2)
  {
    hide *;
    StartsWith(block, pos, ps, ns2);
    ReadOn(block, ps[0], ns2);
    FoundBare(block, ps[0], ns2);
  }

  /** The nodes `inst` and those of `ns` up to the header of its end node start the block. */
  ghost predicate Starts(block: seq<Byte>, inst: seq<Node>, ns: seq<Node>)
    requires ns != []
  {
    var q, end := inst + ns[..|ns| - 1], ns[|ns| - 1];
    && NodesAt(block, 0, q) && (forall i :: 0 <= i < |q| ==> !IsEnd(q[i]))
    && Total(q) + HEADER <= |block| && block[Total(q)..Total(q) + HEADER] == Enc0(end)
  }

  lemma StartsWith(block: seq<Byte>, pos: nat, ps: seq<seq<Node>>, ns2: seq<Node>)
    requires ps != [] && AllPlain(ps) && IsPath(ns2) && Filled(block, pos, Appended(ps, Counted(ns2)))
    ensures ns2 != [] && ps != [] && Starts(block, ps[0], ns2)
  {
    hide Counted, Bytes, Offset, Enc, Glued, Appended, Filled;
    GluedStarts(ps, Counted(ns2));
    StartIs(block, pos, Appended(ps, Counted(ns2)), ps[0], ns2);
  }

  lemma PlainFront(inst: seq<Node>, ns: seq<Node>, q: seq<Node>)
    requires Plain(inst) && IsPath(ns) && q == inst + ns[..|ns| - 1]
    ensures Sized(inst) && Sized(ns[..|ns| - 1]) && Sized(q)
    ensures forall i :: 0 <= i < |q| ==> !IsEnd(q[i])
  {}

  lemma BytesOfStart(inst: seq<Node>, ns: seq<Node>, q: seq<Node>)
    requires Plain(inst) && IsPath(ns) && q == inst + ns[..|ns| - 1]
    ensures Sized(inst) && Sized(q) && |Bytes(q)| == Total(q) && |Enc0(ns[|ns| - 1])| == HEADER
    ensures Bytes(inst) + Counted(ns) == Bytes(q) + Enc0(ns[|ns| - 1])
  {
    CountedSplit(ns);
    PlainFront(inst, ns, q);
    assert Enc0(ns[|ns| - 1]) == Enc(ns[|ns| - 1])[..HEADER];
    hide *;
    BytesConcat(inst, ns[..|ns| - 1]);
    BytesTotal(q);
  }

  lemma StartIs(block: seq<Byte>, pos: nat, done: seq<Byte>, inst: seq<Node>, ns: seq<Node>)
    requires IsPath(ns) && Plain(inst) && Filled(block, pos, done) && Bytes(inst) + Counted(ns) <= done
    ensures Starts(block, inst, ns)
  {
    var q := inst + ns[..|ns| - 1];
    PlainFront(inst, ns, q);
    BytesOfStart(inst, ns, q);
    hide Counted, Bytes, Offset, Enc, Enc0, IsEnd, Sized, IsPath, Filled, Total;
    PrefixRead(block, pos, done, Bytes(q), Enc0(ns[|ns| - 1]));
  }

  lemma PrefixRead(block: seq<Byte>, pos: nat, done: seq<Byte>, b: seq<Byte>, h: seq<Byte>)
    requires Filled(block, pos, done) && b + h <= done
    ensures |b| + |h| <= |block| && block[0..|b|] == b && block[|b|..|b| + |h|] == h
  {
    assert done[..|b| + |h|] == b + h;
    assert block[..|b| + |h|] == block[..pos][..|b| + |h|];
  }

  lemma ReadOn(block: seq<Byte>, inst: seq<Node>, ns: seq<Node>)
    requires IsPath(ns) && Starts(block, inst, ns)
    ensures Finds(block, inst, ns)
  {
    TotalsBehind(inst, ns);
    var q, end := inst + ns[..|ns| - 1], ns[|ns| - 1];
    assert NodesAt(block, 0, q) && (forall i :: 0 <= i < |q| ==> !IsEnd(q[i]));
    assert Total(q) + HEADER <= |block| && block[Total(q)..Total(q) + HEADER] == Enc0(end);
    hide *;
    ReadBehind(block, q, end);
    FindsBoth(block, inst, ns, q, end);
  }

  lemma FindsBoth(block: seq<Byte>, inst: seq<Node>, ns: seq<Node>, q: seq<Node>, end: Node)
    requires IsPath(ns) && q == inst + ns[..|ns| - 1] && end == ns[|ns| - 1] && FindsBehind(block, q, end)
    requires Total(q) + HEADER == Total(inst) + |Counted(ns)| && Total(q) + Length(end) == Total(inst) + Total(ns)
    ensures Finds(block, inst, ns)
  {
    var to, whole := Total(inst) + |Counted(ns)|, Total(inst) + Total(ns);
    LongEnough(end);
    hide Counted, Bytes, Offset, IsEnd, IsPath, PathAt, Reread, Total, Sized, Length;
    if whole <= |block| {
      RereadIs(inst, ns, block[to..whole]);
    }
  }

  lemma TotalsBehind(inst: seq<Node>, ns: seq<Node>)
    requires IsPath(ns)
    ensures var q, end := inst + ns[..|ns| - 1], ns[|ns| - 1];
      && Total(q) + HEADER == Total(inst) + |Counted(ns)| && Total(q) + Length(end) == Total(inst) + Total(ns)
      && IsEnd(end) && Length(end) <= MAX_LENGTH
  {
    CountedSplit(ns);
    OffsetConcat(inst, ns[..|ns| - 1], |ns| - 1);
  }

  lemma FoundBare(block: seq<Byte>, inst: seq<Node>, ns: seq<Node>)
    requires IsPath(ns) && Finds(block, inst, ns)
    ensures Length(ns[|ns| - 1]) == HEADER ==> PathAt(block, 0, inst + ns)
  {
    EndPayload(ns);
    var to, whole, end := Total(inst) + |Counted(ns)|, Total(inst) + Total(ns), ns[|ns| - 1];
    hide PathAt, IsPath, Counted, Total;
    if Length(end) == HEADER {
      assert block[to..whole] == end.payload;
      RereadIs(inst, ns, end.payload);
    }
  }

  /** The end node's payload has no part in the instances. */
  lemma {:induction false} SplitReread(ns: seq<Node>, payload: seq<Byte>)
    requires IsPath(ns) && HEADER + |payload| <= MAX_LENGTH
    ensures IsPath(Reread(ns, payload)) && Split(Reread(ns, payload)) == Split(ns)
    decreases |ns|
  {
    hide Split, FirstEnd;
    var us, e := Reread(ns, payload), FirstEnd(ns);
    assert forall i :: 0 <= i < |ns| - 1 ==> us[i] == ns[i];
    FirstEndIs(us, e);
    SplitAt(ns, e);
    SplitAt(us, e);
    assert us[..e] == ns[..e];
    if !IsEnd(ns[e]) {
      assert us[e + 1..] == Reread(ns[e + 1..], payload);
      SplitReread(ns[e + 1..], payload);
    }
  }

  lemma PlainThenPath(inst: seq<Node>, ns: seq<Node>)
    requires Plain(inst) && IsPath(ns)
    ensures IsPath(inst + ns)
  {
    var all := inst + ns;
    forall i | 0 <= i < |all|
      ensures Length(all[i]) <= MAX_LENGTH && (i < |all| - 1 ==> !IsEnd(all[i]))
    {
      if i < |inst| {
        assert all[i] == inst[i];
      } else {
        assert all[i] == ns[i - |inst|];
      }
    }
  }

  lemma Regroup(a: seq<Node>, b: seq<Node>, c: seq<Node>, d: seq<Node>)
    ensures a + (b + c) == (a + b) + c && a + (b + c + d) == (a + b) + c + d
  {}

  lemma FirstPieceIff(ns: seq<Node>)
    requires IsPath(ns)
    ensures Pieces(ns)[0] == Split(ns)[0] <==> |Split(ns)[0]| <= LAST_NODE
  {}

  /** The promise is kept exactly for a first path of one instance, not too long, and a second path whose
      End-Entire node has a payload of at most four bytes: only then has the path a reader of the block finds
      the second path appended to every instance of the first. */
  lemma PromiseKeptIff(block: seq<Byte>, pos: nat, ns1: seq<Node>, ns2: seq<Node>)
    requires IsPath(ns1) && IsPath(ns2) && Filled(block, pos, Appended(PlainPieces(ns1), Counted(ns2)))
    requires |block| == Asked(ns1, ns2)
    ensures (exists us :: PathAt(block, 0, us) && Split(us) == Promised(Split(ns1), Split(ns2)))
      <==> |Split(ns1)| == 1 && AllShort(Split(ns1)) && |ns2[|ns2| - 1].payload| <= 4
  {
    var piece := PlainPieces(ns1)[0];
    FirstPieceIff(ns1);
    PlainFirst(ns1);
    AppendedReads(block, pos, PlainPieces(ns1), ns2);
    if |Split(ns1)| == 1 && AllShort(Split(ns1)) {
      RoomForEnd(ns1, ns2);
    }
    hide *;
    EndPayload(ns2);
    if Total(piece) + Total(ns2) <= |block| {
      var payload := FoundPath(block, piece, ns2);
      SplitBehindReread(piece, ns2, payload);
      PromiseIn(block, ns1, ns2, piece, piece + Reread(ns2, payload));
    } else {
      FoundNothing(block, piece, ns2);
    }
  }

  lemma FoundPath(block: seq<Byte>, inst: seq<Node>, ns: seq<Node>) returns (payload: seq<Byte>)
    requires IsPath(ns) && Finds(block, inst, ns) && Total(inst) + Total(ns) <= |block|
    ensures ns != [] && HEADER + |payload| <= MAX_LENGTH && PathAt(block, 0, inst + Reread(ns, payload))
  {
    EndPayload(ns);
    payload := block[Total(inst) + |Counted(ns)|..Total(inst) + Total(ns)];
  }

  lemma FoundNothing(block: seq<Byte>, inst: seq<Node>, ns: seq<Node>)
    requires IsPath(ns) && Finds(block, inst, ns) && Total(inst) + Total(ns) > |block|
    ensures forall us :: !PathAt(block, 0, us)
  {}

  lemma PromiseIn(block: seq<Byte>, ns1: seq<Node>, ns2: seq<Node>, piece: seq<Node>, found: seq<Node>)
    requires IsPath(ns1) && IsPath(ns2) && PathAt(block, 0, found)
    requires Split(found) == [piece + Split(ns2)[0]] + Split(ns2)[1..]
    requires piece == Split(ns1)[0] <==> |Split(ns1)[0]| <= LAST_NODE
    ensures (exists us :: PathAt(block, 0, us) && Split(us) == Promised(Split(ns1), Split(ns2)))
      <==> |Split(ns1)| == 1 && AllShort(Split(ns1))
  {
    SamePromiseIff(Split(ns1), Split(ns2), piece);
    hide Split, Promised, NodesAt, IsPath;
    if us :| PathAt(block, 0, us) && Split(us) == Promised(Split(ns1), Split(ns2)) {
      PathUnique(block, 0, us, found);
    }
  }

  lemma SplitBehindReread(inst: seq<Node>, ns: seq<Node>, payload: seq<Byte>)
    requires Plain(inst) && IsPath(ns) && HEADER + |payload| <= MAX_LENGTH
    ensures var us := inst + Reread(ns, payload);
      IsPath(us) && Split(us) == [inst + Split(ns)[0]] + Split(ns)[1..]
  {
    assert ns != [];
    hide Split, Plain, IsPath;
    SplitReread(ns, payload);
    SplitBehind(inst, Reread(ns, payload));
  }

  lemma EndPayload(ns: seq<Node>)
    requires IsPath(ns)
    ensures Total(ns) == |Counted(ns)| + |ns[|ns| - 1].payload| && HEADER + |ns[|ns| - 1].payload| <= MAX_LENGTH
  {
    CountedSplit(ns);
  }

  lemma PlainFirst(ns: seq<Node>)
    requires IsPath(ns)
    ensures Plain(PlainPieces(ns)[0])
  {}

  /** One instance, not too long: what the block has room for behind its nodes. */
  lemma RoomForEnd(ns1: seq<Node>, ns2: seq<Node>)
    requires IsPath(ns1) && IsPath(ns2) && |Split(ns1)| == 1 && AllShort(Split(ns1))
    ensures Total(PlainPieces(ns1)[0]) + |Counted(ns2)| + HEADER == Asked(ns1, ns2)
  {
    PiecesAreInstancesIff(ns1);
    CountedSplit(ns1);
    OneInstance(ns1);
    hide Split, Counted, Pieces, FirstEnd, Total, IsEnd, Bytes, Enc, Sized;
    OneBlock(|Counted(ns1)|);
  }

  lemma OneInstance(ns: seq<Node>)
    requires IsPath(ns) && |Split(ns)| == 1
    ensures Split(ns)[0] == ns[..|ns| - 1]
  {}

  lemma OneBlock(size: nat)
    ensures Blocks(size, 1) == size
  {}

  /** Nodes in front of a path go to its first instance. */
  lemma SplitBehind(inst: seq<Node>, ns: seq<Node>)
    requires Plain(inst) && IsPath(ns)
    ensures IsPath(inst + ns) && Split(inst + ns) == [inst + Split(ns)[0]] + Split(ns)[1..]
  {
    hide *;
    var all, e := inst + ns, FirstEnd(ns);
    FirstEndBehind(inst, ns);
    TailBehind(inst, ns, e);
    SplitAt(ns, e);
    SplitAt(all, |inst| + e);
  }

  lemma TailBehind(inst: seq<Node>, ns: seq<Node>, e: nat)
    requires e < |ns|
    ensures var all := inst + ns;
      all[..|inst| + e] == inst + ns[..e] && all[|inst| + e] == ns[e] && all[|inst| + e + 1..] == ns[e + 1..]
  {}

  lemma FirstEndBehind(inst: seq<Node>, ns: seq<Node>)
    requires Plain(inst) && IsPath(ns)
    ensures IsPath(inst + ns) && FirstEnd(inst + ns) == |inst| + FirstEnd(ns)
  {
    PlainThenPath(inst, ns);
    var all, e := inst + ns, |inst| + FirstEnd(ns);
    forall i | 0 <= i < e
      ensures !IsEndType(all[i])
    {
      assert all[i] == if i < |inst| then inst[i] else ns[i - |inst|];
    }
    assert all[e] == ns[FirstEnd(ns)];
    hide IsPath, FirstEnd;
    FirstEndIs(all, e);
  }

  lemma SamePromiseIff(insts1: seq<seq<Node>>, insts2: seq<seq<Node>>, piece: seq<Node>)
    requires insts1 != [] && insts2 != [] && (piece == insts1[0] <==> |insts1[0]| <= LAST_NODE)
    ensures Promised(insts1, insts2) == [piece + insts2[0]] + insts2[1..] <==> |insts1| == 1 && AllShort(insts1)
  {
    var promised, found := Promised(insts1, insts2), [piece + insts2[0]] + insts2[1..];
    if |insts1| == 1 {
      assert Promised(insts1[1..], insts2) == [];
      assert promised == [insts1[0] + insts2[0]] + insts2[1..];
      assert promised[0] == insts1[0] + insts2[0] && found[0] == piece + insts2[0];
      if promised == found {
        SameFront(piece, insts1[0], insts2[0]);
      }
    } else {
      MoreThanOnce(|insts1|, |insts2|);
      assert |found| == |insts2|;
    }
  }

  lemma SameFront(us: seq<Node>, vs: seq<Node>, back: seq<Node>)
    requires us + back == vs + back
    ensures us == vs
  {
    assert |us| == |vs|;
    assert us == (us + back)[..|us|] && vs == (vs + back)[..|vs|];
  }

  lemma MoreThanOnce(k: nat, n: nat)
    requires k > 1 && n > 0
    ensures k * n > n
  {}

  function SumTotals(ps: seq<seq<Node>>): nat {
    if ps == [] then 0 else Total(ps[0]) + SumTotals(ps[1..])
  }

  lemma {:induction false} SumTotalsStep(ps: seq<seq<Node>>, k: nat)
    requires k < |ps|
    ensures SumTotals(ps[..k + 1]) == SumTotals(ps[..k]) + Total(ps[k])
    decreases k
  {
    if k == 0 {
      assert ps[..1] == [ps[0]] && ps[..0] == [];
      assert SumTotals([ps[0]]) == Total(ps[0]) + SumTotals([]);
    } else {
      SumTotalsStep(ps[1..], k - 1);
      assert ps[..k + 1][1..] == ps[1..][..k] && ps[..k][1..] == ps[1..][..k - 1];
    }
  }

  lemma {:induction false} JoinTotal(insts: seq<seq<Node>>)
    requires insts != []
    ensures Total(Join(insts)) == SumTotals(insts) + HEADER * |insts|
  {
    OneEnd(END_ENTIRE);
    OneEnd(END_INSTANCE);
    if |insts| == 1 {
      assert SumTotals(insts[1..]) == 0;
      OffsetConcat(insts[0], [END_ENTIRE], 1);
    } else {
      JoinTotal(insts[1..]);
      OffsetConcat(insts[0], [END_INSTANCE], 1);
      OffsetConcat(insts[0] + [END_INSTANCE], Join(insts[1..]), |Join(insts[1..])|);
    }
  }

  lemma OneEnd(end: Node)
    requires end.payload == []
    ensures Total([end]) == HEADER
  {
    assert Offset([end], 1) == Offset([end], 0) + Length([end][0]);
  }

  lemma OneMore(size: nat, count: nat)
    ensures Blocks(size, count + 1) == Blocks(size, count) + size
  {}

  lemma {:induction false} GluedLength(ps: seq<seq<Node>>, c2: seq<Byte>, k: nat)
    requires k <= |ps| && AllPlain(ps)
    ensures AllPlain(ps[..k]) && |Glued(ps[..k], c2)| == SumTotals(ps[..k]) + Blocks(|c2| + HEADER, k)
    decreases k
  {
    if k == 0 {
      assert ps[..0] == [] && Glued([], c2) == [];
    } else {
      hide Total, Glued, SumTotals, Bytes, AllPlain, Blocks;
      GluedLength(ps, c2, k - 1);
      GluedStep(ps, c2, k - 1);
      SumTotalsStep(ps, k - 1);
      OneMore(|c2| + HEADER, k - 1);
    }
  }

  /** The bytes of the first path that the loop writes, with a separator of four bytes for each piece. */
  function Copied(ns1: seq<Node>): nat
    requires IsPath(ns1)
  {
    SumTotals(Pieces(ns1)) + HEADER * |Pieces(ns1)|
  }

  lemma GluedAll(ps: seq<seq<Node>>, c2: seq<Byte>)
    requires AllPlain(ps)
    ensures |Glued(ps, c2)| == SumTotals(ps) + Blocks(|c2|, |ps|) + HEADER * |ps|
  {
    hide *;
    assert ps[..|ps|] == ps;
    GluedLength(ps, c2, |ps|);
    Spread(|ps|, |c2|);
  }

  lemma WrittenIs(ns1: seq<Node>, ns2: seq<Node>)
    requires IsPath(ns1) && IsPath(ns2)
    ensures Written(ns1, ns2) == Copied(ns1) + Blocks(|Counted(ns2)|, |Pieces(ns1)|)
  {
    hide Pieces, Glued, SumTotals, Counted, Bytes, Blocks, AllPlain, IsPath, Sized, IsEnd;
    GluedAll(PlainPieces(ns1), Counted(ns2));
  }

  lemma Spread(k: nat, x: nat)
    ensures Blocks(x + HEADER, k) == Blocks(x, k) + HEADER * k
  {}

  /** The copy loop leaves the block exactly when what it writes of the first path, and all but one of the
      copies of the second, are more than the block has room for. */
  lemma OverrunIff(ns1: seq<Node>, ns2: seq<Node>)
    requires IsPath(ns1) && IsPath(ns2)
    ensures var k := |Pieces(ns1)|;
      Written(ns1, ns2) > Asked(ns1, ns2) <==> Copied(ns1) + (k - 1) * |Counted(ns2)| > k * |Counted(ns1)|
  {
    hide Pieces, Counted, Copied, Written, Blocks;
    WrittenIs(ns1, ns2);
    AllButOne(|Counted(ns2)|, |Pieces(ns1)|);
    Swapped(|Counted(ns1)|, |Pieces(ns1)|);
  }

  lemma AllButOne(size: nat, count: nat)
    ensures Blocks(size, count) == (count - 1) * size + size
  {}

  lemma Swapped(size: nat, count: nat)
    ensures Blocks(size, count) == count * size
  {}

  /** When no instance is too long, that is for a first path of several instances that is smaller than the
      second; for one instance the loop fills the block to the last byte. */
  lemma ShortOverrunIff(ns1: seq<Node>, ns2: seq<Node>)
    requires Standard(ns1) && IsPath(ns2) && AllShort(Split(ns1))
    ensures Written(ns1, ns2) > Asked(ns1, ns2) <==> |Split(ns1)| > 1 && |Counted(ns2)| > |Counted(ns1)|
    ensures |Split(ns1)| == 1 ==> Written(ns1, ns2) == Asked(ns1, ns2) == |Counted(ns1)| + |Counted(ns2)|
  {
    ShortCopied(ns1);
    hide Split, Pieces, Counted, Copied, Written, AllShort, Blocks;
    WrittenIs(ns1, ns2);
    LoopAgainstBlock(|Split(ns1)|, |Counted(ns1)|, |Counted(ns2)|);
  }

  lemma ShortCopied(ns1: seq<Node>)
    requires Standard(ns1) && AllShort(Split(ns1))
    ensures |Pieces(ns1)| == |Split(ns1)| && Copied(ns1) == |Counted(ns1)|
  {
    JoinSplit(ns1);
    PiecesAreInstancesIff(ns1);
    LastIsEndEntire(ns1);
    EndPayload(ns1);
    hide Standard, IsPath, Offset, Total, Counted;
    JoinTotal(Pieces(ns1));
  }

  lemma LastIsEndEntire(ns: seq<Node>)
    requires Standard(ns)
    ensures ns[|ns| - 1] == END_ENTIRE
  {}

  lemma LoopAgainstBlock(k: nat, c1: nat, c2: nat)
    requires k > 0
    ensures c1 + Blocks(c2, k) > Blocks(c1, k) + c2 <==> k > 1 && c2 > c1
    ensures k == 1 ==> c1 + Blocks(c2, k) == Blocks(c1, k) + c2 == c1 + c2
  {
    ProductPositive(k, c2 - c1);
    CrossTerms(k, c2, c1);
  }

  lemma CrossTerms(k: nat, x: nat, y: nat)
    ensures (k - 1) * (x - y) == k * x - k * y - x + y
  {}

  lemma ProductPositive(k: nat, d: int)
    requires k > 0
    ensures (k - 1) * d > 0 <==> k > 1 && d > 0
  {
    if k > 1 && d <= 0 {
      assert (k - 1) * d <= 0;
    }
  }

  /** One instance of 514 nodes is overrun too, by every second path larger than it: the walk takes its last
      node for a separator and counts two instances. */
  lemma LongInstanceOverruns(ns2: seq<Node>)
    requires IsPath(ns2) && |Counted(ns2)| > 2060
    ensures var ns1 := LongInstance();
      |Split(ns1)| == 1 && Written(ns1, ns2) > Asked(ns1, ns2)
  {
    var ns1 := LongInstance();
    LongInstanceIs();
    hide LongInstance, Split, Pieces, Counted, Copied, Written, Asked, IsPath, Standard;
    OverrunIff(ns1, ns2);
  }

  function LongInstance(): (ns: seq<Node>)
    ensures |ns| == 515 && IsPath(ns) && ns[514] == END_ENTIRE
  {
    seq(514, _ => Node(1, 1, [])) + [END_ENTIRE]
  }

  lemma EndAlone()
    ensures IsPath([END_ENTIRE]) && Pieces([END_ENTIRE]) == [[]]
  {
    FirstEndIs([END_ENTIRE], 0);
  }

  lemma LongInstanceEnds()
    ensures var ns := LongInstance();
      && Standard(ns) && Split(ns) == [ns[..514]] && ns[514..] == [END_ENTIRE]
      && IsPath(ns[514..]) && Pieces(ns) == [ns[..513]] + Pieces(ns[514..])
  {
    var ns := LongInstance();
    FirstEndIs(ns, 514);
    assert ns[514..] == [END_ENTIRE] && Stop(ns) == 513 && ns[513].sub == 1;
    EndAlone();
    hide FirstEnd;
  }

  lemma LongInstanceIs()
    ensures var ns := LongInstance();
      && Standard(ns) && |Split(ns)| == 1 && |Counted(ns)| == 2060 && |Pieces(ns)| == 2 && Copied(ns) == 2060
  {
    var ns := LongInstance();
    PlainHeaders(ns);
    hide *;
    TotalOfHeaders(ns, 514);
    CountedLength(ns);
    LongInstanceEnds();
    EndAlone();
    LongPiece(ns[..513]);
    CopiedOfTwo(ns, ns[..513]);
  }

  lemma PlainHeaders(ns: seq<Node>)
    requires ns == LongInstance()
    ensures |ns[..513]| == 513 && forall i :: 0 <= i < 513 ==> ns[..513][i] == Node(1, 1, [])
    ensures forall i :: 0 <= i < 514 ==> Length(ns[i]) == HEADER
    ensures HEADER * 514 + HEADER == 2060
  {}

  lemma CopiedOfTwo(ns: seq<Node>, piece: seq<Node>)
    requires IsPath(ns) && Pieces(ns) == [piece] + [[]] && Total(piece) == 2052
    ensures |Pieces(ns)| == 2 && Copied(ns) == 2060
  {
    hide Pieces, IsPath;
    assert Pieces(ns) == [piece, []];
    TwoTotals(piece, []);
  }

  lemma CountedLength(ns: seq<Node>)
    requires IsPath(ns)
    ensures |Counted(ns)| == Offset(ns, |ns| - 1) + HEADER
  {}

  lemma LongPiece(ns: seq<Node>)
    requires |ns| == 513 && forall i :: 0 <= i < 513 ==> ns[i] == Node(1, 1, [])
    ensures Total(ns) == 2052
  {
    TotalOfHeaders(ns, 513);
  }

  lemma TwoTotals(us: seq<Node>, vs: seq<Node>)
    ensures SumTotals([us, vs]) == Total(us) + Total(vs)
  {
    var ps := [us, vs];
    assert ps[1..] == [vs] && [vs][1..] == [];
    assert SumTotals(ps) == Total(us) + SumTotals(ps[1..]);
  }

  lemma {:induction false} TotalOfHeaders(ns: seq<Node>, k: nat)
    requires k <= |ns| && forall i :: 0 <= i < k ==> Length(ns[i]) == HEADER
    ensures Offset(ns, k) == HEADER * k
  {
    if k != 0 {
      TotalOfHeaders(ns, k - 1);
    }
  }

  /** What a reader finds after appending `ns2` to `ns1`. */
  function ReadsAs(ns1: seq<Node>, ns2: seq<Node>): (ns: seq<Node>)
    requires IsPath(ns1) && IsPath(ns2)
    ensures IsPath(ns)
  {
    PiecesPlain(ns1);
    PlainThenPath(Pieces(ns1)[0], ns2);
    Pieces(ns1)[0] + ns2
  }

  lemma SameSplitIff(inst: seq<Node>, ns: seq<Node>, back: seq<Node>, k: nat, j: nat)
    requires k <= |inst| + |ns| && j <= |ns| && |inst| <= k
    ensures (inst + ns)[..k] + back == inst + (ns[..j] + back) <==> k == |inst| + j
  {
    if k == |inst| + j {
      assert (inst + ns)[..k] == inst + ns[..j];
    } else {
      assert |(inst + ns)[..k] + back| == k + |back|;
    }
  }

  /** Appending is associative, exactly when the first instances of the first two paths together are
      within the node limit of the instance walk (or the first path has an empty first instance). */
  lemma AppendAssociativeIff(ns1: seq<Node>, ns2: seq<Node>, ns3: seq<Node>)
    requires IsPath(ns1) && IsPath(ns2) && IsPath(ns3)
    ensures ReadsAs(ReadsAs(ns1, ns2), ns3) == ReadsAs(ns1, ReadsAs(ns2, ns3))
      <==> Stop(ns1) == 0 || Stop(ns1) + FirstEnd(ns2) <= LAST_NODE
  {
    PiecesPlain(ns1);
    var p1 := Pieces(ns1)[0];
    FirstEndBehind(p1, ns2);
    hide IsPath, Plain, Pieces, FirstEnd;
    assert |p1| == Stop(ns1) <= LAST_NODE;
    SameSplitIff(p1, ns2, ns3, Stop(p1 + ns2), Stop(ns2));
  }

  // ----- AppendDevicePathNode -----

  /** AppendDevicePathNode: the node gets a terminator of its own and is appended as a path. */
  method AppendDevicePathNode(mem1: array<Byte>, src1: Option<nat>, mem2: array<Byte>, src2: nat,
                              room1: bool, room2: bool, ghost ns1: seq<Node>, ghost n: Node)
    returns (block: array?<Byte>, ending: Ending)
    requires src1.Some? ==> PathAt(mem1[..], src1.value, ns1)
    requires NodesAt(mem2[..], src2, [n]) && !IsEnd(n)
    ensures block != null <==> ending == Built
    ensures block != null ==> fresh(block)
    ensures !room1 || !room2 ==> ending == NoMemory
    ensures src1.None? && room1 && room2 ==> ending == Built && block[..] == Bytes([n, END_ENTIRE])
    ensures src1.Some? && room1 && room2 ==>
      var ns2 := [n, END_ENTIRE];
      && IsPath(ns2) && Counted(ns2) == Bytes(ns2)
      && ending == (if Written(ns1, ns2) > Asked(ns1, ns2) then Overrun else Built)
      && (ending == Built ==>
          && block.Length == Asked(ns1, ns2)
          && Filled(block[..], Written(ns1, ns2), Appended(PlainPieces(ns1), Bytes(ns2))))
  {
    if !room1 {
      return null, NoMemory;
    }
    var temp := TerminatedNode(mem2, src2, n);
    CountedIsPathIff([n, END_ENTIRE]);
    hide PathAt, NodesAt, Written, Appended, Asked, Bytes, Counted, Filled;
    block, ending := AppendDevicePath(mem1, src1, temp, Some(0), room2, ns1, [n, END_ENTIRE]);
  }

  method TerminatedNode(mem: array<Byte>, src: nat, ghost n: Node) returns (temp: array<Byte>)
    requires NodesAt(mem[..], src, [n]) && !IsEnd(n)
    ensures fresh(temp) && PathAt(temp[..], 0, [n, END_ENTIRE])
  {
    OneNode(n);
    OneBytes(n);
    OnNodes(mem[..], src, n);
    var length := DevicePathNodeLength(mem, src);
    temp := new Byte[length + HEADER];
    hide Enc, Filled;
    NothingFilled(temp[..]);
    PutBytes(temp, 0, mem, src, length, []);
    assert [] + mem[..][src..src + length] == Enc(n);
    NodeFilled(temp[..], length, n);
    var eop := DevicePathNodeLength(temp, 0);
    PutEnd(temp, eop, END_ENTIRE, Enc(n));
    NodeThenEnd(temp[..], length + HEADER, n);
  }

  lemma NothingFilled(block: seq<Byte>)
    ensures Filled(block, 0, [])
  {}

  lemma OneNode(n: Node)
    ensures Total([n]) == Length(n) && Offset([n], 0) == 0
  {
    assert Offset([n], 1) == Offset([n], 0) + Length([n][0]);
  }

  lemma OneBytes(n: Node)
    requires Sized([n])
    ensures Length(n) <= MAX_LENGTH && Bytes([n]) == Enc(n)
  {
    assert Length([n][0]) <= MAX_LENGTH;
    assert Bytes([n]) == Enc(n) + Bytes([]);
  }

  lemma OnNodes(mem: seq<Byte>, src: nat, n: Node)
    requires NodesAt(mem, src, [n])
    ensures src + HEADER <= |mem| && LengthAt(mem, src) == Length(n)
  {
    NodeAt(mem, src, [n], 0);
    OneNode(n);
  }

  lemma NodeFilled(block: seq<Byte>, pos: nat, n: Node)
    requires Length(n) <= MAX_LENGTH && Filled(block, pos, Enc(n))
    ensures HEADER <= pos == Length(n) <= |block| && LengthAt(block, 0) == Length(n)
  {
    EncodedHeader(n);
    FirstBytes(block, 0, Enc(n));
  }

  lemma NodeThenEnd(block: seq<Byte>, pos: nat, n: Node)
    requires Length(n) <= MAX_LENGTH && !IsEnd(n) && Filled(block, pos, Enc(n) + Enc(END_ENTIRE))
    ensures PathAt(block, 0, [n, END_ENTIRE])
  {
    var ns := [n] + [END_ENTIRE];
    assert ns == [n, END_ENTIRE] && Sized([n]) && Sized([END_ENTIRE]);
    OneBytes(n);
    OneBytes(END_ENTIRE);
    BytesConcat([n], [END_ENTIRE]);
    OneNode(n);
    OneNode(END_ENTIRE);
    OffsetConcat([n], [END_ENTIRE], 1);
  }

  // ----- AppendDevicePathInstance -----

  /** The path with its closing end node turned into an instance separator. */
  function Opened(ns: seq<Node>): seq<Node>
    requires ns != []
  {
    ns[..|ns| - 1] + [ns[|ns| - 1].(sub := INSTANCE)]
  }

  /** The same with another path behind. */
  function WithInstance(ns1: seq<Node>, ns2: seq<Node>): seq<Node>
    requires ns1 != []
  {
    Opened(ns1) + ns2
  }

  /** The first path with its last node's subtype 1, and the second path. */
  lemma WithInstanceMeans(ns1: seq<Node>, ns2: seq<Node>)
    requires ns1 != []
    ensures var n := |ns1| - 1;
      && Opened(ns1) == ns1[..n] + [Node(ns1[n].kind, 1, ns1[n].payload)]
      && WithInstance(ns1, ns2) == ns1[..n] + [Node(ns1[n].kind, 1, ns1[n].payload)] + ns2
  {}

  /** AppendDevicePathInstance. A failed allocation is only asserted against, so the copy that follows goes
      through NULL. An End-Entire node of more than four bytes is copied in part, but skipped as a whole: then
      the second path is copied to behind its room. */
  method AppendDevicePathInstance(mem1: array<Byte>, src: Option<nat>, mem2: array<Byte>, instance: nat, hasRoom: bool,
                                  ghost ns1: seq<Node>, ghost ns2: seq<Node>)
    returns (block: array?<Byte>, ending: Ending)
    requires src.Some? ==> PathAt(mem1[..], src.value, ns1)
    requires PathAt(mem2[..], instance, ns2)
    ensures block != null <==> ending == Built
    ensures block != null ==> fresh(block)
    ensures src.None? ==> ending == if hasRoom then Built else NoMemory
    ensures src.None? && hasRoom ==> block[..] == Counted(ns2)
    ensures src.Some? ==>
      ending == if !hasRoom then NullWrite else if Length(ns1[|ns1| - 1]) > HEADER then Overrun else Built
    ensures src.Some? && ending == Built ==> block[..] == Bytes(Opened(ns1)) + Counted(ns2)
    ensures src.Some? && ending == Built && Length(ns2[|ns2| - 1]) == HEADER ==>
      NodesAt(block[..], 0, WithInstance(ns1, ns2)) && block.Length == Total(WithInstance(ns1, ns2))
  {
    if src.None? {
      block := DuplicateDevicePath(mem2, instance, hasRoom, ns2);
      return block, if hasRoom then Built else NoMemory;
    }
    PathHeaders(mem1[..], src.value, ns1);
    PathHeaders(mem2[..], instance, ns2);
    OpenedSized(ns1);
    hide PathAt, HeadersAt, Bytes, Counted, Opened, WithInstance, NodesAt;
    var srcSize := DevicePathSize(mem1, src.value, ns1);
    var instanceSize := DevicePathSize(mem2, instance, ns2);
    if !hasRoom {
      return null, NullWrite;
    }
    var ptr := new Byte[srcSize + instanceSize];
    var fits := JoinInstance(ptr, mem1, src.value, srcSize, mem2, instance, instanceSize, ns1, ns2);
    if !fits {
      return null, Overrun;
    }
    JoinedNodes(ptr[..], ns1, ns2);
    block, ending := ptr, Built;
  }

  /** The copying: the first path, its end marker changed, then the second path, unless that leaves the block. */
  method JoinInstance(ptr: array<Byte>, mem1: array<Byte>, src: nat, srcSize: nat, mem2: array<Byte>, instance: nat,
                      instanceSize: nat, ghost ns1: seq<Node>, ghost ns2: seq<Node>) returns (fits: bool)
    requires ptr != mem1 && ptr != mem2 && ptr.Length == srcSize + instanceSize
    requires HeadersAt(mem1[..], src, ns1) && srcSize == |Counted(ns1)|
    requires HeadersAt(mem2[..], instance, ns2) && instanceSize == |Counted(ns2)|
    modifies ptr
    ensures fits <==> Length(ns1[|ns1| - 1]) == HEADER
    ensures fits ==> Sized(Opened(ns1)) && ptr[..] == Bytes(Opened(ns1)) + Counted(ns2)
  {
    hide *;
    HeadersIs(mem1[..], src, ns1);
    HeadersIs(mem2[..], instance, ns2);
    LongEnough(ns1[|ns1| - 1]);
    var next := CopyOpened(ptr, mem1, src, srcSize, ns1);
    if next + instanceSize > ptr.Length {
      return false;
    }
    CopyBehind(ptr, next, mem2, instance, instanceSize, ns1, ns2);
    fits := true;
  }

  method CopyOpened(ptr: array<Byte>, mem1: array<Byte>, src: nat, srcSize: nat, ghost ns1: seq<Node>)
    returns (next: nat)
    requires ptr != mem1 && srcSize <= ptr.Length && HeadersAt(mem1[..], src, ns1) && srcSize == |Counted(ns1)|
    modifies ptr
    ensures next == srcSize - HEADER + Length(ns1[|ns1| - 1]) && Sized(Opened(ns1))
    ensures next == srcSize ==> Filled(ptr[..], srcSize, Bytes(Opened(ns1)))
  {
    hide *;
    HeadersIs(mem1[..], src, ns1);
    NothingFilled(ptr[..]);
    PutBytes(ptr, 0, mem1, src, srcSize, []);
    NothingBefore(Counted(ns1));
    next := ReplaceEnd(ptr, srcSize, ns1);
  }

  method CopyBehind(ptr: array<Byte>, next: nat, mem2: array<Byte>, instance: nat, instanceSize: nat,
                    ghost ns1: seq<Node>, ghost ns2: seq<Node>)
    requires ptr != mem2 && ns1 != [] && Sized(Opened(ns1)) && Filled(ptr[..], next, Bytes(Opened(ns1)))
    requires HeadersAt(mem2[..], instance, ns2) && instanceSize == |Counted(ns2)| && next + instanceSize == ptr.Length
    modifies ptr
    ensures ptr[..] == Bytes(Opened(ns1)) + Counted(ns2)
  {
    hide *;
    HeadersIs(mem2[..], instance, ns2);
    PutBytes(ptr, next, mem2, instance, instanceSize, Bytes(Opened(ns1)));
    AllFilled(ptr[..], next + instanceSize, Bytes(Opened(ns1)) + Counted(ns2));
  }

  lemma NothingBefore(c: seq<Byte>)
    ensures [] + c == c
  {}

  lemma LongEnough(n: Node)
    ensures Length(n) >= HEADER
  {}

  lemma AllFilled(block: seq<Byte>, pos: nat, done: seq<Byte>)
    requires Filled(block, pos, done) && pos == |block|
    ensures block == done
  {}

  /** Walks to the end node of the copy, makes it an End-Instance node and steps over it. */
  method ReplaceEnd(block: array<Byte>, size: nat, ghost ns: seq<Node>) returns (next: nat)
    requires IsPath(ns) && Filled(block[..], size, Counted(ns))
    modifies block
    ensures next == size - HEADER + Length(ns[|ns| - 1]) && Sized(Opened(ns))
    ensures next == size ==> Filled(block[..], size, Bytes(Opened(ns)))
  {
    ghost var was := block[..];
    FilledHeaders(was, size, ns);
    var walked := DevicePathSize(block, 0, ns);
    var p := walked - HEADER;
    EndFilled(was, size, ns);
    next := p + DevicePathNodeLength(block, p);
    block[p + 1] := INSTANCE;
    OpenedSized(ns);
    if next == size {
      OpenedFilled(was, block[..], size, ns);
    }
  }

  lemma OpenedSized(ns: seq<Node>)
    requires IsPath(ns)
    ensures ns != [] && Sized(Opened(ns))
  {
    forall i | 0 <= i < |ns|
      ensures Length(Opened(ns)[i]) <= MAX_LENGTH
    {
      assert Length(ns[i]) <= MAX_LENGTH;
    }
  }

  lemma FilledHeaders(block: seq<Byte>, size: nat, ns: seq<Node>)
    requires IsPath(ns) && Filled(block, size, Counted(ns))
    ensures HeadersAt(block, 0, ns)
  {
    assert block[0..size] == block[..size];
  }

  lemma EndFilled(block: seq<Byte>, size: nat, ns: seq<Node>)
    requires IsPath(ns) && Filled(block, size, Counted(ns))
    ensures HEADER <= size <= |block| && LengthAt(block, size - HEADER) == Length(ns[|ns| - 1])
  {
    CountedSplit(ns);
    var end, p := ns[|ns| - 1], size - HEADER;
    hide Counted, Bytes, Enc;
    assert block[p..p + HEADER] == block[..size][p..];
    hide Filled;
    EndHeader(block, p, end);
  }

  lemma OpenedFilled(was: seq<Byte>, now: seq<Byte>, size: nat, ns: seq<Node>)
    requires IsPath(ns) && Length(ns[|ns| - 1]) == HEADER && Filled(was, size, Counted(ns)) && Sized(Opened(ns))
    requires size >= HEADER && size <= |was| && now == was[size - HEADER + 1 := INSTANCE]
    ensures Filled(now, size, Bytes(Opened(ns)))
  {
    CountedSplit(ns);
    var front, end := ns[..|ns| - 1], ns[|ns| - 1];
    var end' := end.(sub := INSTANCE);
    BytesConcat(front, [end']);
    OneBytes(end');
    assert Enc(end') == Enc(end)[1 := INSTANCE] && Enc(end)[..HEADER] == Enc(end);
    hide Counted, Bytes, Enc;
    assert now[..size] == was[..size][size - HEADER + 1 := INSTANCE];
    assert now[..size] == Bytes(front) + Enc(end)[1 := INSTANCE];
  }

  lemma JoinedNodes(block: seq<Byte>, ns1: seq<Node>, ns2: seq<Node>)
    requires IsPath(ns1) && IsPath(ns2) && Sized(Opened(ns1)) && block == Bytes(Opened(ns1)) + Counted(ns2)
    ensures Length(ns2[|ns2| - 1]) == HEADER ==>
      NodesAt(block, 0, WithInstance(ns1, ns2)) && |block| == Total(WithInstance(ns1, ns2))
  {
    if Length(ns2[|ns2| - 1]) == HEADER {
      CountedIsPathIff(ns2);
      hide Counted;
      BytesConcat(Opened(ns1), ns2);
      var all := Opened(ns1) + ns2;
      BytesLength(all, |all|);
      assert all[..|all|] == all && block[0..|block|] == block;
    }
  }

  /** The result is the path of both instance lists, and sizes add up. The walk through it yields the pieces of
      both, and so the counts add up, exactly when the walk through the first path reaches its end. */
  lemma InstancesConcatenate(ns1: seq<Node>, ns2: seq<Node>)
    requires IsPath(ns1) && IsPath(ns2)
    ensures var ns := WithInstance(ns1, ns2);
      && IsPath(ns) && Split(ns) == Split(ns1) + Split(ns2)
      && Total(ns) == Total(ns1) + Total(ns2)
      && Pieces(ns) == Pieces(ns1) + (if ReachesEnd(ns1) then Pieces(ns2) else [])
      && (|Pieces(ns)| == |Pieces(ns1)| + |Pieces(ns2)| <==> ReachesEnd(ns1))
  {
    hide *;
    SplitWithInstance(ns1, ns2);
    PathHasNodes(ns1);
    WithInstanceTotal(ns1, ns2);
    PiecesWithInstance(ns1, ns2);
  }

  lemma {:induction false} PiecesWithInstance(ns1: seq<Node>, ns2: seq<Node>)
    requires IsPath(ns1) && IsPath(ns2)
    ensures IsPath(WithInstance(ns1, ns2))
    ensures Pieces(WithInstance(ns1, ns2)) == Pieces(ns1) + if ReachesEnd(ns1) then Pieces(ns2) else []
    decreases |ns1|
  {
    hide *;
    WithInstanceIsPath(ns1, ns2);
    StopOfWith(ns1, ns2);
    var ns, s := WithInstance(ns1, ns2), Stop(ns1);
    PieceAtStop(ns1, s);
    PieceAtStop(ns, s);
    EndAtStop(ns1, s);
    WithInstanceTail(ns1, ns2, s);
    if s < |ns1| - 1 && ns1[s].sub != ENTIRE {
      PiecesWithInstance(ns1[s + 1..], ns2);
      FirstOfAll(ns1[..s], Pieces(ns1[s + 1..]), if ReachesEnd(ns1[s + 1..]) then Pieces(ns2) else []);
    }
  }

  lemma TailBehindStop(ns: seq<Node>, s: nat)
    requires IsPath(ns) && s < |ns| && ns[s].sub != ENTIRE
    ensures IsPath(ns[s + 1..])
  {
    TailIsPath(ns, s);
  }

  lemma PieceAtStop(ns: seq<Node>, s: nat)
    requires IsPath(ns) && s == Stop(ns)
    ensures s < |ns| && (ns[s].sub != ENTIRE ==> IsPath(ns[s + 1..]))
    ensures Pieces(ns) == if ns[s].sub == ENTIRE then [ns[..s]] else [ns[..s]] + Pieces(ns[s + 1..])
  {
    if ns[s].sub != ENTIRE {
      TailBehindStop(ns, s);
    }
    hide Stop, IsPath, Sized, IsEnd, ReachesEnd;
  }

  lemma EndAtStop(ns: seq<Node>, s: nat)
    requires IsPath(ns) && s == Stop(ns)
    ensures s < |ns| && (ns[s].sub != ENTIRE ==> IsPath(ns[s + 1..]))
    ensures ReachesEnd(ns) <==> if ns[s].sub == ENTIRE then s == |ns| - 1 else ReachesEnd(ns[s + 1..])
  {
    if ns[s].sub != ENTIRE {
      TailBehindStop(ns, s);
    }
    hide Stop, IsPath, Sized, IsEnd, Pieces;
  }

  /** The walk stops where it did, at most at the node that is a separator now. */
  lemma StopOfWith(ns1: seq<Node>, ns2: seq<Node>)
    requires IsPath(ns1) && IsPath(ns2) && IsPath(WithInstance(ns1, ns2))
    ensures var ns, s := WithInstance(ns1, ns2), Stop(ns1);
      && Stop(ns) == s && ns[..s] == ns1[..s]
      && (s < |ns1| - 1 ==> ns[s].sub == ns1[s].sub)
      && (s == |ns1| - 1 ==> ns1[s].sub == ENTIRE && ns[s].sub != ENTIRE)
  {
    FirstEndOfWith(ns1, ns2);
  }

  /** One instance of 514 nodes, node 513 with the subtype of an End-Entire node without being one: the walk ends
      there, and an instance appended behind it is never come to. */
  lemma AppendedInstanceUnseen(ns2: seq<Node>)
    requires IsPath(ns2)
    ensures var ns1 := GivenUp();
      && |Split(ns1)| == 1 && |Pieces(ns1)| == 1 && IsPath(WithInstance(ns1, ns2))
      && Pieces(WithInstance(ns1, ns2)) == Pieces(ns1) && |Split(WithInstance(ns1, ns2))| == 1 + |Split(ns2)|
  {
    var ns1 := GivenUp();
    FirstEndIs(ns1, 514);
    assert Stop(ns1) == 513 && ns1[513].sub == ENTIRE;
    InstancesConcatenate(ns1, ns2);
  }

  function GivenUp(): (ns: seq<Node>)
    ensures |ns| == 515 && IsPath(ns)
  {
    seq(513, _ => Node(1, 1, [])) + [Node(1, ENTIRE, []), END_ENTIRE]
  }

  lemma PathHasNodes(ns: seq<Node>)
    requires IsPath(ns)
    ensures ns != []
  {}

  lemma WithInstanceIsPath(ns1: seq<Node>, ns2: seq<Node>)
    requires IsPath(ns1) && IsPath(ns2)
    ensures IsPath(WithInstance(ns1, ns2))
  {
    var ns := WithInstance(ns1, ns2);
    forall i | 0 <= i < |ns|
      ensures Length(ns[i]) <= MAX_LENGTH && (IsEnd(ns[i]) <==> i == |ns| - 1)
    {
      assert i < |ns1| - 1 ==> ns[i] == ns1[i];
      assert i >= |ns1| ==> ns[i] == ns2[i - |ns1|];
    }
  }

  lemma {:induction false} SplitWithInstance(ns1: seq<Node>, ns2: seq<Node>)
    requires IsPath(ns1) && IsPath(ns2)
    ensures IsPath(WithInstance(ns1, ns2)) && Split(WithInstance(ns1, ns2)) == Split(ns1) + Split(ns2)
    decreases |ns1|
  {
    hide *;
    WithInstanceIsPath(ns1, ns2);
    FirstEndOfWith(ns1, ns2);
    var ns, e := WithInstance(ns1, ns2), FirstEnd(ns1);
    SplitAt(ns1, e);
    SplitAt(ns, e);
    WithInstanceTail(ns1, ns2, e);
    if !IsEnd(ns1[e]) {
      SplitWithInstance(ns1[e + 1..], ns2);
      FirstOfAll(ns1[..e], Split(ns1[e + 1..]), Split(ns2));
    }
  }

  lemma FirstOfAll(inst: seq<Node>, us: seq<seq<Node>>, vs: seq<seq<Node>>)
    ensures [inst] + (us + vs) == ([inst] + us) + vs
  {}

  lemma WithInstanceTail(ns1: seq<Node>, ns2: seq<Node>, e: nat)
    requires e < |ns1|
    ensures e < |ns1| - 1 ==> WithInstance(ns1, ns2)[e + 1..] == WithInstance(ns1[e + 1..], ns2)
    ensures e == |ns1| - 1 ==> WithInstance(ns1, ns2)[e + 1..] == ns2
  {}

  /** The first end node is where it was. */
  lemma FirstEndOfWith(ns1: seq<Node>, ns2: seq<Node>)
    requires IsPath(ns1) && IsPath(ns2)
    ensures var ns, e := WithInstance(ns1, ns2), FirstEnd(ns1);
      && e < |ns| && IsEndType(ns[e]) && (forall i :: 0 <= i < e ==> !IsEndType(ns[i])) && ns[..e] == ns1[..e]
      && (IsEnd(ns1[e]) <==> e == |ns1| - 1) && !IsEnd(ns[e])
  {
    var ns, e := WithInstance(ns1, ns2), FirstEnd(ns1);
    assert forall i :: 0 <= i < |ns1| - 1 ==> ns[i] == ns1[i];
  }

  lemma WithInstanceTotal(ns1: seq<Node>, ns2: seq<Node>)
    requires ns1 != []
    ensures Total(WithInstance(ns1, ns2)) == Total(ns1) + Total(ns2)
  {
    var front, e := ns1[..|ns1| - 1], ns1[|ns1| - 1].(sub := INSTANCE);
    OffsetConcat(front + [e], ns2, |ns2|);
    OffsetConcat(front, [e], 1);
    OneNode(e);
    OffsetPrefix(front, ns1, |front|);
  }
}
