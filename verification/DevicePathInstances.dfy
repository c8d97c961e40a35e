/** Walking a device path instance by instance: DevicePathInstance, DevicePathInstanceCount and
    LibMatchDevicePaths of gnu-efi/lib/dpath.c.
 */
module DevicePathInstances {
  import opened DevicePathNodes
  import opened Options

  /** The walk gives up after node number octal 01000 + 1 of an instance. */
  const LAST_NODE := 0x201

  /** The first end node, of either kind. */
  function FirstEnd(ns: seq<Node>): (e: nat)
    requires IsPath(ns)
    ensures e < |ns| && IsEndType(ns[e]) && forall i :: 0 <= i < e ==> !IsEndType(ns[i])
  {
    FirstEndFrom(ns, 0)
  }

  function FirstEndFrom(ns: seq<Node>, k: nat): (e: nat)
    requires IsPath(ns) && k < |ns| && forall i :: 0 <= i < k ==> !IsEndType(ns[i])
    ensures e < |ns| && IsEndType(ns[e]) && forall i :: 0 <= i < e ==> !IsEndType(ns[i])
    decreases |ns| - k
  {
    if IsEndType(ns[k]) then k else FirstEndFrom(ns, k + 1)
  }

  /** What is left of a path behind one of its inner nodes is a path. */
  lemma TailIsPath(ns: seq<Node>, k: nat)
    requires IsPath(ns) && k + 1 < |ns|
    ensures IsPath(ns[k + 1..])
  {}

  // ----- the instances of a path -----

  /** The instances: the stretches of nodes between end nodes. */
  function Split(ns: seq<Node>): (insts: seq<seq<Node>>)
    requires IsPath(ns)
    ensures insts != []
    decreases |ns|
  {
    var e := FirstEnd(ns);
    if IsEnd(ns[e]) then [ns[..e]] else
      TailIsPath(ns, e);
      [ns[..e]] + Split(ns[e + 1..])
  }

  predicate Plain(inst: seq<Node>) {
    Sized(inst) && forall i :: 0 <= i < |inst| ==> !IsEndType(inst[i])
  }

  predicate AllPlain(insts: seq<seq<Node>>) {
    forall i :: 0 <= i < |insts| ==> Plain(insts[i])
  }

  /** The instances joined by End-Instance nodes and closed by an End-Entire node. */
  function Join(insts: seq<seq<Node>>): (ns: seq<Node>)
    requires insts != []
    ensures ns != []
  {
    if |insts| == 1 then insts[0] + [END_ENTIRE] else insts[0] + [END_INSTANCE] + Join(insts[1..])
  }

  /** End nodes look the way section 9.3.1 of UEFI 2.4 writes them. */
  predicate Standard(ns: seq<Node>) {
    IsPath(ns) && forall i :: 0 <= i < |ns| && IsEndType(ns[i]) ==> ns[i] == END_ENTIRE || ns[i] == END_INSTANCE
  }

  lemma {:induction false} JoinIsPath(insts: seq<seq<Node>>)
    requires insts != [] && AllPlain(insts)
    ensures Standard(Join(insts))
  {
    if |insts| > 1 {
      JoinIsPath(insts[1..]);
      var rest := Join(insts[1..]);
      var ns := Join(insts);
      assert ns[|ns| - 1] == rest[|rest| - 1];
      forall i | 0 <= i < |ns|
        ensures Length(ns[i]) <= MAX_LENGTH
        ensures i < |ns| - 1 ==> !IsEnd(ns[i])
        ensures IsEndType(ns[i]) ==> ns[i] == END_ENTIRE || ns[i] == END_INSTANCE
      {
        if i > |insts[0]| {
          assert ns[i] == rest[i - |insts[0]| - 1];
        }
      }
    }
  }

  lemma FirstEndIs(ns: seq<Node>, e: nat)
    requires IsPath(ns) && e < |ns| && IsEndType(ns[e]) && forall i :: 0 <= i < e ==> !IsEndType(ns[i])
    ensures FirstEnd(ns) == e
  {
    var f := FirstEnd(ns);
  }

  lemma SplitAt(ns: seq<Node>, e: nat)
    requires IsPath(ns) && e < |ns| && IsEndType(ns[e]) && forall i :: 0 <= i < e ==> !IsEndType(ns[i])
    ensures if IsEnd(ns[e]) then Split(ns) == [ns[..e]]
      else e + 1 < |ns| && IsPath(ns[e + 1..]) && Split(ns) == [ns[..e]] + Split(ns[e + 1..])
  {
    FirstEndIs(ns, e);
    hide *;
    SplitStep(ns);
  }

  lemma SplitStep(ns: seq<Node>)
    requires IsPath(ns)
    ensures var e := FirstEnd(ns);
      if IsEnd(ns[e]) then Split(ns) == [ns[..e]]
      else e + 1 < |ns| && IsPath(ns[e + 1..]) && Split(ns) == [ns[..e]] + Split(ns[e + 1..])
  {
    var e := FirstEnd(ns);
    if !IsEnd(ns[e]) {
      TailIsPath(ns, e);
    }
    hide FirstEnd, IsPath, IsEnd, IsEndType, Sized;
  }

  /** Joining and splitting are inverse to each other. */
  lemma {:induction false} SplitJoin(insts: seq<seq<Node>>)
    requires insts != [] && AllPlain(insts)
    ensures IsPath(Join(insts)) && Split(Join(insts)) == insts
  {
    assert insts == [insts[0]] + insts[1..];
    if |insts| == 1 {
      SplitOfLast(insts[0]);
    } else {
      assert AllPlain(insts[1..]);
      SplitJoin(insts[1..]);
      hide Split;
      SplitOfParts(insts[0], Join(insts[1..]));
    }
  }

  lemma SplitOfLast(inst: seq<Node>)
    requires Plain(inst)
    ensures IsPath(inst + [END_ENTIRE]) && Split(inst + [END_ENTIRE]) == [inst]
  {
    SplitAt(inst + [END_ENTIRE], |inst|);
  }

  lemma SplitOfParts(inst: seq<Node>, rest: seq<Node>)
    requires Plain(inst) && IsPath(rest)
    ensures IsPath(inst + [END_INSTANCE] + rest) && Split(inst + [END_INSTANCE] + rest) == [inst] + Split(rest)
  {
    var ns, e := inst + [END_INSTANCE] + rest, |inst|;
    assert ns[..e] == inst && ns[e + 1..] == rest && ns[e] == END_INSTANCE;
    PathOfParts(inst, rest);
    assert forall i :: 0 <= i < e ==> ns[i] == inst[i];
    hide IsPath, Split, Sized;
    SplitAt(ns, e);
  }

  lemma PathOfParts(inst: seq<Node>, rest: seq<Node>)
    requires Plain(inst) && IsPath(rest)
    ensures IsPath(inst + [END_INSTANCE] + rest)
  {
    var ns := inst + [END_INSTANCE] + rest;
    assert ns[|ns| - 1] == rest[|rest| - 1];
    forall i | 0 <= i < |ns|
      ensures Length(ns[i]) <= MAX_LENGTH && (i < |ns| - 1 ==> !IsEnd(ns[i]))
    {
      if i > |inst| {
        assert ns[i] == rest[i - |inst| - 1];
      }
    }
  }

  lemma StandardTail(ns: seq<Node>, e: nat)
    requires Standard(ns) && e < |ns| && e == FirstEnd(ns)
    ensures Plain(ns[..e])
    ensures if IsEnd(ns[e]) then e == |ns| - 1 && ns[e] == END_ENTIRE
      else e + 1 < |ns| && ns[e] == END_INSTANCE && Standard(ns[e + 1..])
  {
    if !IsEnd(ns[e]) {
      TailIsPath(ns, e);
    }
  }

  lemma JoinCons(inst: seq<Node>, rest: seq<seq<Node>>)
    requires rest != []
    ensures Join([inst] + rest) == inst + [END_INSTANCE] + Join(rest)
    ensures AllPlain([inst] + rest) <==> Plain(inst) && AllPlain(rest)
  {
    var insts := [inst] + rest;
    assert insts[1..] == rest && insts[0] == inst;
    assert forall i :: 0 <= i < |rest| ==> rest[i] == insts[i + 1];
  }

  ghost predicate SplitsBack(ns: seq<Node>)
    requires IsPath(ns)
  {
    AllPlain(Split(ns)) && Join(Split(ns)) == ns
  }

  lemma SplitsBackStep(ns: seq<Node>, inst: seq<Node>, rest: seq<Node>)
    requires IsPath(ns) && IsPath(rest) && Plain(inst)
    requires ns == inst + [END_INSTANCE] + rest && Split(ns) == [inst] + Split(rest) && SplitsBack(rest)
    ensures SplitsBack(ns)
  {
    JoinCons(inst, Split(rest));
  }

  lemma {:induction false} JoinSplit(ns: seq<Node>)
    requires Standard(ns)
    ensures SplitsBack(ns)
    decreases |ns|
  {
    hide *;
    StandardIsPath(ns);
    var e := FirstEnd(ns);
    StandardTail(ns, e);
    SplitAt(ns, e);
    if IsEnd(ns[e]) {
      assert ns == ns[..e] + [END_ENTIRE];
      SplitsBackLast(ns, ns[..e]);
    } else {
      assert ns == ns[..e] + [END_INSTANCE] + ns[e + 1..];
      JoinSplit(ns[e + 1..]);
      StandardIsPath(ns[e + 1..]);
      SplitsBackStep(ns, ns[..e], ns[e + 1..]);
    }
  }

  lemma StandardIsPath(ns: seq<Node>)
    requires Standard(ns)
    ensures IsPath(ns)
  {}

  lemma SplitsBackLast(ns: seq<Node>, inst: seq<Node>)
    requires IsPath(ns) && Plain(inst) && ns == inst + [END_ENTIRE] && Split(ns) == [inst]
    ensures SplitsBack(ns)
  {}

  lemma {:induction false} SplitPlain(ns: seq<Node>)
    requires IsPath(ns)
    ensures AllPlain(Split(ns))
    decreases |ns|
  {
    var e := FirstEnd(ns);
    if !IsEnd(ns[e]) {
      TailIsPath(ns, e);
      SplitPlain(ns[e + 1..]);
    }
  }

  /** Rejoining the instances of a path gives the path back exactly when its end nodes are standard ones. */
  lemma JoinSplitIff(ns: seq<Node>)
    requires IsPath(ns)
    ensures Join(Split(ns)) == ns <==> Standard(ns)
  {
    SplitPlain(ns);
    JoinIsPath(Split(ns));
    hide *;
    if Standard(ns) {
      JoinSplit(ns);
      SplitsBackIs(ns);
    }
  }

  lemma SplitsBackIs(ns: seq<Node>)
    requires IsPath(ns) && SplitsBack(ns)
    ensures Join(Split(ns)) == ns
  {}

  // ----- what the iteration yields -----

  /** Where one call stops: at the first end node, or at the give-up node if that comes first. */
  function Stop(ns: seq<Node>): (s: nat)
    requires IsPath(ns)
    ensures s < |ns| && forall i :: 0 <= i < s ==> !IsEndType(ns[i])
    ensures s == LAST_NODE || IsEndType(ns[s])
  {
    if FirstEnd(ns) <= LAST_NODE then FirstEnd(ns) else LAST_NODE
  }

  function Pieces(ns: seq<Node>): (ps: seq<seq<Node>>)
    requires IsPath(ns)
    ensures ps != [] && ps[0] == ns[..Stop(ns)]
    decreases |ns|
  {
    var s := Stop(ns);
    if ns[s].sub == ENTIRE then [ns[..s]] else
      TailIsPath(ns, s);
      [ns[..s]] + Pieces(ns[s + 1..])
  }

  /** The iteration comes to the path's end node: it never gives up on a node that has the end's subtype. */
  predicate ReachesEnd(ns: seq<Node>)
    requires IsPath(ns)
    decreases |ns|
  {
    var s := Stop(ns);
    if ns[s].sub == ENTIRE then s == |ns| - 1 else
      TailIsPath(ns, s);
      ReachesEnd(ns[s + 1..])
  }

  predicate AllShort(insts: seq<seq<Node>>) {
    forall i :: 0 <= i < |insts| ==> |insts[i]| <= LAST_NODE
  }

  /** The iteration yields the instances exactly when none of them is too long. */
  lemma {:induction false} PiecesAreInstancesIff(ns: seq<Node>)
    requires IsPath(ns)
    ensures Pieces(ns) == Split(ns) <==> AllShort(Split(ns))
    decreases |ns|
  {
    var e, s := FirstEnd(ns), Stop(ns);
    StopOf(ns);
    LastIsShort(ns[..e]);
    assert LAST_NODE >= 0;
    hide *;
    SplitStep(ns);
    PiecesStep(ns);
    if e > LAST_NODE {
      FirstIsLong(Split(ns));
      assert Split(ns)[0] == ns[..e];
    } else if !IsEnd(ns[e]) {
      var rest := ns[e + 1..];
      PiecesAreInstancesIff(rest);
      ConsShort(ns[..e], Split(rest));
      SameTail(ns[..e], Split(rest), Pieces(rest));
    }
  }

  lemma StopOf(ns: seq<Node>)
    requires IsPath(ns)
    ensures Stop(ns) == if FirstEnd(ns) <= LAST_NODE then FirstEnd(ns) else LAST_NODE
    ensures IsEnd(ns[FirstEnd(ns)]) <==> ns[FirstEnd(ns)].sub == ENTIRE
  {}

  lemma PiecesStep(ns: seq<Node>)
    requires IsPath(ns)
    ensures Pieces(ns)[0] == ns[..Stop(ns)]
    ensures var s := Stop(ns);
      if ns[s].sub == ENTIRE then Pieces(ns) == [ns[..s]]
      else s + 1 < |ns| && IsPath(ns[s + 1..]) && Pieces(ns) == [ns[..s]] + Pieces(ns[s + 1..])
  {
    var s := Stop(ns);
    if ns[s].sub != ENTIRE {
      TailIsPath(ns, s);
    }
    hide Stop, IsPath, IsEnd, IsEndType, Sized;
  }

  lemma FirstIsLong(insts: seq<seq<Node>>)
    ensures insts != [] && |insts[0]| > LAST_NODE ==> !AllShort(insts)
  {}

  lemma LastIsShort(inst: seq<Node>)
    ensures AllShort([inst]) <==> |inst| <= LAST_NODE
  {
    assert [inst][0] == inst;
  }

  lemma ConsShort(inst: seq<Node>, rest: seq<seq<Node>>)
    ensures AllShort([inst] + rest) <==> |inst| <= LAST_NODE && AllShort(rest)
  {
    var insts := [inst] + rest;
    assert insts[0] == inst && forall i :: 0 <= i < |rest| ==> rest[i] == insts[i + 1];
  }

  lemma SameTail(inst: seq<Node>, us: seq<seq<Node>>, vs: seq<seq<Node>>)
    ensures [inst] + us == [inst] + vs <==> us == vs
  {
    assert us == ([inst] + us)[1..] && vs == ([inst] + vs)[1..];
  }

  lemma {:induction false} ShortReachesEnd(ns: seq<Node>)
    requires IsPath(ns) && AllShort(Split(ns))
    ensures ReachesEnd(ns)
    decreases |ns|
  {
    var e := FirstEnd(ns);
    assert |Split(ns)[0]| == e;
    if !IsEnd(ns[e]) {
      TailIsPath(ns, e);
      var rest := ns[e + 1..];
      assert Split(ns) == [ns[..e]] + Split(rest);
      assert Stop(ns) == e && (ReachesEnd(rest) ==> ReachesEnd(ns));
      hide *;
      ConsShort(ns[..e], Split(rest));
      ShortReachesEnd(rest);
    }
  }

  lemma {:induction false} PiecesPlain(ns: seq<Node>)
    requires IsPath(ns)
    ensures AllPlain(Pieces(ns))
    decreases |ns|
  {
    var s := Stop(ns);
    if ns[s].sub != ENTIRE {
      TailIsPath(ns, s);
      PiecesPlain(ns[s + 1..]);
    }
  }

  /** Rejoining what the iteration yields gives the original path back exactly when no instance is too
      long and the end nodes are standard ones. */
  lemma RejoinIff(ns: seq<Node>)
    requires IsPath(ns)
    ensures Join(Pieces(ns)) == ns <==> AllShort(Split(ns)) && Standard(ns)
  {
    hide *;
    PiecesPlain(ns);
    JoinIsPath(Pieces(ns));
    SplitJoin(Pieces(ns));
    PiecesAreInstancesIff(ns);
    JoinSplitIff(ns);
  }

  /** What one call answers for the path `ns` at `p`. */
  ghost predicate Yields(mem: seq<Byte>, p: nat, ns: seq<Node>, size: nat, next: Option<nat>)
    requires PathAt(mem, p, ns)
  {
    var s := Stop(ns);
    && size == Offset(ns, s) && p + size <= |mem| && mem[p..p + size] == Bytes(ns[..s])
    && if ns[s].sub == ENTIRE then next == None
       else s + 1 < |ns| && next == Some(p + Offset(ns, s + 1)) && PathAt(mem, next.value, ns[s + 1..])
  }

  lemma StopIs(ns: seq<Node>, k: nat)
    requires IsPath(ns) && k <= Stop(ns)
    ensures k == Stop(ns) <==> IsEndType(ns[k]) || k > 0x200
  {}

  lemma YieldsIf(mem: seq<Byte>, p: nat, ns: seq<Node>)
    requires PathAt(mem, p, ns)
    ensures var s := Stop(ns);
      Yields(mem, p, ns, Offset(ns, s), if ns[s].sub == ENTIRE then None else Some(p + Offset(ns, s + 1)))
  {
    FirstStretch(mem, p, ns, Stop(ns));
    hide NodesAt, Offset, Bytes, Stop;
  }

  /** The loop of DevicePathInstance. */
  method WalkInstance(mem: array<Byte>, off: nat, ghost ns: seq<Node>) returns (p: nat)
    requires PathAt(mem[..], off, ns)
    ensures On(mem[..], off, ns, p, Stop(ns))
  {
    p := off;
    var count: nat := 0;
    OffsetZero(ns);
    PathHeaders(mem[..], off, ns);
    OnNode(mem[..], off, ns, 0);
    hide PathAt, HeadersAt, LengthAt, Offset, Stop;
    while true
      invariant On(mem[..], off, ns, p, count) && count <= Stop(ns)
      decreases Stop(ns) - count
    {
      StopIs(ns, count);
      if IsDevicePathEndType(mem, p) {
        break;
      }
      if count > 0x200 {
        break;
      }
      p := p + DevicePathNodeLength(mem, p);
      count := count + 1;
      OnNode(mem[..], off, ns, count);
    }
  }

  /** DevicePathInstance: `path` is the caller's pointer, None for NULL; `next` is what it becomes. */
  method DevicePathInstance(mem: array<Byte>, path: Option<nat>, ghost ns: seq<Node>)
    returns (start: Option<nat>, size: nat, next: Option<nat>)
    requires path.Some? ==> PathAt(mem[..], path.value, ns)
    ensures start == path
    ensures if path.Some? then Yields(mem[..], path.value, ns, size, next) else next == None
  {
    if path.None? {
      return None, 0, None;
    }
    YieldsIf(mem[..], path.value, ns);
    hide PathAt, LengthAt, Offset, Yields, Stop;
    var p := WalkInstance(mem, path.value, ns);
    start, size := path, p - path.value;
    next := if mem[p + 1] == ENTIRE then None else Some(p + DevicePathNodeLength(mem, p));
  }

  lemma FirstStretch(mem: seq<Byte>, off: nat, ns: seq<Node>, s: nat)
    requires PathAt(mem, off, ns) && s < |ns|
    ensures off + Offset(ns, s) <= |mem| && Sized(ns[..s])
    ensures mem[off..off + Offset(ns, s)] == Bytes(ns[..s])
    ensures s + 1 < |ns| ==> PathAt(mem, off + Offset(ns, s + 1), ns[s + 1..])
  {
    assert ns[0..s] == ns[..s] && ns[s + 1..|ns|] == ns[s + 1..];
    OffsetZero(ns);
    if s + 1 < |ns| {
      TailIsPath(ns, s);
    }
    hide Offset, Bytes, Sized, IsPath;
    SubNodes(mem, off, ns, 0, s);
    SubNodes(mem, off, ns, s + 1, |ns|);
  }

  /** A call's answer read as the first piece and the pieces behind it. */
  lemma PieceAt(mem: seq<Byte>, p: nat, ns: seq<Node>, size: nat, next: Option<nat>)
    requires PathAt(mem, p, ns) && Yields(mem, p, ns, size, next)
    ensures var ps := Pieces(ns);
      && Sized(ps[0]) && NodesAt(mem, p, ps[0]) && size == Total(ps[0])
      && (next.None? ==> |ps| == 1)
      && (next.Some? ==> Stop(ns) + 1 < |ns|)
      && (next.Some? ==> PathAt(mem, next.value, ns[Stop(ns) + 1..]) && Pieces(ns[Stop(ns) + 1..]) == ps[1..])
  {
    SubNodes(mem, p, ns, 0, Stop(ns));
    OffsetZero(ns);
    assert ns[0..Stop(ns)] == ns[..Stop(ns)];
  }

  /** A loop over the pieces `ps` of a path has seen `k` of them; `rest` is the path still ahead. */
  ghost predicate Iterating(mem: seq<Byte>, ps: seq<seq<Node>>, k: nat, cursor: Option<nat>, rest: seq<Node>) {
    if cursor.Some? then PathAt(mem, cursor.value, rest) && k < |ps| && Pieces(rest) == ps[k..]
    else k == |ps|
  }

  /** What is ahead after one more call. */
  function Ahead(rest: seq<Node>, next: Option<nat>): seq<Node>
    requires IsPath(rest)
  {
    if next.Some? then rest[Stop(rest) + 1..] else []
  }

  lemma IterationStarts(mem: seq<Byte>, p: nat, ns: seq<Node>)
    requires PathAt(mem, p, ns)
    ensures Iterating(mem, Pieces(ns), 0, Some(p), ns)
  {
    assert Pieces(ns)[0..] == Pieces(ns);
  }

  lemma IterationIs(mem: seq<Byte>, ps: seq<seq<Node>>, k: nat, cursor: Option<nat>, rest: seq<Node>)
    requires Iterating(mem, ps, k, cursor, rest)
    ensures if cursor.Some? then PathAt(mem, cursor.value, rest) && k < |ps| else k == |ps|
  {}

  lemma IterationStep(mem: seq<Byte>, ps: seq<seq<Node>>, k: nat, p: nat, rest: seq<Node>, size: nat, next: Option<nat>)
    requires Iterating(mem, ps, k, Some(p), rest) && Yields(mem, p, rest, size, next)
    ensures k < |ps| && ps[k] == Pieces(rest)[0] && Sized(ps[k]) && NodesAt(mem, p, ps[k]) && size == Total(ps[k])
    ensures IsPath(rest) && Iterating(mem, ps, k + 1, next, Ahead(rest, next))
    ensures next.Some? ==> |Ahead(rest, next)| < |rest|
  {
    PieceAt(mem, p, rest, size, next);
    assert ps[k..][0] == ps[k] && ps[k..][1..] == ps[k + 1..];
  }

  /** DevicePathInstanceCount. */
  method DevicePathInstanceCount(mem: array<Byte>, path: Option<nat>, ghost ns: seq<Node>) returns (count: nat)
    requires path.Some? ==> PathAt(mem[..], path.value, ns)
    ensures count == if path.None? then 0 else |Pieces(ns)|
    ensures path.Some? && AllShort(Split(ns)) ==> count == |Split(ns)|
  {
    ghost var ps := if path.Some? then Pieces(ns) else [];
    if path.Some? {
      PiecesAreInstancesIff(ns);
      IterationStarts(mem[..], path.value, ns);
    }
    var cursor := path;
    ghost var rest := ns;
    count := 0;
    hide Split, Pieces, Yields;
    while true
      invariant Iterating(mem[..], ps, count, cursor, rest)
      decreases if cursor.Some? then |rest| + 1 else 0
    {
      var start, size, next := DevicePathInstance(mem, cursor, rest);
      if start.None? {
        break;
      }
      IterationStep(mem[..], ps, count, cursor.value, rest, size, next);
      count, cursor, rest := count + 1, next, Ahead(rest, next);
    }
  }

  // ----- the pieces and the instances in numbers -----

  /** The iteration cuts the path at the first node of type 0x7F, with the top bit or without, or else at node 513; `s`
      is that node. If it has subtype 0xFF the iteration ends there, at whatever node of the path. */
  lemma PiecesMean(ns: seq<Node>, s: nat)
    requires IsPath(ns) && s < |ns| && s <= 513 && (s == 513 || ns[s].kind % 128 == 127)
    requires forall i :: 0 <= i < s ==> ns[i].kind % 128 != 127
    ensures ns[s].sub == 255 ==> Pieces(ns) == [ns[..s]] && (ReachesEnd(ns) <==> s == |ns| - 1)
    ensures ns[s].sub != 255 ==> s + 1 < |ns| && IsPath(ns[s + 1..])
    ensures ns[s].sub != 255 ==> Pieces(ns) == [ns[..s]] + Pieces(ns[s + 1..])
    ensures ns[s].sub != 255 ==> (ReachesEnd(ns) <==> ReachesEnd(ns[s + 1..]))
  {
    StopsAt(ns, s);
    if ns[s].sub != ENTIRE {
      TailIsPath(ns, s);
    }
    hide Stop, IsPath;
  }

  /** The answer of one call is the bytes in front of that node, and what is behind it. */
  lemma YieldsMean(mem: seq<Byte>, p: nat, ns: seq<Node>, s: nat, size: nat, next: Option<nat>)
    requires PathAt(mem, p, ns) && s < |ns| && s <= 513 && (s == 513 || ns[s].kind % 128 == 127)
    requires forall i :: 0 <= i < s ==> ns[i].kind % 128 != 127
    ensures Yields(mem, p, ns, size, next) <==>
      && size == Offset(ns, s) && p + size <= |mem| && mem[p..p + size] == Bytes(ns[..s])
      && next == if ns[s].sub == 255 then None else Some(p + Offset(ns, s + 1))
  {
    StopsAt(ns, s);
    FirstStretch(mem, p, ns, s);
    hide Offset, Bytes, Stop, NodesAt, IsPath;
  }

  lemma StopsAt(ns: seq<Node>, s: nat)
    requires IsPath(ns) && s < |ns| && s <= 513 && (s == 513 || ns[s].kind % 128 == 127)
    requires forall i :: 0 <= i < s ==> ns[i].kind % 128 != 127
    ensures Stop(ns) == s && ENTIRE == 255
    ensures ns[s].sub != 255 ==> s + 1 < |ns|
  {
    var e := FirstEnd(ns);
    assert ns[e].kind % 128 == 127;
    assert IsEnd(ns[|ns| - 1]);
  }

  /** The instances of a path end at every node of type 0x7F, `e` being the first, and are joined by nodes of subtype 1
      and closed by one of subtype 0xFF. */
  lemma SplitMeans(ns: seq<Node>, e: nat, inst: seq<Node>, insts: seq<seq<Node>>)
    requires IsPath(ns) && e < |ns| && ns[e].kind % 128 == 127 && forall i :: 0 <= i < e ==> ns[i].kind % 128 != 127
    ensures ns[e].sub == 255 ==> Split(ns) == [ns[..e]]
    ensures ns[e].sub != 255 ==> e + 1 < |ns| && IsPath(ns[e + 1..])
    ensures ns[e].sub != 255 ==> Split(ns) == [ns[..e]] + Split(ns[e + 1..])
    ensures Join([inst]) == inst + [Node(0x7F, 0xFF, [])]
    ensures insts != [] ==> Join([inst] + insts) == inst + [Node(0x7F, 1, [])] + Join(insts)
  {
    SplitAt(ns, e);
    if insts != [] {
      JoinCons(inst, insts);
    }
    hide Split;
  }

  // ----- matching -----

  /** A stretch without end nodes, read where a path stands, is a prefix of the path. */
  lemma PlainPrefix(mem: seq<Byte>, off: nat, inst: seq<Node>, ss: seq<Node>)
    requires NodesAt(mem, off, inst) && NodesAt(mem, off, ss) && Plain(inst) && IsPath(ss)
    ensures inst <= ss && Total(inst) <= Total(ss)
  {
    var last := |ss| - 1;
    assert last < |inst| ==> inst[last] != ss[last];
    PrefixNodes(mem, off, inst, ss);
    OffsetPrefix(inst, ss, |inst|);
    OffsetMonotone(ss, |inst|, |ss|);
  }

  /** Two stretches of memory hold equal bytes. */
  ghost predicate SameBytes(mem: seq<Byte>, p: nat, mem': seq<Byte>, p': nat, count: nat) {
    p + count <= |mem| && p' + count <= |mem'| && mem[p..p + count] == mem'[p'..p' + count]
  }

  /** As long as the bytes agree, the comparison is still inside the single path. */
  lemma StaysInside(mem: seq<Byte>, p: nat, inst: seq<Node>, mem': seq<Byte>, p': nat, ss: seq<Node>, k: nat)
    requires NodesAt(mem, p, inst) && Plain(inst) && PathAt(mem', p', ss)
    requires k < Total(inst) && SameBytes(mem, p, mem', p', k)
    ensures k < Total(ss)
  {
    if Total(ss) <= k {
      SliceOfSlice(mem, p, p + k, 0, Total(ss));
      SliceOfSlice(mem', p', p' + k, 0, Total(ss));
      assert NodesAt(mem, p, ss);
      PlainPrefix(mem, p, inst, ss);
    }
  }

  lemma SameBytesIff(mem: seq<Byte>, p: nat, inst: seq<Node>, mem': seq<Byte>, p': nat, ss: seq<Node>)
    requires NodesAt(mem, p, inst) && Plain(inst) && PathAt(mem', p', ss)
    ensures SameBytes(mem, p, mem', p', Total(inst)) <==> inst <= ss
  {
    if SameBytes(mem, p, mem', p', Total(inst)) {
      PlainPrefix(mem', p', inst, ss);
    }
    if inst <= ss {
      assert ss[0..|inst|] == inst;
      SubNodes(mem', p', ss, 0, |inst|);
      OffsetZero(ss);
    }
  }

  /** CompareMem(Single, DevicePathInst, Size) == 0, which stops at the first difference. */
  method InstanceMatches(mem: array<Byte>, p: nat, size: nat, other: array<Byte>, p': nat,
                         ghost inst: seq<Node>, ghost ss: seq<Node>) returns (same: bool)
    requires NodesAt(mem[..], p, inst) && Plain(inst) && size == Total(inst) && PathAt(other[..], p', ss)
    ensures same <==> inst <= ss
  {
    SameBytesIff(mem[..], p, inst, other[..], p', ss);
    var i: nat := 0;
    while i < size
      invariant i <= size && SameBytes(mem[..], p, other[..], p', i)
    {
      StaysInside(mem[..], p, inst, other[..], p', ss, i);
      if other[p' + i] != mem[p + i] {
        Differs(mem[..], p, other[..], p', size, i);
        return false;
      }
      Extends(mem[..], p, other[..], p', i);
      i := i + 1;
    }
    same := true;
  }

  lemma Extends(mem: seq<Byte>, p: nat, mem': seq<Byte>, p': nat, i: nat)
    requires SameBytes(mem, p, mem', p', i) && p + i < |mem| && p' + i < |mem'| && mem[p + i] == mem'[p' + i]
    ensures SameBytes(mem, p, mem', p', i + 1)
  {
    assert mem[p..p + i + 1] == mem[p..p + i] + [mem[p + i]];
    assert mem'[p'..p' + i + 1] == mem'[p'..p' + i] + [mem'[p' + i]];
  }

  lemma Differs(mem: seq<Byte>, p: nat, mem': seq<Byte>, p': nat, count: nat, i: nat)
    requires i < count && p + i < |mem| && p' + i < |mem'| && mem[p + i] != mem'[p' + i]
    ensures !SameBytes(mem, p, mem', p', count)
  {
    assert p + count <= |mem| && p' + count <= |mem'| ==> mem[p..p + count][i] != mem'[p'..p' + count][i];
  }

  /** LibMatchDevicePaths: TRUE when the nodes of some instance of `multi` start `single`. */
  method LibMatchDevicePaths(mem: array<Byte>, multi: Option<nat>, other: array<Byte>, single: Option<nat>,
                             ghost ns: seq<Node>, ghost ss: seq<Node>) returns (matched: bool)
    requires multi.Some? ==> PathAt(mem[..], multi.value, ns)
    requires single.Some? ==> PathAt(other[..], single.value, ss)
    ensures matched <==>
      multi.Some? && single.Some? && exists i :: 0 <= i < |Pieces(ns)| && Pieces(ns)[i] <= ss
  {
    if multi.None? || single.None? {
      return false;
    }
    var cursor := multi;
    ghost var ps, rest, k := Pieces(ns), ns, 0;
    PiecesPlain(ns);
    IterationStarts(mem[..], multi.value, ns);
    hide Pieces, Yields, Plain, NodesAt, Iterating;
    while true
      invariant 0 <= k <= |ps| && Iterating(mem[..], ps, k, cursor, rest)
      invariant forall i :: 0 <= i < k ==> !(ps[i] <= ss)
      decreases if cursor.Some? then |rest| + 1 else 0
    {
      IterationIs(mem[..], ps, k, cursor, rest);
      var inst, size, next := DevicePathInstance(mem, cursor, rest);
      if inst.None? {
        break;
      }
      IterationStep(mem[..], ps, k, cursor.value, rest, size, next);
      var same := InstanceMatches(mem, inst.value, size, other, single.value, ps[k], ss);
      if same {
        assert Pieces(ns)[k] <= ss;
        return true;
      }
      cursor, rest, k := next, Ahead(rest, next), k + 1;
    }
    matched := false;
  }
}
