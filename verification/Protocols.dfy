/** Installing and reinstalling lists of protocol interfaces: LibInstallProtocolInterfaces and
    LibReinstallProtocolInterfaces of gnu-efi/lib/hand.c, over a model of the boot services they call
    (section 6.3 of UEFI 2.4).
 */
module Protocols {

  /** A pointer; an EFI_HANDLE is one that the firmware has handed out. */
  type Handle = nat
  type Guid = nat
  type Interface = int

  const NULL: Handle := 0
  const TPL_NOTIFY := 16

  datatype Status = Success | Error

  /** One (protocol, interface) pair of the argument list. */
  datatype Entry = Entry(guid: Guid, interface: Interface)

  /** One (protocol, old interface, new interface) triple. */
  datatype Change = Change(guid: Guid, before: Interface, after: Interface)

  type Installed = map<Guid, Interface>
  type Database = map<Handle, Installed>

  // ----- boot services -----

  /** The firmware's protocol database and task priority. A handle exists while it carries a protocol. */
  class Firmware {
    var db: Database
    var tpl: nat
    /** How often an uninstall or reinstall that was in order has been refused, for the firmware's own reasons. */
    ghost var refusals: nat
    /** The same for installs. */
    ghost var installRefusals: nat

    constructor ()
      ensures Sound()
    {
      db, tpl, refusals, installRefusals := map[], 4, 0, 0;
    }

    ghost predicate Sound()
      reads this`db
    {
      NULL !in db && forall h :: h in db ==> db[h] != map[]
    }

    method RaiseTPL(level: nat) returns (was: nat)
      requires tpl <= level
      modifies this`tpl
      ensures was == old(tpl) && tpl == level
    {
      was, tpl := tpl, level;
    }

    method RestoreTPL(level: nat)
      modifies this`tpl
      ensures tpl == level
    {
      tpl := level;
    }

    /** InstallProtocolInterface: refused for a handle that does not exist or has the protocol already,
        or for the firmware's own reasons. A NULL handle becomes a new one. */
    method InstallProtocolInterface(handle: Handle, e: Entry) returns (status: Status, result: Handle)
      requires Sound()
      modifies this`db, this`installRefusals
      ensures Sound() && old(installRefusals) <= installRefusals <= old(installRefusals) + 1
      ensures status == Error ==> db == old(db) && result == handle
      ensures status == Success ==>
        installRefusals == old(installRefusals) && Installs(old(db), handle, e, result, db)
      ensures (handle == NULL || (handle in old(db) && e.guid !in old(db)[handle])) ==>
        (status == Success <==> installRefusals == old(installRefusals))
    {
      var refused: bool := *;
      if handle != NULL && (handle !in db || e.guid in db[handle]) {
        return Error, handle;
      }
      if refused {
        installRefusals := installRefusals + 1;
        return Error, handle;
      }
      result := handle;
      if handle == NULL {
        result :| result != NULL && result !in db by { FreshHandle(db); }
      }
      db := db[result := OnHandle(db, result)[e.guid := e.interface]];
      assert e.guid in db[result];
      status := Success;
    }

    /** UninstallProtocolInterface: the pair must be there, and the firmware may refuse; with its last protocol
        the handle goes. */
    method UninstallProtocolInterface(handle: Handle, e: Entry) returns (status: Status)
      requires Sound()
      modifies this`db, this`refusals
      ensures Sound() && old(refusals) <= refusals <= old(refusals) + 1
      ensures db == if refusals == old(refusals) then Uninstalled(old(db), handle, e) else old(db)
    {
      var refused: bool := *;
      if handle !in db || e.guid !in db[handle] || db[handle][e.guid] != e.interface {
        return Error;
      }
      if refused {
        refusals := refusals + 1;
        return Error;
      }
      db := Uninstalled(db, handle, e);
      status := Success;
    }

    /** ReinstallProtocolInterface: the old interface must be the one installed, and the firmware may refuse. */
    method ReinstallProtocolInterface(handle: Handle, c: Change) returns (status: Status)
      requires Sound()
      modifies this`db, this`refusals
      ensures Sound() && old(refusals) <= refusals <= old(refusals) + 1
      ensures status == Error ==> db == old(db)
      ensures status == Success ==>
        && refusals == old(refusals) && handle in old(db) && Applies(old(db)[handle], c)
        && db == old(db)[handle := Applied(old(db)[handle], c)]
      ensures refusals == old(refusals) && handle in old(db) && Applies(old(db)[handle], c) ==> status == Success
    {
      var refused: bool := *;
      if handle !in db || !Applies(db[handle], c) {
        return Error;
      }
      if refused {
        refusals := refusals + 1;
        return Error;
      }
      db := db[handle := Applied(db[handle], c)];
      status := Success;
    }
  }

  /** A successful InstallProtocolInterface. */
  predicate Installs(was: Database, handle: Handle, e: Entry, result: Handle, now: Database) {
    && (if handle == NULL then result != NULL && result !in was
        else result == handle && handle in was && e.guid !in was[handle])
    && now == was[result := OnHandle(was, result)[e.guid := e.interface]]
  }

  function OnHandle(db: Database, h: Handle): Installed {
    if h in db then db[h] else map[]
  }

  function Uninstalled(db: Database, h: Handle, e: Entry): Database {
    if h !in db || e.guid !in db[h] || db[h][e.guid] != e.interface then db
    else if db[h] - {e.guid} == map[] then db - {h}
    else db[h := db[h] - {e.guid}]
  }

  lemma FreshHandle(db: Database)
    ensures exists h: Handle :: h != NULL && h !in db
  {
    var bound := Above(db.Keys);
    assert bound !in db;
  }

  lemma Above(s: set<Handle>) returns (bound: Handle)
    ensures bound != NULL && forall h :: h in s ==> h < bound
  {
    bound := 1;
    var rest := s;
    while rest != {}
      invariant rest <= s && bound > 0 && forall h :: h in s && h !in rest ==> h < bound
      decreases rest
    {
      var h :| h in rest;
      if bound <= h {
        bound := h + 1;
      }
      rest := rest - {h};
    }
  }

  // ----- LibInstallProtocolInterfaces -----

  predicate DistinctGuids(es: seq<Entry>) {
    forall i, j :: 0 <= i < j < |es| ==> es[i].guid != es[j].guid
  }

  /** None of the protocols is on the handle yet. */
  predicate NewTo(m: Installed, es: seq<Entry>) {
    forall i :: 0 <= i < |es| ==> es[i].guid !in m
  }

  function AddAll(m: Installed, es: seq<Entry>): Installed {
    if es == [] then m else AddAll(m, es[..|es| - 1])[es[|es| - 1].guid := es[|es| - 1].interface]
  }

  /** The database with the entries added to handle `h`; adding nothing does not make a handle. */
  function With(db: Database, h: Handle, es: seq<Entry>): Database {
    if es == [] then db else db[h := AddAll(OnHandle(db, h), es)]
  }

  lemma {:induction false} AddAllKeys(m: Installed, es: seq<Entry>)
    ensures forall g :: g in AddAll(m, es) <==> g in m || exists i :: 0 <= i < |es| && es[i].guid == g
  {
    if es != [] {
      var front, last := es[..|es| - 1], es[|es| - 1];
      AddAllKeys(m, front);
      forall g
        ensures g in AddAll(m, es) <==> g in m || exists i :: 0 <= i < |es| && es[i].guid == g
      {
        if g == last.guid {
          assert es[|es| - 1].guid == g;
        } else if i :| 0 <= i < |es| && es[i].guid == g {
          assert front[i].guid == g;
        }
      }
    }
  }

  lemma AddStep(m: Installed, es: seq<Entry>, k: nat)
    requires k < |es|
    ensures AddAll(m, es[..k + 1]) == AddAll(m, es[..k])[es[k].guid := es[k].interface]
  {
    assert es[..k + 1][..k] == es[..k];
  }

  function Without(es: seq<Entry>, k: nat): seq<Entry>
    requires k < |es|
  {
    es[..k] + es[k + 1..]
  }

  /** Any one of distinct new entries can be taken out again. */
  lemma {:induction false} RemoveAt(m: Installed, es: seq<Entry>, k: nat)
    requires k < |es| && DistinctGuids(es) && NewTo(m, es)
    ensures es[k].guid in AddAll(m, es) && AddAll(m, es)[es[k].guid] == es[k].interface
    ensures AddAll(m, es) - {es[k].guid} == AddAll(m, Without(es, k))
  {
    var n := |es| - 1;
    var front, last := es[..n], es[n];
    assert es == front + [last];
    WithoutFront(es, k);
    hide *;
    NewFront(m, es);
    AddLast(m, front, last);
    var a := AddAll(m, front);
    if k < n {
      RemoveAt(m, front, k);
      AddLast(m, Without(front, k), last);
      TakenOut(a, last.guid, last.interface, es[k].guid);
    } else {
      assert a[last.guid := last.interface] - {last.guid} == a;
    }
  }

  lemma WithoutFront(es: seq<Entry>, k: nat)
    requires k < |es|
    ensures Without(es, k) == if k == |es| - 1 then es[..k] else Without(es[..|es| - 1], k) + [es[|es| - 1]]
  {}

  /** Distinct new entries but for the last are distinct and new, and do not add what the last does. */
  lemma NewFront(m: Installed, es: seq<Entry>)
    requires es != [] && DistinctGuids(es) && NewTo(m, es)
    ensures var n := |es| - 1;
      && DistinctGuids(es[..n]) && NewTo(m, es[..n]) && es[n].guid !in AddAll(m, es[..n])
      && forall k :: 0 <= k < n ==> es[..n][k] == es[k] && es[k].guid != es[n].guid
  {
    var front := es[..|es| - 1];
    AddAllKeys(m, front);
    hide AddAll;
    assert forall i :: 0 <= i < |front| ==> front[i] == es[i];
  }

  lemma AddLast(m: Installed, es: seq<Entry>, e: Entry)
    ensures AddAll(m, es + [e]) == AddAll(m, es)[e.guid := e.interface]
  {
    assert (es + [e])[..|es|] == es;
  }

  lemma TakenOut(m: Installed, g: Guid, x: Interface, other: Guid)
    requires g != other
    ensures m[g := x] - {other} == (m - {other})[g := x]
  {}

  /** Installing one more entry. */
  lemma WithStep(db: Database, h: Handle, es: seq<Entry>, k: nat)
    requires k < |es|
    ensures var now := With(db, h, es[..k]);
      With(db, h, es[..k + 1]) == now[h := OnHandle(now, h)[es[k].guid := es[k].interface]]
  {
    AddStep(OnHandle(db, h), es, k);
  }

  /** Uninstalling one of the entries that are still there leaves the others. */
  lemma WithoutOne(db: Database, h: Handle, es: seq<Entry>, k: nat)
    requires k < |es| && DistinctGuids(es) && NewTo(OnHandle(db, h), es)
    requires h in db ==> db[h] != map[]
    ensures Uninstalled(With(db, h, es), h, es[k]) == With(db, h, Without(es, k))
  {
    var m, rest := OnHandle(db, h), Without(es, k);
    RemoveAt(m, es, k);
    AddAllKeys(m, rest);
    var now := With(db, h, es);
    assert now[h] == AddAll(m, es);
    if rest == [] {
      assert AddAll(m, rest) == m;
      if h in db {
        assert now[h := m] == db;
      } else {
        assert now - {h} == db;
      }
    } else {
      assert rest[0].guid in AddAll(m, rest);
      assert now[h := AddAll(m, rest)] == db[h := AddAll(m, rest)];
    }
  }

  /** New entries show: only adding none leaves the database as it was. */
  lemma WithIsSameIff(db: Database, h: Handle, es: seq<Entry>)
    requires NewTo(OnHandle(db, h), es)
    ensures With(db, h, es) == db <==> es == []
  {
    AddAllKeys(OnHandle(db, h), es);
    if es != [] {
      assert es[0].guid in With(db, h, es)[h];
    }
  }

  /** What adding new entries comes to: the handle has each of them beside what it had, and no other handle is
      changed. */
  lemma WithMeans(db: Database, h: Handle, es: seq<Entry>)
    requires DistinctGuids(es) && NewTo(OnHandle(db, h), es)
    ensures es == [] ==> With(db, h, es) == db
    ensures es != [] ==> With(db, h, es).Keys == db.Keys + {h}
    ensures forall k :: k in db && k != h ==> With(db, h, es)[k] == db[k]
    ensures forall i :: 0 <= i < |es| ==>
      es[i].guid in With(db, h, es)[h] && With(db, h, es)[h][es[i].guid] == es[i].interface
    ensures h in db ==> forall g :: g in db[h] ==> g in With(db, h, es)[h] && With(db, h, es)[h][g] == db[h][g]
    ensures es != [] ==> forall g :: g in With(db, h, es)[h] ==>
      (h in db && g in db[h]) || exists i :: 0 <= i < |es| && es[i].guid == g
  {
    var m := OnHandle(db, h);
    AddAllKeys(m, es);
    AddAllKeeps(m, es);
    forall i | 0 <= i < |es|
      ensures es[i].guid in AddAll(m, es) && AddAll(m, es)[es[i].guid] == es[i].interface
    {
      RemoveAt(m, es, i);
    }
  }

  lemma {:induction false} AddAllKeeps(m: Installed, es: seq<Entry>)
    requires NewTo(m, es)
    ensures forall g :: g in m ==> g in AddAll(m, es) && AddAll(m, es)[g] == m[g]
  {
    if es != [] {
      AddAllKeeps(m, es[..|es| - 1]);
      assert es[|es| - 1].guid !in m;
    }
  }

  lemma InstallStep(db0: Database, was: Database, h: Handle, es: seq<Entry>, k: nat)
    requires k < |es| && DistinctGuids(es[..k]) && NewTo(OnHandle(db0, h), es[..k])
    requires was == With(db0, h, es[..k]) && es[k].guid !in OnHandle(was, h)
    ensures was[h := OnHandle(was, h)[es[k].guid := es[k].interface]] == With(db0, h, es[..k + 1])
    ensures DistinctGuids(es[..k + 1]) && NewTo(OnHandle(db0, h), es[..k + 1])
  {
    WithStep(db0, h, es, k);
    var m := OnHandle(db0, h);
    AddAllKeys(m, es[..k]);
    assert OnHandle(was, h) == AddAll(m, es[..k]);
    forall i | 0 <= i < k
      ensures es[i].guid != es[k].guid
    {
      assert es[..k][i].guid in AddAll(m, es[..k]);
    }
    assert forall i :: 0 <= i < k ==> es[..k][i] == es[i];
  }

  /** The removal loop has `rest` before it; `kept` is what the firmware has refused to uninstall. */
  ghost predicate Leaving(db: Database, db0: Database, h: Handle, kept: seq<Entry>, rest: seq<Entry>) {
    && db == With(db0, h, kept + rest) && (h in db0 ==> db0[h] != map[])
    && DistinctGuids(kept + rest) && NewTo(OnHandle(db0, h), kept + rest)
  }

  lemma LeavingStep(db: Database, db0: Database, h: Handle, kept: seq<Entry>, rest: seq<Entry>)
    requires rest != [] && Leaving(db, db0, h, kept, rest)
    ensures Leaving(Uninstalled(db, h, rest[0]), db0, h, kept, rest[1..])
    ensures Leaving(db, db0, h, kept + [rest[0]], rest[1..])
  {
    var all := kept + rest;
    assert all[|kept|] == rest[0] && Without(all, |kept|) == kept + rest[1..];
    assert (kept + [rest[0]]) + rest[1..] == all;
    WithoutOne(db0, h, all, |kept|);
    OneLess(all, |kept|, OnHandle(db0, h));
    hide With, Without, Uninstalled, DistinctGuids, NewTo;
  }

  lemma OneLess(es: seq<Entry>, k: nat, m: Installed)
    requires k < |es| && DistinctGuids(es) && NewTo(m, es)
    ensures DistinctGuids(Without(es, k)) && NewTo(m, Without(es, k))
  {}

  lemma LeavingEnds(db: Database, db0: Database, h: Handle, kept: seq<Entry>)
    requires Leaving(db, db0, h, kept, [])
    ensures db == With(db0, h, kept) && NewTo(OnHandle(db0, h), kept)
  {
    assert kept + [] == kept;
  }

  /** The removal loop: it goes through the installed entries from the front. What the firmware refuses to
      uninstall, and only that, is left. */
  method UndoInstalls(fw: Firmware, handle: Handle, es: seq<Entry>, count: nat, ghost db0: Database)
    returns (ghost kept: seq<Entry>)
    requires fw.Sound() && count <= |es| && Leaving(fw.db, db0, handle, [], es[..count])
    modifies fw`db, fw`refusals
    ensures fw.Sound() && fw.db == With(db0, handle, kept) && NewTo(OnHandle(db0, handle), kept)
    ensures fw.refusals == old(fw.refusals) + |kept| && |kept| <= count
  {
    hide *;
    var index, k := count, 0;
    ghost var rest := es[..count];
    kept := [];
    while index != 0
      invariant index + k == count && k <= count && fw.Sound() && rest == es[k..count]
      invariant Leaving(fw.db, db0, handle, kept, rest)
      invariant fw.refusals == old(fw.refusals) + |kept| && |kept| <= k
    {
      assert rest[0] == es[k] && rest[1..] == es[k + 1..count];
      LeavingStep(fw.db, db0, handle, kept, rest);
      ghost var was := fw.refusals;
      var ignored := fw.UninstallProtocolInterface(handle, es[k]);
      if fw.refusals != was {
        kept := kept + [es[k]];
      }
      index, k, rest := index - 1, k + 1, rest[1..];
    }
    LeavingEnds(fw.db, db0, handle, kept);
  }

  /** LibInstallProtocolInterfaces: all of the list or, exactly as long as the firmware refuses none of the
      uninstalls, nothing; the task priority is as it was. */
  method LibInstallProtocolInterfaces(fw: Firmware, handle: Handle, es: seq<Entry>)
    returns (status: Status, result: Handle)
    requires fw.Sound() && fw.tpl <= TPL_NOTIFY
    modifies fw
    ensures fw.Sound() && fw.tpl == old(fw.tpl)
    ensures status == Success <==>
      && fw.installRefusals == old(fw.installRefusals)
      && (es == [] ||
           ((handle == NULL || handle in old(fw.db)) && DistinctGuids(es) && NewTo(OnHandle(old(fw.db), handle), es)))
    ensures status == Error ==> result == handle && (fw.db == old(fw.db) <==> fw.refusals == old(fw.refusals))
    ensures status == Success ==>
      && fw.refusals == old(fw.refusals) && fw.db == With(old(fw.db), result, es)
      && DistinctGuids(es) && NewTo(OnHandle(old(fw.db), result), es)
      && (if handle == NULL && es != [] then result != NULL && result !in old(fw.db) else result == handle)
  {
    ghost var db0 := fw.db;
    NothingSoFar(db0, handle, es);
    TplFits(fw.tpl);
    hide *;
    assert es[..0] == [];
    var oldTpl := fw.RaiseTPL(TPL_NOTIFY);
    var index: nat := 0;
    status, result := Success, handle;
    while status == Success && index < |es|
      invariant index <= |es| && fw.Sound() && fw.refusals == old(fw.refusals)
      invariant SoFar(db0, handle, fw.db, result, es, index)
      invariant status == Success && fw.installRefusals == old(fw.installRefusals)
      decreases |es| - index
    {
      ghost var was, onto := fw.db, result;
      status, result := fw.InstallProtocolInterface(result, es[index]);
      if status == Error {
        if fw.installRefusals == old(fw.installRefusals) {
          InstallFails(db0, handle, was, onto, es, index);
        }
        break;
      }
      InstallTurn(db0, handle, was, onto, es, index, result, fw.db);
      index := index + 1;
    }
    SoFarEnds(db0, handle, fw.db, result, es, index);
    if status == Error {
      ghost var kept := UndoInstalls(fw, result, es, index, db0);
      WithIsSameIff(db0, result, kept);
      result := handle;
    }
    fw.RestoreTPL(oldTpl);
  }

  lemma TplFits(tpl: nat)
    requires tpl <= TPL_NOTIFY
    ensures tpl <= TPL_NOTIFY
  {}

  /** The first `k` entries of the list are installed. */
  ghost predicate SoFar(db0: Database, handle: Handle, db: Database, result: Handle, es: seq<Entry>, k: nat) {
    && k <= |es| && db == With(db0, result, es[..k]) && (forall h :: h in db0 ==> db0[h] != map[])
    && DistinctGuids(es[..k]) && NewTo(OnHandle(db0, result), es[..k])
    && NULL !in db0 && (k > 0 ==> handle == NULL || handle in db0)
    && if handle == NULL && k > 0 then result != NULL && result !in db0 else result == handle
  }

  lemma NothingSoFar(db0: Database, handle: Handle, es: seq<Entry>)
    requires NULL !in db0 && forall h :: h in db0 ==> db0[h] != map[]
    ensures SoFar(db0, handle, db0, handle, es, 0)
  {}

  lemma InstallTurn(db0: Database, handle: Handle, was: Database, onto: Handle, es: seq<Entry>, k: nat,
                    result: Handle, now: Database)
    requires k < |es| && SoFar(db0, handle, was, onto, es, k) && Installs(was, onto, es[k], result, now)
    ensures SoFar(db0, handle, now, result, es, k + 1)
  {
    if onto == NULL {
      assert k > 0 ==> handle != NULL;
      assert es[..k] == [];
    }
    InstallStep(db0, was, result, es, k);
    hide With, AddAll, DistinctGuids, NewTo, OnHandle;
  }

  lemma SoFarEnds(db0: Database, handle: Handle, db: Database, result: Handle, es: seq<Entry>, k: nat)
    requires SoFar(db0, handle, db, result, es, k)
    ensures Leaving(db, db0, result, [], es[..k])
    ensures k == |es| ==>
      && db == With(db0, result, es) && DistinctGuids(es) && NewTo(OnHandle(db0, result), es)
      && if handle == NULL && es != [] then result != NULL && result !in db0 else result == handle
    ensures k == |es| && es != [] ==>
      (handle == NULL || handle in db0) && DistinctGuids(es) && NewTo(OnHandle(db0, handle), es)
  {
    assert [] + es[..k] == es[..k];
    assert k == |es| ==> es[..k] == es;
    assert handle == NULL ==> NewTo(OnHandle(db0, handle), es);
    hide With, DistinctGuids, NewTo, OnHandle;
  }

  /** The next install is not in order only when the list as a whole is not. */
  lemma InstallFails(db0: Database, handle: Handle, was: Database, onto: Handle, es: seq<Entry>, k: nat)
    requires k < |es| && SoFar(db0, handle, was, onto, es, k)
    requires onto != NULL && (onto !in was || es[k].guid in was[onto])
    ensures !((handle == NULL || handle in db0) && DistinctGuids(es) && NewTo(OnHandle(db0, handle), es))
  {
    var m := OnHandle(db0, onto);
    AddAllKeys(m, es[..k]);
    if k > 0 {
      assert was[onto] == AddAll(m, es[..k]);
      if es[k].guid !in m {
        var i :| 0 <= i < k && es[..k][i].guid == es[k].guid;
        assert es[i].guid == es[k].guid;
      }
    }
  }

  // ----- LibReinstallProtocolInterfaces -----

  predicate Applies(m: Installed, c: Change) {
    c.guid in m && m[c.guid] == c.before
  }

  function Applied(m: Installed, c: Change): Installed {
    m[c.guid := c.after]
  }

  function Reversed(c: Change): Change {
    Change(c.guid, c.after, c.before)
  }

  /** The changes applied in order, as far as they apply; one that does not apply changes nothing. */
  function Run(m: Installed, cs: seq<Change>): Installed {
    if cs == [] then m else
      var prev := Run(m, cs[..|cs| - 1]);
      var c := cs[|cs| - 1];
      if Applies(prev, c) then Applied(prev, c) else prev
  }

  predicate AllApply(m: Installed, cs: seq<Change>) {
    cs == [] || (AllApply(m, cs[..|cs| - 1]) && Applies(Run(m, cs[..|cs| - 1]), cs[|cs| - 1]))
  }

  function ReversedAll(cs: seq<Change>): (rs: seq<Change>)
    ensures |rs| == |cs| && forall i :: 0 <= i < |cs| ==> rs[i] == Reversed(cs[i])
  {
    seq(|cs|, i requires 0 <= i < |cs| => Reversed(cs[i]))
  }

  lemma RunStep(m: Installed, cs: seq<Change>, k: nat)
    requires k < |cs|
    ensures var prev := Run(m, cs[..k]);
      Run(m, cs[..k + 1]) == if Applies(prev, cs[k]) then Applied(prev, cs[k]) else prev
    ensures AllApply(m, cs[..k + 1]) <==> AllApply(m, cs[..k]) && Applies(Run(m, cs[..k]), cs[k])
  {
    assert cs[..k + 1][..k] == cs[..k];
  }

  /** No change of the list is to this protocol. */
  predicate Unnamed(cs: seq<Change>, g: Guid) {
    forall k :: 0 <= k < |cs| ==> cs[k].guid != g
  }

  /** Changes that apply leave every protocol with what the last change to it says. */
  lemma {:induction false} RunMeans(m: Installed, cs: seq<Change>)
    requires AllApply(m, cs)
    ensures Run(m, cs).Keys == m.Keys
    ensures forall i :: 0 <= i < |cs| && Unnamed(cs[i + 1..], cs[i].guid) ==>
      cs[i].guid in m && Run(m, cs)[cs[i].guid] == cs[i].after
    ensures forall g :: g in m && Unnamed(cs, g) ==> Run(m, cs)[g] == m[g]
  {
    if cs != [] {
      var n := |cs| - 1;
      LastRun(m, cs);
      hide Run, AllApply, Applies, Unnamed;
      RunMeans(m, cs[..n]);
      forall i | 0 <= i < n && Unnamed(cs[i + 1..], cs[i].guid)
        ensures cs[i].guid in m && Run(m, cs)[cs[i].guid] == cs[i].after
      {
        NotLast(cs, i);
        assert cs[..n][i] == cs[i];
      }
      forall g | g in m && Unnamed(cs, g)
        ensures Run(m, cs)[g] == m[g]
      {
        NotNamed(cs, g);
      }
    }
  }

  lemma LastRun(m: Installed, cs: seq<Change>)
    requires AllApply(m, cs) && cs != []
    ensures var last, prev := cs[|cs| - 1], Run(m, cs[..|cs| - 1]);
      AllApply(m, cs[..|cs| - 1]) && last.guid in prev && Run(m, cs) == prev[last.guid := last.after]
  {}

  lemma NotNamed(cs: seq<Change>, g: Guid)
    requires cs != [] && Unnamed(cs, g)
    ensures cs[|cs| - 1].guid != g && Unnamed(cs[..|cs| - 1], g)
  {}

  lemma NotLast(cs: seq<Change>, i: nat)
    requires i < |cs| - 1 && Unnamed(cs[i + 1..], cs[i].guid)
    ensures Unnamed(cs[..|cs| - 1][i + 1..], cs[i].guid) && cs[|cs| - 1].guid != cs[i].guid
  {
    var n := |cs| - 1;
    var rest := cs[i + 1..];
    assert rest[|rest| - 1] == cs[n];
    assert cs[..n][i + 1..] == rest[..|rest| - 1];
  }

  /** The last change to a protocol, if there is one. */
  lemma {:induction false} LastNamed(cs: seq<Change>, g: Guid) returns (i: nat)
    requires !Unnamed(cs, g)
    ensures i < |cs| && cs[i].guid == g && Unnamed(cs[i + 1..], g)
  {
    var n := |cs| - 1;
    if cs[n].guid == g {
      i := n;
    } else {
      assert forall k :: 0 <= k < n ==> cs[..n][k] == cs[k];
      i := LastNamed(cs[..n], g);
      assert cs[i + 1..] == cs[..n][i + 1..] + [cs[n]];
    }
  }

  /** A change can be made exactly when it names the interface that the last change to its protocol left, or, if
      there is none, the one the handle had at the start. */
  lemma MoreApplyIff(m: Installed, cs: seq<Change>, c: Change)
    requires AllApply(m, cs)
    ensures AllApply(m, cs + [c]) <==>
      && c.guid in m && (Unnamed(cs, c.guid) ==> m[c.guid] == c.before)
      && forall i :: 0 <= i < |cs| && cs[i].guid == c.guid && Unnamed(cs[i + 1..], c.guid) ==> cs[i].after == c.before
  {
    var all := cs + [c];
    assert all[..|cs|] == cs && all[|cs|] == c;
    RunMeans(m, cs);
    if !Unnamed(cs, c.guid) {
      var i := LastNamed(cs, c.guid);
      assert Run(m, cs)[c.guid] == cs[i].after;
    }
  }

  /** What is left after the changes and the loop that undoes them. */
  function AfterUndo(m: Installed, cs: seq<Change>): Installed {
    Run(Run(m, cs), ReversedAll(cs))
  }

  /** The database with handle `h` carrying `m`; a handle that is not there stays away. */
  function Having(db: Database, h: Handle, m: Installed): Database {
    if h in db then db[h := m] else db
  }

  predicate DistinctChanges(cs: seq<Change>) {
    forall i, j :: 0 <= i < j < |cs| ==> cs[i].guid != cs[j].guid
  }

  /** What a run of changes with distinct protocols makes of one protocol. */
  lemma {:induction false} RunAt(m: Installed, cs: seq<Change>, g: Guid)
    requires DistinctChanges(cs) && forall i :: 0 <= i < |cs| ==> Applies(m, cs[i])
    ensures AllApply(m, cs) && Run(m, cs).Keys == m.Keys
    ensures (forall i :: 0 <= i < |cs| ==> cs[i].guid != g) ==> (g in m ==> Run(m, cs)[g] == m[g])
    ensures forall i :: 0 <= i < |cs| && cs[i].guid == g ==> g in Run(m, cs) && Run(m, cs)[g] == cs[i].after
  {
    if cs != [] {
      var front, last := cs[..|cs| - 1], cs[|cs| - 1];
      RunAt(m, front, g);
      RunAt(m, front, last.guid);
      assert forall i :: 0 <= i < |front| ==> front[i] == cs[i];
    }
  }

  /** Changes that apply one after the other, with distinct protocols, all apply to the start. */
  lemma {:induction false} ApplyFromStart(m: Installed, cs: seq<Change>)
    requires DistinctChanges(cs) && AllApply(m, cs)
    ensures forall i :: 0 <= i < |cs| ==> Applies(m, cs[i])
  {
    if cs != [] {
      var front, last := cs[..|cs| - 1], cs[|cs| - 1];
      ApplyFromStart(m, front);
      RunAt(m, front, last.guid);
      assert forall i :: 0 <= i < |front| ==> front[i] == cs[i];
    }
  }

  /** With distinct protocols the undo restores everything. */
  lemma UndoneWhenDistinct(m: Installed, cs: seq<Change>)
    requires DistinctChanges(cs) && AllApply(m, cs)
    ensures AfterUndo(m, cs) == m
  {
    ApplyFromStart(m, cs);
    var now, rs := Run(m, cs), ReversedAll(cs);
    forall i | 0 <= i < |rs|
      ensures Applies(now, rs[i])
    {
      RunAt(m, cs, cs[i].guid);
    }
    var back := Run(now, rs);
    RunAt(now, rs, 0);
    RunAt(m, cs, 0);
    forall g | g in m
      ensures back[g] == m[g]
    {
      RunAt(now, rs, g);
      RunAt(m, cs, g);
      if i :| 0 <= i < |cs| && cs[i].guid == g {
        assert rs[i].guid == g && rs[i].after == cs[i].before;
      }
    }
  }

  // ----- an undo of which some is refused -----

  /** The changes applied in order, but for those at the places `skip`. */
  function RunExcept(m: Installed, cs: seq<Change>, skip: set<nat>): Installed {
    if cs == [] then m else
      var k := |cs| - 1;
      var prev := RunExcept(m, cs[..k], skip);
      if k !in skip && Applies(prev, cs[k]) then Applied(prev, cs[k]) else prev
  }

  lemma {:induction false} NoneSkipped(m: Installed, cs: seq<Change>)
    ensures RunExcept(m, cs, {}) == Run(m, cs)
  {
    if cs != [] {
      NoneSkipped(m, cs[..|cs| - 1]);
    }
  }

  lemma RunExceptStep(m: Installed, cs: seq<Change>, skip: set<nat>, k: nat)
    requires k < |cs|
    ensures var prev := RunExcept(m, cs[..k], skip);
      RunExcept(m, cs[..k + 1], skip) == if k !in skip && Applies(prev, cs[k]) then Applied(prev, cs[k]) else prev
  {
    assert cs[..k + 1][..k] == cs[..k];
  }

  /** What such a run of changes with distinct protocols makes of one protocol. */
  lemma {:induction false} RunExceptAt(m: Installed, cs: seq<Change>, skip: set<nat>, g: Guid)
    requires DistinctChanges(cs) && forall i :: 0 <= i < |cs| ==> Applies(m, cs[i])
    ensures RunExcept(m, cs, skip).Keys == m.Keys
    ensures g in m && (forall i: nat :: i < |cs| && cs[i].guid == g ==> i in skip) ==> RunExcept(m, cs, skip)[g] == m[g]
    ensures forall i: nat :: i < |cs| && cs[i].guid == g && i !in skip ==>
      g in m && RunExcept(m, cs, skip)[g] == cs[i].after
  {
    if cs != [] {
      var front, last := cs[..|cs| - 1], cs[|cs| - 1];
      assert forall i :: 0 <= i < |front| ==> front[i] == cs[i];
      RunExceptAt(m, front, skip, g);
      RunExceptAt(m, front, skip, last.guid);
    }
  }

  /** After the changes `cs` to `m` an undo of which the places `refused` are refused leaves the new interface
      exactly there. */
  lemma RefusedKept(m: Installed, cs: seq<Change>, refused: set<nat>)
    requires DistinctChanges(cs) && AllApply(m, cs)
    ensures var left := RunExcept(Run(m, cs), ReversedAll(cs), refused);
      && left.Keys == m.Keys
      && (forall i: nat :: i < |cs| ==>
            Applies(m, cs[i]) && left[cs[i].guid] == if i in refused then cs[i].after else cs[i].before)
      && forall g :: g in m && (forall i: nat :: i < |cs| ==> cs[i].guid != g) ==> left[g] == m[g]
  {
    ApplyFromStart(m, cs);
    var now, rs := Run(m, cs), ReversedAll(cs);
    assert now.Keys == m.Keys by { RunAt(m, cs, 0); }
    forall i | 0 <= i < |rs|
      ensures Applies(now, rs[i])
    {
      RunAt(m, cs, cs[i].guid);
    }
    hide Run, RunExcept, AllApply, ReversedAll;
    RunExceptAt(now, rs, refused, 0);
    forall i: nat | i < |cs|
      ensures RunExcept(now, rs, refused)[cs[i].guid] == if i in refused then cs[i].after else cs[i].before
    {
      RunAt(m, cs, cs[i].guid);
      RunExceptAt(now, rs, refused, cs[i].guid);
      assert rs[i].guid == cs[i].guid && rs[i].after == cs[i].before;
    }
    forall g | g in m && forall i: nat :: i < |cs| ==> cs[i].guid != g
      ensures RunExcept(now, rs, refused)[g] == m[g]
    {
      RunAt(m, cs, g);
      RunExceptAt(now, rs, refused, g);
    }
  }

  /** So the handle is as before exactly when only changes that change nothing are refused to be undone. */
  lemma UndoneDespiteIff(m: Installed, cs: seq<Change>, refused: set<nat>)
    requires DistinctChanges(cs) && AllApply(m, cs)
    ensures RunExcept(Run(m, cs), ReversedAll(cs), refused) == m
      <==> forall i: nat :: i in refused && i < |cs| ==> cs[i].before == cs[i].after
  {
    RefusedKept(m, cs, refused);
    var left := RunExcept(Run(m, cs), ReversedAll(cs), refused);
    hide Run, RunExcept, AllApply, ReversedAll;
    if forall i: nat :: i in refused && i < |cs| ==> cs[i].before == cs[i].after {
      forall g | g in m
        ensures left[g] == m[g]
      {
        if i: nat :| i < |cs| && cs[i].guid == g {
          assert Applies(m, cs[i]);
        }
      }
    } else {
      var i: nat :| i in refused && i < |cs| && cs[i].before != cs[i].after;
      assert left[cs[i].guid] == cs[i].after && Applies(m, cs[i]);
    }
  }

  /** One turn of the undo loop. */
  lemma UndoTurn(db0: Database, passed: Handle, m: Installed, rs: seq<Change>, k: nat, skip: set<nat>, now: Database,
                 refused: bool)
    requires k < |rs|
    requires var was := Having(db0, passed, RunExcept(m, rs[..k], skip));
      if passed in was && Applies(was[passed], rs[k]) && !refused
      then now == was[passed := Applied(was[passed], rs[k])] else now == was
    ensures now == Having(db0, passed, RunExcept(m, rs[..k + 1], if refused then skip + {k} else skip - {k}))
  {
    var skip' := if refused then skip + {k} else skip - {k};
    SameBelow(m, rs[..k], skip, skip');
    RunExceptStep(m, rs, skip', k);
  }

  lemma {:induction false} SameBelow(m: Installed, cs: seq<Change>, skip: set<nat>, skip': set<nat>)
    requires forall i: nat :: i < |cs| ==> (i in skip <==> i in skip')
    ensures RunExcept(m, cs, skip) == RunExcept(m, cs, skip')
  {
    if cs != [] {
      SameBelow(m, cs[..|cs| - 1], skip, skip');
    }
  }

  /** The undo loop; `refused` are the places of the changes that the firmware refuses to undo. */
  method UndoReinstalls(fw: Firmware, passed: Handle, cs: seq<Change>, count: nat,
                        ghost db0: Database, ghost m: Installed) returns (ghost refused: set<nat>)
    requires fw.Sound() && count <= |cs| && fw.db == Having(db0, passed, m)
    modifies fw`db, fw`refusals
    ensures fw.Sound() && fw.refusals == old(fw.refusals) + |refused| && forall i :: i in refused ==> i < count
    ensures fw.db == Having(db0, passed, RunExcept(m, ReversedAll(cs[..count]), refused))
  {
    ghost var rs := ReversedAll(cs[..count]);
    var index, k := count, 0;
    refused := {};
    assert rs[..0] == [] && rs[..count] == rs;
    hide RunExcept, ReversedAll, Having;
    while index != 0
      invariant index + k == count && k <= count && fw.Sound()
      invariant fw.refusals == old(fw.refusals) + |refused| && forall i :: i in refused ==> i < k
      invariant fw.db == Having(db0, passed, RunExcept(m, rs[..k], refused))
    {
      ghost var before := fw.refusals;
      var ignored := fw.ReinstallProtocolInterface(passed, Reversed(cs[k]));
      UndoTurn(db0, passed, m, rs, k, refused, fw.db, fw.refusals > before);
      assert refused - {k} == refused;
      refused := if fw.refusals > before then refused + {k} else refused;
      index, k := index - 1, k + 1;
    }
  }

  /** LibReinstallProtocolInterfaces. `passed` is the EFI_HANDLE pointer it is given and hands on to the
      firmware as it is, although its prototype says that it points to the handle. On an error the changes
      already made, the first `done` of the list, are run backwards, each with its interfaces exchanged, but
      again from the front; those at the places `refused` the firmware refuses. */
  method LibReinstallProtocolInterfaces(fw: Firmware, passed: Handle, cs: seq<Change>)
    returns (status: Status, ghost done: nat, ghost refused: set<nat>)
    requires fw.Sound() && fw.tpl <= TPL_NOTIFY
    modifies fw
    ensures fw.tpl == old(fw.tpl) && fw.Sound() && done <= |cs| && forall i :: i in refused ==> i < done
    ensures AllApply(OnHandle(old(fw.db), passed), cs[..done])
    ensures status == Success <==>
      && fw.refusals == old(fw.refusals) + |refused|
      && (cs == [] || (passed in old(fw.db) && AllApply(OnHandle(old(fw.db), passed), cs)))
    ensures status == Success ==> done == |cs| && refused == {}
    ensures status == Success ==>
      fw.db == if cs == [] then old(fw.db) else old(fw.db)[passed := Run(OnHandle(old(fw.db), passed), cs)]
    ensures status == Error && fw.refusals == old(fw.refusals) + |refused| ==>
      done < |cs| && (passed !in old(fw.db) || !AllApply(OnHandle(old(fw.db), passed), cs[..done + 1]))
    ensures status == Error ==> done < |cs| && var m := OnHandle(old(fw.db), passed);
      fw.db == Having(old(fw.db), passed, RunExcept(Run(m, cs[..done]), ReversedAll(cs[..done]), refused))
    ensures status == Error && refused == {} ==>
      fw.db == Having(old(fw.db), passed, AfterUndo(OnHandle(old(fw.db), passed), cs[..done]))
    ensures status == Error && DistinctChanges(cs[..done]) ==>
      (fw.db == old(fw.db) <==> forall i :: i in refused ==> cs[i].before == cs[i].after)
    ensures cs != [] && passed !in old(fw.db) ==> status == Error && fw.db == old(fw.db)
  {
    hide *;
    var oldTpl := fw.RaiseTPL(TPL_NOTIFY);
    ghost var db0, m := fw.db, OnHandle(fw.db, passed);
    refused := {};
    var index: nat;
    status, index := ReinstallAll(fw, passed, cs);
    done := index;
    if status == Error {
      refused := UndoReinstalls(fw, passed, cs, index, db0, Run(m, cs[..index]));
      NoneRefused(m, cs[..done]);
      RestoredIff(db0, passed, cs[..done], refused);
      NoSuchHandle(db0, passed, RunExcept(Run(m, cs[..done]), ReversedAll(cs[..done]), refused));
      if AllApply(m, cs) {
        FrontApplies(m, cs, done + 1);
      }
    } else {
      WholeRun(db0, passed, cs);
    }
    fw.RestoreTPL(oldTpl);
  }

  /** The first loop: the changes up to the first that the firmware does not make. */
  method ReinstallAll(fw: Firmware, passed: Handle, cs: seq<Change>) returns (status: Status, index: nat)
    requires fw.Sound()
    modifies fw`db, fw`refusals
    ensures fw.Sound() && index <= |cs| && (index == |cs| ==> cs[..index] == cs)
    ensures status == Success <==> index == |cs|
    ensures AllApply(OnHandle(old(fw.db), passed), cs[..index])
    ensures fw.db == Having(old(fw.db), passed, Run(OnHandle(old(fw.db), passed), cs[..index]))
    ensures passed !in old(fw.db) ==> index == 0
    ensures status == Success ==>
      && fw.refusals == old(fw.refusals)
      && (cs == [] || (passed in old(fw.db) && AllApply(OnHandle(old(fw.db), passed), cs)))
    ensures status == Error && fw.refusals == old(fw.refusals) ==>
      passed !in old(fw.db) || !AllApply(OnHandle(old(fw.db), passed), cs[..index + 1])
    ensures old(fw.refusals) <= fw.refusals
  {
    ghost var db0, m := fw.db, OnHandle(fw.db, passed);
    index := 0;
    status := Success;
    assert Having(db0, passed, m) == db0 && cs[..0] == [];
    while status == Success && index < |cs|
      invariant status == Success && index <= |cs| && fw.Sound() && AllApply(m, cs[..index])
      invariant fw.db == Having(db0, passed, Run(m, cs[..index])) && (passed !in db0 ==> index == 0)
      invariant fw.refusals == old(fw.refusals)
      decreases |cs| - index
    {
      RunStep(m, cs, index);
      status := fw.ReinstallProtocolInterface(passed, cs[index]);
      if status == Error {
        break;
      }
      index := index + 1;
    }
    assert index == |cs| ==> cs[..index] == cs;
  }

  lemma NoneRefused(m: Installed, cs: seq<Change>)
    ensures RunExcept(Run(m, cs), ReversedAll(cs), {}) == AfterUndo(m, cs)
  {
    NoneSkipped(Run(m, cs), ReversedAll(cs));
  }

  /** What applies as a whole applies as far as one likes. */
  lemma {:induction false} FrontApplies(m: Installed, cs: seq<Change>, k: nat)
    requires AllApply(m, cs) && k <= |cs|
    ensures AllApply(m, cs[..k])
  {
    if k < |cs| {
      FrontApplies(m, cs[..|cs| - 1], k);
      assert cs[..|cs| - 1][..k] == cs[..k];
    } else {
      assert cs[..k] == cs;
    }
  }

  lemma WholeRun(db: Database, h: Handle, cs: seq<Change>)
    requires cs == [] || h in db
    ensures Having(db, h, Run(OnHandle(db, h), cs)) == if cs == [] then db else db[h := Run(OnHandle(db, h), cs)]
  {
    assert h in db ==> db[h := db[h]] == db;
  }

  lemma NoSuchHandle(db: Database, h: Handle, m: Installed)
    ensures h !in db ==> Having(db, h, m) == db
  {}

  lemma RestoredIff(db: Database, passed: Handle, cs: seq<Change>, refused: set<nat>)
    requires AllApply(OnHandle(db, passed), cs) && (forall i :: i in refused ==> i < |cs|)
    requires passed !in db ==> cs == []
    ensures var left := RunExcept(Run(OnHandle(db, passed), cs), ReversedAll(cs), refused);
      DistinctChanges(cs) ==>
        (Having(db, passed, left) == db <==> forall i :: i in refused ==> cs[i].before == cs[i].after)
  {
    if DistinctChanges(cs) {
      UndoneDespiteIff(OnHandle(db, passed), cs, refused);
      hide Run, RunExcept, ReversedAll, AllApply;
    }
  }

  // ----- when the undo does not restore -----

  /** The protocols of a list of changes. */
  predicate For(cs: seq<Change>, gs: seq<Guid>) {
    |cs| == |gs| && forall i :: 0 <= i < |gs| ==> cs[i].guid == gs[i]
  }

  /** The interface of a repeated protocol while the list is worked off: it changes at `i` and at `j`. */
  function Stage(i: nat, j: nat, k: nat): Interface {
    if k <= i then 0 else if k <= j then 1 else 2
  }

  function Repeating(gs: seq<Guid>, i: nat, j: nat): (cs: seq<Change>)
    requires i < j < |gs|
    ensures For(cs, gs)
    ensures forall k :: 0 <= k < |gs| ==>
      cs[k] == if gs[k] == gs[i] then Change(gs[k], Stage(i, j, k), Stage(i, j, k + 1)) else Change(gs[k], 0, 0)
  {
    seq(|gs|, k requires 0 <= k < |gs| =>
      if gs[k] == gs[i] then Change(gs[k], Stage(i, j, k), Stage(i, j, k + 1)) else Change(gs[k], 0, 0))
  }

  function AllZero(gs: seq<Guid>): (m: Installed)
    ensures forall g :: g in m <==> g in gs
    ensures forall g :: g in m ==> m[g] == 0
  {
    map g | g in gs :: 0
  }

  /** One change of the list, on the handle with the repeated protocol at `x`. */
  lemma RepeatingStep(gs: seq<Guid>, g: Guid, c: Change, x: Interface)
    requires g in gs && c.guid in gs && (c.guid != g ==> c.before == 0 && c.after == 0)
    ensures var now := AllZero(gs)[g := x];
      && (Applies(now, c) <==> c.guid != g || c.before == x)
      && (Applies(now, c) ==> Applied(now, c) == AllZero(gs)[g := if c.guid == g then c.after else x])
  {}

  lemma {:induction false} RepeatingRuns(gs: seq<Guid>, i: nat, j: nat, k: nat)
    requires i < j < |gs| && gs[i] == gs[j] && k <= |gs|
    ensures AllApply(AllZero(gs), Repeating(gs, i, j)[..k])
    ensures Run(AllZero(gs), Repeating(gs, i, j)[..k]) == AllZero(gs)[gs[i] := Stage(i, j, k)]
  {
    var cs, m := Repeating(gs, i, j), AllZero(gs);
    if k == 0 {
      assert cs[..0] == [] && gs[i] in m;
    } else {
      hide Run, AllApply, AllZero, Applies, Applied;
      RepeatingRuns(gs, i, j, k - 1);
      RunStep(m, cs, k - 1);
      RepeatingStep(gs, gs[i], cs[k - 1], Stage(i, j, k - 1));
    }
  }

  function UndoStage(j: nat, k: nat): Interface {
    if k <= j then 2 else 1
  }

  lemma UndoStep(gs: seq<Guid>, i: nat, j: nat, k: nat)
    requires i < j < |gs| && gs[i] == gs[j] && k < |gs|
    ensures var now, c := AllZero(gs)[gs[i] := UndoStage(j, k)], Reversed(Repeating(gs, i, j)[k]);
      (if Applies(now, c) then Applied(now, c) else now) == AllZero(gs)[gs[i] := UndoStage(j, k + 1)]
  {
    var c := Reversed(Repeating(gs, i, j)[k]);
    assert c == if gs[k] == gs[i] then Change(gs[k], Stage(i, j, k + 1), Stage(i, j, k)) else Change(gs[k], 0, 0);
    hide AllZero, Applies, Applied, Repeating;
    RepeatingStep(gs, gs[i], c, UndoStage(j, k));
  }

  lemma {:induction false} RepeatingUndo(gs: seq<Guid>, i: nat, j: nat, k: nat)
    requires i < j < |gs| && gs[i] == gs[j] && k <= |gs|
    ensures Run(AllZero(gs)[gs[i] := 2], ReversedAll(Repeating(gs, i, j))[..k]) == AllZero(gs)[gs[i] := UndoStage(j, k)]
  {
    var now, rs := AllZero(gs)[gs[i] := 2], ReversedAll(Repeating(gs, i, j));
    if k == 0 {
      assert rs[..0] == [];
    } else {
      assert rs[k - 1] == Reversed(Repeating(gs, i, j)[k - 1]);
      hide Run, AllZero, Applies, Applied, UndoStage, Repeating, ReversedAll, Stage;
      RepeatingUndo(gs, i, j, k - 1);
      RunStep(now, rs, k - 1);
      UndoStep(gs, i, j, k - 1);
    }
  }

  predicate Distinct(gs: seq<Guid>) {
    forall i, j :: 0 <= i < j < |gs| ==> gs[i] != gs[j]
  }

  /** For changes to the protocols `gs`, whatever the interfaces, the undo restores the handle exactly
      when no protocol is named twice. */
  lemma UndoneIff(gs: seq<Guid>)
    ensures (forall m, cs :: For(cs, gs) && AllApply(m, cs) ==> AfterUndo(m, cs) == m) <==> Distinct(gs)
  {
    if Distinct(gs) {
      forall m, cs | For(cs, gs) && AllApply(m, cs)
        ensures AfterUndo(m, cs) == m
      {
        UndoneWhenDistinct(m, cs);
      }
    } else {
      var i, j :| 0 <= i < j < |gs| && gs[i] == gs[j];
      var cs, m := Repeating(gs, i, j), AllZero(gs);
      RepeatingRuns(gs, i, j, |gs|);
      RepeatingUndo(gs, i, j, |gs|);
      assert cs[..|gs|] == cs && ReversedAll(cs)[..|gs|] == ReversedAll(cs);
      assert AfterUndo(m, cs)[gs[i]] == 1;
    }
  }
}
