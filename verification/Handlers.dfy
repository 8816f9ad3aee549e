/** hand.c: installing, uninstalling and reinstalling lists of protocol interfaces, on the handler services
    of section 6.3 of the UEFI Specification 2.5. */
module Handlers {
  type Guid = int
  type Interface = int
  type Handle = int

  /** The protocols of one handle. */
  type Protocols = map<Guid, Interface>

  type Database = map<Handle, Protocols>

  const NULL_HANDLE: Handle := 0
  const TPL_NOTIFY := 16

  datatype Status = Success | Error

  // ------------------------------------------------------------------- the protocol database

  /** A handle is there as long as it has a protocol. */
  predicate Proper(db: Database) {
    NULL_HANDLE !in db && forall h :: h in db ==> db[h] != map[]
  }

  function On(db: Database, h: Handle): Protocols {
    if h in db then db[h] else map[]
  }

  function Put(db: Database, h: Handle, ps: Protocols): Database {
    if ps == map[] then db - {h} else db[h := ps]
  }

  lemma PutSame(db: Database, h: Handle)
    requires Proper(db)
    ensures Put(db, h, On(db, h)) == db
  {
  }

  lemma PutAgain(db: Database, h: Handle, ps: Protocols, qs: Protocols)
    ensures On(Put(db, h, ps), h) == ps && Put(Put(db, h, ps), h, qs) == Put(db, h, qs)
    ensures Proper(db) && h != NULL_HANDLE ==> Proper(Put(db, h, ps))
  {
  }

  /** The protocols of one handle are replaced, and those of no other; a handle without any is not there. */
  lemma PutIs(db: Database, h: Handle, ps: Protocols, k: Handle)
    requires Proper(db)
    ensures On(Put(db, h, ps), k) == if k == h then ps else On(db, k)
    ensures k in Put(db, h, ps) <==> if k == h then ps != map[] else k in db
  {
  }

  // ----------------------------------------------------------------------------- the firmware

  class BootServices {
    var db: Database
    var tpl: nat
    var next: Handle
    ghost var shortages: nat
    ghost var raisedTo: nat

    /** What drivers hold on to: ReinstallProtocolInterface answers EFI_ACCESS_DENIED. */
    const held: set<(Handle, Guid)>

    ghost predicate Valid()
      reads this
    {
      Proper(db) && next > NULL_HANDLE && forall h :: h in db ==> h < next
    }

    constructor (held: set<(Handle, Guid)>)
      ensures Valid() && db == map[] && tpl == 4 && this.held == held
    {
      db, tpl, next := map[], 4, 1;
      this.held := held;
    }

    method RaiseTPL(newTpl: nat) returns (oldTpl: nat)
      requires tpl <= newTpl
      modifies this`tpl, this`raisedTo
      ensures oldTpl == old(tpl) && tpl == raisedTo == newTpl
    {
      oldTpl, tpl, raisedTo := tpl, newTpl, newTpl;
    }

    method RestoreTPL(oldTpl: nat)
      requires oldTpl <= tpl
      modifies this`tpl
      ensures tpl == oldTpl
    {
      tpl := oldTpl;
    }

    /** Refuses an unknown handle and a protocol the handle has; may run out of resources; creates the
        handle when it is given none. */
    method InstallProtocolInterface(handle: Handle, protocol: Guid, iface: Interface)
      returns (status: Status, installed: Handle)
      requires Valid()
      modifies this`db, this`next, this`shortages
      ensures Valid()
      ensures status.Error? ==> db == old(db) && installed == handle
      ensures status.Error? ==> if shortages == old(shortages)
                                then Refuses(db, handle, protocol)
                                else shortages == old(shortages) + 1
      ensures status.Success? ==>
        && installed != NULL_HANDLE && shortages == old(shortages)
        && (if handle == NULL_HANDLE then installed !in old(db) else installed == handle && handle in old(db))
        && protocol !in On(old(db), installed)
        && db == Put(old(db), installed, On(old(db), installed)[protocol := iface])
    {
      installed := handle;
      if Refuses(db, handle, protocol) {
        return Error, handle;
      }
      if * {
        shortages := shortages + 1;
        return Error, handle;
      }
      if handle == NULL_HANDLE {
        installed, next := next, next + 1;
      }
      var protocols := if installed in db then db[installed] else map[];
      protocols := protocols[protocol := iface];
      assert protocol in protocols;
      db := db[installed := protocols];
      status := Success;
    }

    /** Removes exactly the interface named; the handle goes with its last protocol. */
    method UninstallProtocolInterface(handle: Handle, protocol: Guid, iface: Interface) returns (status: Status)
      requires Valid()
      modifies this`db
      ensures Valid()
      ensures if protocol in On(old(db), handle) && On(old(db), handle)[protocol] == iface
              then status.Success? && db == Put(old(db), handle, On(old(db), handle) - {protocol})
              else status.Error? && db == old(db)
    {
      if handle !in db || protocol !in db[handle] || db[handle][protocol] != iface {
        return Error;
      }
      if |db[handle]| == 1 {
        OnlyKey(db[handle], protocol);
        db := db - {handle};
      } else {
        MoreKeys(db[handle], protocol);
        db := db[handle := db[handle] - {protocol}];
      }
      status := Success;
    }

    method ReinstallProtocolInterface(handle: Handle, swap: Swap) returns (status: Status)
      requires Valid()
      modifies this`db
      ensures Valid()
      ensures if Fits(On(old(db), handle), swap) && (handle, swap.protocol) !in held
              then status.Success? && db == Put(old(db), handle, Swapped(On(old(db), handle), swap))
              else status.Error? && db == old(db)
    {
      if handle !in db || swap.protocol !in db[handle] || db[handle][swap.protocol] != swap.before ||
         (handle, swap.protocol) in held {
        return Error;
      }
      db := db[handle := db[handle][swap.protocol := swap.after]];
      status := Success;
    }
  }

  lemma OnlyKey(ps: Protocols, p: Guid)
    requires p in ps && |ps| == 1
    ensures ps - {p} == map[]
  {
    assert ps.Keys == {p} by {
      assert |ps.Keys - {p}| == 0;
    }
  }

  lemma MoreKeys(ps: Protocols, p: Guid)
    requires p in ps && |ps| != 1
    ensures ps - {p} != map[]
  {
    assert |ps.Keys - {p}| == |ps.Keys| - 1;
    assert (ps - {p}).Keys == ps.Keys - {p};
  }

  // --------------------------------------------------------------- installing a list of protocols

  datatype Pair = Pair(protocol: Guid, iface: Interface)

  predicate DistinctProtocols(args: seq<Pair>) {
    forall i, j :: 0 <= i < j < |args| ==> args[i].protocol != args[j].protocol
  }

  predicate Absent(ps: Protocols, args: seq<Pair>) {
    forall i :: 0 <= i < |args| ==> args[i].protocol !in ps
  }

  /** What a caller can check before the call. */
  predicate Acceptable(db: Database, handle: Handle, args: seq<Pair>) {
    && (args == [] || handle == NULL_HANDLE || handle in db)
    && DistinctProtocols(args) && Absent(On(db, handle), args)
  }

  function Added(ps: Protocols, args: seq<Pair>): Protocols {
    if args == [] then ps
    else
      var last := args[|args| - 1];
      Added(ps, args[..|args| - 1])[last.protocol := last.iface]
  }

  /** Exactly the protocols of the list are there in addition, each with its interface. */
  lemma {:induction false} AddedIs(ps: Protocols, args: seq<Pair>)
    requires DistinctProtocols(args) && Absent(ps, args)
    ensures Added(ps, args).Keys == ps.Keys + (set i | 0 <= i < |args| :: args[i].protocol)
    ensures forall p :: p in ps ==> Added(ps, args)[p] == ps[p]
    ensures forall i :: 0 <= i < |args| ==> Added(ps, args)[args[i].protocol] == args[i].iface
    decreases |args|
  {
    if args != [] {
      var n := |args| - 1;
      var front := args[..n];
      AddedIs(ps, front);
      assert forall i :: 0 <= i < n ==> front[i] == args[i];
      forall i | 0 <= i < n
        ensures Added(ps, args)[args[i].protocol] == args[i].iface
      {
        assert args[i].protocol != args[n].protocol;
      }
    }
  }

  /** Taking the first one away again leaves what the others add. */
  lemma {:induction false} FirstRemoved(ps: Protocols, args: seq<Pair>)
    requires args != [] && DistinctProtocols(args) && Absent(ps, args)
    ensures args[0].protocol in Added(ps, args) && Added(ps, args)[args[0].protocol] == args[0].iface
    ensures Added(ps, args) - {args[0].protocol} == Added(ps, args[1..])
    decreases |args|
  {
    var n := |args| - 1;
    AddedIs(ps, args);
    if n == 0 {
      assert args[..0] == [] == args[1..];
    } else {
      FirstRemoved(ps, args[..n]);
      assert args[..n][1..] == args[1..][..n - 1];
      assert args[1..][n - 1] == args[n];
    }
  }

  /** LibInstallProtocolInterfaces: all of them or none. */
  method LibInstallProtocolInterfaces(bs: BootServices, handle: Handle, args: seq<Pair>)
    returns (status: Status, installed: Handle)
    requires bs.Valid() && bs.tpl <= 16
    modifies bs
    ensures bs.Valid() && bs.tpl == old(bs.tpl) && bs.raisedTo == 16
    ensures status.Success? <==> bs.shortages == old(bs.shortages) && Acceptable(old(bs.db), handle, args)
    ensures status.Success? <==>
      && bs.shortages == old(bs.shortages) && (args == [] || handle == 0 || handle in old(bs.db))
      && (forall i, j :: 0 <= i < j < |args| ==> args[i].protocol != args[j].protocol)
      && (forall i :: 0 <= i < |args| && handle in old(bs.db) ==> args[i].protocol !in old(bs.db)[handle])
    ensures status.Success? ==>
      && bs.db == Put(old(bs.db), installed, Added(On(old(bs.db), installed), args))
      && (if handle != NULL_HANDLE || args == [] then installed == handle
          else installed != NULL_HANDLE && installed !in old(bs.db))
    ensures status.Error? ==> bs.db == old(bs.db) && installed == handle
  {
    var oldTpl := bs.RaiseTPL(TPL_NOTIFY);
    ghost var db0, short := bs.db, bs.shortages;
    installed, status := handle, Success;
    var Index := 0;
    PutSame(db0, handle);
    assert args[..0] == [];
    while Index < |args|
      invariant 0 <= Index <= |args| && bs.Valid() && bs.tpl == bs.raisedTo == TPL_NOTIFY && status.Success?
      invariant Index == 0 || handle != NULL_HANDLE ==> installed == handle
      invariant Index > 0 ==> installed != NULL_HANDLE && (installed in db0 <==> handle != NULL_HANDLE)
      invariant bs.shortages == short && Acceptable(db0, handle, args[..Index])
      invariant bs.db == Put(db0, installed, Added(On(db0, installed), args[..Index]))
    {
      InstallTurn(db0, handle, installed, args, Index);
      assert args[..Index + 1][..Index] == args[..Index];
      status, installed := bs.InstallProtocolInterface(installed, args[Index].protocol, args[Index].iface);
      if status.Error? {
        break;
      }
      PutAgain(db0, installed, Added(On(db0, installed), args[..Index]),
               Added(On(db0, installed), args[..Index + 1]));
      Index := Index + 1;
    }
    if status.Error? {
      RollBack(bs, installed, args, Index, db0);
      installed := handle;
    } else {
      assert args[..Index] == args;
    }
    bs.RestoreTPL(oldTpl);
  }

  predicate Refuses(db: Database, handle: Handle, protocol: Guid) {
    handle != NULL_HANDLE && (handle !in db || protocol in db[handle])
  }

  /** With the first ones installed, the firmware refuses the next one exactly when the list is at fault. */
  lemma InstallTurn(db: Database, handle: Handle, installed: Handle, args: seq<Pair>, i: nat)
    requires Proper(db) && i < |args| && Acceptable(db, handle, args[..i])
    requires i == 0 || handle != NULL_HANDLE ==> installed == handle
    requires i > 0 ==> installed != NULL_HANDLE && (installed in db <==> handle != NULL_HANDLE)
    ensures var now := Put(db, installed, Added(On(db, installed), args[..i]));
      && (Refuses(now, installed, args[i].protocol) ==> !Acceptable(db, handle, args))
      && (!Refuses(now, installed, args[i].protocol) ==> Acceptable(db, handle, args[..i + 1]))
  {
    var front, p := args[..i], args[i].protocol;
    AddedIs(On(db, installed), front);
    var now := Added(On(db, installed), front);
    assert p in now <==> p in On(db, handle) || exists k :: 0 <= k < i && front[k].protocol == p;
    assert forall k :: 0 <= k < i ==> front[k] == args[k] == args[..i + 1][k];
    assert args[..i + 1][i] == args[i];
    if i > 0 {
      assert front[0].protocol in now;
    }
    PutSame(db, handle);
  }

  /** The protocols installed so far, in the order they were installed. */
  method RollBack(bs: BootServices, handle: Handle, args: seq<Pair>, count: nat, ghost db0: Database)
    requires bs.Valid() && count <= |args| && Proper(db0)
    requires DistinctProtocols(args[..count]) && Absent(On(db0, handle), args[..count])
    requires bs.db == Put(db0, handle, Added(On(db0, handle), args[..count]))
    modifies bs`db
    ensures bs.Valid() && bs.db == db0
  {
    hide Put, On, Added, Proper, DistinctProtocols, Absent, BootServices.Valid;
    ghost var ps := On(db0, handle);
    var Index := count;
    assert args[0..count] == args[..count];
    while Index > 0
      invariant 0 <= Index <= count && bs.Valid()
      invariant bs.db == Put(db0, handle, Added(ps, args[count - Index..count]))
    {
      var j := count - Index;
      RollBackTurn(db0, handle, ps, args, j, count);
      var _ := bs.UninstallProtocolInterface(handle, args[j].protocol, args[j].iface);
      Index := Index - 1;
    }
    NothingAdded(ps, args[count..count]);
    PutSame(db0, handle);
  }

  lemma NothingAdded(ps: Protocols, args: seq<Pair>)
    requires args == []
    ensures Added(ps, args) == ps
  {
  }

  lemma RollBackTurn(db: Database, h: Handle, ps: Protocols, args: seq<Pair>, j: nat, count: nat)
    requires j < count <= |args| && DistinctProtocols(args[..count]) && Absent(ps, args[..count])
    ensures var now := On(Put(db, h, Added(ps, args[j..count])), h);
      && args[j].protocol in now && now[args[j].protocol] == args[j].iface
      && Put(Put(db, h, Added(ps, args[j..count])), h, now - {args[j].protocol}) ==
           Put(db, h, Added(ps, args[j + 1..count]))
  {
    hide Put, On, Added;
    var rest := args[j..count];
    assert forall i :: 0 <= i < |rest| ==> rest[i] == args[..count][j + i];
    assert rest[1..] == args[j + 1..count];
    FirstRemoved(ps, rest);
    PutAgain(db, h, Added(ps, rest), Added(ps, rest[1..]));
  }

  // ----------------------------------------------------------- reinstalling a list of protocols

  datatype Swap = Swap(protocol: Guid, before: Interface, after: Interface)

  predicate Fits(ps: Protocols, s: Swap) { s.protocol in ps && ps[s.protocol] == s.before }

  /** One reinstallation, which does nothing where it does not fit. */
  function Swapped(ps: Protocols, s: Swap): Protocols {
    if Fits(ps, s) then ps[s.protocol := s.after] else ps
  }

  function Back(s: Swap): Swap { Swap(s.protocol, s.after, s.before) }

  function SwappedAll(ps: Protocols, args: seq<Swap>): Protocols {
    if args == [] then ps else Swapped(SwappedAll(ps, args[..|args| - 1]), args[|args| - 1])
  }

  /** The undoing pass: in the order of the list, too. */
  function Undone(ps: Protocols, args: seq<Swap>): Protocols {
    if args == [] then ps else Swapped(Undone(ps, args[..|args| - 1]), Back(args[|args| - 1]))
  }

  predicate AllFit(ps: Protocols, args: seq<Swap>) {
    forall i :: 0 <= i < |args| ==> Fits(SwappedAll(ps, args[..i]), args[i])
  }

  predicate Changes(s: Swap) { s.before != s.after }

  /** No protocol gets a really different interface twice. */
  predicate ChangesOnce(args: seq<Swap>) {
    forall i, j :: 0 <= i < j < |args| && Changes(args[i]) && Changes(args[j]) ==>
      args[i].protocol != args[j].protocol
  }

  /** A failure behind these restores what was there. */
  predicate Restores(ps: Protocols, args: seq<Swap>) {
    Undone(SwappedAll(ps, args), args) == ps
  }

  /** What one protocol's interface becomes, forward and back. */
  function Forward(v: Interface, args: seq<Swap>, p: Guid): Interface {
    if args == [] then v
    else
      var n := |args| - 1;
      var w := Forward(v, args[..n], p);
      if args[n].protocol == p && w == args[n].before then args[n].after else w
  }

  function Backward(v: Interface, args: seq<Swap>, p: Guid): Interface {
    if args == [] then v
    else
      var n := |args| - 1;
      var w := Backward(v, args[..n], p);
      if args[n].protocol == p && w == args[n].after then args[n].before else w
  }

  lemma {:induction false} OneByOne(ps: Protocols, args: seq<Swap>)
    ensures SwappedAll(ps, args).Keys == ps.Keys == Undone(ps, args).Keys
    ensures forall p :: p in ps ==> SwappedAll(ps, args)[p] == Forward(ps[p], args, p)
    ensures forall p :: p in ps ==> Undone(ps, args)[p] == Backward(ps[p], args, p)
    decreases |args|
  {
    if args != [] {
      OneByOne(ps, args[..|args| - 1]);
    }
  }

  /** After a list that fits, a protocol has the interface that the last entry to name it gives it. */
  lemma {:induction false} LastSwapStays(ps: Protocols, args: seq<Swap>, i: nat)
    requires AllFit(ps, args) && i < |args|
    requires forall k :: i < k < |args| ==> args[k].protocol != args[i].protocol
    ensures args[i].protocol in SwappedAll(ps, args) && SwappedAll(ps, args)[args[i].protocol] == args[i].after
    decreases |args|
  {
    hide AllFit;
    var n := |args| - 1;
    FitsFront(ps, args, n);
    FitsValue(ps, args, n);
    OneByOne(ps, args[..n]);
    if i < n {
      assert forall k :: i < k < n ==> args[..n][k] == args[k];
      LastSwapStays(ps, args[..n], i);
    }
  }

  /** The protocols are the same, and those no entry names keep their interfaces. */
  lemma {:induction false} OthersKept(ps: Protocols, args: seq<Swap>, p: Guid)
    requires p in ps && forall k :: 0 <= k < |args| ==> args[k].protocol != p
    ensures SwappedAll(ps, args).Keys == ps.Keys && SwappedAll(ps, args)[p] == ps[p]
    decreases |args|
  {
    if args != [] {
      OthersKept(ps, args[..|args| - 1], p);
    }
  }

  lemma ChangesOnceFront(args: seq<Swap>, n: nat)
    requires ChangesOnce(args) && n <= |args|
    ensures ChangesOnce(args[..n])
  {
  }

  lemma FitsFront(ps: Protocols, args: seq<Swap>, n: nat)
    requires AllFit(ps, args) && n <= |args|
    ensures AllFit(ps, args[..n])
    ensures ChangesOnce(args) ==> ChangesOnce(args[..n])
  {
    forall i | 0 <= i < n
      ensures Fits(SwappedAll(ps, args[..n][..i]), args[..n][i])
    {
      assert args[..n][..i] == args[..i];
    }
  }

  lemma FitsValue(ps: Protocols, args: seq<Swap>, n: nat)
    requires AllFit(ps, args) && n < |args|
    ensures args[n].protocol in ps && Forward(ps[args[n].protocol], args[..n], args[n].protocol) == args[n].before
  {
    assert Fits(SwappedAll(ps, args[..n]), args[n]);
    OneByOne(ps, args[..n]);
  }

  predicate Unchanged(args: seq<Swap>, p: Guid) {
    forall i :: 0 <= i < |args| && args[i].protocol == p ==> !Changes(args[i])
  }

  lemma {:induction false} UnchangedSteps(v: Interface, args: seq<Swap>, p: Guid)
    requires Unchanged(args, p)
    ensures Forward(v, args, p) == v == Backward(v, args, p)
    decreases |args|
  {
    if args != [] {
      UnchangedSteps(v, args[..|args| - 1], p);
    }
  }

  /** The only change of a protocol decides where it goes, either way. */
  lemma {:induction false} OneChange(ps: Protocols, args: seq<Swap>, i: nat, c: Interface)
    requires AllFit(ps, args) && ChangesOnce(args) && i < |args| && Changes(args[i])
    ensures args[i].protocol in ps && ps[args[i].protocol] == args[i].before
    ensures Forward(ps[args[i].protocol], args, args[i].protocol) == args[i].after
    ensures Backward(c, args, args[i].protocol) == if c == args[i].after then args[i].before else c
    decreases |args|
  {
    var n, p := |args| - 1, args[i].protocol;
    FitsFront(ps, args, n);
    FitsValue(ps, args, n);
    if i == n {
      assert Unchanged(args[..n], p) by {
        assert forall k :: 0 <= k < n ==> args[..n][k] == args[k];
      }
      UnchangedSteps(ps[p], args[..n], p);
      UnchangedSteps(c, args[..n], p);
    } else {
      assert args[..n][i] == args[i];
      OneChange(ps, args[..n], i, c);
    }
  }

  lemma {:induction false} ChangedOnceRestores(ps: Protocols, args: seq<Swap>)
    requires AllFit(ps, args) && ChangesOnce(args)
    ensures Restores(ps, args)
  {
    OneByOne(ps, args);
    OneByOne(SwappedAll(ps, args), args);
    forall p | p in ps
      ensures Backward(Forward(ps[p], args, p), args, p) == ps[p]
    {
      if i: nat :| i < |args| && args[i].protocol == p && Changes(args[i]) {
        OneChange(ps, args, i, Forward(ps[p], args, p));
      } else {
        UnchangedSteps(ps[p], args, p);
      }
    }
  }

  lemma SecondChangeStays(ps: Protocols, args: seq<Swap>, i: nat)
    requires AllFit(ps, args) && i < |args| - 1 && ChangesOnce(args[..|args| - 1])
    requires Changes(args[i]) && Changes(args[|args| - 1]) && args[i].protocol == args[|args| - 1].protocol
    ensures !Restores(ps, args)
  {
    hide SwappedAll, Undone, AllFit, ChangesOnce;
    var n := |args| - 1;
    var front, p := args[..n], args[n].protocol;
    assert front[i] == args[i];
    FitsFront(ps, args, n);
    OneChange(ps, front, i, args[n].after);
    FitsValue(ps, args, n);
    OneByOne(ps, args);
    OneByOne(SwappedAll(ps, args), args);
    assert Backward(Forward(ps[p], args, p), args, p) == args[n].before;
  }

  lemma {:induction false} RestoringChangesOnce(ps: Protocols, args: seq<Swap>)
    requires AllFit(ps, args) && forall k :: 0 <= k <= |args| ==> Restores(ps, args[..k])
    ensures ChangesOnce(args)
    decreases |args|
  {
    hide AllFit, Restores;
    if args != [] {
      var n := |args| - 1;
      var front, last := args[..n], args[n];
      FitsFront(ps, args, n);
      forall k | 0 <= k <= n
        ensures Restores(ps, front[..k])
      {
        assert front[..k] == args[..k];
      }
      RestoringChangesOnce(ps, front);
      assert args[..|args|] == args && Restores(ps, args[..|args|]);
      forall i | 0 <= i < n && Changes(args[i]) && Changes(last)
        ensures args[i].protocol != last.protocol
      {
        if args[i].protocol == last.protocol {
          SecondChangeStays(ps, args, i);
          assert false;
        }
      }
      ChangesOnceMore(args);
    }
  }

  lemma ChangesOnceMore(args: seq<Swap>)
    requires args != [] && ChangesOnce(args[..|args| - 1])
    requires forall i :: 0 <= i < |args| - 1 && Changes(args[i]) && Changes(args[|args| - 1]) ==>
      args[i].protocol != args[|args| - 1].protocol
    ensures ChangesOnce(args)
  {
    assert forall i :: 0 <= i < |args| - 1 ==> args[..|args| - 1][i] == args[i];
  }

  /** A list that fits can be undone from wherever it fails exactly when it changes no protocol twice. */
  lemma UndoneExactly(ps: Protocols, args: seq<Swap>)
    requires AllFit(ps, args)
    ensures ChangesOnce(args) <==> forall k :: 0 <= k <= |args| ==> Restores(ps, args[..k])
  {
    if ChangesOnce(args) {
      forall k | 0 <= k <= |args|
        ensures Restores(ps, args[..k])
      {
        FitsFront(ps, args, k);
        ChangedOnceRestores(ps, args[..k]);
      }
    } else {
      if forall k :: 0 <= k <= |args| ==> Restores(ps, args[..k]) {
        RestoringChangesOnce(ps, args);
      }
    }
  }

  /** The same protocol twice: the second interface stays. */
  lemma SecondStays(p: Guid, a: Interface, b: Interface, c: Interface)
    requires a != b && b != c
    ensures var ps, args := map[p := a], [Swap(p, a, b), Swap(p, b, c)];
      AllFit(ps, args) && !ChangesOnce(args) && Undone(SwappedAll(ps, args), args) == map[p := b] != ps
  {
    var ps, args := map[p := a], [Swap(p, a, b), Swap(p, b, c)];
    assert args[..0] == [] && args[..1] == [args[0]] && args[..2] == args && [args[0]][..0] == [];
    assert Changes(args[0]) && Changes(args[1]);
    assert SwappedAll(ps, args[..1]) == map[p := b];
    assert SwappedAll(ps, args) == map[p := c];
    assert Undone(map[p := c], args[..1]) == map[p := c];
    assert map[p := b][p] == b != a;
  }

  predicate Free(bs: BootServices, handle: Handle, args: seq<Swap>) {
    forall i :: 0 <= i < |args| ==> (handle, args[i].protocol) !in bs.held
  }

  /** LibReinstallProtocolInterfaces.  `given` is what the firmware gets as the handle: the routine passes
      on its argument, which is the place of the handle, as it is. */
  method LibReinstallProtocolInterfaces(bs: BootServices, given: Handle, args: seq<Swap>)
    returns (status: Status, ghost count: nat)
    requires bs.Valid() && bs.tpl <= 16
    modifies bs
    ensures bs.Valid() && bs.tpl == old(bs.tpl) && bs.raisedTo == 16
    ensures status.Success? <==> AllFit(On(old(bs.db), given), args) && Free(bs, given, args)
    ensures status.Success? ==> bs.db == Put(old(bs.db), given, SwappedAll(On(old(bs.db), given), args))
    ensures status.Error? ==>
      && count < |args| && AllFit(On(old(bs.db), given), args[..count]) && Free(bs, given, args[..count])
      && (!Fits(SwappedAll(On(old(bs.db), given), args[..count]), args[count]) ||
          (given, args[count].protocol) in bs.held)
      && bs.db == Put(old(bs.db), given, Undone(SwappedAll(On(old(bs.db), given), args[..count]), args[..count]))
    ensures status.Error? ==> (bs.db == old(bs.db) <==> Restores(On(old(bs.db), given), args[..count]))
    ensures status.Error? && ChangesOnce(args) ==> bs.db == old(bs.db)
    ensures args != [] && given !in old(bs.db) ==> status.Error? && bs.db == old(bs.db)
  {
    hide SwappedAll, Undone, Restores, Swapped;
    var oldTpl := bs.RaiseTPL(TPL_NOTIFY);
    ghost var db0, ps := bs.db, On(bs.db, given);
    status := Success;
    count := 0;
    var Index := 0;
    PutSame(db0, given);
    SwapTurn(ps, args, 0);
    UndoTurn(ps, args, 0);
    while Index < |args|
      invariant 0 <= Index <= |args| && bs.Valid() && bs.tpl == bs.raisedTo == TPL_NOTIFY && status.Success?
      invariant AllFit(ps, args[..Index]) && Free(bs, given, args[..Index])
      invariant bs.db == Put(db0, given, SwappedAll(ps, args[..Index]))
      invariant given !in db0 ==> Index == 0
    {
      SwapTurn(ps, args, Index);
      PutAgain(db0, given, SwappedAll(ps, args[..Index]), SwappedAll(ps, args[..Index + 1]));
      status := bs.ReinstallProtocolInterface(given, args[Index]);
      if status.Error? {
        break;
      }
      Index := Index + 1;
    }
    if status.Error? {
      count := Index;
      SwapBack(bs, given, args, Index, db0);
      RestoredExactly(db0, given, args[..Index]);
      if ChangesOnce(args) {
        ChangesOnceFront(args, Index);
        ChangedOnceRestores(ps, args[..Index]);
      }
    } else {
      assert args[..Index] == args;
    }
    bs.RestoreTPL(oldTpl);
  }

  /** The database is the old one exactly when the protocols of the handle are. */
  lemma RestoredExactly(db: Database, h: Handle, done: seq<Swap>)
    requires Proper(db)
    ensures var ps := On(db, h);
      Put(db, h, Undone(SwappedAll(ps, done), done)) == db <==> Restores(ps, done)
  {
    hide SwappedAll, Undone;
    var ps := On(db, h);
    PutSame(db, h);
    PutAgain(db, h, Undone(SwappedAll(ps, done), done), ps);
  }

  /** Behind any list that fits, a refused replacement makes the call fail at that place: whether the
      database is restored depends on the list in front of it alone. */
  method FailingBehind(bs: BootServices, given: Handle, done: seq<Swap>, refused: Swap)
    requires bs.Valid() && bs.tpl <= 16
    requires AllFit(On(bs.db, given), done) && Free(bs, given, done)
    requires !Fits(SwappedAll(On(bs.db, given), done), refused) || (given, refused.protocol) in bs.held
    modifies bs
    ensures bs.db == old(bs.db) <==> Restores(On(old(bs.db), given), done)
    ensures bs.db == Put(old(bs.db), given, Undone(SwappedAll(On(old(bs.db), given), done), done))
  {
    hide SwappedAll, Undone, Restores;
    var status, count := LibReinstallProtocolInterfaces(bs, given, done + [refused]);
    FailsThere(old(bs.db), bs, given, done, refused, count);
  }

  lemma FailsThere(db: Database, bs: BootServices, given: Handle, done: seq<Swap>, refused: Swap, count: nat)
    requires AllFit(On(db, given), done) && Free(bs, given, done)
    requires !Fits(SwappedAll(On(db, given), done), refused) || (given, refused.protocol) in bs.held
    ensures !(AllFit(On(db, given), done + [refused]) && Free(bs, given, done + [refused]))
    ensures var args := done + [refused];
      count <= |done| &&
      (!Fits(SwappedAll(On(db, given), args[..count]), args[count]) || (given, args[count].protocol) in bs.held) ==>
        count == |done| && args[..count] == done
  {
    hide SwappedAll, Fits, On;
    var args, n := done + [refused], |done|;
    assert args[..n] == done && args[n] == refused;
    if count < n {
      FitsEarlier(On(db, given), done, refused, count);
      assert done[count] == args[count] && (given, done[count].protocol) !in bs.held;
    }
  }

  lemma FitsEarlier(ps: Protocols, done: seq<Swap>, refused: Swap, count: nat)
    requires AllFit(ps, done) && count < |done|
    ensures var args := done + [refused]; Fits(SwappedAll(ps, args[..count]), args[count])
  {
    hide SwappedAll, Fits;
    var args := done + [refused];
    assert args[..count] == done[..count] && args[count] == done[count];
    assert Fits(SwappedAll(ps, done[..count]), done[count]);
  }

  /** So it is with a protocol changed twice: the run leaves the interface in between. */
  method SecondStaysInRun(bs: BootServices, h: Handle, p: Guid, a: Interface, b: Interface, c: Interface,
                          refused: Swap)
    requires bs.Valid() && bs.tpl <= 16 && h in bs.db && bs.db[h] == map[p := a] && a != b && b != c
    requires (h, p) !in bs.held && refused.protocol != p
    modifies bs
    ensures bs.db == old(bs.db)[h := map[p := b]] != old(bs.db)
  {
    hide SwappedAll, Undone, Restores, AllFit;
    ghost var done := [Swap(p, a, b), Swap(p, b, c)];
    SecondStays(p, a, b, c);
    OneByOne(map[p := a], done);
    FailingBehind(bs, h, [Swap(p, a, b), Swap(p, b, c)], refused);
  }

  lemma SwapTurn(ps: Protocols, args: seq<Swap>, i: nat)
    requires i <= |args| && AllFit(ps, args[..i])
    ensures args[..0] == [] && SwappedAll(ps, args[..0]) == ps
    ensures AllFit(ps, args) ==> i == |args| || Fits(SwappedAll(ps, args[..i]), args[i])
    ensures i < |args| ==> SwappedAll(ps, args[..i + 1]) == Swapped(SwappedAll(ps, args[..i]), args[i])
    ensures i < |args| && Fits(SwappedAll(ps, args[..i]), args[i]) ==> AllFit(ps, args[..i + 1])
    ensures ps == map[] && i < |args| ==> !Fits(SwappedAll(ps, args[..i]), args[i])
  {
    if i < |args| {
      hide AllFit;
      assert args[..i + 1][..i] == args[..i];
      OneByOne(ps, args[..i]);
      if Fits(SwappedAll(ps, args[..i]), args[i]) {
        OneMoreFits(ps, args, i);
      }
      if AllFit(ps, args) {
        FitsValue(ps, args, i);
      }
    }
  }

  lemma OneMoreFits(ps: Protocols, args: seq<Swap>, i: nat)
    requires i < |args| && AllFit(ps, args[..i]) && Fits(SwappedAll(ps, args[..i]), args[i])
    ensures AllFit(ps, args[..i + 1])
  {
    hide SwappedAll, Fits;
    var more := args[..i + 1];
    assert more[..i] == args[..i];
    forall k | 0 <= k < i
      ensures Fits(SwappedAll(ps, more[..k]), more[k])
    {
      assert more[..k] == args[..i][..k] && args[..i][k] == more[k];
    }
  }

  /** The ones reinstalled so far, in the order they were reinstalled. */
  method SwapBack(bs: BootServices, given: Handle, args: seq<Swap>, count: nat, ghost db0: Database)
    requires bs.Valid() && count <= |args| && Proper(db0)
    requires Free(bs, given, args[..count]) && (given == NULL_HANDLE ==> count == 0)
    requires bs.db == Put(db0, given, SwappedAll(On(db0, given), args[..count]))
    modifies bs`db
    ensures bs.Valid()
    ensures bs.db == Put(db0, given, Undone(SwappedAll(On(db0, given), args[..count]), args[..count]))
  {
    hide SwappedAll, Undone;
    ghost var there := SwappedAll(On(db0, given), args[..count]);
    UndoTurn(there, args, 0);
    var Index := count;
    while Index > 0
      invariant 0 <= Index <= count && bs.Valid()
      invariant bs.db == Put(db0, given, Undone(there, args[..count - Index]))
    {
      var j := count - Index;
      UndoTurn(there, args, j);
      PutAgain(db0, given, Undone(there, args[..j]), Undone(there, args[..j + 1]));
      assert args[..count][j] == args[j];
      var _ := bs.ReinstallProtocolInterface(given, Back(args[j]));
      Index := Index - 1;
    }
  }

  lemma UndoTurn(ps: Protocols, args: seq<Swap>, i: nat)
    requires i <= |args|
    ensures args[..0] == [] && Undone(ps, args[..0]) == ps
    ensures i < |args| ==> Undone(ps, args[..i + 1]) == Swapped(Undone(ps, args[..i]), Back(args[i]))
  {
    if i < |args| {
      assert args[..i + 1][..i] == args[..i];
    }
  }

  // --------------------------------------------------------------- uninstalling a list of protocols

  function Removed(ps: Protocols, args: seq<Pair>): Protocols {
    if args == [] then ps
    else if args[0].protocol in ps && ps[args[0].protocol] == args[0].iface then
      Removed(ps - {args[0].protocol}, args[1..])
    else Removed(ps, args[1..])
  }

  /** A protocol stays exactly when no entry names it with the interface it has, and then it keeps that. */
  lemma {:induction false} RemovedIs(ps: Protocols, args: seq<Pair>, p: Guid)
    ensures p in Removed(ps, args) <==> p in ps && Pair(p, ps[p]) !in args
    ensures p in Removed(ps, args) ==> Removed(ps, args)[p] == ps[p]
    decreases |args|
  {
    if args != [] {
      var first, rest := args[0], args[1..];
      assert args == [first] + rest;
      if first.protocol in ps && ps[first.protocol] == first.iface {
        RemovedIs(ps - {first.protocol}, rest, p);
      } else {
        RemovedIs(ps, rest, p);
      }
    }
  }

  /** LibUninstallProtocolInterfaces: what is not there as named is passed over. */
  method LibUninstallProtocolInterfaces(bs: BootServices, handle: Handle, args: seq<Pair>)
    requires bs.Valid()
    modifies bs`db
    ensures bs.Valid() && bs.db == Put(old(bs.db), handle, Removed(On(old(bs.db), handle), args))
  {
    ghost var db0 := bs.db;
    PutSame(db0, handle);
    var i := 0;
    while i < |args|
      invariant 0 <= i <= |args| && bs.Valid()
      invariant bs.db == Put(db0, handle, On(bs.db, handle))
      invariant Removed(On(bs.db, handle), args[i..]) == Removed(On(db0, handle), args)
    {
      ghost var now := On(bs.db, handle);
      PutAgain(db0, handle, now, now - {args[i].protocol});
      assert args[i..][1..] == args[i + 1..];
      var _ := bs.UninstallProtocolInterface(handle, args[i].protocol, args[i].iface);
      i := i + 1;
    }
  }

  /** Uninstalling the list that was installed takes exactly that away. */
  lemma {:induction false} InstallThenUninstall(db: Database, handle: Handle, args: seq<Pair>)
    requires Proper(db) && DistinctProtocols(args) && Absent(On(db, handle), args)
    ensures var there := Put(db, handle, Added(On(db, handle), args));
      Put(there, handle, Removed(On(there, handle), args)) == db
  {
    var ps := On(db, handle);
    AddedAndRemoved(ps, args);
    PutAgain(db, handle, Added(ps, args), ps);
    PutSame(db, handle);
  }

  lemma {:induction false} AddedAndRemoved(ps: Protocols, args: seq<Pair>)
    requires DistinctProtocols(args) && Absent(ps, args)
    ensures Removed(Added(ps, args), args) == ps
  {
    if args != [] {
      FirstRemoved(ps, args);
      AddedAndRemoved(ps, args[1..]);
    }
  }
}
