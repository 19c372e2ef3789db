/** What every interleaving of clients and daemons keeps, whatever they do and in whatever order. */
module FuseSafety {
  import opened FuseState

  /** What can happen next. A step runs from one sleep to the next. */
  datatype Action =
    | OpenPath(p: nat, pid: nat, device: nat, names: seq<Name>, op: Op, page: seq<Byte>)
    | DupPath(p: nat)
    | ClientCall(p: nat, pid: nat, op: Op)
    | ClosePath(p: nat, pid: nat, op: Op)
    | TickOver(p: nat)
    | WakeClient(p: nat)
    | DaemonRead(p: nat, pid: nat)
    | WakeDaemon(p: nat)
    | DaemonWrite(p: nat, bytes: seq<Byte>)

  function Pid(c: Call): nat {
    match c
    case Idle => 0
    case Searching(pid, _, _, _) => pid
    case Waiting(pid, _, _) => pid
    case Reading(pid) => pid
  }

  /** The process is not in a call on any path. */
  predicate FreePid(w: World, pid: nat) {
    && pid > 0 && pid !in w.awake
    && forall q :: 0 <= q < |w.pds| && w.pds[q].Used? ==> Pid(w.pds[q].call) != pid
  }

  predicate Names(names: seq<Name>) {
    forall k :: 0 <= k < |names| ==> names[k] != [] && 0 !in Fold(names[k])
  }

  /** What the system lets happen: a free path is opened, one call is in progress on a path at a time, a
      path with a call in progress is only closed by another of its holders, and whoever sleeps until woken
      runs on when woken. */
  predicate Enabled(w: World, a: Action)
    requires |w.pds| == PATHS
  {
    && !w.crashed && 0 < a.p < PATHS
    && match a
       case OpenPath(p, pid, _, names, op, page) =>
         w.pds[p].Unused? && FreePid(w, pid) && op.OpOpen? && op.path != [] && |page| == BUFFER && Names(names)
       case DupPath(p) => w.pds[p].Used? && w.pds[p].handles > 0
       case ClientCall(p, pid, op) =>
         IsClient(w, p) && w.pds[p].call.Idle? && FreePid(w, pid) && Fits(op) && !op.OpClose? && !op.OpOpen?
       case ClosePath(p, pid, op) =>
         && w.pds[p].Used? && w.pds[p].handles > (if w.pds[p].call.Idle? then 0 else 1)
         && FreePid(w, pid) && op.OpClose? && Fits(op)
       case TickOver(p) => IsClient(w, p) && w.pds[p].call.Searching?
       case WakeClient(p) => IsClient(w, p) && w.pds[p].call.Waiting? && w.pds[p].call.pid in w.awake
       case DaemonRead(p, pid) => IsDaemon(w, p) && w.pds[p].call.Idle? && FreePid(w, pid)
       case WakeDaemon(p) => IsDaemon(w, p) && w.pds[p].call.Reading? && w.pds[p].call.pid in w.awake
       case DaemonWrite(p, bytes) => IsDaemon(w, p) && w.pds[p].call.Idle? && |bytes| <= BUFFER
  }

  // ----- The invariant -----

  predicate Points(d: PathDesc, t: nat) {
    d.Used? && d.peer == t
  }

  /** How many descriptors have t as their peer. */
  function Links(pds: seq<PathDesc>, t: nat): nat {
    if pds == [] then 0
    else Links(pds[..|pds| - 1], t) + if Points(pds[|pds| - 1], t) then 1 else 0
  }

  /** A daemon's peer is a client in a call that points back. */
  predicate DaemonSafe(w: World, p: nat)
    requires IsDaemon(w, p)
  {
    var d := w.pds[p];
    && |d.buffer| == BUFFER && d.name != []
    && (d.call.Idle? || (d.call.Reading? && d.call.pid > 0)) && d.paused == Pid(d.call)
    && (d.peer != 0 ==> IsClient(w, d.peer) && w.pds[d.peer].peer == p && !w.pds[d.peer].call.Idle?)
    && (d.call.Reading? && d.call.pid in w.awake ==> d.peer != 0)
  }

  /** A client stays linked to its daemon, which is linked to it just as long as the client's request has
      not been answered. */
  predicate ClientSafe(w: World, p: nat)
    requires IsClient(w, p)
  {
    var c := w.pds[p];
    && c.peer > 0 && IsDaemon(w, c.peer) && c.refused == 0 && c.bufLen <= BUFFER
    && match c.call
       case Idle => c.paused == 0 && w.pds[c.peer].peer != p && c.handles > 0
       case Searching(pid, op, dae, tries) =>
         && dae == c.peer && w.pds[c.peer].peer == p && c.paused == 0 && pid > 0 && pid !in w.awake && tries > 0
         && (op.OpClose? <==> c.handles == 0)
       case Waiting(pid, op, dae) =>
         && dae == c.peer && (w.pds[c.peer].peer == p <==> pid !in w.awake) && c.paused == pid > 0
         && (op.OpClose? <==> c.handles == 0)
       case Reading(_) => false
  }

  /** link_count is what IOMan counts, and one for each descriptor whose peer this is, and one for each
      client whose open it refused. */
  predicate Accounted(w: World, p: nat)
    requires p < |w.pds| && w.pds[p].Used?
  {
    w.pds[p].linkCount == w.pds[p].handles + w.pds[p].refused + Links(w.pds, p)
  }

  predicate Calling(w: World, p: nat) {
    p < |w.pds| && w.pds[p].Used? && !w.pds[p].call.Idle?
  }

  /** No process is in two calls. */
  ghost predicate OneCallEach(w: World) {
    forall p, q :: 0 <= p < q && Calling(w, p) && Calling(w, q) ==> Pid(w.pds[p].call) != Pid(w.pds[q].call)
  }

  /** No two open daemons of a device share a folded name. */
  ghost predicate NamesUnique(w: World) {
    forall p, q :: 0 <= p < q && IsDaemon(w, p) && IsDaemon(w, q) && w.pds[p].device == w.pds[q].device ==>
      w.pds[p].name != w.pds[q].name
  }

  predicate PathSafe(w: World, p: nat)
    requires p < |w.pds|
  {
    (IsDaemon(w, p) ==> DaemonSafe(w, p)) && (IsClient(w, p) ==> ClientSafe(w, p))
  }

  ghost predicate Safe(w: World) {
    && !w.crashed && |w.pds| == PATHS && w.pds[0].Unused? && OneCallEach(w) && NamesUnique(w)
    && (forall p :: 0 <= p < PATHS ==> PathSafe(w, p))
    && (forall p :: 0 <= p < PATHS && w.pds[p].Used? ==> Accounted(w, p))
  }

  /** The invariant at a path and at its peer. */
  lemma Around(w: World, p: nat)
    requires Safe(w) && p < PATHS
    ensures !w.crashed && |w.pds| == PATHS && w.pds[0].Unused?
    ensures PathSafe(w, p) && (w.pds[p].Used? ==> Accounted(w, p))
    ensures w.pds[p].Used? && w.pds[p].peer != 0 ==> w.pds[p].peer < PATHS && PathSafe(w, w.pds[p].peer)
    ensures forall d :: 0 <= d < PATHS && IsDaemon(w, d) ==> |w.pds[d].buffer| == BUFFER
  {
    assert forall d :: 0 <= d < PATHS && IsDaemon(w, d) ==> PathSafe(w, d);
  }

  /** What it comes to. */
  ghost function Next(w: World, a: Action): World
    requires Safe(w) && Enabled(w, a)
  {
    Around(w, a.p);
    match a
    case OpenPath(p, pid, device, names, op, page) => Open(w, p, pid, device, names, op, page)
    case DupPath(p) => Dup(w, p)
    case ClientCall(p, pid, op) => Operate(w, p, pid, op)
    case ClosePath(p, pid, op) => Close(w, p, pid, op)
    case TickOver(p) => Tick(w, p)
    case WakeClient(p) => Resume(w, p)
    case DaemonRead(p, pid) => Read(w, p, pid)
    case WakeDaemon(p) => Deliver(w, p)
    case DaemonWrite(p, bytes) => Reply(w, p, bytes)
  }

  // ----- Counting links -----

  lemma {:induction false} LinksUpdate(pds: seq<PathDesc>, q: nat, d: PathDesc, t: nat)
    requires q < |pds|
    ensures Links(pds[q := d], t)
         == Links(pds, t) - (if Points(pds[q], t) then 1 else 0) + if Points(d, t) then 1 else 0
    decreases |pds|
  {
    var n := |pds| - 1;
    if q < n {
      LinksUpdate(pds[..n], q, d, t);
      assert pds[q := d][..n] == pds[..n][q := d];
    } else {
      assert pds[q := d][..n] == pds[..n];
    }
  }

  lemma {:induction false} NoLinks(pds: seq<PathDesc>, t: nat)
    requires forall q :: 0 <= q < |pds| ==> !Points(pds[q], t)
    ensures Links(pds, t) == 0
    decreases |pds|
  {
    if pds != [] {
      NoLinks(pds[..|pds| - 1], t);
    }
  }

  lemma {:induction false} SomeLink(pds: seq<PathDesc>, q: nat, t: nat)
    requires q < |pds| && Points(pds[q], t)
    ensures Links(pds, t) > 0
    decreases |pds|
  {
    if q < |pds| - 1 {
      SomeLink(pds[..|pds| - 1], q, t);
    }
  }

  lemma {:induction false} SameLinks(pds: seq<PathDesc>, pds': seq<PathDesc>, t: nat)
    requires |pds| == |pds'| && forall q :: 0 <= q < |pds| ==> Points(pds[q], t) == Points(pds'[q], t)
    ensures Links(pds, t) == Links(pds', t)
    decreases |pds|
  {
    if pds != [] {
      var n := |pds| - 1;
      assert Points(pds[n], t) == Points(pds'[n], t);
      SameLinks(pds[..n], pds'[..n], t);
    }
  }

  /** Nothing points at an unused path or at a client that is in no call. */
  lemma Unlinked(w: World, p: nat)
    requires Safe(w) && 0 < p < PATHS && (w.pds[p].Unused? || (IsClient(w, p) && w.pds[p].call.Idle?))
    ensures Links(w.pds, p) == 0
  {
    hide Links, Accounted;
    forall q | 0 <= q < PATHS
      ensures !Points(w.pds[q], p)
    {
      assert PathSafe(w, q);
    }
    NoLinks(w.pds, p);
  }

  /** The part of link_count that peers have to account for. */
  function Held(d: PathDesc): int
    requires d.Used?
  {
    d.linkCount - d.handles - d.refused
  }

  function One(d: PathDesc, t: nat): nat {
    if Points(d, t) then 1 else 0
  }

  lemma PairLinks(w: World, w': World, p: nat, d: nat, t: nat)
    requires Beside(w, w', p, d) && p != d
    ensures Links(w'.pds, t) == Links(w.pds, t) - One(w.pds[p], t) + One(w'.pds[p], t) - One(w.pds[d], t) + One(w'.pds[d], t)
  {
    LinksUpdate(w.pds, p, w'.pds[p], t);
    LinksUpdate(w.pds[p := w'.pds[p]], d, w'.pds[d], t);
    assert w'.pds == w.pds[p := w'.pds[p]][d := w'.pds[d]];
  }

  /** Linking two paths leaves the difference between link_count and the links that there are as it was,
      for every path. */
  lemma SetPeerBalances(w: World, subject: nat, target: nat, q: nat)
    requires subject < |w.pds| && 0 < target < |w.pds| && w.pds[subject].Used? && w.pds[target].Used?
    requires 0 < q < |w.pds| && w.pds[q].Used?
    ensures var w' := SetPeer(w, subject, target);
      w'.crashed || (w'.pds[q].Used? && w'.pds[q].linkCount - Links(w'.pds, q) == w.pds[q].linkCount - Links(w.pds, q))
  {
    hide Links;
    var w1 := With(w, target, w.pds[target].(linkCount := w.pds[target].linkCount + 1));
    LinksUpdate(w.pds, target, w1.pds[target], q);
    LinksUpdate(w1.pds, subject, w1.pds[subject].(peer := target), q);
  }

  /** And so does unlinking. */
  lemma ClearPeerBalances(w: World, subject: nat, target: nat, q: nat)
    requires subject < |w.pds| && 0 < target < |w.pds| && w.pds[subject].Used? && w.pds[target].Used?
    requires 0 < q < |w.pds| && w.pds[q].Used?
    ensures var w' := ClearPeer(w, subject, target);
      w'.crashed || (w'.pds[q].Used? && w'.pds[q].linkCount - Links(w'.pds, q) == w.pds[q].linkCount - Links(w.pds, q))
  {
    hide Links;
    var w1 := With(w, target, w.pds[target].(linkCount := w.pds[target].linkCount - 1));
    LinksUpdate(w.pds, target, w1.pds[target], q);
    LinksUpdate(w1.pds, subject, w1.pds[subject].(peer := 0), q);
  }

  /** Unlinking undoes linking, and meets no failed assert after it. */
  lemma ClearPeerUndoes(w: World, subject: nat, target: nat)
    requires subject < |w.pds| && target < |w.pds| && w.pds[subject].Used? && w.pds[target].Used?
    requires !w.crashed && !SetPeer(w, subject, target).crashed
    ensures ClearPeer(SetPeer(w, subject, target), subject, target) == w
  {
    var w' := ClearPeer(SetPeer(w, subject, target), subject, target);
    assert w'.pds[subject] == w.pds[subject] && w'.pds[target] == w.pds[target];
    assert w'.pds == w.pds;
  }

  // ----- Steps -----

  /** Nothing but paths p and d has changed, and no process in a call elsewhere has been woken. */
  ghost predicate Beside(w: World, w': World, p: nat, d: nat) {
    && |w.pds| == |w'.pds| == PATHS && p < PATHS && d < PATHS
    && (forall q :: 0 <= q < PATHS && q != p && q != d ==> w'.pds[q] == w.pds[q])
    && (forall q :: 0 <= q < PATHS && q != p && q != d && w.pds[q].Used? && !w.pds[q].call.Idle? ==>
      (Pid(w.pds[q].call) in w'.awake <==> Pid(w.pds[q].call) in w.awake))
  }

  /** A call in progress on p is the one that was there, or that of a process that was in none. */
  ghost predicate CallGoesOn(w: World, w': World, p: nat) {
    Calling(w', p) ==>
      (Calling(w, p) && Pid(w'.pds[p].call) == Pid(w.pds[p].call)) || FreePid(w, Pid(w'.pds[p].call))
  }

  lemma OthersSafe(w: World, w': World, p: nat, d: nat, q: nat)
    requires Safe(w) && Beside(w, w', p, d) && q < PATHS && q != p && q != d
    requires IsDaemon(w, d) && IsDaemon(w', d) && (w.pds[p].Unused? || (IsClient(w, p) && w.pds[p].peer == d))
    requires w'.pds[d].peer == w.pds[d].peer || (w.pds[d].peer in {0, p} && w'.pds[d].peer in {0, p})
    ensures PathSafe(w', q)
  {
    hide Links, Accounted;
    assert PathSafe(w, q);
    assert PathSafe(w, d);
  }

  /** A step that concerns client p and its daemon d keeps the invariant if it keeps it at the two, keeps
      the accounts, and gives no process two calls. */
  lemma PairSafe(w: World, w': World, p: nat, d: nat)
    requires Safe(w) && Beside(w, w', p, d) && !w'.crashed && w'.pds[0].Unused? && 0 < p && p != d
    requires IsDaemon(w, d) && IsDaemon(w', d) && (w.pds[p].Unused? || (IsClient(w, p) && w.pds[p].peer == d))
    requires w'.pds[d].device == w.pds[d].device && w'.pds[d].name == w.pds[d].name && !IsDaemon(w', p)
    requires w'.pds[d].peer == w.pds[d].peer || (w.pds[d].peer in {0, p} && w'.pds[d].peer in {0, p})
    requires PathSafe(w', p) && PathSafe(w', d)
    requires forall q :: 0 <= q < PATHS && w'.pds[q].Used? ==> Accounted(w', q)
    requires w'.pds[d].call == w.pds[d].call || w'.pds[d].call.Idle?
    requires CallGoesOn(w, w', p)
    ensures Safe(w')
  {
    hide Links, Accounted, DaemonSafe, ClientSafe;
    forall q | 0 <= q < PATHS
      ensures PathSafe(w', q)
    {
      if q != p && q != d {
        OthersSafe(w, w', p, d, q);
      }
    }
    CallsApart(w, w', p, d);
    assert NamesUnique(w');
  }

  lemma CallsApart(w: World, w': World, p: nat, d: nat)
    requires OneCallEach(w) && Beside(w, w', p, d) && p != d && w.pds[d].Used? && w'.pds[d].Used?
    requires w'.pds[d].call == w.pds[d].call || w'.pds[d].call.Idle?
    requires CallGoesOn(w, w', p)
    ensures OneCallEach(w')
  {
    hide Pid;
    forall q | 0 <= q < PATHS && q != p && Calling(w', q)
      ensures Calling(w, q) && Pid(w.pds[q].call) == Pid(w'.pds[q].call)
    {
    }
  }

  // ----- Beginning a client call -----

  /** w2 is w with client p and daemon d linked to each other. */
  ghost predicate Linked(w: World, w2: World, p: nat, d: nat) {
    && Beside(w, w2, p, d) && !w2.crashed && w2.awake == w.awake && 0 < p && p != d
    && IsDaemon(w, d) && w.pds[d].peer == 0 && IsDaemon(w2, d) && w2.pds[d] == w.pds[d].(peer := p, linkCount := w2.pds[d].linkCount)
    && (w.pds[p].Unused? || (IsClient(w, p) && w.pds[p].peer == d && w.pds[p].call.Idle?))
    && IsClient(w2, p) && w2.pds[p].peer == d && w2.pds[p].call.Idle? && w2.pds[p].paused == 0 && w2.pds[p].refused == 0
    && (forall q :: 0 <= q < PATHS && w2.pds[q].Used? ==> Accounted(w2, q))
  }

  lemma SendSafe(w: World, w2: World, p: nat, pid: nat, op: Op, d: nat)
    requires Safe(w) && Linked(w, w2, p, d) && FreePid(w, pid) && Fits(op) && |w2.pds[d].buffer| == BUFFER
    requires op.OpClose? <==> w2.pds[p].handles == 0
    ensures Safe(Send(w2, p, pid, op, d))
  {
    hide Links, Filled, Request;
    var w' := Send(w2, p, pid, op, d);
    Around(w, d);
    assert Beside(w, w', p, d) by {
      DaemonsPid(w, d);
    }
    SameAccounts(w2, w');
    PairSafe(w, w', p, d);
  }

  /** A process that sleeps in a daemon's read sleeps nowhere else. */
  lemma DaemonsPid(w: World, d: nat)
    requires Safe(w) && IsDaemon(w, d)
    ensures w.pds[d].paused == Pid(w.pds[d].call)
    ensures w.pds[d].paused != 0 ==> forall q :: 0 <= q < PATHS && q != d && Calling(w, q) ==> Pid(w.pds[q].call) != w.pds[d].paused
  {
    hide Links, Accounted;
    Around(w, d);
    if w.pds[d].paused != 0 {
      assert Calling(w, d);
    }
  }

  lemma SameAccounts(w: World, w': World)
    requires |w.pds| == |w'.pds| == PATHS
    requires forall q :: 0 <= q < PATHS && w.pds[q].Used? ==> Accounted(w, q)
    requires forall q :: 0 <= q < PATHS ==> w.pds[q].Used? == w'.pds[q].Used?
    requires forall q :: 0 <= q < PATHS && w.pds[q].Used? ==>
      && w.pds[q].peer == w'.pds[q].peer
      && Held(w.pds[q]) == Held(w'.pds[q])
    ensures forall q :: 0 <= q < PATHS && w'.pds[q].Used? ==> Accounted(w', q)
  {
    hide Links;
    forall q | 0 <= q < PATHS && w'.pds[q].Used?
      ensures Accounted(w', q)
    {
      assert Accounted(w, q);
      SameLinks(w.pds, w'.pds, q);
    }
  }

  /** The accounts after a step that concerns paths p and d only. */
  lemma PairAccounts(w: World, w': World, p: nat, d: nat)
    requires Safe(w) && Beside(w, w', p, d) && p != d && w'.pds[0].Unused?
    requires forall q :: 0 < q < PATHS && w'.pds[q].Used? ==>
      Held(w'.pds[q]) == (if w.pds[q].Used? then Held(w.pds[q]) else Links(w.pds, q))
        - One(w.pds[p], q) + One(w'.pds[p], q) - One(w.pds[d], q) + One(w'.pds[d], q)
    ensures forall q :: 0 <= q < PATHS && w'.pds[q].Used? ==> Accounted(w', q)
  {
    hide Links;
    forall q | 0 <= q < PATHS && w'.pds[q].Used?
      ensures Accounted(w', q)
    {
      assert w.pds[q].Used? ==> Accounted(w, q);
      PairLinks(w, w', p, d, q);
    }
  }

  lemma ClientCallSafe(w: World, p: nat, pid: nat, op: Op)
    requires Safe(w) && Enabled(w, ClientCall(p, pid, op))
    ensures Next(w, ClientCall(p, pid, op)).crashed || Safe(Next(w, ClientCall(p, pid, op)))
  {
    hide Links, Send;
    Around(w, p);
    var d := w.pds[p].peer;
    var w2 := SetPeer(w, d, p);
    if !w2.crashed {
      PairAccounts(w, w2, p, d);
      SendSafe(w, w2, p, pid, op, d);
    }
  }

  lemma OpenClientSafe(w: World, p: nat, pid: nat, device: nat, name: Name, op: Op)
    requires Safe(w) && 0 < p < PATHS && w.pds[p].Unused? && op.OpOpen? && op.path != [] && FreePid(w, pid)
    requires forall d :: 0 <= d < PATHS && IsDaemon(w, d) ==> |w.pds[d].buffer| == BUFFER
    ensures var r := OpenClient(w, p, pid, device, name, op);
      r.crashed || Safe(r)
  {
    hide Links, Send, Fold, FindFrom;
    var d := FindFrom(w, device, Fold(name), 1);
    if d != 0 {
      var w0 := With(w, p, Used(1, device, false, 0, 0, 0, [], [], 1, 0, Idle, []));
      var w1 := SetPeer(w0, p, d);
      var w2 := SetPeer(w1, d, p);
      if !w2.crashed && REQUEST + |op.path| <= BUFFER {
        Unlinked(w, p);
        PairAccounts(w, w2, p, d);
        SendSafe(w, w2, p, pid, op, d);
      }
    }
  }

  // ----- The other client steps -----

  lemma TickSafe(w: World, p: nat)
    requires Safe(w) && Enabled(w, TickOver(p))
    ensures Next(w, TickOver(p)).crashed || Safe(Next(w, TickOver(p)))
  {
    hide Links;
    var w' := Next(w, TickOver(p));
    var d := w.pds[p].peer;
    Around(w, p);
    if !w'.crashed {
      DaemonsPid(w, d);
      SameAccounts(w, w');
      PairSafe(w, w', p, d);
    }
  }

  predicate Refused(w: World, p: nat)
    requires IsClient(w, p) && w.pds[p].call.Waiting? && IsDaemon(w, w.pds[p].call.dae)
    requires w.pds[w.pds[p].call.dae].buffer != []
  {
    w.pds[p].call.op.OpOpen? && w.pds[w.pds[p].call.dae].buffer[0] != OKAY
  }

  /** What the end of a client call does: the path of a refused open and of a close is given back, but only
      the close takes the daemon's link away. */
  lemma WakeClientShape(w: World, p: nat)
    requires Safe(w) && Enabled(w, WakeClient(p))
    ensures IsDaemon(w, w.pds[p].peer) && w.pds[p].call.dae == w.pds[p].peer && |w.pds[w.pds[p].peer].buffer| == BUFFER
    ensures var w', d := Next(w, WakeClient(p)), w.pds[p].peer;
      var closed, dae := w.pds[p].call.op.OpClose?, w.pds[d];
      && Beside(w, w', p, d) && !w'.crashed && w'.awake == w.awake - {w.pds[p].call.pid}
      && w'.pds[p] == (if closed || Refused(w, p) then Unused else w.pds[p].(paused := 0, call := Idle))
      && w'.pds[d] == dae.(
        log := dae.log + [Resumed(p, dae.buffer)],
        refused := dae.refused + (if Refused(w, p) then 1 else 0),
        linkCount := dae.linkCount - if closed then 1 else 0)
  {
    hide Links;
    Around(w, p);
    assert Calling(w, p);
    NoneElse(w, p);
  }

  lemma WakeClientSafe(w: World, p: nat)
    requires Safe(w) && Enabled(w, WakeClient(p))
    ensures Safe(Next(w, WakeClient(p)))
  {
    hide Links, Resume;
    var w' := Next(w, WakeClient(p));
    var d := w.pds[p].peer;
    Around(w, p);
    WakeClientShape(w, p);
    NoneElse(w, p);
    DaemonsPid(w, d);
    assert PathSafe(w', d) && PathSafe(w', p);
    hide PathSafe, OneCallEach, NamesUnique, FreePid;
    PairAccounts(w, w', p, d);
    PairSafe(w, w', p, d);
  }

  /** An answered client has no one pointing at it. */
  lemma NoneElse(w: World, p: nat)
    requires Safe(w) && IsClient(w, p) && w.pds[p].call.Waiting? && w.pds[p].call.pid in w.awake
    ensures Links(w.pds, p) == 0
  {
    hide Links, Accounted;
    Around(w, p);
    forall q | 0 <= q < PATHS
      ensures !Points(w.pds[q], p)
    {
      assert PathSafe(w, q);
    }
    NoLinks(w.pds, p);
  }

  // ----- Daemons -----

  /** A step that concerns only daemon p keeps the invariant if it keeps it there. */
  lemma DaemonAlone(w: World, w': World, p: nat)
    requires Safe(w) && Beside(w, w', p, p) && !w'.crashed && IsDaemon(w, p) && IsDaemon(w', p)
    requires w'.pds[p].peer == w.pds[p].peer && w'.pds[p].name == w.pds[p].name && w'.pds[p].device == w.pds[p].device
    requires w.pds[p].linkCount - w.pds[p].handles == w'.pds[p].linkCount - w'.pds[p].handles
    requires w'.pds[p].refused == w.pds[p].refused && DaemonSafe(w', p)
    requires CallGoesOn(w, w', p)
    ensures Safe(w')
  {
    hide Links;
    Around(w, p);
    SameAccounts(w, w');
    forall q | 0 <= q < PATHS
      ensures PathSafe(w', q)
    {
      assert PathSafe(w, q);
    }
    hide PathSafe, Accounted, DaemonSafe;
    assert OneCallEach(w');
  }

  lemma DaemonReadSafe(w: World, p: nat, pid: nat)
    requires Safe(w) && Enabled(w, DaemonRead(p, pid))
    ensures Safe(Next(w, DaemonRead(p, pid)))
  {
    hide Links;
    Around(w, p);
    DaemonAlone(w, Next(w, DaemonRead(p, pid)), p);
  }

  /** A daemon that is woken always finds its client. */
  lemma WakeDaemonSafe(w: World, p: nat)
    requires Safe(w) && Enabled(w, WakeDaemon(p))
    ensures Safe(Next(w, WakeDaemon(p)))
  {
    hide Links;
    Around(w, p);
    DaemonsPid(w, p);
    DaemonAlone(w, Next(w, WakeDaemon(p)), p);
  }

  lemma DaemonWriteSafe(w: World, p: nat, bytes: seq<Byte>)
    requires Safe(w) && Enabled(w, DaemonWrite(p, bytes))
    ensures Next(w, DaemonWrite(p, bytes)).crashed || Safe(Next(w, DaemonWrite(p, bytes)))
  {
    hide Links;
    var w' := Next(w, DaemonWrite(p, bytes));
    var c := w.pds[p].peer;
    Around(w, p);
    if !w'.crashed {
      assert Calling(w, c);
      PairAccounts(w, w', c, p);
      PairSafe(w, w', c, p);
    }
  }

  lemma OpenDaemonSafe(w: World, p: nat, device: nat, name: Name, page: seq<Byte>)
    requires Safe(w) && 0 < p < PATHS && w.pds[p].Unused? && |page| == BUFFER && name != []
    ensures var r := OpenDaemon(w, p, device, name, page);
      r.crashed || Safe(r)
  {
    hide Links;
    var w' := OpenDaemon(w, p, device, name, page);
    if !w'.crashed && w' != w {
      Unlinked(w, p);
      Accounts(w, w', p);
      forall q | 0 <= q < PATHS
        ensures PathSafe(w', q)
      {
        assert PathSafe(w, q);
      }
      assert forall q :: 0 < q < PATHS ==> !Named(w, q, device, Fold(name));
      hide PathSafe, Accounted;
      forall a, b | 0 <= a < b && IsDaemon(w', a) && IsDaemon(w', b) && w'.pds[a].device == w'.pds[b].device
        ensures w'.pds[a].name != w'.pds[b].name
      {
        if a == p {
          assert !Named(w, b, device, Fold(name));
        } else if b == p {
          assert !Named(w, a, device, Fold(name));
        }
      }
    }
  }

  /** The accounts after a step that concerns path p only. */
  lemma Accounts(w: World, w': World, p: nat)
    requires Safe(w) && Beside(w, w', p, p) && w'.pds[0].Unused?
    requires forall q :: 0 < q < PATHS && w'.pds[q].Used? ==>
      Held(w'.pds[q]) == (if w.pds[q].Used? then Held(w.pds[q]) else Links(w.pds, q)) - One(w.pds[p], q) + One(w'.pds[p], q)
    ensures forall q :: 0 <= q < PATHS && w'.pds[q].Used? ==> Accounted(w', q)
  {
    hide Links;
    forall q | 0 <= q < PATHS && w'.pds[q].Used?
      ensures Accounted(w', q)
    {
      assert w.pds[q].Used? ==> Accounted(w, q);
      LinksUpdate(w.pds, p, w'.pds[p], q);
      assert w'.pds == w.pds[p := w'.pds[p]];
    }
  }

  // ----- Handles -----

  function Rehandled(w: World, p: nat, handles: nat): World
    requires p < |w.pds| && w.pds[p].Used?
  {
    With(w, p, w.pds[p].(linkCount := w.pds[p].linkCount + handles - w.pds[p].handles, handles := handles))
  }

  /** A step of IOMan's that changes how often path p is held, and its link count as much. */
  lemma HandlesSafe(w: World, p: nat, handles: nat)
    requires Safe(w) && p < PATHS && w.pds[p].Used?
    requires IsClient(w, p) ==> handles > 0 && w.pds[p].handles > 0
    ensures Safe(Rehandled(w, p, handles))
  {
    hide Links;
    var w' := Rehandled(w, p, handles);
    SameAccounts(w, w');
    hide Accounted;
    forall q | 0 <= q < PATHS
      ensures PathSafe(w', q)
    {
      Around(w, q);
      RehandledPath(w, p, handles, q);
    }
    hide PathSafe;
    assert OneCallEach(w');
    assert NamesUnique(w');
  }

  lemma RehandledPath(w: World, p: nat, handles: nat, q: nat)
    requires |w.pds| == PATHS && p < PATHS && w.pds[p].Used? && q < PATHS && PathSafe(w, q)
    requires IsClient(w, p) ==> handles > 0 && w.pds[p].handles > 0
    ensures PathSafe(Rehandled(w, p, handles), q)
  {
  }

  lemma DupPathSafe(w: World, p: nat)
    requires Safe(w) && Enabled(w, DupPath(p))
    ensures Safe(Next(w, DupPath(p)))
  {
    hide Links, PathSafe, Accounted;
    HandlesSafe(w, p, w.pds[p].handles + 1);
  }

  /** A path nothing points at and that points at nothing is given back. */
  lemma GiveBack(w: World, p: nat)
    requires Safe(w) && 0 < p < PATHS && IsDaemon(w, p) && w.pds[p].call.Idle? && Links(w.pds, p) == 0
    ensures Safe(With(w, p, Unused))
  {
    hide Links, Accounted;
    var w' := With(w, p, Unused);
    Around(w, p);
    if w.pds[p].peer != 0 {
      SomeLink(w.pds, w.pds[p].peer, p);
    }
    forall q | 0 <= q < PATHS
      ensures PathSafe(w', q)
    {
      assert PathSafe(w, q);
      if Points(w.pds[q], p) {
        SomeLink(w.pds, q, p);
      }
    }
    Accounts(w, w', p);
    hide PathSafe;
    assert OneCallEach(w');
    assert NamesUnique(w');
  }

  /** A client that is closed for the last time is in no call, its daemon is not linked to it, and it
      goes on to ask the daemon. */
  lemma LastClose(w: World, p: nat, pid: nat, op: Op)
    requires Safe(w) && Enabled(w, ClosePath(p, pid, op)) && IsClient(w, p) && w.pds[p].call.Idle? && w.pds[p].handles == 1
    ensures w.pds[p].linkCount == 1
    ensures Next(w, ClosePath(p, pid, op)).crashed || Safe(Next(w, ClosePath(p, pid, op)))
  {
    hide Links, Send;
    Around(w, p);
    Unlinked(w, p);
    var d := w.pds[p].peer;
    var w1 := With(w, p, w.pds[p].(linkCount := w.pds[p].linkCount - 1, handles := w.pds[p].handles - 1));
    var w2 := SetPeer(w1, d, p);
    if !w2.crashed {
      PairAccounts(w, w2, p, d);
      SendSafe(w, w2, p, pid, op, d);
    }
  }

  lemma ClosePathSafe(w: World, p: nat, pid: nat, op: Op)
    requires Safe(w) && Enabled(w, ClosePath(p, pid, op))
    ensures Next(w, ClosePath(p, pid, op)).crashed || Safe(Next(w, ClosePath(p, pid, op)))
  {
    hide Links, Operate;
    Around(w, p);
    var d := w.pds[p];
    var w1 := With(w, p, d.(linkCount := d.linkCount - 1, handles := d.handles - 1));
    if d.isDaemon {
      HandlesSafe(w, p, d.handles - 1);
      if d.call.Idle? && d.linkCount == 1 {
        assert Accounted(w1, p);
        GiveBack(w1, p);
      }
    } else if d.call.Idle? {
      Unlinked(w, p);
      if d.handles == 1 {
        LastClose(w, p, pid, op);
      } else {
        HandlesSafe(w, p, d.handles - 1);
      }
    } else {
      HandlesSafe(w, p, d.handles - 1);
    }
  }

  // ----- Runs -----

  /** No step from a safe state leaves the safe states, unless an assert stops the machine. */
  lemma StepSafe(w: World, a: Action)
    requires Safe(w) && Enabled(w, a)
    ensures Next(w, a).crashed || Safe(Next(w, a))
  {
    hide Links, Safe, Operate, Tick, Resume, Read, Deliver, Reply, Close, OpenClient, OpenDaemon, Accounted;
    match a {
      case OpenPath(p, pid, device, names, op, page) =>
        Around(w, p);
        if |names| == 3 && Fold(names[1]) == DAEMON {
          OpenDaemonSafe(w, p, device, names[2], page);
        } else if |names| > 1 {
          OpenClientSafe(w, p, pid, device, names[1], op);
        }
      case DupPath(p) => DupPathSafe(w, p);
      case ClientCall(p, pid, op) => ClientCallSafe(w, p, pid, op);
      case ClosePath(p, pid, op) => ClosePathSafe(w, p, pid, op);
      case TickOver(p) => TickSafe(w, p);
      case WakeClient(p) => WakeClientSafe(w, p);
      case DaemonRead(p, pid) => DaemonReadSafe(w, p, pid);
      case WakeDaemon(p) => WakeDaemonSafe(w, p);
      case DaemonWrite(p, bytes) => DaemonWriteSafe(w, p, bytes);
    }
  }

  /** What a schedule comes to. What is not possible when its turn comes does not happen. */
  ghost function Run(w: World, schedule: seq<Action>): (r: World)
    requires w.crashed || Safe(w)
    ensures r.crashed || Safe(r)
    decreases |schedule|
  {
    if w.crashed || schedule == [] then w
    else if Enabled(w, schedule[0]) then
      StepSafe(w, schedule[0]);
      Run(Next(w, schedule[0]), schedule[1..])
    else Run(w, schedule[1..])
  }

  /** The state before any path is open. */
  function Boot(): World {
    World(seq(PATHS, _ => Unused), {}, false)
  }

  lemma BootSafe()
    ensures Safe(Boot())
  {
  }

  /** After any schedule, of any number of clients and daemons, the machine has stopped at an assert, or: a
      daemon's peer is a client that points back at it and waits for it; a path's link count is what IOMan
      counts and what points at it, just when it has refused no open; and no two daemons of a device have
      one name. */
  lemma EveryRun(schedule: seq<Action>, p: nat, q: nat)
    requires 0 < p < q < PATHS
    ensures Safe(Boot())
    ensures var w := Run(Boot(), schedule);
      !w.crashed ==>
        && |w.pds| == PATHS
        && (IsDaemon(w, p) && w.pds[p].peer != 0 ==>
          IsClient(w, w.pds[p].peer) && w.pds[w.pds[p].peer].peer == p && !w.pds[w.pds[p].peer].call.Idle?)
        && (w.pds[p].Used? ==> (w.pds[p].linkCount - Links(w.pds, p) == w.pds[p].handles <==> w.pds[p].refused == 0))
        && (IsDaemon(w, p) && IsDaemon(w, q) && w.pds[p].device == w.pds[q].device ==> w.pds[p].name != w.pds[q].name)
  {
    BootSafe();
    var w := Run(Boot(), schedule);
    if !w.crashed {
      Around(w, p);
    }
  }

  // ----- A refused open -----

  const RAM: Name := [82, 65, 77]
  const NO_SUCH_THING: seq<Byte> := [216, 0, 0]
  const OPEN_RAM := OpOpen(0, 0, [82])

  lemma FoldsToItself()
    ensures Fold(RAM) == RAM && Fold(DAEMON) == DAEMON && Names([RAM, DAEMON, RAM]) && Names([RAM, RAM])
  {
    assert [RAM, DAEMON, RAM][1] == DAEMON;
  }

  lemma RunStep(w: World, a: Action, rest: seq<Action>)
    requires Safe(w) && Enabled(w, a)
    ensures Next(w, a).crashed || Safe(Next(w, a))
    ensures Run(w, [a] + rest) == Run(Next(w, a), rest)
  {
    StepSafe(w, a);
    assert ([a] + rest)[1..] == rest;
  }

  /** Daemon 1 as it reads, with no other path open. */
  predicate Listening(w: World, page: seq<Byte>) {
    w.pds == Boot().pds[1 := Used(1, 0, true, 1, 0, 0, RAM, page, 1, 0, Reading(1), [])] && w.awake == {} && !w.crashed
  }

  lemma DaemonListens(page: seq<Byte>) returns (schedule: seq<Action>, w: World)
    requires |page| == BUFFER
    ensures Listening(w, page) && Safe(Boot()) && Safe(w)
    ensures forall rest :: Run(Boot(), schedule + rest) == Run(w, rest)
  {
    hide Links, Accounted, PathSafe, OneCallEach, NamesUnique, Fold, FindFrom, Run;
    BootSafe();
    FoldsToItself();
    var a1 := OpenPath(1, 1, 0, [RAM, DAEMON, RAM], OPEN_RAM, page);
    var w1 := Boot().(pds := Boot().pds[1 := Used(1, 0, true, 0, 0, 0, RAM, page, 1, 0, Idle, [])]);
    NoDaemon(Boot());
    assert Next(Boot(), a1) == w1;
    var a2 := DaemonRead(1, 1);
    RunStep(Boot(), a1, []);
    w := Next(w1, a2);
    schedule := [a1, a2];
    StepSafe(w1, a2);
    forall rest
      ensures Run(Boot(), schedule + rest) == Run(w, rest)
    {
      RunStep(Boot(), a1, [a2] + rest);
      RunStep(w1, a2, rest);
      assert schedule + rest == [a1] + ([a2] + rest);
    }
  }

  lemma NoDaemon(w: World)
    requires |w.pds| == PATHS && forall p :: 0 <= p < PATHS ==> w.pds[p].Unused?
    ensures FindFrom(w, 0, RAM, 1) == 0
  {
  }

  /** A client's open wakes the daemon. */
  lemma ClientOpens(w: World, page: seq<Byte>) returns (a: Action, w': World)
    requires Safe(w) && Listening(w, page) && |page| == BUFFER
    ensures Enabled(w, a) && w' == Next(w, a) && !w'.crashed && Safe(w')
    ensures IsDaemon(w', 1) && w'.pds[1].call == Reading(1) && w'.pds[1].peer == 2 && w'.awake == {1} && w'.pds[1].refused == 0
    ensures IsClient(w', 2) && w'.pds[2].call == Waiting(2, OPEN_RAM, 1)
  {
    hide Links, Accounted, PathSafe, OneCallEach, NamesUnique, Fold, FindFrom, Filled, Request;
    FoldsToItself();
    a := OpenPath(2, 2, 0, [RAM, RAM], OPEN_RAM, page);
    assert Named(w, 1, 0, RAM);
    FirstDaemon(w);
    assert [RAM, RAM][1] == RAM;
    w' := Next(w, a);
    StepSafe(w, a);
  }

  lemma FirstDaemon(w: World)
    requires |w.pds| == PATHS && Named(w, 1, 0, RAM)
    ensures FindFrom(w, 0, RAM, 1) == 1
  {
  }

  /** The daemon reads it and answers with an error, and the client goes on. */
  lemma DaemonRefuses(w: World) returns (schedule: seq<Action>)
    requires Safe(w) && IsDaemon(w, 1) && w.pds[1].call == Reading(1) && w.pds[1].peer == 2 && 1 in w.awake
    requires w.pds[1].refused == 0 && IsClient(w, 2) && w.pds[2].call == Waiting(2, OPEN_RAM, 1)
    ensures var r := Run(w, schedule);
      !r.crashed && |r.pds| == PATHS && IsDaemon(r, 1) && r.pds[1].refused == 1
  {
    hide Links, Accounted, OneCallEach, NamesUnique, Run, Resume;
    Around(w, 1);
    Around(w, 2);
    var a4, a5, a6 := WakeDaemon(1), DaemonWrite(1, NO_SUCH_THING), WakeClient(2);
    WakeDaemonSafe(w, 1);
    var w4 := Next(w, a4);
    Around(w4, 1);
    DaemonWriteSafe(w4, 1, NO_SUCH_THING);
    var w5 := Next(w4, a5);
    assert !w5.crashed && w5.pds[1].buffer[0] == NO_SUCH_THING[0];
    WakeClientShape(w5, 2);
    WakeClientSafe(w5, 2);
    var w6 := Next(w5, a6);
    schedule := [a4] + ([a5] + ([a6] + []));
    hide PathSafe;
    RunStep(w, a4, [a5] + ([a6] + []));
    RunStep(w4, a5, [a6] + []);
    RunStep(w5, a6, []);
    assert Run(w6, []) == w6 by {
      RunNothing(w6);
    }
  }

  lemma RunNothing(w: World)
    requires Safe(w)
    ensures Run(w, []) == w
  {
  }

  /** There is a run, with no assert failing, after which a daemon's link count is not accounted for by what
      IOMan counts and what points at it. */
  lemma RefusalKeepsALink(page: seq<Byte>)
    requires |page| == BUFFER
    ensures Safe(Boot())
    ensures exists schedule ::
      var w := Run(Boot(), schedule);
      !w.crashed && |w.pds| == PATHS && IsDaemon(w, 1) && w.pds[1].linkCount - Links(w.pds, 1) != w.pds[1].handles
  {
    hide Links, PathSafe, OneCallEach, NamesUnique, Run;
    var first, w2 := DaemonListens(page);
    var a, w3 := ClientOpens(w2, page);
    var last := DaemonRefuses(w3);
    RunStep(w2, a, last);
    var w := Run(Boot(), first + ([a] + last));
    Around(w, 1);
  }
}
