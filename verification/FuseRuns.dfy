/** Runs in which clients take turns and daemons answer: no assert fails, every daemon reads the requests
    of its clients, and every client gets the answer to its own request. */
module FuseRuns {
  import opened FuseState
  import opened FuseSafety

  ghost predicate CallerOf(w: World, c: nat, d: nat) {
    IsClient(w, c) && Calling(w, c) && w.pds[c].peer == d
  }

  /** No client of d is in a call. */
  ghost predicate Quiet(w: World, d: nat) {
    forall c :: !CallerOf(w, c, d)
  }

  /** The rules of use: a client begins a call only when the one before has gone on; a daemon reads and
      writes in turn, never nothing, and pauses in time; names and paths are not too long. */
  ghost predicate Disciplined(w: World, a: Action)
    requires Safe(w) && Enabled(w, a)
  {
    match a
    case OpenPath(p, pid, device, names, op, page) =>
      if |names| == 3 && Fold(names[1]) == DAEMON then |names[2]| < NAME_MAX - 1
      else |names| > 1 ==> Fits(op) && Quiet(w, FindFrom(w, device, Fold(names[1]), 1))
    case DupPath(p) => true
    case ClientCall(p, pid, op) => Quiet(w, w.pds[p].peer)
    case ClosePath(p, pid, op) => IsClient(w, p) && w.pds[p].call.Idle? && w.pds[p].handles == 1 ==> Quiet(w, w.pds[p].peer)
    case TickOver(p) => w.pds[p].call.tries > 1
    case WakeClient(p) => true
    case DaemonRead(p, pid) => |w.pds[p].log| % 4 != 2
    case WakeDaemon(p) => true
    case DaemonWrite(p, bytes) => |w.pds[p].log| % 4 == 2 && bytes != []
  }

  // ----- What a daemon's path has seen -----

  /** A request, its delivery, a reply, and the same client going on with that reply before it; and again. */
  predicate Orderly(log: seq<Event>) {
    forall i :: 0 <= i < |log| ==> Follows(log, i)
  }

  predicate Follows(log: seq<Event>, i: nat)
    requires i < |log|
  {
    match log[i]
    case Sent(_, _) => i % 4 == 0
    case Delivered(bytes) => i % 4 == 1 && log[i - 1].Sent? && log[i - 1].bytes == bytes
    case Replied(_) => i % 4 == 2
    case Resumed(client, view) =>
      i % 4 == 3 && log[i - 1].Replied? && log[i - 1].bytes <= view && log[i - 3].Sent? && log[i - 3].client == client
  }

  lemma OneMore(log: seq<Event>, e: Event)
    requires Orderly(log) && Follows(log + [e], |log|)
    ensures Orderly(log + [e])
  {
    forall i | 0 <= i < |log|
      ensures Follows(log + [e], i)
    {
      assert Follows(log, i);
    }
  }

  ghost predicate OnlyCaller(w: World, c: nat, d: nat) {
    CallerOf(w, c, d) && forall q :: CallerOf(w, q, d) ==> q == c
  }

  /** The daemon is not being woken. */
  predicate Unwoken(w: World, d: nat)
    requires d < |w.pds| && w.pds[d].Used?
  {
    w.pds[d].call.Reading? ==> w.pds[d].call.pid !in w.awake
  }

  /** Where a daemon, its client and the buffer are, by the length of what its path has seen. */
  ghost predicate Phase(w: World, d: nat)
    requires IsDaemon(w, d)
  {
    var dae := w.pds[d];
    var n := |dae.log|;
    && Orderly(dae.log)
    && if n % 4 == 0 then
         dae.peer == 0 && Quiet(w, d) && Unwoken(w, d)
       else if n % 4 == 1 then
         && dae.log[n - 1].Sent?
         && var c := dae.log[n - 1].client;
         && OnlyCaller(w, c, d) && dae.peer == c && w.pds[c].bufLen <= |dae.buffer|
         && dae.buffer[..w.pds[c].bufLen] == dae.log[n - 1].bytes
         && if w.pds[c].call.Searching? then Unwoken(w, d) else dae.call.Reading? && dae.call.pid in w.awake
       else if n % 4 == 2 then
         && dae.log[n - 2].Sent?
         && var c := dae.log[n - 2].client;
         && OnlyCaller(w, c, d) && dae.peer == c && w.pds[c].call.Waiting? && dae.call.Idle?
       else
         && dae.log[n - 3].Sent? && dae.log[n - 1].Replied?
         && var c := dae.log[n - 3].client;
         && OnlyCaller(w, c, d) && dae.peer == 0 && w.pds[c].call.Waiting? && w.pds[c].call.pid in w.awake
         && dae.log[n - 1].bytes <= dae.buffer && Unwoken(w, d)
  }

  ghost predicate Calm(w: World) {
    Safe(w) && forall d :: 0 <= d < PATHS && IsDaemon(w, d) ==> Phase(w, d)
  }

  /** A step that concerns client p and daemon d leaves the other daemons where they are. */
  lemma OtherPhase(w: World, w': World, p: nat, d: nat, e: nat)
    requires Safe(w) && Safe(w') && Beside(w, w', p, d) && IsDaemon(w, e) && e != p && e != d && Phase(w, e)
    requires IsClient(w, p) ==> w.pds[p].peer == d || p == d
    requires IsClient(w', p) ==> w'.pds[p].peer == d || p == d
    requires IsClient(w, d) ==> d == p && w.pds[d].call.Idle?
    requires IsClient(w', d) ==> d == p && w'.pds[d].call.Idle?
    ensures IsDaemon(w', e) && Phase(w', e)
  {
    hide Orderly, Accounted, Links, PathSafe, OneCallEach, NamesUnique;
    forall q
      ensures CallerOf(w', q, e) == CallerOf(w, q, e)
    {
    }
  }

  /** A step that concerns client p and its daemon d, and leaves d in order, keeps the calm. */
  lemma PairCalm(w: World, w': World, p: nat, d: nat)
    requires Calm(w) && Safe(w') && Beside(w, w', p, d) && IsDaemon(w, d) && IsDaemon(w', d) && p != d
    requires !IsDaemon(w, p) && !IsDaemon(w', p) && Phase(w', d)
    requires IsClient(w, p) ==> w.pds[p].peer == d
    requires IsClient(w', p) ==> w'.pds[p].peer == d
    ensures Calm(w')
  {
    hide Safe, Phase, Beside;
    forall e | 0 <= e < PATHS && IsDaemon(w', e)
      ensures Phase(w', e)
    {
      if e != d {
        Elsewhere(w, w', p, d, e);
        OtherPhase(w, w', p, d, e);
      }
    }
  }

  lemma Elsewhere(w: World, w': World, p: nat, d: nat, e: nat)
    requires Calm(w) && Beside(w, w', p, d) && e < PATHS && e != d && e != p && IsDaemon(w', e)
    ensures IsDaemon(w, e) && Phase(w, e)
  {
    hide Safe, Phase;
  }

  /** A step that concerns daemon p only. */
  lemma DaemonCalm(w: World, w': World, p: nat)
    requires Calm(w) && Safe(w') && Beside(w, w', p, p) && 0 < p < PATHS && !IsClient(w, p) && !IsClient(w', p)
    requires IsDaemon(w', p) ==> Phase(w', p)
    ensures Calm(w')
  {
    hide Safe, Phase, Beside;
    forall e | 0 <= e < PATHS && IsDaemon(w', e)
      ensures Phase(w', e)
    {
      if e != p {
        Elsewhere(w, w', p, p, e);
        OtherPhase(w, w', p, p, e);
      }
    }
  }

  // ----- Beginning a client call -----

  /** When no client is in a call the daemon has answered all its requests. */
  lemma QuietMeansAnswered(w: World, d: nat)
    requires Calm(w) && d < PATHS && IsDaemon(w, d) && Quiet(w, d)
    ensures |w.pds[d].log| % 4 == 0 && Orderly(w.pds[d].log) && w.pds[d].peer == 0 && Unwoken(w, d)
  {
    hide Safe, Orderly;
    assert Phase(w, d);
  }

  lemma SendCalm(w: World, w2: World, p: nat, pid: nat, op: Op, d: nat)
    requires Calm(w) && Linked(w, w2, p, d) && FreePid(w, pid) && Fits(op) && |w2.pds[d].buffer| == BUFFER
    requires op.OpClose? <==> w2.pds[p].handles == 0
    requires Quiet(w, d)
    ensures Calm(Send(w2, p, pid, op, d))
  {
    hide Links, Filled, Request, Orderly, Follows, Accounted;
    QuietMeansAnswered(w, d);
    SendSafe(w, w2, p, pid, op, d);
    var w' := Send(w2, p, pid, op, d);
    var dae := w.pds[d];
    FilledHoldsRequest(dae.buffer, op, p);
    Began(dae.log, p, Request(op, p));
    Around(w, d);
    DaemonsPid(w, d);
    assert Beside(w, w', p, d);
    forall q
      ensures CallerOf(w', q, d) ==> q == p
    {
      assert !CallerOf(w, q, d);
    }
    assert CallerOf(w', p, d);
    assert Phase(w', d);
    hide Phase, Safe, Beside;
    PairCalm(w, w', p, d);
  }

  lemma Began(log: seq<Event>, p: nat, bytes: seq<Byte>)
    requires |log| % 4 == 0 && Orderly(log)
    ensures Orderly(log + [Sent(p, bytes)])
  {
    OneMore(log, Sent(p, bytes));
  }

  lemma ClientCallCalm(w: World, p: nat, pid: nat, op: Op)
    requires Calm(w) && Enabled(w, ClientCall(p, pid, op)) && Disciplined(w, ClientCall(p, pid, op))
    ensures Calm(Next(w, ClientCall(p, pid, op)))
  {
    hide Links, Send, Phase;
    Around(w, p);
    var d := w.pds[p].peer;
    QuietMeansAnswered(w, d);
    var w2 := SetPeer(w, d, p);
    PairAccounts(w, w2, p, d);
    SendCalm(w, w2, p, pid, op, d);
  }

  lemma OpenClientCalm(w: World, p: nat, pid: nat, device: nat, name: Name, op: Op)
    requires Calm(w) && 0 < p < PATHS && w.pds[p].Unused? && op.OpOpen? && op.path != [] && FreePid(w, pid) && Fits(op)
    requires forall d :: 0 <= d < PATHS && IsDaemon(w, d) ==> |w.pds[d].buffer| == BUFFER
    requires Quiet(w, FindFrom(w, device, Fold(name), 1))
    ensures Calm(OpenClient(w, p, pid, device, name, op))
  {
    hide Links, Send, Fold, FindFrom, Phase;
    var d := FindFrom(w, device, Fold(name), 1);
    if d != 0 {
      QuietMeansAnswered(w, d);
      var w0 := With(w, p, Used(1, device, false, 0, 0, 0, [], [], 1, 0, Idle, []));
      var w1 := SetPeer(w0, p, d);
      var w2 := SetPeer(w1, d, p);
      Unlinked(w, p);
      PairAccounts(w, w2, p, d);
      SendCalm(w, w2, p, pid, op, d);
    }
  }

  lemma LastCloseCalm(w: World, p: nat, pid: nat, op: Op)
    requires Calm(w) && Enabled(w, ClosePath(p, pid, op)) && IsClient(w, p) && w.pds[p].call.Idle? && w.pds[p].handles == 1
    requires Disciplined(w, ClosePath(p, pid, op))
    ensures Calm(Next(w, ClosePath(p, pid, op)))
  {
    hide Links, Send, Phase;
    Around(w, p);
    Unlinked(w, p);
    var d := w.pds[p].peer;
    QuietMeansAnswered(w, d);
    var w1 := With(w, p, w.pds[p].(linkCount := w.pds[p].linkCount - 1, handles := w.pds[p].handles - 1));
    var w2 := SetPeer(w1, d, p);
    PairAccounts(w, w2, p, d);
    SendCalm(w, w2, p, pid, op, d);
  }

  // ----- The rest of a call -----

  lemma TickCalm(w: World, p: nat)
    requires Calm(w) && Enabled(w, TickOver(p)) && Disciplined(w, TickOver(p))
    ensures Calm(Next(w, TickOver(p)))
  {
    hide Links, Orderly, Accounted;
    var w' := Next(w, TickOver(p));
    var d := w.pds[p].peer;
    Around(w, p);
    DaemonsPid(w, d);
    TickSafe(w, p);
    assert CallerOf(w, p, d) && Phase(w, d);
    assert Beside(w, w', p, d);
    SameCallers(w, w', p, d);
    assert Phase(w', d);
    hide Phase, Safe, Beside;
    PairCalm(w, w', p, d);
  }

  lemma SameCallers(w: World, w': World, p: nat, d: nat)
    requires Beside(w, w', p, d) && p != d && IsDaemon(w, d) && IsDaemon(w', d) && CallerOf(w, p, d) && CallerOf(w', p, d)
    ensures forall q :: CallerOf(w', q, d) == CallerOf(w, q, d)
  {
  }

  lemma WakeClientCalm(w: World, p: nat)
    requires Calm(w) && Enabled(w, WakeClient(p))
    ensures Calm(Next(w, WakeClient(p)))
  {
    hide Links, Orderly, Follows, Accounted, Resume;
    var w' := Next(w, WakeClient(p));
    var d := w.pds[p].peer;
    Around(w, p);
    WakeClientSafe(w, p);
    WakeClientShape(w, p);
    var dae := w.pds[d];
    assert CallerOf(w, p, d) && Phase(w, d);
    assert |dae.log| % 4 == 3 && dae.log[|dae.log| - 3].client == p;
    Ended(dae.log, p, dae.buffer);
    forall q
      ensures !CallerOf(w', q, d)
    {
      assert CallerOf(w, q, d) ==> q == p;
    }
    assert Phase(w', d);
    hide Phase, Safe, Beside;
    PairCalm(w, w', p, d);
  }

  lemma Ended(log: seq<Event>, p: nat, view: seq<Byte>)
    requires Orderly(log) && |log| % 4 == 3 && log[|log| - 3].Sent? && log[|log| - 3].client == p
    requires log[|log| - 1].Replied? && log[|log| - 1].bytes <= view
    ensures Orderly(log + [Resumed(p, view)])
  {
    OneMore(log, Resumed(p, view));
  }

  // ----- Daemons -----

  lemma DaemonReadCalm(w: World, p: nat, pid: nat)
    requires Calm(w) && Enabled(w, DaemonRead(p, pid)) && Disciplined(w, DaemonRead(p, pid))
    ensures Calm(Next(w, DaemonRead(p, pid)))
  {
    hide Links, Orderly, Accounted;
    var w' := Next(w, DaemonRead(p, pid));
    Around(w, p);
    DaemonReadSafe(w, p, pid);
    assert Phase(w, p);
    assert Beside(w, w', p, p);
    assert forall q :: CallerOf(w', q, p) == CallerOf(w, q, p);
    assert Phase(w', p);
    hide Phase, Safe, Beside;
    DaemonCalm(w, w', p);
  }

  lemma WakeDaemonCalm(w: World, p: nat)
    requires Calm(w) && Enabled(w, WakeDaemon(p))
    ensures Calm(Next(w, WakeDaemon(p)))
  {
    hide Links, Orderly, Follows, Accounted;
    var w' := Next(w, WakeDaemon(p));
    Around(w, p);
    DaemonsPid(w, p);
    WakeDaemonSafe(w, p);
    var dae := w.pds[p];
    assert Phase(w, p);
    assert |dae.log| % 4 == 1;
    Got(dae.log, dae.buffer[..w.pds[dae.peer].bufLen]);
    assert Beside(w, w', p, p);
    assert forall q :: CallerOf(w', q, p) == CallerOf(w, q, p);
    assert Phase(w', p);
    hide Phase, Safe, Beside;
    DaemonCalm(w, w', p);
  }

  lemma Got(log: seq<Event>, bytes: seq<Byte>)
    requires Orderly(log) && |log| % 4 == 1 && log[|log| - 1].Sent? && log[|log| - 1].bytes == bytes
    ensures Orderly(log + [Delivered(bytes)])
  {
    OneMore(log, Delivered(bytes));
  }

  lemma DaemonWriteCalm(w: World, p: nat, bytes: seq<Byte>)
    requires Calm(w) && Enabled(w, DaemonWrite(p, bytes)) && Disciplined(w, DaemonWrite(p, bytes))
    ensures Calm(Next(w, DaemonWrite(p, bytes)))
  {
    hide Links, Orderly, Follows, Accounted;
    var w' := Next(w, DaemonWrite(p, bytes));
    var dae := w.pds[p];
    var c := dae.peer;
    Around(w, p);
    assert Phase(w, p);
    assert CallerOf(w, c, p);
    DaemonWriteSafe(w, p, bytes);
    Answered(dae.log, bytes);
    assert bytes <= Blit(dae.buffer, 0, bytes);
    assert Beside(w, w', c, p);
    SameCallers(w, w', c, p);
    assert Phase(w', p);
    hide Phase, Safe, Beside;
    PairCalm(w, w', c, p);
  }

  lemma Answered(log: seq<Event>, bytes: seq<Byte>)
    requires Orderly(log) && |log| % 4 == 2
    ensures Orderly(log + [Replied(bytes)])
  {
    OneMore(log, Replied(bytes));
  }

  lemma OpenDaemonCalm(w: World, p: nat, device: nat, name: Name, page: seq<Byte>)
    requires Calm(w) && 0 < p < PATHS && w.pds[p].Unused? && |page| == BUFFER && name != [] && |name| < NAME_MAX - 1
    ensures Calm(OpenDaemon(w, p, device, name, page))
  {
    hide Links, Accounted;
    var w' := OpenDaemon(w, p, device, name, page);
    OpenDaemonSafe(w, p, device, name, page);
    if w' != w {
      forall q
        ensures !CallerOf(w', q, p)
      {
        if CallerOf(w', q, p) {
          Around(w, q);
        }
      }
      assert Beside(w, w', p, p);
      hide Safe, Beside;
      DaemonCalm(w, w', p);
    }
  }

  // ----- Handles -----

  /** How often a path is held plays no part. */
  lemma HandlesCalm(w: World, p: nat, handles: nat)
    requires Calm(w) && p < PATHS && w.pds[p].Used?
    requires IsClient(w, p) ==> handles > 0 && w.pds[p].handles > 0
    ensures Calm(Rehandled(w, p, handles))
  {
    var w' := Rehandled(w, p, handles);
    HandlesSafe(w, p, handles);
    hide Safe, Orderly;
    forall e | 0 <= e < PATHS && IsDaemon(w', e)
      ensures Phase(w', e)
    {
      assert IsDaemon(w, e) && Phase(w, e);
      SamePhase(w, p, handles, e);
    }
  }

  lemma SamePhase(w: World, p: nat, handles: nat, e: nat)
    requires p < |w.pds| && w.pds[p].Used? && IsDaemon(w, e) && Phase(w, e)
    ensures IsDaemon(Rehandled(w, p, handles), e) && Phase(Rehandled(w, p, handles), e)
  {
    hide Orderly;
    var w' := Rehandled(w, p, handles);
    assert forall q :: CallerOf(w', q, e) == CallerOf(w, q, e);
  }

  lemma DupPathCalm(w: World, p: nat)
    requires Calm(w) && Enabled(w, DupPath(p))
    ensures Calm(Next(w, DupPath(p)))
  {
    hide Links, Phase, PathSafe, Accounted;
    HandlesCalm(w, p, w.pds[p].handles + 1);
  }

  lemma GiveBackCalm(w: World, p: nat)
    requires Calm(w) && 0 < p < PATHS && IsDaemon(w, p) && w.pds[p].call.Idle? && Links(w.pds, p) == 0
    ensures Calm(With(w, p, Unused))
  {
    hide Links;
    GiveBack(w, p);
    assert Beside(w, With(w, p, Unused), p, p);
    hide Safe, Beside;
    DaemonCalm(w, With(w, p, Unused), p);
  }

  lemma ClosePathCalm(w: World, p: nat, pid: nat, op: Op)
    requires Calm(w) && Enabled(w, ClosePath(p, pid, op)) && Disciplined(w, ClosePath(p, pid, op))
    ensures Calm(Next(w, ClosePath(p, pid, op)))
  {
    hide Links, Operate, Phase;
    Around(w, p);
    var d := w.pds[p];
    var w1 := With(w, p, d.(linkCount := d.linkCount - 1, handles := d.handles - 1));
    if IsClient(w, p) && d.call.Idle? && d.handles == 1 {
      LastCloseCalm(w, p, pid, op);
    } else {
      HandlesCalm(w, p, d.handles - 1);
      if d.isDaemon && d.call.Idle? && d.linkCount == 1 {
        assert Accounted(w1, p);
        GiveBackCalm(w1, p);
      } else if d.call.Idle? && !d.isDaemon {
        Unlinked(w, p);
      }
    }
  }

  // ----- Runs -----

  /** A step by the rules never meets a failed assert. */
  lemma StepCalm(w: World, a: Action)
    requires Calm(w) && Enabled(w, a) && Disciplined(w, a)
    ensures !Next(w, a).crashed && Calm(Next(w, a))
  {
    hide Links, Safe, Operate, Tick, Resume, Read, Deliver, Reply, Close, OpenClient, OpenDaemon, Accounted, Phase;
    match a {
      case OpenPath(p, pid, device, names, op, page) =>
        Around(w, p);
        if |names| == 3 && Fold(names[1]) == DAEMON {
          OpenDaemonCalm(w, p, device, names[2], page);
        } else if |names| > 1 {
          OpenClientCalm(w, p, pid, device, names[1], op);
        }
      case DupPath(p) => DupPathCalm(w, p);
      case ClientCall(p, pid, op) => ClientCallCalm(w, p, pid, op);
      case ClosePath(p, pid, op) => ClosePathCalm(w, p, pid, op);
      case TickOver(p) => TickCalm(w, p);
      case WakeClient(p) => WakeClientCalm(w, p);
      case DaemonRead(p, pid) => DaemonReadCalm(w, p, pid);
      case WakeDaemon(p) => WakeDaemonCalm(w, p);
      case DaemonWrite(p, bytes) => DaemonWriteCalm(w, p, bytes);
    }
    CalmIsSafe(Next(w, a));
  }

  lemma CalmIsSafe(w: World)
    requires Calm(w)
    ensures Safe(w) && !w.crashed
  {
  }

  /** A run whose steps all keep the rules. */
  ghost predicate Kept(w: World, schedule: seq<Action>)
    requires Safe(w)
    decreases |schedule|
  {
    if schedule == [] then true
    else if Enabled(w, schedule[0]) then
      StepSafe(w, schedule[0]);
      Disciplined(w, schedule[0])
      && (Next(w, schedule[0]).crashed || Kept(Next(w, schedule[0]), schedule[1..]))
    else Kept(w, schedule[1..])
  }

  lemma BootCalm()
    ensures Calm(Boot())
  {
    BootSafe();
  }

  lemma {:induction false} KeptRunCalm(w: World, schedule: seq<Action>)
    requires Calm(w) && Kept(w, schedule)
    ensures Calm(Run(w, schedule)) && !Run(w, schedule).crashed
    decreases |schedule|
  {
    CalmIsSafe(w);
    hide Safe, Phase;
    if schedule != [] {
      if Enabled(w, schedule[0]) {
        StepCalm(w, schedule[0]);
        KeptRunCalm(Next(w, schedule[0]), schedule[1..]);
      } else {
        KeptRunCalm(w, schedule[1..]);
      }
    }
  }

  /** In every run by the rules no assert fails, and every daemon's path sees a request, its delivery byte
      for byte, a reply, and the same client going on with that reply; and again, in this order. */
  lemma EveryKeptRun(schedule: seq<Action>, d: nat)
    requires d < PATHS
    ensures Safe(Boot())
    ensures Kept(Boot(), schedule) ==>
      var w := Run(Boot(), schedule);
      !w.crashed && |w.pds| == PATHS && (IsDaemon(w, d) ==> Orderly(w.pds[d].log))
  {
    BootCalm();
    CalmIsSafe(Boot());
    if Kept(Boot(), schedule) {
      KeptRunCalm(Boot(), schedule);
      var w := Run(Boot(), schedule);
      assert IsDaemon(w, d) ==> Phase(w, d);
    }
  }
}
