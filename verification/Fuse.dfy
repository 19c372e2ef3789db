/** fuse1/fusec.c: the file manager's code, piece by piece between its sleeps, on the descriptors in place. */
module Fuse {
  import opened FuseRuns
  import opened FuseSafety
  import opened FuseState

  const CR: Byte := 13
  const LF: Byte := 10

  class Kernel {
    var pds: seq<PathDesc>
    var awake: set<nat>
    var crashed: bool

    function Now(): World
      reads this
    {
      World(pds, awake, crashed)
    }

    ghost predicate Valid()
      reads this
    {
      && !crashed && |pds| == PATHS && pds[0].Unused?
      && forall d :: 0 <= d < PATHS && IsDaemon(Now(), d) ==> |pds[d].buffer| == BUFFER
    }

    /** The state has become w; when an assert fails nothing else is said. */
    ghost predicate Became(w: World)
      reads this
    {
      if w.crashed then crashed else Now() == w
    }

    constructor ()
      ensures Valid() && pds == seq(PATHS, _ => Unused) && awake == {}
    {
      pds, awake, crashed := seq(PATHS, _ => Unused), {}, false;
    }

    /** ParsedNameEquals: the name in user memory against an upper-case string. */
    method ParsedNameEquals(name: Name, s: Name) returns (same: bool)
      ensures same <==> Fold(name) == s
    {
      var p := 0;
      while p < |s| && p < |name|
        invariant 0 <= p <= |s| && p <= |name|
        invariant forall k :: 0 <= k < p ==> ToUpper(name[k]) == s[k]
      {
        if ToUpper(name[p]) != s[p] {
          assert Fold(name)[p] != s[p];
          return false;
        }
        p := p + 1;
      }
      same := p == |name| && p == |s|;
    }

    /** CopyParsedName */
    method CopyParsedName(name: Name) returns (dest: Name)
      ensures dest == Fold(name)
    {
      dest := [];
      for p := 0 to |name|
        invariant |dest| == p && forall k :: 0 <= k < p ==> dest[k] == ToUpper(name[k])
      {
        dest := dest + [ToUpper(name[p])];
      }
    }

    /** FindDaemon: through the pages of the path table, four descriptors to a page. */
    method FindDaemon(device: nat, name: Name) returns (got: nat)
      requires Valid()
      ensures got == FindFrom(Now(), device, Fold(name), 1)
    {
      hide Fold;
      FromZero(Now(), device, Fold(name));
      for i := 0 to 64
        invariant FindFrom(Now(), device, Fold(name), 4 * i) == FindFrom(Now(), device, Fold(name), 1)
      {
        for j := 0 to 4
          invariant FindFrom(Now(), device, Fold(name), 4 * i + j) == FindFrom(Now(), device, Fold(name), 1)
        {
          if i != 0 || j != 0 {
            var pd := pds[4 * i + j];
            if pd.Used? && pd.device == device {
              if pd.isDaemon {
                var same := ParsedNameEquals(name, pd.name);
                if same {
                  return 4 * i + j;
                }
              }
            }
          }
        }
      }
      got := 0;
    }

    method SetPeer(subject: nat, target: nat)
      requires !crashed && subject < |pds| && target < |pds| && pds[subject].Used? && pds[target].Used?
      modifies this
      ensures Became(FuseState.SetPeer(old(Now()), subject, target))
    {
      if pds[subject].peer != 0 {
        crashed := true;
        return;
      }
      pds := pds[target := pds[target].(linkCount := pds[target].linkCount + 1)];
      pds := pds[subject := pds[subject].(peer := target)];
    }

    method ClearPeer(subject: nat, target: nat)
      requires !crashed && subject < |pds| && target < |pds| && pds[subject].Used? && pds[target].Used?
      modifies this
      ensures Became(FuseState.ClearPeer(old(Now()), subject, target))
    {
      if pds[subject].peer != target {
        crashed := true;
        return;
      }
      pds := pds[target := pds[target].(linkCount := pds[target].linkCount - 1)];
      pds := pds[subject := pds[subject].(peer := 0)];
    }

    /** Os9Awaken */
    method Awaken(p: nat)
      requires !crashed && p < |pds| && pds[p].Used?
      modifies this
      ensures if old(pds)[p].paused == 0 then crashed
              else Now() == old(Now()).(awake := old(awake) + {old(pds)[p].paused})
    {
      if pds[p].paused == 0 {
        crashed := true;
        return;
      }
      awake := awake + {pds[p].paused};
    }

    /** SwitchProcess, up to its next sleep. */
    method SwitchProcess(from: nat, pid: nat, op: Op, to: nat, timeout: nat)
      requires !crashed && IsClient(Now(), from) && IsDaemon(Now(), to)
      modifies this
      ensures Became(Switch(old(Now()), from, pid, op, to, timeout))
    {
      if pds[to].paused == 0 {
        pds := pds[from := pds[from].(call := Searching(pid, op, to, timeout))];
        return;
      }
      Awaken(to);
      pds := pds[from := pds[from].(paused := pid, call := Waiting(pid, op, to))];
    }

    /** The turn after a tick of sleep. */
    method SwitchTurn(from: nat)
      requires !crashed && IsClient(Now(), from) && pds[from].call.Searching? && pds[from].call.tries > 0
      requires IsDaemon(Now(), pds[from].call.dae)
      modifies this
      ensures Became(Tick(old(Now()), from))
    {
      var c := pds[from].call;
      var timeout := c.tries - 1;
      if timeout == 0 {
        crashed := true;
        return;
      }
      SwitchProcess(from, c.pid, c.op, c.dae, timeout);
    }

    /** OpenDaemon */
    method OpenDaemon(dae: nat, device: nat, name: Name, page: seq<Byte>)
      requires Valid() && 0 < dae < PATHS && pds[dae].Unused?
      modifies this
      ensures Became(FuseState.OpenDaemon(old(Now()), dae, device, name, page))
    {
      var already := FindDaemon(device, name);
      if already != 0 {
        return;
      }
      if |name| >= NAME_MAX - 1 {
        crashed := true;
        return;
      }
      var copy := CopyParsedName(name);
      pds := pds[dae := Used(1, device, true, 0, 0, 0, copy, page, 1, 0, Idle, [])];
    }

    /** The loop that cuts a WritLn at its end of line. */
    method LineEnd(payload: seq<Byte>) returns (i: nat)
      ensures i == LineLength(payload)
    {
      i := 0;
      while i < |payload|
        invariant i <= |payload| && LineLength(payload) == i + LineLength(payload[i..])
      {
        var ch := payload[i];
        if ch == 0 {
          break;
        }
        if ch == LF || ch == CR {
          i := i + 1;
          return;
        }
        i := i + 1;
      }
    }

    /** The request's header and payload into the buffer, and the length of the whole. */
    method FillBuffer(cli: nat, op: Op, was: seq<Byte>) returns (buffer: seq<Byte>, bufLen: nat)
      requires Fits(op) && |was| == BUFFER && cli < PATHS
      ensures buffer == Filled(was, op, cli) && bufLen == |Request(op, cli)|
    {
      var size := 0;
      match op {
        case OpClose(_, _, ry) => size := ry;
        case OpRead(_, _, ry) => size := ry;
        case OpReadLn(_, _, ry) => size := ry;
        case OpOpen(_, _, path) => size := |path|;
        case OpWrite(_, _, memory) => size := |memory| - REQUEST;
        case OpWritLn(_, _, memory) => size := LineEnd(memory[..|memory| - REQUEST]);
      }
      bufLen := if op.OpOpen? || op.OpWrite? || op.OpWritLn? then REQUEST + size else REQUEST;
      var header := [Code(op), cli, op.a, op.b, size / 256, size % 256];
      assert header == Header(op, cli);
      buffer := header + was[REQUEST..];
      assert buffer == Blit(was, 0, header);
      buffer := buffer[..REQUEST] + Copied(op) + buffer[REQUEST + |Copied(op)|..];
    }

    /** Both clients' calls from here to their sleep: the request goes to the daemon's buffer. */
    method SendRequest(cli: nat, pid: nat, op: Op, dae: nat)
      requires !crashed && |pds| == PATHS && IsClient(Now(), cli) && IsDaemon(Now(), dae) && Fits(op)
      requires |pds[dae].buffer| == BUFFER && cli < PATHS
      modifies this
      ensures Became(Send(old(Now()), cli, pid, op, dae))
    {
      hide Filled, Request, Fits;
      var buffer, bufLen := FillBuffer(cli, op, pds[dae].buffer);
      pds := pds[dae := pds[dae].(buffer := buffer, log := pds[dae].log + [Sent(cli, Request(op, cli))])];
      pds := pds[cli := pds[cli].(bufLen := bufLen)];
      SwitchProcess(cli, pid, op, dae, TIMEOUT);
    }

    /** OpenClient, up to its sleep. */
    method OpenClient(cli: nat, pid: nat, device: nat, name: Name, op: Op)
      requires Valid() && 0 < cli < PATHS && pds[cli].Unused? && op.OpOpen? && op.path != []
      modifies this
      ensures Became(FuseState.OpenClient(old(Now()), cli, pid, device, name, op))
    {
      var dae := FindDaemon(device, name);
      if dae == 0 {
        return;
      }
      pds := pds[cli := Used(1, device, false, 0, 0, 0, [], [], 1, 0, Idle, [])];
      SetPeer(cli, dae);
      if crashed {
        return;
      }
      SetPeer(dae, cli);
      if crashed {
        return;
      }
      if REQUEST + |op.path| > BUFFER {
        crashed := true;
        return;
      }
      SendRequest(cli, pid, op, dae);
    }

    /** ClientOperationC, up to its sleep. */
    method ClientOperation(cli: nat, pid: nat, op: Op)
      requires !crashed && |pds| == PATHS && IsClient(Now(), cli) && IsDaemon(Now(), pds[cli].peer) && Fits(op)
      requires |pds[pds[cli].peer].buffer| == BUFFER
      modifies this
      ensures Became(Operate(old(Now()), cli, pid, op))
    {
      var dae := pds[cli].peer;
      SetPeer(dae, cli);
      if crashed {
        return;
      }
      SendRequest(cli, pid, op, dae);
    }

    /** The rest of OpenClient, ClientOperationC and CloseC, and what IOMan then does with the path. */
    method ClientGoesOn(cli: nat)
      requires !crashed && |pds| == PATHS && IsClient(Now(), cli) && pds[cli].call.Waiting?
      requires IsDaemon(Now(), pds[cli].call.dae) && |pds[pds[cli].call.dae].buffer| == BUFFER && IsDaemon(Now(), pds[cli].peer)
      modifies this
      ensures Became(Resume(old(Now()), cli))
    {
      var c := pds[cli].call;
      awake := awake - {c.pid};
      pds := pds[cli := pds[cli].(paused := 0, call := Idle)];
      var reply := pds[c.dae].buffer;
      pds := pds[c.dae := pds[c.dae].(log := pds[c.dae].log + [Resumed(cli, reply)])];
      if c.op.OpOpen? && reply[0] != OKAY {
        pds := pds[c.dae := pds[c.dae].(refused := pds[c.dae].refused + 1)];
        pds := pds[cli := Unused];
      } else if c.op.OpClose? {
        ClearPeer(cli, pds[cli].peer);
        if !crashed && pds[cli].linkCount == 0 {
          pds := pds[cli := Unused];
        }
      }
    }

    /** DaemonReadC, up to its sleep. */
    method DaemonRead(dae: nat, pid: nat)
      requires !crashed && IsDaemon(Now(), dae)
      modifies this
      ensures Became(Read(old(Now()), dae, pid))
    {
      pds := pds[dae := pds[dae].(paused := pid, call := Reading(pid))];
    }

    /** The rest of DaemonReadC: what the daemon's process gets. */
    method DaemonGoesOn(dae: nat) returns (got: seq<Byte>)
      requires !crashed && IsDaemon(Now(), dae) && pds[dae].call.Reading?
      modifies this
      ensures Became(Deliver(old(Now()), dae))
      ensures !crashed ==> pds[dae].log == old(pds)[dae].log + [Delivered(got)]
    {
      got := [];
      var d := pds[dae];
      awake := awake - {d.call.pid};
      pds := pds[dae := d.(paused := 0)];
      var cli := d.peer;
      if cli == 0 || cli >= |pds| || !pds[cli].Used? || pds[cli].isDaemon || pds[cli].peer != dae || pds[cli].bufLen > |d.buffer| {
        crashed := true;
        return;
      }
      got := d.buffer[..pds[cli].bufLen];
      pds := pds[dae := pds[dae].(call := Idle, log := d.log + [Delivered(got)])];
    }

    /** DaemonWriteC */
    method DaemonWrite(dae: nat, bytes: seq<Byte>)
      requires !crashed && |pds| == PATHS && IsDaemon(Now(), dae) && |bytes| <= |pds[dae].buffer|
      modifies this
      ensures Became(Reply(old(Now()), dae, bytes))
    {
      var cli := pds[dae].peer;
      if cli == 0 || cli >= |pds| || !pds[cli].Used? || pds[cli].isDaemon || bytes == [] {
        crashed := true;
        return;
      }
      var d := pds[dae];
      pds := pds[dae := d.(buffer := Blit(d.buffer, 0, bytes), bufLen := |bytes|, log := d.log + [Replied(bytes)])];
      ClearPeer(dae, cli);
      Awaken(cli);
    }

    /** I$Close and CloseC, up to its sleep. */
    method CloseC(p: nat, pid: nat, op: Op)
      requires !crashed && |pds| == PATHS && 0 < p < PATHS && pds[p].Used? && pds[p].handles > 0 && op.OpClose? && Fits(op)
      requires IsClient(Now(), p) ==> IsDaemon(Now(), pds[p].peer) && |pds[pds[p].peer].buffer| == BUFFER
      modifies this
      ensures Became(Close(old(Now()), p, pid, op))
    {
      pds := pds[p := pds[p].(linkCount := pds[p].linkCount - 1, handles := pds[p].handles - 1)];
      if !pds[p].call.Idle? || pds[p].linkCount != 0 {
        return;
      }
      if pds[p].isDaemon {
        pds := pds[p := Unused];
      } else {
        ClientOperation(p, pid, op);
      }
    }

    /** CreateOrOpenC, up to its sleep. */
    method Open(p: nat, pid: nat, device: nat, names: seq<Name>, op: Op, page: seq<Byte>)
      requires Valid() && 0 < p < PATHS && pds[p].Unused? && op.OpOpen? && op.path != []
      modifies this
      ensures Became(FuseState.Open(old(Now()), p, pid, device, names, op, page))
    {
      var daemon := false;
      if |names| == 3 {
        daemon := ParsedNameEquals(names[1], DAEMON);
      }
      if daemon {
        OpenDaemon(p, device, names[2], page);
      } else if |names| > 1 {
        OpenClient(p, pid, device, names[1], op);
      }
    }

    /** I$Dup */
    method Dup(p: nat)
      requires !crashed && p < |pds| && pds[p].Used?
      modifies this
      ensures Now() == FuseState.Dup(old(Now()), p)
    {
      pds := pds[p := pds[p].(linkCount := pds[p].linkCount + 1, handles := pds[p].handles + 1)];
    }

    // ----- Steps and runs of the whole -----

    /** Whatever the system lets happen next, done on the descriptors in place. It stays safe or stops at
        an assert; if it keeps the rules, it meets no failed assert and daemons and clients stay in phase. */
    method Perform(a: Action)
      requires Safe(Now()) && Enabled(Now(), a)
      modifies this
      ensures Became(Next(old(Now()), a)) && (crashed || Safe(Now()))
      ensures old(Calm(Now()) && Disciplined(Now(), a)) ==> !crashed && Calm(Now())
    {
      hide Safe, Calm, Disciplined, Links, Accounted, Operate, Resume, Reply, Close, FuseState.Open, Tick, Deliver, Read;
      StepSafe(Now(), a);
      Around(Now(), a.p);
      if Calm(Now()) && Disciplined(Now(), a) {
        StepCalm(Now(), a);
      }
      match a {
        case OpenPath(p, pid, device, names, op, page) => Open(p, pid, device, names, op, page);
        case DupPath(p) => Dup(p);
        case ClientCall(p, pid, op) => ClientOperation(p, pid, op);
        case ClosePath(p, pid, op) => CloseC(p, pid, op);
        case TickOver(p) => SwitchTurn(p);
        case WakeClient(p) => ClientGoesOn(p);
        case DaemonRead(p, pid) => DaemonRead(p, pid);
        case WakeDaemon(p) => var _ := DaemonGoesOn(p);
        case DaemonWrite(p, bytes) => DaemonWrite(p, bytes);
      }
    }

    /** A whole schedule, leaving out what is not possible when its turn comes. The descriptors become what
        the run comes to. Unless an assert fails, whoever is linked is linked to a client that points back,
        links are accounted for, and names are unique; by the rules no assert fails. */
    method RunAll(schedule: seq<Action>)
      requires crashed || Safe(Now())
      modifies this
      ensures Became(Run(old(Now()), schedule))
      ensures crashed || (Safe(Now()) && Consistent(Now()))
      ensures old(Safe(Now()) && Calm(Now()) && Kept(Now(), schedule)) ==> !crashed && Calm(Now())
    {
      hide Safe, Calm, Disciplined, Enabled, Next, Consistent;
      ghost var end, kept := Run(Now(), schedule), Safe(Now()) && Calm(Now()) && Kept(Now(), schedule);
      if kept {
        Shape(Now());
      }
      var i := 0;
      assert schedule[0..] == schedule;
      while i < |schedule| && !crashed
        invariant 0 <= i <= |schedule| && (crashed || Safe(Now()))
        invariant if crashed then end.crashed && !kept else Run(Now(), schedule[i..]) == end
        invariant kept ==> Calm(Now()) && Kept(Now(), schedule[i..])
        decreases |schedule| - i
      {
        assert schedule[i..][0] == schedule[i] && schedule[i..][1..] == schedule[i + 1..];
        Shape(Now());
        if Enabled(Now(), schedule[i]) {
          Perform(schedule[i]);
        }
        i := i + 1;
      }
      if !crashed {
        assert schedule[i..] == [];
        SafeIsConsistent(Now());
      }
    }
  }

  lemma Shape(w: World)
    requires Safe(w)
    ensures |w.pds| == PATHS && !w.crashed
  {}

  /** A linked daemon's client points back and is in a call, link counts are accounted for exactly where no
      open was refused, and no two daemons of a device have one name. */
  ghost predicate Consistent(w: World) {
    && |w.pds| == PATHS
    && (forall p :: 0 <= p < PATHS && IsDaemon(w, p) && w.pds[p].peer != 0 ==>
          IsClient(w, w.pds[p].peer) && w.pds[w.pds[p].peer].peer == p && !w.pds[w.pds[p].peer].call.Idle?)
    && (forall p :: 0 <= p < PATHS && w.pds[p].Used? ==>
          (w.pds[p].linkCount - Links(w.pds, p) == w.pds[p].handles <==> w.pds[p].refused == 0))
    && (forall p, q :: 0 <= p < q && IsDaemon(w, p) && IsDaemon(w, q) && w.pds[p].device == w.pds[q].device ==>
          w.pds[p].name != w.pds[q].name)
  }

  lemma SafeIsConsistent(w: World)
    requires Safe(w)
    ensures Consistent(w)
  {
    hide Links;
    forall p | 0 <= p < PATHS
      ensures PathSafe(w, p) && (w.pds[p].Used? ==> Accounted(w, p))
    {
      Around(w, p);
    }
  }

  /** From the start, on the descriptors themselves: what every schedule leaves, and what every schedule by
      the rules leaves on the daemons' paths. */
  method RunFromBoot(schedule: seq<Action>) returns (k: Kernel)
    ensures Safe(Boot()) && fresh(k)
    ensures k.Became(Run(Boot(), schedule)) && (k.crashed || Consistent(k.Now()))
    ensures Kept(Boot(), schedule) ==>
      !k.crashed && forall d :: 0 <= d < PATHS && IsDaemon(k.Now(), d) ==> Orderly(k.pds[d].log)
  {
    hide Run, Consistent, Kept;
    BootCalm();
    k := new Kernel();
    assert k.Now() == Boot();
    k.RunAll(schedule);
    if Kept(Boot(), schedule) {
      CalmIsOrderly(k.Now());
    }
  }

  lemma CalmIsOrderly(w: World)
    requires Calm(w)
    ensures forall d :: 0 <= d < PATHS && IsDaemon(w, d) ==> Orderly(w.pds[d].log)
  {
    hide Orderly, PathSafe, Accounted;
    forall d | 0 <= d < PATHS && IsDaemon(w, d)
      ensures Orderly(w.pds[d].log)
    {
      assert Phase(w, d);
    }
  }

  lemma FromZero(w: World, device: nat, name: Name)
    requires |w.pds| == PATHS && w.pds[0].Unused?
    ensures FindFrom(w, device, name, 0) == FindFrom(w, device, name, 1)
  {
  }

  // ----- What a client makes of the reply -----

  /** The status, and for a read the bytes that go to the user's buffer. */
  datatype Answer = Answer(status: Byte, size: nat, data: seq<Byte>)

  function ReplySize(view: seq<Byte>): nat
    requires |view| >= REPLY
  {
    view[1] as int * 256 + view[2] as int
  }

  /** A reply as long as it says it is. */
  predicate Wellformed(reply: seq<Byte>) {
    |reply| >= REPLY && REPLY + ReplySize(reply) <= |reply|
  }

  function AnswerTo(op: Op, view: seq<Byte>): Answer
    requires Wellformed(view)
  {
    var size := ReplySize(view);
    Answer(view[0], size, if view[0] == OKAY && (op.OpRead? || op.OpReadLn?) then view[REPLY..REPLY + size] else [])
  }

  /** Of all that is in the buffer a client only sees the reply. */
  lemma OnlyTheReply(op: Op, reply: seq<Byte>, view: seq<Byte>)
    requires Wellformed(reply) && reply <= view
    ensures Wellformed(view) && AnswerTo(op, view) == AnswerTo(op, reply)
  {
    assert forall k :: 0 <= k < |reply| ==> view[k] == reply[k];
    assert view[REPLY..REPLY + ReplySize(reply)] == reply[REPLY..REPLY + ReplySize(reply)];
  }
}
