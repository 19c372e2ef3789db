/** What is in the bytes that clients and daemons exchange, byte by byte (fuse1/fuse2.h, fuse1/fusec.c). */
module FuseLaws {
  import opened Fuse
  import opened FuseState

  /** The payload that r carries is that of an open, of a write, or the first line of a WritLn: up to a NUL, or
      with its end of line, or all of it. The others have none. */
  ghost predicate Carries(r: seq<Byte>, op: Op)
    requires |r| >= 6
  {
    match op
    case OpOpen(_, _, path) => r[6..] == path
    case OpWrite(_, _, memory) => |memory| >= 6 && r[6..] == memory[..|memory| - 6]
    case OpWritLn(_, _, memory) =>
      && |memory| >= 6 && r[6..] <= memory[..|memory| - 6]
      && (forall k :: 6 <= k < |r| ==> r[k] != 0)
      && (forall k :: 6 <= k < |r| - 1 ==> r[k] != 10 && r[k] != 13)
      && (|r| == |memory| || memory[|r| - 6] == 0 || (|r| > 6 && (r[|r| - 1] == 10 || r[|r| - 1] == 13)))
    case _ => |r| == 6
  }

  /** The six bytes of the header, and the payload after them. */
  lemma RequestIs(op: Op, p: nat)
    requires Fits(op) && p < PATHS
    ensures var r := Request(op, p);
      && |r| >= 6 && r[1] as int == p && r[2] == op.a && r[3] == op.b && Carries(r, op)
      && match op
         case OpOpen(_, _, path) => r[0] == 2 && 256 * r[4] as int + r[5] as int == |path|
         case OpClose(_, _, ry) => r[0] == 3 && 256 * r[4] as int + r[5] as int == ry
         case OpRead(_, _, ry) => r[0] == 4 && 256 * r[4] as int + r[5] as int == ry
         case OpWrite(_, _, memory) => r[0] == 5 && 256 * r[4] as int + r[5] as int == |memory| - 6
         case OpReadLn(_, _, ry) => r[0] == 6 && 256 * r[4] as int + r[5] as int == ry
         case OpWritLn(_, _, _) => r[0] == 7 && 256 * r[4] as int + r[5] as int == |r| - 6
  {
    var r := Request(op, p);
    assert r[..6] == Header(op, p) && r[6..] == Payload(op);
    assert forall k :: 0 <= k < 6 ==> r[k] == r[..6][k];
    if op.OpWritLn? {
      var text := op.memory[..|op.memory| - 6];
      LineIs(text);
      assert forall k :: 6 <= k < |r| ==> r[k] == r[6..][k - 6] == text[k - 6];
    }
  }

  lemma {:induction false} LineIs(text: seq<Byte>)
    ensures var n := LineLength(text);
      && (forall k :: 0 <= k < n ==> text[k] != 0)
      && (forall k :: 0 <= k < n - 1 ==> text[k] != 10 && text[k] != 13)
      && (n == |text| || text[n] == 0 || (n > 0 && (text[n - 1] == 10 || text[n - 1] == 13)))
    decreases |text|
  {
    if text != [] && text[0] != 0 && text[0] != 10 && text[0] != 13 {
      LineIs(text[1..]);
      assert forall k :: 1 <= k < |text| ==> text[k] == text[1..][k - 1];
    }
  }

  /** The same bytes are what stands in the daemon's buffer. */
  lemma BufferIs(buffer: seq<Byte>, op: Op, p: nat)
    requires Fits(op) && p < PATHS && |buffer| == BUFFER
    ensures Request(op, p) <= Filled(buffer, op, p)
  {
    FilledHoldsRequest(buffer, op, p);
  }

  /** A reply is a status, a size of two bytes, and for a read that went well so many bytes of data. */
  lemma AnswerIs(op: Op, reply: seq<Byte>, status: Byte, data: seq<Byte>)
    requires |data| < 65536 && reply == [status, |data| / 256, |data| % 256] + data
    ensures Wellformed(reply)
    ensures AnswerTo(op, reply)
         == Answer(status, |data|, if status == 0 && (op.OpRead? || op.OpReadLn?) then data else [])
  {
    assert reply[3..] == data;
    assert reply[3..3 + |data|] == data;
  }

  /** Folding takes the eighth bit off, which ends a name, and small letters to capitals. */
  lemma FoldIs(name: Name, k: nat)
    requires k < |name|
    ensures |Fold(name)| == |name|
    ensures var c, f := name[k] as int % 128, Fold(name)[k] as int;
      if 97 <= c <= 122 then f == c - 32 else f == c
  {}

  lemma DaemonSpells()
    ensures |DAEMON| == 6 && forall k :: 0 <= k < 6 ==> DAEMON[k] as int == "DAEMON"[k] as int
  {}

  /** How long a call may be: a path of up to 250 bytes, a write of up to 244, and any count in a register. */
  lemma FitsIs(op: Op)
    ensures match op
            case OpOpen(_, _, path) => Fits(op) <==> 0 < |path| <= 250
            case OpWrite(_, _, memory) => Fits(op) <==> 0 <= |memory| - 6 <= 244
            case OpWritLn(_, _, memory) => Fits(op) <==> 0 <= |memory| - 6 <= 244
            case OpClose(_, _, ry) => Fits(op) <==> ry < 65536
            case OpRead(_, _, ry) => Fits(op) <==> ry < 65536
            case OpReadLn(_, _, ry) => Fits(op) <==> ry < 65536
  {}

  // ----- Opening a daemon, and waiting for one -----

  /** A name in use on the device is refused, one of 27 characters or more stops the machine at an assert, and
      with any other the path is a daemon's, with one link, under the folded name. */
  lemma OpenDaemonIs(w: World, p: nat, device: nat, name: Name, page: seq<Byte>)
    requires |w.pds| == PATHS && 0 < p < PATHS && !w.crashed
    ensures var r := FuseState.OpenDaemon(w, p, device, name, page);
      if exists q :: 1 <= q < PATHS && FuseState.Named(w, q, device, Fold(name)) then r == w
      else if |name| > 26 then r.crashed
      else
        && !r.crashed && |r.pds| == PATHS && r.awake == w.awake
        && (forall q :: 0 <= q < PATHS && q != p ==> r.pds[q] == w.pds[q])
        && FuseState.Named(r, p, device, Fold(name)) && r.pds[p].linkCount == r.pds[p].handles as int == 1
        && r.pds[p].peer == 0 && r.pds[p].paused == 0 && r.pds[p].call.Idle? && r.pds[p].buffer == page
  {
    hide Fold;
  }

  predicate Seeking(w: World, p: nat) {
    && !w.crashed && IsClient(w, p) && w.pds[p].call.Searching? && IsDaemon(w, w.pds[p].call.dae)
    && w.pds[p].call.tries > 0
  }

  /** k ticks of a client that looks for its daemon. */
  function Ticks(w: World, p: nat, k: nat): World
    decreases k
  {
    if k == 0 || !Seeking(w, p) then w else Ticks(Tick(w, p), p, k - 1)
  }

  lemma {:induction false} TicksRunOut(w: World, p: nat, k: nat)
    requires Seeking(w, p) && w.pds[w.pds[p].call.dae].paused == 0 && k <= w.pds[p].call.tries
    ensures Ticks(w, p, k).crashed <==> k == w.pds[p].call.tries
    decreases k
  {
    if k > 0 && w.pds[p].call.tries > 1 {
      TicksRunOut(Tick(w, p), p, k - 1);
    } else if k > 0 {
      assert Ticks(Tick(w, p), p, 0) == Tick(w, p);
    }
  }

  /** A client that sends to a daemon that does not pause gives up at the fiftieth tick, and not before. */
  lemma GivesUp(w: World, p: nat, pid: nat, op: Op, d: nat, k: nat)
    requires |w.pds| == PATHS && IsClient(w, p) && IsDaemon(w, d) && Fits(op) && |w.pds[d].buffer| == BUFFER
    requires !w.crashed && w.pds[d].paused == 0 && k <= 50
    ensures Ticks(Send(w, p, pid, op, d), p, k).crashed <==> k == 50
  {
    hide Filled, Request, Fits;
    TicksRunOut(Send(w, p, pid, op, d), p, k);
  }
}
