/** fuse1/fusec.c: the path descriptors that clients and daemons share, and what each piece of kernel code
    between two sleeps does to them. Every function here runs without a break. */
module FuseState {
  type Byte = b: int | 0 <= b < 256
  type Name = seq<Byte>

  const PATHS := 256
  const BUFFER := 256
  const NAME_MAX := 28
  const TIMEOUT := 50
  const REQUEST := 6
  const REPLY := 3
  const OKAY: Byte := 0

  // ----- Requests -----

  /** A client call, with the registers and user memory it comes with. For the writes, `memory` is what
      lies at the buffer address: the ry bytes to write and the six after them, which are copied along. */
  datatype Op =
    | OpOpen(a: Byte, b: Byte, path: seq<Byte>)
    | OpClose(a: Byte, b: Byte, ry: nat)
    | OpRead(a: Byte, b: Byte, ry: nat)
    | OpReadLn(a: Byte, b: Byte, ry: nat)
    | OpWrite(a: Byte, b: Byte, memory: seq<Byte>)
    | OpWritLn(a: Byte, b: Byte, memory: seq<Byte>)

  /** The sizes fit the registers, and what is copied fits the kernel buffer. */
  predicate Fits(op: Op) {
    match op
    case OpOpen(_, _, path) => 0 < |path| && REQUEST + |path| <= BUFFER
    case OpClose(_, _, ry) => ry < 65536
    case OpRead(_, _, ry) => ry < 65536
    case OpReadLn(_, _, ry) => ry < 65536
    case OpWrite(_, _, memory) => REQUEST <= |memory| && REQUEST + |memory| <= BUFFER
    case OpWritLn(_, _, memory) => REQUEST <= |memory| && REQUEST + |memory| <= BUFFER
  }

  function Code(op: Op): Byte {
    match op
    case OpOpen(_, _, _) => 2
    case OpClose(_, _, _) => 3
    case OpRead(_, _, _) => 4
    case OpWrite(_, _, _) => 5
    case OpReadLn(_, _, _) => 6
    case OpWritLn(_, _, _) => 7
  }

  /** The length of the line at the start of text: up to a NUL, or with its end of line. */
  function LineLength(text: seq<Byte>): (n: nat)
    ensures n <= |text|
  {
    if text == [] || text[0] == 0 then 0
    else if text[0] == 10 || text[0] == 13 then 1
    else 1 + LineLength(text[1..])
  }

  /** The bytes of user memory that go to the buffer, after the header. */
  function Copied(op: Op): seq<Byte> {
    match op
    case OpOpen(_, _, path) => path
    case OpWrite(_, _, memory) => memory
    case OpWritLn(_, _, memory) => memory
    case _ => []
  }

  /** The payload the daemon is meant to get. */
  function Payload(op: Op): seq<Byte>
    requires Fits(op)
  {
    match op
    case OpOpen(_, _, path) => path
    case OpWrite(_, _, memory) => memory[..|memory| - REQUEST]
    case OpWritLn(_, _, memory) => memory[..LineLength(memory[..|memory| - REQUEST])]
    case _ => []
  }

  function Size(op: Op): nat
    requires Fits(op)
  {
    match op
    case OpClose(_, _, ry) => ry
    case OpRead(_, _, ry) => ry
    case OpReadLn(_, _, ry) => ry
    case _ => |Payload(op)|
  }

  function Header(op: Op, p: nat): (h: seq<Byte>)
    requires Fits(op) && p < PATHS
    ensures |h| == REQUEST
  {
    [Code(op), p, op.a, op.b, Size(op) / 256, Size(op) % 256]
  }

  /** The request of path p: what the daemon is to read. */
  function Request(op: Op, p: nat): (r: seq<Byte>)
    requires Fits(op) && p < PATHS
    ensures REQUEST <= |r| <= BUFFER
  {
    Header(op, p) + Payload(op)
  }

  function Blit(buffer: seq<Byte>, at: nat, bytes: seq<Byte>): (b: seq<Byte>)
    requires at + |bytes| <= |buffer|
    ensures |b| == |buffer|
  {
    buffer[..at] + bytes + buffer[at + |bytes|..]
  }

  /** The kernel buffer once a client has put its request there. */
  function Filled(buffer: seq<Byte>, op: Op, p: nat): (b: seq<Byte>)
    requires Fits(op) && p < PATHS && |buffer| == BUFFER
    ensures |b| == BUFFER
  {
    Blit(Blit(buffer, 0, Header(op, p)), REQUEST, Copied(op))
  }

  /** Whatever was in the buffer and whatever is copied too much, the request is at its start. */
  lemma FilledHoldsRequest(buffer: seq<Byte>, op: Op, p: nat)
    requires Fits(op) && p < PATHS && |buffer| == BUFFER
    ensures Filled(buffer, op, p)[..|Request(op, p)|] == Request(op, p)
  {
    var b, r := Filled(buffer, op, p), Request(op, p);
    var copied := Copied(op);
    assert b[..REQUEST] == Header(op, p);
    assert b[REQUEST..REQUEST + |copied|] == copied;
    assert b[REQUEST..|r|] == copied[..|r| - REQUEST];
    assert b[..|r|] == b[..REQUEST] + b[REQUEST..|r|];
  }

  /** MoveToKernel has no bound. What lies behind the buffer in kernel memory is safe from a copy of n bytes,
      whatever they are, if and only if the copy ends inside the buffer. */
  lemma CopyStaysInside(at: nat, n: nat)
    requires n > 0
    ensures (forall kernel, bytes | |bytes| == n && at + n <= |kernel| && BUFFER <= |kernel| ::
               Blit(kernel, at, bytes)[BUFFER..] == kernel[BUFFER..])
       <==> at + n <= BUFFER
  {
    if at + n > BUFFER {
      var kernel: seq<Byte>, bytes: seq<Byte> := seq(at + n, _ => 0), seq(n, _ => 1);
      var after := Blit(kernel, at, bytes);
      assert after[at + n - 1] == 1 && kernel[at + n - 1] == 0;
      assert after[BUFFER..][at + n - 1 - BUFFER] != kernel[BUFFER..][at + n - 1 - BUFFER];
    }
  }

  /** For a client's write of ry bytes, which is copied with the six bytes after it, that is ry <= 244. */
  lemma WriteFits(op: Op)
    requires op.OpWrite? || op.OpWritLn?
    requires |op.memory| >= REQUEST
    ensures Fits(op) <==> |op.memory| - REQUEST <= 244
    ensures Fits(op) <==>
      forall kernel, bytes | |bytes| == |Copied(op)| && REQUEST + |Copied(op)| <= |kernel| && BUFFER <= |kernel| ::
        Blit(kernel, REQUEST, bytes)[BUFFER..] == kernel[BUFFER..]
  {
    CopyStaysInside(REQUEST, |Copied(op)|);
  }

  // ----- Names -----

  function ToUpper(b: Byte): Byte {
    var c := b % 128;
    if 'a' as int <= c <= 'z' as int then c - 32 else c
  }

  function Fold(name: Name): (f: Name)
    ensures |f| == |name| && forall i :: 0 <= i < |name| ==> f[i] == ToUpper(name[i])
  {
    seq(|name|, i requires 0 <= i < |name| => ToUpper(name[i]))
  }

  // ----- Path descriptors -----

  /** What happens on a daemon's path, in order. */
  datatype Event =
    | Sent(client: nat, bytes: seq<Byte>)
    | Delivered(bytes: seq<Byte>)
    | Replied(bytes: seq<Byte>)
    | Resumed(client: nat, view: seq<Byte>)

  /** The call that a process is in on this path. Searching is asleep for a tick until the daemon pauses;
      Waiting and Reading are asleep until woken. PD.CPR is zero just when the path is Idle. */
  datatype Call =
    | Idle
    | Searching(pid: nat, op: Op, dae: nat, tries: nat)
    | Waiting(pid: nat, op: Op, dae: nat)
    | Reading(pid: nat)

  /** `handles` is how often IOMan has opened or duplicated the path, less how often it has closed it;
      `refused` counts the opens that a daemon answered with an error. The buffer is the daemon's. */
  datatype PathDesc =
    | Unused
    | Used(linkCount: int, device: nat, isDaemon: bool, paused: nat, bufLen: nat, peer: nat, name: Name,
           buffer: seq<Byte>, handles: nat, refused: nat, call: Call, log: seq<Event>)

  /** The descriptors by path number, path 0 standing for NULL, and the processes sent a wake-up. */
  datatype World = World(pds: seq<PathDesc>, awake: set<nat>, crashed: bool)

  predicate IsDaemon(w: World, p: nat) {
    p < |w.pds| && w.pds[p].Used? && w.pds[p].isDaemon
  }

  predicate IsClient(w: World, p: nat) {
    p < |w.pds| && w.pds[p].Used? && !w.pds[p].isDaemon
  }

  /** A failed assert leaves the kernel in an endless loop. */
  function Crash(w: World): World {
    w.(crashed := true)
  }

  function With(w: World, p: nat, d: PathDesc): World
    requires p < |w.pds|
  {
    w.(pds := w.pds[p := d])
  }

  function SetPeer(w: World, subject: nat, target: nat): (r: World)
    requires subject < |w.pds| && target < |w.pds| && w.pds[subject].Used? && w.pds[target].Used?
    ensures !r.crashed ==> |r.pds| == |w.pds| && r.pds[subject].Used? && r.pds[target].Used?
  {
    if w.pds[subject].peer != 0 then Crash(w)
    else
      var w1 := With(w, target, w.pds[target].(linkCount := w.pds[target].linkCount + 1));
      With(w1, subject, w1.pds[subject].(peer := target))
  }

  function ClearPeer(w: World, subject: nat, target: nat): (r: World)
    requires subject < |w.pds| && target < |w.pds| && w.pds[subject].Used? && w.pds[target].Used?
    ensures !r.crashed ==> |r.pds| == |w.pds| && r.pds[subject].Used? && r.pds[target].Used?
  {
    if w.pds[subject].peer != target then Crash(w)
    else
      var w1 := With(w, target, w.pds[target].(linkCount := w.pds[target].linkCount - 1));
      With(w1, subject, w1.pds[subject].(peer := 0))
  }

  predicate Named(w: World, p: nat, device: nat, name: Name) {
    IsDaemon(w, p) && w.pds[p].device == device && w.pds[p].name == name
  }

  /** The first daemon of the device with that folded name, from path p on; 0 if there is none. */
  function FindFrom(w: World, device: nat, name: Name, p: nat): (d: nat)
    requires p <= |w.pds|
    ensures d != 0 ==> p <= d < |w.pds| && Named(w, d, device, name)
    ensures d == 0 ==> forall q :: p <= q < |w.pds| && q != 0 ==> !Named(w, q, device, name)
    decreases |w.pds| - p
  {
    if p == |w.pds| then 0
    else if p != 0 && Named(w, p, device, name) then p
    else FindFrom(w, device, name, p + 1)
  }

  // ----- What runs between two sleeps -----

  /** OpenDaemon, on a path just allocated; on an error IOMan takes the path back. `page` is what the
      memory it gets for its buffer holds. */
  function OpenDaemon(w: World, p: nat, device: nat, name: Name, page: seq<Byte>): World
    requires |w.pds| == PATHS && 0 < p < PATHS
  {
    if FindFrom(w, device, Fold(name), 1) != 0 then w
    else if |name| >= NAME_MAX - 1 then Crash(w)
    else With(w, p, Used(1, device, true, 0, 0, 0, Fold(name), page, 1, 0, Idle, []))
  }

  /** SwitchProcess, up to its next sleep. */
  function Switch(w: World, p: nat, pid: nat, op: Op, d: nat, tries: nat): World
    requires IsClient(w, p) && IsDaemon(w, d)
  {
    if w.pds[d].paused == 0 then
      With(w, p, w.pds[p].(call := Searching(pid, op, d, tries)))
    else
      With(w, p, w.pds[p].(paused := pid, call := Waiting(pid, op, d))).(awake := w.awake + {w.pds[d].paused})
  }

  /** A linked client puts its request in the buffer and lets the daemon run. */
  function Send(w: World, p: nat, pid: nat, op: Op, d: nat): World
    requires |w.pds| == PATHS && IsClient(w, p) && IsDaemon(w, d) && Fits(op) && |w.pds[d].buffer| == BUFFER
  {
    var dae := w.pds[d];
    var w1 := With(w, d, dae.(buffer := Filled(dae.buffer, op, p), log := dae.log + [Sent(p, Request(op, p))]));
    var w2 := With(w1, p, w1.pds[p].(bufLen := |Request(op, p)|));
    Switch(w2, p, pid, op, d, TIMEOUT)
  }

  /** OpenClient up to its sleep, on a path just allocated. */
  function OpenClient(w: World, p: nat, pid: nat, device: nat, name: Name, op: Op): World
    requires |w.pds| == PATHS && 0 < p < PATHS && w.pds[p].Unused? && op.OpOpen? && op.path != []
    requires forall d :: 0 <= d < PATHS && IsDaemon(w, d) ==> |w.pds[d].buffer| == BUFFER
  {
    var d := FindFrom(w, device, Fold(name), 1);
    if d == 0 then w
    else
      var w0 := With(w, p, Used(1, device, false, 0, 0, 0, [], [], 1, 0, Idle, []));
      var w1 := SetPeer(w0, p, d);
      var w2 := SetPeer(w1, d, p);
      if w2.crashed || REQUEST + |op.path| > BUFFER then Crash(w) else Send(w2, p, pid, op, d)
  }

  /** ClientOperationC up to its sleep. */
  function Operate(w: World, p: nat, pid: nat, op: Op): World
    requires |w.pds| == PATHS && IsClient(w, p) && IsDaemon(w, w.pds[p].peer) && Fits(op)
    requires |w.pds[w.pds[p].peer].buffer| == BUFFER
  {
    var d := w.pds[p].peer;
    var w1 := SetPeer(w, d, p);
    if w1.crashed then Crash(w) else Send(w1, p, pid, op, d)
  }

  /** One more turn of SwitchProcess's loop, after its tick of sleep. */
  function Tick(w: World, p: nat): World
    requires IsClient(w, p) && w.pds[p].call.Searching? && IsDaemon(w, w.pds[p].call.dae) && w.pds[p].call.tries > 0
  {
    var c := w.pds[p].call;
    if c.tries == 1 then Crash(w) else Switch(w, p, c.pid, c.op, c.dae, c.tries - 1)
  }

  /** The rest of a client call, once it is awake: the reply is in the buffer. An open that the daemon
      refused gives the path back as it is; a close unlinks it first. */
  function Resume(w: World, p: nat): World
    requires |w.pds| == PATHS && IsClient(w, p) && w.pds[p].call.Waiting? && IsDaemon(w, w.pds[p].call.dae)
    requires |w.pds[w.pds[p].call.dae].buffer| == BUFFER && IsDaemon(w, w.pds[p].peer)
  {
    var c := w.pds[p].call;
    var view := w.pds[c.dae].buffer;
    var dae := w.pds[c.dae];
    var w1 := With(w, c.dae, dae.(log := dae.log + [Resumed(p, view)])).(awake := w.awake - {c.pid});
    var w2 := With(w1, p, w1.pds[p].(paused := 0, call := Idle));
    if c.op.OpOpen? && view[0] != OKAY then
      With(With(w2, p, Unused), c.dae, w2.pds[c.dae].(refused := w2.pds[c.dae].refused + 1))
    else if c.op.OpClose? then
      var w3 := ClearPeer(w2, p, w2.pds[p].peer);
      if w3.crashed then Crash(w) else if w3.pds[p].linkCount == 0 then With(w3, p, Unused) else w3
    else w2
  }

  /** DaemonReadC, up to its sleep. */
  function Read(w: World, p: nat, pid: nat): World
    requires IsDaemon(w, p)
  {
    With(w, p, w.pds[p].(paused := pid, call := Reading(pid)))
  }

  /** The rest of DaemonReadC, once it is awake: the daemon gets the request of its client. */
  function Deliver(w: World, p: nat): World
    requires IsDaemon(w, p) && w.pds[p].call.Reading?
  {
    var dae := w.pds[p];
    if dae.peer == 0 || !IsClient(w, dae.peer) || w.pds[dae.peer].peer != p || w.pds[dae.peer].bufLen > |dae.buffer| then
      Crash(w)
    else
      With(w, p, dae.(paused := 0, call := Idle, log := dae.log + [Delivered(dae.buffer[..w.pds[dae.peer].bufLen])]))
        .(awake := w.awake - {dae.call.pid})
  }

  /** DaemonWriteC */
  function Reply(w: World, p: nat, bytes: seq<Byte>): World
    requires |w.pds| == PATHS && IsDaemon(w, p) && |bytes| <= |w.pds[p].buffer|
  {
    var dae := w.pds[p];
    if dae.peer == 0 || !IsClient(w, dae.peer) || bytes == [] then Crash(w)
    else
      var w1 := With(w, p, dae.(buffer := Blit(dae.buffer, 0, bytes), bufLen := |bytes|, log := dae.log + [Replied(bytes)]));
      var w2 := ClearPeer(w1, p, dae.peer);
      if w.pds[dae.peer].paused == 0 then Crash(w)
      else w2.(awake := w2.awake + {w.pds[dae.peer].paused})
  }

  /** I$Dup */
  function Dup(w: World, p: nat): World
    requires p < |w.pds| && w.pds[p].Used?
  {
    With(w, p, w.pds[p].(linkCount := w.pds[p].linkCount + 1, handles := w.pds[p].handles + 1))
  }

  /** I$Close with CloseC, up to its sleep: while links are left nothing more happens, a daemon's path is
      given back, and a client asks its daemon to close. */
  function Close(w: World, p: nat, pid: nat, op: Op): World
    requires |w.pds| == PATHS && 0 < p < PATHS && w.pds[p].Used? && w.pds[p].handles > 0 && op.OpClose? && Fits(op)
    requires IsClient(w, p) ==> IsDaemon(w, w.pds[p].peer) && |w.pds[w.pds[p].peer].buffer| == BUFFER
  {
    var d := w.pds[p].(linkCount := w.pds[p].linkCount - 1, handles := w.pds[p].handles - 1);
    var w1 := With(w, p, d);
    if !d.call.Idle? || d.linkCount != 0 then w1
    else if d.isDaemon then With(w1, p, Unused)
    else Operate(w1, p, pid, op)
  }

  // "DAEMON"
  const DAEMON: Name := [68, 65, 69, 77, 79, 78]

  /** CreateOrOpenC up to its sleep, for the names that the path list parses into: /fuse/daemon/name opens
      a daemon and /fuse/name... a client. With fewer names IOMan takes the path back at once. */
  function Open(w: World, p: nat, pid: nat, device: nat, names: seq<Name>, op: Op, page: seq<Byte>): World
    requires |w.pds| == PATHS && 0 < p < PATHS && w.pds[p].Unused? && op.OpOpen? && op.path != []
    requires forall d :: 0 <= d < PATHS && IsDaemon(w, d) ==> |w.pds[d].buffer| == BUFFER
  {
    if |names| == 3 && Fold(names[1]) == DAEMON then OpenDaemon(w, p, device, names[2], page)
    else if |names| > 1 then OpenClient(w, p, pid, device, names[1], op)
    else w
  }
}
