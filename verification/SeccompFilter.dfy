/** The seccomp filter installed by init, the handlers registered for it, and the parser each
    intercepted call reaches. */
module SeccompFilter {

  type Word = w: int | 0 <= w < 0x1_0000_0000

  /** The bitwise test of BPF_JSET. */
  predicate Shares(a: Word, b: Word) {
    (a as bv32) & (b as bv32) != 0
  }

  datatype Option<+T> = None | Some(value: T)

  // ---------------------------------------------------------------------
  // The classic BPF machine
  // ---------------------------------------------------------------------

  /** struct seccomp_data as 32-bit words: nr, arch, instruction pointer, then six 64-bit
      arguments with the low half first. */
  type Data = s: seq<Word> | |s| == 16 witness seq(16, _ => 0)

  const SYSCALL_NR := 0
  const SYSCALL_ARCH := 4

  function SyscallArg(n: nat): nat {
    16 + 8 * n
  }

  function Nr(d: Data): Word { d[0] }
  function Arch(d: Data): Word { d[1] }
  function ArgLow(d: Data, n: nat): Word requires n < 6 { d[4 + 2 * n] }
  function ArgHigh(d: Data, n: nat): Word requires n < 6 { d[5 + 2 * n] }

  datatype Verdict = Notify | Allow

  datatype Instr =
    | Load(offset: nat)
    | JumpSet(k: Word, jt: nat, jf: nat)
    | JumpEqual(k: Word, jt: nat, jf: nat)
    | Return(verdict: Verdict)

  datatype Effect = Goto(pc: nat, acc: Word) | Done(verdict: Verdict) | Fault

  /** One instruction. */
  function Effect1(instr: Instr, d: Data, pc: nat, acc: Word): Effect {
    match instr
    case Load(offset) =>
      if offset % 4 == 0 && offset / 4 < |d| then Goto(pc + 1, d[offset / 4]) else Fault
    case JumpSet(k, jt, jf) => Goto(pc + 1 + (if Shares(acc, k) then jt else jf), acc)
    case JumpEqual(k, jt, jf) => Goto(pc + 1 + (if acc == k then jt else jf), acc)
    case Return(verdict) => Done(verdict)
  }

  /** Executes from `pc`, at most `steps` instructions. `None` when the steps run out, the program
      counter leaves the program, or a load is out of range. */
  function Execute(program: seq<Instr>, d: Data, pc: nat, acc: Word, steps: nat): Option<Verdict>
    decreases steps
  {
    if steps == 0 || pc >= |program| then None
    else
      match Effect1(program[pc], d, pc, acc)
      case Goto(next, a) => Execute(program, d, next, a, steps - 1)
      case Done(verdict) => Some(verdict)
      case Fault => None
  }

  /** Jumps go forward and stay inside, loads are aligned and inside, and the end is a return. */
  predicate InRange(instr: Instr, i: nat, length: nat) {
    match instr
    case Load(offset) => i + 1 < length && offset % 4 == 0 && offset / 4 < 16
    case JumpSet(_, jt, jf) => i + 1 + jt < length && i + 1 + jf < length
    case JumpEqual(_, jt, jf) => i + 1 + jt < length && i + 1 + jf < length
    case Return(_) => true
  }

  predicate WellFormed(program: seq<Instr>) {
    program != [] && forall i :: 0 <= i < |program| ==> InRange(program[i], i, |program|)
  }

  lemma InRangeEffect(instr: Instr, d: Data, pc: nat, acc: Word, length: nat)
    requires InRange(instr, pc, length)
    ensures !Effect1(instr, d, pc, acc).Fault?
    ensures Effect1(instr, d, pc, acc).Goto? ==> pc < Effect1(instr, d, pc, acc).pc < length
  {
  }

  /** Every such program halts within its own length, and more steps change nothing. */
  lemma {:induction false} Halts(program: seq<Instr>, d: Data, pc: nat, acc: Word, steps: nat)
    requires WellFormed(program) && pc < |program| && steps >= |program| - pc
    ensures Execute(program, d, pc, acc, steps).Some?
    ensures Execute(program, d, pc, acc, steps) == Execute(program, d, pc, acc, |program| - pc)
    decreases |program| - pc
  {
    hide Effect1, InRange;
    InRangeEffect(program[pc], d, pc, acc, |program|);
    match Effect1(program[pc], d, pc, acc)
    case Goto(next, a) =>
      Halts(program, d, next, a, steps - 1);
      Halts(program, d, next, a, |program| - pc - 1);
    case Done(_) =>
  }

  // ---------------------------------------------------------------------
  // The installed program
  // ---------------------------------------------------------------------

  datatype Machine = X86_64 | AArch64 {
    function NrBind(): Word { if X86_64? then 49 else 200 }
    function NrListen(): Word { if X86_64? then 50 else 201 }
    function NrIoctl(): Word { if X86_64? then 16 else 29 }
  }

  const AUDIT_ARCH_64BIT: Word := 0x8000_0000
  const SIOCSIFFLAGS: Word := 0x8914
  const I386_NR_SOCKETCALL: Word := 102
  const ARMV7_NR_BIND: Word := 282
  const ARMV7_NR_LISTEN: Word := 284
  const SYS_BIND: Word := 2
  const SYS_LISTEN: Word := 4

  function NativeBlock(m: Machine): seq<Instr> {
    [ Load(SYSCALL_ARCH),
      JumpSet(AUDIT_ARCH_64BIT, 0, 8),
      Load(SYSCALL_NR),
      JumpEqual(m.NrBind(), 4, 0),
      JumpEqual(m.NrListen(), 3, 0),
      JumpEqual(m.NrIoctl(), 0, 3),
      Load(SyscallArg(1)),
      JumpEqual(SIOCSIFFLAGS, 0, 1),
      Return(Notify),
      Return(Allow)]
  }

  function CompatBlock(m: Machine): seq<Instr> {
    match m
    case X86_64 =>
      [ Load(SYSCALL_NR),
        JumpEqual(I386_NR_SOCKETCALL, 0, 4),
        Load(SyscallArg(0)),
        JumpEqual(SYS_BIND, 1, 0),
        JumpEqual(SYS_LISTEN, 0, 1),
        Return(Notify),
        Return(Allow)]
    case AArch64 =>
      [ Load(SYSCALL_NR),
        JumpEqual(ARMV7_NR_BIND, 1, 0),
        JumpEqual(ARMV7_NR_LISTEN, 0, 1),
        Return(Notify),
        Return(Allow)]
  }

  function Filter(m: Machine): seq<Instr> {
    NativeBlock(m) + CompatBlock(m)
  }

  // ---------------------------------------------------------------------
  // The calls it is meant to intercept
  // ---------------------------------------------------------------------

  datatype Call = Bind | Listen | SetInterfaceFlags | Other

  predicate Native(d: Data) {
    Shares(Arch(d), 0x8000_0000)
  }

  /** What a system call is, by architecture, number and the low halves of its arguments: the numbers of
      bind, listen and ioctl on each machine, SIOCSIFFLAGS, and the 32-bit forms. */
  function Classify(m: Machine, d: Data): Call {
    if Native(d) then
      if Nr(d) == (if m.X86_64? then 49 else 200) then Bind
      else if Nr(d) == (if m.X86_64? then 50 else 201) then Listen
      else if Nr(d) == (if m.X86_64? then 16 else 29) && ArgLow(d, 1) == 0x8914 then SetInterfaceFlags
      else Other
    else
      match m
      case X86_64 =>
        if Nr(d) == 102 && ArgLow(d, 0) == 2 then Bind
        else if Nr(d) == 102 && ArgLow(d, 0) == 4 then Listen
        else Other
      case AArch64 =>
        if Nr(d) == 282 then Bind
        else if Nr(d) == 284 then Listen
        else Other
  }

  lemma FilterIsWellFormed(m: Machine)
    ensures WellFormed(Filter(m))
  {
  }

  function Run(program: seq<Instr>, d: Data, pc: nat, acc: Word): Option<Verdict> {
    Execute(program, d, pc, acc, if pc < |program| then |program| - pc else 0)
  }

  /** One instruction of a program that is known to halt. */
  lemma Step(program: seq<Instr>, d: Data, pc: nat, acc: Word)
    requires WellFormed(program) && pc < |program|
    ensures match Effect1(program[pc], d, pc, acc)
            case Goto(next, a) => Run(program, d, pc, acc) == Run(program, d, next, a)
            case Done(verdict) => Run(program, d, pc, acc) == Some(verdict)
            case Fault => false
  {
    hide Effect1, InRange;
    InRangeEffect(program[pc], d, pc, acc, |program|);
    match Effect1(program[pc], d, pc, acc)
    case Goto(next, a) => Halts(program, d, next, a, |program| - pc - 1);
    case Done(_) =>
  }

  /** The block from the ioctl test on. */
  lemma IoctlVerdict(m: Machine, d: Data)
    ensures Run(Filter(m), d, 5, Nr(d)) ==
            Some(if Nr(d) == m.NrIoctl() && ArgLow(d, 1) == SIOCSIFFLAGS then Notify else Allow)
    ensures Run(Filter(m), d, 8, Nr(d)) == Some(Notify)
  {
    var p, nr, arg := Filter(m), Nr(d), ArgLow(d, 1);
    FilterIsWellFormed(m);
    hide Run, Execute, WellFormed, Shares;
    assert Run(p, d, 8, nr) == Some(Notify) by { Step(p, d, 8, nr); }
    assert Run(p, d, 9, nr) == Some(Allow) by { Step(p, d, 9, nr); }
    assert Run(p, d, 8, arg) == Some(Notify) by { Step(p, d, 8, arg); }
    assert Run(p, d, 9, arg) == Some(Allow) by { Step(p, d, 9, arg); }
    assert Run(p, d, 7, arg) == Some(if arg == SIOCSIFFLAGS then Notify else Allow) by { Step(p, d, 7, arg); }
    assert Run(p, d, 6, nr) == Run(p, d, 7, arg) by { Step(p, d, 6, nr); }
    assert Run(p, d, 5, nr) == Run(p, d, if nr == m.NrIoctl() then 6 else 9, nr) by { Step(p, d, 5, nr); }
  }

  lemma NativeVerdict(m: Machine, d: Data)
    requires Native(d)
    ensures Run(Filter(m), d, 0, 0) == Some(if Classify(m, d).Other? then Allow else Notify)
  {
    var p, nr := Filter(m), Nr(d);
    FilterIsWellFormed(m);
    IoctlVerdict(m, d);
    hide Run, Execute, WellFormed, Shares;
    assert Run(p, d, 4, nr) == Run(p, d, if nr == m.NrListen() then 8 else 5, nr) by { Step(p, d, 4, nr); }
    assert Run(p, d, 3, nr) == Run(p, d, if nr == m.NrBind() then 8 else 4, nr) by { Step(p, d, 3, nr); }
    assert Run(p, d, 2, Arch(d)) == Run(p, d, 3, nr) by { Step(p, d, 2, Arch(d)); }
    assert Run(p, d, 1, Arch(d)) == Run(p, d, 2, Arch(d)) by { Step(p, d, 1, Arch(d)); }
    Step(p, d, 0, 0);
  }

  lemma CompatEntry(m: Machine, d: Data)
    requires !Native(d)
    ensures Run(Filter(m), d, 0, 0) == Run(Filter(m), d, 11, Nr(d))
  {
    var p := Filter(m);
    FilterIsWellFormed(m);
    hide Run, Execute, WellFormed, Shares;
    assert Run(p, d, 10, Arch(d)) == Run(p, d, 11, Nr(d)) by { Step(p, d, 10, Arch(d)); }
    assert Run(p, d, 1, Arch(d)) == Run(p, d, 10, Arch(d)) by { Step(p, d, 1, Arch(d)); }
    Step(p, d, 0, 0);
  }

  /** The 32-bit x86 block. */
  lemma SocketcallVerdict(d: Data)
    ensures Run(Filter(X86_64), d, 11, Nr(d)) ==
            Some(if Nr(d) == I386_NR_SOCKETCALL && (ArgLow(d, 0) == SYS_BIND || ArgLow(d, 0) == SYS_LISTEN) then Notify
                 else Allow)
  {
    var p, nr, arg := Filter(X86_64), Nr(d), ArgLow(d, 0);
    FilterIsWellFormed(X86_64);
    hide Run, Execute, WellFormed, Shares;
    assert Run(p, d, 16, nr) == Some(Allow) by { Step(p, d, 16, nr); }
    assert Run(p, d, 16, arg) == Some(Allow) by { Step(p, d, 16, arg); }
    assert Run(p, d, 15, arg) == Some(Notify) by { Step(p, d, 15, arg); }
    assert Run(p, d, 14, arg) == Run(p, d, if arg == SYS_LISTEN then 15 else 16, arg) by { Step(p, d, 14, arg); }
    assert Run(p, d, 13, arg) == Run(p, d, if arg == SYS_BIND then 15 else 14, arg) by { Step(p, d, 13, arg); }
    assert Run(p, d, 12, nr) == Run(p, d, 13, arg) by { Step(p, d, 12, nr); }
    assert Run(p, d, 11, nr) == Run(p, d, if nr == I386_NR_SOCKETCALL then 12 else 16, nr) by { Step(p, d, 11, nr); }
  }

  /** The 32-bit Arm block. */
  lemma ArmVerdict(d: Data)
    ensures Run(Filter(AArch64), d, 11, Nr(d)) ==
            Some(if Nr(d) == ARMV7_NR_BIND || Nr(d) == ARMV7_NR_LISTEN then Notify else Allow)
  {
    var p, nr := Filter(AArch64), Nr(d);
    FilterIsWellFormed(AArch64);
    hide Run, Execute, WellFormed, Shares;
    assert Run(p, d, 14, nr) == Some(Allow) by { Step(p, d, 14, nr); }
    assert Run(p, d, 13, nr) == Some(Notify) by { Step(p, d, 13, nr); }
    assert Run(p, d, 12, nr) == Run(p, d, if nr == ARMV7_NR_LISTEN then 13 else 14, nr) by { Step(p, d, 12, nr); }
    assert Run(p, d, 11, nr) == Run(p, d, if nr == ARMV7_NR_BIND then 13 else 12, nr) by { Step(p, d, 11, nr); }
  }

  lemma CompatVerdict(m: Machine, d: Data)
    requires !Native(d)
    ensures Run(Filter(m), d, 0, 0) == Some(if Classify(m, d).Other? then Allow else Notify)
  {
    hide Run, Execute, WellFormed, Shares, Filter;
    CompatEntry(m, d);
    match m
    case X86_64 => SocketcallVerdict(d);
    case AArch64 => ArmVerdict(d);
  }

  /** For every architecture word, number and arguments, the filter notifies exactly on bind,
      listen and SIOCSIFFLAGS, within the length of the program. */
  lemma FilterIsExact(m: Machine, d: Data)
    ensures Execute(Filter(m), d, 0, 0, |Filter(m)|) == Some(if Classify(m, d).Other? then Allow else Notify)
  {
    if Native(d) {
      NativeVerdict(m, d);
    } else {
      CompatVerdict(m, d);
    }
  }

  // ---------------------------------------------------------------------
  // Handlers and parsers
  // ---------------------------------------------------------------------

  datatype Handler = PortTracker | InterfaceState

  /** The registrations of RunPortTracker, in order; a later one for the same number would win. */
  function Handlers(m: Machine): map<Word, Handler> {
    var native := map[][m.NrBind() := PortTracker][m.NrListen() := PortTracker];
    var compat := match m
      case X86_64 => native[I386_NR_SOCKETCALL := PortTracker]
      case AArch64 => native[ARMV7_NR_BIND := PortTracker][ARMV7_NR_LISTEN := PortTracker];
    compat[m.NrIoctl() := InterfaceState]
  }

  /** Every notified call has a handler, and the one meant for it. */
  lemma NotifiedCallsAreHandled(m: Machine, d: Data)
    ensures var call := Classify(m, d);
            !call.Other? ==>
              && Nr(d) in Handlers(m)
              && Handlers(m)[Nr(d)] == (if call.SetInterfaceFlags? then InterfaceState else PortTracker)
  {
    hide Shares;
  }

  /** Which parser GetCallInfo runs; the indirect ones fetch the arguments from the caller's memory. */
  datatype Parser = ParseSocket | ParseListen | ParseSocketIndirect | ParseListenIndirect | LetThrough

  function GetCallInfo(m: Machine, d: Data): Parser {
    match m
    case X86_64 =>
      if Native(d) then
        if Nr(d) == m.NrListen() then ParseListen else ParseSocket
      else if ArgLow(d, 0) == SYS_LISTEN && ArgHigh(d, 0) == 0 then ParseListenIndirect
      else if !(ArgLow(d, 0) == SYS_BIND && ArgHigh(d, 0) == 0) then LetThrough
      else ParseSocketIndirect
    case AArch64 =>
      if Nr(d) == m.NrListen() || Nr(d) == ARMV7_NR_LISTEN then ParseListen else ParseSocket
  }

  /** The parser meant for a call: a 32-bit x86 call has its arguments in memory, any other in registers. */
  function MeantFor(m: Machine, d: Data): Parser {
    var indirect := m.X86_64? && !Native(d);
    if Classify(m, d).Listen? then (if indirect then ParseListenIndirect else ParseListen)
    else (if indirect then ParseSocketIndirect else ParseSocket)
  }

  /** A tracked call reaches the parser meant for it exactly when, for a 32-bit socketcall, the upper
      half of the first argument is clear: the filter compares 32 bits, the parser 64. Otherwise it is
      let through. */
  lemma CallsReachTheirParser(m: Machine, d: Data)
    requires Classify(m, d).Bind? || Classify(m, d).Listen?
    ensures GetCallInfo(m, d) == MeantFor(m, d) <==> (m.X86_64? && !Native(d) ==> ArgHigh(d, 0) == 0)
    ensures GetCallInfo(m, d) == MeantFor(m, d) || GetCallInfo(m, d).LetThrough?
  {
  }

  /** A 32-bit bind whose first argument has a bit set in its upper half is notified, and then let
      through unparsed. */
  lemma UpperHalfMissesParser()
    ensures var d := [I386_NR_SOCKETCALL, 0x4000_0003, 0, 0, SYS_BIND, 1] + seq(10, _ => 0);
            Classify(X86_64, d).Bind? && GetCallInfo(X86_64, d).LetThrough?
  {
    assert (0x4000_0003 as bv32) & (0x8000_0000 as bv32) == 0;
  }

  // ---------------------------------------------------------------------
  // The dispatcher
  // ---------------------------------------------------------------------

  datatype Notification = Notification(id: nat, data: Data)

  /** SECCOMP_IOCTL_NOTIF_RECV: a notification; ENOENT because the caller is gone; or another error,
      which is thrown out of the loop. */
  datatype Received = Got(notification: Notification) | Gone | Broken

  /** seccomp_notif_resp; `proceed` is SECCOMP_USER_NOTIF_FLAG_CONTINUE. */
  datatype Response = Response(id: nat, error: int, val: int, proceed: bool)

  /** A handler's answer; `None` when it throws. */
  type Answers = (Handler, Notification) -> Option<int>

  function ResultOf(handlers: map<Word, Handler>, answers: Answers, n: Notification): int {
    if Nr(n.data) in handlers then
      match answers(handlers[Nr(n.data)], n)
      case Some(result) => result
      case None => 0
    else 0
  }

  ghost predicate Answers1(handlers: map<Word, Handler>, answers: Answers, n: Notification, r: Response) {
    var result := ResultOf(handlers, answers, n);
    r.id == n.id && r.error == -result && r.val == 0 && (r.proceed <==> result == 0)
  }

  /** The notifications the loop gets to: those before the first error. */
  function Notifications(received: seq<Received>): seq<Notification> {
    if received == [] || received[0].Broken? then []
    else (if received[0].Got? then [received[0].notification] else []) + Notifications(received[1..])
  }

  lemma {:induction false} NotificationsAppend(received: seq<Received>, more: seq<Received>)
    requires forall i :: 0 <= i < |received| ==> !received[i].Broken?
    ensures Notifications(received + more) == Notifications(received) + Notifications(more)
  {
    if received == [] {
      assert received + more == more;
    } else {
      var all := received + more;
      assert all[0] == received[0] && all[1..] == received[1..] + more;
      NotificationsAppend(received[1..], more);
      var first := if received[0].Got? then [received[0].notification] else [];
      assert Notifications(all) == first + (Notifications(received[1..]) + Notifications(more));
    }
  }

  lemma OneNotification(r: Received)
    ensures Notifications([r]) == if r.Got? then [r.notification] else []
  {
    assert [r][1..] == [];
  }

  class SecCompDispatcher {
    var handlers: map<Word, Handler>

    constructor ()
      ensures handlers == map[]
    {
      handlers := map[];
    }

    method RegisterHandler(nr: Word, handler: Handler)
      modifies this
      ensures handlers == old(handlers)[nr := handler]
    {
      handlers := handlers[nr := handler];
    }

    /** The loop over what the kernel delivers until shutdown or an error: exactly one response per
        notification before that, in order and under its id; a missing handler or a throw lets the call go. */
    method Run(received: seq<Received>, answers: Answers) returns (responses: seq<Response>, threw: bool)
      ensures threw <==> Broken in received
      ensures |responses| == |Notifications(received)|
      ensures forall i :: 0 <= i < |responses| ==>
                Answers1(handlers, answers, Notifications(received)[i], responses[i])
    {
      hide Notifications;
      responses, threw := [], false;
      var next := 0;
      NotificationsOfNone();
      while next < |received|
        invariant 0 <= next <= |received|
        invariant forall i :: 0 <= i < next ==> !received[i].Broken?
        invariant |responses| == |Notifications(received[..next])|
        invariant forall i :: 0 <= i < |responses| ==>
                    Answers1(handlers, answers, Notifications(received[..next])[i], responses[i])
      {
        if received[next].Broken? {
          assert received == received[..next] + received[next..];
          NotificationsAppend(received[..next], received[next..]);
          NotificationsOfBroken(received[next..]);
          assert received[next] in received;
          threw := true;
          return;
        }
        assert received[..next + 1] == received[..next] + [received[next]];
        NotificationsAppend(received[..next], [received[next]]);
        OneNotification(received[next]);
        if received[next].Got? {
          var callInfo := received[next].notification;
          var result := 0;
          if Nr(callInfo.data) in handlers {
            match answers(handlers[Nr(callInfo.data)], callInfo) {
              case Some(r) => result := r;
              case None =>
            }
          }
          responses := responses + [Response(callInfo.id, -result, 0, result == 0)];
        }
        next := next + 1;
      }
      assert received[..next] == received;
    }
  }

  lemma NotificationsOfNone()
    ensures Notifications([]) == []
  {
  }

  lemma NotificationsOfBroken(received: seq<Received>)
    requires received != [] && received[0].Broken?
    ensures Notifications(received) == []
  {
  }

  /** The registrations of RunPortTracker, executed. */
  method RegisterAll(m: Machine) returns (dispatcher: SecCompDispatcher)
    ensures fresh(dispatcher) && dispatcher.handlers == Handlers(m)
  {
    dispatcher := new SecCompDispatcher();
    dispatcher.RegisterHandler(m.NrBind(), PortTracker);
    dispatcher.RegisterHandler(m.NrListen(), PortTracker);
    if m.X86_64? {
      dispatcher.RegisterHandler(I386_NR_SOCKETCALL, PortTracker);
    } else {
      dispatcher.RegisterHandler(ARMV7_NR_BIND, PortTracker);
      dispatcher.RegisterHandler(ARMV7_NR_LISTEN, PortTracker);
    }
    dispatcher.RegisterHandler(m.NrIoctl(), InterfaceState);
  }
}
