/** sys/src/proc/proc.c with sys/src/intr/trap.asm and irq.asm: the process queue, the round
    robin, and the way of the registers through a timer interrupt. */
module Proc {
  import opened Words

  // ---- the reference scheduler -----------------------------------------------------------------

  /** Processes by position in the queue: which one runs, and the frame saved for each. */
  datatype Queue = Queue(cur: nat, frames: seq<seq<Word>>)

  datatype Event =
    | Tick(pushed: seq<Word>)   // a timer interrupt that pushed this frame
    | Launch(raw: seq<Word>)    // a new process; raw is what its memory held

  ghost predicate Running(q: Queue) { q.cur < |q.frames| }

  function Next(q: Queue): nat {
    if q.cur + 1 < |q.frames| then q.cur + 1 else 0
  }

  function After(q: Queue, ev: Event): Queue
    requires Running(q)
  {
    match ev
    case Tick(pushed) => Queue(Next(q), q.frames[q.cur := pushed])
    case Launch(raw) => Queue(|q.frames|, q.frames + [raw])
  }

  ghost predicate IsRun(qs: seq<Queue>, evs: seq<Event>) {
    && |qs| == |evs| + 1
    && (forall k :: 0 <= k < |qs| ==> Running(qs[k]))
    && (forall k :: 0 <= k < |evs| ==> qs[k + 1] == After(qs[k], evs[k]))
  }

  lemma ModNext(x: nat, n: nat)
    requires n > 0
    ensures (x + 1) % n == if x % n + 1 < n then x % n + 1 else 0
  {
    var q, r := x / n, x % n;
    assert x == n * q + r;
    if r + 1 < n {
      DivUnique(x + 1, n, q, r + 1);
    } else {
      assert x + 1 == n * (q + 1) + 0 by { assert n * (q + 1) == n * q + n; }
      DivUnique(x + 1, n, q + 1, 0);
    }
  }

  /** Without launches the running position advances by one, round the queue. */
  lemma {:induction false} TicksRotate(qs: seq<Queue>, evs: seq<Event>, k: nat)
    requires IsRun(qs, evs) && k <= |evs| && forall i :: 0 <= i < k ==> evs[i].Tick?
    ensures |qs[k].frames| == |qs[0].frames|
    ensures qs[k].cur == (qs[0].cur + k) % |qs[0].frames|
  {
    var n := |qs[0].frames|;
    if k == 0 {
      DivUnique(qs[0].cur, n, 0, qs[0].cur);
    } else {
      TicksRotate(qs, evs, k - 1);
      ModNext(qs[0].cur + k - 1, n);
    }
  }

  lemma ModShift(c: nat, p: nat, n: nat)
    requires c < n && p < n
    ensures var k := if p > c then p - c else p + n - c; 1 <= k <= n && (c + k) % n == p
  {
  }

  lemma ModDistinct(c: nat, j: nat, k: nat, n: nat)
    requires n > 0 && 1 <= j < k <= n
    ensures (c + j) % n != (c + k) % n
  {
    if (c + j) % n == (c + k) % n {
      var a, b, r := (c + j) / n, (c + k) / n, (c + j) % n;
      assert c + j == n * a + r && c + k == n * b + r;
      MulGap(n, b, a);
      MulGap(n, a, b);
      assert false;
    }
  }

  /** Fairness: in any n consecutive launch-free ticks with n processes, each process is
      dispatched exactly once. */
  lemma Fairness(qs: seq<Queue>, evs: seq<Event>, p: nat)
    requires IsRun(qs, evs) && |evs| == |qs[0].frames| && forall i :: 0 <= i < |evs| ==> evs[i].Tick?
    requires p < |qs[0].frames|
    ensures exists k :: 1 <= k <= |evs| && qs[k].cur == p
    ensures forall j, k :: 1 <= j < k <= |evs| ==> qs[j].cur != qs[k].cur
  {
    var n, c := |qs[0].frames|, qs[0].cur;
    ModShift(c, p, n);
    var k := if p > c then p - c else p + n - c;
    TicksRotate(qs, evs, k);
    forall j, k | 1 <= j < k <= |evs| ensures qs[j].cur != qs[k].cur {
      TicksRotate(qs, evs, j);
      TicksRotate(qs, evs, k);
      ModDistinct(c, j, k, n);
    }
  }

  /** The frame saved for p at event j stays saved while p is not interrupted again. */
  lemma {:induction false} FrameKept(qs: seq<Queue>, evs: seq<Event>, j: nat, k: nat, p: nat)
    requires IsRun(qs, evs) && j < k <= |evs|
    requires evs[j].Tick? && qs[j].cur == p
    requires forall i :: j < i < k && evs[i].Tick? ==> qs[i].cur != p
    ensures p < |qs[k].frames| && qs[k].frames[p] == evs[j].pushed
    decreases k
  {
    if k > j + 1 {
      FrameKept(qs, evs, j, k - 1, p);
    }
  }

  // ---- the frame on the stack --------------------------------------------------------------------

  /** The registers a trap frame carries. */
  datatype Regs = Regs(rdi: Word, rsi: Word, rbx: Word, rdx: Word, rcx: Word, rax: Word,
                       r8: Word, r9: Word, r10: Word, r11: Word, r12: Word, r13: Word, r14: Word, r15: Word,
                       fs: Word, gs: Word, rbp: Word)

  const FRAME: nat := 19
  const TIMER: Word := 0x20

  /** struct trapframe, word by word from its lowest address. */
  function FrameOf(g: Regs, kRsp: Word): (s: seq<Word>)
    ensures |s| == FRAME
  {
    [g.rdi, g.rsi, g.rbx, g.rdx, g.rcx, g.rax, g.r8, g.r9, g.r10, g.r11, g.r12, g.r13, g.r14, g.r15,
     g.fs, g.gs, kRsp, g.rbp, TIMER]
  }

  class Stack {
    const mem: array<Word>
    var sp: nat

    constructor (mem: array<Word>, sp: nat)
      requires sp <= mem.Length
      ensures this.mem == mem && this.sp == sp
    {
      this.mem, this.sp := mem, sp;
    }

    ghost predicate Valid()
      reads this
    {
      sp <= mem.Length
    }

    /** What lies on the stack, top first. */
    ghost function Contents(): seq<Word>
      requires Valid()
      reads this, mem
    {
      mem[sp..]
    }

    method Push(x: Word)
      requires Valid() && sp > 0
      modifies this, mem
      ensures Valid() && sp == old(sp) - 1 && Contents() == [x] + old(Contents())
    {
      sp := sp - 1;
      mem[sp] := x;
    }

    method Pop() returns (x: Word)
      requires Valid() && sp < mem.Length
      modifies this
      ensures Valid() && sp == old(sp) + 1 && [x] + Contents() == old(Contents())
    {
      x := mem[sp];
      sp := sp + 1;
      assert mem[sp - 1..] == [x] + mem[sp..];
    }

    /** `add rsp, 8` */
    method Drop()
      requires Valid() && sp < mem.Length
      modifies this
      ensures Valid() && sp == old(sp) + 1 && Contents() == old(Contents())[1..]
    {
      sp := sp + 1;
    }

    /** irq.asm's three pushes and the first two of `trap_entry`. */
    method EnterTail(g: Regs, kRsp: Word)
      requires Valid() && sp >= 5
      modifies this, mem
      ensures Valid() && sp == old(sp) - 5 && Contents() == [g.fs, g.gs, kRsp, g.rbp, TIMER] + old(Contents())
    {
      ghost var rest := Contents();
      PushFour(TIMER, g.rbp, kRsp, g.gs);
      Push(g.fs);
      assert Contents() == [g.fs, g.gs, kRsp, g.rbp, TIMER] + rest;
    }

    method PushFour(a: Word, b: Word, c: Word, d: Word)
      requires Valid() && sp >= 4
      modifies this, mem
      ensures Valid() && sp == old(sp) - 4 && Contents() == [d, c, b, a] + old(Contents())
    {
      ghost var rest := Contents();
      Push(a);
      Push(b);
      assert Contents() == [b, a] + rest;
      Push(c);
      Push(d);
      assert Contents() == [d, c, b, a] + rest;
    }

    method EnterHigh(g: Regs)
      requires Valid() && sp >= 8
      modifies this, mem
      ensures Valid() && sp == old(sp) - 8
      ensures Contents() == [g.r8, g.r9, g.r10, g.r11, g.r12, g.r13, g.r14, g.r15] + old(Contents())
    {
      ghost var rest := Contents();
      PushFour(g.r15, g.r14, g.r13, g.r12);
      PushFour(g.r11, g.r10, g.r9, g.r8);
      assert Contents() == [g.r8, g.r9, g.r10, g.r11, g.r12, g.r13, g.r14, g.r15] + rest;
    }

    method EnterLow(g: Regs)
      requires Valid() && sp >= 6
      modifies this, mem
      ensures Valid() && sp == old(sp) - 6
      ensures Contents() == [g.rdi, g.rsi, g.rbx, g.rdx, g.rcx, g.rax] + old(Contents())
    {
      ghost var rest := Contents();
      PushFour(g.rax, g.rcx, g.rdx, g.rbx);
      Push(g.rsi);
      Push(g.rdi);
      assert Contents() == [g.rdi, g.rsi, g.rbx, g.rdx, g.rcx, g.rax] + rest;
    }

    /** All pushes of a timer interrupt: a trap frame lies on the stack. */
    method Enter(g: Regs, kRsp: Word)
      requires Valid() && sp >= FRAME
      modifies this, mem
      ensures Valid() && sp == old(sp) - FRAME && Contents() == FrameOf(g, kRsp) + old(Contents())
    {
      ghost var rest := Contents();
      EnterTail(g, kRsp);
      EnterHigh(g);
      EnterLow(g);
      FrameParts(g, kRsp, rest);
    }

    method LeaveLow() returns (rdi: Word, rsi: Word, rbx: Word, rdx: Word, rcx: Word, rax: Word)
      requires Valid() && sp + 6 <= mem.Length
      modifies this
      ensures Valid() && sp == old(sp) + 6 && [rdi, rsi, rbx, rdx, rcx, rax] + Contents() == old(Contents())
    {
      rdi := Pop();
      rsi := Pop();
      rbx := Pop();
      rdx := Pop();
      rcx := Pop();
      rax := Pop();
    }

    method LeaveHigh() returns (r8: Word, r9: Word, r10: Word, r11: Word, r12: Word, r13: Word, r14: Word, r15: Word)
      requires Valid() && sp + 8 <= mem.Length
      modifies this
      ensures Valid() && sp == old(sp) + 8
      ensures [r8, r9, r10, r11, r12, r13, r14, r15] + Contents() == old(Contents())
    {
      r8, r9, r10, r11 := PopFour();
      r12, r13, r14, r15 := PopFour();
      assert [r8, r9, r10, r11] + ([r12, r13, r14, r15] + Contents())
          == [r8, r9, r10, r11, r12, r13, r14, r15] + Contents();
    }

    method PopFour() returns (a: Word, b: Word, c: Word, d: Word)
      requires Valid() && sp + 4 <= mem.Length
      modifies this
      ensures Valid() && sp == old(sp) + 4 && [a, b, c, d] + Contents() == old(Contents())
    {
      a := Pop();
      b := Pop();
      assert [a, b] + Contents() == old(Contents());
      c := Pop();
      d := Pop();
    }

    /** `pop fs; pop gs; add rsp, 8; pop rbp; add rsp, 8` */
    method LeaveTail() returns (fs: Word, gs: Word, rbp: Word)
      requires Valid() && sp + 5 <= mem.Length
      modifies this
      ensures Valid() && sp == old(sp) + 5 && Contents() == old(Contents())[5..]
      ensures fs == old(Contents())[0] && gs == old(Contents())[1] && rbp == old(Contents())[3]
    {
      fs := Pop();
      gs := Pop();
      Drop();
      rbp := Pop();
      Drop();
    }

    /** The pops of `.trap_end`, of the frame that lies on top of `rest`. */
    method Leave(ghost frame: seq<Word>, ghost rest: seq<Word>) returns (g: Regs)
      requires Valid() && |frame| == FRAME && Contents() == frame + rest
      modifies this
      ensures Valid() && sp == old(sp) + FRAME && Contents() == rest
      ensures g == Popped(frame)
    {
      ghost var all := Contents();
      var rdi, rsi, rbx, rdx, rcx, rax := LeaveLow();
      assert Contents() == all[6..];
      var r8, r9, r10, r11, r12, r13, r14, r15 := LeaveHigh();
      assert Contents() == all[14..];
      var fs, gs, rbp := LeaveTail();
      assert Contents() == all[19..] == rest;
      g := Regs(rdi, rsi, rbx, rdx, rcx, rax, r8, r9, r10, r11, r12, r13, r14, r15, fs, gs, rbp);
    }
  }

  lemma FrameParts(g: Regs, kRsp: Word, rest: seq<Word>)
    ensures [g.rdi, g.rsi, g.rbx, g.rdx, g.rcx, g.rax]
            + ([g.r8, g.r9, g.r10, g.r11, g.r12, g.r13, g.r14, g.r15] + ([g.fs, g.gs, kRsp, g.rbp, TIMER] + rest))
            == FrameOf(g, kRsp) + rest
  {
  }

  /** The registers a frame is popped into. */
  function Popped(s: seq<Word>): Regs
    requires |s| == FRAME
  {
    Regs(s[0], s[1], s[2], s[3], s[4], s[5], s[6], s[7], s[8], s[9], s[10], s[11], s[12], s[13], s[14], s[15], s[17])
  }

  /** Words 0 to 18 of the frame are the fields of struct trapframe in their order. */
  lemma FrameLayout(g: Regs, kRsp: Word)
    ensures var f := FrameOf(g, kRsp);
            && f[0] == g.rdi && f[1] == g.rsi && f[2] == g.rbx && f[3] == g.rdx && f[4] == g.rcx && f[5] == g.rax
            && f[6] == g.r8 && f[7] == g.r9 && f[8] == g.r10 && f[9] == g.r11 && f[10] == g.r12 && f[11] == g.r13
            && f[12] == g.r14 && f[13] == g.r15 && f[14] == g.fs && f[15] == g.gs && f[16] == kRsp && f[17] == g.rbp
            && f[18] == 0x20 && |f| == 19
  {
  }

  lemma PoppedIsPushed(g: Regs, kRsp: Word)
    ensures Popped(FrameOf(g, kRsp)) == g
  {
  }

  // ---- the queue ---------------------------------------------------------------------------------

  class Process {
    var pid: nat
    var tf: seq<Word>
    var cr3: Word
    var kstackBase: Word
    var next: Process?

    /** Memory fresh from `kmalloc`, whose `next` the source takes to be null. */
    constructor (raw: seq<Word>)
      ensures tf == raw && next == null
    {
      pid, tf, cr3, kstackBase, next := 0, raw, 0, 0, null;
    }
  }

  ghost function Frames(ps: seq<Process>): (fs: seq<seq<Word>>)
    reads ps
    ensures |fs| == |ps| && forall i :: 0 <= i < |ps| ==> fs[i] == ps[i].tf
  {
    if ps == [] then [] else Frames(ps[..|ps| - 1]) + [ps[|ps| - 1].tf]
  }

  lemma SamePid(i: nat, j: nat)
    requires i < j
    ensures (i + 1) % 0x1_0000 == (j + 1) % 0x1_0000 <==> (j - i) % 0x1_0000 == 0
    ensures j < 0x1_0000 ==> (i + 1) % 0x1_0000 != (j + 1) % 0x1_0000
  {
  }

  /** sp lies strictly inside the 0x1000 bytes from base on, as far from their start as from their
      end, unless they wrap round. */
  predicate InMiddle(sp: Word, base: Word) {
    base + 0x1000 <= 0x1_0000_0000_0000_0000 ==> base < sp < base + 0x1000 && sp - base == base + 0x1000 - sp
  }

  class Scheduler {
    var nextPid: nat
    var head: Process?
    var base: Process?
    var running: Process?
    /** CR3, and rsp0 of the TSS. */
    var cr3: Word
    var rsp0: Word

    ghost var queue: seq<Process>
    ghost var cur: nat

    constructor ()
      ensures Valid() && queue == []
    {
      nextPid, head, base, running := 1, null, null, null;
      cr3, rsp0, queue, cur := 0, 0, [], 0;
    }

    /** The list runs from base through every process to head, its last node, and ends there. */
    ghost predicate Linked()
      reads this, queue
    {
      && (queue == [] <==> base == null)
      && (queue == [] ==> head == null && running == null && cur == 0)
      && (queue != [] ==>
            && base == queue[0] && head == queue[|queue| - 1] && queue[|queue| - 1].next == null
            && cur < |queue| && running == queue[cur])
      && (forall i, j :: 0 <= i < j < |queue| ==> queue[i] != queue[j])
      && (forall i :: 0 <= i < |queue| - 1 ==> queue[i].next == queue[i + 1])
    }

    ghost predicate Valid()
      reads this, queue
    {
      && Linked()
      && nextPid == |queue| + 1
      && (forall i :: 0 <= i < |queue| ==> queue[i].pid == (i + 1) % 0x1_0000 && |queue[i].tf| == FRAME)
    }

    /** Two processes share a pid exactly when their launches are a multiple of 65536 apart, so all
        pids are distinct while there are at most 65536 processes; the first is 1. */
    lemma PidsDistinct(i: nat, j: nat)
      requires Valid() && i < j < |queue|
      ensures queue[i].pid == queue[j].pid <==> (j - i) % 0x1_0000 == 0
      ensures |queue| <= 0x1_0000 ==> queue[i].pid != queue[j].pid
      ensures queue[0].pid == 1
    {
      SamePid(i, j);
    }

    /** CR3 and the kernel stack are those of the running process. */
    ghost predicate Switched()
      reads this, queue
    {
      cur < |queue| && cr3 == queue[cur].cr3 && rsp0 == KernelStack(queue[cur].kstackBase)
    }

    ghost function View(): Queue
      reads this, queue
    {
      Queue(cur, Frames(queue))
    }

    /** `make_process`; cr3 and kstack are what `vmm_make_pml4` and `kmalloc` returned, raw what
        the new process's memory held. */
    method MakeProcess(raw: seq<Word>, pml4: Word, kstack: Word)
      requires Valid() && |raw| == FRAME
      modifies this, queue
      ensures Valid() && |queue| == |old(queue)| + 1 && queue[..|old(queue)|] == old(queue)
      ensures fresh(queue[|old(queue)|]) && queue[|old(queue)|].tf == raw
      ensures queue[|old(queue)|].cr3 == pml4 && queue[|old(queue)|].kstackBase == kstack
      ensures cur == old(cur) && queue[|old(queue)|].pid == |queue| % 0x1_0000
      ensures forall p :: p in old(queue) ==>
            p.tf == old(p.tf) && p.cr3 == old(p.cr3) && p.kstackBase == old(p.kstackBase)
    {
      var p := new Process(raw);
      p.pid := nextPid % 0x1_0000;
      nextPid := nextPid + 1;
      p.cr3 := pml4;
      p.kstackBase := kstack;
      if base == null {
        base, head, running := p, p, p;
        cur := 0;
      } else {
        head.next := p;
        head := head.next;
      }
      queue := queue + [p];
    }

    /** `launch_exec`, and `proc_init` when there is no process yet: the new process is last in
        the queue and runs at once. */
    method LaunchExec(raw: seq<Word>, pml4: Word, kstack: Word)
      requires Valid() && |raw| == FRAME
      modifies this, queue
      ensures Valid() && Switched() && InMiddle(rsp0, queue[cur].kstackBase)
      ensures View() == Queue(|old(queue)|, old(View()).frames + [raw])
      ensures queue[..|old(queue)|] == old(queue) && queue[cur].cr3 == pml4 && queue[cur].kstackBase == kstack
    {
      ghost var fs := Frames(queue);
      MakeProcess(raw, pml4, kstack);
      assert Frames(queue) == fs + [raw];
      SwitchToHead();
    }

    method SwitchToHead()
      requires Valid() && queue != []
      modifies this`running, this`cur, this`cr3, this`rsp0
      ensures Valid() && Switched() && cur == |queue| - 1 && InMiddle(rsp0, queue[cur].kstackBase)
    {
      rsp0 := KernelStack(head.kstackBase);
      cr3 := head.cr3;
      running := head;
      cur := |queue| - 1;
    }

    /** The choice of the next process. */
    method Advance()
      requires Valid() && queue != []
      modifies this`running, this`cur, this`cr3, this`rsp0
      ensures Valid() && Switched() && View() == Queue(Next(old(View())), old(View()).frames)
      ensures InMiddle(rsp0, queue[cur].kstackBase)
    {
      assert cur < |queue| - 1 ==> queue[cur].next == queue[cur + 1];
      if running.next != null {
        running := running.next;
        cur := cur + 1;
      } else {
        running := base;
        cur := 0;
      }
      rsp0 := KernelStack(running.kstackBase);
      cr3 := running.cr3;
    }

    /** The first `kmemcpy`: the frame goes to the running process. */
    method SaveFrame(st: Stack, ghost frame: seq<Word>, ghost rest: seq<Word>)
      requires Valid() && queue != [] && st.Valid() && |frame| == FRAME && st.Contents() == frame + rest
      modifies queue
      ensures Valid() && View() == Queue(cur, old(View()).frames[cur := frame])
    {
      ghost var fs := Frames(queue);
      running.tf := st.mem[st.sp..st.sp + FRAME];
      assert running.tf == frame by { assert frame == (frame + rest)[..FRAME]; }
      assert Frames(queue) == fs[cur := frame];
    }

    /** The second `kmemcpy`: the frame on the stack becomes the new process's. */
    method LoadFrame(st: Stack, ghost rest: seq<Word>)
      requires Valid() && queue != [] && st.Valid() && st.sp + FRAME <= st.mem.Length
      requires st.Contents()[FRAME..] == rest
      modifies st.mem
      ensures st.Contents() == View().frames[cur] + rest
    {
      ghost var before := st.mem[..];
      var i := 0;
      while i < FRAME
        invariant 0 <= i <= FRAME
        invariant forall k :: 0 <= k < i ==> st.mem[st.sp + k] == running.tf[k]
        invariant forall k :: st.sp + i <= k < st.mem.Length ==> st.mem[k] == before[k]
      {
        st.mem[st.sp + i] := running.tf[i];
        i := i + 1;
      }
      assert st.mem[st.sp..st.sp + FRAME] == running.tf;
      assert st.mem[st.sp..] == st.mem[st.sp..st.sp + FRAME] + st.mem[st.sp + FRAME..];
      assert st.mem[st.sp + FRAME..] == before[st.sp + FRAME..] == rest;
    }

    /** `task_sched` on the frame that lies on the stack. */
    method TaskSched(st: Stack, ghost frame: seq<Word>, ghost rest: seq<Word>)
      requires Valid() && queue != [] && st.Valid() && |frame| == FRAME && st.Contents() == frame + rest
      modifies this, queue, st.mem
      ensures Valid() && Switched() && queue == old(queue) && InMiddle(rsp0, queue[cur].kstackBase)
      ensures View() == After(old(View()), Tick(frame))
      ensures st.Contents() == View().frames[cur] + rest
    {
      assert (frame + rest)[FRAME..] == rest;
      SaveFrame(st, frame, rest);
      Advance();
      LoadFrame(st, rest);
    }

    /** A timer interrupt from the pushes to the pops: the interrupted registers are saved for
        the running process, and those popped are the ones saved for the process that runs
        now. */
    method TimerInterrupt(st: Stack, g: Regs, kRsp: Word) returns (g': Regs)
      requires Valid() && queue != [] && st.Valid() && st.sp >= FRAME
      modifies this, queue, st, st.mem
      ensures Valid() && Switched() && queue == old(queue)
      ensures View() == After(old(View()), Tick(FrameOf(g, kRsp)))
      ensures g' == Popped(View().frames[cur])
      ensures st.Valid() && st.sp == old(st.sp) && st.Contents() == old(st.Contents())
    {
      ghost var rest := st.Contents();
      st.Enter(g, kRsp);
      TaskSched(st, FrameOf(g, kRsp), rest);
      g' := st.Leave(View().frames[cur], rest);
    }
  }

  /** `KSTACK_START_OFFSET(stack_base)` */
  function KernelStack(base: Word): Word {
    if base + 0x800 < WORD_LIMIT then base + 0x800 else base + 0x800 - WORD_LIMIT
  }

  /** rsp0 is the middle of the kernel stack's 0x1000 bytes. */
  lemma MiddleOfStack(base: Word)
    requires base + 0x1000 <= 0x1_0000_0000_0000_0000
    ensures base < KernelStack(base) < base + 0x1000
    ensures KernelStack(base) - base == base + 0x1000 - KernelStack(base)
  {
  }

  /** Kernel stacks that do not overlap give different rsp0, none inside the other's stack. */
  lemma StacksApart(a: Word, b: Word)
    requires a + 0x1000 <= b && b + 0x1000 <= 0x1_0000_0000_0000_0000
    ensures a < KernelStack(a) < a + 0x1000 <= b < KernelStack(b) < b + 0x1000
  {
  }

  /** The register round trip: over any interleaving of ticks of other processes and launches,
      the registers popped when p is dispatched are those pushed at its last tick. */
  lemma RegistersRoundTrip(qs: seq<Queue>, evs: seq<Event>, j: nat, k: nat, g: Regs, kRsp: Word)
    requires IsRun(qs, evs) && j <= k < |evs|
    requires evs[j] == Tick(FrameOf(g, kRsp)) && evs[k].Tick? && qs[k + 1].cur == qs[j].cur
    requires forall i :: j < i <= k && evs[i].Tick? ==> qs[i].cur != qs[j].cur
    ensures qs[k + 1].frames[qs[k + 1].cur] == FrameOf(g, kRsp)
    ensures Popped(qs[k + 1].frames[qs[k + 1].cur]) == g
  {
    FrameKept(qs, evs, j, k + 1, qs[j].cur);
    PoppedIsPushed(g, kRsp);
  }
}
