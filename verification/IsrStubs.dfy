/** interrupts/isr.s: the stubs as instruction sequences on the CPU's registers and stack. */
module IsrStubs {
  import opened Words

  datatype Cpu = Cpu(
    eax: u32, ebx: u32, ecx: u32, edx: u32, esi: u32, edi: u32, ebp: u32, esp: int,
    ds: u16, es: u16, fs: u16, gs: u16, cs: u16, eip: u32, eflags: u32,
    stack: seq<u32>,       // the words from ESP upwards
    zeroExtends: bool)     // whether a segment push writes its whole slot or the low half

  /** interrupt_frame_t up to eflags; useresp and ss are not pushed without a ring change. */
  datatype Frame = Frame(
    ds: u32, edi: u32, esi: u32, ebp: u32, espDummy: u32, ebx: u32, edx: u32, ecx: u32, eax: u32,
    intNo: u32, errCode: u32, eip: u32, cs: u32, eflags: u32)

  /** The struct read through a pointer, four bytes a field. */
  function FrameAt(c: Cpu, pointer: int): Frame
    requires c.esp <= pointer && (pointer - c.esp) % 4 == 0 && (pointer - c.esp) / 4 + 14 <= |c.stack|
  {
    var i := (pointer - c.esp) / 4;
    Frame(c.stack[i], c.stack[i + 1], c.stack[i + 2], c.stack[i + 3], c.stack[i + 4], c.stack[i + 5],
          c.stack[i + 6], c.stack[i + 7], c.stack[i + 8], c.stack[i + 9], c.stack[i + 10],
          c.stack[i + 11], c.stack[i + 12], c.stack[i + 13])
  }

  function Push(c: Cpu, v: u32): Cpu
  {
    c.(esp := c.esp - 4, stack := [v] + c.stack)
  }

  function Discard(c: Cpu, words: nat): Cpu
    requires words <= |c.stack|
  {
    c.(esp := c.esp + 4 * words, stack := c.stack[words..])
  }

  /** pusha; the pushed ESP is the one before the instruction. */
  function Pusha(c: Cpu): (r: Cpu)
    ensures r == c.(esp := c.esp - 32, stack :=
                      [c.edi, c.esi, c.ebp, c.esp % TWO32, c.ebx, c.edx, c.ecx, c.eax] + c.stack)
  {
    Push(Push(Push(Push(Push(Push(Push(Push(
      c, c.eax), c.ecx), c.edx), c.ebx), c.esp % TWO32), c.ebp), c.esi), c.edi)
  }

  /** popa skips the saved ESP. */
  function Popa(c: Cpu): Cpu
    requires |c.stack| >= 8
  {
    Discard(c, 8).(edi := c.stack[0], esi := c.stack[1], ebp := c.stack[2], ebx := c.stack[4],
                   edx := c.stack[5], ecx := c.stack[6], eax := c.stack[7])
  }

  /** push %ds: the upper half of the slot is zero or, after a 16-bit move, some old value. */
  function PushDs(c: Cpu, leftover: u16): Cpu
  {
    Push(c, if c.zeroExtends then c.ds else 0x10000 * leftover + c.ds)
  }

  function PopDs(c: Cpu): Cpu
    requires |c.stack| >= 1
  {
    Discard(c, 1).(ds := c.stack[0] % 0x10000)
  }

  function MovAx(c: Cpu, v: u16): Cpu
  {
    c.(eax := c.eax - c.eax % 0x10000 + v)
  }

  function MovAxToDs(c: Cpu): Cpu { c.(ds := c.eax % 0x10000) }
  function MovAxToEs(c: Cpu): Cpu { c.(es := c.eax % 0x10000) }
  function MovAxToFs(c: Cpu): Cpu { c.(fs := c.eax % 0x10000) }
  function MovAxToGs(c: Cpu): Cpu { c.(gs := c.eax % 0x10000) }

  function Iret(c: Cpu): Cpu
    requires |c.stack| >= 3
  {
    Discard(c, 3).(eip := c.stack[0], cs := c.stack[1] % 0x10000, eflags := c.stack[2])
  }

  /** What the C calling convention lets a callee change: EAX, ECX, EDX, the flags and its own
      argument. The callee here also leaves the interrupt frame as it found it. */
  ghost predicate CalleeKeeps(x: Cpu, y: Cpu)
  {
    x.stack != [] ==>
      && y.esp == x.esp && |y.stack| == |x.stack| && y.stack[1..] == x.stack[1..]
      && y.ebx == x.ebx && y.esi == x.esi && y.edi == x.edi && y.ebp == x.ebp
      && y.zeroExtends == x.zeroExtends && y.ds == x.ds && y.es == x.es && y.fs == x.fs && y.gs == x.gs && y.cs == x.cs
  }

  /** The common stub at its call of the C function: the frame as declared, flat segments. */
  ghost predicate AtCall(c: Cpu, s: Cpu)
  {
    && |s.stack| == |c.stack| + 10 && s.stack[10..] == c.stack && s.esp == c.esp - 40
    && s.stack[0] == (s.esp + 4) % TWO32 && s.stack[1] % 0x10000 == c.ds
    && s.stack[2..10] == [c.edi, c.esi, c.ebp, c.esp % TWO32, c.ebx, c.edx, c.ecx, c.eax]
    && s == c.(eax := s.eax, esp := s.esp, stack := s.stack, ds := 0x10, es := 0x10, fs := 0x10, gs := 0x10)
  }

  /** isr_common_stub and irq_common_stub up to the call; they differ only in the function. */
  method Enter(c: Cpu, leftover: u16) returns (s: Cpu)
    ensures AtCall(c, s)
  {
    s := Pusha(c);
    s := PushDs(s, leftover);
    s := MovAx(s, 0x10);
    s := MovAxToDs(s);
    s := MovAxToEs(s);
    s := MovAxToFs(s);
    s := MovAxToGs(s);
    s := Push(s, s.esp % TWO32);
  }

  /** The frame the C function is handed, when the stub and the CPU pushed what the declaration
      says, is the interrupted code's registers over those words. */
  lemma FrameIsDeclared(c: Cpu, s: Cpu)
    requires AtCall(c, s) && |c.stack| >= 5
    ensures var f := FrameAt(s, s.esp + 4);
            && f.ds % 0x10000 == c.ds
            && f == Frame(f.ds, c.edi, c.esi, c.ebp, c.esp % TWO32, c.ebx, c.edx, c.ecx, c.eax,
                          c.stack[0], c.stack[1], c.stack[2], c.stack[3], c.stack[4])
  {
    var regs := [c.edi, c.esi, c.ebp, c.esp % TWO32, c.ebx, c.edx, c.ecx, c.eax];
    assert forall k :: 0 <= k < 8 ==> s.stack[2 + k] == s.stack[2..10][k] == regs[k];
    assert forall k :: 0 <= k < 5 ==> s.stack[10 + k] == s.stack[10..][k] == c.stack[k];
  }

  /** The C function and the rest of the common stub: everything comes back, ES, FS and GS as
      DS, and the three words after the vector and the error code are EIP, CS and EFLAGS. */
  method Resume(c: Cpu, atCall: Cpu, handler: Cpu -> Cpu) returns (r: Cpu)
    requires |c.stack| >= 5 && AtCall(c, atCall)
    requires forall x :: CalleeKeeps(x, handler(x))
    ensures r == c.(esp := c.esp + 20, stack := c.stack[5..], es := c.ds, fs := c.ds, gs := c.ds,
                    eip := c.stack[2], cs := c.stack[3] % 0x10000, eflags := c.stack[4])
  {
    var s := handler(atCall);
    assert CalleeKeeps(atCall, s);
    FrameIsDeclared(c, atCall);
    assert s.stack == s.stack[..1] + atCall.stack[1..];
    r := Exit(s);
    assert r.stack == atCall.stack[10..][5..] == c.stack[5..];
  }

  method Exit(c: Cpu) returns (r: Cpu)
    requires |c.stack| >= 15
    ensures r == c.(edi := c.stack[2], esi := c.stack[3], ebp := c.stack[4], ebx := c.stack[6],
                    edx := c.stack[7], ecx := c.stack[8], eax := c.stack[9], esp := c.esp + 60, stack := c.stack[15..],
                    ds := c.stack[1] % 0x10000, es := r.ds, fs := r.ds, gs := r.ds,
                    eip := c.stack[12], cs := c.stack[13] % 0x10000, eflags := c.stack[14])
  {
    var s := Discard(c, 1);
    s := PopDs(s);
    s := MovAx(s, s.ds);
    s := MovAxToEs(s);
    s := MovAxToFs(s);
    s := MovAxToGs(s);
    s := Popa(s);
    s := Discard(s, 2);
    r := Iret(s);
  }
}
