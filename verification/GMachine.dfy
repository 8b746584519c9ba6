/** The stack machine of src/base/gvm/GVM.cpp: one step, a whole run, and the class whose loop
    performs it. */
module GMachine {
  import opened Basics
  import opened GValue
  import opened GCompiler

  const MAX_FRAME: nat := 64
  const MAX_STACK: nat := 4096

  datatype Program = Program(code: seq<Byte>, consts: seq<Value>)

  /** The whole stack memory, the height, and the instruction pointer, of a frame whose slots start
      at the bottom of the stack. Memory above the height keeps what was last stored there. */
  datatype Machine = Machine(mem: seq<Value>, top: nat, ip: nat)

  /** How a run ends. The source reports a bad_cast (`BadValue`) and an unknown instruction by the same
      code. `TooManyFrames` is the exception for too many frames, which `interpret` lets through. `Unmodelled` covers
      calls and globals, which are not part of this model, and reads or writes outside the arrays, which the
      source leaves undefined. */
  datatype ECode = Success | BadValue | BadInstruction | RuntimeFault | TooManyFrames | Unmodelled

  /** Code and the instruction to go on with; the slots of every frame start at the bottom of the stack. */
  datatype Frame = Frame(program: Program, ip: nat)

  datatype StepResult = Next(m: Machine) | Halt(e: ECode, m: Machine)

  predicate WellShaped(m: Machine) {
    |m.mem| == MAX_STACK && m.top <= MAX_STACK
  }

  function Push(m: Machine, v: Value, ip: nat): (r: StepResult)
    requires WellShaped(m)
    ensures WellShaped(r.m) && (r.Halt? ==> r.e != Success)
  {
    if m.top == MAX_STACK then Halt(Unmodelled, m) else Next(Machine(m.mem[m.top := v], m.top + 1, ip))
  }

  /** `BINARY_OP`: the operand below is the left one; the result replaces it. */
  function BinaryOp(m: Machine, op: BinOp): (r: StepResult)
    requires WellShaped(m)
    ensures WellShaped(r.m) && (r.Halt? ==> r.e != Success)
  {
    if m.top < 2 then Halt(Unmodelled, m)
    else
      match Apply(op, m.mem[m.top - 2], m.mem[m.top - 1])
      case Ok(v) => Next(Machine(m.mem[m.top - 2 := v], m.top - 1, m.ip + 1))
      case RuntimeError => Halt(RuntimeFault, m)
      case BadCast => Halt(BadValue, m)
  }

  function Step(p: Program, m: Machine): (r: StepResult)
    requires WellShaped(m)
    ensures WellShaped(r.m) && (r.Next? ==> m.ip < r.m.ip <= |p.code|)
    ensures r.Halt? && r.e == Success ==> r.m.top < MAX_STACK
  {
    if m.ip >= |p.code| then Halt(Unmodelled, m)
    else
      var op := p.code[m.ip];
      if op == OP_ADD then BinaryOp(m, Add)
      else if op == OP_SUBTRACT then BinaryOp(m, Subtract)
      else if op == OP_MULTIPLY then BinaryOp(m, Multiply)
      else if op == OP_DIVIDE then BinaryOp(m, Divide)
      else if op == OP_POP then (if m.top == 0 then Halt(Unmodelled, m) else Next(m.(top := m.top - 1, ip := m.ip + 1)))
      else if op == OP_JUMP then Next(m.(ip := m.ip + 1))
      else if op == OP_RETURN then (if m.top == 0 then Halt(Unmodelled, m) else Halt(Success, m.(top := m.top - 1)))
      else if op in {OP_CONSTANT, OP_GET_LOCAL, OP_SET_LOCAL} then
        if m.ip + 1 >= |p.code| then Halt(Unmodelled, m)
        else
          var b := p.code[m.ip + 1];
          if op == OP_CONSTANT then
            if b < |p.consts| then Push(m, p.consts[b], m.ip + 2) else Halt(Unmodelled, m)
          else if op == OP_GET_LOCAL then Push(m, m.mem[b], m.ip + 2)
          else if m.top == 0 then Halt(Unmodelled, m)
          else Next(Machine(m.mem[b := m.mem[m.top - 1]], m.top, m.ip + 2))
      else if op in {OP_SET_GLOBAL, OP_GET_GLOBAL, OP_DEF_GLOBAL, OP_CALL} then Halt(Unmodelled, m)
      else Halt(BadInstruction, m)
  }

  /** The instructions by their bytes: numbers of the enumeration in Chunk.h, and what each does to the stack. */
  lemma InstructionsMean(p: Program, m: Machine)
    requires WellShaped(m) && m.ip + 1 < |p.code| && 2 <= m.top < MAX_STACK
    ensures
      var byte, b, top := p.code[m.ip], p.code[m.ip + 1], m.top;
      var left, right := m.mem[top - 2], m.mem[top - 1];
      && (byte == 1 ==> Step(p, m) == Next(Machine(m.mem[b := right], top, m.ip + 2)))
      && (byte == 3 ==> Step(p, m) == Next(Machine(m.mem[top := m.mem[b]], top + 1, m.ip + 2)))
      && (byte == 4 ==> Step(p, m) == Next(Machine(m.mem, top - 1, m.ip + 1)))
      && (byte in {7, 8, 9, 10} ==>
            var op := if byte == 7 then Add else if byte == 8 then Subtract else if byte == 9 then Multiply else Divide;
            var r := Apply(op, left, right);
            if r.Ok? then Step(p, m) == Next(Machine(m.mem[top - 2 := r.value], top - 1, m.ip + 1))
            else Step(p, m) == Halt(if r.RuntimeError? then RuntimeFault else BadValue, m))
      && (byte == 15 && b < |p.consts| ==> Step(p, m) == Next(Machine(m.mem[top := p.consts[b]], top + 1, m.ip + 2)))
      && (byte == 16 ==> Step(p, m) == Next(Machine(m.mem, top, m.ip + 1)))
      && (byte == 17 ==> Step(p, m) == Halt(Success, Machine(m.mem, top - 1, m.ip)))
      && (byte in {0, 2, 5, 12} ==> Step(p, m) == Halt(Unmodelled, m))
      && (byte in {6, 11, 13, 14} || byte > 17 ==> Step(p, m) == Halt(BadInstruction, m))
  {
    hide Apply;
  }

  /** Runs to the halt; the pointer only moves forward. */
  function Exec(p: Program, m: Machine): (r: StepResult)
    requires WellShaped(m)
    ensures r.Halt? && WellShaped(r.m) && (r.e == Success ==> r.m.top < MAX_STACK)
    decreases if m.ip <= |p.code| then |p.code| - m.ip else 0
  {
    match Step(p, m)
    case Halt(e, m') => Halt(e, m')
    case Next(m') => Exec(p, m')
  }

  /** The machine after k steps, if it has not halted by then. */
  function StepN(p: Program, m: Machine, k: nat): (r: StepResult)
    requires WellShaped(m)
    ensures WellShaped(m) && (r.Next? ==> WellShaped(r.m))
    decreases k
  {
    if k == 0 then Next(m)
    else
      match Step(p, m)
      case Halt(e, m') => Halt(e, m')
      case Next(m') => StepN(p, m', k - 1)
  }

  lemma {:induction false} StepsCompose(p: Program, m: Machine, j: nat, k: nat)
    requires WellShaped(m) && StepN(p, m, j).Next?
    ensures StepN(p, m, j + k) == StepN(p, StepN(p, m, j).m, k)
    decreases j
  {
    hide Step;
    if j > 0 {
      StepsCompose(p, Step(p, m).m, j - 1, k);
    }
  }

  lemma {:induction false} StepsThenExec(p: Program, m: Machine, k: nat)
    requires WellShaped(m) && StepN(p, m, k).Next?
    ensures Exec(p, m) == Exec(p, StepN(p, m, k).m)
    decreases k
  {
    hide Step;
    if k > 0 {
      StepsThenExec(p, Step(p, m).m, k - 1);
    }
  }

  // ------------------------------------------------------------------ counted frames

  /** How the run of some frames ends, and how many of them it went back to. */
  datatype Ending = Ending(e: ECode, m: Machine, resumed: nat)

  /** The run of the last frame. One that returns takes itself off, and if a frame is left its result becomes the
      whole stack and that frame goes on. */
  function Unwind(frames: seq<Frame>, mem: seq<Value>, top: nat): (r: Ending)
    requires frames != [] && |mem| == MAX_STACK && top <= MAX_STACK
    ensures WellShaped(r.m) && r.resumed < |frames|
    ensures r.e == Success ==> r.resumed == |frames| - 1 && r.m.top < MAX_STACK
    decreases |frames|
  {
    var f, rest := frames[|frames| - 1], frames[..|frames| - 1];
    var r := Exec(f.program, Machine(mem, top, f.ip));
    if r.e != Success || rest == [] then Ending(r.e, r.m, 0)
    else
      var u := Unwind(rest, r.m.mem[0 := r.m.mem[r.m.top]], 1);
      Ending(u.e, u.m, u.resumed + 1)
  }

  /** The frames still counted then. What a frame does is written to the one that was last at the start. */
  function Counted(frames: seq<Frame>, r: Ending): seq<Frame>
    requires r.resumed < |frames|
  {
    if r.e == Success then []
    else if r.resumed == 0 then frames[..|frames| - 1] + [Frame(frames[|frames| - 1].program, r.m.ip + 1)]
    else frames[..|frames| - r.resumed]
  }

  lemma CountedAfter(frames: seq<Frame>, r: Ending, all: seq<Frame>, left: nat, p: Program, ip: nat)
    requires 0 < |frames| <= |all| && all[..|frames|] == frames && r.resumed < |frames|
    requires left == if r.e == Success then 0 else |frames| - r.resumed
    requires left == |frames| ==> p == frames[left - 1].program && ip == r.m.ip
    ensures all[|frames| - 1 := Frame(p, ip + 1)][..left] == Counted(frames, r)
  {
    if left == |frames| {
      assert all[left - 1 := Frame(p, ip + 1)][..left] == frames[..left - 1] + [Frame(p, ip + 1)];
    }
  }

  lemma UnwindStep(frames: seq<Frame>, p: Program, m: Machine, m': Machine)
    requires WellShaped(m) && Step(p, m) == Next(m')
    ensures Unwind(frames + [Frame(p, m.ip)], m.mem, m.top) == Unwind(frames + [Frame(p, m'.ip)], m'.mem, m'.top)
  {
    hide Step;
    assert (frames + [Frame(p, m.ip)])[..|frames|] == (frames + [Frame(p, m'.ip)])[..|frames|];
  }

  lemma UnwindHalts(frames: seq<Frame>, p: Program, m: Machine)
    requires WellShaped(m) && Step(p, m).Halt?
    ensures
      var h, r := Step(p, m), Unwind(frames + [Frame(p, m.ip)], m.mem, m.top);
      if h.e != Success || frames == [] then r == Ending(h.e, h.m, 0)
      else
        var u := Unwind(frames, h.m.mem[0 := h.m.mem[h.m.top]], 1);
        r == Ending(u.e, u.m, u.resumed + 1)
  {
    hide Step;
    assert (frames + [Frame(p, m.ip)])[..|frames|] == frames;
  }

  lemma UnwindReturns(frames: seq<Frame>, p: Program, m: Machine)
    requires WellShaped(m) && (m.ip >= |p.code| || p.code[m.ip] == OP_RETURN)
    ensures
      var r := Unwind(frames + [Frame(p, m.ip)], m.mem, m.top);
      if m.ip >= |p.code| || m.top == 0 then r == Ending(Unmodelled, m, 0)
      else if frames == [] then r == Ending(Success, m.(top := m.top - 1), 0)
      else
        var u := Unwind(frames, m.mem[0 := m.mem[m.top - 1]], 1);
        r == Ending(u.e, u.m, u.resumed + 1)
  {
    hide Unwind;
    UnwindHalts(frames, p, m);
  }

  /** A script runs its own code only, and so ends as that code does, exactly if no frame was counted before or
      its code fails. */
  lemma RunsOwnCodeExactly(frames: seq<Frame>, p: Program, mem: seq<Value>, top: nat)
    requires |mem| == MAX_STACK && top <= MAX_STACK
    ensures
      var own, r := Exec(p, Machine(mem, top, 0)), Unwind(frames + [Frame(p, 0)], mem, top);
      && (r.resumed == 0 <==> frames == [] || own.e != Success)
      && (r.resumed == 0 ==> r.e == own.e && r.m == own.m)
      && (r.resumed != 0 ==>
            var u := Unwind(frames, own.m.mem[0 := own.m.mem[own.m.top]], 1);
            r == Ending(u.e, u.m, u.resumed + 1))
  {
    hide Exec;
    assert (frames + [Frame(p, 0)])[..|frames|] == frames;
  }

  /** Otherwise it can end as quite another script: whatever it returns, a counted frame that stopped before
      returning a constant of its own returns that. */
  lemma CountedFrameAnswers(f: Frame, mem: seq<Value>, top: nat)
    requires |mem| == MAX_STACK && top < MAX_STACK && f.ip + 2 < |f.program.code|
    requires f.program.code[f.ip] == OP_CONSTANT && f.program.code[f.ip + 2] == OP_RETURN
    requires f.program.code[f.ip + 1] < |f.program.consts|
    ensures
      var r := Unwind([f], mem, top);
      r.e == Success && r.m.mem[r.m.top] == f.program.consts[f.program.code[f.ip + 1]]
  {
    var p, m := f.program, Machine(mem, top, f.ip);
    var m' := Machine(mem[top := p.consts[p.code[f.ip + 1]]], top + 1, f.ip + 2);
    assert Step(p, m) == Next(m');
    assert Step(p, m') == Halt(Success, m'.(top := top));
    hide Step;
    assert Exec(p, m) == Exec(p, m') == Step(p, m');
  }

  /** A counted frame that stopped right before its return hands the result on. */
  lemma ReturningFrameHandsOn(f: Frame, mem: seq<Value>, top: nat)
    requires |mem| == MAX_STACK && 0 < top <= MAX_STACK && f.ip < |f.program.code| && f.program.code[f.ip] == OP_RETURN
    ensures
      var r := Unwind([f], mem, top);
      r.e == Success && r.m.mem == mem && r.m.top == top - 1
  {
  }

  class GVM {
    const stack: array<Value>
    const frame: array<Frame>
    var stackTop: nat
    var frameSize: nat

    ghost predicate Valid()
      reads this
    {
      stack.Length == MAX_STACK && stackTop <= MAX_STACK && frame.Length == MAX_FRAME && frameSize <= MAX_FRAME
    }

    constructor ()
      ensures Valid() && stackTop == 0 && frameSize == 0 && fresh(stack) && fresh(frame)
      ensures stack.Length == 4096 && frame.Length == 64
    {
      stack := new Value[MAX_STACK](_ => Empty);
      frame := new Frame[MAX_FRAME](_ => Frame(Program([], []), 0));
      stackTop, frameSize := 0, 0;
    }

    /** The counted frames. */
    ghost function Frames(): (s: seq<Frame>)
      requires Valid()
      reads this, frame
      ensures |s| == frameSize
    {
      frame[..frameSize]
    }

    /** One instruction but OP_RETURN: the cases of the switch in `run`. */
    method Instruction(p: Program, ip: nat) returns (go: bool, e: ECode, next: nat)
      requires Valid() && ip < |p.code| && p.code[ip] != OP_RETURN
      modifies this`stackTop, stack
      ensures Valid()
      ensures Step(p, Machine(old(stack[..]), old(stackTop), ip))
           == if go then Next(Machine(stack[..], stackTop, next)) else Halt(e, Machine(stack[..], stackTop, ip))
      ensures !go ==> e != Success
    {
      hide Apply;
      go, e, next := false, Unmodelled, ip;
      var op := p.code[ip];
      if op in {OP_ADD, OP_SUBTRACT, OP_MULTIPLY, OP_DIVIDE} {
        if stackTop < 2 {
          return;
        }
        var o := if op == OP_ADD then Add else if op == OP_SUBTRACT then Subtract
          else if op == OP_MULTIPLY then Multiply else Divide;
        match Apply(o, stack[stackTop - 2], stack[stackTop - 1]) {
          case Ok(v) =>
            stackTop := stackTop - 1;
            stack[stackTop - 1] := v;
            return true, Success, ip + 1;
          case RuntimeError => return false, RuntimeFault, ip;
          case BadCast => return false, BadValue, ip;
        }
      } else if op == OP_POP {
        if stackTop == 0 {
          return;
        }
        stackTop := stackTop - 1;
        return true, Success, ip + 1;
      } else if op == OP_JUMP {
        return true, Success, ip + 1;
      } else if op in {OP_CONSTANT, OP_GET_LOCAL, OP_SET_LOCAL} {
        if ip + 1 >= |p.code| {
          return;
        }
        var b := p.code[ip + 1];
        if op == OP_SET_LOCAL {
          if stackTop == 0 {
            return;
          }
          stack[b] := stack[stackTop - 1];
        } else {
          if stackTop == MAX_STACK || (op == OP_CONSTANT && b >= |p.consts|) {
            return;
          }
          stack[stackTop] := if op == OP_CONSTANT then p.consts[b] else stack[b];
          stackTop := stackTop + 1;
        }
        return true, Success, ip + 2;
      } else if op in {OP_SET_GLOBAL, OP_GET_GLOBAL, OP_DEF_GLOBAL, OP_CALL} {
        return;
      } else {
        return false, BadInstruction, ip;
      }
    }

    /** `run`: the loop over instructions. It works on the frame that is last at its start; a return copies the
        frame before into that. */
    method Run() returns (e: ECode)
      requires Valid() && frameSize > 0
      modifies this`stackTop, this`frameSize, stack, frame
      ensures Valid()
      ensures
        var r := Unwind(old(Frames()), old(stack[..]), old(stackTop));
        e == r.e && stack[..] == r.m.mem && stackTop == r.m.top && Frames() == Counted(old(Frames()), r)
    {
      hide Step, Unwind, Counted;
      var at := frameSize - 1;
      var p: Program, ip: nat := frame[at].program, frame[at].ip;
      ghost var frames := frame[..frameSize];
      ghost var r := Unwind(frames, stack[..], stackTop);
      ghost var m := Machine(stack[..], stackTop, ip);
      assert frames[..at] + [Frame(p, ip)] == frames;
      while true
        invariant Valid() && 0 < frameSize <= |frames| == at + 1 && frame[..] == old(frame[..])
        invariant m == Machine(stack[..], stackTop, ip)
        invariant var u := Unwind(frames[..frameSize - 1] + [Frame(p, ip)], stack[..], stackTop);
                  r == Ending(u.e, u.m, u.resumed + |frames| - frameSize)
        invariant frameSize == |frames| ==> p == frames[at].program
        decreases frameSize, if ip <= |p.code| then |p.code| - ip else 0
      {
        ghost var rest := frames[..frameSize - 1];
        if ip < |p.code| && p.code[ip] != OP_RETURN {
          var go, code, next := Instruction(p, ip);
          if !go {
            UnwindHalts(rest, p, m);
            e := code;
            break;
          }
          ghost var m' := Machine(stack[..], stackTop, next);
          UnwindStep(rest, p, m, m');
          ip, m := next, m';
        } else if ip >= |p.code| || stackTop == 0 {
          UnwindReturns(rest, p, m);
          e := Unmodelled;
          break;
        } else {
          UnwindReturns(rest, p, m);
          stackTop, frameSize := stackTop - 1, frameSize - 1;
          if frameSize == 0 {
            e := Success;
            break;
          }
          stack[0], stackTop := stack[stackTop], 1;
          p, ip := frame[frameSize - 1].program, frame[frameSize - 1].ip;
          assert rest == frames[..frameSize - 1] + [Frame(p, ip)];
          m := Machine(stack[..], stackTop, ip);
        }
      }
      CountedAfter(frames, r, frame[..], frameSize, p, ip);
      frame[at] := Frame(p, ip + 1);
    }

    /** `interpret`: the function goes into slot 0 and into a frame of its own, and the frames are run. An error
        empties the stack but leaves frames counted. */
    method Interpret(chunk: Chunk) returns (e: ECode)
      requires Valid()
      modifies this`stackTop, this`frameSize, stack, frame
      ensures Valid()
      ensures old(frameSize) == MAX_FRAME ==>
                && e == TooManyFrames && stack[..] == old(stack[..])[0 := Function] && stackTop == 1
                && Frames() == old(Frames())
      ensures old(frameSize) < MAX_FRAME ==>
                var frames := old(Frames()) + [Frame(Program(chunk.code[..], chunk.values), 0)];
                var r := Unwind(frames, old(stack[..])[0 := Function], 1);
                && e == r.e && stack[..] == r.m.mem
                && stackTop == (if e in {BadValue, RuntimeFault} then 0 else r.m.top)
                && Frames() == Counted(frames, r)
    {
      hide Unwind;
      stackTop := 0;
      stack[stackTop] := Function;
      stackTop := stackTop + 1;
      if frameSize == MAX_FRAME {
        return TooManyFrames;
      }
      frame[frameSize] := Frame(Program(chunk.code[..], chunk.values), 0);
      frameSize := frameSize + 1;
      assert Frames() == old(Frames()) + [Frame(Program(chunk.code[..], chunk.values), 0)];
      e := Run();
      if e in {BadValue, RuntimeFault} {
        stackTop := 0;
      }
    }
  }
}
