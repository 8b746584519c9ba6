/** The script compiler: Chunk.h, Compiler.cpp and the two visitors that generate code,
    ByteCodeVisitor.cpp for statements and VariantVisitor.cpp for initialisers.

  Each class method is proved against a function on `State`, the compiler's state as a value.
 */
module GCompiler {
  import opened Basics
  import opened GValue

  // ------------------------------------------------------------------- syntax

  /** Integer literals up to INT_MAX, decimal literals and strings. */
  datatype Literal = IntegerLit(n: Int32) | NumberLit(x: real) | StringLit(s: string)

  datatype Expr = Lit(literal: Literal) | Name(name: string) | Binary(op: BinOp, left: Expr, right: Expr)

  datatype Stmt = Let(name: string, init: Expr) | Block(body: Stmts)
  datatype Stmts = End | Then(first: Stmt, rest: Stmts)

  /** The block of a lambda: statements, then a final `return`. */
  datatype Script = Script(body: Stmts, result: Expr)

  // -------------------------------------------------------------------- state

  const OP_SET_GLOBAL: Byte := 0
  const OP_SET_LOCAL: Byte := 1
  const OP_GET_GLOBAL: Byte := 2
  const OP_GET_LOCAL: Byte := 3
  const OP_POP: Byte := 4
  const OP_DEF_GLOBAL: Byte := 5
  const OP_ADD: Byte := 7
  const OP_SUBTRACT: Byte := 8
  const OP_MULTIPLY: Byte := 9
  const OP_DIVIDE: Byte := 10
  const OP_CALL: Byte := 12
  const OP_CONSTANT: Byte := 15
  const OP_JUMP: Byte := 16
  const OP_RETURN: Byte := 17

  const MAX_BYTE_CODE: nat := 1024
  const MAX_LOCALS: nat := 255
  const MAX_DEPTH: int := 127

  datatype Local = Local(name: string, depth: int)

  datatype State = State(locals: seq<Local>, depth: int, code: seq<Byte>, consts: seq<Value>)

  /** The first three are thrown; `Overrun` is writing past the 1024 code bytes or the int8 depth,
      where the source's behaviour is undefined. */
  datatype Error = Uninitialised | Exists | TooManyLocals | Overrun

  datatype Compiled<+T> = Done(value: T) | Failed(error: Error) {
    predicate IsFailure() {
      Failed?
    }
    function PropagateFailure<U>(): Compiled<U>
      requires Failed?
    {
      Failed(error)
    }
    function Extract(): T
      requires Done?
    {
      value
    }
  }

  /** A new compiler: slot 0 is the function itself. */
  const INITIAL: State := State([Local("", -1)], 0, [], [])

  // --------------------------------------------------------- what is generated

  function Emit(c: State, bytes: seq<Byte>): Compiled<State> {
    if |c.code| + |bytes| <= MAX_BYTE_CODE then Done(c.(code := c.code + bytes)) else Failed(Overrun)
  }

  /** The pool index is truncated to a byte. */
  function EmitConstant(c: State, v: Value): Compiled<State> {
    Emit(c.(consts := c.consts + [v]), [OP_CONSTANT, |c.consts| % 256])
  }

  function OpByte(op: BinOp): Byte {
    match op
    case Add => OP_ADD
    case Subtract => OP_SUBTRACT
    case Multiply => OP_MULTIPLY
    case Divide => OP_DIVIDE
  }

  /** The constant an initialiser loads for a literal. */
  function GetVariant(l: Literal): Value {
    match l
    case IntegerLit(n) => Int(n)
    case NumberLit(x) => Double(x)
    case StringLit(s) => Str(s)
  }

  /** The constant a returned literal loads: every number is a double. */
  function GetLiteral(l: Literal): Value {
    match l
    case IntegerLit(n) => Double(n as real)
    case NumberLit(x) => Double(x)
    case StringLit(s) => Str(s)
  }

  /** Backwards search; None when no local has the name. */
  function Resolve(locals: seq<Local>, name: string): (k: int)
    ensures -1 <= k < |locals|
    ensures k >= 0 ==> locals[k].name == name
    ensures forall i :: k < i < |locals| ==> locals[i].name != name
  {
    if locals == [] then -1
    else if locals[|locals| - 1].name == name then |locals| - 1
    else Resolve(locals[..|locals| - 1], name)
  }

  function NamedVariant(c: State, name: string): Compiled<State> {
    var k := Resolve(c.locals, name);
    if k == -1 then Emit(c, [OP_GET_GLOBAL, 255])
    else if c.locals[k].depth == -1 then Failed(Uninitialised)
    else Emit(c, [OP_GET_LOCAL, k % 256])
  }

  /** Whether the name is declared in the innermost scope already. */
  predicate DeclaredHere(locals: seq<Local>, depth: int, name: string) {
    locals != [] &&
    var last := locals[|locals| - 1];
    last.depth >= depth && (last.name == name || DeclaredHere(locals[..|locals| - 1], depth, name))
  }

  function DeclLocal(c: State, name: string): Compiled<State> {
    if DeclaredHere(c.locals, c.depth, name) then Failed(Exists)
    else if |c.locals| == MAX_LOCALS then Failed(TooManyLocals)
    else Done(c.(locals := c.locals + [Local(name, c.depth)]))
  }

  /** `GVariantVisitor`: code for an initialiser. */
  function CompileInit(c: State, e: Expr): Compiled<State>
    decreases e
  {
    match e
    case Lit(l) => EmitConstant(c, GetVariant(l))
    case Name(x) => NamedVariant(c, x)
    case Binary(op, left, right) =>
      var c1 :- CompileInit(c, left);
      var c2 :- CompileInit(c1, right);
      Emit(c2, [OpByte(op)])
  }

  /** `GByteCodeVisitor` on a returned expression. A name there declares a local. */
  function CompileResult(c: State, e: Expr): Compiled<State>
    decreases e
  {
    match e
    case Lit(l) => EmitConstant(c, GetLiteral(l))
    case Name(x) => if c.depth != 0 then DeclLocal(c, x) else Done(c)
    case Binary(op, left, right) =>
      var c1 :- CompileResult(c, left);
      var c2 :- CompileResult(c1, right);
      Emit(c2, [OpByte(op)])
  }

  /** Leaving a scope pops its locals. */
  function PopScope(c: State): Compiled<State>
    decreases |c.locals|
  {
    if c.locals != [] && c.locals[|c.locals| - 1].depth > c.depth then
      var c1 :- Emit(c, [OP_POP]);
      PopScope(c1.(locals := c1.locals[..|c1.locals| - 1]))
    else Done(c)
  }

  function Enter(c: State): Compiled<State> {
    if c.depth == MAX_DEPTH then Failed(Overrun) else Done(c.(depth := c.depth + 1))
  }

  function CompileStmt(c: State, s: Stmt): Compiled<State>
    decreases s
  {
    match s
    case Let(x, e) =>
      var c1 :- if c.depth != 0 then DeclLocal(c, x) else Done(c);
      CompileInit(c1, e)
    case Block(b) =>
      var c1 :- Enter(c);
      var c2 :- CompileStmts(c1, b);
      PopScope(c2.(depth := c2.depth - 1))
  }

  function CompileStmts(c: State, ss: Stmts): Compiled<State>
    decreases ss
  {
    match ss
    case End => Done(c)
    case Then(s, rest) =>
      var c1 :- CompileStmt(c, s);
      CompileStmts(c1, rest)
  }

  /** The whole lambda: its block is entered, compiled, ended by the return, and left. */
  function CompileScript(script: Script): Compiled<State> {
    var c1 :- Enter(INITIAL);
    var c2 :- CompileStmts(c1, script.body);
    var c3 :- CompileResult(c2, script.result);
    var c4 :- Emit(c3, [OP_RETURN]);
    PopScope(c4.(depth := c4.depth - 1))
  }

  // ------------------------------------------------------------------- classes

  class Chunk {
    const code: array<Byte>
    var codeSize: nat
    var values: seq<Value>

    constructor ()
      ensures fresh(code) && code.Length == MAX_BYTE_CODE && codeSize == 0 && values == []
      ensures forall k :: 0 <= k < MAX_BYTE_CODE ==> code[k] == 0
    {
      code := new Byte[MAX_BYTE_CODE](_ => 0);
      codeSize, values := 0, [];
    }

    /** Stores a byte unless the code is full. */
    method Push(c: Byte) returns (ok: bool)
      requires codeSize <= code.Length
      modifies this`codeSize, code
      ensures ok <==> old(codeSize) < code.Length
      ensures codeSize == old(codeSize) + if ok then 1 else 0
      ensures codeSize <= code.Length
      ensures code[..codeSize] == old(code[..codeSize]) + if ok then [c] else []
      ensures code[codeSize..] == old(code[codeSize..])[if ok then 1 else 0..]
    {
      if codeSize == code.Length {
        return false;
      }
      code[codeSize] := c;
      codeSize := codeSize + 1;
      return true;
    }

    method AddConstant(v: Value) returns (index: nat)
      modifies this`values
      ensures values == old(values) + [v] && index == |old(values)|
    {
      values := values + [v];
      return |values| - 1;
    }
  }

  class Compiler {
    const chunk: Chunk
    const variant: array<Local>
    var count: nat
    var scopeDepth: int

    ghost predicate Valid()
      reads this, chunk
    {
      chunk.code.Length == MAX_BYTE_CODE && chunk.codeSize <= MAX_BYTE_CODE && variant.Length == MAX_LOCALS
        && count <= MAX_LOCALS
    }

    /** The compiler's state as a value. */
    ghost function View(): State
      requires Valid()
      reads this, chunk, chunk.code, variant
    {
      State(variant[..count], scopeDepth, chunk.code[..chunk.codeSize], chunk.values)
    }

    constructor ()
      ensures Valid() && View() == INITIAL
      ensures fresh(chunk) && fresh(chunk.code) && fresh(variant)
      ensures forall k :: 0 <= k < MAX_BYTE_CODE ==> chunk.code[k] == 0
    {
      chunk := new Chunk();
      variant := new Local[MAX_LOCALS](_ => Local("", -1));
      count, scopeDepth := 1, 0;
      new;
      assert variant[..1] == [Local("", -1)];
    }

    /** A method ended as the state function says: in its state, or with its error. */
    ghost predicate Ended(r: Outcome, spec: Compiled<State>)
      requires Valid()
      reads this, chunk, chunk.code, variant
    {
      match spec
      case Done(c) => r == Fine && View() == c
      case Failed(e) => r == Thrown(e)
    }

    method EmitByte(b: Byte) returns (r: Outcome)
      requires Valid()
      modifies chunk`codeSize, chunk.code
      ensures Valid() && Ended(r, Emit(old(View()), [b]))
      ensures count == old(count) && variant[..] == old(variant[..])
    {
      var ok := chunk.Push(b);
      return if ok then Fine else Thrown(Overrun);
    }

    method EmitBytes(b: Byte, b': Byte) returns (r: Outcome)
      requires Valid()
      modifies chunk`codeSize, chunk.code
      ensures Valid() && Ended(r, Emit(old(View()), [b, b']))
    {
      ghost var code := chunk.code[..chunk.codeSize];
      var ok := chunk.Push(b);
      if ok {
        ok := chunk.Push(b');
        assert ok ==> chunk.code[..chunk.codeSize] == code + [b] + [b'] == code + [b, b'];
      }
      return if ok then Fine else Thrown(Overrun);
    }

    method Constant(v: Value) returns (r: Outcome)
      requires Valid()
      modifies chunk, chunk.code
      ensures Valid() && Ended(r, EmitConstant(old(View()), v))
    {
      var index := chunk.AddConstant(v);
      r := EmitBytes(OP_CONSTANT, index % 256);
    }

    /** `resolveLocal`: the slot of the innermost local of that name, or -1. */
    method ResolveLocal(name: string) returns (k: int, uninitialised: bool)
      requires Valid()
      ensures k == Resolve(View().locals, name)
      ensures uninitialised <==> k >= 0 && View().locals[k].depth == -1
    {
      var i := count - 1;
      while i >= 0
        invariant -1 <= i < count
        invariant Resolve(variant[..count], name) == Resolve(variant[..i + 1], name)
      {
        assert variant[..i + 1][..i] == variant[..i];
        if variant[i].name == name {
          return i, variant[i].depth == -1;
        }
        i := i - 1;
      }
      return -1, false;
    }

    method GetNamed(name: string) returns (r: Outcome)
      requires Valid()
      modifies chunk`codeSize, chunk.code
      ensures Valid() && Ended(r, NamedVariant(old(View()), name))
    {
      var k, uninitialised := ResolveLocal(name);
      if uninitialised {
        return Thrown(Uninitialised);
      }
      if k == -1 {
        r := EmitBytes(OP_GET_GLOBAL, 255);
      } else {
        r := EmitBytes(OP_GET_LOCAL, k % 256);
      }
    }

    method Declare(name: string) returns (r: Outcome)
      requires Valid()
      modifies this`count, variant
      ensures Valid() && Ended(r, DeclLocal(old(View()), name))
    {
      var i := count - 1;
      while i >= 0
        invariant -1 <= i < count
        invariant DeclaredHere(variant[..count], scopeDepth, name) == DeclaredHere(variant[..i + 1], scopeDepth, name)
        invariant variant[..] == old(variant[..])
      {
        assert variant[..i + 1][..i] == variant[..i];
        if variant[i].depth < scopeDepth {
          break;
        }
        if variant[i].name == name {
          return Thrown(Exists);
        }
        i := i - 1;
      }
      assert !DeclaredHere(variant[..count], scopeDepth, name);
      if count == MAX_LOCALS {
        return Thrown(TooManyLocals);
      }
      variant[count] := Local(name, scopeDepth);
      count := count + 1;
      assert variant[..count] == old(variant[..count]) + [Local(name, scopeDepth)];
      return Fine;
    }

    method VisitInit(e: Expr) returns (r: Outcome)
      requires Valid()
      modifies chunk, chunk.code
      ensures Valid() && Ended(r, CompileInit(old(View()), e))
      decreases e
    {
      match e
      case Lit(l) => r := Constant(GetVariant(l));
      case Name(x) => r := GetNamed(x);
      case Binary(op, left, right) =>
        r := VisitInit(left);
        if r == Fine {
          r := VisitInit(right);
          if r == Fine {
            r := EmitByte(OpByte(op));
          }
        }
    }

    method VisitResult(e: Expr) returns (r: Outcome)
      requires Valid()
      modifies this`count, variant, chunk, chunk.code
      ensures Valid() && Ended(r, CompileResult(old(View()), e))
      decreases e
    {
      match e
      case Lit(l) => r := Constant(GetLiteral(l));
      case Name(x) =>
        if scopeDepth != 0 {
          r := Declare(x);
        } else {
          r := Fine;
        }
      case Binary(op, left, right) =>
        r := VisitResult(left);
        if r == Fine {
          r := VisitResult(right);
          if r == Fine {
            r := EmitByte(OpByte(op));
          }
        }
    }

    method LeaveScope() returns (r: Outcome)
      requires Valid()
      modifies this, chunk, chunk.code
      ensures Valid() && scopeDepth == old(scopeDepth) && Ended(r, PopScope(old(View())))
    {
      while count > 0 && variant[count - 1].depth > scopeDepth
        invariant Valid() && scopeDepth == old(scopeDepth) && variant[..] == old(variant[..])
        invariant PopScope(View()) == PopScope(old(View()))
        decreases count
      {
        ghost var before := View();
        assert before.locals[..count - 1] == variant[..count - 1];
        r := EmitByte(OP_POP);
        if r != Fine {
          return;
        }
        count := count - 1;
      }
      return Fine;
    }

    method VisitBlock(b: Stmts) returns (r: Outcome)
      requires Valid()
      modifies this, chunk, chunk.code, variant
      ensures Valid() && Ended(r, CompileStmt(old(View()), Block(b)))
      decreases b, 1
    {
      if scopeDepth == MAX_DEPTH {
        return Thrown(Overrun);
      }
      scopeDepth := scopeDepth + 1;
      r := VisitStmts(b);
      if r != Fine {
        return;
      }
      scopeDepth := scopeDepth - 1;
      r := LeaveScope();
    }

    /** The name is declared before its initialiser is compiled. */
    method VisitLet(x: string, e: Expr) returns (r: Outcome)
      requires Valid()
      modifies this`count, variant, chunk, chunk.code
      ensures Valid() && Ended(r, CompileStmt(old(View()), Let(x, e)))
    {
      if scopeDepth != 0 {
        r := Declare(x);
        if r != Fine {
          return;
        }
      }
      r := VisitInit(e);
    }

    method VisitStmts(ss: Stmts) returns (r: Outcome)
      requires Valid()
      modifies this, chunk, chunk.code, variant
      ensures Valid() && Ended(r, CompileStmts(old(View()), ss))
      decreases ss, 0
    {
      match ss
      case End => r := Fine;
      case Then(s, rest) =>
        match s {
          case Let(x, e) =>
            r := VisitLet(x, e);
          case Block(b) =>
            r := VisitBlock(b);
        }
        assert Ended(r, CompileStmt(old(View()), s));
        if r == Fine {
          r := VisitStmts(rest);
        }
    }

    /** Compiles a lambda with a fresh compiler: the chunk holds exactly the code and constants of
        `CompileScript`, and zero bytes behind them. */
    method VisitScript(script: Script) returns (r: Outcome)
      requires Valid() && View() == INITIAL
      modifies this, chunk, chunk.code, variant
      ensures Valid() && Ended(r, CompileScript(script))
    {
      scopeDepth := scopeDepth + 1;
      r := VisitStmts(script.body);
      if r != Fine {
        return;
      }
      r := VisitResult(script.result);
      if r != Fine {
        return;
      }
      r := EmitByte(OP_RETURN);
      if r != Fine {
        return;
      }
      scopeDepth := scopeDepth - 1;
      r := LeaveScope();
    }
  }

  datatype Outcome = Fine | Thrown(error: Error)
}
