/** Compiled scripts do what their source says: scoped `let` blocks with arithmetic initialisers keep
    the machine's stack equal to the function and the values in scope, at every statement boundary. */
module GCorrect {
  import opened Basics
  import opened GValue
  import opened GCompiler
  import opened GMachine

  // ------------------------------------------------------------ source meaning

  datatype Binding = Binding(name: string, value: Value)

  /** The values in scope, in declaration order. */
  type Env = seq<Binding>

  function Find(env: Env, x: string): (k: int)
    ensures -1 <= k < |env|
    ensures k >= 0 ==> env[k].name == x
    ensures forall i :: k < i < |env| ==> env[i].name != x
  {
    if env == [] then -1
    else if env[|env| - 1].name == x then |env| - 1
    else Find(env[..|env| - 1], x)
  }

  function NamesOf(e: Expr): set<string> {
    match e
    case Lit(_) => {}
    case Name(x) => {x}
    case Binary(_, l, r) => NamesOf(l) + NamesOf(r)
  }

  ghost predicate Scoped(env: Env, e: Expr) {
    forall x :: x in NamesOf(e) ==> Find(env, x) >= 0
  }

  /** Initialisers mean the innermost binding of each name; operands are evaluated left to right. */
  function Eval(env: Env, e: Expr): Result
    requires Scoped(env, e)
  {
    match e
    case Lit(l) => Ok(GetVariant(l))
    case Name(x) => Ok(env[Find(env, x)].value)
    case Binary(op, l, r) =>
      var a := Eval(env, l);
      if !a.Ok? then a
      else
        var b := Eval(env, r);
        if b.Ok? then Apply(op, a.value, b.value) else b
  }

  function EvalResult(e: Expr): Result {
    match e
    case Lit(l) => Ok(GetLiteral(l))
    case Name(_) => BadCast
    case Binary(op, l, r) =>
      var a := EvalResult(l);
      if !a.Ok? then a
      else
        var b := EvalResult(r);
        if b.Ok? then Apply(op, a.value, b.value) else b
  }

  datatype Scope = Bound(env: Env) | Stuck(error: Result)

  /** Every initialiser uses names in scope only, and not the name it is declaring. */
  ghost predicate ScopedStmt(names: seq<string>, s: Stmt)
    decreases s
  {
    match s
    case Let(x, e) => x !in NamesOf(e) && forall y :: y in NamesOf(e) ==> y in names
    case Block(b) => ScopedStmts(names, b)
  }

  ghost predicate ScopedStmts(names: seq<string>, ss: Stmts)
    decreases ss
  {
    match ss
    case End => true
    case Then(s, rest) => ScopedStmt(names, s) && ScopedStmts(if s.Let? then names + [s.name] else names, rest)
  }

  function Names(env: Env): (r: seq<string>)
    ensures |r| == |env| && forall i :: 0 <= i < |env| ==> r[i] == env[i].name
  {
    seq(|env|, i requires 0 <= i < |env| => env[i].name)
  }

  lemma {:induction false} FindNames(env: Env, x: string)
    ensures x in Names(env) <==> Find(env, x) >= 0
  {
    if Find(env, x) >= 0 {
      assert Names(env)[Find(env, x)] == x;
    }
  }

  lemma ScopedByNames(env: Env, e: Expr)
    requires forall y :: y in NamesOf(e) ==> y in Names(env)
    ensures Scoped(env, e)
  {
    forall y | y in NamesOf(e)
      ensures Find(env, y) >= 0
    {
      FindNames(env, y);
    }
  }

  function EvalStmt(env: Env, s: Stmt): Scope
    requires ScopedStmt(Names(env), s)
    decreases s
  {
    match s
    case Let(x, e) =>
      ScopedByNames(env, e);
      var r := Eval(env, e);
      if r.Ok? then Bound(env + [Binding(x, r.value)]) else Stuck(r)
    case Block(b) =>
      var r := EvalStmts(env, b);
      if r.Bound? then Bound(r.env[..|env|]) else r
  }

  function EvalStmts(env: Env, ss: Stmts): (r: Scope)
    requires ScopedStmts(Names(env), ss)
    ensures r.Bound? ==> env <= r.env
    decreases ss
  {
    match ss
    case End => Bound(env)
    case Then(s, rest) =>
      var r := EvalStmt(env, s);
      if r.Bound? then
        assert Names(r.env) == if s.Let? then Names(env) + [s.name] else Names(env);
        EvalStmts(r.env, rest)
      else r
  }

  // --------------------------------------------------------- running one instruction

  /** The program holds everything the compiler has produced so far. */
  ghost predicate Holds(p: Program, c: State) {
    c.code <= p.code && c.consts <= p.consts && |p.consts| <= 256 && |p.code| <= MAX_BYTE_CODE
  }

  /** The machine is about to run what comes after the first `ip` bytes, on this stack. The height
      never outgrows the bytes run. */
  ghost predicate At(m: Machine, ip: nat, stack: seq<Value>) {
    WellShaped(m) && m.ip == ip && m.top == |stack| <= ip + 1 && m.mem[..m.top] == stack
  }

  function Fault(r: Result): ECode
    requires !r.Ok?
  {
    if r.RuntimeError? then RuntimeFault else BadValue
  }

  lemma RunConstant(p: Program, c: State, v: Value, c': State, m: Machine, stack: seq<Value>) returns (m': Machine)
    requires EmitConstant(c, v) == Done(c') && Holds(p, c') && At(m, |c.code|, stack)
    ensures Step(p, m) == Next(m') && At(m', |c'.code|, stack + [v])
  {
    assert c'.code[|c.code|] == OP_CONSTANT && c'.consts[|c.consts|] == v;
    assert p.code[|c.code|] == c'.code[|c.code|] && p.code[|c.code| + 1] == c'.code[|c.code| + 1];
    m' := Step(p, m).m;
  }

  lemma RunGetLocal(p: Program, c: State, k: nat, c': State, m: Machine, stack: seq<Value>) returns (m': Machine)
    requires k < 256 && Emit(c, [OP_GET_LOCAL, k]) == Done(c') && Holds(p, c') && At(m, |c.code|, stack) && k < |stack|
    ensures Step(p, m) == Next(m') && At(m', |c'.code|, stack + [stack[k]])
  {
    assert p.code[|c.code|] == c'.code[|c.code|] && p.code[|c.code| + 1] == c'.code[|c.code| + 1];
    m' := Step(p, m).m;
    assert m.mem[k] == stack[k];
  }

  lemma RunOp(p: Program, c: State, op: BinOp, c': State, m: Machine, stack: seq<Value>, a: Value, b: Value)
    requires Emit(c, [OpByte(op)]) == Done(c') && Holds(p, c') && At(m, |c.code|, stack + [a, b])
    ensures var r := Apply(op, a, b);
            if r.Ok? then Step(p, m).Next? && At(Step(p, m).m, |c'.code|, stack + [r.value])
            else Step(p, m) == Halt(Fault(r), m)
  {
    hide Apply;
    assert p.code[|c.code|] == c'.code[|c.code|];
    assert m.mem[..m.top][m.top - 2] == a && m.mem[..m.top][m.top - 1] == b;
    if Apply(op, a, b).Ok? {
      var m' := Step(p, m).m;
      assert m'.mem[..m'.top] == m.mem[..m.top][..m.top - 2] + [Apply(op, a, b).value];
      assert m.mem[..m.top][..m.top - 2] == stack;
    }
  }

  lemma RunPop(p: Program, c: State, c': State, m: Machine, stack: seq<Value>)
    requires Emit(c, [OP_POP]) == Done(c') && Holds(p, c') && At(m, |c.code|, stack) && |stack| > 0
    ensures Step(p, m).Next? && At(Step(p, m).m, |c'.code|, stack[..|stack| - 1])
  {
    assert p.code[|c.code|] == c'.code[|c.code|];
  }

  // ------------------------------------------------------------- expressions

  /** Compiling only appends: to the code and to the constants. */
  ghost predicate Grew(c: State, c': State) {
    c.code <= c'.code && c.consts <= c'.consts
  }

  lemma {:induction false} InitGrows(c: State, e: Expr)
    requires CompileInit(c, e).Done?
    ensures var c' := CompileInit(c, e).value; Grew(c, c') && c'.locals == c.locals && c'.depth == c.depth
    decreases e
  {
    match e
    case Lit(l) =>
    case Name(x) =>
    case Binary(op, l, r) =>
      InitGrows(c, l);
      InitGrows(CompileInit(c, l).value, r);
  }

  lemma {:induction false} ResultGrows(c: State, e: Expr)
    requires CompileResult(c, e).Done? && LiteralOnly(e)
    ensures var c' := CompileResult(c, e).value; Grew(c, c') && c'.locals == c.locals && c'.depth == c.depth
    decreases e
  {
    match e
    case Lit(l) =>
    case Binary(op, l, r) =>
      ResultGrows(c, l);
      ResultGrows(CompileResult(c, l).value, r);
  }

  /** An expression over literals, as a `return` may hold. */
  predicate LiteralOnly(e: Expr) {
    match e
    case Lit(_) => true
    case Name(_) => false
    case Binary(_, l, r) => LiteralOnly(l) && LiteralOnly(r)
  }

  /** Every name of the expression resolves to the slot that holds its innermost value. */
  ghost predicate Slotted(locals: seq<Local>, env: Env, e: Expr, stack: seq<Value>)
    requires Scoped(env, e)
  {
    forall x :: x in NamesOf(e) ==>
      var k := Resolve(locals, x);
      0 < k < |stack| && k < 256 && locals[k].depth != -1 && stack[k] == env[Find(env, x)].value
  }

  /** Reaching a machine in k steps. */
  ghost predicate Reaches(p: Program, m: Machine, k: nat, ip: nat, stack: seq<Value>)
    requires WellShaped(m)
  {
    StepN(p, m, k).Next? && At(StepN(p, m, k).m, ip, stack)
  }

  ghost predicate Halts(p: Program, m: Machine, k: nat, e: ECode)
    requires WellShaped(m)
  {
    StepN(p, m, k).Halt? && StepN(p, m, k).e == e
  }

  /** The outcome of code that should push the value of an expression. */
  ghost predicate Pushes(p: Program, m: Machine, k: nat, ip: nat, stack: seq<Value>, r: Result)
    requires WellShaped(m)
  {
    if r.Ok? then Reaches(p, m, k, ip, stack + [r.value]) else Halts(p, m, k, Fault(r))
  }

  lemma ThenSteps(p: Program, m: Machine, j: nat, k: nat)
    requires WellShaped(m) && StepN(p, m, j).Next?
    ensures StepN(p, m, j + k) == StepN(p, StepN(p, m, j).m, k)
  {
    StepsCompose(p, m, j, k);
  }

  lemma OneStep(p: Program, m: Machine)
    requires WellShaped(m)
    ensures StepN(p, m, 1) == Step(p, m)
  {
    hide Step;
    if Step(p, m).Next? {
      assert StepN(p, Step(p, m).m, 0) == Next(Step(p, m).m);
    }
  }

  /** Code for both operands, then the operator. */
  lemma RunBinary(p: Program, c2: State, op: BinOp, c': State, m: Machine, stack: seq<Value>, a: Result, b: Result,
                  j: nat, k: nat, ip1: nat) returns (n: nat)
    requires WellShaped(m) && Emit(c2, [OpByte(op)]) == Done(c') && Holds(p, c')
    requires Pushes(p, m, j, ip1, stack, a)
    requires a.Ok? ==> Pushes(p, StepN(p, m, j).m, k, |c2.code|, stack + [a.value], b)
    ensures Pushes(p, m, n, |c'.code|, stack, if !a.Ok? then a else if !b.Ok? then b else Apply(op, a.value, b.value))
  {
    hide Step, Apply, StepN, Emit, Holds;
    if !a.Ok? {
      return j;
    }
    var m1 := StepN(p, m, j).m;
    ThenSteps(p, m, j, k);
    if !b.Ok? {
      return j + k;
    }
    var m2 := StepN(p, m1, k).m;
    assert stack + [a.value] + [b.value] == stack + [a.value, b.value];
    RunOp(p, c2, op, c', m2, stack, a.value, b.value);
    OneStep(p, m2);
    ThenSteps(p, m, j + k, 1);
    return j + k + 1;
  }

  /** An initialiser leaves exactly its source-level value on top of the stack, or stops on its error. */
  lemma {:induction false} RunInit(p: Program, c: State, e: Expr, env: Env, m: Machine, stack: seq<Value>)
      returns (k: nat)
    requires CompileInit(c, e).Done? && Holds(p, CompileInit(c, e).value)
    requires At(m, |c.code|, stack) && Scoped(env, e) && |env| < |stack|
    requires Slotted(c.locals, env, e, stack[..|env| + 1])
    ensures Pushes(p, m, k, |CompileInit(c, e).value.code|, stack, Eval(env, e))
    decreases e
  {
    hide Step, Apply, StepN, Emit, EmitConstant;
    var c' := CompileInit(c, e).value;
    match e
    case Lit(l) =>
      var m' := RunConstant(p, c, GetVariant(l), c', m, stack);
      OneStep(p, m);
      return 1;
    case Name(x) =>
      var i := Resolve(c.locals, x);
      assert x in NamesOf(e);
      var m' := RunGetLocal(p, c, i, c', m, stack);
      OneStep(p, m);
      return 1;
    case Binary(op, l, r) =>
      var c1 := CompileInit(c, l).value;
      var c2 := CompileInit(c1, r).value;
      InitGrows(c, l);
      InitGrows(c1, r);
      EmitGrows(c2, [OpByte(op)]);
      assert NamesOf(l) <= NamesOf(e) && NamesOf(r) <= NamesOf(e);
      var base := stack[..|env| + 1];
      assert Slotted(c.locals, env, l, base) && Slotted(c.locals, env, r, base);
      var j := RunInit(p, c, l, env, m, stack);
      var a, b := Eval(env, l), Eval(env, r);
      var n := 0;
      if a.Ok? {
        var m1 := StepN(p, m, j).m;
        assert (stack + [a.value])[..|env| + 1] == base;
        n := RunInit(p, c1, r, env, m1, stack + [a.value]);
      }
      k := RunBinary(p, c2, op, c', m, stack, a, b, j, n, |c1.code|);
  }

  lemma EmitGrows(c: State, bytes: seq<Byte>)
    requires Emit(c, bytes).Done?
    ensures Grew(c, Emit(c, bytes).value) && Emit(c, bytes).value.locals == c.locals
    ensures Emit(c, bytes).value.depth == c.depth
  {
  }

  /** A returned expression over literals leaves its value, or stops on its error. */
  lemma {:induction false} RunResult(p: Program, c: State, e: Expr, m: Machine, stack: seq<Value>) returns (k: nat)
    requires LiteralOnly(e) && CompileResult(c, e).Done? && Holds(p, CompileResult(c, e).value)
    requires At(m, |c.code|, stack)
    ensures Pushes(p, m, k, |CompileResult(c, e).value.code|, stack, EvalResult(e))
    decreases e
  {
    hide Step, Apply, StepN, Emit, EmitConstant;
    var c' := CompileResult(c, e).value;
    match e
    case Lit(l) =>
      var m' := RunConstant(p, c, GetLiteral(l), c', m, stack);
      OneStep(p, m);
      return 1;
    case Binary(op, l, r) =>
      var c1 := CompileResult(c, l).value;
      var c2 := CompileResult(c1, r).value;
      ResultGrows(c, l);
      ResultGrows(c1, r);
      EmitGrows(c2, [OpByte(op)]);
      var j := RunResult(p, c, l, m, stack);
      var a, b := EvalResult(l), EvalResult(r);
      var n := 0;
      if a.Ok? {
        n := RunResult(p, c1, r, StepN(p, m, j).m, stack + [a.value]);
      }
      k := RunBinary(p, c2, op, c', m, stack, a, b, j, n, |c1.code|);
  }

  // --------------------------------------------------------------- statements

  /** The stack that a scope should show. */
  function Stack(env: Env): (s: seq<Value>)
    ensures |s| == |env| + 1 && s[0] == Function && forall i :: 0 <= i < |env| ==> s[i + 1] == env[i].value
  {
    [Function] + seq(|env|, i requires 0 <= i < |env| => env[i].value)
  }

  /** The compiler's locals are slot 0 and the names in scope, none deeper than the current scope. */
  ghost predicate Agrees(c: State, env: Env) {
    && c.depth > 0 && |c.locals| == |env| + 1 <= MAX_LOCALS
    && c.locals[0] == Local("", -1)
    && forall i :: 0 < i < |c.locals| ==> c.locals[i].name == env[i - 1].name && 0 < c.locals[i].depth <= c.depth
  }

  lemma {:induction false} ResolveFinds(locals: seq<Local>, env: Env, x: string)
    requires |locals| == |env| + 1 && forall i :: 0 < i < |locals| ==> locals[i].name == env[i - 1].name
    requires Find(env, x) >= 0
    ensures Resolve(locals, x) == Find(env, x) + 1
  {
    var k := Find(env, x);
    assert locals[k + 1].name == x;
    forall i | k + 1 < i < |locals|
      ensures locals[i].name != x
    {
      assert locals[i].name == env[i - 1].name;
    }
    var r := Resolve(locals, x);
    assert r >= 0;
  }

  lemma ResolveSkipsLast(locals: seq<Local>, l: Local, x: string)
    requires l.name != x
    ensures Resolve(locals + [l], x) == Resolve(locals, x)
  {
    assert (locals + [l])[..|locals|] == locals;
  }

  /** With a name declared on top, the initialiser's names sit in their own slots exactly if that name is not
      one of them: otherwise it resolves to its own slot, which is not yet on the stack. */
  lemma DeclaredSlots(c: State, env: Env, x: string, e: Expr)
    requires Agrees(c, env) && Scoped(env, e)
    ensures Slotted(c.locals + [Local(x, c.depth)], env, e, Stack(env)) <==> x !in NamesOf(e)
  {
    assert Resolve(c.locals + [Local(x, c.depth)], x) == |c.locals| == |Stack(env)|;
    forall y | y in NamesOf(e) && y != x
      ensures var k := Resolve(c.locals + [Local(x, c.depth)], y);
              0 < k < |Stack(env)| && k < 256 && (c.locals + [Local(x, c.depth)])[k].depth != -1
              && Stack(env)[k] == env[Find(env, y)].value
    {
      ResolveSkipsLast(c.locals, Local(x, c.depth), y);
      ResolveFinds(c.locals, env, y);
    }
  }

  lemma RunLet(p: Program, c: State, x: string, e: Expr, env: Env, m: Machine) returns (k: nat)
    requires Agrees(c, env) && Scoped(env, e) && x !in NamesOf(e)
    requires CompileStmt(c, Let(x, e)).Done? && Holds(p, CompileStmt(c, Let(x, e)).value)
    requires At(m, |c.code|, Stack(env))
    ensures Pushes(p, m, k, |CompileStmt(c, Let(x, e)).value.code|, Stack(env), Eval(env, e))
    ensures forall v: Value ::
              && Stack(env) + [v] == Stack(env + [Binding(x, v)])
              && Agrees(CompileStmt(c, Let(x, e)).value, env + [Binding(x, v)])
  {
    hide Step, StepN, Emit, CompileInit, Eval, Slotted;
    var c1 := DeclLocal(c, x).value;
    DeclaredSlots(c, env, x, e);
    InitGrows(c1, e);
    assert Stack(env)[..|env| + 1] == Stack(env);
    k := RunInit(p, c1, e, env, m, Stack(env));
  }

  // ------------------------------------------------------------------- scopes

  /** Compiling a statement keeps the depth and the outer locals; new ones belong to this scope. */
  ghost predicate Scoping(c: State, c': State) {
    && Grew(c, c') && c'.depth == c.depth && c.locals <= c'.locals
    && forall i :: |c.locals| <= i < |c'.locals| ==> c'.locals[i].depth == c.depth
  }

  /** No local is deeper than the scope being compiled. */
  ghost predicate Nested(c: State) {
    c.depth > 0 && c.locals != [] && forall i :: 0 <= i < |c.locals| ==> c.locals[i].depth <= c.depth
  }

  lemma {:induction false} PopRestores(c: State, n: nat)
    requires PopScope(c).Done? && 0 < n <= |c.locals| && c.locals[n - 1].depth <= c.depth
    requires forall i :: n <= i < |c.locals| ==> c.locals[i].depth > c.depth
    ensures var c' := PopScope(c).value; Grew(c, c') && c'.locals == c.locals[..n] && c'.depth == c.depth
    decreases |c.locals|
  {
    if n < |c.locals| {
      EmitGrows(c, [OP_POP]);
      var c1 := Emit(c, [OP_POP]).value;
      var last := |c.locals| - 1;
      PopRestores(c1.(locals := c1.locals[..last]), n);
      assert c.locals[..last][..n] == c.locals[..n];
    } else {
      assert c.locals[..n] == c.locals;
    }
  }

  lemma {:induction false} StmtScopes(c: State, s: Stmt)
    requires CompileStmt(c, s).Done? && Nested(c)
    ensures Scoping(c, CompileStmt(c, s).value) && Nested(CompileStmt(c, s).value)
    ensures s.Block? ==> CompileStmt(c, s).value.locals == c.locals
    decreases s
  {
    match s
    case Let(x, e) =>
      InitGrows(DeclLocal(c, x).value, e);
    case Block(b) =>
      var c1 := Enter(c).value;
      StmtsScope(c1, b);
      var c2 := CompileStmts(c1, b).value;
      var c3 := c2.(depth := c2.depth - 1);
      PopRestores(c3, |c.locals|);
      assert c3.locals[..|c.locals|] == c.locals;
  }

  lemma {:induction false} StmtsScope(c: State, ss: Stmts)
    requires CompileStmts(c, ss).Done? && Nested(c)
    ensures Scoping(c, CompileStmts(c, ss).value) && Nested(CompileStmts(c, ss).value)
    decreases ss
  {
    match ss
    case End =>
    case Then(s, rest) =>
      StmtScopes(c, s);
      StmtsScope(CompileStmt(c, s).value, rest);
  }

  /** Leaving a scope pops exactly the values above the first n slots. */
  lemma {:induction false} RunPops(p: Program, c: State, n: nat, m: Machine, stack: seq<Value>) returns (k: nat)
    requires PopScope(c).Done? && Holds(p, PopScope(c).value)
    requires 0 < n <= |c.locals| == |stack| && c.locals[n - 1].depth <= c.depth
    requires forall i :: n <= i < |c.locals| ==> c.locals[i].depth > c.depth
    requires At(m, |c.code|, stack)
    ensures Reaches(p, m, k, |PopScope(c).value.code|, stack[..n])
    decreases |c.locals|
  {
    hide Step;
    if n < |c.locals| {
      var last := |c.locals| - 1;
      EmitGrows(c, [OP_POP]);
      var c1 := Emit(c, [OP_POP]).value;
      var c2 := c1.(locals := c1.locals[..last]);
      PopRestores(c2, n);
      RunPop(p, c, c1, m, stack);
      OneStep(p, m);
      var j := RunPops(p, c2, n, Step(p, m).m, stack[..last]);
      ThenSteps(p, m, 1, j);
      assert stack[..last][..n] == stack[..n];
      return 1 + j;
    } else {
      assert stack[..n] == stack;
      return 0;
    }
  }

  /** A statement boundary: the code position and the stack that must stand there. */
  datatype Mark = Mark(ip: nat, stack: seq<Value>)

  /** Every boundary of a statement list, nested blocks included, up to where evaluation stops. */
  function Marks(c: State, env: Env, ss: Stmts): seq<Mark>
    requires ScopedStmts(Names(env), ss) && CompileStmts(c, ss).Done?
    decreases ss
  {
    [Mark(|c.code|, Stack(env))] +
    match ss
    case End => []
    case Then(s, rest) =>
      var r := EvalStmt(env, s);
      InnerMarks(c, env, s) +
      if r.Bound? then
        ScopedRest(env, s, rest);
        Marks(CompileStmt(c, s).value, r.env, rest)
      else []
  }

  function InnerMarks(c: State, env: Env, s: Stmt): seq<Mark>
    requires ScopedStmt(Names(env), s) && CompileStmt(c, s).Done?
    decreases s
  {
    match s
    case Let(_, _) => []
    case Block(b) => Marks(Enter(c).value, env, b)
  }

  lemma ScopedRest(env: Env, s: Stmt, rest: Stmts)
    requires ScopedStmts(Names(env), Then(s, rest)) && EvalStmt(env, s).Bound?
    ensures ScopedStmts(Names(EvalStmt(env, s).env), rest)
    ensures s.Block? ==> EvalStmt(env, s).env == env
  {
    assert Names(EvalStmt(env, s).env) == if s.Let? then Names(env) + [s.name] else Names(env);
  }

  ghost predicate Visited(p: Program, m: Machine, mark: Mark)
    requires WellShaped(m)
  {
    exists k: nat :: Reaches(p, m, k, mark.ip, mark.stack)
  }

  ghost predicate Visits(p: Program, m: Machine, marks: seq<Mark>)
    requires WellShaped(m)
  {
    forall mark :: mark in marks ==> Visited(p, m, mark)
  }

  lemma VisitsLater(p: Program, m: Machine, j: nat, b: seq<Mark>)
    requires WellShaped(m) && StepN(p, m, j).Next? && Visits(p, StepN(p, m, j).m, b)
    ensures Visits(p, m, b)
  {
    hide Step, StepN, At;
    forall mark | mark in b
      ensures Visited(p, m, mark)
    {
      assert Visited(p, StepN(p, m, j).m, mark);
      var k: nat :| Reaches(p, StepN(p, m, j).m, k, mark.ip, mark.stack);
      ThenSteps(p, m, j, k);
      assert Reaches(p, m, j + k, mark.ip, mark.stack);
    }
  }

  /** How a statement list ends: in its final scope, or on its first error. */
  ghost predicate Ends(p: Program, m: Machine, k: nat, c': State, r: Scope)
    requires WellShaped(m)
  {
    match r
    case Bound(env') => Reaches(p, m, k, |c'.code|, Stack(env')) && Agrees(c', env')
    case Stuck(e) => !e.Ok? && Halts(p, m, k, Fault(e))
  }

  lemma StuckIsError(env: Env, s: Stmt)
    requires ScopedStmt(Names(env), s) && EvalStmt(env, s).Stuck?
    ensures !EvalStmt(env, s).error.Ok?
    decreases s, 0
  {
    match s
    case Let(_, _) =>
    case Block(b) => StuckStmts(env, b);
  }

  lemma StuckStmts(env: Env, ss: Stmts)
    requires ScopedStmts(Names(env), ss) && EvalStmts(env, ss).Stuck?
    ensures !EvalStmts(env, ss).error.Ok?
    decreases ss
  {
    match ss
    case Then(s, rest) =>
      if EvalStmt(env, s).Stuck? {
        StuckIsError(env, s);
      } else {
        ScopedRest(env, s, rest);
        StuckStmts(EvalStmt(env, s).env, rest);
      }
  }

  lemma AgreesNested(c: State, env: Env)
    requires Agrees(c, env)
    ensures Nested(c)
  {
  }

  lemma RunBlock(p: Program, c: State, b: Stmts, env: Env, m: Machine, j: nat) returns (k: nat)
    requires CompileStmt(c, Block(b)).Done? && Holds(p, CompileStmt(c, Block(b)).value)
    requires Agrees(c, env) && ScopedStmts(Names(env), b) && WellShaped(m)
    requires CompileStmts(Enter(c).value, b).Done?
    requires Ends(p, m, j, CompileStmts(Enter(c).value, b).value, EvalStmts(env, b))
    ensures Ends(p, m, k, CompileStmt(c, Block(b)).value, EvalStmt(env, Block(b)))
  {
    hide Step, StepN, Emit, At, CompileStmts, EvalStmts, WellShaped, ScopedStmts, PopScope;
    var c1 := Enter(c).value;
    var c2 := CompileStmts(c1, b).value;
    var c3 := c2.(depth := c2.depth - 1);
    AgreesNested(c, env);
    StmtsScope(c1, b);
    PopRestores(c3, |c.locals|);
    var r := EvalStmts(env, b);
    if r.Stuck? {
      return j;
    }
    var n := RunPops(p, c3, |c.locals|, StepN(p, m, j).m, Stack(r.env));
    ThenSteps(p, m, j, n);
    assert Stack(r.env)[..|c.locals|] == Stack(r.env[..|env|]);
    assert c3.locals[..|c.locals|] == c.locals;
    return j + n;
  }

  lemma BlockGrows(p: Program, c: State, b: Stmts, env: Env)
    requires CompileStmt(c, Block(b)).Done? && Holds(p, CompileStmt(c, Block(b)).value) && Agrees(c, env)
    ensures CompileStmts(Enter(c).value, b).Done? && Holds(p, CompileStmts(Enter(c).value, b).value)
    ensures Agrees(Enter(c).value, env)
  {
    hide CompileStmts, PopScope;
    var c1 := Enter(c).value;
    var c2 := CompileStmts(c1, b).value;
    AgreesNested(c, env);
    StmtsScope(c1, b);
    PopRestores(c2.(depth := c2.depth - 1), |c.locals|);
  }

  /** Running one statement from a boundary. */
  lemma {:induction false} RunStmt(p: Program, c: State, s: Stmt, env: Env, m: Machine) returns (k: nat)
    requires CompileStmt(c, s).Done? && Holds(p, CompileStmt(c, s).value)
    requires Agrees(c, env) && ScopedStmt(Names(env), s) && At(m, |c.code|, Stack(env))
    ensures Ends(p, m, k, CompileStmt(c, s).value, EvalStmt(env, s))
    ensures Visits(p, m, InnerMarks(c, env, s))
    decreases s
  {
    hide Step, StepN, Emit, CompileInit, Eval, Holds, Stack;
    match s
    case Let(x, e) =>
      ScopedByNames(env, e);
      k := RunLet(p, c, x, e, env, m);
    case Block(b) =>
      BlockGrows(p, c, b, env);
      var j := RunStmts(p, Enter(c).value, b, env, m);
      k := RunBlock(p, c, b, env, m, j);
  }

  lemma ThenGrows(p: Program, c: State, s: Stmt, rest: Stmts, env: Env)
    requires CompileStmts(c, Then(s, rest)).Done? && Holds(p, CompileStmts(c, Then(s, rest)).value) && Agrees(c, env)
    ensures CompileStmt(c, s).Done? && Holds(p, CompileStmt(c, s).value)
    ensures CompileStmts(CompileStmt(c, s).value, rest) == CompileStmts(c, Then(s, rest))
  {
    AgreesNested(c, env);
    StmtScopes(c, s);
    StmtsScope(CompileStmt(c, s).value, rest);
  }

  lemma MarksThen(c: State, env: Env, s: Stmt, rest: Stmts, mark: Mark)
    requires ScopedStmts(Names(env), Then(s, rest)) && CompileStmts(c, Then(s, rest)).Done?
    ensures EvalStmt(env, s).Bound? ==> ScopedStmts(Names(EvalStmt(env, s).env), rest)
    ensures mark in Marks(c, env, Then(s, rest)) <==>
              || mark == Mark(|c.code|, Stack(env))
              || mark in InnerMarks(c, env, s)
              || (EvalStmt(env, s).Bound? && mark in Marks(CompileStmt(c, s).value, EvalStmt(env, s).env, rest))
  {
    if EvalStmt(env, s).Bound? {
      ScopedRest(env, s, rest);
    }
  }

  lemma VisitsThen(p: Program, m: Machine, c: State, env: Env, s: Stmt, rest: Stmts, j: nat)
    requires ScopedStmts(Names(env), Then(s, rest)) && CompileStmts(c, Then(s, rest)).Done?
    requires At(m, |c.code|, Stack(env)) && Visits(p, m, InnerMarks(c, env, s))
    requires EvalStmt(env, s).Bound? ==>
               && ScopedStmts(Names(EvalStmt(env, s).env), rest)
               && StepN(p, m, j).Next?
               && Visits(p, StepN(p, m, j).m, Marks(CompileStmt(c, s).value, EvalStmt(env, s).env, rest))
    ensures Visits(p, m, Marks(c, env, Then(s, rest)))
  {
    hide Step, CompileStmt, EvalStmt, Marks, InnerMarks, Stack;
    assert Reaches(p, m, 0, |c.code|, Stack(env)) by {
      NoSteps(p, m);
    }
    assert Visited(p, m, Mark(|c.code|, Stack(env)));
    if EvalStmt(env, s).Bound? {
      VisitsLater(p, m, j, Marks(CompileStmt(c, s).value, EvalStmt(env, s).env, rest));
    }
    forall mark | mark in Marks(c, env, Then(s, rest))
      ensures Visited(p, m, mark)
    {
      MarksThen(c, env, s, rest, mark);
    }
  }

  lemma VisitsEnd(p: Program, m: Machine, c: State, env: Env)
    requires At(m, |c.code|, Stack(env))
    ensures Reaches(p, m, 0, |c.code|, Stack(env))
    ensures CompileStmts(c, End) == Done(c) && Visits(p, m, Marks(c, env, End))
  {
    NoSteps(p, m);
    assert Reaches(p, m, 0, |c.code|, Stack(env));
    assert Marks(c, env, End) == [Mark(|c.code|, Stack(env))];
  }

  /** Running a statement list: every boundary is visited with the right stack. */
  lemma {:induction false} RunStmts(p: Program, c: State, ss: Stmts, env: Env, m: Machine) returns (k: nat)
    requires CompileStmts(c, ss).Done? && Holds(p, CompileStmts(c, ss).value)
    requires Agrees(c, env) && ScopedStmts(Names(env), ss) && At(m, |c.code|, Stack(env))
    ensures Ends(p, m, k, CompileStmts(c, ss).value, EvalStmts(env, ss))
    ensures Visits(p, m, Marks(c, env, ss))
    decreases ss
  {
    hide Step, StepN, CompileStmt, CompileStmts, EvalStmt, Marks, InnerMarks, Stack, Holds, Agrees, Visits;
    match ss
    case End =>
      VisitsEnd(p, m, c, env);
      return 0;
    case Then(s, rest) =>
      ThenGrows(p, c, s, rest, env);
      var j := RunStmt(p, c, s, env, m);
      var r := EvalStmt(env, s);
      if r.Stuck? {
        VisitsThen(p, m, c, env, s, rest, j);
        return j;
      }
      ScopedRest(env, s, rest);
      var n := RunStmts(p, CompileStmt(c, s).value, rest, r.env, StepN(p, m, j).m);
      ThenSteps(p, m, j, n);
      VisitsThen(p, m, c, env, s, rest, j);
      return j + n;
  }

  lemma NoSteps(p: Program, m: Machine)
    requires WellShaped(m)
    ensures StepN(p, m, 0) == Next(m)
  {
  }

  // ------------------------------------------------------------------ scripts

  /** What a script returns. */
  function EvalScript(script: Script): Result
    requires ScopedStmts([], script.body)
  {
    assert Names([]) == [];
    var r := EvalStmts([], script.body);
    if r.Bound? then EvalResult(script.result) else r.error
  }

  /** The stack when a new machine starts on a script. */
  ghost predicate Fresh(m: Machine) {
    WellShaped(m) && m.top == 1 && m.ip == 0 && m.mem[0] == Function
  }

  /** The compiler's states inside a script: after entering the block, after its statements, and
      after the returned expression. */
  lemma ScriptStates(script: Script, p: Program, c: State) returns (c1: State, c2: State, c3: State, c4: State)
    requires CompileScript(script) == Done(c) && Holds(p, c) && LiteralOnly(script.result)
    ensures Enter(INITIAL) == Done(c1) && Agrees(c1, []) && c1.code == []
    ensures CompileStmts(c1, script.body) == Done(c2) && Holds(p, c2)
    ensures CompileResult(c2, script.result) == Done(c3) && Holds(p, c3)
    ensures Emit(c3, [OP_RETURN]) == Done(c4) && Holds(p, c4)
  {
    c1 := Enter(INITIAL).value;
    AgreesNested(c1, []);
    c2 := CompileStmts(c1, script.body).value;
    StmtsScope(c1, script.body);
    c3 := CompileResult(c2, script.result).value;
    ResultGrows(c2, script.result);
    c4 := Emit(c3, [OP_RETURN]).value;
    EmitGrows(c3, [OP_RETURN]);
    var c5 := c4.(depth := c4.depth - 1);
    assert c5.locals[0] == INITIAL.locals[0];
    PopRestores(c5, 1);
  }

  lemma RunReturn(p: Program, c: State, c': State, m: Machine, stack: seq<Value>, v: Value)
    requires Emit(c, [OP_RETURN]) == Done(c') && Holds(p, c') && At(m, |c.code|, stack + [v])
    ensures Step(p, m).Halt? && Step(p, m).e == Success
    ensures var m' := Step(p, m).m; m'.top < |m'.mem| && m'.mem[..m'.top] == stack && m'.mem[m'.top] == v
  {
    assert p.code[|c.code|] == c'.code[|c.code|];
    assert m.mem[..m.top][..m.top - 1] == stack;
  }

  /** A well-scoped script runs to the outcome its source has: it succeeds with the returned value just
      above the final scope's stack, or ends on the first error. On the way the machine passes every
      statement boundary with the function and the values in scope on its stack. */
  lemma ScriptRuns(script: Script, p: Program, c: State, m: Machine)
    requires ScopedStmts([], script.body) && LiteralOnly(script.result)
    requires CompileScript(script) == Done(c) && Holds(p, c) && Fresh(m)
    ensures var r := EvalScript(script);
            if r.Ok? then
              && Exec(p, m).e == Success
              && Exec(p, m).m.top < |Exec(p, m).m.mem|
              && Exec(p, m).m.mem[Exec(p, m).m.top] == r.value
            else Exec(p, m).e == Fault(r)
    ensures EvalScript(script).Ok? ==>
              && EvalStmts([], script.body).Bound?
              && var final := Exec(p, m).m;
                 final.top <= |final.mem| && final.mem[..final.top] == Stack(EvalStmts([], script.body).env)
    ensures Enter(INITIAL).Done? && CompileStmts(Enter(INITIAL).value, script.body).Done?
    ensures Visits(p, m, Marks(Enter(INITIAL).value, [], script.body))
  {
    hide Step, CompileStmts, CompileResult, Emit, Holds, ScopedStmts, EvalStmts, EvalResult, LiteralOnly, Marks;
    assert Names([]) == [];
    var c1, c2, c3, c4 := ScriptStates(script, p, c);
    assert m.mem[..1] == Stack([]);
    var j := RunStmts(p, c1, script.body, [], m);
    var scope := EvalStmts([], script.body);
    if scope.Bound? {
      var stack := Stack(scope.env);
      var m2 := StepN(p, m, j).m;
      StepsThenExec(p, m, j);
      var n := RunResult(p, c2, script.result, m2, stack);
      var r := EvalResult(script.result);
      if r.Ok? {
        StepsThenExec(p, m2, n);
        RunReturn(p, c3, c4, StepN(p, m2, n).m, stack, r.value);
      } else {
        HaltsThenExec(p, m2, n);
      }
    } else {
      HaltsThenExec(p, m, j);
    }
  }

  lemma {:induction false} HaltsThenExec(p: Program, m: Machine, k: nat)
    requires WellShaped(m) && StepN(p, m, k).Halt?
    ensures Exec(p, m) == StepN(p, m, k)
    decreases k
  {
    hide Step;
    if k > 0 && Step(p, m).Next? {
      HaltsThenExec(p, Step(p, m).m, k - 1);
    }
  }

  // ------------------------------------------------------------- limits of it

  /** An initialiser that names the variable being declared reads the slot above the stack, whatever
      was left there, and not the outer variable of that name. */
  const SELF_NAMED: Script :=
    Script(Then(Let("x", Lit(IntegerLit(1))), Then(Block(Then(Let("x", Name("x")), End)), End)), Lit(IntegerLit(0)))

  lemma SelfNamedCode()
    ensures CompileScript(SELF_NAMED) ==
              Done(State([Local("", -1)], 0, [15, 0, 3, 2, 4, 15, 1, 17, 4], [Int(1), Double(0.0)]))
  {
    var c1 := State([Local("", -1)], 1, [], []);
    assert Enter(INITIAL) == Done(c1);
    var c2 := State([Local("", -1), Local("x", 1)], 1, [15, 0], [Int(1)]);
    FirstCode(c1, c2);
    var inner := Then(Let("x", Name("x")), End);
    var c3 := State([Local("", -1), Local("x", 1), Local("x", 2)], 2, [15, 0, 3, 2], [Int(1)]);
    InnerCode(c2, c3);
    var c5 := State([Local("", -1), Local("x", 1)], 1, [15, 0, 3, 2, 4], [Int(1)]);
    PopOne(c3.(depth := 1), c5);
    assert CompileStmt(c2, Block(inner)) == Done(c5);
    OuterCode(c1, c2, c5, inner);
  }

  lemma FirstCode(c1: State, c2: State)
    requires c1 == State([Local("", -1)], 1, [], [])
    requires c2 == State([Local("", -1), Local("x", 1)], 1, [15, 0], [Int(1)])
    ensures CompileStmt(c1, Let("x", Lit(IntegerLit(1)))) == Done(c2)
  {
    hide Emit;
    var d := c1.(locals := c2.locals);
    assert c1.locals + [Local("x", 1)] == d.locals;
    assert DeclLocal(c1, "x") == Done(d);
    assert [] + [Int(1)] == c2.consts;
    EmitIs(d.(consts := c2.consts), [15, 0], c2);
  }

  lemma PopOne(c4: State, c5: State)
    requires c4.locals != [] && c4.locals[|c4.locals| - 1].depth > c4.depth && |c4.code| < MAX_BYTE_CODE
    requires c5 == c4.(locals := c4.locals[..|c4.locals| - 1], code := c4.code + [OP_POP])
    requires c5.locals != [] && c5.locals[|c5.locals| - 1].depth <= c5.depth
    ensures PopScope(c4) == Done(c5)
  {
    hide Emit;
    EmitIs(c4, [OP_POP], c4.(code := c5.code));
    assert PopScope(c5) == Done(c5);
  }

  lemma InnerCode(c2: State, c3: State)
    requires c2 == State([Local("", -1), Local("x", 1)], 1, [15, 0], [Int(1)])
    requires c3 == State([Local("", -1), Local("x", 1), Local("x", 2)], 2, [15, 0, 3, 2], [Int(1)])
    ensures CompileStmts(c2.(depth := 2), Then(Let("x", Name("x")), End)) == Done(c3)
  {
    hide Emit;
    var c := c2.(depth := 2);
    assert !DeclaredHere(c.locals, 2, "x");
    var d := c.(locals := c3.locals);
    assert c.locals + [Local("x", 2)] == d.locals;
    assert DeclLocal(c, "x") == Done(d);
    assert Resolve(d.locals, "x") == 2;
    assert Emit(d, [OP_GET_LOCAL, 2]) == Done(c3) by {
      EmitIs(d, [OP_GET_LOCAL, 2], c3);
    }
    assert CompileStmt(c, Let("x", Name("x"))) == Done(c3);
  }

  lemma EmitIs(c: State, bytes: seq<Byte>, c': State)
    requires c' == c.(code := c.code + bytes) && |c'.code| <= MAX_BYTE_CODE
    ensures Emit(c, bytes) == Done(c')
  {
  }

  lemma ReturnedZero(c5: State, c6: State)
    requires |c5.consts| == 1 && c6 == c5.(code := c5.code + [15, 1], consts := c5.consts + [Double(0.0)])
    requires |c6.code| < MAX_BYTE_CODE
    ensures CompileResult(c5, Lit(IntegerLit(0))) == Done(c6)
  {
  }

  lemma OuterCode(c1: State, c2: State, c5: State, inner: Stmts)
    requires c1 == State([Local("", -1)], 1, [], [])
    requires CompileStmt(c1, Let("x", Lit(IntegerLit(1)))) == Done(c2) && CompileStmt(c2, Block(inner)) == Done(c5)
    requires c5 == State([Local("", -1), Local("x", 1)], 1, [15, 0, 3, 2, 4], [Int(1)])
    ensures CompileScript(Script(Then(Let("x", Lit(IntegerLit(1))), Then(Block(inner), End)), Lit(IntegerLit(0))))
         == Done(State([Local("", -1)], 0, [15, 0, 3, 2, 4, 15, 1, 17, 4], [Int(1), Double(0.0)]))
  {
    hide CompileStmt, CompileResult, Emit, PopScope;
    var body := Then(Let("x", Lit(IntegerLit(1))), Then(Block(inner), End));
    assert CompileStmts(c2, Then(Block(inner), End)) == Done(c5);
    assert CompileStmts(c1, body) == Done(c5);
    var c6 := c5.(code := c5.code + [15, 1], consts := [Int(1), Double(0.0)]);
    EmitIs(c5.(consts := c6.consts), [15, 1], c6);
    assert c5.consts + [Double(0.0)] == c6.consts;
    ReturnedZero(c5, c6);
    var c7 := c6.(code := c6.code + [17]);
    EmitIs(c6, [17], c7);
    var c8 := c7.(depth := 0);
    assert c8.locals[..1] == [Local("", -1)];
    PopOne(c8, c8.(locals := [Local("", -1)], code := c8.code + [4]));
    assert Enter(INITIAL) == Done(c1);
    assert c7.(depth := c7.depth - 1) == c8;
    assert c8.code + [4] == [15, 0, 3, 2, 4, 15, 1, 17, 4];
  }

  lemma SelfReferenceReadsStaleSlot(p: Program, m: Machine)
    requires CompileScript(SELF_NAMED).Done? && Holds(p, CompileScript(SELF_NAMED).value) && Fresh(m)
    ensures Reaches(p, m, 2, 4, [Function, Int(1), m.mem[2]])
  {
    hide CompileScript;
    SelfNamedCode();
    assert p.code[..9] == [15, 0, 3, 2, 4, 15, 1, 17, 4] && p.consts[..2] == [Int(1), Double(0.0)];
    assert p.code[..9][0] == p.code[0] && p.code[..9][1] == p.code[1] && p.code[..9][2] == p.code[2]
      && p.code[..9][3] == p.code[3];
    assert p.consts[..2][0] == p.consts[0];
    var m1 := Machine(m.mem[1 := Int(1)], 2, 2);
    assert Step(p, m) == Next(m1);
    var m2 := Machine(m1.mem[2 := m.mem[2]], 3, 4);
    assert Step(p, m1) == Next(m2);
    OneStep(p, m);
    OneStep(p, m1);
    ThenSteps(p, m, 1, 1);
    assert m2.mem[..3] == [Function, Int(1), m.mem[2]];
  }

  predicate Numeric(e: Expr) {
    match e
    case Lit(l) => !l.StringLit?
    case Name(_) => false
    case Binary(_, l, r) => Numeric(l) && Numeric(r)
  }

  /** No sum or difference of two integer literals leaves the range of an int. */
  predicate NoOverflow(e: Expr) {
    match e
    case Lit(_) => true
    case Name(_) => true
    case Binary(op, l, r) =>
      && NoOverflow(l) && NoOverflow(r)
      && (l.Lit? && r.Lit? && l.literal.IntegerLit? && r.literal.IntegerLit? ==>
            && (op == Add ==> InInt(l.literal.n as int + r.literal.n as int))
            && (op == Subtract ==> InInt(l.literal.n as int - r.literal.n as int)))
  }

  lemma ApplyAgrees(op: BinOp, a: Value, b: Value, a': Value, b': Value)
    requires a.Double? || a.Int?
    requires b.Double? || b.Int?
    requires a' == Double(AsNumber(a)) && b' == Double(AsNumber(b))
    requires a.Int? && b.Int? ==>
               && (op == Add ==> InInt(a.i as int + b.i as int))
               && (op == Subtract ==> InInt(a.i as int - b.i as int))
    ensures Apply(op, a, b) == Apply(op, a', b')
    ensures Apply(op, a, b).Ok? ==> Apply(op, a, b).value.Double?
  {
    hide Product;
  }

  /** Initialisers use int constants and returns double ones; they agree as numbers. */
  lemma {:induction false} VisitorsAgree(e: Expr)
    requires Numeric(e) && NoOverflow(e)
    ensures Scoped([], e) && LiteralOnly(e)
    ensures var a, b := Eval([], e), EvalResult(e);
            if a.Ok? then b.Ok? && AsNumber(a.value) == AsNumber(b.value) && b.value.Double?
              && (a.value.Double? || (a.value.Int? && e.Lit?))
            else b == a
  {
    hide Apply;
    match e
    case Lit(_) =>
    case Binary(op, l, r) =>
      VisitorsAgree(l);
      VisitorsAgree(r);
      var a, b := Eval([], l), Eval([], r);
      if a.Ok? && b.Ok? {
        ApplyAgrees(op, a.value, b.value, EvalResult(l).value, EvalResult(r).value);
      }
  }

  lemma {:induction false} NumericIsScoped(e: Expr)
    requires Numeric(e)
    ensures Scoped([], e) && LiteralOnly(e)
  {
    match e
    case Lit(_) =>
    case Binary(_, l, r) =>
      NumericIsScoped(l);
      NumericIsScoped(r);
  }

  /** The visitors give the same number, or fail alike, for the expression and for every part of it. */
  ghost predicate AgreeThroughout(e: Expr)
    requires Scoped([], e) && LiteralOnly(e)
  {
    && (var a, b := Eval([], e), EvalResult(e);
        if a.Ok? then b.Ok? && AsNumber(a.value) == AsNumber(b.value) else b == a)
    && match e
       case Binary(_, l, r) => AgreeThroughout(l) && AgreeThroughout(r)
       case _ => true
  }

  /** On a numeric expression they do so exactly if no integer sum or difference leaves its range. */
  lemma {:induction false} AgreeExactly(e: Expr)
    requires Numeric(e)
    ensures Scoped([], e) && LiteralOnly(e)
    ensures AgreeThroughout(e) <==> NoOverflow(e)
  {
    hide Apply;
    NumericIsScoped(e);
    if NoOverflow(e) {
      VisitorsAgree(e);
    }
    match e
    case Lit(_) =>
    case Binary(op, l, r) =>
      AgreeExactly(l);
      AgreeExactly(r);
      if l.Lit? && r.Lit? && l.literal.IntegerLit? && r.literal.IntegerLit? && (op == Add || op == Subtract) {
        IntegersAgreeExactly(op, l.literal.n, r.literal.n);
      }
  }

  lemma IntegersAgreeExactly(op: BinOp, m: Int32, n: Int32)
    requires op == Add || op == Subtract
    ensures
      var e := Binary(op, Lit(IntegerLit(m)), Lit(IntegerLit(n)));
      && Scoped([], e) && Eval([], e).Ok? && EvalResult(e).Ok?
      && (AsNumber(Eval([], e).value) == AsNumber(EvalResult(e).value) ==> NoOverflow(e))
  {
    var e := Binary(op, Lit(IntegerLit(m)), Lit(IntegerLit(n)));
    var x := if op == Add then m as int + n as int else m as int - n as int;
    assert NamesOf(e) == {};
    assert Eval([], e) == Ok(Double(Wrap32(x) as real));
    assert EvalResult(e) == Ok(Double(x as real));
  }
}
