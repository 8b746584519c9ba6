/** Scripts end to end, and what numeric ones answer: an evaluator in real arithmetic, which knows nothing of values,
    constants and operators of the machine. */
module GScript {
  import opened Basics
  import opened GValue
  import opened GCompiler
  import opened GMachine
  import opened GCorrect
  import GScopes

  // ---------------------------------------------------------------- arithmetic

  /** A variable's number. An int literal stays whole until something is computed with it. */
  datatype Num = Whole(n: int) | Fraction(x: real)

  type Vars = seq<(string, Num)>

  function Amount(v: Num): real {
    match v
    case Whole(n) => n as real
    case Fraction(x) => x
  }

  /** The number of the innermost variable of that name. */
  function Lookup(vars: Vars, x: string): Option<Num> {
    if vars == [] then None
    else if vars[|vars| - 1].0 == x then Some(vars[|vars| - 1].1)
    else Lookup(vars[..|vars| - 1], x)
  }

  /** None for a division by zero. */
  function Computed(op: BinOp, x: real, y: real): Option<real> {
    match op
    case Add => Some(x + y)
    case Subtract => Some(x - y)
    case Multiply => Some(x * y)
    case Divide => if y == 0.0 then None else Some(x / y)
  }

  /** The number of an initialiser; none when it divides by zero. */
  function Number(vars: Vars, e: Expr): Option<Num> {
    match e
    case Lit(l) =>
      (match l
       case IntegerLit(n) => Some(Whole(n as int))
       case NumberLit(x) => Some(Fraction(x))
       case StringLit(_) => None)
    case Name(x) => Lookup(vars, x)
    case Binary(op, l, r) =>
      match (Number(vars, l), Number(vars, r))
      case (Some(a), Some(b)) =>
        (match Computed(op, Amount(a), Amount(b)) case Some(x) => Some(Fraction(x)) case None => None)
      case _ => None
  }

  /** The variables after some statements; a block's own are gone behind it. */
  function Variables(vars: Vars, ss: Stmts): Option<Vars>
    decreases ss
  {
    match ss
    case End => Some(vars)
    case Then(Let(x, e), rest) =>
      (match Number(vars, e) case Some(v) => Variables(vars + [(x, v)], rest) case None => None)
    case Then(Block(b), rest) =>
      match Variables(vars, b) case Some(_) => Variables(vars, rest) case None => None
  }

  /** The number a script returns. */
  function Returned(e: Expr): Option<real> {
    match e
    case Lit(l) =>
      (match l
       case IntegerLit(n) => Some(n as real)
       case NumberLit(x) => Some(x)
       case StringLit(_) => None)
    case Name(_) => None
    case Binary(op, l, r) =>
      match (Returned(l), Returned(r))
      case (Some(x), Some(y)) => Computed(op, x, y)
      case _ => None
  }

  function Arithmetic(script: Script): Option<real> {
    if Variables([], script.body).Some? then Returned(script.result) else None
  }

  // ---------------------------------------------------------------- scripts it speaks of

  predicate NoStrings(e: Expr) {
    match e
    case Lit(l) => !l.StringLit?
    case Name(_) => true
    case Binary(_, l, r) => NoStrings(l) && NoStrings(r)
  }

  /** No sum or difference of two whole numbers leaves the range of an int. */
  predicate NumbersFit(vars: Vars, e: Expr) {
    match e
    case Binary(op, l, r) =>
      && NumbersFit(vars, l) && NumbersFit(vars, r)
      && (match (Number(vars, l), Number(vars, r))
          case (Some(Whole(m)), Some(Whole(n))) => (op == Add ==> InInt(m + n)) && (op == Subtract ==> InInt(m - n))
          case _ => true)
    case _ => true
  }

  predicate StmtsFit(vars: Vars, ss: Stmts)
    decreases ss
  {
    match ss
    case End => true
    case Then(Let(x, e), rest) =>
      && NoStrings(e) && NumbersFit(vars, e)
      && (match Number(vars, e) case Some(v) => StmtsFit(vars + [(x, v)], rest) case None => true)
    case Then(Block(b), rest) =>
      StmtsFit(vars, b) && (Variables(vars, b).Some? ==> StmtsFit(vars, rest))
  }

  /** Numbers only, and no int overflow. */
  predicate Arithmetical(script: Script) {
    StmtsFit([], script.body) && Numeric(script.result)
  }

  // ---------------------------------------------------------------- it is what scripts compute

  function ValueOf(v: Num): Value {
    match v
    case Whole(n) => if InInt(n) then Int(n as Int32) else Empty
    case Fraction(x) => Double(x)
  }

  ghost predicate Ints(v: Num) {
    v.Whole? ==> InInt(v.n)
  }

  /** The environment holds the variables' numbers. */
  ghost predicate Shows(env: Env, vars: Vars) {
    && |env| == |vars|
    && forall i :: 0 <= i < |env| ==> Ints(vars[i].1) && env[i] == Binding(vars[i].0, ValueOf(vars[i].1))
  }

  lemma {:induction false} LookupFinds(env: Env, vars: Vars, x: string)
    requires Shows(env, vars) && Find(env, x) >= 0
    ensures var v := Lookup(vars, x); v.Some? && Ints(v.value) && env[Find(env, x)].value == ValueOf(v.value)
  {
    if env != [] && env[|env| - 1].name != x {
      LookupFinds(env[..|env| - 1], vars[..|vars| - 1], x);
    }
  }

  /** Initialisers have the numbers of arithmetic. */
  lemma {:induction false} NumberIsEval(env: Env, vars: Vars, e: Expr)
    requires Shows(env, vars) && Scoped(env, e) && NoStrings(e) && NumbersFit(vars, e)
    ensures
      match Number(vars, e)
      case Some(v) => Ints(v) && Eval(env, e) == Ok(ValueOf(v))
      case None => Eval(env, e) == RuntimeError
  {
    hide Apply, Shows;
    match e
    case Lit(l) => LiteralMeans(l);
    case Name(x) =>
      assert x in NamesOf(e);
      LookupFinds(env, vars, x);
    case Binary(op, l, r) =>
      assert forall x :: x in NamesOf(l) || x in NamesOf(r) ==> x in NamesOf(e);
      NumberIsEval(env, vars, l);
      NumberIsEval(env, vars, r);
      if Number(vars, l).Some? && Number(vars, r).Some? {
        ApplyIsComputed(op, Number(vars, l).value, Number(vars, r).value);
      }
  }

  /** What a literal loads: an initialiser keeps an int, a returned one is a double. */
  lemma LiteralMeans(l: Literal)
    ensures
      match l
      case IntegerLit(n) => GetVariant(l) == Int(n) == ValueOf(Whole(n as int)) && GetLiteral(l) == Double(n as real)
      case NumberLit(x) => GetVariant(l) == GetLiteral(l) == Double(x)
      case StringLit(s) => GetVariant(l) == GetLiteral(l) == Str(s)
  {
  }

  lemma NumberOf(a: Num)
    requires Ints(a)
    ensures AsNumber(ValueOf(a)) == Amount(a) && (ValueOf(a).Double? || ValueOf(a).Int?)
    ensures if a.Whole? then ValueOf(a).Int? && ValueOf(a).i as int == a.n else ValueOf(a).Double?
  {
  }

  lemma ApplyIsComputed(op: BinOp, a: Num, b: Num)
    requires Ints(a) && Ints(b)
    requires a.Whole? && b.Whole? ==> (op == Add ==> InInt(a.n + b.n)) && (op == Subtract ==> InInt(a.n - b.n))
    ensures
      Apply(op, ValueOf(a), ValueOf(b))
      == match Computed(op, Amount(a), Amount(b)) case Some(x) => Ok(Double(x)) case None => RuntimeError
  {
    NumberOf(a);
    NumberOf(b);
    hide Apply, ValueOf, Amount, AsNumber;
    NumbersMean(op, ValueOf(a), ValueOf(b));
  }

  /** Statements leave the variables of arithmetic. */
  lemma {:induction false} VariablesAreEval(env: Env, vars: Vars, ss: Stmts)
    requires ScopedStmts(Names(env), ss) && Shows(env, vars) && StmtsFit(vars, ss)
    ensures
      match Variables(vars, ss)
      case Some(after) => EvalStmts(env, ss).Bound? && Shows(EvalStmts(env, ss).env, after)
      case None => EvalStmts(env, ss) == Stuck(RuntimeError)
    decreases ss
  {
    hide Number, NumbersFit, NoStrings, Eval, NamesOf;
    match ss
    case End =>
    case Then(Let(x, e), rest) =>
      ScopedByNames(env, e);
      NumberIsEval(env, vars, e);
      if Number(vars, e).Some? {
        var v := Number(vars, e).value;
        var more := env + [Binding(x, ValueOf(v))];
        assert Names(more) == Names(env) + [x];
        VariablesAreEval(more, vars + [(x, v)], rest);
      }
    case Then(Block(b), rest) =>
      VariablesAreEval(env, vars, b);
      if Variables(vars, b).Some? {
        assert EvalStmts(env, b).env[..|env|] == env;
        VariablesAreEval(env, vars, rest);
      }
  }

  lemma {:induction false} ReturnedIsEval(e: Expr)
    requires Numeric(e)
    ensures EvalResult(e) == match Returned(e) case Some(x) => Ok(Double(x)) case None => RuntimeError
  {
    hide Apply;
    match e
    case Lit(l) => LiteralMeans(l);
    case Name(_) =>
    case Binary(op, l, r) =>
      ReturnedIsEval(l);
      ReturnedIsEval(r);
      if Returned(l).Some? && Returned(r).Some? {
        ApplyIsComputed(op, Fraction(Returned(l).value), Fraction(Returned(r).value));
      }
  }

  /** A numeric script returns the number of arithmetic, and fails exactly where that divides by zero. */
  lemma ArithmeticIsEval(script: Script)
    requires ScopedStmts([], script.body) && Arithmetical(script)
    ensures EvalScript(script) == match Arithmetic(script) case Some(x) => Ok(Double(x)) case None => RuntimeError
  {
    hide EvalStmts, EvalResult, Variables, Returned, StmtsFit, ScopedStmts;
    assert Names([]) == [];
    VariablesAreEval([], [], script.body);
    ReturnedIsEval(script.result);
  }

  function Texts(e: Expr): Option<string> {
    match e
    case Lit(StringLit(s)) => Some(s)
    case Binary(Add, l, r) =>
      (match (Texts(l), Texts(r)) case (Some(a), Some(b)) => Some(a + b) case _ => None)
    case _ => None
  }

  /** Sums of strings are what stands there from left to right, in initialisers and in returned expressions. */
  lemma {:induction false} TextsAreEval(e: Expr)
    requires Texts(e).Some?
    ensures Scoped([], e) && Eval([], e) == EvalResult(e) == Ok(Str(Texts(e).value))
  {
    hide Apply;
    match e
    case Lit(l) => LiteralMeans(l);
    case Binary(op, l, r) =>
      TextsAreEval(l);
      TextsAreEval(r);
      StringsMean(Add, Texts(l).value, Texts(r).value);
  }

  /** The machine's stack at the end of a numeric script: the function and the numbers of the variables. */
  lemma ArithmeticStack(script: Script, p: Program, c: State, m: Machine)
    requires ScopedStmts([], script.body) && Arithmetical(script) && Arithmetic(script).Some?
    requires LiteralOnly(script.result)
    requires CompileScript(script) == Done(c) && Holds(p, c) && Fresh(m)
    ensures
      var final, vars := Exec(p, m).m, Variables([], script.body).value;
      && final.top == 1 + |vars| && |final.mem| == MAX_STACK && final.mem[0] == Function
      && (forall i :: 0 <= i < |vars| && i + 1 < MAX_STACK ==> final.mem[1 + i] == ValueOf(vars[i].1))
      && final.top < MAX_STACK && final.mem[final.top] == Double(Arithmetic(script).value)
  {
    hide EvalStmts, EvalResult, Variables, Returned, StmtsFit, ScopedStmts, CompileScript, Exec, Holds, ValueOf;
    assert Names([]) == [];
    VariablesAreEval([], [], script.body);
    ArithmeticIsEval(script);
    ScriptRuns(script, p, c, m);
    var env, final := EvalStmts([], script.body).env, Exec(p, m).m;
    assert final.mem[..final.top] == Stack(env);
    forall i | 0 <= i < |env|
      ensures final.mem[1 + i] == env[i].value
    {
      assert final.mem[1 + i] == Stack(env)[i + 1];
    }
  }

  // ---------------------------------------------------------------- end to end

  datatype Answer = NotCompiled(error: Error) | Ran(code: ECode, value: Value)

  /** Compile with a fresh compiler, interpret on the given machine, read the result above the stack. With no
      frame counted the answer is the script's own, for numbers what arithmetic says. A frame that an earlier
      exception left counted goes on after a script that succeeds, with the script's result as its stack, and the
      answer is what that ends in. */
  method RunScript(gvm: GVM, script: Script) returns (a: Answer)
    requires gvm.Valid() && ScopedStmts([], script.body) && LiteralOnly(script.result)
    modifies gvm, gvm.stack, gvm.frame
    ensures gvm.Valid()
    ensures a.NotCompiled? <==> !GScopes.Compiles(script)
    ensures a.NotCompiled? <==> CompileScript(script).Failed?
    ensures a.NotCompiled? ==> a.error == CompileScript(script).error
    ensures a.Ran? && old(gvm.frameSize) == MAX_FRAME ==> a.code == TooManyFrames
    ensures a.Ran? && old(gvm.frameSize) < MAX_FRAME && |CompileScript(script).value.consts| <= 256 ==>
              var r := EvalScript(script);
              if !r.Ok? then a.code == Fault(r)
              else if old(gvm.frameSize) == 0 then a.code == Success && a.value == r.value
              else exists mem ::
                     && |mem| == MAX_STACK && mem[0] == r.value
                     && AnswersAs(a, Unwind(old(gvm.Frames()), mem, 1))
    ensures a.Ran? && old(gvm.frameSize) == 0 && |CompileScript(script).value.consts| <= 256 && Arithmetical(script) ==>
              a == match Arithmetic(script)
                   case Some(x) => Ran(Success, Double(x))
                   case None => Ran(RuntimeFault, Empty)
  {
    hide CompileScript, EvalScript, ScopedStmts, Exec, LiteralOnly, Unwind, Counted, Arithmetical, Arithmetic,
         GScopes.Compiles;
    GScopes.CompilesExactly(script);
    var compiler := new Compiler();
    var r := compiler.VisitScript(script);
    if r != Fine {
      return NotCompiled(r.error);
    }
    var chunk := compiler.chunk;
    ghost var c, p := CompileScript(script).value, Program(chunk.code[..], chunk.values);
    ghost var frames, m := gvm.Frames(), Machine(gvm.stack[..][0 := Function], 1, 0);
    assert c.code == chunk.code[..chunk.codeSize] && c.consts == chunk.values;
    if |c.consts| <= 256 {
      ScriptRuns(script, p, c, m);
    }
    if Arithmetical(script) {
      ArithmeticIsEval(script);
    }
    RunsOwnCodeExactly(frames, p, m.mem, 1);
    var e := gvm.Interpret(chunk);
    var v := Empty;
    if e == Success && gvm.stackTop < gvm.stack.Length {
      v := gvm.stack[gvm.stackTop];
    }
    a := Ran(e, v);
  }

  predicate AnswersAs(a: Answer, r: Ending)
    requires WellShaped(r.m) && (r.e == Success ==> r.m.top < MAX_STACK)
  {
    a.Ran? && a.code == r.e && (r.e == Success ==> a.value == r.m.mem[r.m.top])
  }
}
