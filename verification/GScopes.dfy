/** Which scripts compile: no name declared twice in a scope, at most 255 locals at a time, blocks at most 127 deep, and
    at most 1024 bytes of code, counted from the syntax. */
module GScopes {
  import opened Basics
  import opened GValue
  import opened GCompiler
  import opened GCorrect

  // ------------------------------------------------------------------ counted from the syntax

  function InitSize(e: Expr): nat {
    match e
    case Lit(_) => 2
    case Name(_) => 2
    case Binary(_, l, r) => InitSize(l) + InitSize(r) + 1
  }

  function ResultSize(e: Expr): nat {
    match e
    case Lit(_) => 2
    case Name(_) => 0
    case Binary(_, l, r) => ResultSize(l) + ResultSize(r) + 1
  }

  /** The names a statement list declares in its own scope. */
  function LetNames(ss: Stmts): seq<string>
    decreases ss
  {
    match ss
    case End => []
    case Then(Let(x, _), rest) => [x] + LetNames(rest)
    case Then(Block(_), rest) => LetNames(rest)
  }

  /** A block ends with one byte for each of its names. */
  function Size(ss: Stmts): nat
    decreases ss
  {
    match ss
    case End => 0
    case Then(Let(_, e), rest) => InitSize(e) + Size(rest)
    case Then(Block(b), rest) => Size(b) + |LetNames(b)| + Size(rest)
  }

  /** The names in a returned expression, which it declares. */
  function ResultNames(e: Expr): seq<string> {
    match e
    case Lit(_) => []
    case Name(x) => [x]
    case Binary(_, l, r) => ResultNames(l) + ResultNames(r)
  }

  /** `here` is declared in the scope, `outer` locals around it; `empty` says whether some local has the empty name,
      by which an initialiser would otherwise find the function's slot. */
  predicate Declarable(ss: Stmts, here: seq<string>, outer: nat, depth: int, empty: bool)
    decreases ss
  {
    match ss
    case End => true
    case Then(Let(x, e), rest) =>
      && x !in here && outer + |here| < 255 && ("" in NamesOf(e) ==> empty || x == "")
      && Declarable(rest, here + [x], outer, depth, empty || x == "")
    case Then(Block(b), rest) =>
      && depth < 127 && Declarable(b, [], outer + |here|, depth + 1, empty)
      && Declarable(rest, here, outer, depth, empty)
  }

  ghost predicate Fresh(names: seq<string>, here: seq<string>, outer: nat) {
    && (forall i :: 0 <= i < |names| ==> names[i] !in here && names[i] !in names[..i])
    && (names != [] ==> outer + |here| + |names| <= 255)
  }

  /** The script fits the compiler. */
  ghost predicate Compiles(script: Script) {
    var here, names := LetNames(script.body), ResultNames(script.result);
    && Declarable(script.body, [], 1, 1, false) && Fresh(names, here, 1)
    && Size(script.body) + ResultSize(script.result) + 1 + |here| + |names| <= 1024
  }

  // ------------------------------------------------------------------ declaring

  /** Some local of the innermost scope has the name: none from it on is shallower. */
  ghost predicate InScope(locals: seq<Local>, depth: int, name: string) {
    exists k ::
      && 0 <= k < |locals| && locals[k].name == name
      && forall j :: k <= j < |locals| ==> locals[j].depth >= depth
  }

  lemma {:induction false} DeclaredHereIsInScope(locals: seq<Local>, depth: int, name: string)
    ensures DeclaredHere(locals, depth, name) <==> InScope(locals, depth, name)
  {
    if locals != [] {
      var rest := locals[..|locals| - 1];
      DeclaredHereIsInScope(rest, depth, name);
      if InScope(rest, depth, name) && locals[|rest|].depth >= depth {
        var k :| 0 <= k < |rest| && rest[k].name == name && forall j :: k <= j < |rest| ==> rest[j].depth >= depth;
        assert locals[k].name == name;
        assert forall j :: k <= j < |rest| ==> locals[j] == rest[j];
      }
      if InScope(locals, depth, name) {
        var k :|
          && 0 <= k < |locals| && locals[k].name == name
          && forall j :: k <= j < |locals| ==> locals[j].depth >= depth;
        assert locals[|rest|].depth >= depth;
        if k < |rest| {
          assert rest[k].name == name && forall j :: k <= j < |rest| ==> rest[j] == locals[j];
        }
      }
    }
  }

  /** When a declaration throws, and which exception. */
  lemma DeclarationFails(c: State, name: string)
    ensures DeclLocal(c, name) == Failed(Exists) <==> InScope(c.locals, c.depth, name)
    ensures DeclLocal(c, name) == Failed(TooManyLocals) <==> !InScope(c.locals, c.depth, name) && |c.locals| == 255
    ensures DeclLocal(c, name).Done? <==> !InScope(c.locals, c.depth, name) && |c.locals| != 255
    ensures DeclLocal(c, name).Done? ==> DeclLocal(c, name).value == c.(locals := c.locals + [Local(name, c.depth)])
  {
    DeclaredHereIsInScope(c.locals, c.depth, name);
  }

  /** The function's slot, the locals of the scopes around, those of this scope. */
  ghost predicate Layout(c: State, here: seq<string>, outer: nat) {
    && 1 <= outer && |c.locals| == outer + |here| <= 255 && 1 <= c.depth <= 127 && c.locals[0] == Local("", -1)
    && (forall i :: 1 <= i < outer ==> 1 <= c.locals[i].depth < c.depth)
    && forall i :: 0 <= i < |here| ==> c.locals[outer + i] == Local(here[i], c.depth)
  }

  ghost predicate SomeEmpty(locals: seq<Local>) {
    exists i :: 1 <= i < |locals| && locals[i].name == ""
  }

  lemma InScopeIsHere(c: State, here: seq<string>, outer: nat, name: string)
    requires Layout(c, here, outer)
    ensures InScope(c.locals, c.depth, name) <==> name in here
  {
    if name in here {
      var i :| 0 <= i < |here| && here[i] == name;
      assert c.locals[outer + i].name == name;
      forall j | outer + i <= j < |c.locals|
        ensures c.locals[j].depth >= c.depth
      {
        assert c.locals[j] == Local(here[j - outer], c.depth);
      }
    }
    if InScope(c.locals, c.depth, name) {
      var k :| && 0 <= k < |c.locals| && c.locals[k].name == name
               && forall j :: k <= j < |c.locals| ==> c.locals[j].depth >= c.depth;
      assert c.locals[k].depth >= c.depth;
      assert c.locals[k] == Local(here[k - outer], c.depth);
    }
  }

  lemma DeclaredLayout(c: State, here: seq<string>, outer: nat, x: string)
    requires Layout(c, here, outer) && DeclLocal(c, x).Done?
    ensures Layout(DeclLocal(c, x).value, here + [x], outer)
    ensures SomeEmpty(DeclLocal(c, x).value.locals) <==> SomeEmpty(c.locals) || x == ""
  {
    DeclarationFails(c, x);
    var locals := c.locals + [Local(x, c.depth)];
    assert locals[|c.locals|].name == x;
    if SomeEmpty(c.locals) {
      var i :| 1 <= i < |c.locals| && c.locals[i].name == "";
      assert locals[i].name == "";
    }
  }

  // ------------------------------------------------------------------ expressions

  /** Only code and constants change. */
  ghost predicate Coded(c: State, c': State, n: nat) {
    c'.locals == c.locals && c'.depth == c.depth && |c'.code| == |c.code| + n
  }

  lemma NameCodes(c: State, here: seq<string>, outer: nat, x: string)
    requires Layout(c, here, outer)
    ensures NamedVariant(c, x).Done? <==> (x == "" ==> SomeEmpty(c.locals)) && |c.code| + 2 <= 1024
    ensures NamedVariant(c, x).Done? ==> Coded(c, NamedVariant(c, x).value, 2)
  {
    hide Resolve;
    var k := Resolve(c.locals, x);
    assert forall i :: 1 <= i < outer ==> c.locals[i].depth >= 1;
    assert forall i :: outer <= i < |c.locals| ==> c.locals[i] == Local(here[i - outer], c.depth);
    if x == "" {
      assert k >= 0;
    }
    assert k >= 0 ==> (c.locals[k].depth == -1 <==> k == 0);
    assert k == 0 ==> x == "" && !SomeEmpty(c.locals);
  }

  /** The bytes of a name: the innermost local's slot, or the global of the source's index -1. */
  lemma NameBytes(c: State, x: string)
    requires NamedVariant(c, x).Done?
    ensures (forall k :: 0 <= k < |c.locals| ==> c.locals[k].name != x) ==>
              NamedVariant(c, x).value.code == c.code + [2, 255]
    ensures forall k ::
              && 0 <= k < |c.locals| && c.locals[k].name == x
              && (forall j :: k < j < |c.locals| ==> c.locals[j].name != x) ==>
              NamedVariant(c, x).value.code == c.code + [3, k % 256]
  {
    hide Resolve;
    var k := Resolve(c.locals, x);
    forall i | 0 <= i < |c.locals| && c.locals[i].name == x && forall j :: i < j < |c.locals| ==> c.locals[j].name != x
      ensures i == k
    {
      assert i <= k;
    }
  }

  lemma {:induction false} InitCodes(c: State, here: seq<string>, outer: nat, e: Expr)
    requires Layout(c, here, outer)
    ensures CompileInit(c, e).Done? <==> ("" in NamesOf(e) ==> SomeEmpty(c.locals)) && |c.code| + InitSize(e) <= 1024
    ensures CompileInit(c, e).Done? ==> Coded(c, CompileInit(c, e).value, InitSize(e))
    decreases e
  {
    hide NamedVariant, SomeEmpty;
    match e
    case Lit(_) =>
    case Name(x) => NameCodes(c, here, outer, x);
    case Binary(_, l, r) =>
      InitCodes(c, here, outer, l);
      if CompileInit(c, l).Done? {
        InitCodes(CompileInit(c, l).value, here, outer, r);
      }
  }

  lemma {:induction false} ResultCodes(c: State, here: seq<string>, outer: nat, e: Expr)
    requires Layout(c, here, outer) && |c.code| <= 1024
    ensures CompileResult(c, e).Done? <==> Fresh(ResultNames(e), here, outer) && |c.code| + ResultSize(e) <= 1024
    ensures CompileResult(c, e).Done? ==>
              var c' := CompileResult(c, e).value;
              && Layout(c', here + ResultNames(e), outer) && c'.depth == c.depth
              && |c'.code| == |c.code| + ResultSize(e)
    decreases e
  {
    assert outer + |here| <= 255;
    hide DeclLocal, InScope, Layout, Fresh;
    match e
    case Lit(_) =>
      LayoutKept(c, here, outer);
      NothingFresh(here, outer);
    case Name(x) => OneResult(c, here, outer, x);
    case Binary(_, l, r) =>
      ResultCodes(c, here, outer, l);
      FreshSplits(ResultNames(l), ResultNames(r), here, outer);
      if CompileResult(c, l).Done? {
        var c1 := CompileResult(c, l).value;
        ResultCodes(c1, here + ResultNames(l), outer, r);
        assert here + ResultNames(l) + ResultNames(r) == here + ResultNames(e);
        if CompileResult(c1, r).Done? {
          LayoutKept(CompileResult(c1, r).value, here + ResultNames(e), outer);
        }
      }
  }

  lemma NothingFresh(here: seq<string>, outer: nat)
    ensures Fresh([], here, outer) && here + [] == here
  {
  }

  lemma LayoutKept(c: State, here: seq<string>, outer: nat)
    requires Layout(c, here, outer)
    ensures forall code, consts :: Layout(c.(code := code, consts := consts), here, outer)
  {
  }

  lemma OneResult(c: State, here: seq<string>, outer: nat, x: string)
    requires Layout(c, here, outer)
    ensures c.depth != 0
    ensures DeclLocal(c, x).Done? <==> Fresh([x], here, outer)
    ensures DeclLocal(c, x).Done? ==>
              var c' := DeclLocal(c, x).value;
              Layout(c', here + [x], outer) && c'.depth == c.depth && c'.code == c.code
  {
    DeclarationFails(c, x);
    InScopeIsHere(c, here, outer, x);
    hide InScope;
    if DeclLocal(c, x).Done? {
      DeclaredLayout(c, here, outer, x);
    }
    assert [x][..0] == [];
  }

  lemma FreshSplits(a: seq<string>, b: seq<string>, here: seq<string>, outer: nat)
    requires outer + |here| <= 255
    ensures Fresh(a + b, here, outer) <==> Fresh(a, here, outer) && Fresh(b, here + a, outer)
  {
    var ab := a + b;
    assert forall i :: 0 <= i < |a| ==> ab[i] == a[i] && ab[..i] == a[..i];
    assert forall i :: 0 <= i < |b| ==> ab[|a| + i] == b[i] && ab[..|a| + i] == a + b[..i];
  }

  // ------------------------------------------------------------------ statements

  /** Leaving a scope takes a byte for each of its locals. */
  lemma {:induction false} PopCodes(c: State, n: nat)
    requires n < |c.locals| && c.locals[|c.locals| - n - 1].depth <= c.depth && |c.code| <= 1024
    requires forall i :: |c.locals| - n <= i < |c.locals| ==> c.locals[i].depth > c.depth
    ensures PopScope(c).Done? <==> |c.code| + n <= 1024
    ensures PopScope(c).Done? ==>
              var c' := PopScope(c).value;
              c'.locals == c.locals[..|c.locals| - n] && c'.depth == c.depth && |c'.code| == |c.code| + n
    decreases n
  {
    if n > 0 && |c.code| < 1024 {
      var c1 := Emit(c, [OP_POP]).value;
      var c2 := c1.(locals := c1.locals[..|c1.locals| - 1]);
      PopCodes(c2, n - 1);
      assert c.locals[..|c.locals| - 1][..|c.locals| - n] == c.locals[..|c.locals| - n];
    } else {
      assert c.locals[..|c.locals|] == c.locals;
    }
  }

  /** The state behind statements, as far as it matters here. */
  ghost predicate Went(c: State, c': State, names: seq<string>, n: nat) {
    && c'.depth == c.depth && |c'.code| == |c.code| + n && c.locals <= c'.locals
    && |c'.locals| == |c.locals| + |names|
  }

  lemma LetCodes(c: State, here: seq<string>, outer: nat, x: string, e: Expr)
    requires Layout(c, here, outer) && |c.code| <= 1024
    ensures
      CompileStmt(c, Let(x, e)).Done?
      <==> && x !in here && outer + |here| < 255 && ("" in NamesOf(e) ==> SomeEmpty(c.locals) || x == "")
           && |c.code| + InitSize(e) <= 1024
    ensures CompileStmt(c, Let(x, e)).Done? ==>
              var c' := CompileStmt(c, Let(x, e)).value;
              && Layout(c', here + [x], outer) && Went(c, c', [x], InitSize(e))
              && (SomeEmpty(c'.locals) <==> SomeEmpty(c.locals) || x == "")
  {
    DeclarationFails(c, x);
    InScopeIsHere(c, here, outer, x);
    hide InScope, SomeEmpty, CompileInit, DeclLocal;
    if DeclLocal(c, x).Done? {
      DeclaredLayout(c, here, outer, x);
      InitCodes(DeclLocal(c, x).value, here + [x], outer, e);
    }
  }

  lemma EnteredLayout(c: State, here: seq<string>, outer: nat)
    requires Layout(c, here, outer) && c.depth < 127
    ensures Layout(c.(depth := c.depth + 1), [], outer + |here|)
  {
    forall i | 1 <= i < outer + |here|
      ensures 1 <= c.locals[i].depth < c.depth + 1
    {
      assert i >= outer ==> c.locals[outer + (i - outer)] == Local(here[i - outer], c.depth);
    }
  }

  lemma LeftLayout(c: State, here: seq<string>, outer: nat, b: State, names: seq<string>)
    requires Layout(c, here, outer) && Layout(b, names, outer + |here|) && b.depth == c.depth + 1
    requires c.locals <= b.locals && |b.code| <= 1024
    ensures
      var left := b.(depth := b.depth - 1);
      && (PopScope(left).Done? <==> |b.code| + |names| <= 1024)
      && (PopScope(left).Done? ==>
            var c' := PopScope(left).value;
            c'.locals == c.locals && c'.depth == c.depth && |c'.code| == |b.code| + |names|)
  {
    var left := b.(depth := b.depth - 1);
    assert c.locals[|c.locals| - 1].depth <= c.depth by {
      assert here != [] ==> c.locals[outer + (|here| - 1)] == Local(here[|here| - 1], c.depth);
    }
    forall i | |c.locals| <= i < |left.locals|
      ensures left.locals[i].depth > left.depth
    {
      assert left.locals[i] == Local(names[i - |c.locals|], b.depth);
    }
    PopCodes(left, |names|);
    assert left.locals[..|c.locals|] == c.locals;
  }

  lemma {:induction false} BlockCodes(c: State, here: seq<string>, outer: nat, b: Stmts)
    requires Layout(c, here, outer) && |c.code| <= 1024
    ensures
      CompileStmt(c, Block(b)).Done?
      <==> && c.depth < 127 && Declarable(b, [], outer + |here|, c.depth + 1, SomeEmpty(c.locals))
           && |c.code| + Size(b) + |LetNames(b)| <= 1024
    ensures CompileStmt(c, Block(b)).Done? ==>
              var c' := CompileStmt(c, Block(b)).value;
              && c'.locals == c.locals && c'.depth == c.depth
              && |c'.code| == |c.code| + Size(b) + |LetNames(b)|
    decreases b, 1
  {
    hide Layout, SomeEmpty, PopScope, Declarable;
    DepthIsByte(c, here, outer);
    if c.depth < 127 {
      var c1 := c.(depth := c.depth + 1);
      EnteredLayout(c, here, outer);
      StmtsCode(c1, [], outer + |here|, b);
      if CompileStmts(c1, b).Done? {
        assert [] + LetNames(b) == LetNames(b);
        LeftLayout(c, here, outer, CompileStmts(c1, b).value, LetNames(b));
      }
    }
  }

  lemma DepthIsByte(c: State, here: seq<string>, outer: nat)
    requires Layout(c, here, outer)
    ensures 1 <= c.depth <= 127
  {
  }

  /** A statement list compiles exactly if its declarations are allowed and its code has room. */
  lemma {:induction false} StmtsCode(c: State, here: seq<string>, outer: nat, ss: Stmts)
    requires Layout(c, here, outer) && |c.code| <= 1024
    ensures CompileStmts(c, ss).Done?
       <==> Declarable(ss, here, outer, c.depth, SomeEmpty(c.locals)) && |c.code| + Size(ss) <= 1024
    ensures CompileStmts(c, ss).Done? ==>
              var c' := CompileStmts(c, ss).value;
              Layout(c', here + LetNames(ss), outer) && Went(c, c', LetNames(ss), Size(ss))
    decreases ss, 0
  {
    hide Layout, SomeEmpty, PopScope, CompileStmt, NamesOf, InitSize;
    match ss
    case End => assert here + [] == here;
    case Then(Let(x, e), rest) =>
      LetCodes(c, here, outer, x, e);
      if CompileStmt(c, ss.first).Done? {
        StmtsCode(CompileStmt(c, ss.first).value, here + [x], outer, rest);
        assert here + [x] + LetNames(rest) == here + LetNames(ss);
      }
    case Then(Block(b), rest) =>
      BlockCodes(c, here, outer, b);
      if CompileStmt(c, ss.first).Done? {
        var c' := CompileStmt(c, ss.first).value;
        SameLayout(c, c', here, outer);
        StmtsCode(c', here, outer, rest);
      }
  }

  lemma SameLayout(c: State, c': State, here: seq<string>, outer: nat)
    requires Layout(c, here, outer) && c'.locals == c.locals && c'.depth == c.depth
    ensures Layout(c', here, outer)
  {
  }

  /** Exactly which scripts compile. */
  lemma CompilesExactly(script: Script)
    ensures CompileScript(script).Done? <==> Compiles(script)
  {
    hide Declarable, CompileStmts, CompileResult, PopScope, Layout, SomeEmpty, Fresh, Size, ResultSize, LetNames,
         ResultNames;
    var c1 := INITIAL.(depth := 1);
    assert Enter(INITIAL) == Done(c1);
    FirstLayout(c1);
    StmtsCode(c1, [], 1, script.body);
    var here, names := LetNames(script.body), ResultNames(script.result);
    assert [] + here == here;
    if CompileStmts(c1, script.body).Done? {
      var c2 := CompileStmts(c1, script.body).value;
      ResultCodes(c2, here, 1, script.result);
      if CompileResult(c2, script.result).Done? && |CompileResult(c2, script.result).value.code| < 1024 {
        var c3 := CompileResult(c2, script.result).value;
        var c4 := Emit(c3, [OP_RETURN]).value;
        SameLayout(c3, c4, here + names, 1);
        LeftScript(c4, here + names);
      }
    }
  }

  lemma FirstLayout(c: State)
    requires c == INITIAL.(depth := 1)
    ensures Layout(c, [], 1) && !SomeEmpty(c.locals)
  {
  }

  lemma LeftScript(c: State, here: seq<string>)
    requires Layout(c, here, 1) && c.depth == 1 && |c.code| <= 1024
    ensures PopScope(c.(depth := 0)).Done? <==> |c.code| + |here| <= 1024
  {
    forall i | 1 <= i < |c.locals|
      ensures c.locals[i].depth > 0
    {
      assert c.locals[1 + (i - 1)] == Local(here[i - 1], 1);
    }
    PopCodes(c.(depth := 0), |here|);
  }
}
