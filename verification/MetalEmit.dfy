/**
 * The emitter as it runs, appending to one string, and the meaning of what it leaves there
 * (expressions_evaluator_metal.h).
 */
module MetalEmit {
  import opened ShaderText
  import opened MetalFuse

  // ----- meaning -----

  /** The arithmetic of the device, left open. */
  datatype Algebra<!F> = Algebra(
    literal: string -> F,
    negate: F -> F,
    apply1: (string, F) -> F,
    apply2: (string, F, F) -> F,
    fma: (F, F, F) -> F,
    arith: (string, F, F) -> F,
    compare: (string, F, F) -> bool,
    truth: F -> bool,
    fromBool: bool -> F)

  datatype Value<F> = Float(f: F) | Bool(b: bool) | Wrong

  /** Shader expressions over the elements `buffers` of this thread and the constants `scalars`. */
  function Eval<F>(x: Shader, buffers: seq<F>, scalars: seq<F>, g: Algebra<F>): Value<F> {
    match x
    case Buffer(i) => if i < |buffers| then Float(buffers[i]) else Wrong
    case Constant(i) => if i < |scalars| then Float(scalars[i]) else Wrong
    case Literal(text) => Float(g.literal(text))
    case Minus(y) =>
      var v := Eval(y, buffers, scalars, g);
      if v.Float? then Float(g.negate(v.f)) else Wrong
    case Not(y) =>
      var v := Eval(y, buffers, scalars, g);
      if v.Bool? then Bool(!v.b) else Wrong
    case Infix(op, l, r) => EvalInfix(op, Eval(l, buffers, scalars, g), Eval(r, buffers, scalars, g), g)
    case Call(name, args) =>
      if |args| == 1 then EvalCall1(name, Eval(args[0], buffers, scalars, g), g)
      else if |args| == 2 then EvalCall2(name, Eval(args[0], buffers, scalars, g), Eval(args[1], buffers, scalars, g), g)
      else if |args| == 3 then
        EvalCall3(name, Eval(args[0], buffers, scalars, g), Eval(args[1], buffers, scalars, g), Eval(args[2], buffers, scalars, g), g)
      else Wrong
  }

  function EvalInfix<F>(op: string, l: Value<F>, r: Value<F>, g: Algebra<F>): Value<F> {
    if l.Float? && r.Float? then
      if op in ARITH_SYMBOLS then Float(g.arith(op, l.f, r.f))
      else if op in COMPARE_SYMBOLS then Bool(g.compare(op, l.f, r.f))
      else Wrong
    else if l.Bool? && r.Bool? then
      if op == "&&" then Bool(l.b && r.b)
      else if op == "||" then Bool(l.b || r.b)
      else if op == "!=" then Bool(l.b != r.b)
      else Wrong
    else Wrong
  }

  function EvalCall1<F>(name: string, x: Value<F>, g: Algebra<F>): Value<F> {
    if name == "float" then (if x.Bool? then Float(g.fromBool(x.b)) else x)
    else if x.Float? then (if name == "bool" then Bool(g.truth(x.f)) else Float(g.apply1(name, x.f)))
    else Wrong
  }

  function EvalCall2<F>(name: string, x: Value<F>, y: Value<F>, g: Algebra<F>): Value<F> {
    if x.Float? && y.Float? then Float(g.apply2(name, x.f, y.f)) else Wrong
  }

  /** `select(x, y, c)` is `y` where `c` holds. */
  function EvalCall3<F>(name: string, x: Value<F>, y: Value<F>, z: Value<F>, g: Algebra<F>): Value<F> {
    if name == "select" && x.Float? && y.Float? && z.Bool? then Float(if z.b then y.f else x.f)
    else if name == "fma" && x.Float? && y.Float? && z.Float? then Float(g.fma(x.f, y.f, z.f))
    else Wrong
  }

  /** What the source expression means at one element: `load` reads a tensor there, `convert` narrows a scalar. */
  function Meaning<V, F>(e: Fused<V>, load: int -> F, convert: V -> F, g: Algebra<F>): F {
    match e
    case Tensor(data) => load(data)
    case Scalar(value) => convert(value)
    case Unary(op, x) =>
      var v := Meaning(x, load, convert, g);
      (match op
       case Neg => g.negate(v)
       case Lnot => g.fromBool(!g.truth(v))
       case Sqr => g.arith("*", v, v)
       case Expm1 => g.arith("-", g.apply1("exp", v), g.literal("1.0"))
       case Log1p => g.apply1("log", g.arith("+", g.literal("1.0"), v))
       case Cbrt => g.apply2("copysign", g.apply2("pow", g.apply1("fabs", v), g.literal("0.3333333333333333")), v)
       case Named(name) => g.apply1(name, v))
    case Binary(op, l, r) =>
      var v, w := Meaning(l, load, convert, g), Meaning(r, load, convert, g);
      (match op
       case Arith(symbol) => g.arith(symbol, v, w)
       case Compare(symbol) => g.fromBool(g.compare(symbol, v, w))
       case Logic(symbol) =>
         g.fromBool(if symbol == "&&" then g.truth(v) && g.truth(w)
                    else if symbol == "||" then g.truth(v) || g.truth(w)
                    else g.truth(v) != g.truth(w))
       case Hypot => g.apply1("sqrt", g.arith("+", g.arith("*", v, v), g.arith("*", w, w)))
       case Pair(name) => g.apply2(name, v, w))
    case Ternary(op, a, b, c) =>
      var u, v, w := Meaning(a, load, convert, g), Meaning(b, load, convert, g), Meaning(c, load, convert, g);
      (match op
       case Fma => g.fma(u, v, w)
       case IfElse => if g.truth(u) then v else w)
  }

  /** The slots from `k` on hold exactly the operands of `e`, in the order they were handed out. */
  ghost predicate Slots<A, F>(slots: seq<F>, k: nat, operands: seq<A>, f: A -> F) {
    k + |operands| <= |slots| && forall i :: 0 <= i < |operands| ==> slots[k + i] == f(operands[i])
  }

  lemma SlotsSplit<A, F>(slots: seq<F>, k: nat, m: nat, a: seq<A>, b: seq<A>, f: A -> F)
    requires Slots(slots, k, a + b, f) && m == k + |a|
    ensures Slots(slots, k, a, f) && Slots(slots, m, b, f)
  {
    forall i | 0 <= i < |a| ensures slots[k + i] == f(a[i]) {
      assert (a + b)[i] == a[i];
    }
    forall i | 0 <= i < |b| ensures slots[m + i] == f(b[i]) {
      assert (a + b)[|a| + i] == b[i] && slots[k + (|a| + i)] == f((a + b)[|a| + i]);
    }
  }

  /**
   * The shader expression means what the source expression means: the derived operators are expanded
   * correctly, and swapping the arguments of `select` preserves the choice.
   */
  lemma {:induction false} ExpandMeans<V, F>(e: Fused<V>, nb: nat, ns: nat, buffers: seq<F>, scalars: seq<F>,
                                             load: int -> F, convert: V -> F, g: Algebra<F>)
    requires Known(e) && Slots(buffers, nb, Tensors(e), load) && Slots(scalars, ns, Scalars(e), convert)
    ensures Eval(Expand(e, nb, ns), buffers, scalars, g) == Float(Meaning(e, load, convert, g))
    decreases e, 1
  {
    hide Eval, Expand, Meaning, Slots;
    match e
    case Tensor(_) => LeafMeans(e, nb, ns, buffers, scalars, load, convert, g);
    case Scalar(_) => LeafMeans(e, nb, ns, buffers, scalars, load, convert, g);
    case Unary(op, x) =>
      ExpandMeans(x, nb, ns, buffers, scalars, load, convert, g);
      UnaryMeans(op, x, nb, ns, buffers, scalars, load, convert, g);
    case Binary(_, _, _) => BinaryExpandMeans(e, nb, ns, buffers, scalars, load, convert, g);
    case Ternary(op, _, _, _) =>
      if op.Fma? {
        FmaExpandMeans(e, nb, ns, buffers, scalars, load, convert, g);
      } else {
        IfElseExpandMeans(e, nb, ns, buffers, scalars, load, convert, g);
      }
  }

  lemma OperandsOf<V>(e: Fused<V>)
    requires Known(e)
    ensures e.Binary? ==> (
      && KnownBinary(e.op2) && Known(e.l) && Known(e.r) && Tensors(e) == Tensors(e.l) + Tensors(e.r)
      && Scalars(e) == Scalars(e.l) + Scalars(e.r))
  {
  }

  lemma {:induction false} BinaryExpandMeans<V, F>(e: Fused<V>, nb: nat, ns: nat, buffers: seq<F>, scalars: seq<F>,
                                                   load: int -> F, convert: V -> F, g: Algebra<F>)
    requires e.Binary? && Known(e) && Slots(buffers, nb, Tensors(e), load) && Slots(scalars, ns, Scalars(e), convert)
    ensures Eval(Expand(e, nb, ns), buffers, scalars, g) == Float(Meaning(e, load, convert, g))
    decreases e, 0
  {
    OperandsOf(e);
    var l, r, mb, ms := e.l, e.r, nb + |Tensors(e.l)|, ns + |Scalars(e.l)|;
    hide *;
    BinarySlots(e, nb, ns, mb, ms, buffers, scalars, load, convert);
    ExpandMeans(l, nb, ns, buffers, scalars, load, convert, g);
    ExpandMeans(r, mb, ms, buffers, scalars, load, convert, g);
    BinaryMeans(e.op2, l, r, nb, ns, mb, ms, buffers, scalars, load, convert, g);
  }

  lemma BinarySlots<V, F>(e: Fused<V>, nb: nat, ns: nat, mb: nat, ms: nat,
                          buffers: seq<F>, scalars: seq<F>, load: int -> F, convert: V -> F)
    requires e.Binary? && Slots(buffers, nb, Tensors(e), load) && Slots(scalars, ns, Scalars(e), convert)
    requires mb == nb + |Tensors(e.l)| && ms == ns + |Scalars(e.l)|
    ensures Slots(buffers, nb, Tensors(e.l), load) && Slots(scalars, ns, Scalars(e.l), convert)
    ensures Slots(buffers, mb, Tensors(e.r), load) && Slots(scalars, ms, Scalars(e.r), convert)
  {
    hide Slots;
    SlotsSplit(buffers, nb, mb, Tensors(e.l), Tensors(e.r), load);
    SlotsSplit(scalars, ns, ms, Scalars(e.l), Scalars(e.r), convert);
  }

  /** The operands of the fused multiply-add take their slots in order. */
  lemma {:induction false} FmaExpandMeans<V, F>(e: Fused<V>, nb: nat, ns: nat, buffers: seq<F>, scalars: seq<F>,
                                                load: int -> F, convert: V -> F, g: Algebra<F>)
    requires e.Ternary? && e.op3.Fma? && Known(e)
    requires Slots(buffers, nb, Tensors(e), load) && Slots(scalars, ns, Scalars(e), convert)
    ensures Eval(Expand(e, nb, ns), buffers, scalars, g) == Float(Meaning(e, load, convert, g))
    decreases e, 0
  {
    FmaOperands(e);
    hide *;
    var x, y, z := e.a, e.b, e.c;
    var mb, ms := nb + |Tensors(x)|, ns + |Scalars(x)|;
    var kb, ks := mb + |Tensors(y)|, ms + |Scalars(y)|;
    SlotsThree(buffers, nb, mb, kb, Tensors(e), Tensors(x), Tensors(y), Tensors(z), load);
    SlotsThree(scalars, ns, ms, ks, Scalars(e), Scalars(x), Scalars(y), Scalars(z), convert);
    ExpandMeans(x, nb, ns, buffers, scalars, load, convert, g);
    ExpandMeans(y, mb, ms, buffers, scalars, load, convert, g);
    ExpandMeans(z, kb, ks, buffers, scalars, load, convert, g);
    FmaExpands(e, nb, ns, mb, ms, kb, ks, load, convert, g);
    FmaShader(Expand(x, nb, ns), Expand(y, mb, ms), Expand(z, kb, ks), Meaning(x, load, convert, g), Meaning(y, load, convert, g),
              Meaning(z, load, convert, g), buffers, scalars, g);
  }

  lemma FmaOperands<V>(e: Fused<V>)
    requires e.Ternary? && e.op3.Fma? && Known(e)
    ensures Known(e.a) && Known(e.b) && Known(e.c)
    ensures Tensors(e) == Tensors(e.a) + Tensors(e.b) + Tensors(e.c) && Scalars(e) == Scalars(e.a) + Scalars(e.b) + Scalars(e.c)
  {
  }

  lemma FmaExpands<V, F>(e: Fused<V>, nb: nat, ns: nat, mb: nat, ms: nat, kb: nat, ks: nat,
                         load: int -> F, convert: V -> F, g: Algebra<F>)
    requires e.Ternary? && e.op3.Fma? && mb == nb + |Tensors(e.a)| && ms == ns + |Scalars(e.a)|
    requires kb == mb + |Tensors(e.b)| && ks == ms + |Scalars(e.b)|
    ensures Expand(e, nb, ns) == Call("fma", [Expand(e.a, nb, ns), Expand(e.b, mb, ms), Expand(e.c, kb, ks)])
    ensures Meaning(e, load, convert, g)
         == g.fma(Meaning(e.a, load, convert, g), Meaning(e.b, load, convert, g), Meaning(e.c, load, convert, g))
  {
    hide Tensors, Scalars;
  }

  /** The operands of the choice take their slots in reverse. */
  lemma {:induction false} IfElseExpandMeans<V, F>(e: Fused<V>, nb: nat, ns: nat, buffers: seq<F>, scalars: seq<F>,
                                                   load: int -> F, convert: V -> F, g: Algebra<F>)
    requires e.Ternary? && e.op3.IfElse? && Known(e)
    requires Slots(buffers, nb, Tensors(e), load) && Slots(scalars, ns, Scalars(e), convert)
    ensures Eval(Expand(e, nb, ns), buffers, scalars, g) == Float(Meaning(e, load, convert, g))
    decreases e, 0
  {
    IfElseOperands(e);
    hide *;
    var x, y, z := e.c, e.b, e.a;
    var mb, ms := nb + |Tensors(x)|, ns + |Scalars(x)|;
    var kb, ks := mb + |Tensors(y)|, ms + |Scalars(y)|;
    SlotsThree(buffers, nb, mb, kb, Tensors(e), Tensors(x), Tensors(y), Tensors(z), load);
    SlotsThree(scalars, ns, ms, ks, Scalars(e), Scalars(x), Scalars(y), Scalars(z), convert);
    ExpandMeans(x, nb, ns, buffers, scalars, load, convert, g);
    ExpandMeans(y, mb, ms, buffers, scalars, load, convert, g);
    ExpandMeans(z, kb, ks, buffers, scalars, load, convert, g);
    IfElseExpands(e, nb, ns, mb, ms, kb, ks, load, convert, g);
    SelectShader(Expand(x, nb, ns), Expand(y, mb, ms), Expand(z, kb, ks), Meaning(x, load, convert, g), Meaning(y, load, convert, g),
                 Meaning(z, load, convert, g), buffers, scalars, g);
  }

  lemma IfElseOperands<V>(e: Fused<V>)
    requires e.Ternary? && e.op3.IfElse? && Known(e)
    ensures Known(e.a) && Known(e.b) && Known(e.c)
    ensures Tensors(e) == Tensors(e.c) + Tensors(e.b) + Tensors(e.a) && Scalars(e) == Scalars(e.c) + Scalars(e.b) + Scalars(e.a)
  {
  }

  lemma IfElseExpands<V, F>(e: Fused<V>, nb: nat, ns: nat, mb: nat, ms: nat, kb: nat, ks: nat,
                            load: int -> F, convert: V -> F, g: Algebra<F>)
    requires e.Ternary? && e.op3.IfElse? && mb == nb + |Tensors(e.c)| && ms == ns + |Scalars(e.c)|
    requires kb == mb + |Tensors(e.b)| && ks == ms + |Scalars(e.b)|
    ensures Expand(e, nb, ns) == Call("select", [Expand(e.c, nb, ns), Expand(e.b, mb, ms), ToBool(Expand(e.a, kb, ks))])
    ensures Meaning(e, load, convert, g)
         == if g.truth(Meaning(e.a, load, convert, g)) then Meaning(e.b, load, convert, g) else Meaning(e.c, load, convert, g)
  {
    hide Tensors, Scalars;
  }

  lemma SlotsThree<A, F>(slots: seq<F>, k: nat, m: nat, n: nat, all: seq<A>, a: seq<A>, b: seq<A>, c: seq<A>, f: A -> F)
    requires Slots(slots, k, all, f) && all == a + b + c && m == k + |a| && n == m + |b|
    ensures Slots(slots, k, a, f) && Slots(slots, m, b, f) && Slots(slots, n, c, f)
  {
    hide Slots;
    SlotsSplit(slots, k, n, a + b, c, f);
    SlotsSplit(slots, k, m, a, b, f);
  }

  lemma LeafMeans<V, F>(e: Fused<V>, nb: nat, ns: nat, buffers: seq<F>, scalars: seq<F>,
                        load: int -> F, convert: V -> F, g: Algebra<F>)
    requires (e.Tensor? || e.Scalar?) && Slots(buffers, nb, Tensors(e), load) && Slots(scalars, ns, Scalars(e), convert)
    ensures Eval(Expand(e, nb, ns), buffers, scalars, g) == Float(Meaning(e, load, convert, g))
  {
    if e.Tensor? {
      assert buffers[nb + 0] == load(Tensors(e)[0]);
    } else {
      assert scalars[ns + 0] == convert(Scalars(e)[0]);
    }
  }

  // One level of evaluation at a time.

  lemma EvalOne<F>(name: string, x: Shader, buffers: seq<F>, scalars: seq<F>, g: Algebra<F>)
    ensures Eval(Call(name, [x]), buffers, scalars, g) == EvalCall1(name, Eval(x, buffers, scalars, g), g)
  {
  }

  lemma EvalTwo<F>(name: string, x: Shader, y: Shader, buffers: seq<F>, scalars: seq<F>, g: Algebra<F>)
    ensures Eval(Call(name, [x, y]), buffers, scalars, g)
         == EvalCall2(name, Eval(x, buffers, scalars, g), Eval(y, buffers, scalars, g), g)
  {
  }

  lemma EvalThree<F>(name: string, x: Shader, y: Shader, z: Shader, buffers: seq<F>, scalars: seq<F>, g: Algebra<F>)
    ensures Eval(Call(name, [x, y, z]), buffers, scalars, g)
         == EvalCall3(name, Eval(x, buffers, scalars, g), Eval(y, buffers, scalars, g), Eval(z, buffers, scalars, g), g)
  {
  }

  lemma EvalOthers<F>(op: string, x: Shader, y: Shader, text: string, buffers: seq<F>, scalars: seq<F>, g: Algebra<F>)
    ensures Eval(Infix(op, x, y), buffers, scalars, g)
         == EvalInfix(op, Eval(x, buffers, scalars, g), Eval(y, buffers, scalars, g), g)
    ensures Eval(x, buffers, scalars, g).Float? ==>
              Eval(Minus(x), buffers, scalars, g) == Float(g.negate(Eval(x, buffers, scalars, g).f))
    ensures Eval(x, buffers, scalars, g).Bool? ==>
              Eval(Not(x), buffers, scalars, g) == Bool(!Eval(x, buffers, scalars, g).b)
    ensures Eval(Literal(text), buffers, scalars, g) == Float(g.literal(text))
  {
    EvalInfixOne(op, x, y, buffers, scalars, g);
    hide EvalInfix;
  }

  lemma EvalInfixOne<F>(op: string, x: Shader, y: Shader, buffers: seq<F>, scalars: seq<F>, g: Algebra<F>)
    ensures Eval(Infix(op, x, y), buffers, scalars, g)
         == EvalInfix(op, Eval(x, buffers, scalars, g), Eval(y, buffers, scalars, g), g)
  {
    hide EvalInfix;
  }

  lemma UnaryMeans<V, F>(op: UnaryOp, x: Fused<V>, nb: nat, ns: nat, buffers: seq<F>, scalars: seq<F>,
                         load: int -> F, convert: V -> F, g: Algebra<F>)
    requires Known(Unary(op, x)) && Eval(Expand(x, nb, ns), buffers, scalars, g) == Float(Meaning(x, load, convert, g))
    ensures Eval(Expand(Unary(op, x), nb, ns), buffers, scalars, g) == Float(Meaning(Unary(op, x), load, convert, g))
  {
    var s := Expand(x, nb, ns);
    hide Eval;
    EvalOthers("*", s, s, "1.0", buffers, scalars, g);
    match op
    case Neg =>
    case Lnot =>
      EvalOne("bool", s, buffers, scalars, g);
      EvalOthers("", ToBool(s), s, "", buffers, scalars, g);
      EvalOne("float", Not(ToBool(s)), buffers, scalars, g);
    case Sqr =>
    case Expm1 =>
      EvalOne("exp", s, buffers, scalars, g);
      EvalOthers("-", Call("exp", [s]), Literal("1.0"), "1.0", buffers, scalars, g);
    case Log1p =>
      EvalOthers("+", Literal("1.0"), s, "1.0", buffers, scalars, g);
      EvalOne("log", Infix("+", Literal("1.0"), s), buffers, scalars, g);
    case Cbrt =>
      var third := Literal("0.3333333333333333");
      EvalOthers("", s, s, "0.3333333333333333", buffers, scalars, g);
      EvalOne("fabs", s, buffers, scalars, g);
      EvalTwo("pow", Call("fabs", [s]), third, buffers, scalars, g);
      EvalTwo("copysign", Call("pow", [Call("fabs", [s]), third]), s, buffers, scalars, g);
    case Named(name) =>
      assert name != "float" && name != "bool";
      EvalOne(name, s, buffers, scalars, g);
  }

  lemma BinaryMeans<V, F>(op: BinaryOp, l: Fused<V>, r: Fused<V>, nb: nat, ns: nat, mb: nat, ms: nat, buffers: seq<F>, scalars: seq<F>,
                          load: int -> F, convert: V -> F, g: Algebra<F>)
    requires KnownBinary(op) && mb == nb + |Tensors(l)| && ms == ns + |Scalars(l)|
    requires Eval(Expand(l, nb, ns), buffers, scalars, g) == Float(Meaning(l, load, convert, g))
    requires Eval(Expand(r, mb, ms), buffers, scalars, g) == Float(Meaning(r, load, convert, g))
    ensures Eval(Expand(Binary(op, l, r), nb, ns), buffers, scalars, g) == Float(Meaning(Binary(op, l, r), load, convert, g))
  {
    BinaryMeaning(op, l, r, load, convert, g);
    var a, b := Expand(l, nb, ns), Expand(r, mb, ms);
    var v, w := Meaning(l, load, convert, g), Meaning(r, load, convert, g);
    hide *;
    BinaryUnfold(op, l, r, nb, ns, mb, ms, "");
    match op
    case Arith(symbol) => ArithShader(symbol, a, b, v, w, buffers, scalars, g);
    case Compare(symbol) => CompareShader(symbol, a, b, v, w, buffers, scalars, g);
    case Logic(symbol) => LogicShader(symbol, a, b, v, w, buffers, scalars, g);
    case Hypot => HypotShader(a, b, v, w, buffers, scalars, g);
    case Pair(name) => PairShader(name, a, b, v, w, buffers, scalars, g);
  }

  /** What each operator means, and that the tables list it. */
  lemma BinaryMeaning<V, F>(op: BinaryOp, l: Fused<V>, r: Fused<V>, load: int -> F, convert: V -> F, g: Algebra<F>)
    requires KnownBinary(op)
    ensures op.Arith? ==> (
      && op.symbol in ARITH_SYMBOLS
      && Meaning(Binary(op, l, r), load, convert, g)
      == g.arith(op.symbol, Meaning(l, load, convert, g), Meaning(r, load, convert, g)))
    ensures op.Compare? ==> (
      && op.symbol in COMPARE_SYMBOLS
      && Meaning(Binary(op, l, r), load, convert, g)
      == g.fromBool(g.compare(op.symbol, Meaning(l, load, convert, g), Meaning(r, load, convert, g))))
    ensures op.Logic? ==> (
      && op.symbol in LOGIC_SYMBOLS
      && var v, w := Meaning(l, load, convert, g), Meaning(r, load, convert, g);
      Meaning(Binary(op, l, r), load, convert, g)
      == g.fromBool(if op.symbol == "&&" then g.truth(v) && g.truth(w)
                    else if op.symbol == "||" then g.truth(v) || g.truth(w)
                    else g.truth(v) != g.truth(w)))
    ensures op.Hypot? ==> (
      var v, w := Meaning(l, load, convert, g), Meaning(r, load, convert, g);
      Meaning(Binary(op, l, r), load, convert, g) == g.apply1("sqrt", g.arith("+", g.arith("*", v, v), g.arith("*", w, w))))
    ensures op.Pair? ==> (
      Meaning(Binary(op, l, r), load, convert, g)
      == g.apply2(op.name, Meaning(l, load, convert, g), Meaning(r, load, convert, g)))
  {
  }

  lemma ArithShader<F>(symbol: string, a: Shader, b: Shader, v: F, w: F, buffers: seq<F>, scalars: seq<F>, g: Algebra<F>)
    requires symbol in ARITH_SYMBOLS
    requires Eval(a, buffers, scalars, g) == Float(v) && Eval(b, buffers, scalars, g) == Float(w)
    ensures Eval(Infix(symbol, a, b), buffers, scalars, g) == Float(g.arith(symbol, v, w))
  {
    hide Eval;
    EvalOthers(symbol, a, b, "", buffers, scalars, g);
  }

  lemma PairShader<F>(name: string, a: Shader, b: Shader, v: F, w: F, buffers: seq<F>, scalars: seq<F>, g: Algebra<F>)
    requires Eval(a, buffers, scalars, g) == Float(v) && Eval(b, buffers, scalars, g) == Float(w)
    ensures Eval(Call(name, [a, b]), buffers, scalars, g) == Float(g.apply2(name, v, w))
  {
    hide Eval;
    EvalTwo(name, a, b, buffers, scalars, g);
  }

  lemma CompareShader<F>(symbol: string, a: Shader, b: Shader, v: F, w: F, buffers: seq<F>, scalars: seq<F>, g: Algebra<F>)
    requires symbol in COMPARE_SYMBOLS
    requires Eval(a, buffers, scalars, g) == Float(v) && Eval(b, buffers, scalars, g) == Float(w)
    ensures Eval(ToFloat(Infix(symbol, a, b)), buffers, scalars, g) == Float(g.fromBool(g.compare(symbol, v, w)))
  {
    hide Eval;
    assert symbol !in ARITH_SYMBOLS;
    EvalOthers(symbol, a, b, "", buffers, scalars, g);
    EvalOne("float", Infix(symbol, a, b), buffers, scalars, g);
  }

  lemma LogicShader<F>(symbol: string, a: Shader, b: Shader, v: F, w: F, buffers: seq<F>, scalars: seq<F>, g: Algebra<F>)
    requires symbol in LOGIC_SYMBOLS
    requires Eval(a, buffers, scalars, g) == Float(v) && Eval(b, buffers, scalars, g) == Float(w)
    ensures Eval(ToFloat(Infix(symbol, ToBool(a), ToBool(b))), buffers, scalars, g)
         == Float(g.fromBool(if symbol == "&&" then g.truth(v) && g.truth(w)
                             else if symbol == "||" then g.truth(v) || g.truth(w)
                             else g.truth(v) != g.truth(w)))
  {
    hide Eval;
    EvalOne("bool", a, buffers, scalars, g);
    EvalOne("bool", b, buffers, scalars, g);
    EvalOthers(symbol, ToBool(a), ToBool(b), "", buffers, scalars, g);
    EvalOne("float", Infix(symbol, ToBool(a), ToBool(b)), buffers, scalars, g);
  }

  lemma HypotShader<F>(a: Shader, b: Shader, v: F, w: F, buffers: seq<F>, scalars: seq<F>, g: Algebra<F>)
    requires Eval(a, buffers, scalars, g) == Float(v) && Eval(b, buffers, scalars, g) == Float(w)
    ensures Eval(Call("sqrt", [Infix("+", Infix("*", a, a), Infix("*", b, b))]), buffers, scalars, g)
         == Float(g.apply1("sqrt", g.arith("+", g.arith("*", v, v), g.arith("*", w, w))))
  {
    hide Eval;
    EvalOthers("*", a, a, "", buffers, scalars, g);
    EvalOthers("*", b, b, "", buffers, scalars, g);
    EvalOthers("+", Infix("*", a, a), Infix("*", b, b), "", buffers, scalars, g);
    EvalOne("sqrt", Infix("+", Infix("*", a, a), Infix("*", b, b)), buffers, scalars, g);
  }

  lemma FmaShader<F>(s: Shader, t: Shader, u: Shader, p: F, q: F, r: F, buffers: seq<F>, scalars: seq<F>, g: Algebra<F>)
    requires Eval(s, buffers, scalars, g) == Float(p) && Eval(t, buffers, scalars, g) == Float(q)
    requires Eval(u, buffers, scalars, g) == Float(r)
    ensures Eval(Call("fma", [s, t, u]), buffers, scalars, g) == Float(g.fma(p, q, r))
  {
    hide Eval;
    EvalThree("fma", s, t, u, buffers, scalars, g);
  }

  /** `select` takes its condition last and the value for false first. */
  lemma SelectShader<F>(s: Shader, t: Shader, u: Shader, p: F, q: F, r: F, buffers: seq<F>, scalars: seq<F>, g: Algebra<F>)
    requires Eval(s, buffers, scalars, g) == Float(p) && Eval(t, buffers, scalars, g) == Float(q)
    requires Eval(u, buffers, scalars, g) == Float(r)
    ensures Eval(Call("select", [s, t, ToBool(u)]), buffers, scalars, g) == Float(if g.truth(r) then q else p)
  {
    hide Eval;
    EvalOne("bool", u, buffers, scalars, g);
    EvalThree("select", s, t, ToBool(u), buffers, scalars, g);
  }

  // ----- appending -----

  /** Text followed by more text is the text on its own with the rest appended. */
  lemma {:induction false} TextAppend<V>(e: Fused<V>, nb: nat, ns: nat, rest: string)
    ensures Text(e, nb, ns, rest) == Text(e, nb, ns, "") + rest
    decreases e, 2
  {
    match e
    case Tensor(_) =>
    case Scalar(_) =>
    case Unary(_, _) => UnaryAppend(e, nb, ns, rest);
    case Binary(_, _, _) => BinaryAppend(e, nb, ns, rest);
    case Ternary(_, _, _, _) => TernaryAppend(e, nb, ns, rest);
  }

  /** Both sides of an append, for text in the middle of other text. */
  lemma {:induction false} Middle<V>(e: Fused<V>, nb: nat, ns: nat, tail: string, rest: string)
    ensures Text(e, nb, ns, tail + rest) == Text(e, nb, ns, tail) + rest
    decreases e, 3
  {
    TextAppend(e, nb, ns, tail + rest);
    TextAppend(e, nb, ns, tail);
    assert Text(e, nb, ns, "") + (tail + rest) == Text(e, nb, ns, "") + tail + rest;
  }

  lemma {:induction false} UnaryAppend<V>(e: Fused<V>, nb: nat, ns: nat, rest: string)
    requires e.Unary?
    ensures UnaryText(e, nb, ns, rest) == UnaryText(e, nb, ns, "") + rest
    decreases e, 1
  {
    hide Text;
    var x := e.x;
    assert forall a: string, b: string :: a + "" + b == a + b;
    match e.op1
    case Neg => Middle(x, nb, ns, "))", rest); assert "))" + "" == "))";
    case Lnot => Middle(x, nb, ns, "))", rest); assert "))" + "" == "))";
    case Sqr =>
      Middle(x, nb, ns, ")", rest);
      Middle(x, nb, ns, "*" + Text(x, nb, ns, ")"), rest);
      assert ")" + "" == ")" && "*" + (Text(x, nb, ns, ")") + rest) == "*" + Text(x, nb, ns, ")") + rest;
    case Expm1 => Middle(x, nb, ns, ")-1.0)", rest); assert ")-1.0)" + "" == ")-1.0)";
    case Log1p => Middle(x, nb, ns, "))", rest); assert "))" + "" == "))";
    case Cbrt =>
      Middle(x, nb, ns, ")", rest);
      Middle(x, nb, ns, "),0.3333333333333333)," + Text(x, nb, ns, ")"), rest);
      assert ")" + "" == ")";
      assert "),0.3333333333333333)," + (Text(x, nb, ns, ")") + rest) == "),0.3333333333333333)," + Text(x, nb, ns, ")") + rest;
    case Named(_) => Middle(x, nb, ns, ")", rest); assert ")" + "" == ")";
  }

  lemma {:induction false} BinaryAppend<V>(e: Fused<V>, nb: nat, ns: nat, rest: string)
    requires e.Binary?
    ensures BinaryText(e, nb, ns, rest) == BinaryText(e, nb, ns, "") + rest
    decreases e, 1
  {
    hide Text;
    var l, r := e.l, e.r;
    var mb, ms := nb + |Tensors(l)|, ns + |Scalars(l)|;
    match e.op2
    case Arith(symbol) => TwoAppend(e, l, r, nb, ns, mb, ms, symbol, ")", rest);
    case Compare(symbol) => TwoAppend(e, l, r, nb, ns, mb, ms, symbol, ")", rest);
    case Logic(symbol) => TwoAppend(e, l, r, nb, ns, mb, ms, ")" + symbol + "bool(", "))", rest);
    case Hypot =>
      var w := Text(r, mb, ms, "*" + Text(r, mb, ms, "))"));
      TwoAppend(e, r, r, mb, ms, mb, ms, "*", "))", rest);
      Middle(l, nb, ns, ")+(" + w, rest);
      assert ")+(" + (w + rest) == ")+(" + w + rest;
      Middle(l, nb, ns, "*" + Text(l, nb, ns, ")+(" + w), rest);
      assert "*" + (Text(l, nb, ns, ")+(" + w) + rest) == "*" + Text(l, nb, ns, ")+(" + w) + rest;
    case Pair(_) => TwoAppend(e, l, r, nb, ns, mb, ms, ",", ")", rest);
  }

  lemma {:induction false} TwoAppend<V>(e: Fused<V>, l: Fused<V>, r: Fused<V>, nb: nat, ns: nat, mb: nat, ms: nat,
                                           middle: string, end: string, rest: string)
    requires e.Binary? && (l == e.l || l == e.r) && r == e.r
    ensures end + "" == end
    ensures Text(l, nb, ns, middle + Text(r, mb, ms, end + rest)) == Text(l, nb, ns, middle + Text(r, mb, ms, end)) + rest
    decreases e, 0
  {
    Middle(r, mb, ms, end, rest);
    Middle(l, nb, ns, middle + Text(r, mb, ms, end), rest);
    assert middle + (Text(r, mb, ms, end) + rest) == middle + Text(r, mb, ms, end) + rest;
  }

  lemma {:induction false} TernaryAppend<V>(e: Fused<V>, nb: nat, ns: nat, rest: string)
    requires e.Ternary?
    ensures TernaryText(e, nb, ns, rest) == TernaryText(e, nb, ns, "") + rest
    decreases e, 1
  {
    var (x, y, z) := Parts(e.op3, e.a, e.b, e.c);
    var mb, ms := nb + |Tensors(x)|, ns + |Scalars(x)|;
    var kb, ks := mb + |Tensors(y)|, ms + |Scalars(y)|;
    var pre := if e.op3.Fma? then "fma(" else "select(";
    var middle := if e.op3.Fma? then "," else ",bool(";
    var end := if e.op3.Fma? then ")" else "))";
    assert TernaryText(e, nb, ns, rest) == pre + Text(x, nb, ns, "," + Text(y, mb, ms, middle + Text(z, kb, ks, end + rest)));
    assert TernaryText(e, nb, ns, "") == pre + Text(x, nb, ns, "," + Text(y, mb, ms, middle + Text(z, kb, ks, end + "")));
    hide *;
    var v := Text(z, kb, ks, end);
    Attach(end, "", rest);
    Middle(z, kb, ks, end, rest);
    Attach(middle, v, rest);
    Middle(y, mb, ms, middle + v, rest);
    var u := Text(y, mb, ms, middle + v);
    Attach(",", u, rest);
    Middle(x, nb, ns, "," + u, rest);
    Attach(pre, Text(x, nb, ns, "," + u), rest);
  }

  lemma Attach(a: string, b: string, rest: string)
    ensures a + (b + rest) == a + b + rest && a + "" == a
  {
  }
}
