/**
 * The Metal emitter (expressions_evaluator_metal.h): the text it writes for an expression, the slots it
 * hands out, and what the text means when it is read back.
 */
module MetalFuse {
  import opened ShaderText

  const MAX_SLOTS: nat := 29
  const MAX_BUFFER_INDEX: nat := 30

  datatype UnaryOp = Neg | Lnot | Sqr | Expm1 | Log1p | Cbrt | Named(name: string)
  datatype BinaryOp = Arith(symbol: string) | Compare(symbol: string) | Logic(symbol: string) | Hypot | Pair(name: string)
  datatype TernaryOp = Fma | IfElse

  /** A fusable expression; `V` is what a scalar leaf holds, tensors are known by the pointer to their data. */
  datatype Fused<V> =
    | Tensor(data: int)
    | Scalar(value: V)
    | Unary(op1: UnaryOp, x: Fused<V>)
    | Binary(op2: BinaryOp, l: Fused<V>, r: Fused<V>)
    | Ternary(op3: TernaryOp, a: Fused<V>, b: Fused<V>, c: Fused<V>)

  const UNARY_NAMES: set<string> :=
    {"fabs", "floor", "ceil", "trunc", "sqrt", "exp", "exp2", "log", "log2", "log10", "sin", "cos", "tan", "asin", "acos",
     "atan", "sinh", "cosh", "tanh", "asinh", "acosh", "atanh", "rsqrt"}
  const PAIR_NAMES: set<string> := {"min", "max", "pow", "copysign"}
  const ARITH_SYMBOLS: set<string> := {"+", "-", "*", "/"}
  const COMPARE_SYMBOLS: set<string> := {">", "<", ">=", "<=", "==", "!="}
  const LOGIC_SYMBOLS: set<string> := {"&&", "||", "!="}

  /** Only operators the emitter knows. */
  predicate Known<V>(e: Fused<V>) {
    match e
    case Tensor(_) => true
    case Scalar(_) => true
    case Unary(op, x) => (op.Named? ==> op.name in UNARY_NAMES) && Known(x)
    case Binary(op, l, r) => KnownBinary(op) && Known(l) && Known(r)
    case Ternary(_, a, b, c) => Known(a) && Known(b) && Known(c)
  }

  predicate KnownBinary(op: BinaryOp) {
    && (op.Arith? ==> op.symbol in ARITH_SYMBOLS) && (op.Compare? ==> op.symbol in COMPARE_SYMBOLS)
    && (op.Logic? ==> op.symbol in LOGIC_SYMBOLS) && (op.Pair? ==> op.name in PAIR_NAMES)
  }

  /** The operators the emitter has a name or a symbol for, one by one. */
  lemma KnownOperators(op1: UnaryOp, op2: BinaryOp)
    ensures Known(Unary(op1, Scalar(0))) <==> !op1.Named? || op1.name in [
              "fabs", "floor", "ceil", "trunc", "sqrt", "exp", "exp2", "log", "log2", "log10", "sin", "cos", "tan",
              "asin", "acos", "atan", "sinh", "cosh", "tanh", "asinh", "acosh", "atanh", "rsqrt"]
    ensures Known(Binary(op2, Scalar(0), Scalar(0))) <==> match op2
              case Arith(symbol) => symbol in ["+", "-", "*", "/"]
              case Compare(symbol) => symbol in [">", "<", ">=", "<=", "==", "!="]
              case Logic(symbol) => symbol in ["&&", "||", "!="]
              case Pair(name) => name in ["min", "max", "pow", "copysign"]
              case Hypot => true
  {
  }

  // ----- slots -----

  /** Operands in the order the emitter visits them: the three-way choice is written last operand first. */
  function Parts<V>(op: TernaryOp, a: Fused<V>, b: Fused<V>, c: Fused<V>): (Fused<V>, Fused<V>, Fused<V>) {
    if op.IfElse? then (c, b, a) else (a, b, c)
  }

  function Tensors<V>(e: Fused<V>): seq<int> {
    match e
    case Tensor(data) => [data]
    case Scalar(_) => []
    case Unary(_, x) => Tensors(x)
    case Binary(_, l, r) => Tensors(l) + Tensors(r)
    case Ternary(op, a, b, c) => var (x, y, z) := Parts(op, a, b, c); Tensors(x) + Tensors(y) + Tensors(z)
  }

  function Scalars<V>(e: Fused<V>): seq<V> {
    match e
    case Tensor(_) => []
    case Scalar(value) => [value]
    case Unary(_, x) => Scalars(x)
    case Binary(_, l, r) => Scalars(l) + Scalars(r)
    case Ternary(op, a, b, c) => var (x, y, z) := Parts(op, a, b, c); Scalars(x) + Scalars(y) + Scalars(z)
  }

  // ----- the text -----

  /** The text of `e` followed by `rest`, when `nb` buffers and `ns` scalars are already taken. */
  function Text<V>(e: Fused<V>, nb: nat, ns: nat, rest: string): string
    decreases e, 1
  {
    match e
    case Tensor(_) => "in" + Digits(nb) + "[tid]" + rest
    case Scalar(_) => "c" + Digits(ns) + rest
    case Unary(_, _) => UnaryText(e, nb, ns, rest)
    case Binary(_, _, _) => BinaryText(e, nb, ns, rest)
    case Ternary(_, _, _, _) => TernaryText(e, nb, ns, rest)
  }

  function UnaryText<V>(e: Fused<V>, nb: nat, ns: nat, rest: string): string
    requires e.Unary?
    decreases e, 0
  {
    match e.op1
    case Neg => "(-(" + Text(e.x, nb, ns, "))" + rest)
    case Lnot => "float(!bool(" + Text(e.x, nb, ns, "))" + rest)
    case Sqr => "(" + Text(e.x, nb, ns, "*" + Text(e.x, nb, ns, ")" + rest))
    case Expm1 => "(exp(" + Text(e.x, nb, ns, ")-1.0)" + rest)
    case Log1p => "log(1.0+(" + Text(e.x, nb, ns, "))" + rest)
    case Cbrt => "copysign(pow(fabs(" + Text(e.x, nb, ns, "),0.3333333333333333)," + Text(e.x, nb, ns, ")" + rest))
    case Named(name) => name + "(" + Text(e.x, nb, ns, ")" + rest)
  }

  function BinaryText<V>(e: Fused<V>, nb: nat, ns: nat, rest: string): string
    requires e.Binary?
    decreases e, 0
  {
    var mb, ms := nb + |Tensors(e.l)|, ns + |Scalars(e.l)|;
    match e.op2
    case Arith(symbol) => "(" + Text(e.l, nb, ns, symbol + Text(e.r, mb, ms, ")" + rest))
    case Compare(symbol) => "float(" + Text(e.l, nb, ns, symbol + Text(e.r, mb, ms, ")" + rest))
    case Logic(symbol) => "float(bool(" + Text(e.l, nb, ns, ")" + symbol + "bool(" + Text(e.r, mb, ms, "))" + rest))
    case Hypot =>
      "sqrt((" + Text(e.l, nb, ns, "*" + Text(e.l, nb, ns, ")+(" + Text(e.r, mb, ms, "*" + Text(e.r, mb, ms, "))" + rest))))
    case Pair(name) => name + "(" + Text(e.l, nb, ns, "," + Text(e.r, mb, ms, ")" + rest))
  }

  function TernaryText<V>(e: Fused<V>, nb: nat, ns: nat, rest: string): string
    requires e.Ternary?
    decreases e, 0
  {
    var (x, y, _) := Parts(e.op3, e.a, e.b, e.c);
    var mb, ms := nb + |Tensors(x)|, ns + |Scalars(x)|;
    var kb, ks := mb + |Tensors(y)|, ms + |Scalars(y)|;
    match e.op3
    case Fma => "fma(" + Text(e.a, nb, ns, "," + Text(e.b, mb, ms, "," + Text(e.c, kb, ks, ")" + rest)))
    case IfElse => "select(" + Text(e.c, nb, ns, "," + Text(e.b, mb, ms, ",bool(" + Text(e.a, kb, ks, "))" + rest)))
  }

  // ----- the tree the text stands for -----

  function ToFloat(x: Shader): Shader {
    Call("float", [x])
  }

  function ToBool(x: Shader): Shader {
    Call("bool", [x])
  }

  /** The shader expression for `e`: the derived operators written out, the arguments of `select` in its order. */
  function Expand<V>(e: Fused<V>, nb: nat, ns: nat): Shader {
    match e
    case Tensor(_) => Buffer(nb)
    case Scalar(_) => Constant(ns)
    case Unary(op, x) =>
      var s := Expand(x, nb, ns);
      (match op
       case Neg => Minus(s)
       case Lnot => ToFloat(Not(ToBool(s)))
       case Sqr => Infix("*", s, s)
       case Expm1 => Infix("-", Call("exp", [s]), Literal("1.0"))
       case Log1p => Call("log", [Infix("+", Literal("1.0"), s)])
       case Cbrt => Call("copysign", [Call("pow", [Call("fabs", [s]), Literal("0.3333333333333333")]), s])
       case Named(name) => Call(name, [s]))
    case Binary(op, l, r) =>
      var a, b := Expand(l, nb, ns), Expand(r, nb + |Tensors(l)|, ns + |Scalars(l)|);
      (match op
       case Arith(symbol) => Infix(symbol, a, b)
       case Compare(symbol) => ToFloat(Infix(symbol, a, b))
       case Logic(symbol) => ToFloat(Infix(symbol, ToBool(a), ToBool(b)))
       case Hypot => Call("sqrt", [Infix("+", Infix("*", a, a), Infix("*", b, b))])
       case Pair(name) => Call(name, [a, b]))
    case Ternary(op, a, b, c) =>
      var (x, y, z) := Parts(op, a, b, c);
      var mb, ms := nb + |Tensors(x)|, ns + |Scalars(x)|;
      var kb, ks := mb + |Tensors(y)|, ms + |Scalars(y)|;
      (match op
       case Fma => Call("fma", [Expand(a, nb, ns), Expand(b, mb, ms), Expand(c, kb, ks)])
       case IfElse => Call("select", [Expand(c, nb, ns), Expand(b, mb, ms), ToBool(Expand(a, kb, ks))]))
  }

  // ----- reading the text back -----

  lemma Parenthesised(t: string, x: Shader, rest: string)
    requires ParseExpr(t) == Got(x, ")" + rest)
    ensures ParsePrimary("(" + t) == Got(x, rest)
  {
    ParensParse(t);
    assert (")" + rest)[1..] == rest;
  }

  lemma CalledOne(name: string, t: string, x: Shader, rest: string)
    requires IsName(name) && ParseExpr(t) == Got(x, ")" + rest)
    ensures ParsePrimary(name + "(" + t) == Got(Call(name, [x]), rest)
  {
    LastArgument(t);
    CallParses(name, t);
    assert (")" + rest)[1..] == rest;
  }

  lemma CalledTwo(name: string, t: string, x: Shader, u: string, y: Shader, rest: string)
    requires IsName(name) && ParseExpr(t) == Got(x, "," + u) && ParseExpr(u) == Got(y, ")" + rest)
    ensures ParsePrimary(name + "(" + t) == Got(Call(name, [x, y]), rest)
  {
    LastArgument(u);
    NextArgument(t, u);
    CallParses(name, t);
    assert (")" + rest)[1..] == rest && [x] + [y] == [x, y];
  }

  lemma CalledThree(name: string, t: string, x: Shader, u: string, y: Shader, v: string, z: Shader, rest: string)
    requires IsName(name) && ParseExpr(t) == Got(x, "," + u) && ParseExpr(u) == Got(y, "," + v) && ParseExpr(v) == Got(z, ")" + rest)
    ensures ParsePrimary(name + "(" + t) == Got(Call(name, [x, y, z]), rest)
  {
    LastArgument(v);
    NextArgument(u, v);
    NextArgument(t, u);
    CallParses(name, t);
    assert (")" + rest)[1..] == rest && [x] + ([y] + [z]) == [x, y, z];
  }

  lemma Alone(t: string, x: Shader, rest: string)
    requires ParsePrimary(t) == Got(x, rest) && Closes(rest)
    ensures ParseExpr(t) == Got(x, rest)
  {
    OperandAlone(t);
  }

  lemma Between(t: string, x: Shader, symbol: string, u: string, y: Shader, rest: string)
    requires ParsePrimary(t) == Got(x, symbol + u) && ParsePrimary(u) == Got(y, rest)
    requires |symbol| > 0 && Operator(symbol + u) == symbol
    ensures ParseExpr(t) == Got(Infix(symbol, x, y), rest)
  {
    OperandsJoined(t, symbol, u);
  }

  /** Text an operand can start with. */
  predicate Starts(t: string) {
    |t| > 0 && (t[0] == '(' || IsWordChar(t[0]))
  }

  lemma SymbolStands(symbol: string, t: string)
    requires symbol in ARITH_SYMBOLS + COMPARE_SYMBOLS + LOGIC_SYMBOLS && Starts(t)
    ensures |symbol| > 0 && Operator(symbol + t) == symbol && Ends(symbol + t)
  {
    assert (symbol + t)[..|symbol|] == symbol;
    assert |symbol| == 1 ==> (symbol + t)[..2] == symbol + [t[0]];
    assert |symbol| == 1 ==> (symbol + t)[1] == t[0];
  }

  /** Two leading letters other than `in` make a word a name. */
  lemma MakesName(w: string)
    requires |w| >= 2 && AllWord(w) && !IsDigit(w[0]) && !IsDigit(w[1]) && !(w[0] == 'i' && w[1] == 'n')
    ensures IsName(w)
  {
    assert w[1..][0] == w[1];
  }

  lemma WordsFrom(w: string, k: nat)
    requires k <= |w| && forall i :: k <= i < |w| ==> IsWordChar(w[i])
    ensures AllWord(w[k..])
    decreases |w| - k
  {
    if k < |w| {
      WordsFrom(w, k + 1);
      assert w[k..][1..] == w[k + 1..];
    }
  }

  lemma Lowercase(w: string)
    requires |w| >= 2 && (forall i :: 0 <= i < |w| ==> IsWordChar(w[i]))
    requires !IsDigit(w[0]) && !IsDigit(w[1]) && !(w[0] == 'i' && w[1] == 'n')
    ensures IsName(w)
  {
    WordsFrom(w, 0);
    assert w[0..] == w;
    MakesName(w);
  }

  lemma PlainNames()
    ensures IsName("float") && IsName("bool") && IsName("exp") && IsName("log") && IsName("sqrt")
    ensures IsName("copysign") && IsName("pow") && IsName("fabs") && IsName("fma") && IsName("select")
  {
    hide IsName;
    Lowercase("float");
    Lowercase("bool");
    Lowercase("exp");
    Lowercase("log");
    Lowercase("sqrt");
    Lowercase("copysign");
    Lowercase("pow");
    Lowercase("fabs");
    Lowercase("fma");
    Lowercase("select");
  }

  /** A call's opening is its name and a parenthesis. */
  lemma Openings()
    ensures "float" + "(" == "float("
    ensures "bool" + "(" == "bool("
    ensures "exp" + "(" == "exp("
    ensures "log" + "(" == "log("
    ensures "sqrt" + "(" == "sqrt("
    ensures "copysign" + "(" == "copysign("
    ensures "pow" + "(" == "pow("
    ensures "fabs" + "(" == "fabs("
    ensures "fma" + "(" == "fma("
    ensures "select" + "(" == "select("
  {
  }

  lemma TableNames(w: string)
    requires w in UNARY_NAMES || w in PAIR_NAMES
    ensures IsName(w)
  {
    hide IsName;
    Lowercase(w);
  }

  /** What is proved of the text of an expression: it reads back as the shader expression for it. */
  ghost predicate ReadsBack<V>(e: Fused<V>, nb: nat, ns: nat, rest: string) {
    Starts(Text(e, nb, ns, rest)) && ParsePrimary(Text(e, nb, ns, rest)) == Got(Expand(e, nb, ns), rest)
  }

  lemma NameStarts(name: string, t: string)
    requires IsName(name)
    ensures Starts(name + "(" + t)
  {
    assert (name + "(" + t)[0] == name[0];
  }

  lemma ReadsAlone<V>(e: Fused<V>, nb: nat, ns: nat, rest: string)
    requires ReadsBack(e, nb, ns, rest) && Closes(rest)
    ensures ParseExpr(Text(e, nb, ns, rest)) == Got(Expand(e, nb, ns), rest)
  {
    Alone(Text(e, nb, ns, rest), Expand(e, nb, ns), rest);
  }

  lemma ReadsPair<V>(e: Fused<V>, nb: nat, ns: nat, symbol: string, d: Fused<V>, mb: nat, ms: nat, rest: string)
    requires symbol in ARITH_SYMBOLS + COMPARE_SYMBOLS + LOGIC_SYMBOLS
    requires ReadsBack(e, nb, ns, symbol + Text(d, mb, ms, rest)) && ReadsBack(d, mb, ms, rest)
    ensures ParseExpr(Text(e, nb, ns, symbol + Text(d, mb, ms, rest)))
         == Got(Infix(symbol, Expand(e, nb, ns), Expand(d, mb, ms)), rest)
  {
    var u := Text(d, mb, ms, rest);
    SymbolStands(symbol, u);
    Between(Text(e, nb, ns, symbol + u), Expand(e, nb, ns), symbol, u, Expand(d, mb, ms), rest);
  }

  /** A call with one expression for argument. */
  lemma ReadsCall<V>(name: string, e: Fused<V>, nb: nat, ns: nat, rest: string)
    requires IsName(name) && ReadsBack(e, nb, ns, ")" + rest)
    ensures ParsePrimary(name + "(" + Text(e, nb, ns, ")" + rest)) == Got(Call(name, [Expand(e, nb, ns)]), rest)
  {
    ReadsAlone(e, nb, ns, ")" + rest);
    CalledOne(name, Text(e, nb, ns, ")" + rest), Expand(e, nb, ns), rest);
  }

  lemma NegParses<V>(x: Fused<V>, nb: nat, ns: nat, rest: string)
    requires ReadsBack(x, nb, ns, "))" + rest)
    ensures ReadsBack(Unary(Neg, x), nb, ns, rest)
  {
    hide ParsePrimary, ParseExpr, ParseArgs, Text;
    var t, s := Text(x, nb, ns, "))" + rest), Expand(x, nb, ns);
    assert "))" + rest == ")" + (")" + rest);
    ReadsAlone(x, nb, ns, "))" + rest);
    Parenthesised(t, s, ")" + rest);
    PrefixParses("(" + t);
    Alone("-" + ("(" + t), Minus(s), ")" + rest);
    Parenthesised("-" + ("(" + t), Minus(s), rest);
    assert "(-(" + t == "(" + ("-" + ("(" + t));
    TextUnfold(Unary(Neg, x), nb, ns, rest);
  }

  lemma LnotParses<V>(x: Fused<V>, nb: nat, ns: nat, rest: string)
    requires ReadsBack(x, nb, ns, "))" + rest)
    ensures ReadsBack(Unary(Lnot, x), nb, ns, rest)
  {
    PlainNames();
    Openings();
    hide ParsePrimary, ParseExpr, ParseArgs, Text, IsName;
    var t, s := Text(x, nb, ns, "))" + rest), Expand(x, nb, ns);
    assert "))" + rest == ")" + (")" + rest);
    ReadsCall("bool", x, nb, ns, ")" + rest);
    PrefixParses("bool(" + t);
    Alone("!" + ("bool(" + t), Not(ToBool(s)), ")" + rest);
    CalledOne("float", "!" + ("bool(" + t), Not(ToBool(s)), rest);
    assert "float(!bool(" + t == "float(" + ("!" + ("bool(" + t));
    TextUnfold(Unary(Lnot, x), nb, ns, rest);
  }

  lemma SqrParses<V>(x: Fused<V>, nb: nat, ns: nat, rest: string)
    requires ReadsBack(x, nb, ns, "*" + Text(x, nb, ns, ")" + rest)) && ReadsBack(x, nb, ns, ")" + rest)
    ensures ReadsBack(Unary(Sqr, x), nb, ns, rest)
  {
    hide ParsePrimary, ParseExpr, ParseArgs, Text;
    ReadsPair(x, nb, ns, "*", x, nb, ns, ")" + rest);
    var s := Expand(x, nb, ns);
    Parenthesised(Text(x, nb, ns, "*" + Text(x, nb, ns, ")" + rest)), Infix("*", s, s), rest);
    TextUnfold(Unary(Sqr, x), nb, ns, rest);
  }

  lemma Expm1Parses<V>(x: Fused<V>, nb: nat, ns: nat, rest: string)
    requires ReadsBack(x, nb, ns, ")-1.0)" + rest)
    ensures ReadsBack(Unary(Expm1, x), nb, ns, rest)
  {
    PlainNames();
    Openings();
    OneIsWord();
    hide ParsePrimary, ParseExpr, ParseArgs, Text, IsName, AllWord;
    var t, one := Text(x, nb, ns, ")-1.0)" + rest), "1.0" + (")" + rest);
    assert ")-1.0)" + rest == ")" + ("-" + one);
    ReadsCall("exp", x, nb, ns, "-" + one);
    LiteralParses("1.0", ")" + rest);
    SymbolStands("-", one);
    var s := Call("exp", [Expand(x, nb, ns)]);
    Between("exp(" + t, s, "-", one, Literal("1.0"), ")" + rest);
    Parenthesised("exp(" + t, Infix("-", s, Literal("1.0")), rest);
    assert "(exp(" + t == "(" + ("exp(" + t);
    TextUnfold(Unary(Expm1, x), nb, ns, rest);
  }

  lemma OneIsWord()
    ensures AllWord("1.0") && AllWord("0.3333333333333333")
  {
    WordsFrom("1.0", 0);
    WordsFrom("0.3333333333333333", 0);
    assert "1.0"[0..] == "1.0" && "0.3333333333333333"[0..] == "0.3333333333333333";
  }

  lemma Log1pParses<V>(x: Fused<V>, nb: nat, ns: nat, rest: string)
    requires ReadsBack(x, nb, ns, "))" + rest)
    ensures ReadsBack(Unary(Log1p, x), nb, ns, rest)
  {
    PlainNames();
    Openings();
    OneIsWord();
    hide ParsePrimary, ParseExpr, ParseArgs, Text, IsName, AllWord;
    var t, s := Text(x, nb, ns, "))" + rest), Expand(x, nb, ns);
    assert "))" + rest == ")" + (")" + rest);
    ReadsAlone(x, nb, ns, "))" + rest);
    Parenthesised(t, s, ")" + rest);
    SymbolStands("+", "(" + t);
    LiteralParses("1.0", "+" + ("(" + t));
    Between("1.0" + ("+" + ("(" + t)), Literal("1.0"), "+", "(" + t, s, ")" + rest);
    CalledOne("log", "1.0" + ("+" + ("(" + t)), Infix("+", Literal("1.0"), s), rest);
    assert "log(1.0+(" + t == "log(" + ("1.0" + ("+" + ("(" + t)));
    TextUnfold(Unary(Log1p, x), nb, ns, rest);
  }

  lemma CbrtParses<V>(x: Fused<V>, nb: nat, ns: nat, rest: string)
    requires ReadsBack(x, nb, ns, ")" + rest)
    requires ReadsBack(x, nb, ns, "),0.3333333333333333)," + Text(x, nb, ns, ")" + rest))
    ensures ReadsBack(Unary(Cbrt, x), nb, ns, rest)
  {
    CbrtUnfold(x, nb, ns, rest);
    hide *;
    PlainNames();
    Openings();
    OneIsWord();
    var u, s, third := Text(x, nb, ns, ")" + rest), Expand(x, nb, ns), Literal("0.3333333333333333");
    var t := Text(x, nb, ns, "),0.3333333333333333)," + u);
    var lit := "0.3333333333333333" + (")" + ("," + u));
    ThirdStands(u);
    Closings(rest, lit);
    Closings("," + u, u);
    ReadsCall("fabs", x, nb, ns, "," + lit);
    var abs := Call("fabs", [s]);
    Alone("fabs(" + t, abs, "," + lit);
    LiteralParses("0.3333333333333333", ")" + ("," + u));
    Alone(lit, third, ")" + ("," + u));
    CalledTwo("pow", "fabs(" + t, abs, lit, third, "," + u);
    var root := Call("pow", [abs, third]);
    Alone("pow(" + ("fabs(" + t), root, "," + u);
    ReadsAlone(x, nb, ns, ")" + rest);
    CalledTwo("copysign", "pow(" + ("fabs(" + t), root, u, s, rest);
    NestedOpenings(t);
    OpeningsStart(t);
    MakesReadsBack(Unary(Cbrt, x), nb, ns, rest, "copysign(pow(fabs(" + t, Call("copysign", [root, s]));
  }

  lemma CbrtUnfold<V>(x: Fused<V>, nb: nat, ns: nat, rest: string)
    ensures Text(Unary(Cbrt, x), nb, ns, rest)
         == "copysign(pow(fabs(" + Text(x, nb, ns, "),0.3333333333333333)," + Text(x, nb, ns, ")" + rest))
    ensures Expand(Unary(Cbrt, x), nb, ns)
         == var s := Expand(x, nb, ns); Call("copysign", [Call("pow", [Call("fabs", [s]), Literal("0.3333333333333333")]), s])
  {
    TextUnfold(Unary(Cbrt, x), nb, ns, rest);
    hide Text;
  }

  lemma ThirdStands(u: string)
    ensures "),0.3333333333333333)," + u == ")" + ("," + ("0.3333333333333333" + (")" + ("," + u))))
    ensures |"0.3333333333333333"| > 0 && IsDigit("0.3333333333333333"[0]) && Ends(")" + ("," + u))
  {
    var third := "0.3333333333333333";
    assert "),0.3333333333333333)," == ")," + third + "),";
  }

  lemma NamedParses<V>(name: string, x: Fused<V>, nb: nat, ns: nat, rest: string)
    requires IsName(name) && ReadsBack(x, nb, ns, ")" + rest)
    ensures ReadsBack(Unary(Named(name), x), nb, ns, rest)
  {
    hide ParsePrimary, ParseExpr, ParseArgs, Text, AllWord, Indexed;
    ReadsCall(name, x, nb, ns, rest);
    NameStarts(name, Text(x, nb, ns, ")" + rest));
    TextUnfold(Unary(Named(name), x), nb, ns, rest);
  }

  lemma TextUnfold<V>(e: Fused<V>, nb: nat, ns: nat, rest: string)
    ensures e.Unary? ==> Text(e, nb, ns, rest) == UnaryText(e, nb, ns, rest)
    ensures e.Binary? ==> Text(e, nb, ns, rest) == BinaryText(e, nb, ns, rest)
    ensures e.Ternary? ==> Text(e, nb, ns, rest) == TernaryText(e, nb, ns, rest)
  {
  }

  // ----- binary and ternary operators -----

  /** Enough for an expression's text to read back. */
  lemma MakesReadsBack<V>(e: Fused<V>, nb: nat, ns: nat, rest: string, text: string, s: Shader)
    requires Text(e, nb, ns, rest) == text && Expand(e, nb, ns) == s
    requires Starts(text) && ParsePrimary(text) == Got(s, rest)
    ensures ReadsBack(e, nb, ns, rest)
  {
    hide Text, Expand, Starts, ParsePrimary;
  }

  lemma StartsWith(prefix: string, t: string)
    requires |prefix| > 0 && (prefix[0] == '(' || IsWordChar(prefix[0]))
    ensures Starts(prefix + t)
  {
    assert (prefix + t)[0] == prefix[0];
  }

  lemma OpeningsStart(t: string)
    ensures Starts("(" + t) && Starts("float(" + t) && Starts("float(bool(" + t) && Starts("sqrt((" + t)
    ensures Starts("fma(" + t) && Starts("select(" + t) && Starts("copysign(pow(fabs(" + t)
  {
    hide Starts;
    StartsWith("(", t);
    StartsWith("float(", t);
    StartsWith("float(bool(", t);
    StartsWith("sqrt((", t);
    StartsWith("fma(", t);
    StartsWith("select(", t);
    StartsWith("copysign(pow(fabs(", t);
  }

  lemma NestedOpenings(t: string)
    ensures "float(bool(" + t == "float(" + ("bool(" + t)
    ensures "sqrt((" + t == "sqrt(" + ("(" + t)
    ensures "copysign(pow(fabs(" + t == "copysign(" + ("pow(" + ("fabs(" + t))
  {
  }

  /** The operators between operands, and the commas and parentheses around them, taken apart. */
  lemma Closings(rest: string, w: string)
    ensures "))" + rest == ")" + (")" + rest)
    ensures ")+(" + w == ")" + ("+" + ("(" + w))
    ensures ",bool(" + w == "," + ("bool(" + w)
    ensures Closes(")" + rest) && Closes("," + w) && Closes("))" + rest) && Closes(",bool(" + w)
  {
  }

  lemma BinaryUnfold<V>(op: BinaryOp, l: Fused<V>, r: Fused<V>, nb: nat, ns: nat, mb: nat, ms: nat, rest: string)
    requires mb == nb + |Tensors(l)| && ms == ns + |Scalars(l)|
    ensures op.Arith? ==> (
      && Text(Binary(op, l, r), nb, ns, rest) == "(" + Text(l, nb, ns, op.symbol + Text(r, mb, ms, ")" + rest))
      && Expand(Binary(op, l, r), nb, ns) == Infix(op.symbol, Expand(l, nb, ns), Expand(r, mb, ms)))
    ensures op.Compare? ==> (
      && Text(Binary(op, l, r), nb, ns, rest) == "float(" + Text(l, nb, ns, op.symbol + Text(r, mb, ms, ")" + rest))
      && Expand(Binary(op, l, r), nb, ns) == ToFloat(Infix(op.symbol, Expand(l, nb, ns), Expand(r, mb, ms))))
    ensures op.Logic? ==> (
      && Text(Binary(op, l, r), nb, ns, rest) == "float(bool(" + Text(l, nb, ns, ")" + op.symbol + "bool(" + Text(r, mb, ms, "))" + rest))
      && Expand(Binary(op, l, r), nb, ns) == ToFloat(Infix(op.symbol, ToBool(Expand(l, nb, ns)), ToBool(Expand(r, mb, ms)))))
    ensures op.Hypot? ==> (
      && Text(Binary(op, l, r), nb, ns, rest)
      == "sqrt((" + Text(l, nb, ns, "*" + Text(l, nb, ns, ")+(" + Text(r, mb, ms, "*" + Text(r, mb, ms, "))" + rest))))
      && var a, b := Expand(l, nb, ns), Expand(r, mb, ms);
      Expand(Binary(op, l, r), nb, ns) == Call("sqrt", [Infix("+", Infix("*", a, a), Infix("*", b, b))]))
    ensures op.Pair? ==> (
      && Text(Binary(op, l, r), nb, ns, rest) == op.name + "(" + Text(l, nb, ns, "," + Text(r, mb, ms, ")" + rest))
      && Expand(Binary(op, l, r), nb, ns) == Call(op.name, [Expand(l, nb, ns), Expand(r, mb, ms)]))
  {
    TextUnfold(Binary(op, l, r), nb, ns, rest);
    hide Text, Tensors, Scalars;
  }

  lemma TernaryUnfold<V>(op: TernaryOp, a: Fused<V>, b: Fused<V>, c: Fused<V>, nb: nat, ns: nat,
                         mb: nat, ms: nat, kb: nat, ks: nat, rest: string)
    requires var (x, y, _) := Parts(op, a, b, c);
             mb == nb + |Tensors(x)| && ms == ns + |Scalars(x)| && kb == mb + |Tensors(y)| && ks == ms + |Scalars(y)|
    ensures op.Fma? ==> (
      && Text(Ternary(op, a, b, c), nb, ns, rest)
      == "fma(" + Text(a, nb, ns, "," + Text(b, mb, ms, "," + Text(c, kb, ks, ")" + rest)))
      && Expand(Ternary(op, a, b, c), nb, ns) == Call("fma", [Expand(a, nb, ns), Expand(b, mb, ms), Expand(c, kb, ks)]))
    ensures op.IfElse? ==> (
      && Text(Ternary(op, a, b, c), nb, ns, rest)
      == "select(" + Text(c, nb, ns, "," + Text(b, mb, ms, ",bool(" + Text(a, kb, ks, "))" + rest)))
      && Expand(Ternary(op, a, b, c), nb, ns)
      == Call("select", [Expand(c, nb, ns), Expand(b, mb, ms), ToBool(Expand(a, kb, ks))]))
  {
    TextUnfold(Ternary(op, a, b, c), nb, ns, rest);
    hide Text, Tensors, Scalars;
  }

  lemma StarStands()
    ensures "*" in ARITH_SYMBOLS + COMPARE_SYMBOLS + LOGIC_SYMBOLS && "+" in ARITH_SYMBOLS + COMPARE_SYMBOLS + LOGIC_SYMBOLS
  {
  }

  lemma ArithParses<V>(op: BinaryOp, l: Fused<V>, r: Fused<V>, nb: nat, ns: nat, mb: nat, ms: nat, rest: string)
    requires (op.Arith? && op.symbol in ARITH_SYMBOLS) || (op.Compare? && op.symbol in COMPARE_SYMBOLS)
    requires mb == nb + |Tensors(l)| && ms == ns + |Scalars(l)|
    requires ReadsBack(r, mb, ms, ")" + rest) && ReadsBack(l, nb, ns, op.symbol + Text(r, mb, ms, ")" + rest))
    ensures ReadsBack(Binary(op, l, r), nb, ns, rest)
  {
    assert op.symbol in ARITH_SYMBOLS + COMPARE_SYMBOLS + LOGIC_SYMBOLS;
    hide *;
    PlainNames();
    Openings();
    var t := Text(l, nb, ns, op.symbol + Text(r, mb, ms, ")" + rest));
    var s := Infix(op.symbol, Expand(l, nb, ns), Expand(r, mb, ms));
    ReadsPair(l, nb, ns, op.symbol, r, mb, ms, ")" + rest);
    BinaryUnfold(op, l, r, nb, ns, mb, ms, rest);
    OpeningsStart(t);
    if op.Arith? {
      Parenthesised(t, s, rest);
      MakesReadsBack(Binary(op, l, r), nb, ns, rest, "(" + t, s);
    } else {
      CalledOne("float", t, s, rest);
      FloatCall(s);
      MakesReadsBack(Binary(op, l, r), nb, ns, rest, "float(" + t, ToFloat(s));
    }
  }

  lemma FloatCall(s: Shader)
    ensures ToFloat(s) == Call("float", [s]) && ToBool(s) == Call("bool", [s])
  {
  }

  lemma LogicParses<V>(symbol: string, l: Fused<V>, r: Fused<V>, nb: nat, ns: nat, mb: nat, ms: nat, rest: string)
    requires symbol in LOGIC_SYMBOLS && mb == nb + |Tensors(l)| && ms == ns + |Scalars(l)|
    requires ReadsBack(r, mb, ms, "))" + rest)
    requires ReadsBack(l, nb, ns, ")" + symbol + "bool(" + Text(r, mb, ms, "))" + rest))
    ensures ReadsBack(Binary(Logic(symbol), l, r), nb, ns, rest)
  {
    assert symbol in ARITH_SYMBOLS + COMPARE_SYMBOLS + LOGIC_SYMBOLS;
    hide *;
    PlainNames();
    Openings();
    var u := Text(r, mb, ms, "))" + rest);
    var t := Text(l, nb, ns, ")" + symbol + "bool(" + u);
    Closings(rest, u);
    LogicMiddle(symbol, u);
    ReadsCall("bool", l, nb, ns, symbol + ("bool(" + u));
    ReadsCall("bool", r, mb, ms, ")" + rest);
    SymbolStands(symbol, "bool(" + u);
    FloatCall(Expand(l, nb, ns));
    FloatCall(Expand(r, mb, ms));
    var a, b := ToBool(Expand(l, nb, ns)), ToBool(Expand(r, mb, ms));
    Between("bool(" + t, a, symbol, "bool(" + u, b, ")" + rest);
    CalledOne("float", "bool(" + t, Infix(symbol, a, b), rest);
    NestedOpenings(t);
    FloatCall(Infix(symbol, a, b));
    BinaryUnfold(Logic(symbol), l, r, nb, ns, mb, ms, rest);
    OpeningsStart(t);
    MakesReadsBack(Binary(Logic(symbol), l, r), nb, ns, rest, "float(bool(" + t, ToFloat(Infix(symbol, a, b)));
  }

  lemma LogicMiddle(symbol: string, u: string)
    ensures ")" + symbol + "bool(" + u == ")" + (symbol + ("bool(" + u)) && Starts("bool(" + u)
  {
    StartsWith("bool(", u);
  }

  lemma HypotParses<V>(l: Fused<V>, r: Fused<V>, nb: nat, ns: nat, mb: nat, ms: nat, rest: string)
    requires mb == nb + |Tensors(l)| && ms == ns + |Scalars(l)|
    requires ReadsBack(r, mb, ms, "))" + rest) && ReadsBack(r, mb, ms, "*" + Text(r, mb, ms, "))" + rest))
    requires var w := Text(r, mb, ms, "*" + Text(r, mb, ms, "))" + rest));
             ReadsBack(l, nb, ns, ")+(" + w) && ReadsBack(l, nb, ns, "*" + Text(l, nb, ns, ")+(" + w))
    ensures ReadsBack(Binary(Hypot, l, r), nb, ns, rest)
  {
    hide *;
    StarStands();
    PlainNames();
    Openings();
    var w := Text(r, mb, ms, "*" + Text(r, mb, ms, "))" + rest));
    var t := Text(l, nb, ns, "*" + Text(l, nb, ns, ")+(" + w));
    var a, b := Expand(l, nb, ns), Expand(r, mb, ms);
    ReadsPair(l, nb, ns, "*", l, nb, ns, ")+(" + w);
    ReadsPair(r, mb, ms, "*", r, mb, ms, "))" + rest);
    Closings(rest, w);
    Parenthesised(t, Infix("*", a, a), "+" + ("(" + w));
    Parenthesised(w, Infix("*", b, b), ")" + rest);
    OpeningsStart(w);
    SymbolStands("+", "(" + w);
    Between("(" + t, Infix("*", a, a), "+", "(" + w, Infix("*", b, b), ")" + rest);
    var s := Infix("+", Infix("*", a, a), Infix("*", b, b));
    CalledOne("sqrt", "(" + t, s, rest);
    NestedOpenings(t);
    OpeningsStart(t);
    BinaryUnfold(Hypot, l, r, nb, ns, mb, ms, rest);
    MakesReadsBack(Binary(Hypot, l, r), nb, ns, rest, "sqrt((" + t, Call("sqrt", [s]));
  }

  lemma PairParses<V>(name: string, l: Fused<V>, r: Fused<V>, nb: nat, ns: nat, mb: nat, ms: nat, rest: string)
    requires IsName(name) && mb == nb + |Tensors(l)| && ms == ns + |Scalars(l)|
    requires ReadsBack(r, mb, ms, ")" + rest) && ReadsBack(l, nb, ns, "," + Text(r, mb, ms, ")" + rest))
    ensures ReadsBack(Binary(Pair(name), l, r), nb, ns, rest)
  {
    hide *;
    var u := Text(r, mb, ms, ")" + rest);
    var t := Text(l, nb, ns, "," + u);
    Closings(rest, u);
    ReadsAlone(l, nb, ns, "," + u);
    ReadsAlone(r, mb, ms, ")" + rest);
    CalledTwo(name, t, Expand(l, nb, ns), u, Expand(r, mb, ms), rest);
    NameStarts(name, t);
    BinaryUnfold(Pair(name), l, r, nb, ns, mb, ms, rest);
    MakesReadsBack(Binary(Pair(name), l, r), nb, ns, rest, name + "(" + t, Call(name, [Expand(l, nb, ns), Expand(r, mb, ms)]));
  }

  lemma FmaParses<V>(a: Fused<V>, b: Fused<V>, c: Fused<V>, nb: nat, ns: nat, mb: nat, ms: nat, kb: nat, ks: nat, rest: string)
    requires mb == nb + |Tensors(a)| && ms == ns + |Scalars(a)| && kb == mb + |Tensors(b)| && ks == ms + |Scalars(b)|
    requires ReadsBack(c, kb, ks, ")" + rest) && ReadsBack(b, mb, ms, "," + Text(c, kb, ks, ")" + rest))
    requires ReadsBack(a, nb, ns, "," + Text(b, mb, ms, "," + Text(c, kb, ks, ")" + rest)))
    ensures ReadsBack(Ternary(Fma, a, b, c), nb, ns, rest)
  {
    TernaryUnfold(Fma, a, b, c, nb, ns, mb, ms, kb, ks, rest);
    hide *;
    PlainNames();
    Openings();
    var v := Text(c, kb, ks, ")" + rest);
    var u := Text(b, mb, ms, "," + v);
    var t := Text(a, nb, ns, "," + u);
    Closings(rest, u);
    Closings(rest, v);
    ReadsAlone(a, nb, ns, "," + u);
    ReadsAlone(b, mb, ms, "," + v);
    ReadsAlone(c, kb, ks, ")" + rest);
    var x, y, z := Expand(a, nb, ns), Expand(b, mb, ms), Expand(c, kb, ks);
    CalledThree("fma", t, x, u, y, v, z, rest);
    OpeningsStart(t);
    MakesReadsBack(Ternary(Fma, a, b, c), nb, ns, rest, "fma(" + t, Call("fma", [x, y, z]));
  }

  lemma IfElseParses<V>(a: Fused<V>, b: Fused<V>, c: Fused<V>, nb: nat, ns: nat, mb: nat, ms: nat, kb: nat, ks: nat, rest: string)
    requires mb == nb + |Tensors(c)| && ms == ns + |Scalars(c)| && kb == mb + |Tensors(b)| && ks == ms + |Scalars(b)|
    requires ReadsBack(a, kb, ks, "))" + rest) && ReadsBack(b, mb, ms, ",bool(" + Text(a, kb, ks, "))" + rest))
    requires ReadsBack(c, nb, ns, "," + Text(b, mb, ms, ",bool(" + Text(a, kb, ks, "))" + rest)))
    ensures ReadsBack(Ternary(IfElse, a, b, c), nb, ns, rest)
  {
    TernaryUnfold(IfElse, a, b, c, nb, ns, mb, ms, kb, ks, rest);
    hide *;
    PlainNames();
    Openings();
    var w := Text(a, kb, ks, "))" + rest);
    var u := Text(b, mb, ms, ",bool(" + w);
    var t := Text(c, nb, ns, "," + u);
    Closings(rest, u);
    Closings(rest, w);
    ReadsCall("bool", a, kb, ks, ")" + rest);
    var x, y, z := Expand(c, nb, ns), Expand(b, mb, ms), ToBool(Expand(a, kb, ks));
    FloatCall(Expand(a, kb, ks));
    Alone("bool(" + w, z, ")" + rest);
    ReadsAlone(c, nb, ns, "," + u);
    ReadsAlone(b, mb, ms, ",bool(" + w);
    CalledThree("select", t, x, u, y, "bool(" + w, z, rest);
    OpeningsStart(t);
    MakesReadsBack(Ternary(IfElse, a, b, c), nb, ns, rest, "select(" + t, Call("select", [x, y, z]));
  }

  lemma SymbolEnds(symbol: string, t: string)
    requires symbol in ARITH_SYMBOLS + COMPARE_SYMBOLS + LOGIC_SYMBOLS
    ensures Ends(symbol + t)
  {
    assert (symbol + t)[0] == symbol[0];
  }

  /**
   * The text of any fusable expression, in any surroundings, reads back as its shader expression:
   * operands, slots and the order of arguments all survive the trip through text.
   */
  lemma {:induction false} TextReadsBack<V>(e: Fused<V>, nb: nat, ns: nat, rest: string)
    requires Known(e) && Ends(rest)
    ensures ReadsBack(e, nb, ns, rest)
    decreases e
  {
    hide ReadsBack, Text, IsName, ParsePrimary;
    match e
    case Tensor(_) => LeafReadsBack(e, nb, ns, rest);
    case Scalar(_) => LeafReadsBack(e, nb, ns, rest);
    case Unary(op, x) => UnaryReadsBack(e, nb, ns, rest);
    case Binary(op, l, r) => BinaryReadsBack(e, nb, ns, rest);
    case Ternary(op, a, b, c) => TernaryReadsBack(e, nb, ns, rest);
  }

  lemma LeafReadsBack<V>(e: Fused<V>, nb: nat, ns: nat, rest: string)
    requires (e.Tensor? || e.Scalar?) && Ends(rest)
    ensures ReadsBack(e, nb, ns, rest)
  {
    if e.Tensor? {
      BufferParses(nb, rest);
      assert Text(e, nb, ns, rest)[0] == 'i';
    } else {
      ConstantParses(ns, rest);
      assert Text(e, nb, ns, rest)[0] == 'c';
    }
    hide ParsePrimary;
  }

  lemma {:induction false} UnaryReadsBack<V>(e: Fused<V>, nb: nat, ns: nat, rest: string)
    requires e.Unary? && Known(e) && Ends(rest)
    ensures ReadsBack(e, nb, ns, rest)
    decreases e, 0
  {
    hide ReadsBack, Text, IsName, ParsePrimary;
    var x := e.x;
    match e.op1
    case Neg => TextReadsBack(x, nb, ns, "))" + rest); NegParses(x, nb, ns, rest);
    case Lnot => TextReadsBack(x, nb, ns, "))" + rest); LnotParses(x, nb, ns, rest);
    case Sqr =>
      TextReadsBack(x, nb, ns, ")" + rest);
      TextReadsBack(x, nb, ns, "*" + Text(x, nb, ns, ")" + rest));
      SqrParses(x, nb, ns, rest);
    case Expm1 => TextReadsBack(x, nb, ns, ")-1.0)" + rest); Expm1Parses(x, nb, ns, rest);
    case Log1p => TextReadsBack(x, nb, ns, "))" + rest); Log1pParses(x, nb, ns, rest);
    case Cbrt =>
      TextReadsBack(x, nb, ns, ")" + rest);
      TextReadsBack(x, nb, ns, "),0.3333333333333333)," + Text(x, nb, ns, ")" + rest));
      CbrtParses(x, nb, ns, rest);
    case Named(name) =>
      TableNames(name);
      TextReadsBack(x, nb, ns, ")" + rest);
      NamedParses(name, x, nb, ns, rest);
  }

  lemma {:induction false} BinaryReadsBack<V>(e: Fused<V>, nb: nat, ns: nat, rest: string)
    requires e.Binary? && Known(e) && Ends(rest)
    ensures ReadsBack(e, nb, ns, rest)
    decreases e, 0
  {
    hide ReadsBack, Text, IsName, ParsePrimary;
    var l, r := e.l, e.r;
    var mb, ms := nb + |Tensors(l)|, ns + |Scalars(l)|;
    match e.op2
    case Arith(symbol) =>
      TextReadsBack(r, mb, ms, ")" + rest);
      SymbolEnds(symbol, Text(r, mb, ms, ")" + rest));
      TextReadsBack(l, nb, ns, symbol + Text(r, mb, ms, ")" + rest));
      ArithParses(e.op2, l, r, nb, ns, mb, ms, rest);
    case Compare(symbol) =>
      TextReadsBack(r, mb, ms, ")" + rest);
      SymbolEnds(symbol, Text(r, mb, ms, ")" + rest));
      TextReadsBack(l, nb, ns, symbol + Text(r, mb, ms, ")" + rest));
      ArithParses(e.op2, l, r, nb, ns, mb, ms, rest);
    case Logic(symbol) =>
      TextReadsBack(r, mb, ms, "))" + rest);
      TextReadsBack(l, nb, ns, ")" + symbol + "bool(" + Text(r, mb, ms, "))" + rest));
      LogicParses(symbol, l, r, nb, ns, mb, ms, rest);
    case Hypot =>
      TextReadsBack(r, mb, ms, "))" + rest);
      var u := Text(r, mb, ms, "))" + rest);
      TextReadsBack(r, mb, ms, "*" + u);
      var w := Text(r, mb, ms, "*" + u);
      TextReadsBack(l, nb, ns, ")+(" + w);
      TextReadsBack(l, nb, ns, "*" + Text(l, nb, ns, ")+(" + w));
      HypotParses(l, r, nb, ns, mb, ms, rest);
    case Pair(name) =>
      TableNames(name);
      TextReadsBack(r, mb, ms, ")" + rest);
      TextReadsBack(l, nb, ns, "," + Text(r, mb, ms, ")" + rest));
      PairParses(name, l, r, nb, ns, mb, ms, rest);
  }

  lemma {:induction false} TernaryReadsBack<V>(e: Fused<V>, nb: nat, ns: nat, rest: string)
    requires e.Ternary? && Known(e) && Ends(rest)
    ensures ReadsBack(e, nb, ns, rest)
    decreases e, 0
  {
    hide ReadsBack, Text, IsName, ParsePrimary;
    var (x, y, z) := Parts(e.op3, e.a, e.b, e.c);
    var mb, ms := nb + |Tensors(x)|, ns + |Scalars(x)|;
    var kb, ks := mb + |Tensors(y)|, ms + |Scalars(y)|;
    match e.op3
    case Fma =>
      TextReadsBack(e.c, kb, ks, ")" + rest);
      TextReadsBack(e.b, mb, ms, "," + Text(e.c, kb, ks, ")" + rest));
      TextReadsBack(e.a, nb, ns, "," + Text(e.b, mb, ms, "," + Text(e.c, kb, ks, ")" + rest)));
      FmaParses(e.a, e.b, e.c, nb, ns, mb, ms, kb, ks, rest);
    case IfElse =>
      TextReadsBack(e.a, kb, ks, "))" + rest);
      TextReadsBack(e.b, mb, ms, ",bool(" + Text(e.a, kb, ks, "))" + rest));
      TextReadsBack(e.c, nb, ns, "," + Text(e.b, mb, ms, ",bool(" + Text(e.a, kb, ks, "))" + rest)));
      IfElseParses(e.a, e.b, e.c, nb, ns, mb, ms, kb, ks, rest);
  }
}
