/**
 * The state the Metal emitter fills while it walks an expression (expressions_evaluator_metal.h): the
 * text, the slot tables and the flag, and what they hold when the walk is over.
 */
module MetalState {
  import opened ShaderText
  import opened MetalFuse
  import opened MetalEmit

  /** The fields of the state at one moment. */
  datatype Snap<V> = Snap(body: string, buffers: seq<int>, scalars: seq<V>, ok: bool)

  /** Slot tables that are not over-full. */
  predicate Bounded<V>(s: Snap<V>) {
    |s.buffers| <= MAX_SLOTS && |s.scalars| <= MAX_SLOTS
  }

  /** Room is left for so many more operands. */
  predicate Room<V>(s: Snap<V>, tensors: nat, scalars: nat) {
    |s.buffers| + tensors <= MAX_SLOTS && |s.scalars| + scalars <= MAX_SLOTS
  }

  /**
   * From `s` to `t`, `text` was written and slots were handed to the operands; the flag says exactly
   * whether that went well, and what was written before is still there either way.
   */
  predicate Appends<V(==)>(s: Snap<V>, t: Snap<V>, text: string, tensors: seq<int>, scalars: seq<V>, known: bool) {
    && Bounded(t) && s.body <= t.body
    && (t.ok <==> (s.ok && known && Room(s, |tensors|, |scalars|)))
    && (t.ok ==> t == Snap(s.body + text, s.buffers + tensors, s.scalars + scalars, true))
  }

  /** The same, with the text cut off again and kept in `piece`. */
  predicate Saves<V(==)>(s: Snap<V>, t: Snap<V>, piece: string, text: string, tensors: seq<int>, scalars: seq<V>, known: bool) {
    && Bounded(t) && s.body == t.body
    && (t.ok <==> (s.ok && known && Room(s, |tensors|, |scalars|)))
    && (t.ok ==> (piece == text && t == Snap(s.body, s.buffers + tensors, s.scalars + scalars, true)))
  }

  /** What emitting `e` in state `s` amounts to. */
  predicate Emits<V(==)>(e: Fused<V>, s: Snap<V>, t: Snap<V>) {
    Appends(s, t, Text(e, |s.buffers|, |s.scalars|, ""), Tensors(e), Scalars(e), Known(e))
  }

  predicate SavesExpr<V(==)>(e: Fused<V>, s: Snap<V>, t: Snap<V>, piece: string) {
    Saves(s, t, piece, Text(e, |s.buffers|, |s.scalars|, ""), Tensors(e), Scalars(e), Known(e))
  }

  /** `t` is `s` with `text` written at the end. */
  predicate Wrote<V(==)>(s: Snap<V>, t: Snap<V>, text: string) {
    t == s.(body := s.body + text)
  }

  // ----- composing steps -----

  lemma AppendsThen<V>(s: Snap<V>, t: Snap<V>, u: Snap<V>, a: string, b: string, ta: seq<int>, tb: seq<int>,
                       sa: seq<V>, sb: seq<V>, ka: bool, kb: bool)
    requires Appends(s, t, a, ta, sa, ka) && Appends(t, u, b, tb, sb, kb)
    ensures Appends(s, u, a + b, ta + tb, sa + sb, ka && kb)
  {
    if u.ok {
      assert s.body + a + b == s.body + (a + b);
      assert s.buffers + ta + tb == s.buffers + (ta + tb);
      assert s.scalars + sa + sb == s.scalars + (sa + sb);
    }
  }

  /** When the first step failed, the text of the second does not matter. */
  lemma AppendsText<V>(s: Snap<V>, t: Snap<V>, a: string, b: string, ts: seq<int>, ss: seq<V>, k: bool)
    requires Appends(s, t, a, ts, ss, k) && (s.ok ==> a == b)
    ensures Appends(s, t, b, ts, ss, k)
  {
  }

  lemma WroteAppends<V>(s: Snap<V>, t: Snap<V>, a: string)
    requires Bounded(s) && Wrote(s, t, a)
    ensures Appends(s, t, a, [], [], true)
  {
    assert s.buffers + [] == s.buffers && s.scalars + [] == s.scalars;
  }

  /** Writing, emitting an operand, writing again. */
  lemma Around<V>(s: Snap<V>, t: Snap<V>, u: Snap<V>, v: Snap<V>, pre: string, text: string, post: string, ts: seq<int>,
                  ss: seq<V>, k: bool)
    requires Bounded(s) && Wrote(s, t, pre) && Appends(t, u, text, ts, ss, k) && Wrote(u, v, post)
    ensures Appends(s, v, pre + text + post, ts, ss, k)
  {
    BoundedAfter(t, u, text, ts, ss, k);
    hide *;
    WroteAppends(s, t, pre);
    WroteAppends(u, v, post);
    AppendsThen(s, t, u, pre, text, [], ts, [], ss, true, k);
    AppendsThen(s, u, v, pre + text, post, [] + ts, [], [] + ss, [], k, true);
    assert [] + ts + [] == ts && [] + ss + [] == ss;
  }

  lemma BoundedAfter<V>(s: Snap<V>, t: Snap<V>, text: string, ts: seq<int>, ss: seq<V>, k: bool)
    requires Appends(s, t, text, ts, ss, k)
    ensures Bounded(t)
  {
  }

  /** The slots a following operand starts from, while all is well. */
  lemma SlotsAfter<V>(s: Snap<V>, t: Snap<V>, text: string, ts: seq<int>, ss: seq<V>, k: bool)
    requires Appends(s, t, text, ts, ss, k)
    ensures t.ok ==> (|t.buffers| == |s.buffers| + |ts| && |t.scalars| == |s.scalars| + |ss|)
  {
  }

  /** Emitting `r` after `text` was appended: its slots start where the text's end. */
  lemma EmitsAfter<V>(s: Snap<V>, t: Snap<V>, u: Snap<V>, text: string, ts: seq<int>, ss: seq<V>, k: bool, r: Fused<V>)
    requires Appends(s, t, text, ts, ss, k) && Emits(r, t, u)
    ensures Appends(s, u, text + Text(r, |s.buffers| + |ts|, |s.scalars| + |ss|, ""), ts + Tensors(r), ss + Scalars(r), k && Known(r))
  {
    hide *;
    SlotsAfter(s, t, text, ts, ss, k);
    EmitsUnfold(r, t, u);
    var mine := Text(r, |s.buffers| + |ts|, |s.scalars| + |ss|, "");
    AppendsText(t, u, Text(r, |t.buffers|, |t.scalars|, ""), mine, Tensors(r), Scalars(r), Known(r));
    AppendsThen(s, t, u, text, mine, ts, Tensors(r), ss, Scalars(r), k, Known(r));
  }

  lemma EmitsUnfold<V>(e: Fused<V>, s: Snap<V>, t: Snap<V>)
    ensures Emits(e, s, t) <==> Appends(s, t, Text(e, |s.buffers|, |s.scalars|, ""), Tensors(e), Scalars(e), Known(e))
  {
  }

  lemma ThenWrote<V>(s: Snap<V>, t: Snap<V>, u: Snap<V>, text: string, more: string, ts: seq<int>, ss: seq<V>, k: bool)
    requires Appends(s, t, text, ts, ss, k) && Wrote(t, u, more)
    ensures Appends(s, u, text + more, ts, ss, k)
  {
    BoundedAfter(s, t, text, ts, ss, k);
    hide *;
    WroteAppends(t, u, more);
    AppendsThen(s, t, u, text, more, ts, [], ss, [], k, true);
    assert ts + [] == ts && ss + [] == ss;
  }

  /** `pre`, an operand, and more text. */
  lemma First<V>(s: Snap<V>, t: Snap<V>, u: Snap<V>, v: Snap<V>, pre: string, x: Fused<V>, post: string)
    requires Bounded(s) && Wrote(s, t, pre) && Emits(x, t, u) && Wrote(u, v, post)
    ensures Appends(s, v, pre + Text(x, |s.buffers|, |s.scalars|, "") + post, Tensors(x), Scalars(x), Known(x))
  {
    assert |t.buffers| == |s.buffers| && |t.scalars| == |s.scalars|;
    EmitsUnfold(x, t, u);
    hide *;
    Around(s, t, u, v, pre, Text(x, |s.buffers|, |s.scalars|, ""), post, Tensors(x), Scalars(x), Known(x));
  }

  /** After that, another operand and more text. */
  lemma Next<V>(s: Snap<V>, t: Snap<V>, u: Snap<V>, v: Snap<V>, text: string, ts: seq<int>, ss: seq<V>, k: bool, x: Fused<V>,
                post: string)
    requires Appends(s, t, text, ts, ss, k) && Emits(x, t, u) && Wrote(u, v, post)
    ensures Appends(s, v, text + Text(x, |s.buffers| + |ts|, |s.scalars| + |ss|, "") + post,
                    ts + Tensors(x), ss + Scalars(x), k && Known(x))
  {
    hide *;
    EmitsAfter(s, t, u, text, ts, ss, k, x);
    var next := Text(x, |s.buffers| + |ts|, |s.scalars| + |ss|, "");
    ThenWrote(s, u, v, text + next, post, ts + Tensors(x), ss + Scalars(x), k && Known(x));
  }

  /** A kept piece and what was then written from it. */
  lemma SavesThenWrote<V>(s: Snap<V>, t: Snap<V>, u: Snap<V>, piece: string, text: string, ts: seq<int>, ss: seq<V>, k: bool,
                          frame: (string, string, string))
    requires Saves(s, t, piece, text, ts, ss, k) && Wrote(t, u, JoinedTwice(frame, piece))
    ensures Appends(s, u, JoinedTwice(frame, text), ts, ss, k)
  {
  }

  /** Two kept pieces, one after the other. */
  lemma SavesTwo<V>(s: Snap<V>, t: Snap<V>, u: Snap<V>, a: string, b: string, l: Fused<V>, r: Fused<V>)
    requires SavesExpr(l, s, t, a) && SavesExpr(r, t, u, b)
    ensures Bounded(u) && s.body == u.body
    ensures u.ok <==> (s.ok && Known(l) && Known(r) && Room(s, |Tensors(l) + Tensors(r)|, |Scalars(l) + Scalars(r)|))
    ensures u.ok ==> a == Text(l, |s.buffers|, |s.scalars|, "")
    ensures u.ok ==> b == Text(r, |s.buffers| + |Tensors(l)|, |s.scalars| + |Scalars(l)|, "")
    ensures u.ok ==> u == Snap(s.body, s.buffers + (Tensors(l) + Tensors(r)), s.scalars + (Scalars(l) + Scalars(r)), true)
  {
    hide Text, Tensors, Scalars, Known;
    if u.ok {
      assert s.buffers + Tensors(l) + Tensors(r) == s.buffers + (Tensors(l) + Tensors(r));
      assert s.scalars + Scalars(l) + Scalars(r) == s.scalars + (Scalars(l) + Scalars(r));
    }
  }

  // ----- the text of each operator, piece by piece -----

  /** The operators that write their operand twice. */
  predicate Repeats(op: UnaryOp) {
    op.Sqr? || op.Cbrt?
  }

  /** What stands before the operand, between its two copies when there are two, and after it. */
  function UnaryFrame(op: UnaryOp): (string, string, string) {
    match op
    case Neg => ("(-(", "", "))")
    case Lnot => ("float(!bool(", "", "))")
    case Sqr => ("(", "*", ")")
    case Expm1 => ("(exp(", "", ")-1.0)")
    case Log1p => ("log(1.0+(", "", "))")
    case Cbrt => ("copysign(pow(fabs(", "),0.3333333333333333),", ")")
    case Named(name) => (name + "(", "", ")")
  }

  function JoinedTwice(frame: (string, string, string), t: string): string {
    frame.0 + t + frame.1 + t + frame.2
  }

  lemma UnaryPieces<V>(op: UnaryOp, x: Fused<V>, nb: nat, ns: nat)
    ensures Text(Unary(op, x), nb, ns, "")
         == (if Repeats(op) then JoinedTwice(UnaryFrame(op), Text(x, nb, ns, ""))
             else UnaryFrame(op).0 + Text(x, nb, ns, "") + UnaryFrame(op).2)
  {
    var t := Text(x, nb, ns, "");
    var e := Unary(op, x);
    TextUnfold(e, nb, ns, "");
    hide Text;
    var (pre, middle, post) := UnaryFrame(op);
    EndsAs(post);
    TextAppend(x, nb, ns, post);
    if Repeats(op) {
      TextAppend(x, nb, ns, middle + Text(x, nb, ns, post));
      TwiceJoins(pre, t, middle, post);
    } else {
      assert pre + (t + post) == pre + t + post;
    }
  }

  lemma TwiceJoins(pre: string, t: string, middle: string, post: string)
    ensures pre + (t + (middle + (t + post))) == pre + t + middle + t + post
  {
  }

  lemma TwoPieces<V>(l: Fused<V>, r: Fused<V>, nb: nat, ns: nat, mb: nat, ms: nat, pre: string, middle: string, post: string)
    ensures pre + Text(l, nb, ns, middle + Text(r, mb, ms, post + ""))
         == pre + Text(l, nb, ns, "") + middle + Text(r, mb, ms, "") + post
  {
    hide Text;
    TextAppend(r, mb, ms, post + "");
    TextAppend(l, nb, ns, middle + Text(r, mb, ms, post + ""));
    var t, u := Text(l, nb, ns, ""), Text(r, mb, ms, "");
    assert post + "" == post;
    assert pre + (t + (middle + (u + post))) == pre + t + middle + u + post;
  }

  function HypotText(a: string, b: string): string {
    "sqrt((" + a + "*" + a + ")+(" + b + "*" + b + "))"
  }

  lemma HypotPieces<V>(l: Fused<V>, r: Fused<V>, nb: nat, ns: nat, mb: nat, ms: nat)
    ensures "sqrt((" + Text(l, nb, ns, "*" + Text(l, nb, ns, ")+(" + Text(r, mb, ms, "*" + Text(r, mb, ms, "))" + ""))))
         == HypotText(Text(l, nb, ns, ""), Text(r, mb, ms, ""))
  {
    hide Text;
    var a, b := Text(l, nb, ns, ""), Text(r, mb, ms, "");
    TextAppend(r, mb, ms, "))" + "");
    assert "))" + "" == "))";
    var w := "*" + Text(r, mb, ms, "))");
    TextAppend(r, mb, ms, w);
    var v := ")+(" + Text(r, mb, ms, w);
    TextAppend(l, nb, ns, v);
    var u := "*" + Text(l, nb, ns, v);
    TextAppend(l, nb, ns, u);
    HypotJoins(a, b);
  }

  lemma HypotJoins(a: string, b: string)
    ensures "sqrt((" + (a + ("*" + (a + (")+(" + (b + ("*" + (b + "))"))))))) == HypotText(a, b)
  {
    var p, q, r, s := "sqrt((", "*", ")+(", "))";
    assert p + (a + (q + (a + (r + (b + (q + (b + s))))))) == p + a + q + a + r + b + q + b + s;
  }

  /** What stands before, between and after the operands of the two-operand forms that are written straight through. */
  function BinaryFrame(op: BinaryOp): (string, string, string) {
    match op
    case Arith(symbol) => ("(", symbol, ")")
    case Compare(symbol) => ("float(", symbol, ")")
    case Logic(symbol) => ("float(bool(", ")" + symbol + "bool(", "))")
    case Pair(name) => (name + "(", ",", ")")
    case Hypot => ("", "", "")
  }

  lemma BinaryPieces<V>(op: BinaryOp, l: Fused<V>, r: Fused<V>, nb: nat, ns: nat)
    ensures var e, t, u := Binary(op, l, r), Text(l, nb, ns, ""), Text(r, nb + |Tensors(l)|, ns + |Scalars(l)|, "");
            var (pre, middle, post) := BinaryFrame(op);
            if op.Hypot? then Text(e, nb, ns, "") == HypotText(t, u)
            else Text(e, nb, ns, "") == pre + t + middle + u + post
  {
    var e := Binary(op, l, r);
    TextUnfold(e, nb, ns, "");
    hide Text, HypotText;
    var mb, ms := nb + |Tensors(l)|, ns + |Scalars(l)|;
    var (pre, middle, post) := BinaryFrame(op);
    if op.Hypot? {
      HypotPieces(l, r, nb, ns, mb, ms);
    } else {
      TwoPieces(l, r, nb, ns, mb, ms, pre, middle, post);
      if op.Logic? {
        var u := Text(r, mb, ms, post + "");
        assert ")" + op.symbol + "bool(" + u == middle + u;
      }
    }
  }

  lemma ThreePieces<V>(x: Fused<V>, y: Fused<V>, z: Fused<V>, nb: nat, ns: nat, mb: nat, ms: nat, kb: nat, ks: nat,
                       pre: string, middle: string, post: string)
    ensures pre + Text(x, nb, ns, "," + Text(y, mb, ms, middle + Text(z, kb, ks, post + "")))
         == pre + Text(x, nb, ns, "") + "," + Text(y, mb, ms, "") + middle + Text(z, kb, ks, "") + post
  {
    hide *;
    TwoPieces(y, z, mb, ms, kb, ks, ",", middle, post);
    TextAppend(x, nb, ns, "," + Text(y, mb, ms, middle + Text(z, kb, ks, post + "")));
    ThreeJoins(pre, Text(x, nb, ns, ""), Text(y, mb, ms, ""), middle, Text(z, kb, ks, ""), post);
  }

  lemma ThreeJoins(pre: string, t: string, u: string, middle: string, v: string, post: string)
    ensures pre + (t + ("," + u + middle + v + post)) == pre + t + "," + u + middle + v + post
  {
  }

  /** What stands around the operands of a three-operand form. */
  function TernaryFrame(op: TernaryOp): (string, string, string) {
    if op.Fma? then ("fma(", ",", ")") else ("select(", ",bool(", "))")
  }

  function Joined3(frame: (string, string, string), t: string, u: string, v: string): string {
    frame.0 + t + "," + u + frame.1 + v + frame.2
  }

  lemma TernaryPieces<V>(op: TernaryOp, a: Fused<V>, b: Fused<V>, c: Fused<V>, nb: nat, ns: nat)
    ensures var (x, y, z) := Parts(op, a, b, c);
            TernaryPiecesOf(op, a, b, c, x, y, z, nb, ns)
  {
    var e := Ternary(op, a, b, c);
    TextUnfold(e, nb, ns, "");
    hide Text;
    var (x, y, z) := Parts(op, a, b, c);
    var mb, ms := nb + |Tensors(x)|, ns + |Scalars(x)|;
    var (pre, middle, post) := TernaryFrame(op);
    ThreePieces(x, y, z, nb, ns, mb, ms, mb + |Tensors(y)|, ms + |Scalars(y)|, pre, middle, post);
    EndsAs(post);
  }

  lemma EndsAs(post: string)
    ensures post + "" == post
  {
  }

  predicate TernaryPiecesOf<V>(op: TernaryOp, a: Fused<V>, b: Fused<V>, c: Fused<V>, x: Fused<V>, y: Fused<V>, z: Fused<V>,
                               nb: nat, ns: nat) {
    var mb, ms := nb + |Tensors(x)|, ns + |Scalars(x)|;
    Text(Ternary(op, a, b, c), nb, ns, "")
    == Joined3(TernaryFrame(op), Text(x, nb, ns, ""), Text(y, mb, ms, ""), Text(z, mb + |Tensors(y)|, ms + |Scalars(y)|, ""))
  }

  // ----- whole nodes -----

  /** An operator the emitter does not support makes it fail. */
  lemma Unsupported<V>(e: Fused<V>, s: Snap<V>, t: Snap<V>)
    requires Bounded(s) && !Known(e) && t == s.(ok := false)
    ensures Emits(e, s, t)
  {
  }

  lemma UnaryParts<V>(op: UnaryOp, x: Fused<V>)
    requires op.Named? ==> op.name in UNARY_NAMES
    ensures Tensors(Unary(op, x)) == Tensors(x) && Scalars(Unary(op, x)) == Scalars(x) && (Known(Unary(op, x)) <==> Known(x))
  {
  }

  lemma SavesUnfold<V>(e: Fused<V>, s: Snap<V>, t: Snap<V>, piece: string)
    requires SavesExpr(e, s, t, piece)
    ensures Saves(s, t, piece, Text(e, |s.buffers|, |s.scalars|, ""), Tensors(e), Scalars(e), Known(e))
  {
  }

  /** A repeated operand: kept, then written from the copy. */
  lemma RepeatDone<V>(op: UnaryOp, x: Fused<V>, s: Snap<V>, t: Snap<V>, u: Snap<V>, piece: string)
    requires Repeats(op) && SavesExpr(x, s, t, piece) && Wrote(t, u, JoinedTwice(UnaryFrame(op), piece))
    ensures Emits(Unary(op, x), s, u)
  {
    NotNamed(op);
    hide *;
    SavesUnfold(x, s, t, piece);
    SavesThenWrote(s, t, u, piece, Text(x, |s.buffers|, |s.scalars|, ""), Tensors(x), Scalars(x), Known(x), UnaryFrame(op));
    UnaryPieces(op, x, |s.buffers|, |s.scalars|);
    UnaryParts(op, x);
    EmitsUnfold(Unary(op, x), s, u);
  }

  lemma NotNamed(op: UnaryOp)
    requires Repeats(op)
    ensures !op.Named?
  {
  }

  lemma WrapDone<V>(op: UnaryOp, x: Fused<V>, s: Snap<V>, t: Snap<V>, u: Snap<V>, v: Snap<V>)
    requires !Repeats(op) && (op.Named? ==> op.name in UNARY_NAMES)
    requires Bounded(s) && Wrote(s, t, UnaryFrame(op).0) && Emits(x, t, u) && Wrote(u, v, UnaryFrame(op).2)
    ensures Emits(Unary(op, x), s, v)
  {
    UnaryParts(op, x);
    hide *;
    First(s, t, u, v, UnaryFrame(op).0, x, UnaryFrame(op).2);
    UnaryPieces(op, x, |s.buffers|, |s.scalars|);
    EmitsUnfold(Unary(op, x), s, v);
  }

  lemma BinaryParts<V>(op: BinaryOp, l: Fused<V>, r: Fused<V>)
    requires KnownBinary(op)
    ensures Tensors(Binary(op, l, r)) == Tensors(l) + Tensors(r) && Scalars(Binary(op, l, r)) == Scalars(l) + Scalars(r)
    ensures Known(Binary(op, l, r)) <==> (Known(l) && Known(r))
  {
  }

  lemma PairDone<V>(op: BinaryOp, l: Fused<V>, r: Fused<V>, s: Snap<V>, a: Snap<V>, b: Snap<V>, c: Snap<V>, d: Snap<V>, f: Snap<V>)
    requires KnownBinary(op) && !op.Hypot? && Bounded(s)
    requires Wrote(s, a, BinaryFrame(op).0) && Emits(l, a, b) && Wrote(b, c, BinaryFrame(op).1)
    requires Emits(r, c, d) && Wrote(d, f, BinaryFrame(op).2)
    ensures Emits(Binary(op, l, r), s, f)
  {
    hide *;
    var frame := BinaryFrame(op);
    First(s, a, b, c, frame.0, l, frame.1);
    var t := Text(l, |s.buffers|, |s.scalars|, "");
    Next(s, c, d, f, frame.0 + t + frame.1, Tensors(l), Scalars(l), Known(l), r, frame.2);
    BinaryPieces(op, l, r, |s.buffers|, |s.scalars|);
    BinaryParts(op, l, r);
    EmitsUnfold(Binary(op, l, r), s, f);
  }

  /** Both operands kept, each then written twice. */
  lemma HypotDone<V>(l: Fused<V>, r: Fused<V>, s: Snap<V>, t: Snap<V>, u: Snap<V>, v: Snap<V>, a: string, b: string)
    requires SavesExpr(l, s, t, a) && SavesExpr(r, t, u, b) && Wrote(u, v, HypotText(a, b))
    ensures Emits(Binary(Hypot, l, r), s, v)
  {
    BinaryPieces(Hypot, l, r, |s.buffers|, |s.scalars|);
    BinaryParts(Hypot, l, r);
    EmitsUnfold(Binary(Hypot, l, r), s, v);
    hide Emits, Text, HypotText, SavesExpr, Tensors, Scalars, Known;
    SavesTwo(s, t, u, a, b, l, r);
  }

  lemma TernaryParts<V>(op: TernaryOp, a: Fused<V>, b: Fused<V>, c: Fused<V>)
    ensures var (x, y, z) := Parts(op, a, b, c); TernaryPartsOf(op, a, b, c, x, y, z)
  {
  }

  predicate TernaryPartsOf<V(==)>(op: TernaryOp, a: Fused<V>, b: Fused<V>, c: Fused<V>, x: Fused<V>, y: Fused<V>, z: Fused<V>) {
    var e := Ternary(op, a, b, c);
    && Tensors(e) == Tensors(x) + Tensors(y) + Tensors(z) && Scalars(e) == Scalars(x) + Scalars(y) + Scalars(z)
    && (Known(e) <==> (Known(x) && Known(y) && Known(z)))
  }

  lemma TernaryWhole<V>(op: TernaryOp, a: Fused<V>, b: Fused<V>, c: Fused<V>, x: Fused<V>, y: Fused<V>, z: Fused<V>, nb: nat, ns: nat)
    requires (x, y, z) == Parts(op, a, b, c)
    ensures TernaryPartsOf(op, a, b, c, x, y, z) && TernaryPiecesOf(op, a, b, c, x, y, z, nb, ns)
  {
    TernaryParts(op, a, b, c);
    TernaryPieces(op, a, b, c, nb, ns);
    hide TernaryPartsOf, TernaryPiecesOf;
  }

  lemma TripleDone<V>(op: TernaryOp, a: Fused<V>, b: Fused<V>, c: Fused<V>, x: Fused<V>, y: Fused<V>, z: Fused<V>,
                      s: Snap<V>, s1: Snap<V>, s2: Snap<V>, s3: Snap<V>, s4: Snap<V>, s5: Snap<V>, s6: Snap<V>, s7: Snap<V>)
    requires (x, y, z) == Parts(op, a, b, c) && Bounded(s)
    requires Wrote(s, s1, TernaryFrame(op).0) && Emits(x, s1, s2) && Wrote(s2, s3, ",")
    requires Emits(y, s3, s4) && Wrote(s4, s5, TernaryFrame(op).1) && Emits(z, s5, s6) && Wrote(s6, s7, TernaryFrame(op).2)
    ensures Emits(Ternary(op, a, b, c), s, s7)
  {
    hide *;
    var frame, nb, ns := TernaryFrame(op), |s.buffers|, |s.scalars|;
    First(s, s1, s2, s3, frame.0, x, ",");
    var t := frame.0 + Text(x, nb, ns, "") + ",";
    Next(s, s3, s4, s5, t, Tensors(x), Scalars(x), Known(x), y, frame.1);
    var u := t + Text(y, nb + |Tensors(x)|, ns + |Scalars(x)|, "") + frame.1;
    Next(s, s5, s6, s7, u, Tensors(x) + Tensors(y), Scalars(x) + Scalars(y), Known(x) && Known(y), z, frame.2);
    TernaryWhole(op, a, b, c, x, y, z, nb, ns);
    TripleText(op, a, b, c, x, y, z, nb, ns);
    EmitsUnfold(Ternary(op, a, b, c), s, s7);
  }

  lemma TripleText<V>(op: TernaryOp, a: Fused<V>, b: Fused<V>, c: Fused<V>, x: Fused<V>, y: Fused<V>, z: Fused<V>, nb: nat, ns: nat)
    requires TernaryPartsOf(op, a, b, c, x, y, z) && TernaryPiecesOf(op, a, b, c, x, y, z, nb, ns)
    ensures var e, frame := Ternary(op, a, b, c), TernaryFrame(op);
            && Tensors(e) == Tensors(x) + Tensors(y) + Tensors(z) && Scalars(e) == Scalars(x) + Scalars(y) + Scalars(z)
            && (Known(e) <==> (Known(x) && Known(y) && Known(z)))
            && Text(e, nb, ns, "")
            == frame.0 + Text(x, nb, ns, "") + "," + Text(y, nb + |Tensors(x)|, ns + |Scalars(x)|, "") + frame.1
             + Text(z, nb + |Tensors(x) + Tensors(y)|, ns + |Scalars(x) + Scalars(y)|, "") + frame.2
  {
    hide Text, Tensors, Scalars, Known, TernaryFrame;
  }
}
