/**
 * The Metal emitter as it runs (expressions_evaluator_metal.h): appending to one string, cutting pieces off
 * again, handing out slots and failing when they run out, and naming the kernel's parameters.
 */
module MetalProgram {
  import opened ShaderText
  import opened MetalFuse
  import opened MetalEmit
  import opened MetalState

  datatype Parameter = Parameter(name: string, index: nat)

  class FuseState<V(==)> {
    var body: string
    var buffers: seq<int>
    var scalars: seq<V>
    var ok: bool

    ghost function Now(): Snap<V>
      reads this
    {
      Snap(body, buffers, scalars, ok)
    }

    constructor ()
      ensures Now() == Snap("", [], [], true)
    {
      body, buffers, scalars, ok := "", [], [], true;
    }

    method Put(text: string)
      modifies this
      ensures Wrote(old(Now()), Now(), text)
    {
      body := body + text;
    }

    method Fail()
      modifies this
      ensures Now() == old(Now()).(ok := false)
    {
      ok := false;
    }

    method EmitTensor(data: int)
      requires Bounded(Now())
      modifies this
      ensures Emits(Tensor(data), old(Now()), Now())
    {
      if !ok || |buffers| >= MAX_SLOTS {
        Fail();
        return;
      }
      ghost var nb := |buffers|;
      body := body + "in" + Digits(|buffers|) + "[tid]";
      buffers := buffers + [data];
      assert old(body) + "in" + Digits(nb) + "[tid]" == old(body) + ("in" + Digits(nb) + "[tid]" + "");
    }

    method EmitScalar(value: V)
      requires Bounded(Now())
      modifies this
      ensures Emits(Scalar(value), old(Now()), Now())
    {
      if !ok || |scalars| >= MAX_SLOTS {
        Fail();
        return;
      }
      ghost var ns := |scalars|;
      body := body + "c" + Digits(|scalars|);
      scalars := scalars + [value];
      assert old(body) + "c" + Digits(ns) == old(body) + ("c" + Digits(ns) + "");
    }

    /** Writes `e`; the flag says whether it fits. */
    method Emit(e: Fused<V>)
      requires Bounded(Now())
      modifies this
      ensures Emits(e, old(Now()), Now())
      decreases e, 2
    {
      hide *;
      match e
      case Tensor(data) => EmitTensor(data);
      case Scalar(value) => EmitScalar(value);
      case Unary(op, x) => EmitUnary(op, x);
      case Binary(op, l, r) => EmitBinary(op, l, r);
      case Ternary(op, a, b, c) => EmitTernary(op, a, b, c);
    }

    /** Writes `e`, takes its text off the end again and returns it: what was there before is intact. */
    method Snapshot(e: Fused<V>) returns (piece: string)
      requires Bounded(Now())
      modifies this
      ensures SavesExpr(e, old(Now()), Now(), piece)
      decreases e, 3
    {
      var mark := |body|;
      ghost var s := Now();
      Emit(e);
      EmitsUnfold(e, s, Now());
      hide Emits, Text, Tensors, Scalars, Known;
      piece := body[mark..];
      body := body[..mark];
      assert body == old(body);
    }

    method EmitUnary(op: UnaryOp, x: Fused<V>)
      requires Bounded(Now())
      modifies this
      ensures Emits(Unary(op, x), old(Now()), Now())
      decreases x, 4
    {
      ghost var s := Now();
      if op.Named? && op.name !in UNARY_NAMES {
        Fail();
        Unsupported(Unary(op, x), s, Now());
        return;
      }
      hide *;
      var (pre, middle, post) := UnaryFrame(op);
      if Repeats(op) {
        var piece := Snapshot(x);
        ghost var t := Now();
        Put(JoinedTwice(UnaryFrame(op), piece));
        RepeatDone(op, x, s, t, Now(), piece);
      } else {
        Put(pre);
        ghost var t := Now();
        WroteBounded(s, t, pre);
        Emit(x);
        ghost var u := Now();
        Put(post);
        WrapDone(op, x, s, t, u, Now());
      }
    }

    method EmitBinary(op: BinaryOp, l: Fused<V>, r: Fused<V>)
      requires Bounded(Now())
      modifies this
      ensures Emits(Binary(op, l, r), old(Now()), Now())
      decreases Binary(op, l, r), 1
    {
      ghost var s := Now();
      if !KnownBinary(op) {
        Fail();
        Unsupported(Binary(op, l, r), s, Now());
        return;
      }
      hide *;
      EmitKnownBinary(op, l, r);
    }

    method EmitKnownBinary(op: BinaryOp, l: Fused<V>, r: Fused<V>)
      requires Bounded(Now()) && KnownBinary(op)
      modifies this
      ensures Emits(Binary(op, l, r), old(Now()), Now())
      decreases Binary(op, l, r), 0
    {
      hide *;
      ghost var s := Now();
      if op.Hypot? {
        var a := Snapshot(l);
        ghost var t := Now();
        SavesBounded(l, s, t, a);
        var b := Snapshot(r);
        ghost var u := Now();
        Put(HypotText(a, b));
        HypotDone(l, r, s, t, u, Now(), a, b);
      } else {
        var (pre, middle, post) := BinaryFrame(op);
        Put(pre);
        ghost var s1 := Now();
        WroteBounded(s, s1, pre);
        Emit(l);
        ghost var s2 := Now();
        EmitsBounded(l, s1, s2);
        Put(middle);
        ghost var s3 := Now();
        WroteBounded(s2, s3, middle);
        Emit(r);
        ghost var s4 := Now();
        Put(post);
        PairDone(op, l, r, s, s1, s2, s3, s4, Now());
      }
    }

    method EmitTernary(op: TernaryOp, a: Fused<V>, b: Fused<V>, c: Fused<V>)
      requires Bounded(Now())
      modifies this
      ensures Emits(Ternary(op, a, b, c), old(Now()), Now())
      decreases Ternary(op, a, b, c), 0
    {
      ghost var s := Now();
      PartsAre(op, a, b, c);
      hide *;
      var (pre, middle, post) := TernaryFrame(op);
      var (x, y, z) := Parts(op, a, b, c);
      Put(pre);
      ghost var s1 := Now();
      WroteBounded(s, s1, pre);
      Emit(x);
      ghost var s2 := Now();
      EmitsBounded(x, s1, s2);
      Put(",");
      ghost var s3 := Now();
      WroteBounded(s2, s3, ",");
      Emit(y);
      ghost var s4 := Now();
      EmitsBounded(y, s3, s4);
      Put(middle);
      ghost var s5 := Now();
      WroteBounded(s4, s5, middle);
      Emit(z);
      ghost var s6 := Now();
      Put(post);
      TripleDone(op, a, b, c, x, y, z, s, s1, s2, s3, s4, s5, s6, Now());
    }

    /** The kernel's buffer table has room for every slot, the output and the count. */
    predicate Fits()
      reads this
    {
      ok && |buffers| + |scalars| + 2 <= MAX_BUFFER_INDEX + 1
    }

    /**
     * The kernel's parameters: inputs, constants, output and count, in that order. No two share a name or a
     * buffer index, and in a state that fits no index exceeds the largest one there is.
     */
    method Parameters() returns (table: seq<Parameter>)
      ensures table == Declared(|buffers|, |scalars|)
      ensures forall k, m :: 0 <= k < m < |table| ==> table[k].name != table[m].name && table[k].index != table[m].index
      ensures Fits() ==> forall p :: p in table ==> p.index <= 30
    {
      hide Digits;
      table := [];
      var i := 0;
      while i < |buffers|
        invariant 0 <= i <= |buffers| && table == Inputs(i)
      {
        table := table + [Parameter("in" + Digits(i), |table|)];
        i := i + 1;
      }
      ghost var inputs := table;
      var j := 0;
      while j < |scalars|
        invariant 0 <= j <= |scalars| && table == inputs + Constants(j, |buffers|)
      {
        table := table + [Parameter("c" + Digits(j), |table|)];
        j := j + 1;
      }
      table := table + [Parameter("out", |table|)];
      table := table + [Parameter("n", |table|)];
      AllDistinct(|buffers|, |scalars|);
    }

    /** Emits a whole kernel: accepted exactly when every operator is supported and the operands fit the buffer table. */
    method Fuse(e: Fused<V>) returns (accepted: bool)
      requires Now() == Snap("", [], [], true)
      modifies this
      ensures Emits(e, old(Now()), Now())
      ensures accepted <==> Fits()
      ensures accepted <==> (Known(e) && |Tensors(e)| + |Scalars(e)| <= 29)
    {
      ghost var s := Now();
      Emit(e);
      StartUnfold(e, Now());
      hide Tensors, Scalars, Known, Emits;
      accepted := ok && |buffers| + |scalars| + 2 <= MAX_BUFFER_INDEX + 1;
    }
  }

  lemma WroteBounded<V>(s: Snap<V>, t: Snap<V>, text: string)
    requires Bounded(s) && Wrote(s, t, text)
    ensures Bounded(t)
  {
  }

  lemma EmitsBounded<V>(e: Fused<V>, s: Snap<V>, t: Snap<V>)
    requires Emits(e, s, t)
    ensures Bounded(t)
  {
  }

  lemma SavesBounded<V>(e: Fused<V>, s: Snap<V>, t: Snap<V>, piece: string)
    requires SavesExpr(e, s, t, piece)
    ensures Bounded(t)
  {
  }

  lemma PartsAre<V>(op: TernaryOp, a: Fused<V>, b: Fused<V>, c: Fused<V>)
    ensures Parts(op, a, b, c) == (if op.IfElse? then (c, b, a) else (a, b, c))
  {
  }

  // ----- parameters -----

  function Inputs(n: nat): (table: seq<Parameter>)
    ensures |table| == n
  {
    seq(n, i requires 0 <= i => Parameter("in" + Digits(i), i))
  }

  function Constants(n: nat, first: nat): (table: seq<Parameter>)
    ensures |table| == n
  {
    seq(n, j requires 0 <= j => Parameter("c" + Digits(j), first + j))
  }

  function Declared(nb: nat, ns: nat): seq<Parameter> {
    Inputs(nb) + Constants(ns, nb) + [Parameter("out", nb + ns), Parameter("n", nb + ns + 1)]
  }

  lemma DigitsDiffer(i: nat, j: nat)
    requires i != j
    ensures Digits(i) != Digits(j)
  {
    DigitsNumber(i);
    DigitsNumber(j);
  }

  /** Where each parameter stands. */
  lemma DeclaredAt(nb: nat, ns: nat, k: nat)
    requires k < nb + ns + 2
    ensures |Declared(nb, ns)| == nb + ns + 2
    ensures Declared(nb, ns)[k].index == k
    ensures k < nb ==> Declared(nb, ns)[k].name == "in" + Digits(k)
    ensures nb <= k < nb + ns ==> Declared(nb, ns)[k].name == "c" + Digits(k - nb)
    ensures k == nb + ns ==> Declared(nb, ns)[k].name == "out"
    ensures k == nb + ns + 1 ==> Declared(nb, ns)[k].name == "n"
  {
  }

  /**
   * Distinct names on distinct buffer indices; and the indices stay within the device's table exactly when
   * the state's own test says so.
   */
  lemma ParametersDistinct(nb: nat, ns: nat, k: nat, m: nat)
    requires k < m < nb + ns + 2
    ensures |Declared(nb, ns)| == nb + ns + 2
    ensures Declared(nb, ns)[k].index != Declared(nb, ns)[m].index && Declared(nb, ns)[k].name != Declared(nb, ns)[m].name
    ensures (forall p :: p in Declared(nb, ns) ==> p.index <= MAX_BUFFER_INDEX) <==> nb + ns + 2 <= MAX_BUFFER_INDEX + 1
  {
    DeclaredAt(nb, ns, k);
    DeclaredAt(nb, ns, m);
    NamesDiffer(nb, ns, k, m);
    forall p | p in Declared(nb, ns) ensures p.index <= nb + ns + 1 {
      var q :| 0 <= q < |Declared(nb, ns)| && Declared(nb, ns)[q] == p;
      DeclaredAt(nb, ns, q);
    }
    DeclaredAt(nb, ns, nb + ns + 1);
    assert Declared(nb, ns)[nb + ns + 1] in Declared(nb, ns);
  }

  lemma AllDistinct(nb: nat, ns: nat)
    ensures var table := Declared(nb, ns);
            forall k, m :: 0 <= k < m < |table| ==> table[k].name != table[m].name && table[k].index != table[m].index
    ensures (forall p :: p in Declared(nb, ns) ==> p.index <= MAX_BUFFER_INDEX) <==> nb + ns + 2 <= MAX_BUFFER_INDEX + 1
  {
    ParametersDistinct(nb, ns, 0, 1);
    var table := Declared(nb, ns);
    hide Declared;
    forall k, m | 0 <= k < m < |table| ensures table[k].name != table[m].name && table[k].index != table[m].index {
      ParametersDistinct(nb, ns, k, m);
    }
  }

  lemma NamesDiffer(nb: nat, ns: nat, k: nat, m: nat)
    requires k < m < nb + ns + 2
    ensures |Declared(nb, ns)| == nb + ns + 2 && Declared(nb, ns)[k].name != Declared(nb, ns)[m].name
  {
    DeclaredAt(nb, ns, k);
    DeclaredAt(nb, ns, m);
    hide Declared, Digits;
    var a, b := Declared(nb, ns)[k].name, Declared(nb, ns)[m].name;
    if m < nb {
      DigitsDiffer(k, m);
      assert a[2..] == Digits(k) && b[2..] == Digits(m);
    } else if nb <= k && m < nb + ns {
      DigitsDiffer(k - nb, m - nb);
      assert a[1..] == Digits(k - nb) && b[1..] == Digits(m - nb);
    } else {
      assert k < nb ==> a[0] == 'i';
      assert nb <= k < nb + ns ==> a[0] == 'c';
    }
  }

  // ----- the whole kernel -----

  /** Each thread's view of the slots. */
  function Loaded<A, F>(slots: seq<A>, f: A -> F): seq<F> {
    seq(|slots|, i requires 0 <= i < |slots| => f(slots[i]))
  }

  /**
   * The emitted text, read back and evaluated with every slot bound to the operand it was handed to,
   * means what the expression means at that element.
   */
  lemma KernelMeans<V, F>(e: Fused<V>, s: Snap<V>, load: int -> F, convert: V -> F, g: Algebra<F>)
    requires Emits(e, Snap("", [], [], true), s)
    ensures s.ok <==> (Known(e) && |Tensors(e)| <= 29 && |Scalars(e)| <= 29)
    ensures s.ok ==> s.buffers == Tensors(e) && s.scalars == Scalars(e)
    ensures s.ok ==> (
      var parsed := ParsePrimary(s.body);
      && parsed.Got? && parsed.rest == ""
      && Eval(parsed.value, Loaded(s.buffers, load), Loaded(s.scalars, convert), g) == Float(Meaning(e, load, convert, g)))
  {
    StartUnfold(e, s);
    hide Text, Tensors, Scalars, Known, Emits, Eval, Meaning, Loaded, ParsePrimary;
    if s.ok {
      SlotsLoaded(Tensors(e), load);
      SlotsLoaded(Scalars(e), convert);
      ExpandMeans(e, 0, 0, Loaded(Tensors(e), load), Loaded(Scalars(e), convert), load, convert, g);
      BodyParses(e);
    }
  }

  lemma StartUnfold<V>(e: Fused<V>, s: Snap<V>)
    requires Emits(e, Snap("", [], [], true), s)
    ensures s.ok <==> (Known(e) && |Tensors(e)| <= MAX_SLOTS && |Scalars(e)| <= MAX_SLOTS)
    ensures s.ok ==> s.buffers == Tensors(e) && s.scalars == Scalars(e) && s.body == Text(e, 0, 0, "")
  {
    hide Text, Tensors, Scalars, Known;
    assert [] + Tensors(e) == Tensors(e) && [] + Scalars(e) == Scalars(e) && "" + Text(e, 0, 0, "") == Text(e, 0, 0, "");
  }

  lemma SlotsLoaded<A, F>(slots: seq<A>, f: A -> F)
    ensures Slots(Loaded(slots, f), 0, slots, f)
  {
  }

  lemma BodyParses<V>(e: Fused<V>)
    requires Known(e)
    ensures ParsePrimary(Text(e, 0, 0, "")) == Got(Expand(e, 0, 0), "")
  {
    hide Text, Expand, ParsePrimary, Known;
    TextReadsBack(e, 0, 0, "");
  }
}
