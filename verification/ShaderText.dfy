/**
 * The expression language of fused Metal kernels, as text: a parser for the fully parenthesised
 * subset that the emitter writes, in which no two operators ever compete for an operand.
 */
module ShaderText {

  datatype Shader =
    | Buffer(index: nat)                      // `in3[tid]`
    | Constant(index: nat)                    // `c3`
    | Literal(text: string)
    | Minus(operand: Shader)
    | Not(operand: Shader)
    | Infix(op: string, left: Shader, right: Shader)
    | Call(name: string, args: seq<Shader>)

  datatype Parsed<T> = Got(value: T, rest: string) | Bad

  predicate IsDigit(c: char) {
    '0' <= c <= '9'
  }

  predicate IsWordChar(c: char) {
    IsDigit(c) || 'a' <= c <= 'z' || c == '.'
  }

  predicate AllDigits(s: string) {
    |s| == 0 || (IsDigit(s[0]) && AllDigits(s[1..]))
  }

  predicate AllWord(s: string) {
    |s| == 0 || (IsWordChar(s[0]) && AllWord(s[1..]))
  }

  /** Length of the word at the start. */
  function WordLength(s: string): (n: nat)
    ensures n <= |s|
  {
    if |s| == 0 || !IsWordChar(s[0]) then 0 else 1 + WordLength(s[1..])
  }

  function Digits(n: nat): (s: string)
    ensures |s| > 0
  {
    if n < 10 then [('0' as int + n) as char] else Digits(n / 10) + [('0' as int + n % 10) as char]
  }

  function Number(s: string): nat
    requires AllDigits(s)
    decreases |s|
  {
    if |s| == 0 then 0
    else
      AllDigitsPrefix(s, |s| - 1);
      Number(s[..|s| - 1]) * 10 + (s[|s| - 1] as int - '0' as int)
  }

  lemma {:induction false} AllDigitsPrefix(s: string, k: nat)
    requires AllDigits(s) && k < |s|
    ensures AllDigits(s[..k]) && IsDigit(s[k])
    decreases |s|
  {
    if k > 0 {
      AllDigitsPrefix(s[1..], k - 1);
      assert s[..k][1..] == s[1..][..k - 1];
    }
  }

  lemma {:induction false} AllDigitsSnoc(s: string, c: char)
    requires AllDigits(s) && IsDigit(c)
    ensures AllDigits(s + [c])
  {
    if |s| > 0 {
      AllDigitsSnoc(s[1..], c);
      assert (s + [c])[1..] == s[1..] + [c];
    }
  }

  /** Numbers read back as what was written. */
  lemma {:induction false} DigitsNumber(n: nat)
    ensures AllDigits(Digits(n)) && Number(Digits(n)) == n
  {
    if n < 10 {
      assert Digits(n)[1..] == "" && Digits(n)[..0] == "";
    } else {
      DigitsNumber(n / 10);
      AllDigitsSnoc(Digits(n / 10), ('0' as int + n % 10) as char);
      assert Digits(n)[..|Digits(n)| - 1] == Digits(n / 10);
    }
  }

  /** `w` is the prefix followed by a number. */
  predicate Indexed(w: string, prefix: string) {
    |w| > |prefix| && prefix <= w && AllDigits(w[|prefix|..])
  }

  function Operator(s: string): string {
    if |s| >= 2 && s[..2] in [">=", "<=", "==", "!=", "&&", "||"] then s[..2]
    else if |s| >= 1 && s[..1] in ["+", "-", "*", "/", ">", "<"] then s[..1]
    else ""
  }

  function ParsePrimary(s: string): (p: Parsed<Shader>)
    ensures p.Got? ==> |p.rest| < |s|
    decreases |s|, 1
  {
    if |s| == 0 then Bad
    else if s[0] == '(' then
      var x := ParseExpr(s[1..]);
      if x.Got? && ")" <= x.rest then Got(x.value, x.rest[1..]) else Bad
    else if s[0] == '-' then
      var x := ParsePrimary(s[1..]);
      if x.Got? then Got(Minus(x.value), x.rest) else Bad
    else if s[0] == '!' then
      var x := ParsePrimary(s[1..]);
      if x.Got? then Got(Not(x.value), x.rest) else Bad
    else ParseWord(s)
  }

  function ParseWord(s: string): (p: Parsed<Shader>)
    requires |s| > 0
    ensures p.Got? ==> |p.rest| < |s|
    decreases |s|, 0
  {
    var n := WordLength(s);
    var w, rest := s[..n], s[n..];
    if n == 0 then Bad
    else if IsDigit(w[0]) then Got(Literal(w), rest)
    else if Indexed(w, "in") then
      if "[tid]" <= rest then Got(Buffer(Number(w[2..])), rest[5..]) else Bad
    else if Indexed(w, "c") then Got(Constant(Number(w[1..])), rest)
    else if "(" <= rest then
      var args := ParseArgs(rest[1..]);
      if args.Got? && ")" <= args.rest then Got(Call(w, args.value), args.rest[1..]) else Bad
    else Bad
  }

  /** One operand, or two with an operator between them. */
  function ParseExpr(s: string): (p: Parsed<Shader>)
    ensures p.Got? ==> |p.rest| < |s|
    decreases |s|, 2
  {
    var x := ParsePrimary(s);
    if x.Bad? then Bad
    else
      var op := Operator(x.rest);
      if op == "" then x
      else
        var y := ParsePrimary(x.rest[|op|..]);
        if y.Got? then Got(Infix(op, x.value, y.value), y.rest) else Bad
  }

  function ParseArgs(s: string): (p: Parsed<seq<Shader>>)
    ensures p.Got? ==> |p.rest| < |s|
    decreases |s|, 3
  {
    var x := ParseExpr(s);
    if x.Bad? then Bad
    else if "," <= x.rest then
      var more := ParseArgs(x.rest[1..]);
      if more.Got? then Got([x.value] + more.value, more.rest) else Bad
    else Got([x.value], x.rest)
  }

  // ----- how pieces of text parse -----

  /** Where a word or an operand may end. */
  predicate Ends(rest: string) {
    |rest| == 0 || !IsWordChar(rest[0])
  }

  /** Where an expression may end: no operator follows. */
  predicate Closes(rest: string) {
    |rest| > 0 && (rest[0] == ')' || rest[0] == ',')
  }

  lemma {:induction false} WordSplit(w: string, rest: string)
    requires AllWord(w) && Ends(rest)
    ensures WordLength(w + rest) == |w|
  {
    if |w| == 0 {
      assert w + rest == rest;
    } else {
      WordSplit(w[1..], rest);
      assert (w + rest)[1..] == w[1..] + rest;
    }
  }

  lemma {:induction false} DigitsAreWord(s: string)
    requires AllDigits(s)
    ensures AllWord(s)
  {
    if |s| > 0 {
      DigitsAreWord(s[1..]);
    }
  }

  /** A word that names a function. */
  predicate IsName(w: string) {
    |w| > 0 && AllWord(w) && !IsDigit(w[0]) && !Indexed(w, "in") && !Indexed(w, "c")
  }

  lemma BufferParses(i: nat, rest: string)
    ensures ParsePrimary("in" + Digits(i) + "[tid]" + rest) == Got(Buffer(i), rest)
  {
    var w := "in" + Digits(i);
    DigitsNumber(i);
    DigitsAreWord(Digits(i));
    assert w[1..] == "n" + Digits(i) && w[1..][1..] == Digits(i) && w[2..] == Digits(i);
    var s := w + ("[tid]" + rest);
    assert "in" + Digits(i) + "[tid]" + rest == s;
    WordSplit(w, "[tid]" + rest);
    assert s[..|w|] == w && s[|w|..] == "[tid]" + rest && ("[tid]" + rest)[5..] == rest;
    assert s[0] == 'i';
  }

  lemma ConstantParses(i: nat, rest: string)
    requires Ends(rest)
    ensures ParsePrimary("c" + Digits(i) + rest) == Got(Constant(i), rest)
  {
    var w := "c" + Digits(i);
    DigitsNumber(i);
    DigitsAreWord(Digits(i));
    assert w[1..] == Digits(i);
    var s := w + rest;
    WordSplit(w, rest);
    assert s[..|w|] == w && s[|w|..] == rest && s[0] == 'c';
  }

  lemma LiteralParses(w: string, rest: string)
    requires |w| > 0 && IsDigit(w[0]) && AllWord(w) && Ends(rest)
    ensures ParsePrimary(w + rest) == Got(Literal(w), rest)
  {
    WordSplit(w, rest);
    assert (w + rest)[..|w|] == w && (w + rest)[|w|..] == rest && (w + rest)[0] == w[0];
  }

  lemma CallParses(name: string, tail: string)
    requires IsName(name)
    ensures var args := ParseArgs(tail);
            args.Got? && ")" <= args.rest ==>
              ParsePrimary(name + "(" + tail) == Got(Call(name, args.value), args.rest[1..])
  {
    var s := name + ("(" + tail);
    assert name + "(" + tail == s;
    WordSplit(name, "(" + tail);
    assert s[..|name|] == name && s[|name|..] == "(" + tail && ("(" + tail)[1..] == tail && s[0] == name[0];
    assert IsWordChar(name[0]);
  }

  lemma ParensParse(tail: string)
    ensures var x := ParseExpr(tail);
            x.Got? && ")" <= x.rest ==> ParsePrimary("(" + tail) == Got(x.value, x.rest[1..])
  {
    assert ("(" + tail)[1..] == tail;
  }

  lemma PrefixParses(tail: string)
    ensures var x := ParsePrimary(tail);
            x.Got? ==> (
              && ParsePrimary("-" + tail) == Got(Minus(x.value), x.rest)
              && ParsePrimary("!" + tail) == Got(Not(x.value), x.rest))
  {
    assert ("-" + tail)[1..] == tail && ("!" + tail)[1..] == tail;
  }

  /** An operand alone. */
  lemma OperandAlone(s: string)
    ensures var x := ParsePrimary(s); x.Got? && Closes(x.rest) ==> ParseExpr(s) == x
  {
  }

  /** Two operands and what stands between them. */
  lemma OperandsJoined(s: string, op: string, tail: string)
    requires ParsePrimary(s).Got? && ParsePrimary(s).rest == op + tail && |op| > 0 && Operator(op + tail) == op
    ensures var y := ParsePrimary(tail);
            y.Got? ==> ParseExpr(s) == Got(Infix(op, ParsePrimary(s).value, y.value), y.rest)
  {
    assert (op + tail)[|op|..] == tail;
  }

  lemma LastArgument(s: string)
    ensures var x := ParseExpr(s); x.Got? && ")" <= x.rest ==> ParseArgs(s) == Got([x.value], x.rest)
  {
    var x := ParseExpr(s);
    if x.Got? && ")" <= x.rest {
      assert x.rest[0] == ')';
    }
  }

  lemma NextArgument(s: string, tail: string)
    requires ParseExpr(s).Got? && ParseExpr(s).rest == "," + tail
    ensures var more := ParseArgs(tail);
            more.Got? ==> ParseArgs(s) == Got([ParseExpr(s).value] + more.value, more.rest)
  {
    assert ("," + tail)[1..] == tail;
  }
}
