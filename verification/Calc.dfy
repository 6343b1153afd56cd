/** The `calc` command: a recursive-descent evaluator over a cursor and an error flag. */
module Calc {
  import opened Word32

  // ----- 32-bit arithmetic -----

  function I32(v: int): (r: int)
    ensures -0x8000_0000 <= v < 0x8000_0000 ==> r == v
  {
    (v + 0x8000_0000) % WORD - 0x8000_0000
  }

  /** Results wrap: they are in range and differ from the exact one by a multiple of 2^32. */
  lemma I32Wraps(v: int)
    ensures -0x8000_0000 <= I32(v) < 0x8000_0000 && (v - I32(v)) % 0x1_0000_0000 == 0
  {
    var q := (v + 0x8000_0000) / WORD;
    assert v - I32(v) == q * WORD;
  }

  /** Division truncating toward zero. */
  function Quotient(a: int, b: int): int
    requires b != 0
  {
    if a >= 0 then a / b else -(-a / b)
  }

  /** The remainder is smaller than the divisor and has the dividend's sign. */
  lemma QuotientTruncates(a: int, b: int)
    requires b != 0
    ensures var r := a - b * Quotient(a, b);
      (if a >= 0 then 0 <= r else r <= 0) && (if b > 0 then -b < r < b else b < r < -b)
  {}

  datatype Op = Add | Sub | Mul | Div

  type SumOp = o: Op | o.Add? || o.Sub? witness Add
  type ProductOp = o: Op | o.Mul? || o.Div? witness Mul

  function Symbol(o: Op): char {
    match o
    case Add => '+'
    case Sub => '-'
    case Mul => '*'
    case Div => '/'
  }

  function Exactly(o: Op, a: int, b: int): int
    requires o.Div? ==> b != 0
  {
    match o
    case Add => a + b
    case Sub => a - b
    case Mul => a * b
    case Div => Quotient(a, b)
  }

  // ----- Expressions, their machine value and their exact value -----

  datatype Tree = Num(n: nat) | Neg(of: Tree) | Bin(op: Op, left: Tree, right: Tree)

  /** No division has a zero divisor. */
  predicate Divides(t: Tree)
    decreases t, 0
  {
    match t
    case Num(_) => true
    case Neg(u) => Divides(u)
    case Bin(op, l, r) => Divides(l) && Divides(r) && (op.Div? ==> Wrapped(r) != 0)
  }

  /** The value computed with every result cut to 32 bits. */
  function Wrapped(t: Tree): int
    requires Divides(t)
    decreases t, 1
  {
    match t
    case Num(n) => I32(n)
    case Neg(u) => I32(-Wrapped(u))
    case Bin(op, l, r) => I32(Exactly(op, Wrapped(l), Wrapped(r)))
  }

  /** Every intermediate result is defined and fits in 32 bits. */
  predicate Computable(t: Tree)
    decreases t, 0
  {
    match t
    case Num(n) => n < 0x8000_0000
    case Neg(u) => Computable(u) && -0x8000_0000 <= -Exact(u) < 0x8000_0000
    case Bin(op, l, r) =>
      Computable(l) && Computable(r) && (op.Div? ==> Exact(r) != 0) &&
      -0x8000_0000 <= Exactly(op, Exact(l), Exact(r)) < 0x8000_0000
  }

  function Exact(t: Tree): int
    requires Computable(t)
    decreases t, 1
  {
    match t
    case Num(n) => n
    case Neg(u) => -Exact(u)
    case Bin(op, l, r) => Exactly(op, Exact(l), Exact(r))
  }

  lemma {:induction false} WrappedIsExact(t: Tree)
    requires Computable(t)
    ensures Divides(t) && Wrapped(t) == Exact(t)
  {
    match t
    case Num(_) =>
    case Neg(u) => WrappedIsExact(u);
    case Bin(_, l, r) => WrappedIsExact(l); WrappedIsExact(r);
  }

  // ----- What the evaluator does to a text -----

  predicate IsBlank(c: char) { c == ' ' || c == '\t' }

  predicate IsDigit(c: char) { '0' <= c <= '9' }

  function DigitValue(c: char): nat
    requires IsDigit(c)
  {
    c as int - '0' as int
  }

  function Skip(s: string): (r: string)
    ensures |r| <= |s|
  {
    if s != "" && IsBlank(s[0]) then Skip(s[1..]) else s
  }

  predicate Starts(s: string, c: char) { s != "" && s[0] == c }

  /** The digits of a literal. */
  function Literal(v: int, s: string): (r: (int, string))
    ensures |r.1| <= |s|
    decreases |s|
  {
    if s != "" && IsDigit(s[0]) then Literal(I32(v * 10 + DigitValue(s[0])), s[1..]) else (v, s)
  }

  function Atoi(s: string): (r: (int, string))
    ensures |r.1| <= |s|
  {
    var t := Skip(s);
    if Starts(t, '-') then var (v, rest) := Literal(0, t[1..]); (I32(-v), rest)
    else if Starts(t, '+') then Literal(0, t[1..])
    else Literal(0, t)
  }

  /** What a function of the evaluator leaves: its value, the text at the cursor, and whether it raised the
      error flag. */
  datatype Read = Read(value: int, rest: string, err: bool)

  function After(err: bool, r: Read): Read { r.(err := err || r.err) }

  function ReadFactor(s: string): (r: Read)
    ensures |r.rest| <= |s|
    decreases |s|, 0
  {
    var t := Skip(s);
    if Starts(t, '(') then
      var e := ReadSum(t[1..]);
      var u := Skip(e.rest);
      if Starts(u, ')') then Read(e.value, u[1..], e.err) else Read(e.value, u, true)
    else if Starts(t, '-') then
      var f := ReadFactor(t[1..]);
      f.(value := I32(-f.value))
    else if t != "" && IsDigit(t[0]) then
      var (v, rest) := Atoi(t);
      Read(v, rest, false)
    else Read(0, t, true)
  }

  /** The loop of `calc_term`, holding `v`. */
  function MoreProduct(v: int, s: string): (r: Read)
    ensures |r.rest| <= |s|
    decreases |s|, 1
  {
    var t := Skip(s);
    if Starts(t, '*') then
      var f := ReadFactor(t[1..]);
      After(f.err, MoreProduct(I32(v * f.value), f.rest))
    else if Starts(t, '/') then
      var f := ReadFactor(t[1..]);
      if f.value == 0 then Read(0, f.rest, true)
      else After(f.err, MoreProduct(I32(Quotient(v, f.value)), f.rest))
    else Read(v, t, false)
  }

  function ReadProduct(s: string): (r: Read)
    ensures |r.rest| <= |s|
    decreases |s|, 2
  {
    var f := ReadFactor(s);
    After(f.err, MoreProduct(f.value, f.rest))
  }

  /** The loop of `calc_expr`, holding `v`. */
  function MoreSum(v: int, s: string): (r: Read)
    ensures |r.rest| <= |s|
    decreases |s|, 3
  {
    var t := Skip(s);
    if Starts(t, '+') then
      var p := ReadProduct(t[1..]);
      After(p.err, MoreSum(I32(v + p.value), p.rest))
    else if Starts(t, '-') then
      var p := ReadProduct(t[1..]);
      After(p.err, MoreSum(I32(v - p.value), p.rest))
    else Read(v, t, false)
  }

  function ReadSum(s: string): (r: Read)
    ensures |r.rest| <= |s|
    decreases |s|, 4
  {
    var p := ReadProduct(s);
    After(p.err, MoreSum(p.value, p.rest))
  }

  datatype Outcome = Usage | Invalid | Answer(value: int)

  function Evaluate(text: string): Outcome {
    var r := ReadSum(text);
    if r.err || Skip(r.rest) != "" then Invalid else Answer(r.value)
  }

  // ----- The grammar -----

  ghost predicate AllBlank(s: string) { forall i :: 0 <= i < |s| ==> s[i] == ' ' || s[i] == '\t' }

  ghost predicate AllDigits(s: string) { forall i :: 0 <= i < |s| ==> '0' <= s[i] <= '9' }

  type Blanks = s: string | AllBlank(s) witness ""
  type Digits = s: string | s != "" && AllDigits(s) witness "0"

  /** Written expressions, with their blanks and parentheses. */
  datatype Factor = Number(blanks: Blanks, digits: Digits)
                  | Minus(blanks: Blanks, factor: Factor)
                  | Group(blanks: Blanks, sum: Sum, closing: Blanks)
  datatype Product = OneFactor(factor: Factor)
                   | MoreFactors(product: Product, blanks: Blanks, op: ProductOp, factor: Factor)
  datatype Sum = OneProduct(product: Product) | MoreProducts(sum: Sum, blanks: Blanks, op: SumOp, product: Product)

  function WriteFactor(f: Factor): string {
    match f
    case Number(b, digits) => b + digits
    case Minus(b, g) => b + "-" + WriteFactor(g)
    case Group(b, e, closing) => b + "(" + WriteSum(e) + closing + ")"
  }

  function WriteProduct(p: Product): string {
    match p
    case OneFactor(f) => WriteFactor(f)
    case MoreFactors(q, b, op, f) => WriteProduct(q) + b + [Symbol(op)] + WriteFactor(f)
  }

  function WriteSum(e: Sum): string {
    match e
    case OneProduct(p) => WriteProduct(p)
    case MoreProducts(d, b, op, p) => WriteSum(d) + b + [Symbol(op)] + WriteProduct(p)
  }

  /** The number written by decimal digits, after some that made `v`. */
  function Decimal(v: nat, digits: string): nat
    requires AllDigits(digits)
    decreases |digits|
  {
    if digits == "" then v else Decimal(v * 10 + (digits[0] as int - 48), digits[1..])
  }

  /** What is meant: blanks and parentheses forgotten, chains of equal precedence grouped to the left. */
  function FactorTree(f: Factor): Tree {
    match f
    case Number(_, digits) => Num(Decimal(0, digits))
    case Minus(_, g) => Neg(FactorTree(g))
    case Group(_, e, _) => SumTree(e)
  }

  function ProductTree(p: Product): Tree {
    match p
    case OneFactor(f) => FactorTree(f)
    case MoreFactors(q, _, op, f) => Bin(op, ProductTree(q), FactorTree(f))
  }

  function SumTree(e: Sum): Tree {
    match e
    case OneProduct(p) => ProductTree(p)
    case MoreProducts(d, _, op, p) => Bin(op, SumTree(d), ProductTree(p))
  }

  // ----- Blanks and literals -----

  lemma {:induction false} SkipBlanks(b: string, r: string)
    requires AllBlank(b)
    ensures Skip(b + r) == Skip(r)
  {
    if b == "" {
      assert b + r == r;
    } else {
      assert (b + r)[1..] == b[1..] + r;
      SkipBlanks(b[1..], r);
    }
  }

  lemma {:induction false} SkipTwice(s: string)
    ensures Skip(Skip(s)) == Skip(s)
  {
    if s != "" && IsBlank(s[0]) { SkipTwice(s[1..]); }
  }

  lemma {:induction false} SkipSplits(s: string) returns (b: Blanks)
    ensures s == b + Skip(s)
  {
    if s != "" && IsBlank(s[0]) {
      var c := SkipSplits(s[1..]);
      b := [s[0]] + c;
      assert s == [s[0]] + s[1..];
    } else {
      b := "";
    }
  }

  lemma WrapStep(v: int, d: int)
    ensures I32(I32(v) * 10 + d) == I32(v * 10 + d)
  {
    var k := (v + 0x8000_0000) / WORD;
    assert I32(v) == v - k * WORD;
  }

  lemma {:induction false} LiteralReads(v: nat, digits: string, r: string)
    requires AllDigits(digits) && (r == "" || !IsDigit(r[0]))
    ensures Literal(I32(v), digits + r) == (I32(Decimal(v, digits)), r)
    decreases |digits|
  {
    hide I32;
    if digits == "" {
      assert digits + r == r;
    } else {
      WrapStep(v, DigitValue(digits[0]));
      assert (digits + r)[1..] == digits[1..] + r;
      LiteralReads(v * 10 + DigitValue(digits[0]), digits[1..], r);
    }
  }

  lemma {:induction false} LiteralSplits(v: nat, s: string) returns (digits: string)
    ensures AllDigits(digits) && s == digits + Literal(I32(v), s).1
    ensures Literal(I32(v), s).0 == I32(Decimal(v, digits))
    ensures s != "" && IsDigit(s[0]) ==> digits != ""
    decreases |s|
  {
    hide I32;
    if s != "" && IsDigit(s[0]) {
      var d := DigitValue(s[0]);
      WrapStep(v, d);
      var more := LiteralSplits(v * 10 + d, s[1..]);
      digits := [s[0]] + more;
      assert digits[1..] == more && s == [s[0]] + s[1..];
    } else {
      digits := "";
    }
  }

  // ----- Every written expression is read -----

  predicate NoDigit(r: string) { r == "" || !IsDigit(r[0]) }

  /** What may follow a factor so that its product ends there. */
  predicate EndsProduct(r: string) { NoDigit(r) && !Starts(Skip(r), '*') && !Starts(Skip(r), '/') }

  /** `r` is the outcome of reading something that means `t` and stopping with `rest`. */
  ghost predicate Reads(t: Tree, rest: string, r: Read) {
    if Divides(t) then r == Read(Wrapped(t), rest, false) else r.err
  }

  ghost predicate ReadsOnProduct(t: Tree, rest: string, r: Read) {
    if Divides(t) then r == MoreProduct(Wrapped(t), rest) else r.err
  }

  ghost predicate ReadsOnSum(t: Tree, rest: string, r: Read) {
    if Divides(t) then r == MoreSum(Wrapped(t), rest) else r.err
  }

  lemma {:induction false} FactorRead(f: Factor, r: string)
    requires NoDigit(r)
    ensures Reads(FactorTree(f), r, ReadFactor(WriteFactor(f) + r))
    decreases f
  {
    match f
    case Number(b, digits) => NumberRead(b, digits, r);
    case Minus(b, g) =>
      FactorRead(g, r);
      MinusRead(b, g, r);
    case Group(b, e, closing) =>
      CloseEnds(closing, r);
      SumRead(e, closing + ")" + r);
      GroupRead(b, e, closing, r);
  }

  lemma NumberRead(b: Blanks, digits: Digits, r: string)
    requires NoDigit(r)
    ensures ReadFactor(b + digits + r) == Read(I32(Decimal(0, digits)), r, false)
  {
    hide I32;
    assert b + digits + r == b + (digits + r);
    SkipBlanks(b, digits + r);
    LiteralReads(0, digits, r);
    assert I32(0) == 0;
  }

  lemma MinusRead(b: Blanks, g: Factor, r: string)
    requires Reads(FactorTree(g), r, ReadFactor(WriteFactor(g) + r))
    ensures Reads(Neg(FactorTree(g)), r, ReadFactor(b + "-" + WriteFactor(g) + r))
  {
    hide I32, WriteFactor, FactorTree;
    var t := "-" + WriteFactor(g) + r;
    assert b + "-" + WriteFactor(g) + r == b + t;
    SkipBlanks(b, t);
    assert t[1..] == WriteFactor(g) + r;
  }

  lemma CloseEnds(closing: Blanks, r: string)
    ensures EndsProduct(closing + ")" + r) && Skip(closing + ")" + r) == ")" + r
  {
    assert closing + ")" + r == closing + (")" + r);
    SkipBlanks(closing, ")" + r);
  }

  lemma GroupRead(b: Blanks, e: Sum, closing: Blanks, r: string)
    requires ReadsOnSum(SumTree(e), closing + ")" + r, ReadSum(WriteSum(e) + (closing + ")" + r)))
    ensures Reads(SumTree(e), r, ReadFactor(b + "(" + WriteSum(e) + closing + ")" + r))
  {
    hide I32, WriteSum, SumTree, ReadSum;
    var inner := WriteSum(e) + (closing + ")" + r);
    assert b + "(" + WriteSum(e) + closing + ")" + r == b + ("(" + inner);
    SkipBlanks(b, "(" + inner);
    assert ("(" + inner)[1..] == inner;
    CloseEnds(closing, r);
  }

  lemma {:induction false} ProductRead(p: Product, r: string)
    requires NoDigit(r)
    ensures ReadsOnProduct(ProductTree(p), r, ReadProduct(WriteProduct(p) + r))
    decreases p
  {
    match p
    case OneFactor(f) => FactorRead(f, r);
    case MoreFactors(q, b, op, f) =>
      var more := b + ([Symbol(op)] + (WriteFactor(f) + r));
      ProductRead(q, more);
      FactorRead(f, r);
      MoreProductRead(ProductTree(q), b, op, f, r);
      assert WriteProduct(p) + r == WriteProduct(q) + more;
  }

  lemma MoreProductRead(t: Tree, b: Blanks, op: ProductOp, f: Factor, r: string)
    requires Reads(FactorTree(f), r, ReadFactor(WriteFactor(f) + r))
    ensures Divides(t) ==>
      ReadsOnProduct(Bin(op, t, FactorTree(f)), r, MoreProduct(Wrapped(t), b + ([Symbol(op)] + (WriteFactor(f) + r))))
  {
    hide I32, Quotient, WriteFactor, FactorTree, ReadFactor;
    var next := [Symbol(op)] + (WriteFactor(f) + r);
    SkipBlanks(b, next);
    assert next[1..] == WriteFactor(f) + r;
  }

  lemma {:induction false} SumRead(e: Sum, r: string)
    requires EndsProduct(r)
    ensures ReadsOnSum(SumTree(e), r, ReadSum(WriteSum(e) + r))
    decreases e
  {
    hide I32, Skip, WriteProduct, ProductTree, ReadProduct, MoreSum, Wrapped, Divides;
    match e
    case OneProduct(p) =>
      ProductRead(p, r);
      OneProductRead(p, r);
    case MoreProducts(d, b, op, p) =>
      var more := b + ([Symbol(op)] + (WriteProduct(p) + r));
      OperatorEnds(b, op, WriteProduct(p) + r);
      SumRead(d, more);
      ProductRead(p, r);
      MoreSumRead(SumTree(d), b, op, p, r);
      assert WriteSum(e) + r == WriteSum(d) + more;
      OnSumMeans(SumTree(d), op, ProductTree(p), more, r, ReadSum(WriteSum(d) + more));
  }

  lemma OneProductRead(p: Product, r: string)
    requires EndsProduct(r) && ReadsOnProduct(ProductTree(p), r, ReadProduct(WriteProduct(p) + r))
    ensures ReadsOnSum(ProductTree(p), r, ReadSum(WriteProduct(p) + r))
  {
    hide I32, ProductTree, ReadProduct, WriteProduct, Wrapped, Divides;
    var v := if Divides(ProductTree(p)) then Wrapped(ProductTree(p)) else 0;
    EndedProduct(v, r);
    MoreSumSkips(v, r);
  }

  /** An operator after blanks ends a product and is no digit. */
  lemma OperatorEnds(b: Blanks, op: SumOp, r: string)
    ensures EndsProduct(b + ([Symbol(op)] + r))
  {
    SkipBlanks(b, [Symbol(op)] + r);
  }

  lemma OnSumMeans(t: Tree, op: Op, u: Tree, more: string, r: string, read: Read)
    requires ReadsOnSum(t, more, read)
    requires Divides(t) ==> ReadsOnSum(Bin(op, t, u), r, MoreSum(Wrapped(t), more))
    ensures ReadsOnSum(Bin(op, t, u), r, read)
  {
    hide MoreSum, Wrapped;
  }

  lemma MoreSumSkips(v: int, r: string)
    ensures MoreSum(v, Skip(r)) == MoreSum(v, r)
  {}

  lemma MoreSumRead(t: Tree, b: Blanks, op: SumOp, p: Product, r: string)
    requires EndsProduct(r) && ReadsOnProduct(ProductTree(p), r, ReadProduct(WriteProduct(p) + r))
    ensures Divides(t) ==>
      ReadsOnSum(Bin(op, t, ProductTree(p)), r, MoreSum(Wrapped(t), b + ([Symbol(op)] + (WriteProduct(p) + r))))
  {
    hide I32, WriteProduct, ProductTree, ReadProduct, MoreSum, Skip;
    var next := [Symbol(op)] + (WriteProduct(p) + r);
    SkipBlanks(b, next);
    NotBlank(op, next);
    assert next[1..] == WriteProduct(p) + r;
    if Divides(t) {
      SumUnfolds(Wrapped(t), b + next);
      if Divides(ProductTree(p)) {
        EndedProduct(Wrapped(ProductTree(p)), r);
        MoreSumSkips(Wrapped(Bin(op, t, ProductTree(p))), r);
      }
    }
  }

  lemma NotBlank(op: Op, s: string)
    requires Starts(s, Symbol(op))
    ensures Skip(s) == s
  {}

  lemma EndedProduct(v: int, r: string)
    requires EndsProduct(r)
    ensures MoreProduct(v, r) == Read(v, Skip(r), false)
  {}

  // ----- And nothing else is accepted -----

  ghost predicate Means(t: Tree, v: int) { Divides(t) && v == Wrapped(t) }

  lemma {:induction false} FactorWritten(s: string) returns (f: Factor)
    requires !ReadFactor(s).err
    ensures s == WriteFactor(f) + ReadFactor(s).rest && Means(FactorTree(f), ReadFactor(s).value)
    decreases |s|, 0
  {
    hide Skip, WriteFactor, FactorTree, Means, ReadFactor;
    var b := SkipSplits(s);
    var t := Skip(s);
    GroupFails(s);
    if Starts(t, '(') {
      var e, c := SumWritten(t[1..]);
      f := GroupWritten(s, b, e, c);
    } else if Starts(t, '-') {
      var g := FactorWritten(t[1..]);
      f := Minus(b, g);
      MinusWritten(s, b, g);
    } else {
      f := NumberWritten(s, b);
    }
  }

  lemma GroupFails(s: string)
    requires !ReadFactor(s).err
    ensures Starts(Skip(s), '(') ==> !ReadSum(Skip(s)[1..]).err
    ensures Starts(Skip(s), '-') ==> !ReadFactor(Skip(s)[1..]).err
  {}

  lemma GroupWritten(s: string, b: Blanks, e: Sum, c: Blanks) returns (f: Factor)
    requires s == b + Skip(s) && Starts(Skip(s), '(') && !ReadFactor(s).err
    requires var r := ReadSum(Skip(s)[1..]); Skip(s)[1..] == WriteSum(e) + c + r.rest && Means(SumTree(e), r.value)
    ensures s == WriteFactor(f) + ReadFactor(s).rest && Means(FactorTree(f), ReadFactor(s).value)
  {
    hide ReadSum, ReadFactor, WriteSum, SumTree, Means, Skip;
    var t := Skip(s);
    var r := ReadSum(t[1..]);
    var u := Skip(r.rest);
    GroupUnfolds(s);
    var c' := SkipSplits(r.rest);
    f := Group(b, e, c + c');
    GroupText(s, b, t, WriteSum(e), c, c', r.rest, u);
  }

  lemma GroupUnfolds(s: string)
    requires Starts(Skip(s), '(')
    ensures var r := ReadSum(Skip(s)[1..]);
      ReadFactor(s) == if Starts(Skip(r.rest), ')') then Read(r.value, Skip(r.rest)[1..], r.err)
                       else Read(r.value, Skip(r.rest), true)
  {}

  lemma GroupText(s: string, b: string, t: string, w: string, c: string, c': string, rest: string, u: string)
    requires s == b + t && Starts(t, '(') && t[1..] == w + c + rest && rest == c' + u && Starts(u, ')')
    ensures s == b + "(" + w + (c + c') + ")" + u[1..]
  {}

  lemma MinusWritten(s: string, b: Blanks, g: Factor)
    requires s == b + Skip(s) && Starts(Skip(s), '-')
    requires var r := ReadFactor(Skip(s)[1..]); Skip(s)[1..] == WriteFactor(g) + r.rest && Means(FactorTree(g), r.value)
    ensures s == WriteFactor(Minus(b, g)) + ReadFactor(s).rest && Means(FactorTree(Minus(b, g)), ReadFactor(s).value)
  {
    hide Skip, I32;
    var t := Skip(s);
    StepText(s, "", b, t, '-', WriteFactor(g), ReadFactor(t[1..]).rest);
  }

  lemma NumberWritten(s: string, b: Blanks) returns (f: Factor)
    requires s == b + Skip(s) && !Starts(Skip(s), '(') && !Starts(Skip(s), '-') && !ReadFactor(s).err
    ensures s == WriteFactor(f) + ReadFactor(s).rest && Means(FactorTree(f), ReadFactor(s).value)
  {
    hide I32, Skip, Literal, ReadFactor;
    var t := Skip(s);
    NumberUnfolds(s);
    var digits := LiteralSplits(0, t);
    f := Number(b, digits);
    Associate(b, digits, Literal(0, t).1);
  }

  lemma NumberUnfolds(s: string)
    requires !Starts(Skip(s), '(') && !Starts(Skip(s), '-') && !ReadFactor(s).err
    ensures I32(0) == 0 && Starts(Skip(s), Skip(s)[0]) && IsDigit(Skip(s)[0])
    ensures var (v, rest) := Literal(0, Skip(s)); ReadFactor(s) == Read(v, rest, false)
  {}

  lemma {:induction false} MoreProductWritten(p: Product, s: string) returns (q: Product, b: Blanks)
    requires Divides(ProductTree(p)) && !MoreProduct(Wrapped(ProductTree(p)), s).err
    ensures var r := MoreProduct(Wrapped(ProductTree(p)), s);
      WriteProduct(p) + s == WriteProduct(q) + b + r.rest && Means(ProductTree(q), r.value)
    decreases |s|, 1
  {
    hide I32, Quotient, ReadFactor, WriteProduct, Wrapped;
    b := SkipSplits(s);
    var t := Skip(s);
    if Starts(t, '*') || Starts(t, '/') {
      var f := FactorWritten(t[1..]);
      var p' := ProductStep(p, b, s, f);
      q, b := MoreProductWritten(p', ReadFactor(t[1..]).rest);
    } else {
      q := p;
      assert WriteProduct(p) + s == WriteProduct(q) + b + t;
    }
  }

  /** One turn of the loop appends one factor. */
  lemma ProductStep(p: Product, b: Blanks, s: string, f: Factor) returns (q: Product)
    requires Divides(ProductTree(p)) && !MoreProduct(Wrapped(ProductTree(p)), s).err
    requires s == b + Skip(s) && (Starts(Skip(s), '*') || Starts(Skip(s), '/'))
    requires Skip(s)[1..] == WriteFactor(f) + ReadFactor(Skip(s)[1..]).rest
    requires Means(FactorTree(f), ReadFactor(Skip(s)[1..]).value)
    ensures WriteProduct(p) + s == WriteProduct(q) + ReadFactor(Skip(s)[1..]).rest && Divides(ProductTree(q))
    ensures MoreProduct(Wrapped(ProductTree(p)), s) ==
      MoreProduct(Wrapped(ProductTree(q)), ReadFactor(Skip(s)[1..]).rest)
  {
    hide I32, Quotient, ReadFactor, WriteFactor, FactorTree, Skip, MoreProduct, ProductTree;
    var t := Skip(s);
    var op: ProductOp := if t[0] == '*' then Mul else Div;
    q := MoreFactors(p, b, op, f);
    ProductUnfolds(Wrapped(ProductTree(p)), s);
    ProductTreeUnfolds(p, b, op, f);
    StepText(s, WriteProduct(p), b, t, Symbol(op), WriteFactor(f), ReadFactor(t[1..]).rest);
  }

  lemma ProductTreeUnfolds(p: Product, b: Blanks, op: ProductOp, f: Factor)
    ensures ProductTree(MoreFactors(p, b, op, f)) == Bin(op, ProductTree(p), FactorTree(f))
  {}

  lemma ProductUnfolds(v: int, s: string)
    requires Starts(Skip(s), '*') || Starts(Skip(s), '/')
    ensures !MoreProduct(v, s).err ==>
      var f := ReadFactor(Skip(s)[1..]);
      !f.err && (Starts(Skip(s), '/') ==> f.value != 0) &&
      MoreProduct(v, s) == MoreProduct(I32(Exactly(if Starts(Skip(s), '*') then Mul else Div, v, f.value)), f.rest)
  {}

  lemma StepText(s: string, before: string, b: string, t: string, symbol: char, w: string, rest: string)
    requires s == b + t && Starts(t, symbol) && t[1..] == w + rest
    ensures before + s == before + b + [symbol] + w + rest
  {}

  lemma {:induction false} ProductWritten(s: string) returns (p: Product, b: Blanks)
    requires !ReadProduct(s).err
    ensures s == WriteProduct(p) + b + ReadProduct(s).rest && Means(ProductTree(p), ReadProduct(s).value)
    decreases |s|, 2
  {
    var f := FactorWritten(s);
    p, b := MoreProductWritten(OneFactor(f), ReadFactor(s).rest);
  }

  lemma {:induction false} MoreSumWritten(d: Sum, c: Blanks, s: string) returns (e: Sum, b: Blanks)
    requires Divides(SumTree(d)) && !MoreSum(Wrapped(SumTree(d)), s).err
    ensures var r := MoreSum(Wrapped(SumTree(d)), s);
      WriteSum(d) + c + s == WriteSum(e) + b + r.rest && Means(SumTree(e), r.value)
    decreases |s|, 3
  {
    hide I32, WriteSum, SumTree, ReadProduct, Wrapped;
    var b' := SkipSplits(s);
    b := c + b';
    var t := Skip(s);
    if Starts(t, '+') || Starts(t, '-') {
      var p, a := ProductWritten(t[1..]);
      var d' := SumStep(d, c, b', s, p, a);
      e, b := MoreSumWritten(d', a, ReadProduct(t[1..]).rest);
    } else {
      e := d;
      assert WriteSum(d) + c + s == WriteSum(e) + (c + b') + t;
    }
  }

  /** One turn of the loop appends one product. */
  lemma SumStep(d: Sum, c: Blanks, b: Blanks, s: string, p: Product, a: Blanks) returns (e: Sum)
    requires Divides(SumTree(d)) && !MoreSum(Wrapped(SumTree(d)), s).err
    requires s == b + Skip(s) && (Starts(Skip(s), '+') || Starts(Skip(s), '-'))
    requires Skip(s)[1..] == WriteProduct(p) + a + ReadProduct(Skip(s)[1..]).rest
    requires Means(ProductTree(p), ReadProduct(Skip(s)[1..]).value)
    ensures WriteSum(d) + c + s == WriteSum(e) + a + ReadProduct(Skip(s)[1..]).rest && Divides(SumTree(e))
    ensures MoreSum(Wrapped(SumTree(d)), s) == MoreSum(Wrapped(SumTree(e)), ReadProduct(Skip(s)[1..]).rest)
  {
    hide I32, ReadProduct, WriteProduct, ProductTree, Skip, MoreSum, SumTree;
    var t := Skip(s);
    var op: SumOp := if t[0] == '+' then Add else Sub;
    e := MoreProducts(d, c + b, op, p);
    SumUnfolds(Wrapped(SumTree(d)), s);
    SumTreeUnfolds(d, c + b, op, p);
    var rest := ReadProduct(t[1..]).rest;
    assert t[1..] == WriteProduct(p) + (a + rest) by { Associate(WriteProduct(p), a, rest); }
    assert (c + b) + t == c + s by { Associate(c, b, t); }
    StepText((c + b) + t, WriteSum(d), c + b, t, Symbol(op), WriteProduct(p), a + rest);
    Associate(WriteSum(d), c, s);
    Associate(WriteSum(e), a, rest);
  }

  lemma Associate(x: string, y: string, z: string)
    ensures x + y + z == x + (y + z)
  {}

  lemma SumTreeUnfolds(d: Sum, b: Blanks, op: SumOp, p: Product)
    ensures SumTree(MoreProducts(d, b, op, p)) == Bin(op, SumTree(d), ProductTree(p))
  {}

  lemma SumUnfolds(v: int, s: string)
    requires Starts(Skip(s), '+') || Starts(Skip(s), '-')
    ensures var p := ReadProduct(Skip(s)[1..]);
      MoreSum(v, s) == After(p.err,
        MoreSum(I32(Exactly(if Starts(Skip(s), '+') then Add else Sub, v, p.value)), p.rest))
  {}

  lemma {:induction false} SumWritten(s: string) returns (e: Sum, b: Blanks)
    requires !ReadSum(s).err
    ensures s == WriteSum(e) + b + ReadSum(s).rest && Means(SumTree(e), ReadSum(s).value)
    decreases |s|, 4
  {
    var p, c := ProductWritten(s);
    e, b := MoreSumWritten(OneProduct(p), c, ReadProduct(s).rest);
  }

  // ----- The evaluator decides the grammar -----

  /** `text` is `e` as written, then blanks. */
  ghost predicate Written(text: string, e: Sum) { exists b: Blanks :: text == WriteSum(e) + b }

  /** A written expression gets the value it means; with a zero divisor it is refused. */
  lemma WrittenIsEvaluated(text: string, e: Sum)
    requires Written(text, e)
    ensures Evaluate(text) == if Divides(SumTree(e)) then Answer(Wrapped(SumTree(e))) else Invalid
  {
    var b: Blanks :| text == WriteSum(e) + b;
    SkipBlanks(b, "");
    assert b + "" == b;
    SumRead(e, b);
  }

  /** Accepted, with a value, are exactly the texts of the grammar with no zero divisor and that value. */
  lemma AcceptsExactly(text: string, v: int)
    ensures Evaluate(text) == Answer(v) <==> exists e :: Written(text, e) && Means(SumTree(e), v)
  {
    if Evaluate(text) == Answer(v) {
      var e, b := SumWritten(text);
      var c := SkipSplits(ReadSum(text).rest);
      var end: Blanks := b + c;
      assert text == WriteSum(e) + end;
      assert Written(text, e) && Means(SumTree(e), v);
    }
    forall e | Written(text, e) && Means(SumTree(e), v) ensures Evaluate(text) == Answer(v) {
      WrittenIsEvaluated(text, e);
    }
  }

  // ----- The printer -----

  function DigitsOf(n: nat): Digits {
    if n < 10 then [(n + '0' as int) as char] else DigitsOf(n / 10) + [(n % 10 + '0' as int) as char]
  }

  lemma {:induction false} DecimalSnoc(v: nat, digits: string, c: char)
    requires AllDigits(digits) && IsDigit(c)
    ensures AllDigits(digits + [c]) && Decimal(v, digits + [c]) == Decimal(v, digits) * 10 + DigitValue(c)
    decreases |digits|
  {
    if digits == "" {
      assert digits + [c] == [c];
    } else {
      assert (digits + [c])[1..] == digits[1..] + [c];
      DecimalSnoc(v * 10 + DigitValue(digits[0]), digits[1..], c);
    }
  }

  lemma {:induction false} DigitsDenote(n: nat)
    ensures Decimal(0, DigitsOf(n)) == n
  {
    if n >= 10 {
      DigitsDenote(n / 10);
      DecimalSnoc(0, DigitsOf(n / 10), (n % 10 + '0' as int) as char);
    }
  }

  predicate IsSum(t: Tree) { t.Bin? && (t.op.Add? || t.op.Sub?) }

  predicate IsProduct(t: Tree) { t.Bin? && (t.op.Mul? || t.op.Div?) }

  /** A tree written with parentheses only where precedence and left association need them. */
  function FactorOf(t: Tree): Factor
    decreases t, if t.Bin? then if IsSum(t) then 2 else 3 else 1
  {
    match t
    case Num(n) => Number("", DigitsOf(n))
    case Neg(u) => Minus("", FactorOf(u))
    case Bin(_, _, _) => Group("", SumOf(t), "")
  }

  function ProductOf(t: Tree): Product
    decreases t, if t.Bin? then if IsSum(t) then 3 else 1 else 2
  {
    if IsProduct(t) then MoreFactors(ProductOf(t.left), "", t.op, FactorOf(t.right)) else OneFactor(FactorOf(t))
  }

  function SumOf(t: Tree): Sum
    decreases t, if t.Bin? then if IsSum(t) then 1 else 2 else 3
  {
    if IsSum(t) then MoreProducts(SumOf(t.left), "", t.op, ProductOf(t.right)) else OneProduct(ProductOf(t))
  }

  lemma {:induction false} FactorOfMeans(t: Tree)
    ensures FactorTree(FactorOf(t)) == t
    decreases t, if t.Bin? then if IsSum(t) then 2 else 3 else 1
  {
    match t
    case Num(n) => DigitsDenote(n);
    case Neg(u) => FactorOfMeans(u);
    case Bin(_, _, _) => SumOfMeans(t);
  }

  lemma {:induction false} ProductOfMeans(t: Tree)
    ensures ProductTree(ProductOf(t)) == t
    decreases t, if t.Bin? then if IsSum(t) then 3 else 1 else 2
  {
    if IsProduct(t) {
      ProductOfMeans(t.left);
      FactorOfMeans(t.right);
    } else {
      FactorOfMeans(t);
    }
  }

  lemma {:induction false} SumOfMeans(t: Tree)
    ensures SumTree(SumOf(t)) == t
    decreases t, if t.Bin? then if IsSum(t) then 1 else 2 else 3
  {
    if IsSum(t) {
      SumOfMeans(t.left);
      ProductOfMeans(t.right);
    } else {
      ProductOfMeans(t);
    }
  }

  /** However a computable tree is written - any blanks, any extra parentheses - its value comes back. */
  lemma EvaluatesExactly(text: string, e: Sum)
    requires Written(text, e) && Computable(SumTree(e))
    ensures Evaluate(text) == Answer(Exact(SumTree(e)))
  {
    WrittenIsEvaluated(text, e);
    WrappedIsExact(SumTree(e));
  }

  /** In particular as the printer writes it. */
  lemma UndoesPrinter(t: Tree)
    requires Computable(t)
    ensures Evaluate(WriteSum(SumOf(t))) == Answer(Exact(t))
  {
    SumOfMeans(t);
    assert WriteSum(SumOf(t)) == WriteSum(SumOf(t)) + "";
    EvaluatesExactly(WriteSum(SumOf(t)), SumOf(t));
  }
}
