/** The evaluator of `calc` as the kernel runs it: a global cursor into the text and an error flag. */
module CalcCursor {
  import opened Calc

  class Evaluator {
    const text: string
    var p: nat
    var err: bool

    constructor (text: string)
      ensures this.text == text && Valid() && p == 0 && !err && Rest() == text
    {
      this.text := text;
      p := 0;
      err := false;
    }

    predicate Valid()
      reads this`p
    {
      p <= |text|
    }

    /** The text at the cursor. */
    function Rest(): string
      requires Valid()
      reads this`p
    {
      text[p..]
    }

    /** The character at the cursor, NUL at the end of the text. */
    function Peek(): (c: char)
      requires Valid()
      reads this`p
      ensures forall d :: d != '\0' ==> (c == d <==> Starts(Rest(), d))
      ensures c != '\0' ==> p < |text|
    {
      if p < |text| then text[p] else '\0'
    }

    /** `g_calc_p++`. */
    method Advance()
      requires Valid() && p < |text|
      modifies this`p
      ensures Valid() && Rest() == old(Rest())[1..] && p == old(p) + 1
    {
      p := p + 1;
    }

    method SkipBlank()
      requires Valid()
      modifies this`p
      ensures Valid() && Rest() == Skip(old(Rest())) && p >= old(p)
    {
      while p < |text| && IsBlank(text[p])
        invariant Valid() && Skip(Rest()) == Skip(old(Rest())) && p >= old(p)
      {
        Advance();
      }
    }

    method ParseDigits(start: nat) returns (v: int, end: nat)
      requires start <= |text|
      ensures start <= end <= |text| && (v, text[end..]) == Literal(0, text[start..])
      ensures -0x8000_0000 <= v < 0x8000_0000
    {
      v, end := 0, start;
      while end < |text| && IsDigit(text[end])
        invariant start <= end <= |text| && Literal(v, text[end..]) == Literal(0, text[start..])
        invariant -0x8000_0000 <= v < 0x8000_0000
      {
        assert text[end..][1..] == text[end + 1..];
        v := I32(v * 10 + DigitValue(text[end]));
        end := end + 1;
      }
    }

    /** `cu_atoi`: blanks, a sign, and digits, with the value cut to 32 bits. */
    method ParseInt(start: nat) returns (v: int, end: nat)
      requires start <= |text|
      ensures start <= end <= |text| && (v, text[end..]) == Atoi(text[start..])
    {
      hide I32, Literal;
      end := start;
      while end < |text| && IsBlank(text[end])
        invariant start <= end <= |text| && Skip(text[end..]) == Skip(text[start..])
      {
        assert text[end..][1..] == text[end + 1..];
        end := end + 1;
      }
      var sign := 1;
      if end < |text| && text[end] == '-' {
        sign := -1;
        end := end + 1;
      } else if end < |text| && text[end] == '+' {
        end := end + 1;
      }
      v, end := ParseDigits(end);
      v := I32(v * sign);
    }

    /** The call read `r`: its value, where it left the cursor, and the flag, which stays raised. */
    ghost predicate Has(r: Read, v: int, before: bool)
      reads this
    {
      Valid() && v == r.value && Rest() == r.rest && err == (before || r.err)
    }

    method ReadFactorHere() returns (v: int)
      requires Valid()
      modifies this`p, this`err
      ensures Has(ReadFactor(old(Rest())), v, old(err)) && p >= old(p)
      decreases |text| - p, 0
    {
      hide I32, Skip, ReadSum, Atoi;
      SkipBlank();
      if Peek() == '(' {
        Advance();
        v := ReadSumHere();
        SkipBlank();
        if Peek() == ')' { Advance(); } else { err := true; }
        return;
      }
      if Peek() == '-' {
        Advance();
        v := ReadFactorHere();
        v := I32(-v);
        return;
      }
      if IsDigit(Peek()) {
        var end;
        v, end := ParseInt(p);
        p := end;
        return;
      }
      err := true;
      v := 0;
    }

    method ReadProductHere() returns (v: int)
      requires Valid()
      modifies this`p, this`err
      ensures Has(ReadProduct(old(Rest())), v, old(err)) && p >= old(p)
      decreases |text| - p, 1
    {
      hide I32, Skip, ReadFactor, Quotient, Rest, Peek;
      ghost var s := Rest();
      v := ReadFactorHere();
      ghost var e := ReadFactor(s).err;
      while true
        invariant Valid() && p >= old(p)
        invariant err == (old(err) || e)
        invariant ReadProduct(s) == After(e, MoreProduct(v, Rest()))
        decreases |text| - p
      {
        SkipBlank();
        var op := Peek();
        if op != '*' && op != '/' { break; }
        Advance();
        ghost var f := ReadFactor(Rest());
        var r := ReadFactorHere();
        e := e || f.err;
        if op == '*' {
          v := I32(v * r);
        } else {
          if r == 0 {
            err := true;
            return 0;
          }
          v := I32(Quotient(v, r));
        }
      }
    }

    method ReadSumHere() returns (v: int)
      requires Valid()
      modifies this`p, this`err
      ensures Has(ReadSum(old(Rest())), v, old(err)) && p >= old(p)
      decreases |text| - p, 2
    {
      hide I32, Skip, ReadProduct, Rest, Peek;
      ghost var s := Rest();
      v := ReadProductHere();
      ghost var e := ReadProduct(s).err;
      while true
        invariant Valid() && p >= old(p)
        invariant err == (old(err) || e)
        invariant ReadSum(s) == After(e, MoreSum(v, Rest()))
        decreases |text| - p
      {
        SkipBlank();
        var op := Peek();
        if op != '+' && op != '-' { break; }
        Advance();
        ghost var f := ReadProduct(Rest());
        var r := ReadProductHere();
        e := e || f.err;
        v := I32(if op == '+' then v + r else v - r);
      }
    }
  }

  /** `cmd_calc`, up to what it prints. */
  method Command(arg: string) returns (o: Outcome)
    ensures o == if arg == "" || arg == "-help" then Usage else Evaluate(arg)
  {
    if arg == "" || arg == "-help" { return Usage; }
    var c := new Evaluator(arg);
    var v := c.ReadSumHere();
    c.SkipBlank();
    o := if c.err || c.p < |c.text| then Invalid else Answer(v);
  }
}
