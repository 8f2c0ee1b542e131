/** A small interpreter for the C `sprintf` format strings the render
    functions pass: literal characters are copied, and `%d`, `%u`, `%x` and
    `%s` each consume one argument of the matching kind. It is the
    reference each render function is proved against, so that the model's
    text is tied to the literal format strings of the source. */
module Format {
  import opened Wrappers
  import opened Numerals

  datatype Arg = Int(i: int) | Uint(n: nat) | Str(s: string)

  function Prepend(p: string, rest: Option<string>): Option<string> {
    match rest
    case Some(t) => Some(p + t)
    case None => None
  }

  /** The text of one conversion, or None when the argument does not have the
      kind the conversion expects (undefined behaviour in C). */
  function Convert(conversion: char, a: Arg): Option<string> {
    match (conversion, a)
    case ('d', Int(i)) => Some(SignedDecimal(i))
    case ('u', Uint(n)) => Some(Decimal(n))
    case ('x', Uint(n)) => Some(Hex(n))
    case ('s', Str(t)) => Some(t)
    case _ => None
  }

  /** Arguments beyond those the format consumes are ignored, as in C. */
  function Sprintf(fmt: string, args: seq<Arg>): Option<string>
    decreases |fmt|
  {
    if |fmt| == 0 then Some("")
    else if fmt[0] != '%' then Prepend([fmt[0]], Sprintf(fmt[1..], args))
    else if |fmt| < 2 || |args| == 0 then None
    else
      match Convert(fmt[1], args[0])
      case Some(t) => Prepend(t, Sprintf(fmt[2..], args[1..]))
      case None => None
  }

  /** A run of literal characters is copied through unchanged. */
  lemma {:induction false} SprintfLiteral(p: string, rest: string, args: seq<Arg>)
    requires '%' !in p
    ensures Sprintf(p + rest, args) == Prepend(p, Sprintf(rest, args))
    decreases |p|
  {
    if |p| > 0 {
      assert (p + rest)[0] == p[0];
      assert (p + rest)[1..] == p[1..] + rest;
      SprintfLiteral(p[1..], rest, args);
      assert [p[0]] + p[1..] == p;
      match Sprintf(rest, args)
      case Some(t) =>
        assert [p[0]] + (p[1..] + t) == p + t;
      case None =>
    } else {
      assert p + rest == rest;
      match Sprintf(rest, args)
      case Some(t) =>
        assert p + t == t;
      case None =>
    }
  }

  /** One conversion consumes exactly one argument. */
  lemma SprintfConversion(c: char, rest: string, a: Arg, args: seq<Arg>)
    requires Convert(c, a).Some?
    ensures Sprintf(['%', c] + rest, [a] + args)
         == Prepend(Convert(c, a).value, Sprintf(rest, args))
  {
    var fmt := ['%', c] + rest;
    assert fmt[0] == '%' && fmt[1] == c && fmt[2..] == rest;
    assert ([a] + args)[0] == a && ([a] + args)[1..] == args;
  }

  predicate Plain(t: string) {
    '%' !in t
  }

  /** A format that is only literal text prints that text. */
  lemma SprintfPlain(t: string, args: seq<Arg>)
    requires Plain(t)
    ensures Sprintf(t, args) == Some(t)
  {
    SprintfLiteral(t, "", args);
    assert t + "" == t;
  }

  /** A text run followed by a conversion prints the run, then the
      converted first argument, then whatever the rest of the format prints
      with the remaining arguments. */
  lemma SprintfStep(t: string, c: char, rest: string, a: Arg, x: string, args: seq<Arg>)
    requires Plain(t)
    requires Convert(c, a) == Some(x)
    ensures Sprintf(t + (['%', c] + rest), [a] + args) == Prepend(t, Prepend(x, Sprintf(rest, args)))
  {
    SprintfLiteral(t, ['%', c] + rest, [a] + args);
    SprintfConversion(c, rest, a, args);
  }

  /** Formats of two, three and four conversions, each between text runs
      without '%', print the runs with the converted arguments in order. */
  lemma Sprintf2(t0: string, c1: char, t2: string, c3: char, t4: string,
                 a1: Arg, a3: Arg, x1: string, x3: string)
    requires Plain(t0) && Plain(t2) && Plain(t4)
    requires Convert(c1, a1) == Some(x1) && Convert(c3, a3) == Some(x3)
    ensures Sprintf(t0 + (['%', c1] + (t2 + (['%', c3] + t4))), [a1] + [a3])
         == Some(t0 + x1 + t2 + x3 + t4)
  {
    SprintfPlain(t4, []);
    SprintfStep(t2, c3, t4, a3, x3, []);
    assert [a3] + [] == [a3];
    SprintfStep(t0, c1, t2 + (['%', c3] + t4), a1, x1, [a3]);
    var t01 := t0 + x1;
    Regroup3(t0, x1, t2 + (x3 + t4));
    Regroup3(t2, x3, t4);
    Regroup3(t01, t2 + x3, t4);
    Regroup3(t01, t2, x3);
  }

  lemma Sprintf3(t0: string, c1: char, t2: string, c3: char, t4: string, c5: char, t6: string,
                 a1: Arg, a3: Arg, a5: Arg, x1: string, x3: string, x5: string)
    requires Plain(t0) && Plain(t2) && Plain(t4) && Plain(t6)
    requires Convert(c1, a1) == Some(x1) && Convert(c3, a3) == Some(x3) && Convert(c5, a5) == Some(x5)
    ensures Sprintf(t0 + (['%', c1] + (t2 + (['%', c3] + (t4 + (['%', c5] + t6))))), [a1] + ([a3] + [a5]))
         == Some(t0 + x1 + t2 + x3 + t4 + x5 + t6)
  {
    Sprintf2(t2, c3, t4, c5, t6, a3, a5, x3, x5);
    SprintfStep(t0, c1, t2 + (['%', c3] + (t4 + (['%', c5] + t6))), a1, x1, [a3] + [a5]);
    var A := t0 + x1;
    Regroup3(t0, x1, t2 + x3 + t4 + x5 + t6);
    Regroup3(A, t2 + x3 + t4 + x5, t6);
    Regroup3(A, t2 + x3 + t4, x5);
    Regroup3(A, t2 + x3, t4);
    Regroup3(A, t2, x3);
  }

  lemma Sprintf4(t0: string, c1: char, t2: string, c3: char, t4: string, c5: char, t6: string,
                 c7: char, t8: string, a1: Arg, a3: Arg, a5: Arg, a7: Arg,
                 x1: string, x3: string, x5: string, x7: string)
    requires Plain(t0) && Plain(t2) && Plain(t4) && Plain(t6) && Plain(t8)
    requires Convert(c1, a1) == Some(x1) && Convert(c3, a3) == Some(x3)
    requires Convert(c5, a5) == Some(x5) && Convert(c7, a7) == Some(x7)
    ensures Sprintf(t0 + (['%', c1] + (t2 + (['%', c3] + (t4 + (['%', c5] + (t6 + (['%', c7] + t8))))))),
                    [a1] + ([a3] + ([a5] + [a7])))
         == Some(t0 + x1 + t2 + x3 + t4 + x5 + t6 + x7 + t8)
  {
    Sprintf3(t2, c3, t4, c5, t6, c7, t8, a3, a5, a7, x3, x5, x7);
    SprintfStep(t0, c1, t2 + (['%', c3] + (t4 + (['%', c5] + (t6 + (['%', c7] + t8))))), a1, x1,
                [a3] + ([a5] + [a7]));
    var A := t0 + x1;
    Regroup3(t0, x1, t2 + x3 + t4 + x5 + t6 + x7 + t8);
    Regroup3(A, t2 + x3 + t4 + x5 + t6 + x7, t8);
    Regroup3(A, t2 + x3 + t4 + x5 + t6, x7);
    Regroup3(A, t2 + x3 + t4 + x5, t6);
    Regroup3(A, t2 + x3 + t4, x5);
    Regroup3(A, t2 + x3, t4);
    Regroup3(A, t2, x3);
  }

  /** Regrouping a chain of concatenations, proved once for any strings. */
  lemma Regroup3(a: string, b: string, c: string)
    ensures a + (b + c) == a + b + c
  {
  }

  lemma Regroup5(a: string, b: string, c: string, d: string, e: string)
    ensures a + b + c + d + e == a + (b + (c + (d + e)))
  {
    Regroup3(c, d, e);
    Regroup3(b, c, d + e);
    Regroup3(b + c, d, e);
    Regroup3(a, b, c + (d + e));
    Regroup3(a + b, c, d + e);
    Regroup3(a + b + c, d, e);
  }

  lemma Regroup7(a: string, b: string, c: string, d: string, e: string, f: string, g: string)
    ensures a + b + c + d + e + f + g == a + (b + (c + (d + (e + (f + g)))))
  {
    Regroup5(c, d, e, f, g);
    Regroup3(a, b, c + (d + (e + (f + g))));
    Regroup5(a + b, c, d, e, f + g);
    Regroup3(a + b + c + d + e, f, g);
  }

  lemma Regroup8(a: string, b: string, c: string, d: string, e: string, f: string, g: string, h: string)
    ensures a + b + c + d + e + f + g + h == a + (b + (c + (d + (e + (f + (g + h))))))
  {
    Regroup7(a, b, c, d, e, f, g + h);
    Regroup3(a + b + c + d + e + f, g, h);
  }

  lemma ArgLists(a: Arg, b: Arg, c: Arg, d: Arg)
    ensures [a] + [b] == [a, b]
    ensures [a] + ([b] + [c]) == [a, b, c]
    ensures [a] + ([b] + ([c] + [d])) == [a, b, c, d]
  {
  }
}
