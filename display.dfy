/**
 * The polynomial renderer of src/display.rs: `int_super`, the `Tokens`
 * list with its space-joining `Display`, `Tokens::poly`, which writes one
 * polynomial term after another, and `wrap_poly`.
 *
 * A term is seen as `p.factors()` hands it to `Tokens::poly`: its base, with
 * every node already printed, and its coefficient as the reduced fraction
 * `Rational::frac` returns.
 */
module Display {
  import opened Wrappers
  import opened Nodes
  import opened Numerals
  import opened SeqLaws

  // ---------------------------------------------------------------------
  // `int_super`

  /** A character of `i64::to_string`'s output. */
  predicate IsNumeralChar(c: char)
  {
    c == '-' || IsDigit(c)
  }

  /** The superscript characters `int_super` writes. */
  predicate IsSup(c: char)
  {
    c == '\U{207B}' || c == '\U{2070}' || c == '\U{00B9}' || c == '\U{00B2}' ||
    c == '\U{00B3}' || c == '\U{2074}' || c == '\U{2075}' || c == '\U{2076}' ||
    c == '\U{2077}' || c == '\U{2078}' || c == '\U{2079}'
  }

  /** The character a superscript stands for. */
  function UnSup(c: char): (r: char)
    requires IsSup(c)
    ensures IsNumeralChar(r)
  {
    match c
    case '\U{207B}' => '-'
    case '\U{2070}' => '0'
    case '\U{00B9}' => '1'
    case '\U{00B2}' => '2'
    case '\U{00B3}' => '3'
    case '\U{2074}' => '4'
    case '\U{2075}' => '5'
    case '\U{2076}' => '6'
    case '\U{2077}' => '7'
    case '\U{2078}' => '8'
    case _ => '9'
  }

  /** One character of `int_super`: the superscript form of a sign or digit,
      which reads back as that character. */
  function Sup(c: char): (r: char)
    requires IsNumeralChar(c)
    ensures IsSup(r) && UnSup(r) == c
  {
    match c
    case '-' => '\U{207B}'
    case '0' => '\U{2070}'
    case '1' => '\U{00B9}'
    case '2' => '\U{00B2}'
    case '3' => '\U{00B3}'
    case '4' => '\U{2074}'
    case '5' => '\U{2075}'
    case '6' => '\U{2076}'
    case '7' => '\U{2077}'
    case '8' => '\U{2078}'
    case _ => '\U{2079}'
  }

  /** The superscript form of a run of signs and digits, character by
      character: the length is kept and every character reads back. */
  function SupAll(s: string): (r: string)
    requires forall k | 0 <= k < |s| :: IsNumeralChar(s[k])
    ensures |r| == |s|
    decreases |s|
  {
    if s == [] then [] else [Sup(s[0])] + SupAll(s[1..])
  }

  /** `int_super(i)`: the decimal form of `i` in superscript. */
  function IntSuper(i: int): (r: string)
  {
    SupAll(ShowInt(i))
  }

  predicate AllSup(r: string)
  {
    forall k | 0 <= k < |r| :: IsSup(r[k])
  }

  /** The plain characters a run of superscripts stands for. */
  function UnSupAll(r: string): (s: string)
    requires AllSup(r)
    ensures |s| == |r|
    decreases |r|
  {
    if r == [] then [] else [UnSup(r[0])] + UnSupAll(r[1..])
  }

  /** A superscript exponent parses back to the exponent it was made from. */
  lemma {:induction false} SupAllReadBack(s: string)
    requires forall k | 0 <= k < |s| :: IsNumeralChar(s[k])
    ensures AllSup(SupAll(s)) && UnSupAll(SupAll(s)) == s
    decreases |s|
  {
    if s != [] {
      SupAllReadBack(s[1..]);
      var r := SupAll(s);
      assert r[1..] == SupAll(s[1..]);
    }
  }

  lemma IntSuperReadBack(i: I64)
    ensures AllSup(IntSuper(i)) && ParseI64(UnSupAll(IntSuper(i))) == Some(i)
  {
    SupAllReadBack(ShowInt(i));
    ParseShow(i);
  }

  /** Different exponents print as different superscripts. */
  lemma IntSuperInjective(i: I64, j: I64)
    requires IntSuper(i) == IntSuper(j)
    ensures i == j
  {
    IntSuperReadBack(i);
    IntSuperReadBack(j);
  }

  // ---------------------------------------------------------------------
  // Joining tokens with single spaces, and splitting them apart again

  /** What `Display for Tokens` writes: the tokens separated by one space,
      with no space before the first or after the last. */
  function Join(ts: seq<string>): string
    decreases |ts|
  {
    if ts == [] then ""
    else if |ts| == 1 then ts[0]
    else ts[0] + " " + Join(ts[1..])
  }

  lemma {:induction false} JoinSnoc(ts: seq<string>, t: string)
    requires ts != []
    ensures Join(ts + [t]) == Join(ts) + " " + t
    decreases |ts|
  {
    if |ts| > 1 {
      assert (ts + [t])[1..] == ts[1..] + [t];
      JoinSnoc(ts[1..], t);
    } else {
      assert ts + [t] == [ts[0], t];
    }
  }

  predicate NoSpace(t: string)
  {
    forall k | 0 <= k < |t| :: t[k] != ' '
  }

  /** The position of the first space, or the length when there is none. */
  function SpaceAt(s: string): (k: nat)
    ensures k <= |s|
    decreases |s|
  {
    if s == [] || s[0] == ' ' then 0 else 1 + SpaceAt(s[1..])
  }

  /** Cutting a string at every space. */
  function Split(s: string): (r: seq<string>)
    ensures |r| > 0
    decreases |s|
  {
    var k := SpaceAt(s);
    if k == |s| then [s] else [s[..k]] + Split(s[k + 1..])
  }

  lemma {:induction false} SpaceAtNone(a: string, b: string)
    requires NoSpace(a)
    ensures SpaceAt(a + b) == |a| + SpaceAt(b)
    decreases |a|
  {
    if a != [] {
      assert (a + b)[1..] == a[1..] + b;
      SpaceAtNone(a[1..], b);
    } else {
      assert a + b == b;
    }
  }

  /** Every token is free of spaces. */
  predicate Spaceless(ts: seq<string>)
    decreases |ts|
  {
    ts == [] || (NoSpace(ts[0]) && Spaceless(ts[1..]))
  }

  lemma {:induction false} SpacelessConcat(a: seq<string>, b: seq<string>)
    requires Spaceless(a) && Spaceless(b)
    ensures Spaceless(a + b)
    decreases |a|
  {
    if a != [] {
      assert (a + b)[1..] == a[1..] + b;
      SpacelessConcat(a[1..], b);
    } else {
      assert a + b == b;
    }
  }

  /** Tokens without spaces come back from the joined string one by one. */
  lemma {:induction false} SplitJoin(ts: seq<string>)
    requires ts != [] && Spaceless(ts)
    ensures Split(Join(ts)) == ts
    decreases |ts|
  {
    if |ts| == 1 {
      SpaceAtNone(ts[0], "");
      assert ts[0] + "" == ts[0];
    } else {
      var s := Join(ts);
      var rest := Join(ts[1..]);
      assert s == ts[0] + (" " + rest);
      SpaceAtNone(ts[0], " " + rest);
      var k := |ts[0]|;
      assert s[..k] == ts[0] && s[k + 1..] == rest;
      SplitJoin(ts[1..]);
    }
  }

  // ---------------------------------------------------------------------
  // The tokens of a polynomial

  /** A term as `Tokens::poly` sees it: the base, each node printed, with
      its exponent, and the coefficient's numerator and denominator. */
  datatype Term = Term(base: seq<(string, int)>, num: int, den: int)

  function Abs(i: int): nat
  {
    if i < 0 then -i else i
  }

  /** A base factor: the node alone for exponent 1, else the node followed
      by the exponent in superscript. */
  function FactorToken(v: string, n: int): string
  {
    if n == 1 then v else v + IntSuper(n)
  }

  /** `f` applied to every element, in order. */
  function Map<A, B>(f: A -> B, xs: seq<A>): (r: seq<B>)
    ensures |r| == |xs|
    decreases |xs|
  {
    if xs == [] then [] else [f(xs[0])] + Map(f, xs[1..])
  }

  lemma {:induction false} MapSnoc<A, B>(f: A -> B, xs: seq<A>, j: nat)
    requires j < |xs|
    ensures Map(f, xs[..j + 1]) == Map(f, xs[..j]) + [f(xs[j])]
    decreases j
  {
    if j > 0 {
      assert xs[..j + 1][1..] == xs[1..][..j];
      assert xs[..j][1..] == xs[1..][..j - 1];
      MapSnoc(f, xs[1..], j - 1);
    }
  }

  function Factor(f: (string, int)): string
  {
    FactorToken(f.0, f.1)
  }

  function FactorTokens(base: seq<(string, int)>): (r: seq<string>)
    ensures |r| == |base|
  {
    Map(Factor, base)
  }

  lemma FactorsSnoc(base: seq<(string, int)>, j: nat)
    requires j < |base|
    ensures FactorTokens(base[..j + 1]) == FactorTokens(base[..j]) + [FactorToken(base[j].0, base[j].1)]
  {
    MapSnoc(Factor, base, j);
  }

  /** `-` before a negative term, `+` before any other term but the first. */
  function SignTokens(num: int, first: bool): seq<string>
  {
    if num < 0 then ["-"] else if !first then ["+"] else []
  }

  /** The numerator's magnitude, unless it is 1 and there is a base to
      stand in for it. */
  function MagTokens(num: int, base: seq<(string, int)>): seq<string>
  {
    if Abs(num) != 1 || base == [] then [ShowInt(Abs(num))] else []
  }

  /** `/` and the denominator, unless the denominator is 1. */
  function DenTokens(den: int): seq<string>
  {
    if den == 1 then [] else ["/", ShowInt(den)]
  }

  function TermTokens(t: Term, first: bool): seq<string>
  {
    SignTokens(t.num, first) + MagTokens(t.num, t.base) + FactorTokens(t.base) + DenTokens(t.den)
  }

  /** The tokens of the terms in order, the first one marked as first. */
  function TermsTokens(ts: seq<Term>, first: bool): seq<string>
    decreases |ts|
  {
    if ts == [] then [] else TermTokens(ts[0], first) + TermsTokens(ts[1..], false)
  }

  /** `Tokens::poly` into an empty list: the terms' tokens, or `0` when
      there are none. */
  function PolyTokens(ts: seq<Term>): seq<string>
  {
    if ts == [] then ["0"] else TermsTokens(ts, true)
  }

  /** Every term writes at least one token. */
  lemma TermTokensNonEmpty(t: Term, first: bool)
    ensures |TermTokens(t, first)| > 0
  {
    if MagTokens(t.num, t.base) == [] {
      assert |FactorTokens(t.base)| > 0;
    }
  }

  lemma {:induction false} TermsTokensEmpty(ts: seq<Term>, first: bool)
    ensures TermsTokens(ts, first) == [] <==> ts == []
  {
    if ts != [] {
      TermTokensNonEmpty(ts[0], first);
    }
  }

  lemma {:induction false} TermsSnoc(ts: seq<Term>, t: Term, first: bool)
    ensures TermsTokens(ts + [t], first) == TermsTokens(ts, first) + TermTokens(t, first && ts == [])
    decreases |ts|
  {
    if ts == [] {
      assert TermsTokens([t], first) == TermTokens(t, first) + TermsTokens([], false);
    } else {
      assert (ts + [t])[1..] == ts[1..] + [t];
      TermsSnoc(ts[1..], t, false);
    }
  }

  lemma TermsStep(terms: seq<Term>, i: nat)
    requires i < |terms|
    ensures TermsTokens(terms[..i + 1], true) == TermsTokens(terms[..i], true) + TermTokens(terms[i], i == 0)
  {
    TermsSnoc(terms[..i], terms[i], true);
    assert terms[..i + 1] == terms[..i] + [terms[i]];
  }

  lemma PushStep(c0: seq<string>, c: seq<string>, terms: seq<Term>, i: nat)
    requires i < |terms| && c == c0 + TermsTokens(terms[..i], true)
    ensures c + TermTokens(terms[i], i == 0) == c0 + TermsTokens(terms[..i + 1], true)
  {
    TermsStep(terms, i);
    Assoc(c0, TermsTokens(terms[..i], true), TermTokens(terms[i], i == 0));
  }

  /** `Tokens`: the list of strings the renderer builds up. */
  class Tokens {
    var content: seq<string>

    /** `Tokens::new`: no tokens. */
    constructor ()
      ensures content == []
    {
      content := [];
    }

    /** `len`: the number of tokens. */
    method Len() returns (n: nat)
      ensures n == |content|
    {
      n := |content|;
    }

    /** `push`: one more token at the end. */
    method Push(t: string)
      modifies this
      ensures content == old(content) + [t]
    {
      content := content + [t];
    }

    /** `Display for Tokens`: the first token, then each further token after
        a single space. */
    method Fmt() returns (out: string)
      ensures out == Join(content)
    {
      out := "";
      if |content| > 0 {
        out := content[0];
        var i := 1;
        while i < |content|
          invariant 1 <= i <= |content|
          invariant out == Join(content[..i])
        {
          JoinSnoc(content[..i], content[i]);
          assert content[..i + 1] == content[..i] + [content[i]];
          out := out + " " + content[i];
          i := i + 1;
        }
        assert content[..i] == content;
      }
    }

    /** One pass of `Tokens::poly`'s loop: the sign, the magnitude, the
        base factors and the denominator of one term. */
    method PushTerm(t: Term, first: bool)
      modifies this
      ensures content == old(content) + TermTokens(t, first)
    {
      ghost var c0 := content;
      var mag := Abs(t.num);
      if t.num < 0 {
        Push("-");
      } else if !first {
        Push("+");
      }
      ghost var c1 := content;
      assert c1 == c0 + SignTokens(t.num, first);
      if mag != 1 || |t.base| == 0 {
        Push(ShowInt(mag));
      }
      ghost var c2 := content;
      assert c2 == c1 + MagTokens(t.num, t.base);
      PushFactors(t.base);
      ghost var c3 := content;
      assert c3 == c2 + FactorTokens(t.base);
      if t.den != 1 {
        Push("/");
        Push(ShowInt(t.den));
      }
      assert content == c3 + DenTokens(t.den);
      Concat4(c0, SignTokens(t.num, first), MagTokens(t.num, t.base), FactorTokens(t.base), DenTokens(t.den));
    }

    /** The inner loop of `Tokens::poly`: one token per base factor. */
    method PushFactors(base: seq<(string, int)>)
      modifies this
      ensures content == old(content) + FactorTokens(base)
    {
      ghost var c1 := content;
      var j := 0;
      while j < |base|
        invariant 0 <= j <= |base|
        invariant content == c1 + FactorTokens(base[..j])
      {
        var (v, n) := base[j];
        FactorsSnoc(base, j);
        if n == 1 {
          Push(v);
        } else {
          Push(v + IntSuper(n));
        }
        j := j + 1;
      }
      assert base[..j] == base;
    }

    /** `Tokens::poly`: every term in turn, and `0` when the list is still
        empty afterwards, which happens exactly when it started empty and
        there are no terms. */
    method Poly(terms: seq<Term>)
      modifies this
      ensures content == old(content) + TermsTokens(terms, true) +
        (if old(content) == [] && terms == [] then ["0"] else [])
    {
      ghost var c0 := content;
      PushTerms(terms);
      ghost var w := TermsTokens(terms, true);
      var n := Len();
      if n == 0 {
        assert c0 == [] && w == [] && terms == [] by {
          TermsTokensEmpty(terms, true);
        }
        Push("0");
      } else {
        assert !(c0 == [] && terms == []) by {
          TermsTokensEmpty(terms, true);
        }
        assert content == c0 + w + [];
      }
    }

    /** The loop of `Tokens::poly` over the terms, the first one marked as
        first. */
    method PushTerms(terms: seq<Term>)
      modifies this
      ensures content == old(content) + TermsTokens(terms, true)
    {
      ghost var c0 := content;
      var i := 0;
      while i < |terms|
        invariant 0 <= i <= |terms|
        invariant content == c0 + TermsTokens(terms[..i], true)
      {
        ghost var prev := content;
        PushTerm(terms[i], i == 0);
        PushStep(c0, prev, terms, i);
        i := i + 1;
      }
      assert terms[..i] == terms;
    }
  }

  /** `wrap_poly`: the polynomial's tokens joined, in parentheses when there
      is more than one. */
  method WrapPoly(terms: seq<Term>) returns (r: string)
    ensures var ts := PolyTokens(terms);
      r == if |ts| > 1 then "(" + Join(ts) + ")" else Join(ts)
  {
    var tokens := new Tokens();
    tokens.Poly(terms);
    assert tokens.content == PolyTokens(terms);
    var n := tokens.Len();
    var s := tokens.Fmt();
    if n > 1 {
      r := "(" + s + ")";
    } else {
      r := s;
    }
  }

  /** A polynomial prints as a single token, and so goes unwrapped, exactly
      when it is zero, a positive whole number, or a lone base factor with
      coefficient 1. */
  lemma WrapBare(ts: seq<Term>)
    requires forall k | 0 <= k < |ts| :: ts[k].num != 0
    ensures |PolyTokens(ts)| == 1 <==>
      (ts == [] ||
       (|ts| == 1 && ts[0].num > 0 && ts[0].den == 1 &&
        (ts[0].base == [] || (|ts[0].base| == 1 && ts[0].num == 1))))
  {
    if ts != [] {
      var t := ts[0];
      var head, tail := TermTokens(t, true), TermsTokens(ts[1..], false);
      assert PolyTokens(ts) == head + tail;
      assert |head| == |SignTokens(t.num, true)| + |MagTokens(t.num, t.base)| + |t.base| + |DenTokens(t.den)|;
      TermTokensNonEmpty(t, true);
      if |ts| > 1 {
        TermTokensNonEmpty(ts[1], false);
        assert tail == TermTokens(ts[1], false) + TermsTokens(ts[2..], false) by {
          assert ts[1..][1..] == ts[2..];
        }
      } else {
        assert tail == [];
      }
    }
  }

  // ---------------------------------------------------------------------
  // Reading the tokens back

  /** A printed node that cannot be mistaken for a sign, a number, a
      fraction bar or an exponent: it is not empty, does not start with a
      digit, `+`, `-` or `/`, and holds no space and no superscript. */
  predicate NameOk(v: string)
  {
    && |v| > 0 && !IsDigit(v[0]) && v[0] != '+' && v[0] != '-' && v[0] != '/'
    && forall k | 0 <= k < |v| :: v[k] != ' ' && !IsSup(v[k])
  }

  /** A term of a polynomial: a nonzero numerator over a positive
      denominator, and base factors with printable nodes and 64-bit
      exponents. */
  predicate TermOk(t: Term)
  {
    && t.num != 0 && t.den >= 1
    && forall k | 0 <= k < |t.base| ::
         NameOk(t.base[k].0) && -0x8000_0000_0000_0000 <= t.base[k].1 < 0x8000_0000_0000_0000
  }

  predicate IsFactorToken(tok: string)
  {
    |tok| > 0 && !IsDigit(tok[0]) && tok[0] != '+' && tok[0] != '-' && tok[0] != '/'
  }

  /** A base factor: the node, up to the first superscript, then the
      exponent in superscript, or 1 when there is none. */
  function ParseFactor(tok: string): Option<(string, int)>
    decreases |tok|
  {
    if tok == [] then Some(([], 1))
    else if !IsSup(tok[0]) then
      match ParseFactor(tok[1..])
      case None => None
      case Some((v, n)) => Some(([tok[0]] + v, n))
    else if !AllSup(tok) then None
    else match ParseI64(UnSupAll(tok))
      case None => None
      case Some(n) => Some(([], n as int))
  }

  /** A `-` (true) or, on a term after the first, a `+` (false). */
  function ReadSign(toks: seq<string>, first: bool): (r: Option<(bool, seq<string>)>)
    ensures r.Some? ==> |r.value.1| <= |toks|
  {
    if toks != [] && toks[0] == "-" then Some((true, toks[1..]))
    else if first then Some((false, toks))
    else if toks != [] && toks[0] == "+" then Some((false, toks[1..]))
    else None
  }

  /** A run of digits, or 1 when there is none. */
  function ReadMag(toks: seq<string>): (r: (nat, seq<string>))
    ensures |r.1| <= |toks|
  {
    if toks != [] && IsDigits(toks[0]) then (DigitsValue(toks[0]), toks[1..]) else (1, toks)
  }

  function ReadFactors(toks: seq<string>): (r: Option<(seq<(string, int)>, seq<string>)>)
    ensures r.Some? ==> |r.value.1| <= |toks|
    decreases |toks|
  {
    if toks != [] && IsFactorToken(toks[0]) then
      match ParseFactor(toks[0])
      case None => None
      case Some(f) =>
        match ReadFactors(toks[1..])
        case None => None
        case Some((fs, rest)) => Some(([f] + fs, rest))
    else Some(([], toks))
  }

  /** `/` and a run of digits, or 1 when there is no `/`. */
  function ReadDen(toks: seq<string>): (r: Option<(int, seq<string>)>)
    ensures r.Some? ==> |r.value.1| <= |toks|
  {
    if toks != [] && toks[0] == "/" then
      if |toks| >= 2 && IsDigits(toks[1]) then Some((DigitsValue(toks[1]) as int, toks[2..])) else None
    else Some((1, toks))
  }

  function ReadTerm(toks: seq<string>, first: bool): (r: Option<(Term, seq<string>)>)
    ensures r.Some? ==> |r.value.1| <= |toks|
  {
    match ReadSign(toks, first)
    case None => None
    case Some((neg, r1)) =>
      var (m, r2) := ReadMag(r1);
      match ReadFactors(r2)
      case None => None
      case Some((fs, r3)) =>
        match ReadDen(r3)
        case None => None
        case Some((d, r4)) => Some((Term(fs, if neg then -(m as int) else m as int, d), r4))
  }

  function ReadTerms(toks: seq<string>, first: bool): Option<seq<Term>>
    decreases |toks|
  {
    if toks == [] then Some([])
    else match ReadTerm(toks, first)
      case None => None
      case Some((t, rest)) =>
        if |rest| >= |toks| then None
        else match ReadTerms(rest, false)
          case None => None
          case Some(ts) => Some([t] + ts)
  }

  /** Reads what `Tokens::poly` wrote into an empty list. */
  function ReadPoly(toks: seq<string>): Option<seq<Term>>
  {
    if toks == ["0"] then Some([]) else ReadTerms(toks, true)
  }

  lemma ReadSignOf(num: int, first: bool, rest: seq<string>)
    requires num != 0 && (rest == [] || rest[0] != "-")
    ensures ReadSign(SignTokens(num, first) + rest, first) == Some((num < 0, rest))
  {
    assert [] + rest == rest;
    assert (["-"] + rest)[1..] == rest && (["+"] + rest)[1..] == rest;
  }

  lemma ShowNatNotSign(n: nat)
    ensures ShowNat(n) != "-" && ShowNat(n) != "+" && ShowNat(n) != "/"
  {
    assert IsDigit(ShowNat(n)[0]);
  }

  lemma ReadMagOf(num: int, base: seq<(string, int)>, rest: seq<string>)
    requires num != 0 && (rest == [] || !IsDigits(rest[0]))
    ensures ReadMag(MagTokens(num, base) + rest) == (Abs(num), rest)
  {
    if MagTokens(num, base) == [] {
      assert [] + rest == rest;
    } else {
      ShowNatValue(Abs(num));
      assert ([ShowInt(Abs(num))] + rest)[1..] == rest;
    }
  }

  /** Characters before the first superscript go to the node. */
  lemma {:induction false} ParseFactorPrefix(v: string, e: string)
    requires forall k | 0 <= k < |v| :: !IsSup(v[k])
    ensures ParseFactor(v + e) == match ParseFactor(e)
      case None => None
      case Some((w, n)) => Some((v + w, n))
    decreases |v|
  {
    if v == [] {
      assert v + e == e;
      match ParseFactor(e)
      case None =>
      case Some((w, n)) => assert v + w == w;
    } else {
      assert (v + e)[1..] == v[1..] + e;
      ParseFactorPrefix(v[1..], e);
      match ParseFactor(e)
      case None =>
      case Some((w, n)) => assert [v[0]] + (v[1..] + w) == v + w;
    }
  }

  /** A printed base factor parses back to the node and the exponent. */
  lemma ParseFactorOf(v: string, n: int)
    requires NameOk(v) && -0x8000_0000_0000_0000 <= n < 0x8000_0000_0000_0000
    ensures IsFactorToken(FactorToken(v, n)) && ParseFactor(FactorToken(v, n)) == Some((v, n))
  {
    if n == 1 {
      assert ParseFactor(v + "") == Some((v + "", 1)) by { ParseFactorPrefix(v, ""); }
      assert v + "" == v;
    } else {
      var e := IntSuper(n);
      assert ParseFactor(e) == Some(([], n)) by {
        IntSuperReadBack(n);
        assert e != [] && IsSup(e[0]);
      }
      assert ParseFactor(v + e) == Some((v + [], n)) by { ParseFactorPrefix(v, e); }
      assert v + [] == v;
    }
  }

  lemma {:induction false} ReadFactorsOf(base: seq<(string, int)>, rest: seq<string>)
    requires forall k | 0 <= k < |base| ::
      NameOk(base[k].0) && -0x8000_0000_0000_0000 <= base[k].1 < 0x8000_0000_0000_0000
    requires rest == [] || !IsFactorToken(rest[0])
    ensures ReadFactors(FactorTokens(base) + rest) == Some((base, rest))
    decreases |base|
  {
    if base == [] {
      assert FactorTokens(base) + rest == rest;
    } else {
      var tok, tail := Factor(base[0]), FactorTokens(base[1..]) + rest;
      assert FactorTokens(base) + rest == [tok] + tail by {
        assert FactorTokens(base) == [tok] + FactorTokens(base[1..]);
        Assoc([tok], FactorTokens(base[1..]), rest);
      }
      ParseFactorOf(base[0].0, base[0].1);
      ReadFactorsOf(base[1..], rest);
      ReadFactorsCons(tok, tail, base[0]);
      assert [base[0]] + base[1..] == base;
    }
  }

  /** A factor token in front adds its factor to what follows. */
  lemma ReadFactorsCons(tok: string, tail: seq<string>, f: (string, int))
    requires IsFactorToken(tok) && ParseFactor(tok) == Some(f)
    ensures ReadFactors([tok] + tail) == match ReadFactors(tail)
      case None => None
      case Some((fs, rest)) => Some(([f] + fs, rest))
  {
    assert ([tok] + tail)[1..] == tail;
  }

  lemma ReadDenOf(den: int, rest: seq<string>)
    requires den >= 1 && (rest == [] || rest[0] != "/")
    ensures ReadDen(DenTokens(den) + rest) == Some((den, rest))
  {
    if den == 1 {
      assert [] + rest == rest;
    } else {
      ShowNatValue(den);
      assert (["/", ShowInt(den)] + rest)[2..] == rest;
    }
  }

  /** Where a term's tokens may be followed: by nothing, or by the sign
      that opens the next term. */
  predicate Boundary(rest: seq<string>)
  {
    rest == [] || rest[0] == "+" || rest[0] == "-"
  }

  /** A term's tokens read back as that term, wherever the next term
      starts. */
  lemma ReadTermOf(t: Term, first: bool, rest: seq<string>)
    requires TermOk(t) && Boundary(rest)
    ensures ReadTerm(TermTokens(t, first) + rest, first) == Some((t, rest))
  {
    var s, m, f, d := SignTokens(t.num, first), MagTokens(t.num, t.base), FactorTokens(t.base), DenTokens(t.den);
    var r3 := d + rest;
    var r2 := f + r3;
    var r1 := m + r2;
    assert ReadTerm(s + r1, first) == Some((t, rest)) by {
      ReadBody(t, rest);
      ReadSignOf(t.num, first, r1);
      ReadTermSteps(s + r1, first, t.num < 0, r1, Abs(t.num), r2, t.base, r3, t.den, rest);
    }
    assert TermTokens(t, first) + rest == s + r1 by {
      Concat4(s, m, f, d, rest);
      Nest(m, f, d, rest);
    }
  }

  /** `ReadTerm` is its four readers one after the other. */
  lemma ReadTermSteps(toks: seq<string>, first: bool, neg: bool, r1: seq<string>, mag: nat,
                      r2: seq<string>, fs: seq<(string, int)>, r3: seq<string>, d: int, r4: seq<string>)
    requires ReadSign(toks, first) == Some((neg, r1)) && ReadMag(r1) == (mag, r2)
    requires ReadFactors(r2) == Some((fs, r3)) && ReadDen(r3) == Some((d, r4))
    ensures ReadTerm(toks, first) == Some((Term(fs, if neg then -(mag as int) else mag as int, d), r4))
  {
  }

  /** Past the sign, a term's tokens read back as its magnitude, its base
      and its denominator. */
  lemma ReadBody(t: Term, rest: seq<string>)
    requires TermOk(t) && Boundary(rest)
    ensures var m, f, d := MagTokens(t.num, t.base), FactorTokens(t.base), DenTokens(t.den);
      && (m + (f + (d + rest)) == [] || (m + (f + (d + rest)))[0] != "-")
      && ReadMag(m + (f + (d + rest))) == (Abs(t.num), f + (d + rest))
      && ReadFactors(f + (d + rest)) == Some((t.base, d + rest))
      && ReadDen(d + rest) == Some((t.den, rest))
  {
    var m, f, d := MagTokens(t.num, t.base), FactorTokens(t.base), DenTokens(t.den);
    ReadDenOf(t.den, rest);
    assert ReadFactors(f + (d + rest)) == Some((t.base, d + rest)) by {
      AfterFactors(t.den, rest);
      ReadFactorsOf(t.base, d + rest);
    }
    assert ReadMag(m + (f + (d + rest))) == (Abs(t.num), f + (d + rest)) by {
      AfterMag(t, rest);
      ReadMagOf(t.num, t.base, f + (d + rest));
    }
    AfterSign(t, rest);
  }

  /** No base factor can start where the denominator does. */
  lemma AfterFactors(den: int, rest: seq<string>)
    requires Boundary(rest)
    ensures DenTokens(den) + rest == [] || !IsFactorToken((DenTokens(den) + rest)[0])
  {
  }

  /** No digits can start where the base does. */
  lemma AfterMag(t: Term, rest: seq<string>)
    requires TermOk(t) && Boundary(rest)
    ensures var r2 := FactorTokens(t.base) + (DenTokens(t.den) + rest);
      r2 == [] || !IsDigits(r2[0])
  {
    if t.base != [] {
      ParseFactorOf(t.base[0].0, t.base[0].1);
      assert (FactorTokens(t.base) + (DenTokens(t.den) + rest))[0] == Factor(t.base[0]);
    } else {
      var r2 := DenTokens(t.den) + rest;
      assert FactorTokens(t.base) + r2 == r2;
      if r2 != [] {
        assert r2[0] == "/" || r2[0] == "+" || r2[0] == "-";
        assert !IsDigit(r2[0][0]);
      }
    }
  }

  /** No `-` can start where the magnitude does. */
  lemma AfterSign(t: Term, rest: seq<string>)
    requires TermOk(t) && Boundary(rest)
    ensures var r1 := MagTokens(t.num, t.base) + (FactorTokens(t.base) + (DenTokens(t.den) + rest));
      r1 == [] || r1[0] != "-"
  {
    var m, r2 := MagTokens(t.num, t.base), FactorTokens(t.base) + (DenTokens(t.den) + rest);
    if m != [] {
      ShowNatNotSign(Abs(t.num));
      assert (m + r2)[0] == m[0];
    } else {
      ParseFactorOf(t.base[0].0, t.base[0].1);
      assert (m + r2)[0] == Factor(t.base[0]);
    }
  }

  lemma {:induction false} ReadTermsOf(ts: seq<Term>, first: bool)
    requires forall k | 0 <= k < |ts| :: TermOk(ts[k])
    ensures ReadTerms(TermsTokens(ts, first), first) == Some(ts)
    decreases |ts|
  {
    if ts != [] {
      ReadTermsOf(ts[1..], false);
      LaterTermsSigned(ts[1..]);
      ReadTermsStep(ts, first);
    }
  }

  /** Every term after the first opens with its sign. */
  lemma LaterTermsSigned(ts: seq<Term>)
    ensures Boundary(TermsTokens(ts, false))
  {
    if ts != [] {
      assert TermsTokens(ts, false)[0] == SignTokens(ts[0].num, false)[0];
    }
  }

  /** The first term read back, then the rest as read back already. */
  lemma ReadTermsStep(ts: seq<Term>, first: bool)
    requires ts != [] && TermOk(ts[0]) && Boundary(TermsTokens(ts[1..], false))
    requires ReadTerms(TermsTokens(ts[1..], false), false) == Some(ts[1..])
    ensures ReadTerms(TermsTokens(ts, first), first) == Some(ts)
  {
    var rest := TermsTokens(ts[1..], false);
    var toks := TermTokens(ts[0], first) + rest;
    ReadTermOf(ts[0], first, rest);
    TermTokensNonEmpty(ts[0], first);
    ReadTermsCons(toks, first, ts[0], rest);
    assert [ts[0]] + ts[1..] == ts;
  }

  /** A term read off the front is followed by the terms after it. */
  lemma ReadTermsCons(toks: seq<string>, first: bool, t: Term, rest: seq<string>)
    requires ReadTerm(toks, first) == Some((t, rest)) && |rest| < |toks|
    ensures ReadTerms(toks, first) == match ReadTerms(rest, false)
      case None => None
      case Some(ts) => Some([t] + ts)
  {
  }


  /** What `Tokens::poly` writes into an empty list reads back as the same
      terms: no two lists of terms print alike. */
  lemma ReadPolyOf(ts: seq<Term>)
    requires forall k | 0 <= k < |ts| :: TermOk(ts[k])
    ensures ReadPoly(PolyTokens(ts)) == Some(ts)
  {
    if ts != [] {
      var toks := TermsTokens(ts, true);
      TermTokensNonEmpty(ts[0], true);
      FirstTokenNotZero(ts[0]);
      assert toks[0] == TermTokens(ts[0], true)[0];
      ReadTermsOf(ts, true);
    }
  }

  /** A nonzero term does not print as `0`: the first token is a sign, a
      positive magnitude or a base factor. */
  lemma FirstTokenNotZero(t: Term)
    requires TermOk(t)
    ensures |TermTokens(t, true)| > 0 && TermTokens(t, true)[0] != "0"
  {
    TermTokensNonEmpty(t, true);
    var m := Abs(t.num);
    if t.num > 0 && MagTokens(t.num, t.base) != [] {
      assert TermTokens(t, true)[0] == ShowInt(m) == ShowNat(m);
      ShowNatValue(m);
      assert DigitsValue("0") == 0;
    } else if t.num > 0 {
      ParseFactorOf(t.base[0].0, t.base[0].1);
      assert TermTokens(t, true)[0] == FactorToken(t.base[0].0, t.base[0].1);
    }
  }

  lemma {:induction false} FactorsNoSpace(base: seq<(string, int)>)
    requires forall k | 0 <= k < |base| :: NameOk(base[k].0)
    ensures Spaceless(FactorTokens(base))
    decreases |base|
  {
    if base != [] {
      var v, n := base[0].0, base[0].1;
      if n != 1 {
        var e := IntSuper(n);
        SupAllReadBack(ShowInt(n));
        forall k | 0 <= k < |v + e| ensures (v + e)[k] != ' ' {
          if k >= |v| {
            assert IsSup(e[k - |v|]);
          }
        }
      }
      assert FactorTokens(base)[1..] == FactorTokens(base[1..]);
      FactorsNoSpace(base[1..]);
    }
  }

  lemma TermNoSpace(t: Term, first: bool)
    requires TermOk(t)
    ensures Spaceless(TermTokens(t, first))
  {
    var s, m, f, d := SignTokens(t.num, first), MagTokens(t.num, t.base), FactorTokens(t.base), DenTokens(t.den);
    FactorsNoSpace(t.base);
    assert Spaceless(s) && Spaceless(m) && Spaceless(d);
    SpacelessConcat(s, m);
    SpacelessConcat(s + m, f);
    SpacelessConcat(s + m + f, d);
  }

  lemma {:induction false} TermsNoSpace(ts: seq<Term>, first: bool)
    requires forall k | 0 <= k < |ts| :: TermOk(ts[k])
    ensures Spaceless(TermsTokens(ts, first))
    decreases |ts|
  {
    if ts != [] {
      TermNoSpace(ts[0], first);
      TermsNoSpace(ts[1..], false);
      SpacelessConcat(TermTokens(ts[0], first), TermsTokens(ts[1..], false));
    }
  }

  /** The printed string of a polynomial's terms, cut at its spaces and
      read, gives the terms back. */
  lemma RenderReadBack(ts: seq<Term>)
    requires forall k | 0 <= k < |ts| :: TermOk(ts[k])
    ensures ReadPoly(Split(Join(PolyTokens(ts)))) == Some(ts)
  {
    if ts != [] {
      TermsNoSpace(ts, true);
      TermsTokensEmpty(ts, true);
    }
    SplitJoin(PolyTokens(ts));
    ReadPolyOf(ts);
  }
}
