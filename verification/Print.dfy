/** Number conversion and `vsprintf` of `ker/vsprintf.c`. */
module Print {
  import opened Sequences

  // ---------- numerals ----------

  predicate Base(b: nat) {
    b == 10 || b == 16
  }

  /** `atoi` and `atoihex` on one digit. */
  function Digit(d: nat): char
    requires d < 16
  {
    if d <= 9 then '0' + d as char else 'a' + (d - 10) as char
  }

  /** The usual numeral, most significant digit first. */
  function Numeral(n: nat, b: nat): seq<char>
    requires Base(b)
    decreases n
  {
    if n < b then [Digit(n)] else Numeral(n / b, b) + [Digit(n % b)]
  }

  function DigitValue(c: char): nat {
    if '0' <= c <= '9' then (c - '0') as nat else if 'a' <= c <= 'f' then (c - 'a') as nat + 10 else 0
  }

  /** The number a numeral stands for. */
  function Parse(s: seq<char>, b: nat): nat {
    if s == [] then 0 else Parse(s[..|s| - 1], b) * b + DigitValue(s[|s| - 1])
  }

  lemma {:induction false} ParseNumeral(n: nat, b: nat)
    requires Base(b)
    ensures Parse(Numeral(n, b), b) == n
    decreases n
  {
    if n >= b {
      ParseNumeral(n / b, b);
      assert Numeral(n, b)[..|Numeral(n, b)| - 1] == Numeral(n / b, b);
    } else {
      assert Parse([Digit(n)][..0], b) == 0;
    }
  }

  /** No leading zero. */
  lemma {:induction false} NumeralHead(n: nat, b: nat)
    requires Base(b)
    ensures |Numeral(n, b)| > 0 && (n > 0 ==> Numeral(n, b)[0] != '0')
    decreases n
  {
    if n >= b {
      NumeralHead(n / b, b);
    }
  }

  function Power(b: nat, k: nat): nat {
    if k == 0 then 1 else b * Power(b, k - 1)
  }

  lemma {:induction false} NumeralLength(n: nat, b: nat, k: nat)
    requires Base(b) && k > 0 && n < Power(b, k)
    ensures |Numeral(n, b)| <= k
    decreases k
  {
    if n >= b {
      assert k > 1;
      assert n / b < Power(b, k - 1);
      NumeralLength(n / b, b, k - 1);
    }
  }

  /** A 32-bit number takes at most ten decimal or eight hexadecimal digits. */
  lemma WordLength(n: nat)
    requires n < 0x1_0000_0000
    ensures |Numeral(n, 10)| <= 10 && |Numeral(n, 16)| <= 8
  {
    assert Power(10, 5) == 100000 && Power(10, 10) == 100000 * Power(10, 5) by { PowerSplit(10, 5, 5); }
    assert Power(16, 4) == 0x1_0000 && Power(16, 8) == 0x1_0000 * Power(16, 4) by { PowerSplit(16, 4, 4); }
    NumeralLength(n, 10, 10);
    NumeralLength(n, 16, 8);
  }

  lemma {:induction false} PowerSplit(b: nat, i: nat, j: nat)
    ensures Power(b, i + j) == Power(b, i) * Power(b, j)
  {
    if i > 0 {
      PowerSplit(b, i - 1, j);
      assert b * (Power(b, i - 1) * Power(b, j)) == (b * Power(b, i - 1)) * Power(b, j);
    }
  }

  // ---------- digits from the low end, and the reversal ----------

  function Low(n: nat, b: nat): seq<char>
    requires Base(b)
    decreases n
  {
    if n == 0 then [] else [Digit(n % b)] + Low(n / b, b)
  }

  function Reverse(s: seq<char>): (r: seq<char>)
    ensures |r| == |s| && forall k :: 0 <= k < |s| ==> r[k] == s[|s| - 1 - k]
  {
    seq(|s|, k requires 0 <= k < |s| => s[|s| - 1 - k])
  }

  lemma {:induction false} NumeralIsReversed(n: nat, b: nat)
    requires Base(b) && n > 0
    ensures Numeral(n, b) == Reverse(Low(n, b))
    decreases n
  {
    if n >= b {
      NumeralIsReversed(n / b, b);
      var low := Low(n / b, b);
      assert Reverse([Digit(n % b)] + low) == Reverse(low) + [Digit(n % b)];
    } else {
      assert Low(n / b, b) == [];
    }
  }

  /** The digit loop of lines 35-40 and 68-74. */
  method StoreDigits(s: array<char>, p: nat, n: nat, b: nat) returns (i: nat)
    requires Base(b) && p + |Low(n, b)| <= s.Length
    modifies s
    ensures i == |Low(n, b)| && s[p..p + i] == Low(n, b) && s[..p] == old(s[..p])
  {
    i := 0;
    var d: nat := n;
    ghost var done := [];
    while d >= 1
      invariant |done| == i && done + Low(d, b) == Low(n, b) && i + |Low(d, b)| == |Low(n, b)|
      invariant s[p..p + i] == done && s[..p] == old(s[..p])
      decreases d
    {
      var y := d % b;
      MoveFirst(done, Digit(y), Low(d / b, b));
      d := d / b;
      Append(s, p, i, Digit(y));
      done := done + [Digit(y)];
      i := i + 1;
    }
    assert done + [] == done;
  }

  method Append(s: array<char>, p: nat, i: nat, c: char)
    requires p + i < s.Length
    modifies s
    ensures s[p..p + i + 1] == old(s[p..p + i]) + [c] && s[..p] == old(s[..p])
  {
    s[p + i] := c;
  }

  /** The in-place reversal of lines 42-47, for `n` characters from `p` on. */
  method ReverseInPlace(s: array<char>, p: nat, n: nat)
    requires n > 0 && p + n <= s.Length
    modifies s
    ensures s[p..p + n] == Reverse(old(s[p..p + n])) && s[..p] == old(s[..p])
  {
    var i := n - 1;
    var j := 0;
    ghost var was, last := s[..], p + (p + i);
    while j <= i / 2
      invariant 0 <= j <= i / 2 + 1 && s[..p] == was[..p]
      invariant forall x :: p <= x < p + n ==> s[x] == was[if x < p + j || x > p + i - j then last - x else x]
    {
      var tmp := s[p + i - j];
      s[p + i - j] := s[p + j];
      s[p + j] := tmp;
      j := j + 1;
    }
    assert forall x :: p <= x < p + n ==> s[..][x] == was[last - x];
    MirroredSlice(s[..], was, p, n);
  }

  lemma MirroredSlice(t: seq<char>, was: seq<char>, p: nat, n: nat)
    requires n > 0 && p + n <= |was| == |t|
    requires forall x :: p <= x < p + n ==> t[x] == was[p + (p + (n - 1)) - x]
    ensures t[p..p + n] == Reverse(was[p..p + n])
  {
    var u, w := t[p..p + n], was[p..p + n];
    forall k | 0 <= k < n
      ensures u[k] == w[n - 1 - k]
    {
      assert u[k] == t[p + k];
    }
  }

  /** `int_to_str` and `int_to_hexstr`: the numeral is written at `p`, and the position behind it returned. */
  method IntToStr(s: array<char>, p: nat, d: nat, b: nat) returns (q: nat)
    requires Base(b) && p + |Numeral(d, b)| + (if d == 0 then 1 else 0) <= s.Length
    modifies s
    ensures q == p + |Numeral(d, b)| && s[p..q] == Numeral(d, b)
    ensures s[..p] == old(s[..p])
  {
    if d == 0 {
      s[p] := '0';
      s[p + 1] := 0 as char;
      return p + 1;
    }
    NumeralIsReversed(d, b);
    var i := StoreDigits(s, p, d, b);
    NumeralHead(d, b);
    ReverseInPlace(s, p, i);
    return p + i;
  }

  // ---------- vsprintf ----------

  datatype Arg = Num(n: nat) | Str(s: seq<char>)

  /** The characters before the terminating zero. */
  predicate Text(s: seq<char>) {
    0 as char !in s
  }

  /**
   Format and string arguments are texts, every directive has an argument of its kind, and the format does
   not end inside one.
   */
  predicate WellFormed(fmt: seq<char>, args: seq<Arg>)
    decreases |fmt|
  {
    if fmt == [] then true
    else if fmt[0] == 0 as char then false
    else if fmt[0] != '%' then WellFormed(fmt[1..], args)
    else |fmt| > 1 &&
         if fmt[1] == 'c' || fmt[1] == 'd' || fmt[1] == 'x' then
           args != [] && args[0].Num? && WellFormed(fmt[2..], args[1..])
         else if fmt[1] == 's' then args != [] && args[0].Str? && Text(args[0].s) && WellFormed(fmt[2..], args[1..])
         else fmt[1] != 0 as char && WellFormed(fmt[2..], args)
  }

  /** What one directive prints; an unknown one prints nothing. */
  function Piece(c: char, args: seq<Arg>): seq<char>
    requires c == 'c' || c == 'd' || c == 'x' ==> args != [] && args[0].Num?
    requires c == 's' ==> args != [] && args[0].Str?
  {
    if c == 'c' then [(args[0].n % 256) as char]
    else if c == 'd' then Numeral(args[0].n, 10)
    else if c == 'x' then Numeral(args[0].n, 16)
    else if c == 's' then args[0].s
    else []
  }

  function Consumed(c: char, args: seq<Arg>): seq<Arg>
    requires c == 'c' || c == 'd' || c == 'x' || c == 's' ==> args != []
  {
    if c == 'c' || c == 'd' || c == 'x' || c == 's' then args[1..] else args
  }

  /** The output: literal characters and the pieces of the directives, in order. */
  function Render(fmt: seq<char>, args: seq<Arg>): seq<char>
    requires WellFormed(fmt, args)
    decreases |fmt|
  {
    if fmt == [] then []
    else if fmt[0] != '%' then [fmt[0]] + Render(fmt[1..], args)
    else Piece(fmt[1], args) + Render(fmt[2..], Consumed(fmt[1], args))
  }

  lemma OneDirective(c: char, args: seq<Arg>)
    requires WellFormed(['%', c], args)
    ensures Render(['%', c], args) == Piece(c, args)
  {
    assert ['%', c][2..] == [];
    assert Piece(c, args) + [] == Piece(c, args);
  }

  /** What a number prints as: in base ten or sixteen, without a leading zero, or its low byte as a character. */
  lemma NumberPrints(n: nat)
    ensures forall c :: c == 'd' || c == 'x' || c == 'c' ==> WellFormed(['%', c], [Num(n)])
    ensures Parse(Render(['%', 'd'], [Num(n)]), 10) == n && Parse(Render(['%', 'x'], [Num(n)]), 16) == n
    ensures forall c :: n > 0 && (c == 'd' || c == 'x') ==>
                          |Render(['%', c], [Num(n)])| > 0 && Render(['%', c], [Num(n)])[0] != '0'
    ensures Render(['%', 'c'], [Num(n)]) == [(n % 256) as char]
  {
    ParseNumeral(n, 10);
    ParseNumeral(n, 16);
    NumeralHead(n, 10);
    NumeralHead(n, 16);
    forall c | c == 'd' || c == 'x' || c == 'c'
      ensures WellFormed(['%', c], [Num(n)]) && Render(['%', c], [Num(n)]) == Piece(c, [Num(n)])
    {
      assert ['%', c][2..] == [];
      OneDirective(c, [Num(n)]);
    }
  }

  /** A string prints as itself, other directives as nothing, and other characters as themselves. */
  lemma TextPrints(s: seq<char>, c: char)
    requires Text(s) && c != 0 as char
    ensures WellFormed(['%', 's'], [Str(s)]) && Render(['%', 's'], [Str(s)]) == s
    ensures c !in "cdxs" ==> WellFormed(['%', c], []) && Render(['%', c], []) == []
    ensures c != '%' ==> WellFormed([c], []) && Render([c], []) == [c]
  {
    assert ['%', 's'][2..] == [] && ['%', c][2..] == [] && [c][1..] == [];
    OneDirective('s', [Str(s)]);
    if c !in "cdxs" {
      OneDirective(c, []);
    }
  }

  /** Formats one behind the other print one behind the other, each with its own arguments. */
  lemma {:induction false} RenderJoin(f: seq<char>, g: seq<char>, xs: seq<Arg>, ys: seq<Arg>)
    requires WellFormed(f, xs) && WellFormed(g, ys) && Leftover(f, xs) == []
    ensures WellFormed(f + g, xs + ys) && Render(f + g, xs + ys) == Render(f, xs) + Render(g, ys)
    decreases |f|
  {
    if f == [] {
      assert f + g == g && xs + ys == ys;
    } else if f[0] != '%' {
      assert (f + g)[1..] == f[1..] + g;
      RenderJoin(f[1..], g, xs, ys);
      Assoc([f[0]], Render(f[1..], xs), Render(g, ys));
    } else {
      var xs' := Consumed(f[1], xs);
      assert (f + g)[2..] == f[2..] + g && (f + g)[1] == f[1];
      assert Consumed(f[1], xs + ys) == xs' + ys;
      RenderJoin(f[2..], g, xs', ys);
      Assoc(Piece(f[1], xs), Render(f[2..], xs'), Render(g, ys));
    }
  }

  /** The arguments a format does not use. */
  function Leftover(fmt: seq<char>, args: seq<Arg>): seq<Arg>
    requires WellFormed(fmt, args)
    decreases |fmt|
  {
    if fmt == [] then args
    else if fmt[0] != '%' then Leftover(fmt[1..], args)
    else Leftover(fmt[2..], Consumed(fmt[1], args))
  }

  /** Lines 103-123 for a directive: its piece is stored at `p`. */
  method PutPiece(buf: array<char>, p: nat, c: char, args: seq<Arg>) returns (q: nat)
    requires c == 'c' || c == 'd' || c == 'x' ==> args != [] && args[0].Num?
    requires c == 's' ==> args != [] && args[0].Str?
    requires p + |Piece(c, args)| < buf.Length
    modifies buf
    ensures q == p + |Piece(c, args)| && buf[p..q] == Piece(c, args)
    ensures buf[..p] == old(buf[..p])
  {
    if c == 'c' {
      buf[p] := (args[0].n % 256) as char;
      q := p + 1;
    } else if c == 'd' {
      q := IntToStr(buf, p, args[0].n, 10);
    } else if c == 'x' {
      q := IntToStr(buf, p, args[0].n, 16);
    } else if c == 's' {
      q := p;
      ghost var s := args[0].s;
      while q - p < |args[0].s|
        invariant p <= q <= p + |s| && buf[p..q] == s[..q - p] && buf[..p] == old(buf[..p])
      {
        buf[q] := args[0].s[q - p];
        q := q + 1;
      }
    } else {
      q := p;
    }
  }

  /** `vsprintf`: the rendered format, then a zero. */
  method Vsprintf(buf: array<char>, fmt: seq<char>, args: seq<Arg>)
    requires WellFormed(fmt, args) && |Render(fmt, args)| < buf.Length
    modifies buf
    ensures buf[..|Render(fmt, args)|] == Render(fmt, args)
    ensures buf[|Render(fmt, args)|] == 0 as char
  {
    var p, f, rest := 0, fmt, args;
    ghost var goal := Render(fmt, args);
    while f != []
      invariant WellFormed(f, rest) && p + |Render(f, rest)| == |goal|
      invariant buf[..p] + Render(f, rest) == goal
      decreases |f|
    {
      ghost var done := buf[..p];
      if f[0] != '%' {
        MoveFirst(done, f[0], Render(f[1..], rest));
        buf[p] := f[0];
        assert buf[..p + 1] == done + [f[0]];
        p := p + 1;
        f := f[1..];
      } else {
        ghost var piece := Piece(f[1], rest);
        Assoc(done, piece, Render(f[2..], Consumed(f[1], rest)));
        var q := PutPiece(buf, p, f[1], rest);
        assert buf[..q] == done + piece;
        p := q;
        rest := Consumed(f[1], rest);
        f := f[2..];
      }
    }
    assert buf[..p] + [] == buf[..p];
    buf[p] := 0 as char;
  }

}
