/** Bytes, lines, tokens and decimal numbers, as a PLY header uses them. */
module PlyText {
  import opened Wrappers

  type Byte = b: int | 0 <= b < 256

  type Bytes = seq<Byte>

  const NEWLINE: Byte := 10

  // ----- ASCII

  predicate IsAscii(s: string) {
    forall i :: 0 <= i < |s| ==> s[i] as int < 128
  }

  function Encode(s: string): (b: Bytes)
    requires IsAscii(s)
    ensures |b| == |s|
  {
    seq(|s|, i requires 0 <= i < |s| => s[i] as int)
  }

  /** bytes.decode("ascii"), absent when a byte is not ASCII. */
  function Decode(b: Bytes): Option<string> {
    if forall i :: 0 <= i < |b| ==> b[i] < 128 then
      Some(seq(|b|, i requires 0 <= i < |b| && b[i] < 128 => b[i] as char))
    else None
  }

  lemma DecodeEncode(s: string)
    requires IsAscii(s)
    ensures Decode(Encode(s)) == Some(s)
  {
    var d := Decode(Encode(s));
    assert d.Some? && |d.value| == |s|;
    assert forall i :: 0 <= i < |s| ==> d.value[i] == s[i];
    assert d.value == s;
  }

  lemma EncodeAppend(s: string, t: string)
    requires IsAscii(s) && IsAscii(t)
    ensures IsAscii(s + t) && Encode(s + t) == Encode(s) + Encode(t)
  {
  }

  // ----- lines

  /** The length of the first line, with its newline if it has one. */
  function LineLength(b: Bytes): (n: nat)
    ensures n <= |b| && (|b| > 0 ==> n > 0)
  {
    if |b| == 0 then 0 else if b[0] == NEWLINE then 1 else 1 + LineLength(b[1..])
  }

  lemma {:induction false} LineOf(text: Bytes, rest: Bytes)
    requires NEWLINE !in text
    ensures LineLength(text + [NEWLINE] + rest) == |text| + 1
  {
    var b := text + [NEWLINE] + rest;
    if |text| > 0 {
      assert b[1..] == text[1..] + [NEWLINE] + rest;
      LineOf(text[1..], rest);
    }
  }

  /** bytes.strip(), which takes spaces, tabs and line ends off both sides. */
  function Strip(b: Bytes): Bytes {
    if |b| > 0 && IsBlank(b[0]) then Strip(b[1..])
    else if |b| > 0 && IsBlank(b[|b| - 1]) then Strip(b[..|b| - 1])
    else b
  }

  predicate IsBlank(b: Byte) {
    9 <= b <= 13 || b == 32
  }

  // ----- tokens

  predicate IsSpace(c: char) {
    9 <= c as int <= 13 || 28 <= c as int <= 32
  }

  function WordLength(s: string): (n: nat)
    ensures n <= |s| && (n < |s| ==> IsSpace(s[n]))
    ensures forall i :: 0 <= i < n ==> !IsSpace(s[i])
  {
    if |s| == 0 || IsSpace(s[0]) then 0 else 1 + WordLength(s[1..])
  }

  /** str.split() */
  function Split(s: string): seq<string>
    decreases |s|
  {
    if |s| == 0 then []
    else if IsSpace(s[0]) then Split(s[1..])
    else var n := WordLength(s); [s[..n]] + Split(s[n..])
  }

  function Join(tokens: seq<string>): string {
    if |tokens| == 0 then ""
    else if |tokens| == 1 then tokens[0]
    else tokens[0] + " " + Join(tokens[1..])
  }

  predicate IsToken(t: string) {
    |t| > 0 && forall c :: c in t ==> c as int < 128 && !IsSpace(c)
  }

  predicate AreTokens(tokens: seq<string>) {
    forall i :: 0 <= i < |tokens| ==> IsToken(tokens[i])
  }

  lemma SplitWord(t: string, rest: string)
    requires IsToken(t) && |rest| > 0 && IsSpace(rest[0])
    ensures Split(t + rest) == [t] + Split(rest[1..])
  {
    var s := t + rest;
    var n := WordLength(s);
    assert s[|t|] == rest[0] && forall i :: 0 <= i < |t| ==> s[i] == t[i];
    assert n == |t| && s[..n] == t && s[n..] == rest;
  }

  /** Splitting undoes joining. */
  lemma {:induction false} SplitJoin(tokens: seq<string>)
    requires AreTokens(tokens)
    ensures Split(Join(tokens) + "\n") == tokens
  {
    if |tokens| == 0 {
      assert Join(tokens) + "\n" == "\n";
      assert "\n"[1..] == "";
    } else if |tokens| == 1 {
      SplitWord(tokens[0], "\n");
      assert "\n"[1..] == "" && Split("") == [];
    } else {
      var rest := " " + (Join(tokens[1..]) + "\n");
      SplitJoin(tokens[1..]);
      SplitWord(tokens[0], rest);
      assert rest[1..] == Join(tokens[1..]) + "\n";
      assert Join(tokens) + "\n" == tokens[0] + rest;
    }
  }

  lemma {:induction false} JoinAscii(tokens: seq<string>)
    requires AreTokens(tokens)
    ensures IsAscii(Join(tokens)) && '\n' !in Join(tokens)
  {
    if |tokens| > 0 {
      var t := tokens[0];
      assert IsToken(t) && forall i :: 0 <= i < |t| ==> t[i] in t;
    }
    if |tokens| > 1 {
      JoinAscii(tokens[1..]);
    }
  }

  // ----- decimal numbers

  predicate IsDigit(c: char) {
    '0' <= c <= '9'
  }

  function Decimal(n: nat): (s: string)
    ensures |s| > 0 && forall i :: 0 <= i < |s| ==> IsDigit(s[i])
  {
    var digit := ('0' as int + n % 10) as char;
    if n < 10 then [digit] else Decimal(n / 10) + [digit]
  }

  /** Digits with single underscores between them, as int() reads them. */
  function ParseDigits(s: string): Option<nat> {
    if |s| == 0 || !IsDigit(s[|s| - 1]) then None
    else
      var digit := s[|s| - 1] as int - '0' as int;
      if |s| == 1 then Some(digit)
      else
        var front := if s[|s| - 2] == '_' then s[..|s| - 2] else s[..|s| - 1];
        match ParseDigits(front)
        case None => None
        case Some(v) => Some(10 * v + digit)
  }

  /** int(token), absent when it raises. */
  function ParseInt(s: string): Option<int> {
    if |s| > 0 && (s[0] == '-' || s[0] == '+') then
      match ParseDigits(s[1..])
      case None => None
      case Some(v) => var n: int := v; Some(if s[0] == '-' then -n else n)
    else ParseDigits(s)
  }

  /** Reading a written number gives it back. */
  lemma {:induction false} ParseDecimal(n: nat)
    ensures ParseDigits(Decimal(n)) == Some(n)
  {
    if n >= 10 {
      ParseDecimal(n / 10);
      var s := Decimal(n);
      assert IsDigit(s[|s| - 2]);
      assert s[..|s| - 1] == Decimal(n / 10);
    }
  }

  /** One digit more counts ten times what is before it, and an underscore before the digit nothing. */
  lemma DigitAdded(s: string, digit: char)
    requires IsDigit(digit)
    ensures var d := digit as int - '0' as int;
            && ParseDigits([digit]) == Some(d)
            && (ParseDigits(s).Some? ==>
                  && ParseDigits(s + [digit]) == Some(10 * ParseDigits(s).value + d)
                  && ParseDigits(s + "_" + [digit]) == Some(10 * ParseDigits(s).value + d))
  {
    if ParseDigits(s).Some? {
      var t, u := s + [digit], s + "_" + [digit];
      assert IsDigit(s[|s| - 1]) && t[|t| - 2] == s[|s| - 1];
      assert t[..|t| - 1] == s && u[..|u| - 2] == s;
    }
  }

  /** A sign in front is taken off and applied. */
  lemma SignsRead(s: string)
    ensures ParseInt("-" + s).Some? <==> ParseDigits(s).Some?
    ensures ParseInt("+" + s).Some? <==> ParseDigits(s).Some?
    ensures ParseDigits(s).Some? ==>
              var v := ParseDigits(s).value;
              ParseInt(s) == Some(v) && ParseInt("+" + s) == Some(v) && ParseInt("-" + s) == Some(-(v as int))
  {
    hide ParseDigits;
    assert ("-" + s)[1..] == s && ("+" + s)[1..] == s;
    if ParseDigits(s).Some? {
      IntExactlyWhen(s);
      assert ReadsAt(s, 0);
    }
  }

  lemma DecimalIsToken(n: nat)
    ensures IsToken(Decimal(n)) && ParseInt(Decimal(n)) == Some(n)
  {
    ParseDecimal(n);
    assert IsDigit(Decimal(n)[0]);
  }

  // ----- floating-point numbers

  function Digits(s: string): (n: nat)
    ensures n <= |s| && (forall i :: 0 <= i < n ==> IsDigit(s[i])) && (n < |s| ==> !IsDigit(s[n]))
  {
    if |s| == 0 || !IsDigit(s[0]) then 0 else 1 + Digits(s[1..])
  }

  function Unsigned(s: string): string {
    if |s| > 0 && (s[0] == '-' || s[0] == '+') then s[1..] else s
  }

  predicate IsExponent(s: string) {
    && |s| > 0 && (s[0] == 'e' || s[0] == 'E')
    && var digits := Unsigned(s[1..]); |digits| > 0 && Digits(digits) == |digits|
  }

  /** A point and the digits after it, at the start of the rest of a number. */
  function FractionOf(after: string): (f: string)
    ensures f <= after
  {
    if |after| > 0 && after[0] == '.' then after[..1 + Digits(after[1..])] else ""
  }

  /** Digits with a point among them or not, and an exponent or not. */
  predicate IsPlainFloat(s: string) {
    var whole := Digits(s);
    var after := s[whole..];
    var fraction := FractionOf(after);
    && (whole > 0 || |fraction| > 1)
    && (fraction == after || IsExponent(after[|fraction|..]))
  }

  function Lower(c: char): char {
    if 'A' <= c <= 'Z' then (c as int + 32) as char else c
  }

  predicate SameWord(s: string, word: string) {
    |s| == |word| && forall i :: 0 <= i < |s| ==> Lower(s[i]) == word[i]
  }

  function WithoutUnderscores(s: string): string {
    if |s| == 0 then "" else (if s[0] == '_' then "" else [s[0]]) + WithoutUnderscores(s[1..])
  }

  /** An underscore stands between two digits. */
  predicate Guarded(s: string, i: nat)
    requires i < |s|
  {
    s[i] == '_' ==> 0 < i < |s| - 1 && IsDigit(s[i - 1]) && IsDigit(s[i + 1])
  }

  /** Whether float(token) succeeds. */
  predicate IsFloat(s: string) {
    && (forall i :: 0 <= i < |s| ==> Guarded(s, i))
    && var t := Unsigned(WithoutUnderscores(s));
       SameWord(t, "inf") || SameWord(t, "infinity") || SameWord(t, "nan") || IsPlainFloat(t)
  }

  lemma {:induction false} AllDigits(s: string)
    requires forall i :: 0 <= i < |s| ==> IsDigit(s[i])
    ensures WithoutUnderscores(s) == s && Digits(s) == |s|
  {
    if |s| > 0 {
      AllDigits(s[1..]);
      assert s == [s[0]] + s[1..];
    }
  }

  /** What int() reads of the numbers written here, float() reads as well. */
  lemma DecimalIsFloat(n: nat)
    ensures IsFloat(Decimal(n))
  {
    var s := Decimal(n);
    assert IsDigit(s[0]);
    AllDigits(s);
    assert Unsigned(s) == s;
  }

  lemma {:induction false} DigitsThen(s: string, rest: string)
    requires forall i :: 0 <= i < |s| ==> IsDigit(s[i])
    requires |rest| > 0 ==> !IsDigit(rest[0])
    ensures Digits(s + rest) == |s|
  {
    if |s| == 0 {
      assert s + rest == rest;
    } else {
      assert (s + rest)[1..] == s[1..] + rest;
      DigitsThen(s[1..], rest);
    }
  }

  lemma {:induction false} NoUnderscores(s: string)
    requires forall i :: 0 <= i < |s| ==> s[i] != '_'
    ensures WithoutUnderscores(s) == s
  {
    if |s| > 0 {
      NoUnderscores(s[1..]);
      assert s == [s[0]] + s[1..];
    }
  }

  // ----- the grammar of floating-point numbers

  ghost predicate AreDigits(s: string) {
    forall i :: 0 <= i < |s| ==> '0' <= s[i] <= '9'
  }

  /** Nothing, or a point with digits after it or not. */
  ghost predicate IsFraction(f: string) {
    f == "" || (f[0] == '.' && AreDigits(f[1..]))
  }

  /** Nothing, or an E, a sign or none, and digits. */
  ghost predicate IsTail(x: string) {
    x == ""
    || (|x| > 1 && x[0] in {'e', 'E'} && AreDigits(x[1..]))
    || (|x| > 2 && x[0] in {'e', 'E'} && x[1] in {'+', '-'} && AreDigits(x[2..]))
  }

  ghost predicate HasParts(s: string, w: string, f: string, x: string) {
    s == w + (f + x) && AreDigits(w) && IsFraction(f) && IsTail(x) && (|w| > 0 || |f| > 1)
  }

  /**
   * A plain float is digits, a fraction and an exponent, of which all but one digit before the exponent may be
   * missing.
   */
  lemma PlainExactlyWhen(s: string)
    ensures IsPlainFloat(s) <==> exists w, f, x :: HasParts(s, w, f, x)
  {
    if IsPlainFloat(s) {
      var w, f, x := PlainHasParts(s);
    }
    if w, f, x :| HasParts(s, w, f, x) {
      PartsArePlain(s, w, f, x);
    }
  }

  lemma TailExactlyWhen(x: string)
    ensures IsTail(x) <==> x == "" || IsExponent(x)
  {
    if |x| > 1 {
      var y := x[1..];
      DigitsExactlyWhen(y);
      DigitsExactlyWhen(y[1..]);
      assert y[0] == x[1] && y[1..] == x[2..];
    }
  }

  lemma DigitsExactlyWhen(s: string)
    ensures Digits(s) == |s| <==> AreDigits(s)
  {
    if AreDigits(s) {
      AllDigits(s);
    }
  }

  lemma PlainHasParts(s: string) returns (w: string, f: string, x: string)
    requires IsPlainFloat(s)
    ensures HasParts(s, w, f, x)
  {
    hide IsExponent, IsTail, Digits, FractionOf, IsFraction;
    var after := s[Digits(s)..];
    w, f := s[..Digits(s)], FractionOf(after);
    x := after[|f|..];
    TailExactlyWhen(x);
    FractionIs(after);
    assert s == w + after && after == f + x;
  }

  lemma FractionIs(after: string)
    ensures IsFraction(FractionOf(after))
  {
    hide Digits;
  }

  lemma PartsArePlain(s: string, w: string, f: string, x: string)
    requires HasParts(s, w, f, x)
    ensures IsPlainFloat(s)
  {
    hide IsExponent;
    TailExactlyWhen(x);
    var after := f + x;
    DigitsThen(w, after);
    assert s[|w|..] == after && after[|f|..] == x;
    if |f| > 0 {
      DigitsThen(f[1..], x);
      assert after[1..] == f[1..] + x;
    }
  }

  /** The same word, in letters of any case: a capital stands 32 before its small letter. */
  ghost predicate Spells(s: string, word: string) {
    |s| == |word| && forall i :: 0 <= i < |s| ==> s[i] == word[i] || s[i] as int == word[i] as int - 32
  }

  lemma SpellsExactlyWhen(s: string, word: string)
    requires forall i :: 0 <= i < |word| ==> 'a' <= word[i] <= 'z'
    ensures SameWord(s, word) <==> Spells(s, word)
  {
    if |s| == |word| {
      forall i | 0 <= i < |s|
        ensures Lower(s[i]) == word[i] <==> s[i] == word[i] || s[i] as int == word[i] as int - 32
      {
      }
    }
  }

  ghost predicate IsUnsignedFloat(t: string) {
    Spells(t, "inf") || Spells(t, "infinity") || Spells(t, "nan") || exists w, f, x :: HasParts(t, w, f, x)
  }

  /** Without underscores a float is a plain one or one of three words, with at most one sign in front. */
  lemma FloatExactlyWhen(s: string)
    requires '_' !in s
    ensures IsFloat(s) <==> exists t :: IsUnsignedFloat(t) && (s == t || s == "-" + t || s == "+" + t)
  {
    hide IsPlainFloat, HasParts, SameWord, Spells;
    NoUnderscores(s);
    var u := Unsigned(s);
    UnsignedFloat(u);
    assert s == u || s == "-" + u || s == "+" + u;
    if t :| IsUnsignedFloat(t) && (s == t || s == "-" + t || s == "+" + t) {
      UnsignedFloat(t);
      NoSign(t);
      assert ("-" + t)[1..] == t && ("+" + t)[1..] == t;
    }
  }

  lemma UnsignedFloat(t: string)
    ensures IsUnsignedFloat(t)
            <==> SameWord(t, "inf") || SameWord(t, "infinity") || SameWord(t, "nan") || IsPlainFloat(t)
  {
    hide IsPlainFloat, HasParts, SameWord, Spells;
    PlainExactlyWhen(t);
    SpellsExactlyWhen(t, "inf");
    SpellsExactlyWhen(t, "infinity");
    SpellsExactlyWhen(t, "nan");
  }

  lemma NoSign(t: string)
    requires IsUnsignedFloat(t)
    ensures |t| > 0 && t[0] != '-' && t[0] != '+'
  {
    hide HasParts;
    if w, f, x :| HasParts(t, w, f, x) {
      PartsHaveNoSign(t, w, f, x);
    }
  }

  lemma PartsHaveNoSign(t: string, w: string, f: string, x: string)
    requires HasParts(t, w, f, x)
    ensures |t| > 0 && t[0] != '-' && t[0] != '+'
  {
  }

  /** Taking the underscores out closes up what is around them. */
  lemma UnderscoreClosesUp(a: string, b: string)
    ensures WithoutUnderscores(a + "_" + b) == WithoutUnderscores(a) + WithoutUnderscores(b)
    ensures '_' !in a ==> WithoutUnderscores(a) == a
  {
    WithoutAppend(a, "_");
    WithoutAppend(a + "_", b);
    assert WithoutUnderscores("_") == "";
    if '_' !in a {
      NoUnderscores(a);
    }
  }

  lemma {:induction false} WithoutAppend(a: string, b: string)
    ensures WithoutUnderscores(a + b) == WithoutUnderscores(a) + WithoutUnderscores(b)
  {
    if |a| == 0 {
      assert a + b == b;
    } else {
      assert (a + b)[1..] == a[1..] + b;
      WithoutAppend(a[1..], b);
    }
  }

  ghost predicate BetweenDigits(s: string, i: nat)
    requires i < |s| && s[i] == '_'
  {
    0 < i && i + 1 < |s| && '0' <= s[i - 1] <= '9' && '0' <= s[i + 1] <= '9'
  }

  /** An underscore must stand between two digits, and there it changes nothing. */
  lemma UnderscoresExactlyWhen(s: string)
    ensures '_' !in WithoutUnderscores(s)
    ensures IsFloat(s) <==>
            (forall i :: 0 <= i < |s| && s[i] == '_' ==> BetweenDigits(s, i)) && IsFloat(WithoutUnderscores(s))
  {
    hide SameWord, IsPlainFloat, Guarded, BetweenDigits;
    forall i | 0 <= i < |s|
      ensures Guarded(s, i) <==> s[i] != '_' || BetweenDigits(s, i)
    {
      GuardedExactlyWhen(s, i);
    }
    WithoutHasNone(s);
    NoUnderscores(WithoutUnderscores(s));
    NoneGuarded(WithoutUnderscores(s));
  }

  lemma GuardedExactlyWhen(s: string, i: nat)
    requires i < |s|
    ensures Guarded(s, i) <==> s[i] != '_' || BetweenDigits(s, i)
  {
  }

  lemma NoneGuarded(s: string)
    requires '_' !in s
    ensures forall i :: 0 <= i < |s| ==> Guarded(s, i)
  {
  }

  lemma {:induction false} WithoutHasNone(s: string)
    ensures '_' !in WithoutUnderscores(s)
  {
    if |s| > 0 {
      WithoutHasNone(s[1..]);
    }
  }

  ghost predicate ReadsAt(s: string, i: nat)
    requires i < |s|
  {
    '0' <= s[i] <= '9' || (s[i] == '_' && 0 < i < |s| - 1 && s[i - 1] != '_' && s[i + 1] != '_')
  }

  /** Which strings read as an integer: digits, with single underscores between them. */
  lemma {:induction false} IntExactlyWhen(s: string)
    ensures ParseDigits(s).Some? <==> |s| > 0 && forall i :: 0 <= i < |s| ==> ReadsAt(s, i)
  {
    if |s| > 0 {
      assert ReadsAt(s, |s| - 1) <==> IsDigit(s[|s| - 1]);
    }
    if |s| > 1 && IsDigit(s[|s| - 1]) {
      var front := if s[|s| - 2] == '_' then s[..|s| - 2] else s[..|s| - 1];
      IntExactlyWhen(front);
      FrontReads(s, front);
    }
  }

  lemma FrontReads(s: string, front: string)
    requires |s| > 1 && IsDigit(s[|s| - 1])
    requires front == if s[|s| - 2] == '_' then s[..|s| - 2] else s[..|s| - 1]
    ensures (forall i :: 0 <= i < |s| ==> ReadsAt(s, i))
            <==> |front| > 0 && forall i :: 0 <= i < |front| ==> ReadsAt(front, i)
  {
    var n := |front|;
    if forall i :: 0 <= i < |s| ==> ReadsAt(s, i) {
      assert ReadsAt(s, |s| - 2);
      forall i | 0 <= i < n
        ensures ReadsAt(front, i)
      {
        assert ReadsAt(s, i);
      }
    }
    if n > 0 && forall i :: 0 <= i < n ==> ReadsAt(front, i) {
      assert ReadsAt(front, n - 1);
      forall i | 0 <= i < |s|
        ensures ReadsAt(s, i)
      {
        assert i < n ==> ReadsAt(front, i);
      }
    }
  }

  // ----- blanks

  lemma BlanksAre(b: Byte, c: char)
    ensures IsBlank(b) <==> b in {9, 10, 11, 12, 13, 32}
    ensures IsSpace(c) <==> c as int in {9, 10, 11, 12, 13, 28, 29, 30, 31, 32}
  {
  }

  /** Stripping takes off blanks at both ends and nothing else. */
  lemma {:induction false} StripIs(front: Bytes, b: Bytes, back: Bytes)
    requires |b| > 0 && !IsBlank(b[0]) && !IsBlank(b[|b| - 1])
    requires (forall x :: x in front ==> IsBlank(x)) && (forall x :: x in back ==> IsBlank(x))
    ensures Strip(front + b + back) == b
    decreases |front| + |back|
  {
    var s := front + b + back;
    if |front| > 0 {
      assert s[0] == front[0] && s[1..] == front[1..] + b + back;
      StripIs(front[1..], b, back);
    } else if |back| > 0 {
      assert s[0] == b[0] && s[|s| - 1] == back[|back| - 1];
      assert s[..|s| - 1] == front + b + back[..|back| - 1];
      StripIs(front, b, back[..|back| - 1]);
    } else {
      assert s == b;
    }
  }

  /** Tokens are the longest runs of other characters than spaces, however many of these there are. */
  lemma SplitIs(c: char, t: string, s: string)
    requires IsSpace(c) && |t| > 0 && forall i :: 0 <= i < |t| ==> !IsSpace(t[i])
    ensures Split("") == [] && Split([c] + s) == Split(s)
    ensures Split(t) == [t] && Split(t + [c] + s) == [t] + Split(s)
  {
    WordIs(t, "");
    WordIs(t, [c] + s);
    assert t + "" == t && t[|t|..] == "" && t[..|t|] == t;
    assert t + [c] + s == t + ([c] + s);
    assert (t + ([c] + s))[|t|..] == [c] + s && ([c] + s)[1..] == s;
  }

  lemma WordIs(t: string, rest: string)
    requires (forall i :: 0 <= i < |t| ==> !IsSpace(t[i])) && (|rest| > 0 ==> IsSpace(rest[0]))
    ensures WordLength(t + rest) == |t|
  {
    var s := t + rest;
    assert forall i :: 0 <= i < |t| ==> s[i] == t[i];
    assert |rest| > 0 ==> s[|t|] == rest[0];
  }

  // ----- numbers in binary

  /** `size` bytes, least significant first. */
  function ToBytes(n: nat, size: nat): (b: Bytes)
    ensures |b| == size
  {
    if size == 0 then [] else [n % 256] + ToBytes(n / 256, size - 1)
  }

  function FromBytes(b: Bytes): nat {
    if |b| == 0 then 0 else b[0] + 256 * FromBytes(b[1..])
  }

  function Power256(size: nat): (p: nat)
    ensures p >= 1
  {
    if size == 0 then 1 else 256 * Power256(size - 1)
  }

  lemma {:induction false} FromToBytes(n: nat, size: nat)
    requires n < Power256(size)
    ensures FromBytes(ToBytes(n, size)) == n
  {
    if size > 0 {
      FromToBytes(n / 256, size - 1);
      assert ToBytes(n, size)[1..] == ToBytes(n / 256, size - 1);
    }
  }
}
