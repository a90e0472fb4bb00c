// Strings as the client, the server and the browser worker handle them: bytewise order,
// decimal numerals, splitting on a separator, and words separated by white space.
module Text {

  datatype Option<+T> = None | Some(value: T)

  // ---------- Order ----------

  // The order behind `<` and `>` on strings: first differing character decides, a proper prefix is smaller.
  predicate LexLess(a: string, b: string)
  {
    if |b| == 0 then false
    else if |a| == 0 then true
    else if a[0] != b[0] then a[0] < b[0]
    else LexLess(a[1..], b[1..])
  }

  lemma {:induction false} LexIrreflexive(a: string)
    ensures !LexLess(a, a)
  {
    if a != "" {
      LexIrreflexive(a[1..]);
    }
  }

  lemma {:induction false} LexTransitive(a: string, b: string, c: string)
    requires LexLess(a, b) && LexLess(b, c)
    ensures LexLess(a, c)
  {
    if a != "" && a[0] == b[0] && b[0] == c[0] {
      LexTransitive(a[1..], b[1..], c[1..]);
    }
  }

  lemma {:induction false} LexTotal(a: string, b: string)
    ensures a == b || LexLess(a, b) || LexLess(b, a)
  {
    if a != "" && b != "" && a[0] == b[0] {
      LexTotal(a[1..], b[1..]);
      assert a == [a[0]] + a[1..] && b == [b[0]] + b[1..];
    }
  }

  lemma LexAsymmetric(a: string, b: string)
    requires LexLess(a, b)
    ensures !LexLess(b, a) && a != b
  {
    LexIrreflexive(a);
    if LexLess(b, a) {
      LexTransitive(a, b, a);
    }
  }

  // Texts that start with blocks of equal length compare by block, then by remainder.
  lemma {:induction false} LexConcat(a: string, b: string, x: string, y: string)
    requires |a| == |b|
    ensures LexLess(a + x, b + y) <==> LexLess(a, b) || (a == b && LexLess(x, y))
  {
    if a == "" {
      assert a + x == x && b + y == y;
    } else {
      assert (a + x)[1..] == a[1..] + x && (b + y)[1..] == b[1..] + y;
      LexConcat(a[1..], b[1..], x, y);
      assert a == [a[0]] + a[1..] && b == [b[0]] + b[1..];
    }
  }

  // ---------- Numerals ----------

  function Digit(n: int): char
    requires 0 <= n < 10
  {
    '0' + n as char
  }

  predicate IsDigit(c: char) { '0' <= c <= '9' }

  function Pow10(w: nat): nat { if w == 0 then 1 else 10 * Pow10(w - 1) }

  // n in exactly w digits, zero-padded.
  function Pad(w: nat, n: nat): (s: string)
    ensures |s| == w
    ensures forall c :: c in s ==> IsDigit(c)
  {
    if w == 0 then "" else Pad(w - 1, n / 10) + [Digit(n % 10)]
  }

  lemma {:induction false} PadOrder(w: nat, a: nat, b: nat)
    requires a < Pow10(w) && b < Pow10(w)
    ensures LexLess(Pad(w, a), Pad(w, b)) <==> a < b
    ensures Pad(w, a) == Pad(w, b) <==> a == b
  {
    if w > 0 {
      var a', b' := a / 10, b / 10;
      PadOrder(w - 1, a', b');
      var p, q, x, y := Pad(w - 1, a'), Pad(w - 1, b'), [Digit(a % 10)], [Digit(b % 10)];
      LexConcat(p, q, x, y);
      assert LexLess(x, y) <==> a % 10 < b % 10 by {
        assert x[1..] == "" && y[1..] == "";
      }
      assert p == (p + x)[..w - 1] && q == (q + y)[..w - 1];
      assert x == (p + x)[w - 1..] && y == (q + y)[w - 1..];
      assert x == y <==> a % 10 == b % 10;
    }
  }

  // n in decimal without leading zeros.
  function Decimal(n: nat): (s: string)
    ensures |s| > 0
    ensures forall c :: c in s ==> IsDigit(c)
  {
    if n < 10 then [Digit(n)] else Decimal(n / 10) + [Digit(n % 10)]
  }

  function Value(s: string): nat
    requires forall c :: c in s ==> IsDigit(c)
  {
    if s == "" then 0
    else
      assert IsDigit(s[|s| - 1]);
      10 * Value(s[..|s| - 1]) + (s[|s| - 1] - '0') as int
  }

  lemma {:induction false} DecimalValue(n: nat)
    ensures Value(Decimal(n)) == n
  {
    if n < 10 {
      assert Decimal(n)[..0] == "";
    } else {
      DecimalValue(n / 10);
      assert Decimal(n)[..|Decimal(n)| - 1] == Decimal(n / 10);
    }
  }

  lemma DecimalInjective(m: nat, n: nat)
    requires Decimal(m) == Decimal(n)
    ensures m == n
  {
    DecimalValue(m);
    DecimalValue(n);
  }

  lemma {:induction false} PadValue(w: nat, n: nat)
    requires n < Pow10(w)
    ensures Value(Pad(w, n)) == n
  {
    if w > 0 {
      PadValue(w - 1, n / 10);
      assert Pad(w, n)[..w - 1] == Pad(w - 1, n / 10);
    }
  }

  const INT64_MIN: int := -0x8000_0000_0000_0000
  const INT64_MAX: int := 0x7FFF_FFFF_FFFF_FFFF

  // strconv.ParseInt(s, 10, 64): an optional sign, at least one digit, and a value that fits.
  function ParseInt64(s: string): (r: Option<int>)
    ensures r.Some? ==> INT64_MIN <= r.value <= INT64_MAX
  {
    var digits := if s != "" && (s[0] == '+' || s[0] == '-') then s[1..] else s;
    if digits == "" || exists c :: c in digits && !IsDigit(c) then None
    else
      var magnitude: int := Value(digits);
      var v := if s[0] == '-' then -magnitude else magnitude;
      if INT64_MIN <= v <= INT64_MAX then Some(v) else None
  }

  // An index written with FormatInt reads back unchanged.
  lemma ParseDecimal(n: nat)
    requires n <= INT64_MAX
    ensures ParseInt64(Decimal(n)) == Some(n)
  {
    DecimalValue(n);
    assert IsDigit(Decimal(n)[0]);
  }

  // A sign in front of a numeral counts, and only with it the least number fits.
  lemma ParseSigned(n: nat)
    ensures ParseInt64(['-'] + Decimal(n)) == if n <= 0x8000_0000_0000_0000 then Some(-(n as int)) else None
    ensures ParseInt64(['+'] + Decimal(n)) == if n < 0x8000_0000_0000_0000 then Some(n) else None
  {
    DecimalValue(n);
    assert (['-'] + Decimal(n))[1..] == Decimal(n) && (['+'] + Decimal(n))[1..] == Decimal(n);
  }

  // ---------- Splitting ----------

  // strings.Split(s, sep) for a one-character separator.
  function Split(s: string, sep: char): (r: seq<string>)
    ensures |r| > 0
  {
    if s == "" then [""]
    else
      var rest := Split(s[1..], sep);
      if s[0] == sep then [""] + rest else [[s[0]] + rest[0]] + rest[1..]
  }

  lemma {:induction false} SplitExcludesSeparator(s: string, sep: char)
    ensures forall f :: f in Split(s, sep) ==> sep !in f
  {
    if s != "" {
      SplitExcludesSeparator(s[1..], sep);
    }
  }

  function Join(fields: seq<string>, sep: char): string
    requires fields != []
  {
    if |fields| == 1 then fields[0] else fields[0] + ([sep] + Join(fields[1..], sep))
  }

  lemma {:induction false} SplitFirst(f: string, sep: char, rest: string)
    requires sep !in f
    ensures Split(f + ([sep] + rest), sep) == [f] + Split(rest, sep)
  {
    var s := f + ([sep] + rest);
    if f == "" {
      assert s == [sep] + rest && s[1..] == rest;
    } else {
      assert s[1..] == f[1..] + ([sep] + rest);
      SplitFirst(f[1..], sep, rest);
      assert f == [f[0]] + f[1..];
    }
  }

  lemma {:induction false} SplitWhole(f: string, sep: char)
    requires sep !in f
    ensures Split(f, sep) == [f]
  {
    if f != "" {
      SplitWhole(f[1..], sep);
      assert f == [f[0]] + f[1..];
    }
  }

  // Fields without the separator are what splitting their join gives back.
  lemma {:induction false} SplitJoin(fields: seq<string>, sep: char)
    requires fields != [] && forall f :: f in fields ==> sep !in f
    ensures Split(Join(fields, sep), sep) == fields
  {
    assert fields[0] in fields && fields == [fields[0]] + fields[1..];
    if |fields| == 1 {
      SplitWhole(fields[0], sep);
    } else {
      SplitFirst(fields[0], sep, Join(fields[1..], sep));
      assert forall f :: f in fields[1..] ==> f in fields;
      SplitJoin(fields[1..], sep);
    }
  }

  // unicode.IsSpace
  predicate IsSpace(c: char)
  {
    c == ' ' || '\t' <= c <= '\r' || c == '\U{85}' || c == '\U{A0}' || c == '\U{1680}'
    || '\U{2000}' <= c <= '\U{200A}' || c == '\U{2028}' || c == '\U{2029}' || c == '\U{202F}'
    || c == '\U{205F}' || c == '\U{3000}'
  }

  function WordLength(s: string): (n: nat)
    ensures n <= |s|
    ensures s != "" && !IsSpace(s[0]) ==> n > 0
  {
    if s == "" || IsSpace(s[0]) then 0 else 1 + WordLength(s[1..])
  }

  // strings.Fields: the maximal runs of non-space characters.
  function Fields(s: string): (r: seq<string>)
    decreases |s|
  {
    if s == "" then []
    else if IsSpace(s[0]) then Fields(s[1..])
    else [s[..WordLength(s)]] + Fields(s[WordLength(s)..])
  }

  // Visible ASCII, as gpg's keywords, fingerprints and numerals are.
  predicate IsWord(s: string)
  {
    s != "" && forall c :: c in s ==> '!' <= c <= '~'
  }

  lemma {:induction false} WordEnds(w: string, rest: string)
    requires forall c :: c in w ==> '!' <= c <= '~'
    requires rest == "" || rest[0] == ' ' || rest[0] == '\t'
    ensures WordLength(w + rest) == |w|
  {
    var s := w + rest;
    if w == "" {
      assert s == rest;
    } else {
      assert s[0] in w && s[1..] == w[1..] + rest;
      assert forall c :: c in w[1..] ==> c in w;
      WordEnds(w[1..], rest);
    }
  }

  lemma FieldsFirst(w: string, rest: string)
    requires IsWord(w)
    requires rest == "" || rest[0] == ' ' || rest[0] == '\t'
    ensures Fields(w + rest) == [w] + Fields(rest)
  {
    var s := w + rest;
    WordEnds(w, rest);
    assert s[0] in w;
    assert s[..|w|] == w && s[|w|..] == rest;
  }

  // Words separated by single blanks read back as they are.
  lemma {:induction false} FieldsJoin(words: seq<string>)
    requires words != [] && forall w :: w in words ==> IsWord(w)
    ensures Fields(Join(words, ' ')) == words
  {
    assert words[0] in words && words == [words[0]] + words[1..];
    if |words| == 1 {
      FieldsFirst(words[0], "");
      assert words[0] + "" == words[0];
    } else {
      var rest := Join(words[1..], ' ');
      FieldsFirst(words[0], [' '] + rest);
      assert ([' '] + rest)[1..] == rest;
      assert forall w :: w in words[1..] ==> w in words;
      FieldsJoin(words[1..]);
    }
  }

  // Blanks and tabs at the front, hence also several between two words, say nothing.
  lemma {:induction false} FieldsSkipsBlanks(blanks: string, s: string)
    requires forall c :: c in blanks ==> c == ' ' || c == '\t'
    ensures Fields(blanks + s) == Fields(s)
  {
    if blanks == "" {
      assert blanks + s == s;
    } else {
      assert blanks[0] in blanks && (blanks + s)[1..] == blanks[1..] + s;
      assert forall c :: c in blanks[1..] ==> c in blanks;
      FieldsSkipsBlanks(blanks[1..], s);
    }
  }
}
