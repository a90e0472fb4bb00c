// JSON objects of strings and natural numbers: the two printers whose output gets signed, and a reader
// of such objects after RFC 8259 that knows nothing of the printers.
module JsonText {
  import opened Text

  datatype Json = Str(s: string) | Num(n: nat)
  datatype Member = Member(key: string, val: Json)

  // The two printers. JSON.stringify escapes as section 7 of RFC 8259 demands; encoding/json
  // additionally writes five characters as \u escapes, for embedding in HTML and JavaScript.
  datatype Printer = Stringify | Marshal

  // ---------- Printing ----------

  function HexDigit(n: int): char
    requires 0 <= n < 16
  {
    if n < 10 then '0' + n as char else 'a' + (n - 10) as char
  }

  function Hex4(n: int): (s: string)
    requires 0 <= n < 0x10000
    ensures |s| == 4
  {
    var n1 := n / 16;
    var n2 := n1 / 16;
    [HexDigit(n2 / 16), HexDigit(n2 % 16), HexDigit(n1 % 16), HexDigit(n % 16)]
  }

  function UnicodeEscape(c: char): string
    requires c as int < 0x10000
  {
    ['\\', 'u'] + Hex4(c as int)
  }

  predicate IsMarkup(c: char)
  {
    c == '<' || c == '>' || c == '&' || c == '\U{2028}' || c == '\U{2029}'
  }

  function Escape(c: char, p: Printer): string
  {
    if c == '"' then ['\\', '"']
    else if c == '\\' then ['\\', '\\']
    else if c == '\U{8}' then ['\\', 'b']
    else if c == '\U{C}' then ['\\', 'f']
    else if c == '\n' then ['\\', 'n']
    else if c == '\r' then ['\\', 'r']
    else if c == '\t' then ['\\', 't']
    else if c < ' ' || (p == Marshal && IsMarkup(c)) then UnicodeEscape(c)
    else [c]
  }

  // Each printing function takes the text that follows.
  function Chars(s: string, p: Printer, rest: string): string
  {
    if s == "" then ['"'] + rest else Escape(s[0], p) + Chars(s[1..], p, rest)
  }

  function Quoted(s: string, p: Printer, rest: string): string
  {
    ['"'] + Chars(s, p, rest)
  }

  function ValueText(v: Json, p: Printer, rest: string): string
  {
    match v
    case Str(s) => Quoted(s, p, rest)
    case Num(n) => Decimal(n) + rest
  }

  function MemberText(m: Member, p: Printer, rest: string): string
  {
    Quoted(m.key, p, [':'] + ValueText(m.val, p, rest))
  }

  function MoreMembers(ms: seq<Member>, p: Printer): (t: string)
    ensures t != "" && (t[0] == ',' || t[0] == '}')
  {
    if ms == [] then ['}'] else [','] + MemberText(ms[0], p, MoreMembers(ms[1..], p))
  }

  // A JSON object without white space.
  function ObjectText(ms: seq<Member>, p: Printer): string
  {
    ['{'] + if ms == [] then ['}'] else MemberText(ms[0], p, MoreMembers(ms[1..], p))
  }

  // ---------- Reading ----------

  // What has been read, and the text behind it.
  datatype Token<+T> = Token(value: T, rest: string)

  function HexValue(c: char): Option<int>
  {
    if '0' <= c <= '9' then Some((c - '0') as int)
    else if 'a' <= c <= 'f' then Some((c - 'a') as int + 10)
    else if 'A' <= c <= 'F' then Some((c - 'A') as int + 10)
    else None
  }

  // Four hexadecimal digits.
  function ReadHex(t: string): Option<int>
    requires |t| >= 4
  {
    var a, b, c, d := HexValue(t[0]), HexValue(t[1]), HexValue(t[2]), HexValue(t[3]);
    if a.None? || b.None? || c.None? || d.None? then None
    else Some(4096 * a.value + 256 * b.value + 16 * c.value + d.value)
  }

  // The two-character escapes of section 7.
  function ShortEscape(c: char): Option<char>
  {
    match c
    case '"' => Some('"')
    case '\\' => Some('\\')
    case '/' => Some('/')
    case 'b' => Some('\U{8}')
    case 'f' => Some('\U{C}')
    case 'n' => Some('\n')
    case 'r' => Some('\r')
    case 't' => Some('\t')
    case _ => None
  }

  // One character of a string: itself, or escaped. Control characters must be escaped. Surrogates,
  // which escape characters beyond U+FFFF in pairs, are not read.
  function ReadChar(t: string): (r: Option<Token<char>>)
    requires t != ""
    ensures r.Some? ==> |r.value.rest| < |t|
  {
    if t[0] < ' ' || t[0] == '"' then None
    else if t[0] != '\\' then Some(Token(t[0], t[1..]))
    else if |t| < 2 then None
    else if t[1] != 'u' then
      var c := ShortEscape(t[1]);
      if c.None? then None else Some(Token(c.value, t[2..]))
    else if |t| < 6 then None
    else
      var n := ReadHex(t[2..6]);
      if n.None? || !(0 <= n.value < 0xD800 || 0xE000 <= n.value < 0x10000) then None
      else Some(Token(n.value as char, t[6..]))
  }

  // The rest of a string, behind its opening quote.
  function ReadChars(t: string): (r: Option<Token<string>>)
    ensures r.Some? ==> |r.value.rest| < |t|
    decreases |t|
  {
    if t == "" then None
    else if t[0] == '"' then Some(Token("", t[1..]))
    else
      var c := ReadChar(t);
      if c.None? then None
      else
        var more := ReadChars(c.value.rest);
        if more.None? then None else Some(Token([c.value.value] + more.value.value, more.value.rest))
  }

  function DigitRun(s: string): (n: nat)
    ensures n <= |s| && forall c :: c in s[..n] ==> IsDigit(c)
  {
    if s == "" || !IsDigit(s[0]) then 0
    else
      var n := 1 + DigitRun(s[1..]);
      assert s[..n] == [s[0]] + s[1..][..n - 1];
      n
  }

  // A natural number without leading zeros.
  function ReadNumeral(t: string): (r: Option<Token<nat>>)
    ensures r.Some? ==> |r.value.rest| < |t|
  {
    var n := DigitRun(t);
    if n == 0 || (n > 1 && t[0] == '0') then None else Some(Token(Value(t[..n]), t[n..]))
  }

  function ReadValue(t: string): (r: Option<Token<Json>>)
    ensures r.Some? ==> |r.value.rest| < |t|
  {
    if t != "" && t[0] == '"' then
      var s := ReadChars(t[1..]);
      if s.None? then None else Some(Token(Str(s.value.value), s.value.rest))
    else
      var n := ReadNumeral(t);
      if n.None? then None else Some(Token(Num(n.value.value), n.value.rest))
  }

  // A quoted name, a colon and a value.
  function ReadMember(t: string): (r: Option<Token<Member>>)
    ensures r.Some? ==> |r.value.rest| < |t|
  {
    if t == "" || t[0] != '"' then None
    else
      var key := ReadChars(t[1..]);
      if key.None? || key.value.rest == "" || key.value.rest[0] != ':' then None
      else
        var val := ReadValue(key.value.rest[1..]);
        if val.None? then None else Some(Token(Member(key.value.value, val.value.value), val.value.rest))
  }

  // Further members up to the closing brace.
  function ReadMore(t: string): Option<Token<seq<Member>>>
    decreases |t|
  {
    if t == "" then None
    else if t[0] == '}' then Some(Token([], t[1..]))
    else if t[0] != ',' then None
    else
      var m := ReadMember(t[1..]);
      if m.None? then None
      else
        var more := ReadMore(m.value.rest);
        if more.None? then None else Some(Token([m.value.value] + more.value.value, more.value.rest))
  }

  // A whole text that is one object, without white space.
  function ReadObject(t: string): Option<seq<Member>>
  {
    if |t| < 2 || t[0] != '{' then None
    else if t[1] == '}' then if |t| == 2 then Some([]) else None
    else
      var m := ReadMember(t[1..]);
      if m.None? then None
      else
        var more := ReadMore(m.value.rest);
        if more.None? || more.value.rest != "" then None else Some([m.value.value] + more.value.value)
  }

  // ---------- What is printed reads back ----------

  lemma HexDigitReads(n: int)
    requires 0 <= n < 16
    ensures HexValue(HexDigit(n)) == Some(n)
  {
  }

  lemma HexReads(n: int)
    requires 0 <= n < 0x10000
    ensures ReadHex(Hex4(n)) == Some(n)
  {
    var n1 := n / 16;
    var n2 := n1 / 16;
    HexDigitReads(n2 / 16);
    HexDigitReads(n2 % 16);
    HexDigitReads(n1 % 16);
    HexDigitReads(n % 16);
  }

  // An escape never starts with a quote, and its first two characters fix its length.
  lemma EscapeShape(c: char, p: Printer)
    ensures var e := Escape(c, p);
            && e != "" && e[0] != '"'
            && (e[0] != '\\' ==> e == [c])
            && (e[0] == '\\' ==>
                  |e| >= 2 && if e[1] == 'u' then |e| == 6 && c as int < 0x10000 && e == UnicodeEscape(c) else |e| == 2)
  {
  }

  lemma ShortEscapeReads(c: char, p: Printer)
    requires |Escape(c, p)| == 2
    ensures ShortEscape(Escape(c, p)[1]) == Some(c) && Escape(c, p)[1] != 'u'
  {
  }

  lemma EscapeReads(c: char, p: Printer, x: string)
    ensures ReadChar(Escape(c, p) + x) == Some(Token(c, x))
  {
    var e := Escape(c, p);
    var t := e + x;
    EscapeShape(c, p);
    assert t[0] == e[0] && t[|e|..] == x && t[..|e|] == e;
    if e[0] == '\\' {
      assert t[1] == e[1];
      if e[1] == 'u' {
        assert t[2..6] == e[2..6] == Hex4(c as int);
        HexReads(c as int);
      } else {
        ShortEscapeReads(c, p);
      }
    } else {
      assert e == [c] && c >= ' ';
    }
  }

  lemma {:induction false} CharsRead(s: string, p: Printer, x: string)
    ensures ReadChars(Chars(s, p, x)) == Some(Token(s, x))
  {
    if s == "" {
      assert (['"'] + x)[1..] == x;
    } else {
      var more := Chars(s[1..], p, x);
      EscapeShape(s[0], p);
      EscapeReads(s[0], p, more);
      CharsRead(s[1..], p, x);
      assert Chars(s, p, x)[0] == Escape(s[0], p)[0];
      assert s == [s[0]] + s[1..];
    }
  }

  lemma {:induction false} DigitRunEnds(s: string, x: string)
    requires forall c :: c in s ==> IsDigit(c)
    requires x != "" && !IsDigit(x[0])
    ensures DigitRun(s + x) == |s|
  {
    if s == "" {
      assert s + x == x;
    } else {
      assert (s + x)[1..] == s[1..] + x;
      DigitRunEnds(s[1..], x);
    }
  }

  lemma {:induction false} NoLeadingZero(n: nat)
    ensures Decimal(n)[0] == '0' ==> n == 0
  {
    if n >= 10 {
      NoLeadingZero(n / 10);
      assert Decimal(n)[0] == Decimal(n / 10)[0];
    }
  }

  lemma NumeralReads(n: nat, x: string)
    requires x != "" && !IsDigit(x[0])
    ensures ReadNumeral(Decimal(n) + x) == Some(Token(n, x))
  {
    var s := Decimal(n);
    DigitRunEnds(s, x);
    DecimalValue(n);
    NoLeadingZero(n);
    assert (s + x)[..|s|] == s && (s + x)[|s|..] == x && (s + x)[0] == s[0];
  }

  lemma ValueReads(v: Json, p: Printer, x: string)
    requires x != "" && !IsDigit(x[0])
    ensures ReadValue(ValueText(v, p, x)) == Some(Token(v, x))
  {
    if v.Str? {
      CharsRead(v.s, p, x);
      assert ValueText(v, p, x)[1..] == Chars(v.s, p, x);
    } else {
      NumeralReads(v.n, x);
      assert ValueText(v, p, x)[0] == Decimal(v.n)[0] && IsDigit(Decimal(v.n)[0]);
    }
  }

  lemma MemberReads(m: Member, p: Printer, x: string)
    requires x != "" && !IsDigit(x[0])
    ensures ReadMember(MemberText(m, p, x)) == Some(Token(m, x))
  {
    var behind := [':'] + ValueText(m.val, p, x);
    CharsRead(m.key, p, behind);
    ValueReads(m.val, p, x);
    assert MemberText(m, p, x)[1..] == Chars(m.key, p, behind);
    assert behind[1..] == ValueText(m.val, p, x);
  }

  lemma MoreParts(ms: seq<Member>, p: Printer)
    requires ms != []
    ensures var t := MoreMembers(ms, p);
            t[0] == ',' && t[1..] == MemberText(ms[0], p, MoreMembers(ms[1..], p))
  {
  }

  lemma ReadMoreStep(t: string, m: Member, behind: string, ms: seq<Member>)
    requires t != "" && t[0] == ',' && ReadMember(t[1..]) == Some(Token(m, behind))
    requires ReadMore(behind) == Some(Token(ms, ""))
    ensures ReadMore(t) == Some(Token([m] + ms, ""))
  {
  }

  lemma {:induction false} MoreRead(ms: seq<Member>, p: Printer)
    ensures ReadMore(MoreMembers(ms, p)) == Some(Token(ms, ""))
    decreases |ms|
  {
    if ms == [] {
      assert ['}'][1..] == [];
    } else {
      var behind := MoreMembers(ms[1..], p);
      MemberReads(ms[0], p, behind);
      MoreRead(ms[1..], p);
      MoreParts(ms, p);
      ReadMoreStep(MoreMembers(ms, p), ms[0], behind, ms[1..]);
      assert ms == [ms[0]] + ms[1..];
    }
  }

  lemma ObjectParts(ms: seq<Member>, p: Printer)
    requires ms != []
    ensures var t := ObjectText(ms, p);
            |t| >= 2 && t[0] == '{' && t[1] == '"' && t[1..] == MemberText(ms[0], p, MoreMembers(ms[1..], p))
  {
    assert MemberText(ms[0], p, MoreMembers(ms[1..], p))[0] == '"';
  }

  // Either printer writes an object that reads back as its members.
  lemma ObjectReads(ms: seq<Member>, p: Printer)
    ensures ReadObject(ObjectText(ms, p)) == Some(ms)
  {
    if ms != [] {
      var behind := MoreMembers(ms[1..], p);
      MemberReads(ms[0], p, behind);
      MoreRead(ms[1..], p);
      ObjectParts(ms, p);
      assert ms == [ms[0]] + ms[1..];
    }
  }

  // So printed objects determine their members: keys, values, kinds and order.
  lemma ObjectTextInjective(ms: seq<Member>, ns: seq<Member>, p: Printer)
    requires ObjectText(ms, p) == ObjectText(ns, p)
    ensures ms == ns
  {
    ObjectReads(ms, p);
    ObjectReads(ns, p);
  }
}
