// The bytes that get signed. The worker prints an object with sorted keys and feeds the text to
// btoa; the server marshals a struct whose fields are declared in key order and signs its UTF-8.
// Signatures verify only where the two sides produce the same bytes.
module CanonicalPayload {
  import opened Text
  import opened JsMaps
  import opened JsonText
  import opened LogEntries

  // ---------- Bytes ----------

  // UTF-8, as the server signs its text.
  function Utf8Char(c: char): (r: seq<int>)
    ensures 1 <= |r| <= 4
  {
    var n := c as int;
    var n1 := n / 64;
    var n2 := n1 / 64;
    var n3 := n2 / 64;
    if n < 0x80 then [n]
    else if n < 0x800 then [0xC0 + n1, 0x80 + n % 64]
    else if n < 0x10000 then [0xE0 + n2, 0x80 + n1 % 64, 0x80 + n % 64]
    else [0xF0 + n3, 0x80 + n2 % 64, 0x80 + n1 % 64, 0x80 + n % 64]
  }

  function Utf8(s: string): seq<int>
  {
    if s == "" then [] else Utf8Char(s[0]) + Utf8(s[1..])
  }

  // The bytes btoa encodes: one per character, and an exception beyond U+00FF.
  function Latin1(s: string): Option<seq<int>>
  {
    if exists i :: 0 <= i < |s| && s[i] > '\U{FF}' then None
    else Some(seq(|s|, i requires 0 <= i < |s| => s[i] as int))
  }

  lemma Latin1Injective(s: string, t: string)
    requires Latin1(s).Some? && Latin1(s) == Latin1(t)
    ensures s == t
  {
    forall i | 0 <= i < |s| ensures s[i] == t[i] {
      assert Latin1(s).value[i] == Latin1(t).value[i];
    }
  }

  predicate IsContinuation(b: int) { 0x80 <= b < 0xC0 }

  // The first character of some UTF-8 and the number of its bytes, section 3 of RFC 3629.
  function ReadUtf8Char(b: seq<int>): (r: Option<(char, nat)>)
    requires b != []
    ensures r.Some? ==> 1 <= r.value.1 <= |b|
  {
    if 0 <= b[0] < 0x80 then Some((b[0] as char, 1))
    else if 0xC2 <= b[0] < 0xE0 && |b| >= 2 && IsContinuation(b[1]) then
      Some((((b[0] - 0xC0) * 64 + b[1] - 0x80) as char, 2))
    else if 0xE0 <= b[0] < 0xF0 && |b| >= 3 && IsContinuation(b[1]) && IsContinuation(b[2]) then
      var n := (b[0] - 0xE0) * 4096 + (b[1] - 0x80) * 64 + b[2] - 0x80;
      if 0x800 <= n < 0xD800 || 0xE000 <= n < 0x10000 then Some((n as char, 3)) else None
    else if 0xF0 <= b[0] < 0xF5 && |b| >= 4
            && IsContinuation(b[1]) && IsContinuation(b[2]) && IsContinuation(b[3]) then
      var n := (b[0] - 0xF0) * 262144 + (b[1] - 0x80) * 4096 + (b[2] - 0x80) * 64 + b[3] - 0x80;
      if 0x10000 <= n < 0x110000 then Some((n as char, 4)) else None
    else None
  }

  function ReadUtf8(b: seq<int>): Option<string>
  {
    if b == [] then Some("")
    else
      var c := ReadUtf8Char(b);
      if c.None? then None
      else
        var more := ReadUtf8(b[c.value.1..]);
        if more.None? then None else Some([c.value.0] + more.value)
  }

  lemma Utf8CharReads(c: char, rest: seq<int>)
    ensures ReadUtf8Char(Utf8Char(c) + rest) == Some((c, |Utf8Char(c)|))
  {
    var u, b := Utf8Char(c), Utf8Char(c) + rest;
    assert forall i :: 0 <= i < |u| ==> b[i] == u[i];
    CodePoint(c as int);
  }

  // A number below 2^24 from its four six-bit digits.
  lemma CodePoint(n: int)
    requires 0 <= n < 0x1000000
    ensures n == n / 64 * 64 + n % 64
    ensures n == n / 64 / 64 * 4096 + n / 64 % 64 * 64 + n % 64
    ensures n == n / 64 / 64 / 64 * 262144 + n / 64 / 64 % 64 * 4096 + n / 64 % 64 * 64 + n % 64
  {
  }

  // UTF-8 reads back as the text.
  lemma {:induction false} Utf8Reads(s: string)
    ensures ReadUtf8(Utf8(s)) == Some(s)
  {
    if s != "" {
      var u, more := Utf8Char(s[0]), Utf8(s[1..]);
      Utf8CharReads(s[0], more);
      Utf8Reads(s[1..]);
      assert (u + more)[|u|..] == more && s == [s[0]] + s[1..];
    }
  }

  lemma Utf8Injective(s: string, t: string)
    requires Utf8(s) == Utf8(t)
    ensures s == t
  {
    Utf8Reads(s);
    Utf8Reads(t);
  }

  // ---------- The two sides agree exactly on plain text ----------

  // A character both sides print as the same bytes: ASCII, and not HTML markup.
  predicate IsPlain(c: char) { c < '\U{80}' && !IsMarkup(c) }

  predicate PlainText(s: string) { forall c :: c in s ==> IsPlain(c) }

  predicate PlainMembers(ms: seq<Member>)
  {
    forall m :: m in ms ==> PlainText(m.key) && (m.val.Str? ==> PlainText(m.val.s))
  }

  // The server's bytes of a text fragment followed by `rest`, compared with the worker's characters:
  // never fewer, and more as soon as one character is not plain.
  ghost predicate Outgrows(server: string, worker: string, plain: bool)
  {
    if plain then server == worker && Utf8(server) == Codes(worker)
    else |Utf8(server)| > |worker|
  }

  function Codes(s: string): seq<int>
  {
    seq(|s|, i requires 0 <= i < |s| => s[i] as int)
  }

  lemma {:induction false} Utf8Concat(a: string, b: string)
    ensures Utf8(a + b) == Utf8(a) + Utf8(b)
  {
    if a == "" {
      assert a + b == b;
    } else {
      assert (a + b)[1..] == a[1..] + b;
      Utf8Concat(a[1..], b);
    }
  }

  lemma {:induction false} Utf8Length(s: string)
    ensures |Utf8(s)| >= |s|
    ensures (forall c :: c in s ==> c < '\U{80}') ==> Utf8(s) == Codes(s)
  {
    if s != "" {
      Utf8Length(s[1..]);
      assert forall c :: c in s[1..] ==> c in s;
      if forall c :: c in s ==> c < '\U{80}' {
        assert s[0] in s;
        assert Codes(s) == [s[0] as int] + Codes(s[1..]);
      }
    }
  }

  // Putting a fragment in front of a text.
  lemma Prepend(a: string, b: string, plainA: bool, server: string, worker: string, plain: bool)
    requires Outgrows(a, b, plainA) && Outgrows(server, worker, plain)
    ensures Outgrows(a + server, b + worker, plainA && plain)
  {
    Utf8Concat(a, server);
    if plainA && plain {
      assert Codes(b + worker) == Codes(b) + Codes(worker);
    }
  }

  lemma AsciiFragment(a: string)
    requires forall c :: c in a ==> c < '\U{80}'
    ensures Outgrows(a, a, true)
  {
    Utf8Length(a);
  }

  lemma EscapeOutgrows(c: char)
    ensures Outgrows(Escape(c, Marshal), Escape(c, Stringify), IsPlain(c))
  {
    var e := Escape(c, Marshal);
    if IsPlain(c) {
      EscapeIsAscii(c);
      AsciiFragment(e);
    } else if IsMarkup(c) {
      Utf8Length(e);
    } else {
      assert e == [c] && Utf8(e) == Utf8Char(c) + Utf8(e[1..]);
    }
  }

  lemma EscapeIsAscii(c: char)
    requires IsPlain(c)
    ensures Escape(c, Marshal) == Escape(c, Stringify)
    ensures forall x :: x in Escape(c, Marshal) ==> x < '\U{80}'
  {
  }

  lemma {:induction false} CharsOutgrow(s: string, server: string, worker: string, plain: bool)
    requires Outgrows(server, worker, plain)
    ensures Outgrows(Chars(s, Marshal, server), Chars(s, Stringify, worker), PlainText(s) && plain)
  {
    if s == "" {
      AsciiFragment(['"']);
      Prepend(['"'], ['"'], true, server, worker, plain);
    } else {
      CharsOutgrow(s[1..], server, worker, plain);
      EscapeOutgrows(s[0]);
      Prepend(Escape(s[0], Marshal), Escape(s[0], Stringify), IsPlain(s[0]),
              Chars(s[1..], Marshal, server), Chars(s[1..], Stringify, worker), PlainText(s[1..]) && plain);
      assert PlainText(s) <==> IsPlain(s[0]) && PlainText(s[1..]) by {
        assert s == [s[0]] + s[1..];
        assert forall c :: c in s <==> c == s[0] || c in s[1..];
      }
    }
  }

  lemma QuotedOutgrows(s: string, server: string, worker: string, plain: bool)
    requires Outgrows(server, worker, plain)
    ensures Outgrows(Quoted(s, Marshal, server), Quoted(s, Stringify, worker), PlainText(s) && plain)
  {
    CharsOutgrow(s, server, worker, plain);
    AsciiFragment(['"']);
    Prepend(['"'], ['"'], true, Chars(s, Marshal, server), Chars(s, Stringify, worker), PlainText(s) && plain);
  }

  lemma MemberOutgrows(m: Member, server: string, worker: string, plain: bool)
    requires Outgrows(server, worker, plain)
    ensures Outgrows(MemberText(m, Marshal, server), MemberText(m, Stringify, worker),
                     PlainText(m.key) && (m.val.Str? ==> PlainText(m.val.s)) && plain)
  {
    var a, b := ValueText(m.val, Marshal, server), ValueText(m.val, Stringify, worker);
    var plainValue := (m.val.Str? ==> PlainText(m.val.s)) && plain;
    if m.val.Str? {
      QuotedOutgrows(m.val.s, server, worker, plain);
    } else {
      AsciiFragment(Decimal(m.val.n));
      Prepend(Decimal(m.val.n), Decimal(m.val.n), true, server, worker, plain);
    }
    AsciiFragment([':']);
    Prepend([':'], [':'], true, a, b, plainValue);
    QuotedOutgrows(m.key, [':'] + a, [':'] + b, plainValue);
  }

  lemma {:induction false} MoreMembersOutgrow(ms: seq<Member>)
    ensures Outgrows(MoreMembers(ms, Marshal), MoreMembers(ms, Stringify), PlainMembers(ms))
    decreases |ms|
  {
    if ms == [] {
      AsciiFragment(['}']);
    } else {
      MoreMembersOutgrow(ms[1..]);
      var a, b := MoreMembers(ms[1..], Marshal), MoreMembers(ms[1..], Stringify);
      MemberOutgrows(ms[0], a, b, PlainMembers(ms[1..]));
      AsciiFragment([',']);
      Prepend([','], [','], true, MemberText(ms[0], Marshal, a), MemberText(ms[0], Stringify, b), PlainMembers(ms));
    }
  }

  lemma ObjectOutgrows(ms: seq<Member>)
    ensures Outgrows(ObjectText(ms, Marshal), ObjectText(ms, Stringify), PlainMembers(ms))
  {
    AsciiFragment(['{']);
    if ms == [] {
      AsciiFragment(['}']);
      Prepend(['{'], ['{'], true, ['}'], ['}'], true);
    } else {
      MoreMembersOutgrow(ms[1..]);
      var a, b := MoreMembers(ms[1..], Marshal), MoreMembers(ms[1..], Stringify);
      MemberOutgrows(ms[0], a, b, PlainMembers(ms[1..]));
      Prepend(['{'], ['{'], true, MemberText(ms[0], Marshal, a), MemberText(ms[0], Stringify, b), PlainMembers(ms));
    }
  }

  // The same members print to the same bytes on both sides exactly when every text is plain.
  lemma SidesAgreeIff(ms: seq<Member>)
    ensures Latin1(ObjectText(ms, Stringify)) == Some(Utf8(ObjectText(ms, Marshal))) <==> PlainMembers(ms)
  {
    ObjectOutgrows(ms);
    var server, worker := ObjectText(ms, Marshal), ObjectText(ms, Stringify);
    if PlainMembers(ms) {
      forall i | 0 <= i < |worker| ensures worker[i] <= '\U{FF}' {
        PlainObjectIsAscii(worker, i);
      }
    }
  }

  // A text whose UTF-8 is its character codes is ASCII.
  lemma {:induction false} PlainObjectIsAscii(s: string, i: nat)
    requires i < |s| && Utf8(s) == Codes(s)
    ensures s[i] < '\U{80}'
  {
    Utf8Length(s[1..]);
    assert |Utf8Char(s[0])| == 1;
    if i > 0 {
      assert Utf8(s)[1..] == Utf8(s[1..]) && Codes(s)[1..] == Codes(s[1..]);
      PlainObjectIsAscii(s[1..], i - 1);
    }
  }

  // ---------- Sorted keys ----------

  function Insert(k: string, keys: seq<string>): seq<string>
  {
    if keys == [] || LexLess(k, keys[0]) then [k] + keys else [keys[0]] + Insert(k, keys[1..])
  }

  // Array.prototype.sort on the keys; for distinct keys every sorting procedure gives this result.
  function Sort(keys: seq<string>): seq<string>
  {
    if keys == [] then [] else Insert(keys[0], Sort(keys[1..]))
  }

  ghost predicate Ascending(keys: seq<string>)
  {
    forall i, j :: 0 <= i < j < |keys| ==> LexLess(keys[i], keys[j])
  }

  ghost predicate Distinct(keys: seq<string>)
  {
    forall i, j :: 0 <= i < j < |keys| ==> keys[i] != keys[j]
  }

  lemma {:induction false} InsertKeepsOrder(k: string, keys: seq<string>)
    requires Ascending(keys) && k !in keys
    ensures Ascending(Insert(k, keys))
    ensures forall x :: x in Insert(k, keys) <==> x == k || x in keys
  {
    if keys == [] {
    } else if LexLess(k, keys[0]) {
      forall j | 0 <= j < |keys| ensures LexLess(k, keys[j]) {
        if j > 0 {
          LexTransitive(k, keys[0], keys[j]);
        }
      }
    } else {
      LexTotal(k, keys[0]);
      InsertKeepsOrder(k, keys[1..]);
      var r := Insert(k, keys[1..]);
      assert keys == [keys[0]] + keys[1..];
      forall j | 0 <= j < |r| ensures LexLess(keys[0], r[j]) {
        assert r[j] in r;
        if r[j] != k {
          var m :| 0 <= m < |keys[1..]| && keys[1..][m] == r[j];
          assert keys[m + 1] == r[j];
        }
      }
    }
  }

  lemma {:induction false} SortSorts(keys: seq<string>)
    requires Distinct(keys)
    ensures Ascending(Sort(keys))
    ensures forall x :: x in Sort(keys) <==> x in keys
  {
    if keys != [] {
      assert keys == [keys[0]] + keys[1..];
      SortSorts(keys[1..]);
      InsertKeepsOrder(keys[0], Sort(keys[1..]));
    }
  }

  lemma FirstIsLeast(a: seq<string>, x: string)
    requires Ascending(a) && x in a
    ensures x == a[0] || LexLess(a[0], x)
  {
  }

  lemma {:induction false} AscendingUnique(a: seq<string>, b: seq<string>)
    requires Ascending(a) && Ascending(b)
    requires forall x :: x in a <==> x in b
    ensures a == b
  {
    assert b != [] ==> b[0] in b;
    if a != [] {
      assert a[0] in a && a[0] in b;
      FirstIsLeast(a, b[0]);
      FirstIsLeast(b, a[0]);
      if a[0] != b[0] {
        LexAsymmetric(a[0], b[0]);
      }
      forall x ensures x in a[1..] <==> x in b[1..] {
        TailMembers(a, x);
        TailMembers(b, x);
      }
      AscendingUnique(a[1..], b[1..]);
      assert a == [a[0]] + a[1..] && b == [b[0]] + b[1..];
    }
  }

  lemma TailMembers(a: seq<string>, x: string)
    requires a != [] && Ascending(a)
    ensures x in a[1..] <==> x in a && x != a[0]
  {
    LexIrreflexive(a[0]);
    if x in a && x != a[0] {
      var i :| 0 <= i < |a| && a[i] == x;
      assert a[1..][i - 1] == x;
    }
  }

  function MembersOf(vals: map<string, Json>, keys: seq<string>): seq<Member>
    requires forall k :: k in keys ==> k in vals
  {
    if keys == [] then [] else [Member(keys[0], vals[keys[0]])] + MembersOf(vals, keys[1..])
  }

  // JSON.stringify(obj, Object.keys(obj).sort())
  function CanonicalJSON(obj: JsMap<string, Json>): string
    requires obj.Valid()
  {
    SortSorts(obj.keys);
    ObjectText(MembersOf(obj.vals, Sort(obj.keys)), Stringify)
  }

  lemma {:induction false} MembersDetermine(v: map<string, Json>, a: seq<string>, w: map<string, Json>, b: seq<string>)
    requires (forall k :: k in a ==> k in v) && (forall k :: k in b ==> k in w)
    requires MembersOf(v, a) == MembersOf(w, b)
    ensures a == b && forall k :: k in a ==> v[k] == w[k]
  {
    if a != [] && b != [] {
      assert MembersOf(v, a)[0] == MembersOf(w, b)[0];
      assert MembersOf(v, a)[1..] == MembersOf(v, a[1..]) && MembersOf(w, b)[1..] == MembersOf(w, b[1..]);
      MembersDetermine(v, a[1..], w, b[1..]);
      assert a == [a[0]] + a[1..] && b == [b[0]] + b[1..];
    }
  }

  lemma SortedKeysAreKeys(m: JsMap<string, Json>)
    requires m.Valid()
    ensures Ascending(Sort(m.keys)) && forall k :: k in Sort(m.keys) <==> k in m.vals
  {
    SortSorts(m.keys);
    assert forall k :: k in m.keys <==> k in m.vals;
  }

  lemma SameMembersSameText(a: JsMap<string, Json>, b: JsMap<string, Json>)
    requires a.Valid() && b.Valid() && a.vals == b.vals
    ensures CanonicalJSON(a) == CanonicalJSON(b)
  {
    SortedKeysAreKeys(a);
    SortedKeysAreKeys(b);
    AscendingUnique(Sort(a.keys), Sort(b.keys));
  }

  lemma TextDetermines(v: map<string, Json>, a: seq<string>, w: map<string, Json>, b: seq<string>)
    requires (forall k :: k in a <==> k in v) && (forall k :: k in b <==> k in w)
    requires ObjectText(MembersOf(v, a), Stringify) == ObjectText(MembersOf(w, b), Stringify)
    ensures v == w
  {
    ObjectTextInjective(MembersOf(v, a), MembersOf(w, b), Stringify);
    MembersDetermine(v, a, w, b);
  }

  lemma SameTextSameMembers(a: JsMap<string, Json>, b: JsMap<string, Json>)
    requires a.Valid() && b.Valid() && CanonicalJSON(a) == CanonicalJSON(b)
    ensures a.vals == b.vals
  {
    SortedKeysAreKeys(a);
    SortedKeysAreKeys(b);
    TextDetermines(a.vals, Sort(a.keys), b.vals, Sort(b.keys));
  }

  // Canonical: the text forgets the order in which members were added and nothing else.
  lemma CanonicalIffSameMembers(a: JsMap<string, Json>, b: JsMap<string, Json>)
    requires a.Valid() && b.Valid()
    ensures CanonicalJSON(a) == CanonicalJSON(b) <==> a.vals == b.vals
  {
    if a.vals == b.vals {
      SameMembersSameText(a, b);
    }
    if CanonicalJSON(a) == CanonicalJSON(b) {
      SameTextSameMembers(a, b);
    }
  }

  // ---------- The two payloads ----------

  const SIGNER_KEYS := ["artifact_hash", "category", "signer_keyid", "verdict"]
  const SERVER_KEYS := ["artifact_hash", "category", "log_index", "server_timestamp", "signature", "signer_keyid",
                        "uuid", "verdict"]

  // The object a signer signs, and that the worker rebuilds from an entry to verify it.
  function SignerObject(artifactHash: string, category: string, signerKeyID: string, verdict: string)
    : JsMap<string, Json>
  {
    JsMap(SIGNER_KEYS, map["artifact_hash" := Str(artifactHash), "category" := Str(category),
                           "signer_keyid" := Str(signerKeyID), "verdict" := Str(verdict)])
  }

  // The object the worker rebuilds to verify the server's signature on an entry.
  function ServerObject(e: Entry): JsMap<string, Json>
  {
    JsMap(SERVER_KEYS, map["artifact_hash" := Str(e.artifactHash), "category" := Str(e.category),
                           "log_index" := Num(e.logIndex), "server_timestamp" := Str(e.serverTimestamp),
                           "signature" := Str(e.signature), "signer_keyid" := Str(e.signerKeyID),
                           "uuid" := Str(e.uuid), "verdict" := Str(e.verdict)])
  }

  // The struct the server marshals, in declaration order.
  function SigPayload(e: Entry): seq<Member>
  {
    [Member("artifact_hash", Str(e.artifactHash)), Member("category", Str(e.category)),
     Member("log_index", Num(e.logIndex)), Member("server_timestamp", Str(e.serverTimestamp)),
     Member("signature", Str(e.signature)), Member("signer_keyid", Str(e.signerKeyID)),
     Member("uuid", Str(e.uuid)), Member("verdict", Str(e.verdict))]
  }

  // The bytes the server signs.
  function ServerBytes(e: Entry): seq<int>
  {
    Utf8(ObjectText(SigPayload(e), Marshal))
  }

  ghost predicate SameSignedFields(e: Entry, f: Entry)
  {
    f == e.(serverSignature := f.serverSignature)
  }

  ghost predicate PlainEntry(e: Entry)
  {
    && PlainText(e.artifactHash) && PlainText(e.category) && PlainText(e.verdict) && PlainText(e.signerKeyID)
    && PlainText(e.signature) && PlainText(e.serverTimestamp) && PlainText(e.uuid)
  }

  // The keys are declared in ascending order, so sorting leaves them alone.
  lemma KeysAscend()
    ensures Ascending(SERVER_KEYS) && Ascending(SIGNER_KEYS)
  {
    Chain(SERVER_KEYS);
    Chain(SIGNER_KEYS);
  }

  lemma Chain(keys: seq<string>)
    requires forall i :: 0 <= i < |keys| - 1 ==> LexLess(keys[i], keys[i + 1])
    ensures Ascending(keys)
  {
    forall i, j | 0 <= i < j < |keys| ensures LexLess(keys[i], keys[j]) {
      ChainFrom(keys, i, j);
    }
  }

  lemma {:induction false} ChainFrom(keys: seq<string>, i: nat, j: nat)
    requires forall i :: 0 <= i < |keys| - 1 ==> LexLess(keys[i], keys[i + 1])
    requires i < j < |keys|
    ensures LexLess(keys[i], keys[j])
    decreases j
  {
    if i + 1 < j {
      ChainFrom(keys, i, j - 1);
      assert LexLess(keys[j - 1], keys[j - 1 + 1]);
      LexTransitive(keys[i], keys[j - 1], keys[j]);
    }
  }

  lemma AscendingIsSorted(keys: seq<string>)
    requires Ascending(keys)
    ensures Distinct(keys) && Sort(keys) == keys
  {
    forall i, j | 0 <= i < j < |keys| ensures keys[i] != keys[j] {
      LexIrreflexive(keys[i]);
    }
    SortSorts(keys);
    AscendingUnique(Sort(keys), keys);
  }

  function SignerMembers(artifactHash: string, category: string, signerKeyID: string, verdict: string): seq<Member>
  {
    [Member("artifact_hash", Str(artifactHash)), Member("category", Str(category)),
     Member("signer_keyid", Str(signerKeyID)), Member("verdict", Str(verdict))]
  }

  lemma ServerObjectText(e: Entry)
    ensures ServerObject(e).Valid()
    ensures CanonicalJSON(ServerObject(e)) == ObjectText(SigPayload(e), Stringify)
  {
    KeysAscend();
    AscendingIsSorted(SERVER_KEYS);
    var obj := ServerObject(e);
    assert obj.Valid() by {
      forall k ensures k in obj.keys <==> k in obj.vals {
      }
    }
    ServerMembersInOrder(e, obj.vals);
  }

  lemma ServerValues(e: Entry, i: nat)
    requires i < |SERVER_KEYS|
    ensures var vals, ms := ServerObject(e).vals, SigPayload(e);
            |ms| == |SERVER_KEYS| && SERVER_KEYS[i] in vals && ms[i] == Member(SERVER_KEYS[i], vals[SERVER_KEYS[i]])
  {
  }

  lemma ServerMembersInOrder(e: Entry, vals: map<string, Json>)
    requires vals == ServerObject(e).vals
    ensures (forall k :: k in SERVER_KEYS ==> k in vals) && MembersOf(vals, SERVER_KEYS) == SigPayload(e)
  {
    forall i | 0 <= i < |SERVER_KEYS|
      ensures SERVER_KEYS[i] in vals && SigPayload(e)[i] == Member(SERVER_KEYS[i], vals[SERVER_KEYS[i]])
    {
      ServerValues(e, i);
    }
    MembersAreListed(vals, SERVER_KEYS);
  }

  lemma {:induction false} MembersAreListed(vals: map<string, Json>, keys: seq<string>)
    requires forall k :: k in keys ==> k in vals
    ensures |MembersOf(vals, keys)| == |keys|
    ensures forall i :: 0 <= i < |keys| ==> MembersOf(vals, keys)[i] == Member(keys[i], vals[keys[i]])
  {
    if keys != [] {
      MembersAreListed(vals, keys[1..]);
    }
  }

  lemma SignerObjectText(artifactHash: string, category: string, signerKeyID: string, verdict: string)
    ensures var obj := SignerObject(artifactHash, category, signerKeyID, verdict);
            obj.Valid() && CanonicalJSON(obj)
              == ObjectText(SignerMembers(artifactHash, category, signerKeyID, verdict), Stringify)
  {
    KeysAscend();
    AscendingIsSorted(SIGNER_KEYS);
    var obj := SignerObject(artifactHash, category, signerKeyID, verdict);
    assert obj.Valid() by {
      forall k ensures k in obj.keys <==> k in obj.vals {
      }
    }
    SignerMembersInOrder(artifactHash, category, signerKeyID, verdict, obj.vals);
  }

  lemma SignerMembersInOrder(artifactHash: string, category: string, signerKeyID: string, verdict: string,
                             vals: map<string, Json>)
    requires vals == SignerObject(artifactHash, category, signerKeyID, verdict).vals
    ensures forall k :: k in SIGNER_KEYS ==> k in vals
    ensures MembersOf(vals, SIGNER_KEYS) == SignerMembers(artifactHash, category, signerKeyID, verdict)
  {
    MembersAreListed(vals, SIGNER_KEYS);
  }

  // The worker rebuilds exactly the bytes the server signed if and only if every text field of the
  // entry is plain; log indices are JavaScript numbers and exact below 2^53.
  lemma WorkerRebuildsServerBytesIff(e: Entry)
    requires e.logIndex < 0x20_0000_0000_0000
    ensures ServerObject(e).Valid()
    ensures Latin1(CanonicalJSON(ServerObject(e))) == Some(ServerBytes(e)) <==> PlainEntry(e)
  {
    ServerObjectText(e);
    SidesAgreeIff(SigPayload(e));
    var ms := SigPayload(e);
    PlainFields(e);
  }

  // The server accepts any signer key id that is not empty and not too long: one ampersand in it,
  // and the worker rebuilds other bytes than the server signed.
  lemma AmpersandBreaksBytes(e: Entry)
    requires e.logIndex < 0x20_0000_0000_0000 && '&' in e.signerKeyID
    ensures Latin1(CanonicalJSON(ServerObject(e))) != Some(ServerBytes(e))
  {
    assert !IsPlain('&');
    WorkerRebuildsServerBytesIff(e);
  }

  lemma PlainKeys()
    ensures forall i :: 0 <= i < |SERVER_KEYS| ==> PlainText(SERVER_KEYS[i])
  {
  }

  lemma PlainFields(e: Entry)
    ensures PlainMembers(SigPayload(e)) <==> PlainEntry(e)
  {
    PlainKeys();
    var ms := SigPayload(e);
    assert forall i :: 0 <= i < |ms| ==> ms[i].key == SERVER_KEYS[i];
    if PlainMembers(ms) {
      assert ms[0] in ms && ms[1] in ms && ms[3] in ms && ms[4] in ms && ms[5] in ms && ms[6] in ms && ms[7] in ms;
    }
  }

  // The canonical text is a JSON object with the object's members in ascending order of their names.
  lemma CanonicalReads(obj: JsMap<string, Json>)
    requires obj.Valid()
    ensures Ascending(Sort(obj.keys)) && (forall k :: k in Sort(obj.keys) <==> k in obj.vals)
    ensures ReadObject(CanonicalJSON(obj)) == Some(MembersOf(obj.vals, Sort(obj.keys)))
  {
    SortedKeysAreKeys(obj);
    ObjectReads(MembersOf(obj.vals, Sort(obj.keys)), Stringify);
  }

  // What the signer signs: an object that names the artifact, the category, the key and the verdict.
  lemma SignerTextReads(artifactHash: string, category: string, signerKeyID: string, verdict: string)
    ensures var obj := SignerObject(artifactHash, category, signerKeyID, verdict);
            && obj.Valid()
            && ReadObject(CanonicalJSON(obj)) == Some([
                 Member("artifact_hash", Str(artifactHash)), Member("category", Str(category)),
                 Member("signer_keyid", Str(signerKeyID)), Member("verdict", Str(verdict))])
  {
    SignerObjectText(artifactHash, category, signerKeyID, verdict);
    ObjectReads(SignerMembers(artifactHash, category, signerKeyID, verdict), Stringify);
  }

  ghost predicate NamesAllFields(ms: seq<Member>, e: Entry)
  {
    ms == [Member("artifact_hash", Str(e.artifactHash)), Member("category", Str(e.category)),
           Member("log_index", Num(e.logIndex)), Member("server_timestamp", Str(e.serverTimestamp)),
           Member("signature", Str(e.signature)), Member("signer_keyid", Str(e.signerKeyID)),
           Member("uuid", Str(e.uuid)), Member("verdict", Str(e.verdict))]
  }

  // What the server signs, and what the worker rebuilds: objects that name all eight signed fields.
  lemma ServerBytesRead(e: Entry)
    ensures var text := ReadUtf8(ServerBytes(e));
            text.Some? && ReadObject(text.value).Some? && NamesAllFields(ReadObject(text.value).value, e)
    ensures ServerObject(e).Valid()
    ensures var rebuilt := ReadObject(CanonicalJSON(ServerObject(e)));
            rebuilt.Some? && NamesAllFields(rebuilt.value, e)
  {
    Utf8Reads(ObjectText(SigPayload(e), Marshal));
    ObjectReads(SigPayload(e), Marshal);
    ServerObjectText(e);
    ObjectReads(SigPayload(e), Stringify);
  }

  // Two entries give the server the same bytes to sign only if all eight signed fields agree.
  lemma ServerBytesInjective(e: Entry, f: Entry)
    ensures ServerBytes(e) == ServerBytes(f) <==> SameSignedFields(e, f)
  {
    if ServerBytes(e) == ServerBytes(f) {
      Utf8Injective(ObjectText(SigPayload(e), Marshal), ObjectText(SigPayload(f), Marshal));
      ObjectTextInjective(SigPayload(e), SigPayload(f), Marshal);
      var p, q := SigPayload(e), SigPayload(f);
      assert forall i :: 0 <= i < 8 ==> p[i] == q[i];
      assert p[0].val == q[0].val && p[1].val == q[1].val && p[2].val == q[2].val && p[3].val == q[3].val;
      assert p[4].val == q[4].val && p[5].val == q[5].val && p[6].val == q[6].val && p[7].val == q[7].val;
    }
  }

  // A signer's payload fixes its four fields.
  lemma SignerBytesInjective(a1: string, c1: string, s1: string, v1: string,
                             a2: string, c2: string, s2: string, v2: string)
    requires Latin1(ObjectText(SignerMembers(a1, c1, s1, v1), Stringify)).Some?
    requires Latin1(ObjectText(SignerMembers(a1, c1, s1, v1), Stringify))
          == Latin1(ObjectText(SignerMembers(a2, c2, s2, v2), Stringify))
    ensures (a1, c1, s1, v1) == (a2, c2, s2, v2)
  {
    var p, q := SignerMembers(a1, c1, s1, v1), SignerMembers(a2, c2, s2, v2);
    Latin1Injective(ObjectText(p, Stringify), ObjectText(q, Stringify));
    ObjectTextInjective(p, q, Stringify);
    assert p[0].val == q[0].val && p[1].val == q[1].val && p[2].val == q[2].val && p[3].val == q[3].val;
  }

  // ---------- The two kinds of payload never coincide ----------

  // The number of quotes that are not escaped: two for each string of the object.
  function Quotes(t: string): nat
    decreases |t|
  {
    if t == "" then 0
    else if t[0] == '"' then 1 + Quotes(t[1..])
    else if t[0] == '\\' && |t| >= 2 then Quotes(t[2..])
    else Quotes(t[1..])
  }

  // Characters that are neither quotes nor backslashes do not matter.
  lemma {:induction false} QuotesSkip(a: string, rest: string)
    requires forall c :: c in a ==> c != '"' && c != '\\'
    ensures Quotes(a + rest) == Quotes(rest)
  {
    if a == "" {
      assert a + rest == rest;
    } else {
      assert a[0] in a && forall c :: c in a[1..] ==> c in a;
      assert (a + rest)[1..] == a[1..] + rest;
      QuotesSkip(a[1..], rest);
    }
  }

  lemma QuotesOfEscape(c: char, p: Printer, rest: string)
    ensures Quotes(Escape(c, p) + rest) == Quotes(rest)
  {
    var e := Escape(c, p);
    EscapeShape(c, p);
    if e[0] == '\\' {
      assert (e + rest)[2..] == e[2..] + rest;
      QuotesSkip(e[2..], rest);
    } else {
      QuotesSkip(e, rest);
    }
  }

  lemma {:induction false} QuotesOfChars(s: string, p: Printer, rest: string)
    ensures Quotes(Chars(s, p, rest)) == 1 + Quotes(rest)
  {
    if s == "" {
      assert (['"'] + rest)[1..] == rest;
    } else {
      QuotesOfEscape(s[0], p, Chars(s[1..], p, rest));
      QuotesOfChars(s[1..], p, rest);
    }
  }

  lemma QuotesOfQuoted(s: string, p: Printer, rest: string)
    ensures Quotes(Quoted(s, p, rest)) == 2 + Quotes(rest)
  {
    assert (['"'] + Chars(s, p, rest))[1..] == Chars(s, p, rest);
    QuotesOfChars(s, p, rest);
  }

  lemma QuotesOfMember(m: Member, p: Printer, rest: string)
    ensures Quotes(MemberText(m, p, rest)) == (if m.val.Str? then 4 else 2) + Quotes(rest)
  {
    var v := ValueText(m.val, p, rest);
    if m.val.Str? {
      QuotesOfQuoted(m.val.s, p, rest);
    } else {
      QuotesSkip(Decimal(m.val.n), rest);
    }
    QuotesSkip([':'], v);
    QuotesOfQuoted(m.key, p, [':'] + v);
  }

  function Strings(ms: seq<Member>): nat
  {
    if ms == [] then 0 else (if ms[0].val.Str? then 2 else 1) + Strings(ms[1..])
  }

  lemma {:induction false} QuotesOfMore(ms: seq<Member>, p: Printer)
    ensures Quotes(MoreMembers(ms, p)) == 2 * Strings(ms)
    decreases |ms|
  {
    if ms == [] {
      QuotesSkip(['}'], "");
      assert ['}'] + "" == ['}'];
    } else {
      QuotesOfMore(ms[1..], p);
      QuotesOfMember(ms[0], p, MoreMembers(ms[1..], p));
      QuotesSkip([','], MemberText(ms[0], p, MoreMembers(ms[1..], p)));
    }
  }

  lemma QuotesOfObject(ms: seq<Member>, p: Printer)
    ensures Quotes(ObjectText(ms, p)) == 2 * Strings(ms)
  {
    if ms == [] {
      QuotesSkip(['{', '}'], "");
      assert ['{'] + ['}'] == ['{', '}'] + "";
    } else {
      QuotesOfMore(ms[1..], p);
      QuotesOfMember(ms[0], p, MoreMembers(ms[1..], p));
      QuotesSkip(['{'], MemberText(ms[0], p, MoreMembers(ms[1..], p)));
    }
  }

  lemma Latin1Tail(t: string, b: seq<int>, k: nat)
    requires Latin1(t) == Some(b) && k <= |b|
    ensures k <= |t| && Latin1(t[k..]) == Some(b[k..])
    ensures forall i :: 0 <= i < k ==> t[i] as int == b[i]
  {
    var tail := t[k..];
    assert forall i :: 0 <= i < |tail| ==> tail[i] == t[k + i];
    assert Latin1(tail).Some?;
    assert Latin1(tail).value == b[k..];
  }

  // A character's bytes are itself when it is ASCII, and bytes above ASCII otherwise.
  lemma Utf8CharBytes(c: char)
    ensures if c < '\U{80}' then Utf8Char(c) == [c as int]
            else forall i :: 0 <= i < |Utf8Char(c)| ==> Utf8Char(c)[i] >= 0x80
  {
  }

  // The characters of a text up to a multi-byte character's last byte do not matter.
  lemma QuotesSkipBytes(t: string, u: seq<int>, from: nat)
    requires from <= |u| <= |t| && forall i :: 0 <= i < |u| ==> t[i] as int == u[i]
    requires forall i :: from <= i < |u| ==> u[i] >= 0x80
    ensures Quotes(t[from..]) == Quotes(t[|u|..])
  {
    assert t[from..] == t[from..|u|] + t[|u|..];
    forall c | c in t[from..|u|] ensures c != '"' && c != '\\' {
      var i :| from <= i < |u| && t[i] == c;
    }
    QuotesSkip(t[from..|u|], t[|u|..]);
  }

  // A text whose bytes are the UTF-8 of another text has as many quotes: multi-byte characters
  // contain no byte below 0x80.
  lemma {:induction false} QuotesOfBytes(t: string, x: string)
    requires Latin1(t) == Some(Utf8(x))
    ensures Quotes(t) == Quotes(x)
    decreases |x|
  {
    if x != "" {
      var u, rest := Utf8Char(x[0]), Utf8(x[1..]);
      Latin1Tail(t, u + rest, |u|);
      assert (u + rest)[|u|..] == rest;
      Utf8CharBytes(x[0]);
      if x[0] >= '\U{80}' {
        QuotesOfBytes(t[|u|..], x[1..]);
        assert t[0..] == t;
        QuotesSkipBytes(t, u, 0);
      } else if x[0] == '\\' && |x| >= 2 {
        QuotesOfEscapedBytes(t, x);
      } else {
        QuotesOfBytes(t[1..], x[1..]);
      }
    }
  }

  lemma {:induction false} QuotesOfEscapedBytes(t: string, x: string)
    requires Latin1(t) == Some(Utf8(x))
    requires |x| >= 2 && x[0] == '\\'
    ensures Quotes(t) == Quotes(x)
    decreases |x|, 0
  {
    var v, more := Utf8Char(x[1]), Utf8(x[2..]);
    assert x[1..][1..] == x[2..];
    var u := [x[0] as int] + v;
    assert Utf8(x) == u + more;
    Latin1Tail(t, u + more, |u|);
    assert (u + more)[|u|..] == more;
    QuotesOfBytes(t[|u|..], x[2..]);
    Utf8CharBytes(x[1]);
    QuotesSkipBytes(t, u, 2);
  }

  // No signature over an attestation doubles as a server signature: the payloads never coincide,
  // whichever side prints the eight-field one.
  lemma PayloadKindsDisjoint(a: string, c: string, s: string, v: string, e: Entry)
    ensures Latin1(ObjectText(SignerMembers(a, c, s, v), Stringify)) != Some(ServerBytes(e))
    ensures ObjectText(SignerMembers(a, c, s, v), Stringify) != ObjectText(SigPayload(e), Stringify)
  {
    var p, q := SignerMembers(a, c, s, v), SigPayload(e);
    QuotesOfObject(p, Stringify);
    QuotesOfObject(q, Stringify);
    QuotesOfObject(q, Marshal);
    CountStrings(a, c, s, v, e);
    if Latin1(ObjectText(p, Stringify)) == Some(ServerBytes(e)) {
      QuotesOfBytes(ObjectText(p, Stringify), ObjectText(q, Marshal));
    }
  }

  lemma {:induction false} StringsBounds(ms: seq<Member>)
    ensures |ms| <= Strings(ms) <= 2 * |ms|
  {
    if ms != [] {
      StringsBounds(ms[1..]);
    }
  }

  lemma CountStrings(a: string, c: string, s: string, v: string, e: Entry)
    ensures Strings(SignerMembers(a, c, s, v)) <= 8 < Strings(SigPayload(e))
  {
    var q := SigPayload(e);
    StringsBounds(SignerMembers(a, c, s, v));
    StringsBounds(q[1..]);
    StringsBounds(q[2..]);
    assert q[1..][1..] == q[2..];
  }
}
