// Which entries the worker can send for verification at all. btoa takes characters up to U+00FF only and
// throws on any other; one throw leaves the whole image without verdicts.
module Encodable {
  import opened Text
  import opened LogEntries
  import opened Claims
  import opened JsonText
  import opened CanonicalPayload
  import opened Verdicts

  predicate IsLatin1(s: string) { forall c :: c in s ==> c as int < 0x100 }

  // Every text that the worker puts into the entry's payloads.
  predicate IsEncodable(e: Entry)
  {
    && IsLatin1(e.artifactHash) && IsLatin1(e.category) && IsLatin1(e.verdict) && IsLatin1(e.signerKeyID)
    && IsLatin1(e.signature) && IsLatin1(e.serverTimestamp) && IsLatin1(e.uuid)
  }

  predicate HasLatin1Texts(m: Member)
  {
    IsLatin1(m.key) && (m.val.Str? ==> IsLatin1(m.val.s))
  }

  ghost predicate AllLatin1(ms: seq<Member>) { forall i :: 0 <= i < |ms| ==> HasLatin1Texts(ms[i]) }

  // ---------- What printing does to the alphabet ----------

  lemma BothParts(a: string, b: string)
    ensures IsLatin1(a + b) <==> IsLatin1(a) && IsLatin1(b)
  {
    assert forall c :: c in a + b <==> c in a || c in b;
  }

  lemma EscapeLatin1(c: char)
    ensures IsLatin1(Escape(c, Stringify)) <==> c as int < 0x100
  {
    var e := Escape(c, Stringify);
    if e == [c] {
      assert c in e;
    }
  }

  lemma {:induction false} CharsLatin1(s: string, rest: string)
    ensures IsLatin1(Chars(s, Stringify, rest)) <==> IsLatin1(s) && IsLatin1(rest)
  {
    if s == "" {
      BothParts(['"'], rest);
    } else {
      CharsLatin1(s[1..], rest);
      EscapeLatin1(s[0]);
      BothParts(Escape(s[0], Stringify), Chars(s[1..], Stringify, rest));
      BothParts([s[0]], s[1..]);
      assert s == [s[0]] + s[1..];
    }
  }

  lemma QuotedLatin1(s: string, rest: string)
    ensures IsLatin1(Quoted(s, Stringify, rest)) <==> IsLatin1(s) && IsLatin1(rest)
  {
    CharsLatin1(s, rest);
    BothParts(['"'], Chars(s, Stringify, rest));
  }

  lemma MemberLatin1(m: Member, rest: string)
    ensures IsLatin1(MemberText(m, Stringify, rest)) <==> HasLatin1Texts(m) && IsLatin1(rest)
  {
    var val := ValueText(m.val, Stringify, rest);
    if m.val.Str? {
      QuotedLatin1(m.val.s, rest);
    } else {
      BothParts(Decimal(m.val.n), rest);
    }
    BothParts([':'], val);
    QuotedLatin1(m.key, [':'] + val);
  }

  lemma {:induction false} MoreLatin1(ms: seq<Member>)
    ensures IsLatin1(MoreMembers(ms, Stringify)) <==> AllLatin1(ms)
  {
    if ms != [] {
      var rest := MoreMembers(ms[1..], Stringify);
      MoreLatin1(ms[1..]);
      MemberLatin1(ms[0], rest);
      BothParts([','], MemberText(ms[0], Stringify, rest));
    }
  }

  lemma ObjectLatin1(ms: seq<Member>)
    ensures IsLatin1(ObjectText(ms, Stringify)) <==> AllLatin1(ms)
  {
    if ms != [] {
      var rest := MoreMembers(ms[1..], Stringify);
      MoreLatin1(ms[1..]);
      MemberLatin1(ms[0], rest);
      BothParts(['{'], MemberText(ms[0], Stringify, rest));
    }
  }

  // btoa encodes exactly the texts in Latin-1, each character as the byte with its number.
  lemma BtoaAccepts(text: string)
    ensures Latin1(text).Some? <==> IsLatin1(text)
    ensures IsLatin1(text) ==> Latin1(text).value == Codes(text)
  {
    assert forall i :: 0 <= i < |text| ==> text[i] in text;
  }

  // ---------- The requests of an entry ----------

  // An object is encoded if and only if its keys and texts are in Latin-1, whatever gets escaped.
  lemma ObjectEncodedIff(ms: seq<Member>)
    ensures Latin1(ObjectText(ms, Stringify)).Some? <==> AllLatin1(ms)
  {
    ObjectLatin1(ms);
    BtoaAccepts(ObjectText(ms, Stringify));
  }

  lemma KeysAreLatin1()
    ensures forall i :: 0 <= i < |SERVER_KEYS| ==> IsLatin1(SERVER_KEYS[i])
  {
    PlainKeys();
    forall i | 0 <= i < |SERVER_KEYS| ensures IsLatin1(SERVER_KEYS[i]) {
      assert PlainText(SERVER_KEYS[i]);
    }
  }

  lemma FourTexts(ms: seq<Member>, a: string, c: string, s: string, v: string)
    requires |ms| == 4 && forall i :: 0 <= i < |ms| ==> IsLatin1(ms[i].key)
    requires ms[0].val == Str(a) && ms[1].val == Str(c) && ms[2].val == Str(s) && ms[3].val == Str(v)
    ensures AllLatin1(ms) <==> IsLatin1(a) && IsLatin1(c) && IsLatin1(s) && IsLatin1(v)
  {
    if AllLatin1(ms) {
      assert HasLatin1Texts(ms[0]) && HasLatin1Texts(ms[1]) && HasLatin1Texts(ms[2]) && HasLatin1Texts(ms[3]);
    }
  }

  lemma SignerTexts(a: string, c: string, s: string, v: string)
    ensures AllLatin1(SignerMembers(a, c, s, v)) <==> IsLatin1(a) && IsLatin1(c) && IsLatin1(s) && IsLatin1(v)
  {
    KeysAreLatin1();
    var ms, keys := SignerMembers(a, c, s, v), SERVER_KEYS;
    assert ms[0].key == keys[0] && ms[1].key == keys[1] && ms[2].key == keys[5] && ms[3].key == keys[7];
    FourTexts(ms, a, c, s, v);
  }

  // The four texts can be handed to the native host for signing if and only if they are in Latin-1.
  lemma SignerPayloadIff(a: string, c: string, s: string, v: string)
    ensures SignerObject(a, c, s, v).Valid()
    ensures Latin1(CanonicalJSON(SignerObject(a, c, s, v))).Some?
       <==> IsLatin1(a) && IsLatin1(c) && IsLatin1(s) && IsLatin1(v)
  {
    SignerObjectText(a, c, s, v);
    SignerTexts(a, c, s, v);
    ObjectEncodedIff(SignerMembers(a, c, s, v));
  }

  lemma EightTexts(ms: seq<Member>, e: Entry)
    requires |ms| == 8 && forall i :: 0 <= i < |ms| ==> IsLatin1(ms[i].key)
    requires ms[0].val == Str(e.artifactHash) && ms[1].val == Str(e.category) && ms[2].val.Num?
    requires ms[3].val == Str(e.serverTimestamp) && ms[4].val == Str(e.signature)
    requires ms[5].val == Str(e.signerKeyID) && ms[6].val == Str(e.uuid) && ms[7].val == Str(e.verdict)
    ensures AllLatin1(ms) <==> IsEncodable(e)
  {
    if AllLatin1(ms) {
      assert HasLatin1Texts(ms[0]) && HasLatin1Texts(ms[1]) && HasLatin1Texts(ms[3]) && HasLatin1Texts(ms[4]);
      assert HasLatin1Texts(ms[5]) && HasLatin1Texts(ms[6]) && HasLatin1Texts(ms[7]);
    }
  }

  lemma ServerTexts(e: Entry)
    ensures AllLatin1(SigPayload(e)) <==> IsEncodable(e)
  {
    KeysAreLatin1();
    var ms := SigPayload(e);
    assert forall i :: 0 <= i < |ms| ==> ms[i].key == SERVER_KEYS[i];
    EightTexts(ms, e);
  }

  lemma RequestsIff(encode: seq<int> -> string, e: Entry, serverKey: string)
    ensures ServerRequest(encode, e, serverKey).Some? && SignerRequest(encode, e).Some? <==> IsEncodable(e)
  {
    ServerObjectText(e);
    ServerTexts(e);
    ObjectEncodedIff(SigPayload(e));
    SignerPayloadIff(e.artifactHash, e.category, e.signerKeyID, e.verdict);
  }

  // A lookup gets as far as verification if and only if every latest claim under a trusted signer's name
  // is in Latin-1, in all its signed texts and in the signature.
  lemma LookUpEncodesIff(w: World)
    requires w.entries.Some? && w.serverKey.Some?
    ensures AllEncodable(w.entries.value, w.Trusted(), w.ServerRequests(), w.SignerRequests())
       <==> forall e :: IsClaim(e, w.entries.value, w.Trusted()) ==> IsEncodable(e)
  {
    forall e: Entry
      ensures w.ServerRequests()(e).Some? && w.SignerRequests()(e).Some? <==> IsEncodable(e)
    {
      RequestsIff(w.encode, e, w.serverKey.value);
    }
  }

  // The newest entry of the list, under a trusted signer's name and with a signature beyond Latin-1: the
  // claims of all others are lost with it.
  lemma OneClaimStopsAll(w: World, e: Entry, rest: seq<Entry>)
    requires w.entries == Some([e] + rest) && w.serverKey.Some?
    requires e.signerKeyID in w.Trusted() && e.category != "" && '\U{100}' in e.signature
    requires forall j :: 0 <= j < |rest| ==> !LexLess(e.serverTimestamp, rest[j].serverTimestamp)
    ensures !AllEncodable(w.entries.value, w.Trusted(), w.ServerRequests(), w.SignerRequests())
  {
    var p := ClaimOf(e.signerKeyID, e.category);
    assert IsNewest([e] + rest, p, 0);
    LatestIffNewest([e] + rest, p, 0);
    assert IsClaim(e, [e] + rest, w.Trusted()) && !IsEncodable(e);
    LookUpEncodesIff(w);
  }
}
