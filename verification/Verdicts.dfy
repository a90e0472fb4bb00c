// From the log entries of an image to one verdict per category: latest claim per trusted signer,
// signature checks through the native host, and a plurality vote.
module Verdicts {
  import opened Text
  import opened LogEntries
  import opened JsMaps
  import opened Claims
  import CanonicalPayload
  import KeyList
  import opened NativeHost

  // ---------- Latest claim per trusted signer and category ----------

  function CompositeKey(signer: string, category: string): string
  {
    signer + ":" + category
  }

  predicate Eligible(e: Entry, trusted: seq<string>)
  {
    e.category != "" && e.signerKeyID in trusted
  }

  function KeyIs(trusted: seq<string>, key: string): Entry -> bool
  {
    (e: Entry) => Eligible(e, trusted) && CompositeKey(e.signerKeyID, e.category) == key
  }

  ghost predicate LatestByKey(m: JsMap<string, Entry>, entries: seq<Entry>, trusted: seq<string>)
  {
    m.Valid() && forall key :: Kept(entries, KeyIs(trusted, key)) == if key in m.vals then Some(m.vals[key]) else None
  }

  // The keys come in the order in which the list first has an entry for them.
  ghost predicate KeysByFirst(keys: seq<string>, entries: seq<Entry>, trusted: seq<string>)
  {
    forall i, j :: 0 <= i < j < |keys| ==>
      First(entries, KeyIs(trusted, keys[i])) < First(entries, KeyIs(trusted, keys[j]))
  }

  // The map after one more entry.
  function Absorb(m: JsMap<string, Entry>, entry: Entry, trusted: seq<string>): JsMap<string, Entry>
    requires m.Valid()
  {
    var key := CompositeKey(entry.signerKeyID, entry.category);
    if Eligible(entry, trusted)
       && (key !in m.vals || LexLess(m.vals[key].serverTimestamp, entry.serverTimestamp))
    then m.Set(key, entry) else m
  }

  lemma AbsorbKeepsLatest(m: JsMap<string, Entry>, entries: seq<Entry>, n: nat, trusted: seq<string>)
    requires n < |entries| && LatestByKey(m, entries[..n], trusted)
    ensures LatestByKey(Absorb(m, entries[n], trusted), entries[..n + 1], trusted)
  {
    var t := Absorb(m, entries[n], trusted);
    forall key
      ensures Kept(entries[..n + 1], KeyIs(trusted, key)) == if key in t.vals then Some(t.vals[key]) else None
    {
      KeptStep(entries, n, KeyIs(trusted, key));
    }
  }

  lemma AbsorbKeepsOrder(m: JsMap<string, Entry>, entries: seq<Entry>, n: nat, trusted: seq<string>)
    requires n < |entries| && LatestByKey(m, entries[..n], trusted) && KeysByFirst(m.keys, entries[..n], trusted)
    ensures KeysByFirst(Absorb(m, entries[n], trusted).keys, entries[..n + 1], trusted)
  {
    var t := Absorb(m, entries[n], trusted);
    forall i | 0 <= i < |t.keys|
      ensures var f := First(entries[..n + 1], KeyIs(trusted, t.keys[i]));
              if i < |m.keys| then f == First(entries[..n], KeyIs(trusted, m.keys[i])) < n else f == n
    {
      KeyFirst(m, entries, n, trusted, t.keys[i]);
      assert i < |m.keys| ==> m.keys[i] in m.keys;
    }
  }

  lemma KeyFirst(m: JsMap<string, Entry>, entries: seq<Entry>, n: nat, trusted: seq<string>, key: string)
    requires n < |entries| && LatestByKey(m, entries[..n], trusted)
    ensures key in m.vals ==>
      First(entries[..n + 1], KeyIs(trusted, key)) == First(entries[..n], KeyIs(trusted, key)) < n
    ensures key !in m.vals && KeyIs(trusted, key)(entries[n]) ==> First(entries[..n + 1], KeyIs(trusted, key)) == n
  {
    KeptIffFirst(entries[..n], KeyIs(trusted, key));
    FirstStep(entries, n, KeyIs(trusted, key));
    assert Kept(entries[..n], KeyIs(trusted, key)) == if key in m.vals then Some(m.vals[key]) else None;
  }

  method SelectLatest(entries: seq<Entry>, trusted: seq<string>) returns (bySignerCategory: JsMap<string, Entry>)
    ensures LatestByKey(bySignerCategory, entries, trusted)
    ensures KeysByFirst(bySignerCategory.keys, entries, trusted)
  {
    bySignerCategory := Empty();
    for n := 0 to |entries|
      invariant LatestByKey(bySignerCategory, entries[..n], trusted)
      invariant KeysByFirst(bySignerCategory.keys, entries[..n], trusted)
    {
      var entry := entries[n];
      AbsorbKeepsLatest(bySignerCategory, entries, n, trusted);
      AbsorbKeepsOrder(bySignerCategory, entries, n, trusted);
      if entry.category == "" {
        continue;
      }
      if entry.signerKeyID !in trusted {
        continue;
      }
      var key := CompositeKey(entry.signerKeyID, entry.category);
      if !bySignerCategory.Has(key)
         || LexLess(bySignerCategory.vals[key].serverTimestamp, entry.serverTimestamp)
      {
        bySignerCategory := bySignerCategory.Set(key, entry);
      }
    }
    assert entries[..|entries|] == entries;
  }

  // Composite keys of two different signers can meet exactly when one signer's id continues the
  // other's across a colon.
  lemma KeysCollideIff(f: string, g: string)
    requires f != g
    ensures (exists c, d :: c != "" && d != "" && CompositeKey(f, c) == CompositeKey(g, d))
       <==> f + ":" <= g || g + ":" <= f
  {
    if c, d :| c != "" && d != "" && CompositeKey(f, c) == CompositeKey(g, d) {
      var k := CompositeKey(f, c);
      assert f == k[..|f|] && g == k[..|g|] && k[|f|] == ':' && k[|g|] == ':';
      if |f| < |g| {
        assert f + ":" == k[..|f| + 1] == g[..|f| + 1];
      } else {
        assert g + ":" == k[..|g| + 1] == f[..|g| + 1];
      }
    }
    if f + ":" <= g {
      KeysMeet(f, g);
    } else if g + ":" <= f {
      KeysMeet(g, f);
    }
  }

  lemma KeysMeet(f: string, g: string)
    requires f + ":" <= g
    ensures CompositeKey(f, g[|f| + 1..] + ":" + "x") == CompositeKey(g, "x")
  {
    assert g == f + ":" + g[|f| + 1..];
  }

  // Colon-free signers: the composite key determines signer and category.
  lemma CompositeKeyInjective(f: string, c: string, g: string, d: string)
    requires ':' !in f && ':' !in g
    requires CompositeKey(f, c) == CompositeKey(g, d)
    ensures f == g && c == d
  {
    var k := CompositeKey(f, c);
    assert f == k[..|f|] && g == k[..|g|] && k[|f|] == ':' && k[|g|] == ':';
    assert forall i :: 0 <= i < |f| ==> f[i] in f && k[i] == f[i];
    assert forall i :: 0 <= i < |g| ==> g[i] in g && k[i] == g[i];
    assert |f| == |g|;
    assert c == k[|f| + 1..] && d == k[|g| + 1..];
  }

  // So the map holds, for each trusted signer and category, exactly the signer's latest claim there.
  lemma SelectedClaims(m: JsMap<string, Entry>, entries: seq<Entry>, trusted: seq<string>, s: string, c: string)
    requires LatestByKey(m, entries, trusted)
    requires forall f :: f in trusted ==> ':' !in f
    requires s in trusted && c != ""
    ensures var key := CompositeKey(s, c);
            Kept(entries, ClaimOf(s, c)) == if key in m.vals then Some(m.vals[key]) else None
  {
    SameFilter(trusted, s, c);
    LatestDependsOnPredicate(entries, ClaimOf(s, c), KeyIs(trusted, CompositeKey(s, c)));
  }

  // For a trusted signer, asking for the key is asking for the signer's claims in the category.
  lemma SameFilter(trusted: seq<string>, s: string, c: string)
    requires forall f :: f in trusted ==> ':' !in f
    requires s in trusted && c != ""
    ensures forall e: Entry :: ClaimOf(s, c)(e) == KeyIs(trusted, CompositeKey(s, c))(e)
  {
    forall e: Entry ensures ClaimOf(s, c)(e) == KeyIs(trusted, CompositeKey(s, c))(e) {
      if KeyIs(trusted, CompositeKey(s, c))(e) {
        CompositeKeyInjective(e.signerKeyID, e.category, s, c);
      }
    }
  }

  lemma SelectedAreEligible(m: JsMap<string, Entry>, entries: seq<Entry>, trusted: seq<string>, key: string)
    requires LatestByKey(m, entries, trusted) && key in m.vals
    ensures KeyIs(trusted, key)(m.vals[key])
  {
    assert Kept(entries, KeyIs(trusted, key)) == Some(m.vals[key]);
  }

  // ---------- Verification requests and results ----------

  function Btoa(encode: seq<int> -> string, text: string): Option<string>
  {
    var bytes := CanonicalPayload.Latin1(text);
    if bytes.Some? then Some(encode(bytes.value)) else None
  }

  function ServerRequest(encode: seq<int> -> string, e: Entry, serverFingerprint: string): Option<VerifyEntry>
  {
    CanonicalPayload.ServerObjectText(e);
    var payload := Btoa(encode, CanonicalPayload.CanonicalJSON(CanonicalPayload.ServerObject(e)));
    if payload.None? then None
    else Some(VerifyEntry(e.serverSignature, payload.value, serverFingerprint, e.serverTimestamp))
  }

  function SignerRequest(encode: seq<int> -> string, e: Entry): Option<VerifyEntry>
  {
    CanonicalPayload.SignerObjectText(e.artifactHash, e.category, e.signerKeyID, e.verdict);
    var payload := Btoa(encode, CanonicalPayload.CanonicalJSON(
      CanonicalPayload.SignerObject(e.artifactHash, e.category, e.signerKeyID, e.verdict)));
    if payload.None? then None
    else Some(VerifyEntry(e.signature, payload.value, e.signerKeyID, e.serverTimestamp))
  }

  // The two requests made for entry i are the i-th pair.
  ghost predicate RequestPairs(requests: seq<VerifyEntry>, chosen: seq<Entry>,
                               server: Entry -> Option<VerifyEntry>, signer: Entry -> Option<VerifyEntry>)
  {
    |requests| == 2 * |chosen| && forall i :: 0 <= i < |chosen| ==>
      server(chosen[i]) == Some(requests[2 * i]) && signer(chosen[i]) == Some(requests[2 * i + 1])
  }

  // Two requests per entry, server signature first; an unencodable payload throws.
  method BuildRequests(chosen: seq<Entry>, server: Entry -> Option<VerifyEntry>, signer: Entry -> Option<VerifyEntry>)
    returns (r: Option<seq<VerifyEntry>>)
    ensures r.Some? <==> forall e :: e in chosen ==> server(e).Some? && signer(e).Some?
    ensures r.Some? ==> RequestPairs(r.value, chosen, server, signer)
  {
    var verifyEntries: seq<VerifyEntry> := [];
    for n := 0 to |chosen|
      invariant forall i :: 0 <= i < n ==> server(chosen[i]).Some? && signer(chosen[i]).Some?
      invariant RequestPairs(verifyEntries, chosen[..n], server, signer)
    {
      var entry := chosen[n];
      if server(entry).None? {
        return None;
      }
      verifyEntries := verifyEntries + [server(entry).value];
      if signer(entry).None? {
        return None;
      }
      verifyEntries := verifyEntries + [signer(entry).value];
    }
    assert chosen[..|chosen|] == chosen;
    r := Some(verifyEntries);
  }

  function Filter<T>(s: seq<T>, p: T -> bool): (r: seq<T>)
    ensures forall x :: x in r ==> x in s && p(x)
    ensures forall x :: x in s && p(x) ==> x in r
  {
    if s == [] then []
    else
      var n := |s| - 1;
      Filter(s[..n], p) + if p(s[n]) then [s[n]] else []
  }

  predicate ValidResult(results: seq<VerifyResultMsg>, j: nat)
  {
    j < |results| && results[j].valid
  }

  // Entry i survives exactly when results 2i and 2i+1 are both valid; the others keep their order.
  method PairResults(chosen: seq<Entry>, results: seq<VerifyResultMsg>, ghost ok: Entry -> bool)
    returns (verified: seq<Entry>)
    requires forall i :: 0 <= i < |chosen| ==>
      (ok(chosen[i]) <==> ValidResult(results, 2 * i) && ValidResult(results, 2 * i + 1))
    ensures verified == Filter(chosen, ok)
  {
    verified := [];
    for i := 0 to |chosen|
      invariant verified == Filter(chosen[..i], ok)
    {
      assert chosen[..i + 1][..i] == chosen[..i];
      assert ok(chosen[i]) <==> ValidResult(results, 2 * i) && ValidResult(results, 2 * i + 1);
      if ValidResult(results, i * 2) && ValidResult(results, i * 2 + 1) {
        verified := verified + [chosen[i]];
      }
    }
    assert chosen[..|chosen|] == chosen;
  }

  // ---------- The vote ----------

  function CountOf(votes: seq<Entry>, verdict: string): nat
  {
    if votes == [] then 0
    else CountOf(votes[..|votes| - 1], verdict) + if votes[|votes| - 1].verdict == verdict then 1 else 0
  }

  // The verdicts cast, in the order in which each was first cast.
  function Cast(votes: seq<Entry>): (r: seq<string>)
    ensures forall i, j :: 0 <= i < j < |r| ==> r[i] != r[j]
  {
    if votes == [] then []
    else
      var before, v := Cast(votes[..|votes| - 1]), votes[|votes| - 1].verdict;
      if v in before then before else before + [v]
  }

  lemma {:induction false} CastIffCounted(votes: seq<Entry>, verdict: string)
    ensures verdict in Cast(votes) <==> CountOf(votes, verdict) > 0
  {
    if votes != [] {
      CastIffCounted(votes[..|votes| - 1], verdict);
    }
  }

  // A verdict cast before another has a vote before every vote for the other.
  lemma {:induction false} CastOrder(votes: seq<Entry>, i: nat, j: nat) returns (k: nat)
    requires i < j < |Cast(votes)|
    ensures k < |votes| && votes[k].verdict == Cast(votes)[i]
    ensures forall m :: 0 <= m < |votes| && votes[m].verdict == Cast(votes)[j] ==> k < m
  {
    var n := |votes| - 1;
    var init := votes[..n];
    if j < |Cast(init)| {
      k := CastOrder(init, i, j);
      assert forall m :: 0 <= m < n ==> init[m] == votes[m];
    } else {
      k := FirstVote(init, Cast(init)[i]);
      forall m | 0 <= m < |votes| && votes[m].verdict == Cast(votes)[j] ensures k < m {
        if m < n {
          VoteIsCast(init, m);
        }
      }
    }
  }

  lemma {:induction false} FirstVote(votes: seq<Entry>, verdict: string) returns (k: nat)
    requires verdict in Cast(votes)
    ensures k < |votes| && votes[k].verdict == verdict
  {
    var n := |votes| - 1;
    if verdict in Cast(votes[..n]) {
      k := FirstVote(votes[..n], verdict);
    } else {
      k := n;
    }
  }

  lemma {:induction false} VoteIsCast(votes: seq<Entry>, m: nat)
    requires m < |votes|
    ensures votes[m].verdict in Cast(votes)
  {
    if m < |votes| - 1 {
      VoteIsCast(votes[..|votes| - 1], m);
    }
  }

  function SumCounts(verdicts: seq<string>, votes: seq<Entry>): nat
  {
    if verdicts == [] then 0
    else SumCounts(verdicts[..|verdicts| - 1], votes) + CountOf(votes, verdicts[|verdicts| - 1])
  }

  lemma {:induction false} SumCountsStep(verdicts: seq<string>, votes: seq<Entry>, e: Entry)
    requires forall i, j :: 0 <= i < j < |verdicts| ==> verdicts[i] != verdicts[j]
    ensures SumCounts(verdicts, votes + [e]) == SumCounts(verdicts, votes) + if e.verdict in verdicts then 1 else 0
  {
    if verdicts != [] {
      var n := |verdicts| - 1;
      assert (votes + [e])[..|votes|] == votes;
      SumCountsStep(verdicts[..n], votes, e);
      assert verdicts == verdicts[..n] + [verdicts[n]];
    }
  }

  // Every vote is counted once.
  lemma {:induction false} CountsSumToVotes(votes: seq<Entry>)
    ensures SumCounts(Cast(votes), votes) == |votes|
  {
    if votes != [] {
      var n := |votes| - 1;
      var init, e := votes[..n], votes[n];
      assert votes == init + [e];
      CountsSumToVotes(init);
      SumCountsStep(Cast(init), init, e);
      if e.verdict !in Cast(init) {
        CastIffCounted(init, e.verdict);
        assert Cast(votes)[..|Cast(init)|] == Cast(init);
      }
    }
  }

  ghost predicate CountsMatch(counts: JsMap<string, nat>, votes: seq<Entry>)
  {
    && counts.Valid()
    && counts.keys == Cast(votes)
    && forall v :: v in counts.vals ==> counts.vals[v] == CountOf(votes, v)
  }

  method CountVerdicts(votes: seq<Entry>) returns (verdictCounts: JsMap<string, nat>)
    ensures CountsMatch(verdictCounts, votes)
  {
    verdictCounts := Empty();
    for n := 0 to |votes|
      invariant CountsMatch(verdictCounts, votes[..n])
    {
      var v := votes[n].verdict;
      assert votes[..n + 1][..n] == votes[..n];
      CastIffCounted(votes[..n], v);
      verdictCounts := verdictCounts.Set(v, (if verdictCounts.Has(v) then verdictCounts.vals[v] else 0) + 1);
    }
    assert votes[..|votes|] == votes;
  }

  // A verdict with the most votes; among those the one cast first.
  ghost predicate Wins(votes: seq<Entry>, winner: string)
  {
    && CountOf(votes, winner) > 0
    && (forall v :: CountOf(votes, v) <= CountOf(votes, winner))
    && forall i, j :: 0 <= i < j < |Cast(votes)| && Cast(votes)[j] == winner ==>
         CountOf(votes, Cast(votes)[i]) < CountOf(votes, winner)
  }

  method TopVerdict(ghost votes: seq<Entry>, verdictCounts: JsMap<string, nat>) returns (topVerdict: Option<string>)
    requires CountsMatch(verdictCounts, votes) && votes != []
    ensures topVerdict.Some? && Wins(votes, topVerdict.value)
  {
    topVerdict := None;
    var topCount := 0;
    var keys := verdictCounts.keys;
    ghost var top := 0;
    for i := 0 to |keys|
      invariant topVerdict.None? ==> topCount == 0
      invariant topVerdict.Some? ==> 0 <= top < i && topVerdict.value == keys[top]
      invariant topVerdict.Some? ==> topCount == CountOf(votes, keys[top]) > 0
      invariant forall j :: 0 <= j < i ==> CountOf(votes, keys[j]) <= topCount
      invariant topVerdict.Some? ==> forall j :: 0 <= j < top ==> CountOf(votes, keys[j]) < topCount
    {
      var v := keys[i];
      var c := verdictCounts.vals[v];
      if c > topCount {
        topVerdict, topCount := Some(v), c;
        top := i;
      }
    }
    CastIffCounted(votes, votes[|votes| - 1].verdict);
    assert keys[|keys| - 1] in keys;
    CastIffCounted(votes, keys[|keys| - 1]);
    forall v ensures CountOf(votes, v) <= topCount {
      CastIffCounted(votes, v);
    }
  }

  // ---------- The whole lookup ----------

  datatype CategoryResult = CategoryResult(verdict: string, signers: nat, icon: Option<string>)

  const VERDICT_ICONS: map<string, string> := map[
    "authorship:my-work" := "authorship-my-work",
    "method:ai-generated" := "method-ai-generated",
    "authenticity:authentic" := "authenticity-authentic",
    "authenticity:satire" := "authenticity-satire",
    "authenticity:misleading" := "authenticity-misleading"]

  function IconFor(category: string, verdict: string): Option<string>
  {
    var k := category + ":" + verdict;
    if k in VERDICT_ICONS then Some(VERDICT_ICONS[k]) else None
  }

  // An icon is named after its category and verdict, joined by a dash.
  predicate IsNamed(key: string, icon: string)
  {
    |icon| == |key| && forall i :: 0 <= i < |key| ==> icon[i] == if key[i] == ':' then '-' else key[i]
  }

  lemma IconNames()
    ensures IsNamed("authorship:my-work", "authorship-my-work")
    ensures IsNamed("method:ai-generated", "method-ai-generated")
    ensures IsNamed("authenticity:authentic", "authenticity-authentic")
    ensures IsNamed("authenticity:satire", "authenticity-satire")
    ensures IsNamed("authenticity:misleading", "authenticity-misleading")
  {
  }

  lemma IconsAreNamed(category: string, verdict: string)
    ensures var icon := IconFor(category, verdict);
            icon.Some? ==> IsNamed(category + ":" + verdict, icon.value)
  {
    IconNames();
  }

  // getTrustedFingerprints keeps ownertrust full and ultimate; the user's own keys are the ultimate ones.
  function FingerprintsWithTrust(keys: seq<KeyList.KeyInfo>, levels: seq<string>): seq<string>
  {
    if keys == [] then []
    else (if keys[0].trust in levels then [keys[0].fingerprint] else []) + FingerprintsWithTrust(keys[1..], levels)
  }

  lemma {:induction false} TrustedHaveNoColon(keys: seq<KeyList.KeyInfo>, levels: seq<string>)
    requires forall k :: k in keys ==> ':' !in k.fingerprint
    ensures forall f :: f in FingerprintsWithTrust(keys, levels) ==> ':' !in f
  {
    if keys != [] {
      assert keys[0] in keys;
      TrustedHaveNoColon(keys[1..], levels);
    }
  }

  // Some listed key has the fingerprint and one of the trust levels.
  predicate HasTrust(keys: seq<KeyList.KeyInfo>, fingerprint: string, levels: seq<string>)
  {
    exists k :: k in keys && k.fingerprint == fingerprint && k.trust in levels
  }

  lemma {:induction false} TrustedAreListed(keys: seq<KeyList.KeyInfo>, levels: seq<string>, f: string)
    ensures f in FingerprintsWithTrust(keys, levels) <==> HasTrust(keys, f, levels)
  {
    if keys != [] {
      var rest := keys[1..];
      TrustedAreListed(rest, levels, f);
      assert forall k :: k in keys <==> k == keys[0] || k in rest;
    }
  }

  // Trusted signers are the listed keys of full or ultimate trust.
  lemma TrustedIff(w: World, f: string)
    ensures f in w.Trusted() <==> HasTrust(KeyList.Keys(w.trustListing), f, ["f", "u"])
  {
    TrustedAreListed(KeyList.Keys(w.trustListing), ["f", "u"], f);
  }

  // Verifiers are the user's own keys, those of ultimate trust.
  lemma VerifierIff(w: World, f: string)
    ensures f in w.Verifiers() <==> HasTrust(KeyList.Keys(w.ownListing), f, ["u"])
  {
    TrustedAreListed(KeyList.Keys(w.ownListing), ["u"], f);
  }

  // Everything a lookup reads: the image's log entries, the two key listings, the imported server key.
  datatype World = World(
    entries: Option<seq<Entry>>, trustListing: seq<string>, ownListing: seq<string>,
    serverKey: Option<string>, encode: seq<int> -> string, gpg: Gpg)
  {
    function Trusted(): seq<string> { FingerprintsWithTrust(KeyList.Keys(trustListing), ["f", "u"]) }
    function Verifiers(): seq<string> { FingerprintsWithTrust(KeyList.Keys(ownListing), ["u"]) }

    function ServerRequests(): Entry -> Option<VerifyEntry>
    {
      (e: Entry) => if serverKey.Some? then ServerRequest(encode, e, serverKey.value) else None
    }

    function SignerRequests(): Entry -> Option<VerifyEntry> { (e: Entry) => SignerRequest(encode, e) }

    ghost function Checks(): Entry -> bool
    {
      BothValid(gpg, Verifiers(), ServerRequests(), SignerRequests())
    }
  }

  // Both signatures of the entry check out.
  ghost function BothValid(gpg: Gpg, verifiers: seq<string>, server: Entry -> Option<VerifyEntry>,
                           signer: Entry -> Option<VerifyEntry>): Entry -> bool
  {
    (e: Entry) => server(e).Some? && signer(e).Some?
                  && IsValid(gpg, server(e).value, verifiers) && IsValid(gpg, signer(e).value, verifiers)
  }

  // The claim that counts for a signer, if it verifies. An older claim never stands in for it.
  ghost predicate Votes(entries: seq<Entry>, ok: Entry -> bool, signer: string, category: string)
  {
    var kept := Kept(entries, ClaimOf(signer, category));
    kept.Some? && ok(kept.value) && kept.value.verdict != REVOKE
  }

  ghost function Voters(entries: seq<Entry>, trusted: seq<string>, ok: Entry -> bool, category: string): set<string>
  {
    set s | s in trusted && Votes(entries, ok, s, category)
  }

  ghost function Supporters(entries: seq<Entry>, trusted: seq<string>, ok: Entry -> bool, category: string,
                            verdict: string): set<string>
  {
    set s | s in trusted && Votes(entries, ok, s, category)
            && Kept(entries, ClaimOf(s, category)).value.verdict == verdict
  }

  function IsVote(category: string): Entry -> bool
  {
    (e: Entry) => e.category == category && e.verdict != REVOKE
  }

  function Values(m: JsMap<string, Entry>): (r: seq<Entry>)
    requires m.Valid()
    ensures |r| == |m.keys| && forall i :: 0 <= i < |r| ==> r[i] == m.vals[m.keys[i]]
  {
    seq(|m.keys|, i requires 0 <= i < |m.keys| => assert m.keys[i] in m.vals; m.vals[m.keys[i]])
  }

  // The i-th pair of a batch's results is about the i-th chosen entry.
  lemma PairsAreAboutEntries(gpg: Gpg, verifiers: seq<string>, chosen: seq<Entry>, requests: seq<VerifyEntry>,
                             server: Entry -> Option<VerifyEntry>, signer: Entry -> Option<VerifyEntry>, i: nat)
    requires RequestPairs(requests, chosen, server, signer) && i < |chosen|
    ensures var results := Results(gpg, requests, verifiers);
            BothValid(gpg, verifiers, server, signer)(chosen[i])
            <==> ValidResult(results, 2 * i) && ValidResult(results, 2 * i + 1)
  {
    ResultTellsValidity(gpg, verifiers, requests, 2 * i);
    ResultTellsValidity(gpg, verifiers, requests, 2 * i + 1);
  }

  lemma ResultTellsValidity(gpg: Gpg, verifiers: seq<string>, requests: seq<VerifyEntry>, j: nat)
    requires j < |requests|
    ensures ValidResult(Results(gpg, requests, verifiers), j) <==> IsValid(gpg, requests[j], verifiers)
  {
    ValidityIgnoresIndex(gpg, j, requests[j], verifiers);
  }

  lemma ValidityIgnoresIndex(gpg: Gpg, i: nat, entry: VerifyEntry, verifiers: seq<string>)
    ensures ResultFor(gpg, i, entry, verifiers).valid == IsValid(gpg, entry, verifiers)
  {
  }

  // Verify all chosen entries in one batch. None is an exception.
  method VerifyChosen(gpg: Gpg, verifiers: seq<string>, chosen: seq<Entry>,
                      server: Entry -> Option<VerifyEntry>, signer: Entry -> Option<VerifyEntry>)
    returns (verified: Option<seq<Entry>>)
    requires chosen != []
    ensures verified.Some? <==> forall e :: e in chosen ==> server(e).Some? && signer(e).Some?
    ensures verified.Some? ==> verified.value == Filter(chosen, BothValid(gpg, verifiers, server, signer))
  {
    var requests := BuildRequests(chosen, server, signer);
    if requests.None? {
      return None;
    }
    var resp := HandleVerify(gpg, "", requests.value, verifiers);
    forall i | 0 <= i < |chosen|
      ensures BothValid(gpg, verifiers, server, signer)(chosen[i])
         <==> ValidResult(resp.results, 2 * i) && ValidResult(resp.results, 2 * i + 1)
    {
      PairsAreAboutEntries(gpg, verifiers, chosen, requests.value, server, signer, i);
    }
    var survivors := PairResults(chosen, resp.results, BothValid(gpg, verifiers, server, signer));
    verified := Some(survivors);
  }

  ghost predicate IsResult(r: CategoryResult, votes: seq<Entry>, category: string)
  {
    Wins(votes, r.verdict) && r.signers == |votes| && r.icon == IconFor(category, r.verdict)
  }

  // One vote per category over the verified entries.
  ghost predicate IsTally(categories: map<string, CategoryResult>, verified: seq<Entry>, order: seq<string>)
  {
    && categories.Keys == (set c | c in order && Filter(verified, IsVote(c)) != [])
    && forall c :: c in categories ==> IsResult(categories[c], Filter(verified, IsVote(c)), c)
  }

  lemma TallyStep(categories: map<string, CategoryResult>, verified: seq<Entry>, order: seq<string>, k: nat,
                  r: CategoryResult)
    requires k < |order| && IsTally(categories, verified, order[..k])
    ensures Filter(verified, IsVote(order[k])) == [] ==> IsTally(categories, verified, order[..k + 1])
    ensures Filter(verified, IsVote(order[k])) != [] && IsResult(r, Filter(verified, IsVote(order[k])), order[k]) ==>
      IsTally(categories[order[k] := r], verified, order[..k + 1])
  {
    assert order[..k + 1] == order[..k] + [order[k]];
  }

  method Tally(verified: seq<Entry>) returns (categories: map<string, CategoryResult>)
    ensures IsTally(categories, verified, CATEGORIES)
  {
    categories := map[];
    for k := 0 to |CATEGORIES|
      invariant IsTally(categories, verified, CATEGORIES[..k])
    {
      var cat := CATEGORIES[k];
      var catEntries := Filter(verified, IsVote(cat));
      if |catEntries| == 0 {
        TallyStep(categories, verified, CATEGORIES, k, CategoryResult("", 0, None));
        continue;
      }
      var verdictCounts := CountVerdicts(catEntries);
      var topVerdict := TopVerdict(catEntries, verdictCounts);
      var result := CategoryResult(topVerdict.value, |catEntries|, IconFor(cat, topVerdict.value));
      TallyStep(categories, verified, CATEGORIES, k, result);
      categories := categories[cat := result];
    }
    assert CATEGORIES[..|CATEGORIES|] == CATEGORIES;
  }

  // ---------- What the vote counts ----------

  // Kept for each trusted signer and category.
  ghost predicate IsClaim(e: Entry, entries: seq<Entry>, trusted: seq<string>)
  {
    Eligible(e, trusted) && Kept(entries, ClaimOf(e.signerKeyID, e.category)) == Some(e)
  }

  lemma ChosenAreClaims(m: JsMap<string, Entry>, entries: seq<Entry>, trusted: seq<string>)
    requires LatestByKey(m, entries, trusted)
    requires forall f :: f in trusted ==> ':' !in f
    ensures forall e :: e in Values(m) <==> IsClaim(e, entries, trusted)
    ensures forall i :: 0 <= i < |m.keys| ==>
      CompositeKey(Values(m)[i].signerKeyID, Values(m)[i].category) == m.keys[i]
  {
    forall i | 0 <= i < |m.keys|
      ensures CompositeKey(Values(m)[i].signerKeyID, Values(m)[i].category) == m.keys[i]
      ensures IsClaim(Values(m)[i], entries, trusted)
    {
      var key, e := m.keys[i], Values(m)[i];
      assert key in m.vals;
      SelectedAreEligible(m, entries, trusted, key);
      SelectedClaims(m, entries, trusted, e.signerKeyID, e.category);
    }
    forall e | IsClaim(e, entries, trusted) ensures e in Values(m) {
      SelectedClaims(m, entries, trusted, e.signerKeyID, e.category);
      var key := CompositeKey(e.signerKeyID, e.category);
      assert key in m.keys;
      var i :| 0 <= i < |m.keys| && m.keys[i] == key;
      assert Values(m)[i] == e;
    }
  }

  ghost predicate DistinctKeys(s: seq<Entry>)
  {
    forall i, j :: 0 <= i < j < |s| ==>
      CompositeKey(s[i].signerKeyID, s[i].category) != CompositeKey(s[j].signerKeyID, s[j].category)
  }

  lemma {:induction false} FilterKeepsDistinct(s: seq<Entry>, p: Entry -> bool)
    requires DistinctKeys(s)
    ensures DistinctKeys(Filter(s, p))
  {
    if s != [] {
      var n := |s| - 1;
      var init := Filter(s[..n], p);
      FilterKeepsDistinct(s[..n], p);
      forall i | 0 <= i < |init|
        ensures CompositeKey(init[i].signerKeyID, init[i].category) != CompositeKey(s[n].signerKeyID, s[n].category)
      {
        assert init[i] in s[..n];
        var k :| 0 <= k < n && s[k] == init[i];
      }
    }
  }

  // Where in the log's list a signer first claims a category.
  function FirstClaim(entries: seq<Entry>, s: string, c: string): nat { First(entries, ClaimOf(s, c)) }

  function ClaimPosition(entries: seq<Entry>): Entry -> nat
  {
    (e: Entry) => FirstClaim(entries, e.signerKeyID, e.category)
  }

  ghost predicate Increasing(s: seq<Entry>, position: Entry -> nat)
  {
    forall i, j :: 0 <= i < j < |s| ==> position(s[i]) < position(s[j])
  }

  ghost predicate ByFirstClaim(s: seq<Entry>, entries: seq<Entry>) { Increasing(s, ClaimPosition(entries)) }

  lemma {:induction false} FilterKeepsOrder(s: seq<Entry>, p: Entry -> bool, position: Entry -> nat)
    requires Increasing(s, position)
    ensures Increasing(Filter(s, p), position)
  {
    if s != [] {
      var n := |s| - 1;
      var init := Filter(s[..n], p);
      FilterKeepsOrder(s[..n], p, position);
      forall i | 0 <= i < |init| ensures position(init[i]) < position(s[n]) {
        assert init[i] in s[..n];
        var k :| 0 <= k < n && s[k] == init[i];
      }
    }
  }

  // What the selection hands on: every trusted claim once, in the order of first claims.
  ghost predicate IsSelection(chosen: seq<Entry>, entries: seq<Entry>, trusted: seq<string>)
  {
    DistinctKeys(chosen) && AllClaims(chosen, entries, trusted) && ByFirstClaim(chosen, entries)
  }

  lemma SelectionOf(m: JsMap<string, Entry>, entries: seq<Entry>, trusted: seq<string>)
    requires LatestByKey(m, entries, trusted) && KeysByFirst(m.keys, entries, trusted)
    requires forall f :: f in trusted ==> ':' !in f
    ensures IsSelection(Values(m), entries, trusted)
  {
    ChosenAreClaims(m, entries, trusted);
    var chosen := Values(m);
    forall i | 0 <= i < |chosen|
      ensures FirstClaim(entries, chosen[i].signerKeyID, chosen[i].category)
           == First(entries, KeyIs(trusted, m.keys[i]))
    {
      var e := chosen[i];
      assert e in chosen && IsClaim(e, entries, trusted);
      SameFilter(trusted, e.signerKeyID, e.category);
      FirstDependsOnPredicate(entries, ClaimOf(e.signerKeyID, e.category), KeyIs(trusted, m.keys[i]));
    }
  }

  // Votes of one category by distinct keys come from distinct signers.
  ghost predicate OneVoteEach(votes: seq<Entry>)
  {
    forall i, j :: 0 <= i < j < |votes| ==> votes[i].signerKeyID != votes[j].signerKeyID
  }

  ghost function Signers(votes: seq<Entry>): set<string>
  {
    set i | 0 <= i < |votes| :: votes[i].signerKeyID
  }

  ghost function SignersFor(votes: seq<Entry>, verdict: string): set<string>
  {
    set i | 0 <= i < |votes| && votes[i].verdict == verdict :: votes[i].signerKeyID
  }

  lemma {:induction false} VotesAreSigners(votes: seq<Entry>)
    requires OneVoteEach(votes)
    ensures |Signers(votes)| == |votes|
  {
    if votes != [] {
      var n := |votes| - 1;
      VotesAreSigners(votes[..n]);
      var s, t := Signers(votes[..n]), {votes[n].signerKeyID};
      assert Signers(votes) == s + t;
      assert s !! t;
    }
  }

  lemma SignersForStep(votes: seq<Entry>, verdict: string)
    requires OneVoteEach(votes) && votes != []
    ensures var e, s := votes[|votes| - 1], SignersFor(votes[..|votes| - 1], verdict);
            e.signerKeyID !in s && SignersFor(votes, verdict) == if e.verdict == verdict then s + {e.signerKeyID} else s
  {
  }

  lemma {:induction false} CountsAreSigners(votes: seq<Entry>, verdict: string)
    requires OneVoteEach(votes)
    ensures |SignersFor(votes, verdict)| == CountOf(votes, verdict)
  {
    if votes != [] {
      var n := |votes| - 1;
      CountsAreSigners(votes[..n], verdict);
      SignersForStep(votes, verdict);
    }
  }

  ghost function VotesIn(chosen: seq<Entry>, ok: Entry -> bool, category: string): seq<Entry>
  {
    Filter(Filter(chosen, ok), IsVote(category))
  }

  lemma OneVoteEachInCategory(chosen: seq<Entry>, ok: Entry -> bool, category: string)
    requires DistinctKeys(chosen)
    ensures OneVoteEach(VotesIn(chosen, ok, category))
  {
    var votes := VotesIn(chosen, ok, category);
    FilterKeepsDistinct(chosen, ok);
    FilterKeepsDistinct(Filter(chosen, ok), IsVote(category));
    forall i | 0 <= i < |votes| ensures votes[i].category == category {
      assert votes[i] in votes;
    }
  }

  ghost predicate AllClaims(chosen: seq<Entry>, entries: seq<Entry>, trusted: seq<string>)
  {
    forall e :: e in chosen <==> IsClaim(e, entries, trusted)
  }

  lemma SupporterIffVoted(entries: seq<Entry>, trusted: seq<string>, chosen: seq<Entry>, ok: Entry -> bool,
                          category: string, verdict: string, s: string)
    requires category != "" && AllClaims(chosen, entries, trusted)
    ensures s in Supporters(entries, trusted, ok, category, verdict)
       <==> s in SignersFor(VotesIn(chosen, ok, category), verdict)
  {
    var votes := VotesIn(chosen, ok, category);
    KeptSatisfies(entries, ClaimOf(s, category));
    if s in Supporters(entries, trusted, ok, category, verdict) {
      var e := Kept(entries, ClaimOf(s, category)).value;
      assert IsClaim(e, entries, trusted);
      assert e in Filter(chosen, ok) && e in votes;
      var i :| 0 <= i < |votes| && votes[i] == e;
    }
    if s in SignersFor(votes, verdict) {
      var i :| 0 <= i < |votes| && votes[i].signerKeyID == s && votes[i].verdict == verdict;
      assert votes[i] in votes && votes[i] in Filter(chosen, ok) && IsClaim(votes[i], entries, trusted);
    }
  }

  lemma VoterIffVoted(entries: seq<Entry>, trusted: seq<string>, chosen: seq<Entry>, ok: Entry -> bool,
                      category: string, s: string)
    requires category != "" && AllClaims(chosen, entries, trusted)
    ensures s in Voters(entries, trusted, ok, category) <==> s in Signers(VotesIn(chosen, ok, category))
  {
    var votes := VotesIn(chosen, ok, category);
    if s in Voters(entries, trusted, ok, category) {
      var v := Kept(entries, ClaimOf(s, category)).value.verdict;
      SupporterIffVoted(entries, trusted, chosen, ok, category, v, s);
    }
    if s in Signers(votes) {
      var i :| 0 <= i < |votes| && votes[i].signerKeyID == s;
      SupporterIffVoted(entries, trusted, chosen, ok, category, votes[i].verdict, s);
    }
  }

  // The voters are the signers of the votes, and likewise for each verdict.
  lemma VotersAreSigners(entries: seq<Entry>, trusted: seq<string>, chosen: seq<Entry>, ok: Entry -> bool,
                         category: string)
    requires category != "" && AllClaims(chosen, entries, trusted)
    ensures Voters(entries, trusted, ok, category) == Signers(VotesIn(chosen, ok, category))
    ensures forall v {:trigger Supporters(entries, trusted, ok, category, v)} ::
      Supporters(entries, trusted, ok, category, v) == SignersFor(VotesIn(chosen, ok, category), v)
  {
    var votes := VotesIn(chosen, ok, category);
    forall s ensures s in Voters(entries, trusted, ok, category) <==> s in Signers(votes) {
      VoterIffVoted(entries, trusted, chosen, ok, category, s);
    }
    forall v ensures Supporters(entries, trusted, ok, category, v) == SignersFor(votes, v) {
      forall s ensures s in Supporters(entries, trusted, ok, category, v) <==> s in SignersFor(votes, v) {
        SupporterIffVoted(entries, trusted, chosen, ok, category, v, s);
      }
    }
  }

  // Counting votes is counting trusted signers.
  lemma VotesAreVoters(entries: seq<Entry>, trusted: seq<string>, chosen: seq<Entry>, ok: Entry -> bool,
                       category: string, verdict: string)
    requires category != "" && DistinctKeys(chosen) && AllClaims(chosen, entries, trusted)
    ensures |Voters(entries, trusted, ok, category)| == |VotesIn(chosen, ok, category)|
    ensures |Supporters(entries, trusted, ok, category, verdict)| == CountOf(VotesIn(chosen, ok, category), verdict)
  {
    var votes := VotesIn(chosen, ok, category);
    OneVoteEachInCategory(chosen, ok, category);
    VotesAreSigners(votes);
    CountsAreSigners(votes, verdict);
    VotersAreSigners(entries, trusted, chosen, ok, category);
  }

  lemma KeptSatisfies(entries: seq<Entry>, p: Entry -> bool)
    ensures Kept(entries, p).Some? ==> p(Kept(entries, p).value)
  {
  }

  // ---------- The lookup end to end ----------

  // Every claim of a trusted signer can be encoded for verification.
  ghost predicate AllEncodable(entries: seq<Entry>, trusted: seq<string>,
                               server: Entry -> Option<VerifyEntry>, signer: Entry -> Option<VerifyEntry>)
  {
    forall e :: IsClaim(e, entries, trusted) ==> server(e).Some? && signer(e).Some?
  }

  // Somebody among the leaders claims the category, in the log's list, before all of the others do.
  ghost predicate SpeaksFirst(entries: seq<Entry>, category: string, leaders: set<string>, others: set<string>)
  {
    exists s :: s in leaders && BeforeAll(entries, category, s, others)
  }

  ghost predicate BeforeAll(entries: seq<Entry>, category: string, s: string, others: set<string>)
  {
    forall t :: t in others ==> FirstClaim(entries, s, category) < FirstClaim(entries, t, category)
  }

  ghost function CampOf(entries: seq<Entry>, trusted: seq<string>, ok: Entry -> bool, category: string)
    : string -> set<string>
  {
    (v: string) => Supporters(entries, trusted, ok, category, v)
  }

  ghost function Together(camp: string -> set<string>, verdicts: seq<string>): set<string>
  {
    if verdicts == [] then {}
    else Together(camp, verdicts[..|verdicts| - 1]) + camp(verdicts[|verdicts| - 1])
  }

  ghost function SumOf(camp: string -> set<string>, verdicts: seq<string>): nat
  {
    if verdicts == [] then 0
    else SumOf(camp, verdicts[..|verdicts| - 1]) + |camp(verdicts[|verdicts| - 1])|
  }

  predicate Distinct(verdicts: seq<string>)
  {
    forall i, j :: 0 <= i < j < |verdicts| ==> verdicts[i] != verdicts[j]
  }

  lemma {:induction false} TogetherHas(camp: string -> set<string>, verdicts: seq<string>, s: string)
    ensures s in Together(camp, verdicts) <==> exists i :: 0 <= i < |verdicts| && s in camp(verdicts[i])
  {
    if verdicts != [] {
      TogetherHas(camp, verdicts[..|verdicts| - 1], s);
    }
  }

  // Disjoint camps add up.
  lemma {:induction false} CampsAddUp(camp: string -> set<string>, verdicts: seq<string>)
    requires Distinct(verdicts) && forall v, w :: v != w ==> camp(v) !! camp(w)
    ensures |Together(camp, verdicts)| == SumOf(camp, verdicts)
  {
    if verdicts != [] {
      var n := |verdicts| - 1;
      var before, last := Together(camp, verdicts[..n]), camp(verdicts[n]);
      CampsAddUp(camp, verdicts[..n]);
      forall s | s in before ensures s !in last {
        TogetherHas(camp, verdicts[..n], s);
      }
      assert before !! last;
    }
  }

  lemma SupportersAddUp(entries: seq<Entry>, trusted: seq<string>, ok: Entry -> bool, category: string,
                        verdicts: seq<string>)
    requires Distinct(verdicts)
    ensures var camp := CampOf(entries, trusted, ok, category);
            |Together(camp, verdicts)| == SumOf(camp, verdicts)
  {
    var camp := CampOf(entries, trusted, ok, category);
    assert forall v, w :: v != w ==> camp(v) !! camp(w);
    CampsAddUp(camp, verdicts);
  }

  // Distinct verdicts that leave no voter out.
  ghost predicate AreAllVerdicts(verdicts: seq<string>, entries: seq<Entry>, trusted: seq<string>,
                                 ok: Entry -> bool, category: string)
  {
    Distinct(verdicts)
    && Together(CampOf(entries, trusted, ok, category), verdicts) == Voters(entries, trusted, ok, category)
  }

  lemma CastAreAll(entries: seq<Entry>, trusted: seq<string>, chosen: seq<Entry>, ok: Entry -> bool, category: string)
    requires category != "" && AllClaims(chosen, entries, trusted)
    ensures AreAllVerdicts(Cast(VotesIn(chosen, ok, category)), entries, trusted, ok, category)
  {
    var votes, camp := VotesIn(chosen, ok, category), CampOf(entries, trusted, ok, category);
    VotersAreSigners(entries, trusted, chosen, ok, category);
    forall s ensures s in Together(camp, Cast(votes)) <==> s in Signers(votes) {
      TogetherHas(camp, Cast(votes), s);
      if s in Signers(votes) {
        var m :| 0 <= m < |votes| && votes[m].signerKeyID == s;
        VoteIsCast(votes, m);
        var i :| 0 <= i < |Cast(votes)| && Cast(votes)[i] == votes[m].verdict;
        assert s in camp(Cast(votes)[i]);
      }
    }
  }

  // The reported category. Its signers are the trusted voters, as many as the verdicts' supporters
  // together; no verdict has more supporters than the reported one, and if another has as many,
  // somebody for the reported one spoke first.
  ghost predicate ReportsVote(r: CategoryResult, entries: seq<Entry>, trusted: seq<string>, ok: Entry -> bool,
                              category: string)
  {
    && r.signers == |Voters(entries, trusted, ok, category)|
    && (exists verdicts :: AreAllVerdicts(verdicts, entries, trusted, ok, category))
    && (forall verdicts :: AreAllVerdicts(verdicts, entries, trusted, ok, category) ==>
          r.signers == SumOf(CampOf(entries, trusted, ok, category), verdicts))
    && |Supporters(entries, trusted, ok, category, r.verdict)| > 0
    && (forall v :: v != r.verdict ==> Beats(entries, trusted, ok, category, r.verdict, v))
    && r.icon == IconFor(category, r.verdict)
  }

  ghost predicate Beats(entries: seq<Entry>, trusted: seq<string>, ok: Entry -> bool, category: string,
                        winner: string, v: string)
  {
    var w, l := Supporters(entries, trusted, ok, category, winner), Supporters(entries, trusted, ok, category, v);
    |l| < |w| || (|l| == |w| && SpeaksFirst(entries, category, w, l))
  }

  lemma SpeaksFirstIsOneWay(entries: seq<Entry>, category: string, a: set<string>, b: set<string>)
    ensures !(SpeaksFirst(entries, category, a, b) && SpeaksFirst(entries, category, b, a))
  {
    forall s, t | s in a && t in b
      ensures !(BeforeAll(entries, category, s, b) && BeforeAll(entries, category, t, a))
    {
    }
  }

  lemma BeatsIsOneWay(entries: seq<Entry>, trusted: seq<string>, ok: Entry -> bool, category: string,
                      v: string, w: string)
    ensures !(Beats(entries, trusted, ok, category, v, w) && Beats(entries, trusted, ok, category, w, v))
  {
    SpeaksFirstIsOneWay(entries, category, Supporters(entries, trusted, ok, category, v),
                        Supporters(entries, trusted, ok, category, w));
  }

  // The log, the trusted keys and the checks leave no choice in what a category reports.
  lemma ReportIsUnique(r: CategoryResult, q: CategoryResult, entries: seq<Entry>, trusted: seq<string>,
                       ok: Entry -> bool, category: string)
    ensures ReportsVote(r, entries, trusted, ok, category) && ReportsVote(q, entries, trusted, ok, category) ==>
      r == q
  {
    BeatsIsOneWay(entries, trusted, ok, category, r.verdict, q.verdict);
  }

  // Of two verdicts with the most votes, the winner is that of the signer who comes first.
  lemma TieGoesToFirst(votes: seq<Entry>, entries: seq<Entry>, winner: string, v: string) returns (k: nat)
    requires Wins(votes, winner) && ByFirstClaim(votes, entries)
    requires v != winner && CountOf(votes, v) == CountOf(votes, winner)
    ensures k < |votes| && votes[k].verdict == winner
    ensures forall m :: 0 <= m < |votes| && votes[m].verdict == v ==>
      FirstClaim(entries, votes[k].signerKeyID, votes[k].category)
      < FirstClaim(entries, votes[m].signerKeyID, votes[m].category)
  {
    CastIffCounted(votes, v);
    CastIffCounted(votes, winner);
    var i :| 0 <= i < |Cast(votes)| && Cast(votes)[i] == winner;
    var j :| 0 <= j < |Cast(votes)| && Cast(votes)[j] == v;
    k := CastOrder(votes, i, j);
  }

  lemma TieSpeaksFirst(votes: seq<Entry>, entries: seq<Entry>, category: string, winner: string, v: string)
    requires Wins(votes, winner) && ByFirstClaim(votes, entries) && forall e :: e in votes ==> e.category == category
    requires v != winner && CountOf(votes, v) == CountOf(votes, winner)
    ensures SpeaksFirst(entries, category, SignersFor(votes, winner), SignersFor(votes, v))
  {
    var k := TieGoesToFirst(votes, entries, winner, v);
    var s := votes[k].signerKeyID;
    assert forall m :: 0 <= m < |votes| ==> votes[m] in votes;
    assert s in SignersFor(votes, winner) && BeforeAll(entries, category, s, SignersFor(votes, v));
  }

  lemma VotesInOrder(chosen: seq<Entry>, ok: Entry -> bool, category: string, entries: seq<Entry>)
    requires ByFirstClaim(chosen, entries)
    ensures ByFirstClaim(VotesIn(chosen, ok, category), entries)
    ensures forall e :: e in VotesIn(chosen, ok, category) ==> e.category == category
  {
    FilterKeepsOrder(chosen, ok, ClaimPosition(entries));
    FilterKeepsOrder(Filter(chosen, ok), IsVote(category), ClaimPosition(entries));
  }

  lemma WinnerBeats(entries: seq<Entry>, trusted: seq<string>, chosen: seq<Entry>, ok: Entry -> bool,
                    category: string, winner: string, v: string)
    requires category != "" && IsSelection(chosen, entries, trusted)
    requires Wins(VotesIn(chosen, ok, category), winner) && v != winner
    ensures Beats(entries, trusted, ok, category, winner, v)
  {
    var votes := VotesIn(chosen, ok, category);
    VotesAreVoters(entries, trusted, chosen, ok, category, winner);
    VotesAreVoters(entries, trusted, chosen, ok, category, v);
    VotersAreSigners(entries, trusted, chosen, ok, category);
    VotesInOrder(chosen, ok, category, entries);
    if CountOf(votes, v) == CountOf(votes, winner) {
      TieSpeaksFirst(votes, entries, category, winner, v);
    }
  }

  lemma TallyReportsVote(r: CategoryResult, entries: seq<Entry>, trusted: seq<string>, chosen: seq<Entry>,
                         ok: Entry -> bool, category: string)
    requires category != "" && IsSelection(chosen, entries, trusted)
    requires IsResult(r, VotesIn(chosen, ok, category), category)
    ensures ReportsVote(r, entries, trusted, ok, category)
  {
    VotesAreVoters(entries, trusted, chosen, ok, category, r.verdict);
    CastAreAll(entries, trusted, chosen, ok, category);
    forall verdicts | AreAllVerdicts(verdicts, entries, trusted, ok, category)
      ensures r.signers == SumOf(CampOf(entries, trusted, ok, category), verdicts)
    {
      SupportersAddUp(entries, trusted, ok, category, verdicts);
    }
    forall v | v != r.verdict ensures Beats(entries, trusted, ok, category, r.verdict, v) {
      WinnerBeats(entries, trusted, chosen, ok, category, r.verdict, v);
    }
  }

  lemma TrustedColonFree(w: World)
    ensures forall f :: f in w.Trusted() ==> ':' !in f
  {
    KeyList.FingerprintsHaveNoColon(w.trustListing);
    TrustedHaveNoColon(KeyList.Keys(w.trustListing), ["f", "u"]);
  }

  ghost function VotersOf(entries: seq<Entry>, trusted: seq<string>, ok: Entry -> bool): string -> set<string>
  {
    (c: string) => Voters(entries, trusted, ok, c)
  }

  ghost function Fits(entries: seq<Entry>, trusted: seq<string>, ok: Entry -> bool)
    : (string, CategoryResult) -> bool
  {
    (c: string, r: CategoryResult) => ReportsVote(r, entries, trusted, ok, c)
  }

  // Exactly the categories with voters, each with a fitting result.
  ghost predicate AnswersWith(categories: map<string, CategoryResult>, voters: string -> set<string>,
                              fits: (string, CategoryResult) -> bool)
  {
    && (forall c :: c in categories <==> c in CATEGORIES && voters(c) != {})
    && (forall c :: c in categories ==> fits(c, categories[c]))
  }

  // A category is reported exactly when some trusted signer's latest claim there verifies and is no
  // revocation.
  ghost predicate Answers(categories: map<string, CategoryResult>, entries: seq<Entry>, trusted: seq<string>,
                          ok: Entry -> bool)
  {
    AnswersWith(categories, VotersOf(entries, trusted, ok), Fits(entries, trusted, ok))
  }

  lemma SameAnswers(a: map<string, CategoryResult>, b: map<string, CategoryResult>,
                    voters: string -> set<string>, fits: (string, CategoryResult) -> bool)
    requires forall c, r, q :: fits(c, r) && fits(c, q) ==> r == q
    ensures AnswersWith(a, voters, fits) && AnswersWith(b, voters, fits) ==> a == b
  {
    if AnswersWith(a, voters, fits) && AnswersWith(b, voters, fits) {
      assert forall c :: c in a <==> c in b;
      assert a.Keys == b.Keys;
    }
  }

  // Nothing is left to choose in the whole answer either.
  lemma AnswersAreUnique(a: map<string, CategoryResult>, b: map<string, CategoryResult>, entries: seq<Entry>,
                         trusted: seq<string>, ok: Entry -> bool)
    ensures Answers(a, entries, trusted, ok) && Answers(b, entries, trusted, ok) ==> a == b
  {
    forall c, r, q ensures Fits(entries, trusted, ok)(c, r) && Fits(entries, trusted, ok)(c, q) ==> r == q {
      ReportIsUnique(r, q, entries, trusted, ok, c);
    }
    SameAnswers(a, b, VotersOf(entries, trusted, ok), Fits(entries, trusted, ok));
  }

  lemma CategoryAnswered(categories: map<string, CategoryResult>, entries: seq<Entry>, trusted: seq<string>,
                         chosen: seq<Entry>, ok: Entry -> bool, c: string)
    requires IsSelection(chosen, entries, trusted) && IsTally(categories, Filter(chosen, ok), CATEGORIES)
    requires c in CATEGORIES
    ensures c in categories <==> Voters(entries, trusted, ok, c) != {}
    ensures c in categories ==> ReportsVote(categories[c], entries, trusted, ok, c)
  {
    VotesAreVoters(entries, trusted, chosen, ok, c, "");
    assert c in categories.Keys <==> VotesIn(chosen, ok, c) != [];
    if c in categories {
      TallyReportsVote(categories[c], entries, trusted, chosen, ok, c);
    }
  }

  lemma TallyAnswers(categories: map<string, CategoryResult>, entries: seq<Entry>, trusted: seq<string>,
                     chosen: seq<Entry>, ok: Entry -> bool)
    requires IsSelection(chosen, entries, trusted)
    requires IsTally(categories, Filter(chosen, ok), CATEGORIES)
    ensures Answers(categories, entries, trusted, ok)
  {
    forall c | c in CATEGORIES
      ensures c in categories <==> Voters(entries, trusted, ok, c) != {}
      ensures c in categories ==> ReportsVote(categories[c], entries, trusted, ok, c)
    {
      CategoryAnswered(categories, entries, trusted, chosen, ok, c);
    }
    assert forall c :: c in categories ==> c in categories.Keys;
  }

  // With nothing verified there is nothing to tally.
  lemma NothingAnswers(entries: seq<Entry>, trusted: seq<string>, chosen: seq<Entry>, ok: Entry -> bool)
    requires IsSelection(chosen, entries, trusted) && Filter(chosen, ok) == []
    ensures Answers(map[], entries, trusted, ok)
  {
    assert forall c :: Filter([], IsVote(c)) == [];
    TallyAnswers(map[], entries, trusted, chosen, ok);
  }

  lemma EncodableByClaims(chosen: seq<Entry>, entries: seq<Entry>, trusted: seq<string>,
                          server: Entry -> Option<VerifyEntry>, signer: Entry -> Option<VerifyEntry>)
    requires IsSelection(chosen, entries, trusted)
    ensures AllEncodable(entries, trusted, server, signer)
       <==> forall e :: e in chosen ==> server(e).Some? && signer(e).Some?
  {
  }

  // Verification and vote over what was selected; None is an exception.
  method DecideChosen(gpg: Gpg, chosen: seq<Entry>, verifiers: seq<string>,
                      server: Entry -> Option<VerifyEntry>, signer: Entry -> Option<VerifyEntry>,
                      ghost entries: seq<Entry>, ghost trusted: seq<string>)
    returns (categories: Option<map<string, CategoryResult>>)
    requires IsSelection(chosen, entries, trusted)
    ensures categories.Some? <==> forall e :: e in chosen ==> server(e).Some? && signer(e).Some?
    ensures categories.Some? ==>
      Answers(categories.value, entries, trusted, BothValid(gpg, verifiers, server, signer))
  {
    if |chosen| == 0 {
      NothingAnswers(entries, trusted, chosen, BothValid(gpg, verifiers, server, signer));
      return Some(map[]);
    }
    var verified := VerifyChosen(gpg, verifiers, chosen, server, signer);
    if verified.None? {
      return None;
    }
    if |verified.value| == 0 {
      NothingAnswers(entries, trusted, chosen, BothValid(gpg, verifiers, server, signer));
      return Some(map[]);
    }
    var result := Tally(verified.value);
    TallyAnswers(result, entries, trusted, chosen, BothValid(gpg, verifiers, server, signer));
    categories := Some(result);
  }

  // Selection, verification and vote.
  method Decide(gpg: Gpg, entries: seq<Entry>, trusted: seq<string>, verifiers: seq<string>,
                server: Entry -> Option<VerifyEntry>, signer: Entry -> Option<VerifyEntry>)
    returns (categories: Option<map<string, CategoryResult>>)
    requires forall f :: f in trusted ==> ':' !in f
    ensures categories.Some? <==> AllEncodable(entries, trusted, server, signer)
    ensures categories.Some? ==>
      Answers(categories.value, entries, trusted, BothValid(gpg, verifiers, server, signer))
  {
    var bySignerCategory := SelectLatest(entries, trusted);
    var chosen := Values(bySignerCategory);
    SelectionOf(bySignerCategory, entries, trusted);
    EncodableByClaims(chosen, entries, trusted, server, signer);
    categories := DecideChosen(gpg, chosen, verifiers, server, signer, entries, trusted);
  }

  // For every log, keyring and gpg. A log or server key that cannot be fetched, and a single claim
  // that btoa rejects, empty the whole answer.
  method LookUp(w: World) returns (categories: map<string, CategoryResult>)
    ensures var fetched := w.entries.Some? && w.serverKey.Some?
              && AllEncodable(w.entries.value, w.Trusted(), w.ServerRequests(), w.SignerRequests());
            && (!fetched ==> categories == map[])
            && (fetched ==> Answers(categories, w.entries.value, w.Trusted(), w.Checks()))
  {
    TrustedColonFree(w);
    if |w.Trusted()| == 0 {
      return map[];
    }
    if w.entries.None? || w.serverKey.None? {
      return map[];
    }
    var result := Decide(w.gpg, w.entries.value, w.Trusted(), w.Verifiers(), w.ServerRequests(), w.SignerRequests());
    categories := if result.Some? then result.value else map[];
  }
}
