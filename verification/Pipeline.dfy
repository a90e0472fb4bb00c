// The log and the worker together: what the worker's selection keeps of an artifact's pushes, and
// which logged entries pass the check of the server's signature.
module Pipeline {
  import opened Text
  import opened LogEntries
  import opened JsMaps
  import opened Timestamps
  import opened Claims
  import opened GpgVerify
  import opened NativeHost
  import CanonicalPayload
  import LogStore
  import opened Verdicts

  // ---------- From the log to the selection ----------

  ghost predicate DistinctIndices(pushes: seq<Entry>)
  {
    forall i, j :: 0 <= i < j < |pushes| ==> pushes[i].logIndex != pushes[j].logIndex
  }

  lemma {:induction false} PushesAreFromLog(pushLog: seq<Entry>, hash: string)
    requires DistinctIndices(pushLog)
    ensures var pushes := LogStore.PushesFor(pushLog, hash);
            DistinctIndices(pushes) && forall e :: e in pushes <==> e in pushLog && e.artifactHash == hash
  {
    if pushLog != [] {
      var n := |pushLog| - 1;
      assert pushLog == pushLog[..n] + [pushLog[n]];
      PushesAreFromLog(pushLog[..n], hash);
      var before := LogStore.PushesFor(pushLog[..n], hash);
      forall i | 0 <= i < |before| ensures before[i].logIndex != pushLog[n].logIndex {
        assert before[i] in pushLog[..n];
        var k :| 0 <= k < n && pushLog[k] == before[i];
      }
    }
  }

  lemma KeptByPosition(pushes: seq<Entry>, list: seq<Entry>, p: Entry -> bool, k: nat)
    requires DistinctIndices(pushes) && IsListing(list, pushes) && k < |pushes|
    ensures Kept(list, p) == Some(pushes[k]) <==> Latest(list, p) == Some(|pushes| - 1 - k)
  {
    var kept := Latest(list, p);
    if kept.Some? {
      assert list[kept.value] == pushes[|pushes| - 1 - kept.value];
    }
  }

  // A scan of the listing keeps the k-th push exactly when that is the greatest claim.
  lemma ScanKeepsGreatest(pushes: seq<Entry>, seconds: seq<int>, p: Entry -> bool, k: nat, list: seq<Entry>)
    requires DistinctIndices(pushes) && Stamped(pushes, seconds) && IsListing(list, pushes) && k < |pushes|
    ensures Kept(list, p) == Some(pushes[k]) <==> GreatestPush(pushes, seconds, p, k)
  {
    KeptByPosition(pushes, list, p, k);
    LatestByTimeThenPush(pushes, seconds, p, k, list);
  }

  // What a trusted signer's slot for a category holds: the claim greatest by (time, push order).
  ghost predicate HoldsGreatest(m: JsMap<string, Entry>, pushes: seq<Entry>, seconds: seq<int>, s: string, c: string)
    requires |seconds| == |pushes|
  {
    var key := CompositeKey(s, c);
    && (key in m.vals ==> m.vals[key] in pushes)
    && forall k :: 0 <= k < |pushes| ==>
         ((key in m.vals && m.vals[key] == pushes[k]) <==> GreatestPush(pushes, seconds, ClaimOf(s, c), k))
  }

  // List an artifact's entries, while other appends go on, and select: for pushes stamped with canonical
  // times every trusted signer's slot holds the greatest claim, ties within a second going to the later push.
  method SelectFromLog(now: LogStore.State, later: seq<LogStore.State>, hash: string, trusted: seq<string>,
                       ghost seconds: seq<int>)
    returns (m: JsMap<string, Entry>)
    requires LogStore.ReadLater(now, later) && |later| == |LogStore.List(now, hash)|
    requires Stamped(LogStore.PushesFor(now.pushLog, hash), seconds)
    requires forall f :: f in trusted ==> ':' !in f
    ensures forall s, c :: s in trusted && c != "" ==>
      HoldsGreatest(m, LogStore.PushesFor(now.pushLog, hash), seconds, s, c)
  {
    var entries := LogStore.GetByHash(now, later, hash);
    m := SelectLatest(entries, trusted);
    ghost var pushes := LogStore.PushesFor(now.pushLog, hash);
    PushesAreFromLog(now.pushLog, hash);
    ReverseIsListing(pushes);
    forall s, c | s in trusted && c != "" ensures HoldsGreatest(m, pushes, seconds, s, c) {
      SlotHoldsGreatest(m, pushes, seconds, entries, trusted, s, c);
    }
  }

  lemma SlotHoldsGreatest(m: JsMap<string, Entry>, pushes: seq<Entry>, seconds: seq<int>, list: seq<Entry>,
                          trusted: seq<string>, s: string, c: string)
    requires LatestByKey(m, list, trusted) && s in trusted && c != ""
    requires forall f :: f in trusted ==> ':' !in f
    requires DistinctIndices(pushes) && Stamped(pushes, seconds) && IsListing(list, pushes)
    ensures HoldsGreatest(m, pushes, seconds, s, c)
  {
    SelectedClaims(m, list, trusted, s, c);
    forall k | 0 <= k < |pushes|
      ensures Kept(list, ClaimOf(s, c)) == Some(pushes[k]) <==> GreatestPush(pushes, seconds, ClaimOf(s, c), k)
    {
      ScanKeepsGreatest(pushes, seconds, ClaimOf(s, c), k, list);
    }
  }

  // ---------- The server's signature ----------

  // gpg reports a good signature exactly for what was signed, by a key that nobody has revoked; the
  // worker's base64 is what the host decodes.
  ghost predicate Faithful(gpg: Gpg, encode: seq<int> -> string, signs: (seq<int>, string) -> bool,
                           verifiers: seq<string>)
  {
    && (forall bytes :: gpg.decode(encode(bytes)) == Bytes(bytes))
    && (forall signature, bytes :: (GoodSignature(gpg, signature, bytes) <==> signs(bytes, signature)))
    && (forall signature, bytes :: gpg.check(signature, bytes).Some? ==>
          var report := Report(gpg.check(signature, bytes).value);
          !report.keyRevoked && FirstRevocation(gpg, report.fingerprint, verifiers).None?)
  }

  ghost predicate GoodSignature(gpg: Gpg, signature: string, bytes: seq<int>)
  {
    var lines := gpg.check(signature, bytes);
    lines.Some? && Report(lines.value).valid
  }

  ghost predicate ServerSignatureAccepted(gpg: Gpg, encode: seq<int> -> string, e: Entry, serverKey: string,
                                          verifiers: seq<string>)
  {
    var request := ServerRequest(encode, e, serverKey);
    request.Some? && IsValid(gpg, request.value, verifiers)
  }

  // The bytes of the payload the worker rebuilds, if btoa accepts it.
  ghost function Rebuilt(e: Entry): Option<seq<int>>
  {
    CanonicalPayload.ServerObjectText(e);
    CanonicalPayload.Latin1(CanonicalPayload.CanonicalJSON(CanonicalPayload.ServerObject(e)))
  }

  lemma RequestCarriesRebuilt(encode: seq<int> -> string, e: Entry, serverKey: string)
    ensures ServerRequest(encode, e, serverKey) == match Rebuilt(e)
      case None => None
      case Some(bytes) => Some(VerifyEntry(e.serverSignature, encode(bytes), serverKey, e.serverTimestamp))
  {
  }

  lemma ValidIffGood(gpg: Gpg, entry: VerifyEntry, bytes: seq<int>, verifiers: seq<string>)
    requires gpg.decode(entry.payload) == Bytes(bytes)
    requires gpg.check(entry.signature, bytes).Some? ==>
      var report := Report(gpg.check(entry.signature, bytes).value);
      !report.keyRevoked && FirstRevocation(gpg, report.fingerprint, verifiers).None?
    ensures IsValid(gpg, entry, verifiers) <==> GoodSignature(gpg, entry.signature, bytes)
  {
  }

  lemma AcceptedIffSigned(gpg: Gpg, encode: seq<int> -> string, signs: (seq<int>, string) -> bool,
                          verifiers: seq<string>, e: Entry, serverKey: string)
    requires Faithful(gpg, encode, signs, verifiers)
    ensures ServerSignatureAccepted(gpg, encode, e, serverKey, verifiers)
       <==> Rebuilt(e).Some? && signs(Rebuilt(e).value, e.serverSignature)
  {
    RequestCarriesRebuilt(encode, e, serverKey);
    if Rebuilt(e).Some? {
      var bytes := Rebuilt(e).value;
      ValidIffGood(gpg, VerifyEntry(e.serverSignature, encode(bytes), serverKey, e.serverTimestamp), bytes, verifiers);
    }
  }

  // An entry that readers can see carries the server's signature over its own canonical bytes, so the
  // worker accepts that signature exactly when it rebuilds those bytes: when every field is plain text.
  lemma LoggedEntryAcceptedIff(s: LogStore.State, n: nat, e: Entry, signs: (seq<int>, string) -> bool, gpg: Gpg,
                               encode: seq<int> -> string, serverKey: string, verifiers: seq<string>)
    requires LogStore.Inv(s) && s.attested == LogStore.AttestedBy(signs)
    requires LogStore.GetByIndex(s, n) == Some(e) && n < 0x20_0000_0000_0000
    ensures e.logIndex == n
    ensures Faithful(gpg, encode, signs, verifiers) && SignsOnly(signs, e.serverSignature, e) ==>
      (ServerSignatureAccepted(gpg, encode, e, serverKey, verifiers) <==> CanonicalPayload.PlainEntry(e))
  {
    assert LogStore.Reached(s, e, 2);
    LogStore.IndexTextsDiffer(n, e.logIndex);
    assert signs(CanonicalPayload.ServerBytes(e), e.serverSignature);
    CanonicalPayload.WorkerRebuildsServerBytesIff(e);
    if Faithful(gpg, encode, signs, verifiers) {
      AcceptedIffSigned(gpg, encode, signs, verifiers, e, serverKey);
    }
  }

  // A signature over the entry's canonical bytes is a signature over nothing else.
  ghost predicate SignsOnly(signs: (seq<int>, string) -> bool, signature: string, e: Entry)
  {
    forall bytes :: signs(bytes, signature) ==> bytes == CanonicalPayload.ServerBytes(e)
  }

  // ---------- The signer's signature ----------

  // handleSign: the payload the native host is asked to sign, if btoa accepts it.
  function PayloadToSign(encode: seq<int> -> string, artifactHash: string, category: string, keyID: string,
                         verdict: string): Option<string>
  {
    CanonicalPayload.SignerObjectText(artifactHash, category, keyID, verdict);
    Btoa(encode, CanonicalPayload.CanonicalJSON(
      CanonicalPayload.SignerObject(artifactHash, category, keyID, verdict)))
  }

  // The bytes of an entry's four-field payload, if btoa accepts it.
  ghost function FourFields(e: Entry): Option<seq<int>>
  {
    CanonicalPayload.SignerObjectText(e.artifactHash, e.category, e.signerKeyID, e.verdict);
    CanonicalPayload.Latin1(CanonicalPayload.CanonicalJSON(
      CanonicalPayload.SignerObject(e.artifactHash, e.category, e.signerKeyID, e.verdict)))
  }

  ghost predicate SignerSignatureAccepted(gpg: Gpg, encode: seq<int> -> string, e: Entry, verifiers: seq<string>)
  {
    var request := SignerRequest(encode, e);
    request.Some? && IsValid(gpg, request.value, verifiers)
  }

  lemma RequestCarriesFourFields(encode: seq<int> -> string, e: Entry)
    ensures SignerRequest(encode, e) == match FourFields(e)
      case None => None
      case Some(bytes) => Some(VerifyEntry(e.signature, encode(bytes), e.signerKeyID, e.serverTimestamp))
  {
  }

  // The second check of an entry succeeds exactly when the signer's signature is one over the entry's
  // four-field payload.
  lemma SignerAcceptedIff(gpg: Gpg, encode: seq<int> -> string, signs: (seq<int>, string) -> bool,
                          verifiers: seq<string>, e: Entry)
    ensures Faithful(gpg, encode, signs, verifiers) ==>
      (SignerSignatureAccepted(gpg, encode, e, verifiers)
       <==> FourFields(e).Some? && signs(FourFields(e).value, e.signature))
  {
    RequestCarriesFourFields(encode, e);
    if Faithful(gpg, encode, signs, verifiers) && FourFields(e).Some? {
      var bytes := FourFields(e).value;
      ValidIffGood(gpg, VerifyEntry(e.signature, encode(bytes), e.signerKeyID, e.serverTimestamp), bytes, verifiers);
    }
  }

  // Signed as handleSign has it signed: the signature covers what the host decodes from that payload.
  ghost predicate SignedAsAsked(gpg: Gpg, encode: seq<int> -> string, signs: (seq<int>, string) -> bool, e: Entry)
  {
    var asked := PayloadToSign(encode, e.artifactHash, e.category, e.signerKeyID, e.verdict);
    asked.Some? && gpg.decode(asked.value).Bytes? && signs(gpg.decode(asked.value).data, e.signature)
  }

  lemma AskedIsFourFields(gpg: Gpg, encode: seq<int> -> string, signs: (seq<int>, string) -> bool,
                          verifiers: seq<string>, e: Entry)
    ensures Faithful(gpg, encode, signs, verifiers) ==>
      (SignedAsAsked(gpg, encode, signs, e) <==> FourFields(e).Some? && signs(FourFields(e).value, e.signature))
  {
    if Faithful(gpg, encode, signs, verifiers) && FourFields(e).Some? {
      assert gpg.decode(encode(FourFields(e).value)) == Bytes(FourFields(e).value);
    }
  }

  ghost predicate BothAccepted(gpg: Gpg, encode: seq<int> -> string, e: Entry, serverKey: string,
                               verifiers: seq<string>)
  {
    ServerSignatureAccepted(gpg, encode, e, serverKey, verifiers) && SignerSignatureAccepted(gpg, encode, e, verifiers)
  }

  // Both checks of an entry that readers can see and that was signed as handleSign signs: they succeed
  // exactly when the entry is plain text.
  lemma SignedEntryPassesIff(s: LogStore.State, n: nat, e: Entry, signs: (seq<int>, string) -> bool, gpg: Gpg,
                             encode: seq<int> -> string, serverKey: string, verifiers: seq<string>)
    requires LogStore.Inv(s) && s.attested == LogStore.AttestedBy(signs)
    requires LogStore.GetByIndex(s, n) == Some(e) && n < 0x20_0000_0000_0000
    ensures Faithful(gpg, encode, signs, verifiers) && SignsOnly(signs, e.serverSignature, e)
            && SignedAsAsked(gpg, encode, signs, e) ==>
      (BothAccepted(gpg, encode, e, serverKey, verifiers) <==> CanonicalPayload.PlainEntry(e))
  {
    LoggedEntryAcceptedIff(s, n, e, signs, gpg, encode, serverKey, verifiers);
    AskedIsFourFields(gpg, encode, signs, verifiers, e);
    SignerAcceptedIff(gpg, encode, signs, verifiers, e);
  }

  // The two checks of a lookup are these.
  lemma ChecksAre(w: World, e: Entry)
    requires w.serverKey.Some?
    ensures w.Checks()(e)
       <==> BothAccepted(w.gpg, w.encode, e, w.serverKey.value, w.Verifiers())
  {
  }

  // A trusted signer whose latest claim in a category passes both checks and is no revocation has a
  // vote there.
  lemma PassedClaimVotes(w: World, e: Entry)
    requires w.entries.Some? && w.serverKey.Some?
    requires e.signerKeyID in w.Trusted() && e.verdict != REVOKE
    requires Kept(w.entries.value, ClaimOf(e.signerKeyID, e.category)) == Some(e)
    ensures e.signerKeyID in Voters(w.entries.value, w.Trusted(), w.Checks(), e.category)
       <==> BothAccepted(w.gpg, w.encode, e, w.serverKey.value, w.Verifiers())
  {
    ChecksAre(w, e);
  }

  // ---------- When the checks stop succeeding ----------

  // Before the self-revocation of the key that made the signature, and before the date of the first
  // verifier who revoked its certification.
  ghost predicate InTime(gpg: Gpg, report: VerifyResult, verifiers: seq<string>, seconds: int)
  {
    var self, cert := SelfRevocation(gpg, report.fingerprint), FirstRevocation(gpg, report.fingerprint, verifiers);
    && (report.keyRevoked ==> self.Some? && seconds < self.value)
    && (report.fingerprint != "" && cert.Some? ==> seconds < cert.value)
  }

  ghost predicate CanonicalDates(gpg: Gpg, report: VerifyResult, verifiers: seq<string>)
  {
    CanonicalDate(SelfRevocation(gpg, report.fingerprint))
    && CanonicalDate(FirstRevocation(gpg, report.fingerprint, verifiers))
  }

  // Each check of an entry is timed by the log's stamp on the entry.
  lemma SignerCheckInTime(gpg: Gpg, encode: seq<int> -> string, verifiers: seq<string>, e: Entry, seconds: int,
                          lines: seq<string>)
    requires FourFields(e).Some? && gpg.decode(encode(FourFields(e).value)) == Bytes(FourFields(e).value)
    requires gpg.check(e.signature, FourFields(e).value) == Some(lines)
    requires InCanonicalYears(seconds) && e.serverTimestamp == FormatUnix(seconds)
    requires CanonicalDates(gpg, Report(lines), verifiers)
    ensures SignerSignatureAccepted(gpg, encode, e, verifiers)
       <==> Report(lines).valid && InTime(gpg, Report(lines), verifiers, seconds)
  {
    RequestCarriesFourFields(encode, e);
    ValidityCutOffs(gpg, SignerRequest(encode, e).value, verifiers, seconds, lines);
  }

  lemma ServerCheckInTime(gpg: Gpg, encode: seq<int> -> string, verifiers: seq<string>, e: Entry, serverKey: string,
                          seconds: int, lines: seq<string>)
    requires Rebuilt(e).Some? && gpg.decode(encode(Rebuilt(e).value)) == Bytes(Rebuilt(e).value)
    requires gpg.check(e.serverSignature, Rebuilt(e).value) == Some(lines)
    requires InCanonicalYears(seconds) && e.serverTimestamp == FormatUnix(seconds)
    requires CanonicalDates(gpg, Report(lines), verifiers)
    ensures ServerSignatureAccepted(gpg, encode, e, serverKey, verifiers)
       <==> Report(lines).valid && InTime(gpg, Report(lines), verifiers, seconds)
  {
    RequestCarriesRebuilt(encode, e, serverKey);
    ValidityCutOffs(gpg, ServerRequest(encode, e, serverKey).value, verifiers, seconds, lines);
  }
}
