// The native host's batch "verify" operation: one gpg check per entry, then two gates that compare
// the entry's log timestamp with the revocation dates of its key.
module NativeHost {
  import opened Text
  import opened Timestamps
  import opened GpgVerify

  datatype VerifyEntry = VerifyEntry(signature: string, payload: string, signerKeyID: string, timestamp: string)

  datatype VerifyResultMsg = VerifyResultMsg(
    index: nat, valid: bool, fingerprint: string,
    keyRevoked: bool, keyExpired: bool, keyMissing: bool, timestampOK: bool, error: string)

  datatype Response = Failed(id: string, error: string) | Verified(id: string, results: seq<VerifyResultMsg>)

  datatype Decoded = Bytes(data: seq<int>) | Malformed(reason: string)

  // What lies outside the host: base64 decoding, the status lines gpg prints for a signature over
  // some bytes, and its listing of a key's signature records. None is a failed run.
  datatype Gpg = Gpg(
    decode: string -> Decoded,
    check: (string, seq<int>) -> Option<seq<string>>,
    listSigs: string -> Option<seq<string>>)

  // ---------- What one entry's result means ----------

  function SelfRevocation(gpg: Gpg, fingerprint: string): Option<int>
  {
    var listing := gpg.listSigs(fingerprint);
    if listing.Some? then KeyRevocation(listing.value) else None
  }

  function RevocationBy(gpg: Gpg, fingerprint: string, verifier: string): Option<int>
  {
    var listing := gpg.listSigs(fingerprint);
    if listing.Some? then CertRevocation(listing.value, verifier) else None
  }

  // The revocation by the first verifier, in list order, who has revoked the key's certification.
  function FirstRevocation(gpg: Gpg, fingerprint: string, verifiers: seq<string>): Option<int>
  {
    if verifiers == [] then None
    else if RevocationBy(gpg, fingerprint, verifiers[0]).Some? then RevocationBy(gpg, fingerprint, verifiers[0])
    else FirstRevocation(gpg, fingerprint, verifiers[1..])
  }

  predicate Predates(timestamp: string, date: Option<int>)
  {
    date.Some? && LexLess(timestamp, FormatUnix(date.value))
  }

  predicate SelfGate(gpg: Gpg, report: VerifyResult, timestamp: string)
  {
    report.keyRevoked ==> timestamp != "" && Predates(timestamp, SelfRevocation(gpg, report.fingerprint))
  }

  predicate CertGate(gpg: Gpg, report: VerifyResult, timestamp: string, verifiers: seq<string>)
  {
    var date := FirstRevocation(gpg, report.fingerprint, verifiers);
    report.valid && report.fingerprint != "" && timestamp != "" && date.Some? ==> Predates(timestamp, date)
  }

  ghost function ResultFor(gpg: Gpg, index: nat, entry: VerifyEntry, verifiers: seq<string>): VerifyResultMsg
  {
    var blank := VerifyResultMsg(index, false, "", false, false, false, false, "");
    match gpg.decode(entry.payload)
    case Malformed(reason) => blank.(error := "invalid base64 payload: " + reason)
    case Bytes(payload) =>
      match gpg.check(entry.signature, payload)
      case None => blank.(error := "verify failed")
      case Some(lines) =>
        var report := Report(lines);
        var ok := SelfGate(gpg, report, entry.timestamp) && CertGate(gpg, report, entry.timestamp, verifiers);
        VerifyResultMsg(index, report.valid && ok, report.fingerprint,
                        report.keyRevoked, report.keyExpired, report.keyMissing, ok, "")
  }

  // ---------- The batch loop ----------

  lemma FormatUnixNonEmpty(seconds: int)
    ensures FormatUnix(seconds) != ""
  {
    CivilRoundTrip(seconds);
  }

  // The revoker loop, which stops at the first verifier with a revocation.
  method CheckCertRevocation(gpg: Gpg, fingerprint: string, timestamp: string, verifiers: seq<string>)
    returns (certRevoked: bool, certTimestampOK: bool)
    ensures var date := FirstRevocation(gpg, fingerprint, verifiers);
            && certRevoked == date.Some?
            && certTimestampOK == Predates(timestamp, date)
  {
    certRevoked, certTimestampOK := false, false;
    for k := 0 to |verifiers|
      invariant !certRevoked && !certTimestampOK
      invariant FirstRevocation(gpg, fingerprint, verifiers) == FirstRevocation(gpg, fingerprint, verifiers[k..])
    {
      var revoked, revokedAt := GetCertRevocationDate(gpg.listSigs(fingerprint), verifiers[k]);
      if revoked {
        FormatUnixNonEmpty(RevocationBy(gpg, fingerprint, verifiers[k]).value);
      }
      if revoked && revokedAt != "" {
        certRevoked := true;
        certTimestampOK := LexLess(timestamp, revokedAt);
        break;
      }
    }
  }

  // The self-revocation gate's date comparison.
  method CheckSelfRevocation(gpg: Gpg, fingerprint: string, timestamp: string) returns (selfTimestampOK: bool)
    ensures selfTimestampOK == Predates(timestamp, SelfRevocation(gpg, fingerprint))
  {
    selfTimestampOK := false;
    var revoked, revokedAt := GetKeyRevocationDate(gpg.listSigs(fingerprint));
    if revoked {
      FormatUnixNonEmpty(SelfRevocation(gpg, fingerprint).value);
    }
    if revoked && revokedAt != "" {
      selfTimestampOK := LexLess(timestamp, revokedAt);
    }
  }

  // The revocation gates of one signature report.
  method CheckGates(gpg: Gpg, vr: VerifyResult, timestamp: string, verifiers: seq<string>) returns (ok: bool)
    ensures ok == (SelfGate(gpg, vr, timestamp) && CertGate(gpg, vr, timestamp, verifiers))
  {
    var selfRevoked, selfTimestampOK := vr.keyRevoked, false;
    if selfRevoked && timestamp != "" {
      selfTimestampOK := CheckSelfRevocation(gpg, vr.fingerprint, timestamp);
    }
    var certRevoked, certTimestampOK := false, false;
    if vr.valid && vr.fingerprint != "" && timestamp != "" {
      certRevoked, certTimestampOK := CheckCertRevocation(gpg, vr.fingerprint, timestamp, verifiers);
    }
    ok := (!selfRevoked || selfTimestampOK) && (!certRevoked || certTimestampOK);
  }

  const BLANK := VerifyResultMsg(0, false, "", false, false, false, false, "")

  // One turn of the batch loop: fills in slot i of the result slice, field by field.
  method CheckEntry(gpg: Gpg, results: array<VerifyResultMsg>, i: nat, entry: VerifyEntry, verifiers: seq<string>)
    requires i < results.Length && results[i] == BLANK
    modifies results
    ensures results[i] == ResultFor(gpg, i, entry, verifiers)
    ensures forall k :: 0 <= k < results.Length && k != i ==> results[k] == old(results[k])
  {
    results[i] := results[i].(index := i);
    var decoded := gpg.decode(entry.payload);
    if decoded.Malformed? {
      results[i] := results[i].(error := "invalid base64 payload: " + decoded.reason);
      return;
    }
    var output := gpg.check(entry.signature, decoded.data);
    if output.None? {
      results[i] := results[i].(error := "verify failed");
      return;
    }
    var vr := ParseStatusFd(output.value);
    results[i] := results[i].(fingerprint := vr.fingerprint, keyRevoked := vr.keyRevoked,
                              keyExpired := vr.keyExpired, keyMissing := vr.keyMissing);
    var ok := CheckGates(gpg, vr, entry.timestamp, verifiers);
    results[i] := results[i].(timestampOK := ok, valid := vr.valid && ok);
  }

  // One batch: results[i] is the result of entry i and of nothing else, so a malformed entry
  // shifts no other result.
  method HandleVerify(gpg: Gpg, id: string, entries: seq<VerifyEntry>, verifiers: seq<string>)
    returns (resp: Response)
    ensures entries == [] ==> resp == Failed(id, "verify: entries is required")
    ensures entries != [] ==> resp == Verified(id, Results(gpg, entries, verifiers))
  {
    if |entries| == 0 {
      return Failed(id, "verify: entries is required");
    }
    var results := new VerifyResultMsg[|entries|](_ => BLANK);
    for i := 0 to |entries|
      invariant forall k :: 0 <= k < i ==> results[k] == ResultFor(gpg, k, entries[k], verifiers)
      invariant forall k :: i <= k < |entries| ==> results[k] == BLANK
    {
      CheckEntry(gpg, results, i, entries[i], verifiers);
    }
    resp := Verified(id, results[..]);
  }

  ghost function Results(gpg: Gpg, entries: seq<VerifyEntry>, verifiers: seq<string>): (r: seq<VerifyResultMsg>)
    ensures |r| == |entries|
  {
    seq(|entries|, i requires 0 <= i < |entries| => ResultFor(gpg, i, entries[i], verifiers))
  }

  // ---------- Validity over time ----------

  ghost predicate IsValid(gpg: Gpg, entry: VerifyEntry, verifiers: seq<string>)
  {
    ResultFor(gpg, 0, entry, verifiers).valid
  }

  ghost predicate ValidAt(gpg: Gpg, entry: VerifyEntry, verifiers: seq<string>, seconds: int)
  {
    IsValid(gpg, entry.(timestamp := FormatUnix(seconds)), verifiers)
  }

  // Gates only ever close: valid at one log time, valid at every earlier one. No assumption is
  // made on the revocation dates.
  lemma ValidityIsDownwardClosed(gpg: Gpg, entry: VerifyEntry, verifiers: seq<string>, earlier: int, later: int)
    requires InCanonicalYears(earlier) && InCanonicalYears(later) && earlier <= later
    ensures ValidAt(gpg, entry, verifiers, later) ==> ValidAt(gpg, entry, verifiers, earlier)
  {
    if earlier < later && ValidAt(gpg, entry, verifiers, later) {
      StringOrderIsTimeOrder(earlier, later);
      FormatUnixNonEmpty(earlier);
      FormatUnixNonEmpty(later);
      var a, b := FormatUnix(earlier), FormatUnix(later);
      var report := Report(gpg.check(entry.signature, gpg.decode(entry.payload).data).value);
      PredatesEarlier(a, b, SelfRevocation(gpg, report.fingerprint));
      PredatesEarlier(a, b, FirstRevocation(gpg, report.fingerprint, verifiers));
    }
  }

  lemma PredatesEarlier(a: string, b: string, date: Option<int>)
    requires LexLess(a, b)
    ensures Predates(b, date) ==> Predates(a, date)
  {
    if Predates(b, date) {
      LexTransitive(a, b, FormatUnix(date.value));
    }
  }

  ghost predicate CanonicalDate(date: Option<int>)
  {
    date.Some? ==> InCanonicalYears(date.value)
  }

  // The gates cut off at exactly two seconds: the key's own revocation and the revocation by the
  // first revoking verifier. A key revoked without a usable record is never valid.
  lemma ValidityCutOffs(gpg: Gpg, entry: VerifyEntry, verifiers: seq<string>, seconds: int, lines: seq<string>)
    requires gpg.decode(entry.payload).Bytes?
    requires gpg.check(entry.signature, gpg.decode(entry.payload).data) == Some(lines)
    requires InCanonicalYears(seconds)
    requires CanonicalDate(SelfRevocation(gpg, Report(lines).fingerprint))
    requires CanonicalDate(FirstRevocation(gpg, Report(lines).fingerprint, verifiers))
    ensures var report := Report(lines);
            var self := SelfRevocation(gpg, report.fingerprint);
            var cert := FirstRevocation(gpg, report.fingerprint, verifiers);
            ValidAt(gpg, entry, verifiers, seconds) <==>
              && report.valid
              && (report.keyRevoked ==> self.Some? && seconds < self.value)
              && (report.fingerprint != "" && cert.Some? ==> seconds < cert.value)
  {
    FormatUnixNonEmpty(seconds);
    var report := Report(lines);
    PredatesIsBefore(seconds, SelfRevocation(gpg, report.fingerprint));
    PredatesIsBefore(seconds, FirstRevocation(gpg, report.fingerprint, verifiers));
  }

  lemma PredatesIsBefore(seconds: int, date: Option<int>)
    requires InCanonicalYears(seconds) && CanonicalDate(date)
    ensures Predates(FormatUnix(seconds), date) <==> date.Some? && seconds < date.value
  {
    if date.Some? {
      StringOrderIsTimeOrder(seconds, date.value);
    }
  }

  // ---------- Several revoking verifiers ----------

  // The strictest reading of the gate: before every verifier's revocation.
  ghost predicate BeforeEvery(gpg: Gpg, fingerprint: string, verifiers: seq<string>, seconds: int)
  {
    forall v :: v in verifiers && RevocationBy(gpg, fingerprint, v).Some? ==>
      seconds < RevocationBy(gpg, fingerprint, v).value
  }

  ghost predicate BeforeFirst(gpg: Gpg, fingerprint: string, verifiers: seq<string>, seconds: int)
  {
    var first := FirstRevocation(gpg, fingerprint, verifiers);
    first.Some? ==> seconds < first.value
  }

  lemma {:induction false} FirstRevocationIsSome(gpg: Gpg, fingerprint: string, verifiers: seq<string>)
    ensures var first := FirstRevocation(gpg, fingerprint, verifiers);
            if first.None? then forall v :: v in verifiers ==> RevocationBy(gpg, fingerprint, v).None?
            else exists v :: v in verifiers && RevocationBy(gpg, fingerprint, v) == first
  {
    if verifiers != [] {
      FirstRevocationIsSome(gpg, fingerprint, verifiers[1..]);
    }
  }

  // The code's gate is the strictest one at all times exactly when the first revoking verifier is
  // also an earliest one; otherwise the order of the verifier list shows.
  lemma FirstVerifierGateIff(gpg: Gpg, fingerprint: string, verifiers: seq<string>)
    ensures (forall t :: BeforeFirst(gpg, fingerprint, verifiers, t) <==> BeforeEvery(gpg, fingerprint, verifiers, t))
       <==> forall v :: v in verifiers && RevocationBy(gpg, fingerprint, v).Some? ==>
              var first := FirstRevocation(gpg, fingerprint, verifiers);
              first.Some? && first.value <= RevocationBy(gpg, fingerprint, v).value
  {
    FirstRevocationIsSome(gpg, fingerprint, verifiers);
    var first := FirstRevocation(gpg, fingerprint, verifiers);
    if v :| v in verifiers && RevocationBy(gpg, fingerprint, v).Some?
            && RevocationBy(gpg, fingerprint, v).value < first.value
    {
      var t := RevocationBy(gpg, fingerprint, v).value;
      assert BeforeFirst(gpg, fingerprint, verifiers, t) && !BeforeEvery(gpg, fingerprint, verifiers, t);
    }
  }

  // Two verifiers revoked, the first in the list later: from the earlier revocation on the key is
  // still accepted, and listing the verifiers the other way round rejects it.
  lemma ListOrderShows(gpg: Gpg, fingerprint: string, v: string, w: string, early: nat, late: nat)
    requires v != w && ':' !in v && ':' !in w && 0 < early < late <= INT64_MAX
    requires gpg.listSigs(fingerprint) == Some([RevRecord(v, late), RevRecord(w, early)])
    ensures BeforeFirst(gpg, fingerprint, [v, w], early) && !BeforeFirst(gpg, fingerprint, [w, v], early)
    ensures !BeforeEvery(gpg, fingerprint, [v, w], early)
  {
    RevocationOfTwo(v, w, early, late);
    assert [w, v][1..] == [v] && [v, w][1..] == [w];
    assert w in [v, w];
  }

  lemma RevocationOfTwo(v: string, w: string, early: nat, late: nat)
    requires v != w && ':' !in v && ':' !in w && 0 < early < late <= INT64_MAX
    ensures CertRevocation([RevRecord(v, late), RevRecord(w, early)], v) == Some(late)
    ensures CertRevocation([RevRecord(v, late), RevRecord(w, early)], w) == Some(early)
  {
    var a, b := RevRecord(v, late), RevRecord(w, early);
    RevRecordReadsBack(v, late, v);
    RevRecordReadsBack(v, late, w);
    RevRecordReadsBack(w, early, v);
    RevRecordReadsBack(w, early, w);
    TimesOfTwo(a, b, v);
    TimesOfTwo(a, b, w);
    ScanOfTwo(late, 0);
    ScanOfTwo(early, 0);
  }
}
