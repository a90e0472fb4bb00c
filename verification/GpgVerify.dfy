// Reading gpg's machine output: the status lines of a signature check, and the revocation records
// of a key listing. Each scanner is a loop over lines, proved against what its answer means.
module GpgVerify {
  import opened Text
  import opened Timestamps

  datatype VerifyResult = VerifyResult(
    valid: bool, fingerprint: string, signedAt: string,
    keyRevoked: bool, keyExpired: bool, keyMissing: bool)

  const STATUS_PREFIX := "[GNUPG:] "

  // ---------- Status lines ----------

  // The words of a status line; none for any other line.
  function Words(line: string): seq<string>
  {
    if STATUS_PREFIX <= line then Fields(line[|STATUS_PREFIX|..]) else []
  }

  predicate Says(line: string, keyword: string)
  {
    Words(line) != [] && Words(line)[0] == keyword
  }

  // The lines that say something about the signature itself.
  predicate IsVerdict(line: string)
  {
    Says(line, "BADSIG") || Says(line, "ERRSIG") || Approves(line)
  }

  // A correct signature, whatever the state of its key.
  predicate Approves(line: string)
  {
    Says(line, "GOODSIG") || Says(line, "REVKEYSIG") || Says(line, "EXPKEYSIG")
  }

  predicate ReportsMissingKey(line: string)
  {
    Says(line, "NO_PUBKEY") || (Says(line, "ERRSIG") && |Words(line)| >= 7 && Words(line)[6] == "9")
  }

  predicate NamesSigner(line: string)
  {
    Says(line, "VALIDSIG") && |Words(line)| >= 4
  }

  predicate DatesSignature(line: string)
  {
    NamesSigner(line) && ParseInt64(Words(line)[3]).Some?
  }

  // The last line with a property, if any.
  function Last(lines: seq<string>, p: string -> bool): (r: Option<string>)
    ensures r.None? ==> forall i :: 0 <= i < |lines| ==> !p(lines[i])
    ensures r.Some? ==> exists i :: 0 <= i < |lines| && lines[i] == r.value && p(lines[i])
                                    && forall j :: i < j < |lines| ==> !p(lines[j])
  {
    if lines == [] then None
    else if p(lines[|lines| - 1]) then Some(lines[|lines| - 1])
    else
      var r := Last(lines[..|lines| - 1], p);
      r
  }

  // The meaning of a status report: the last verdict decides, each key flag needs one witness,
  // signer and date come from the last line that has them.
  ghost function Report(lines: seq<string>): VerifyResult
  {
    var verdict := Last(lines, IsVerdict);
    var signer := Last(lines, NamesSigner);
    var date := Last(lines, DatesSignature);
    VerifyResult(
      verdict.Some? && Approves(verdict.value),
      if signer.Some? then Words(signer.value)[1] else "",
      if date.Some? then FormatUnix(ParseInt64(Words(date.value)[3]).value) else "",
      exists line :: line in lines && Says(line, "REVKEYSIG"),
      exists line :: line in lines && Says(line, "EXPKEYSIG"),
      exists line :: line in lines && ReportsMissingKey(line))
  }

  // What one more line adds to a report.
  lemma ReportExtends(lines: seq<string>, line: string)
    ensures Report(lines + [line]) == VerifyResult(
      if IsVerdict(line) then Approves(line) else Report(lines).valid,
      if NamesSigner(line) then Words(line)[1] else Report(lines).fingerprint,
      if DatesSignature(line) then FormatUnix(ParseInt64(Words(line)[3]).value) else Report(lines).signedAt,
      Report(lines).keyRevoked || Says(line, "REVKEYSIG"),
      Report(lines).keyExpired || Says(line, "EXPKEYSIG"),
      Report(lines).keyMissing || ReportsMissingKey(line))
  {
    var all := lines + [line];
    assert all[..|all| - 1] == lines;
    assert forall x :: x in all <==> x in lines || x == line;
  }

  method ParseStatusFd(lines: seq<string>) returns (r: VerifyResult)
    ensures r == Report(lines)
  {
    r := VerifyResult(false, "", "", false, false, false);
    for i := 0 to |lines|
      invariant r == Report(lines[..i])
    {
      var line := lines[i];
      ReportExtends(lines[..i], line);
      assert lines[..i + 1] == lines[..i] + [line];
      r := ReadStatusLine(r, line);
    }
    assert lines[..|lines|] == lines;
  }

  // One turn of the scanner loop: the fields of the result that the line changes.
  method ReadStatusLine(before: VerifyResult, line: string) returns (r: VerifyResult)
    ensures r == VerifyResult(
      if IsVerdict(line) then Approves(line) else before.valid,
      if NamesSigner(line) then Words(line)[1] else before.fingerprint,
      if DatesSignature(line) then FormatUnix(ParseInt64(Words(line)[3]).value) else before.signedAt,
      before.keyRevoked || Says(line, "REVKEYSIG"),
      before.keyExpired || Says(line, "EXPKEYSIG"),
      before.keyMissing || ReportsMissingKey(line))
  {
    r := before;
    if !(STATUS_PREFIX <= line) {
      return;
    }
    var parts := Fields(line[|STATUS_PREFIX|..]);
    if parts == [] {
      return;
    }
    if parts[0] == "GOODSIG" {
      r := r.(valid := true);
    } else if parts[0] == "BADSIG" {
      r := r.(valid := false);
    } else if parts[0] == "REVKEYSIG" {
      r := r.(valid := true, keyRevoked := true);
    } else if parts[0] == "EXPKEYSIG" {
      r := r.(valid := true, keyExpired := true);
    } else if parts[0] == "ERRSIG" {
      r := r.(valid := false);
      if |parts| >= 7 && parts[6] == "9" {
        r := r.(keyMissing := true);
      }
    } else if parts[0] == "NO_PUBKEY" {
      r := r.(keyMissing := true);
    } else if parts[0] == "VALIDSIG" {
      if |parts| >= 4 {
        r := r.(fingerprint := parts[1]);
        var ts := ParseInt64(parts[3]);
        if ts.Some? {
          r := r.(signedAt := FormatUnix(ts.value));
        }
      }
    }
  }

  // ---------- Revocation records ----------

  // The revocation time a record gives for the key itself: class 20x, not a revoked certification.
  function KeyRevocationTime(line: string): Option<int>
  {
    var fields := Split(line, ':');
    if |fields| < 11 || fields[0] != "rev" || !("20" <= fields[10]) then None
    else ParseInt64(fields[5])
  }

  // The first usable record of the listing.
  function KeyRevocation(lines: seq<string>): Option<int>
  {
    if lines == [] then None
    else if KeyRevocationTime(lines[0]).Some? then KeyRevocationTime(lines[0])
    else KeyRevocation(lines[1..])
  }

  method GetKeyRevocationDate(listing: Option<seq<string>>) returns (revoked: bool, revokedAt: string)
    ensures var r := if listing.Some? then KeyRevocation(listing.value) else None;
            && revoked == r.Some?
            && revokedAt == if r.Some? then FormatUnix(r.value) else ""
  {
    if listing.None? {
      return false, "";
    }
    var lines := listing.value;
    for i := 0 to |lines|
      invariant KeyRevocation(lines) == KeyRevocation(lines[i..])
    {
      var fields := Split(lines[i], ':');
      if |fields| < 11 || fields[0] != "rev" {
        continue;
      }
      if !("20" <= fields[10]) {
        continue;
      }
      var ts := ParseInt64(fields[5]);
      if ts.Some? {
        return true, FormatUnix(ts.value);
      }
    }
    return false, "";
  }

  // The revocation time a record gives for a certification made by one revoker.
  function CertRevocationTime(line: string, revoker: string): Option<int>
  {
    var fields := Split(line, ':');
    if |fields| < 13 || fields[0] != "rev" || fields[12] != revoker then None
    else ParseInt64(fields[5])
  }

  // All the times one revoker's records give, in listing order.
  function RevocationTimes(lines: seq<string>, revoker: string): seq<int>
  {
    if lines == [] then []
    else
      var before := RevocationTimes(lines[..|lines| - 1], revoker);
      var t := CertRevocationTime(lines[|lines| - 1], revoker);
      if t.Some? then before + [t.value] else before
  }

  // The scan's accumulator: zero doubles as "nothing seen yet".
  function Scan(times: seq<int>): int
  {
    if times == [] then 0
    else
      var earliest, t := Scan(times[..|times| - 1]), times[|times| - 1];
      if earliest == 0 || t < earliest then t else earliest
  }

  function CertRevocation(lines: seq<string>, revoker: string): Option<int>
  {
    var earliest := Scan(RevocationTimes(lines, revoker));
    if earliest > 0 then Some(earliest) else None
  }

  // What the next line of the listing does to the accumulator.
  lemma EarliestStep(lines: seq<string>, i: nat, revoker: string)
    requires i < |lines|
    ensures var earliest, t := Scan(RevocationTimes(lines[..i], revoker)), CertRevocationTime(lines[i], revoker);
            Scan(RevocationTimes(lines[..i + 1], revoker))
            == if t.Some? && (earliest == 0 || t.value < earliest) then t.value else earliest
  {
    assert lines[..i + 1][..i] == lines[..i];
    var seen, t := RevocationTimes(lines[..i], revoker), CertRevocationTime(lines[i], revoker);
    if t.Some? {
      assert (seen + [t.value])[..|seen|] == seen;
    }
  }

  method GetCertRevocationDate(listing: Option<seq<string>>, revoker: string)
    returns (revoked: bool, revokedAt: string)
    ensures var r := if listing.Some? then CertRevocation(listing.value, revoker) else None;
            && revoked == r.Some?
            && revokedAt == if r.Some? then FormatUnix(r.value) else ""
  {
    if listing.None? {
      return false, "";
    }
    var lines := listing.value;
    var earliest := 0;
    for i := 0 to |lines|
      invariant earliest == Scan(RevocationTimes(lines[..i], revoker))
    {
      EarliestStep(lines, i, revoker);
      var fields := Split(lines[i], ':');
      if |fields| < 13 || fields[0] != "rev" {
        continue;
      }
      if fields[12] != revoker {
        continue;
      }
      var ts := ParseInt64(fields[5]);
      if ts.None? {
        continue;
      }
      if earliest == 0 || ts.value < earliest {
        earliest := ts.value;
      }
    }
    assert lines[..|lines|] == lines;
    if earliest > 0 {
      return true, FormatUnix(earliest);
    }
    return false, "";
  }

  // ---------- What the certification scan means ----------

  // What the scan is meant to return: the earliest positive time, if there is one.
  ghost predicate IsEarliest(times: seq<int>, r: Option<int>)
  {
    match r
    case None => forall t :: t in times ==> t <= 0
    case Some(e) => e in times && e > 0 && forall t :: t in times && t > 0 ==> e <= t
  }

  ghost predicate ReportsEarliest(times: seq<int>)
  {
    IsEarliest(times, if Scan(times) > 0 then Some(Scan(times)) else None)
  }

  // A record dated before the epoch silences the scan for good.
  lemma {:induction false} ScanNegative(times: seq<int>)
    ensures Scan(times) < 0 <==> exists i :: 0 <= i < |times| && times[i] < 0
  {
    if times != [] {
      ScanNegative(times[..|times| - 1]);
    }
  }

  // Where the times after the last zero start.
  function AfterLastZero(times: seq<int>): (k: nat)
    ensures k <= |times|
    ensures forall j :: k <= j < |times| ==> times[j] != 0
    ensures k > 0 ==> times[k - 1] == 0
  {
    if times == [] then 0
    else if times[|times| - 1] == 0 then |times|
    else
      var k := AfterLastZero(times[..|times| - 1]);
      k
  }

  // From position `from` on, all times are positive and none is below v.
  ghost predicate BoundsFrom(times: seq<int>, from: nat, v: int)
  {
    forall j :: from <= j < |times| ==> 0 < v <= times[j]
  }

  // Without records before the epoch the scan returns the minimum since the last zero.
  lemma {:induction false} ScanSinceLastZero(times: seq<int>) returns (k: int)
    requires forall i :: 0 <= i < |times| ==> times[i] >= 0
    ensures BoundsFrom(times, AfterLastZero(times), Scan(times))
    ensures if AfterLastZero(times) == |times| then Scan(times) == 0
            else AfterLastZero(times) <= k < |times| && times[k] == Scan(times)
  {
    k := 0;
    if times != [] {
      var n := |times| - 1;
      var init, from, v := times[..n], AfterLastZero(times), Scan(times);
      k := ScanSinceLastZero(init);
      if v == times[n] {
        k := n;
      }
      forall j | from <= j < |times| ensures 0 < v <= times[j] {
        assert j < n ==> init[j] == times[j];
      }
    }
  }

  // Some earliest positive time has no zero after it.
  ghost predicate EarliestAfterZeros(times: seq<int>, k: int)
  {
    && 0 <= k < |times| && times[k] > 0
    && (forall t :: t in times && t > 0 ==> times[k] <= t)
    && (forall j :: k < j < |times| ==> times[j] != 0)
  }

  // The scan returns the earliest positive time exactly when there is none to return, or no record
  // is dated before the epoch and some earliest positive one has no zero after it.
  lemma ScanReportsEarliestIff(times: seq<int>)
    ensures ReportsEarliest(times) <==>
            || (forall t :: t in times ==> t <= 0)
            || ((forall t :: t in times ==> t >= 0) && exists k :: EarliestAfterZeros(times, k))
  {
    ScanNegative(times);
    assert forall i :: 0 <= i < |times| ==> times[i] in times;
    if forall t :: t in times ==> t >= 0 {
      var m := ScanSinceLastZero(times);
      if ReportsEarliest(times) && Scan(times) > 0 {
        assert EarliestAfterZeros(times, m);
      }
      if k :| EarliestAfterZeros(times, k) {
        assert AfterLastZero(times) <= k;
        assert times[m] in times;
      }
    }
  }

  lemma PositiveScan(times: seq<int>)
    requires forall t :: t in times ==> t > 0
    ensures ReportsEarliest(times)
    ensures times != [] ==> Scan(times) in times
  {
    assert forall i :: 0 <= i < |times| ==> times[i] in times;
    var k := ScanSinceLastZero(times);
    assert AfterLastZero(times) == 0;
  }

  // Positive times: the scan returns their minimum, so record order does not matter.
  lemma PositiveScanIgnoresOrder(times: seq<int>, permuted: seq<int>)
    requires forall t :: t in times ==> t > 0
    requires multiset(times) == multiset(permuted)
    ensures Scan(times) == Scan(permuted)
  {
    assert forall t :: t in times <==> t in multiset(times);
    assert forall t :: t in permuted <==> t in multiset(permuted);
    PositiveScan(times);
    PositiveScan(permuted);
    if times != [] {
      assert times[0] in permuted;
    }
    if permuted != [] {
      assert permuted[0] in times;
    }
  }

  // A revocation record as gpg lists it, reduced to the fields that are read.
  function RevRecord(revoker: string, time: nat): string
  {
    Join(["rev", "", "", "", "", Decimal(time), "", "", "", "", "", "", revoker], ':')
  }

  lemma RevRecordReadsBack(revoker: string, time: nat, other: string)
    requires ':' !in revoker && time <= INT64_MAX
    ensures CertRevocationTime(RevRecord(revoker, time), other) == if other == revoker then Some(time) else None
  {
    var fields := ["rev", "", "", "", "", Decimal(time), "", "", "", "", "", "", revoker];
    assert forall f :: f in fields ==> ':' !in f;
    SplitJoin(fields, ':');
    ParseDecimal(time);
  }

  lemma TimesOfTwo(a: string, b: string, revoker: string)
    ensures RevocationTimes([a, b], revoker)
         == (if CertRevocationTime(a, revoker).Some? then [CertRevocationTime(a, revoker).value] else [])
          + (if CertRevocationTime(b, revoker).Some? then [CertRevocationTime(b, revoker).value] else [])
  {
    assert [a, b][..1] == [a] && [a][..0] == [];
    assert RevocationTimes([], revoker) == [];
    assert RevocationTimes([a], revoker)
        == if CertRevocationTime(a, revoker).Some? then [CertRevocationTime(a, revoker).value] else [];
  }

  lemma ScanOfTwo(x: int, y: int)
    ensures Scan([x]) == x && Scan([x, y]) == if x == 0 || y < x then y else x
  {
    assert [x, y][..1] == [x] && [x][..0] == [];
  }

  // Records the scan misreads: a later one dated 0 erases an earlier revocation.
  lemma ZeroDateErasesRevocation(revoker: string)
    requires ':' !in revoker
    ensures CertRevocation([RevRecord(revoker, 5), RevRecord(revoker, 0)], revoker) == None
    ensures CertRevocation([RevRecord(revoker, 0), RevRecord(revoker, 5)], revoker) == Some(5)
    ensures !ReportsEarliest(RevocationTimes([RevRecord(revoker, 5), RevRecord(revoker, 0)], revoker))
  {
    var five, zero := RevRecord(revoker, 5), RevRecord(revoker, 0);
    RevRecordReadsBack(revoker, 5, revoker);
    RevRecordReadsBack(revoker, 0, revoker);
    TimesOfTwo(five, zero, revoker);
    TimesOfTwo(zero, five, revoker);
    ScanOfTwo(5, 0);
    ScanOfTwo(0, 5);
    assert RevocationTimes([five, zero], revoker) == [5, 0] && 5 in [5, 0];
  }

  // A record of the revocation of the key itself gives its date, one of a revoked certification none.
  lemma SelfRevocationReadsBack(time: nat, sigClass: string)
    requires time <= INT64_MAX && ':' !in sigClass
    ensures var line := Join(["rev", "", "", "", "", Decimal(time), "", "", "", "", sigClass], ':');
            KeyRevocationTime(line) == if "20" <= sigClass then Some(time) else None
  {
    var fields := ["rev", "", "", "", "", Decimal(time), "", "", "", "", sigClass];
    assert forall f :: f in fields ==> ':' !in f;
    SplitJoin(fields, ':');
    ParseDecimal(time);
  }

  // ---------- What gpg prints and what is read ----------

  predicate AreWords(words: seq<string>) { forall w :: w in words ==> IsWord(w) }

  function StatusLine(words: seq<string>): string
    requires words != []
  {
    "[GNUPG:] " + Join(words, ' ')
  }

  lemma StatusLineReadsBack(words: seq<string>)
    requires words != [] && AreWords(words)
    ensures Words(StatusLine(words)) == words
  {
    FieldsJoin(words);
    assert StatusLine(words)[9..] == Join(words, ' ');
  }

  // The two lines about one signature, by a key that can be looked up: gpg's opinion, and then the
  // fingerprint, the date and the second of the signature.
  function Opinion(keyword: string, about: seq<string>): string { StatusLine([keyword] + about) }

  function SignatureDate(fpr: string, date: string, time: nat, about: seq<string>): string
  {
    StatusLine(["VALIDSIG", fpr, date, Decimal(time)] + about)
  }

  predicate IsOpinion(keyword: string)
  {
    keyword == "GOODSIG" || keyword == "BADSIG" || keyword == "REVKEYSIG" || keyword == "EXPKEYSIG"
  }

  lemma OpinionReads(keyword: string, about: seq<string>)
    requires IsOpinion(keyword) && AreWords(about)
    ensures Words(Opinion(keyword, about)) == [keyword] + about
  {
    StatusLineReadsBack([keyword] + about);
  }

  lemma DecimalIsWord(n: nat)
    ensures IsWord(Decimal(n))
  {
    assert forall c :: c in Decimal(n) ==> IsDigit(c);
  }

  lemma SignatureDateReads(fpr: string, date: string, time: nat, about: seq<string>)
    requires IsWord(fpr) && IsWord(date) && AreWords(about)
    ensures Words(SignatureDate(fpr, date, time, about)) == ["VALIDSIG", fpr, date, Decimal(time)] + about
  {
    DecimalIsWord(time);
    StatusLineReadsBack(["VALIDSIG", fpr, date, Decimal(time)] + about);
  }

  // An opinion is all a report consists of.
  lemma OpinionAlone(line: string, keyword: string, about: seq<string>)
    requires IsOpinion(keyword) && Words(line) == [keyword] + about
    ensures Report([line])
         == VerifyResult(keyword != "BADSIG", "", "", keyword == "REVKEYSIG", keyword == "EXPKEYSIG", false)
  {
    assert Words(line)[0] == keyword;
    ReportExtends([], line);
    assert [] + [line] == [line];
  }

  lemma DateIsNoOpinion(line: string)
    requires Says(line, "VALIDSIG")
    ensures !IsVerdict(line) && !Says(line, "REVKEYSIG") && !Says(line, "EXPKEYSIG") && !ReportsMissingKey(line)
  {
  }

  // A signature's date adds the signer and the time to what was said before.
  lemma DateAdds(before: seq<string>, line: string, fpr: string, date: string, time: nat, about: seq<string>)
    requires Words(line) == ["VALIDSIG", fpr, date, Decimal(time)] + about && time <= INT64_MAX
    ensures Report(before + [line]) == Report(before).(fingerprint := fpr, signedAt := FormatUnix(time))
  {
    assert Words(line)[0] == "VALIDSIG" && Words(line)[1] == fpr && Words(line)[3] == Decimal(time);
    DateIsNoOpinion(line);
    ParseDecimal(time);
    ReportExtends(before, line);
  }

  // What is read of them: everything but a bad signature is valid, by that key and at that second.
  lemma OpinionAndDateReadBack(keyword: string, about: seq<string>, fpr: string, date: string, time: nat,
                               rest: seq<string>)
    requires IsOpinion(keyword) && AreWords(about)
    requires IsWord(fpr) && IsWord(date) && AreWords(rest) && time <= INT64_MAX
    ensures Report([Opinion(keyword, about), SignatureDate(fpr, date, time, rest)])
         == VerifyResult(keyword != "BADSIG", fpr, FormatUnix(time), keyword == "REVKEYSIG", keyword == "EXPKEYSIG",
                         false)
  {
    var first, second := Opinion(keyword, about), SignatureDate(fpr, date, time, rest);
    OpinionReads(keyword, about);
    SignatureDateReads(fpr, date, time, rest);
    OpinionAlone(first, keyword, about);
    DateAdds([first], second, fpr, date, time, rest);
    assert [first] + [second] == [first, second];
  }

  // Without the key gpg reports an error with reason 9.
  lemma MissingKeyReadsBack(keyid: string, details: seq<string>)
    requires IsWord(keyid) && AreWords(details) && |details| == 4
    ensures Report([StatusLine(["ERRSIG", keyid] + details + ["9"])]) == VerifyResult(false, "", "", false, false, true)
  {
    var line := StatusLine(["ERRSIG", keyid] + details + ["9"]);
    StatusLineReadsBack(["ERRSIG", keyid] + details + ["9"]);
    ReportExtends([], line);
    assert [] + [line] == [line];
  }
}
