// Reading `gpg --with-colons` key listings: one record per line, one key per pub or sec record.
module KeyList {
  import opened Text

  datatype KeyInfo = KeyInfo(fingerprint: string, uid: string, canSign: bool, trust: string)

  // ---------- What a listing means ----------

  // The record type of a line; lines without a colon have none.
  function RecordType(line: string): string
  {
    if |Split(line, ':')| < 2 then "" else Split(line, ':')[0]
  }

  function Field(line: string, k: nat): string
  {
    if k < |Split(line, ':')| then Split(line, ':')[k] else ""
  }

  predicate IsKeyRecord(line: string)
  {
    RecordType(line) == "pub" || RecordType(line) == "sec"
  }

  predicate IsDead(validity: string)
  {
    validity == "r" || validity == "e" || validity == "i"
  }

  function FprOf(line: string): string
  {
    if RecordType(line) == "fpr" then Field(line, 9) else ""
  }

  // Revoked, expired and invalid user ids do not count.
  function UidOf(line: string): string
  {
    if RecordType(line) == "uid" && !IsDead(Field(line, 1)) then Field(line, 9) else ""
  }

  function FirstNonEmpty(lines: seq<string>, f: string -> string): string
  {
    if lines == [] then ""
    else if f(lines[0]) != "" then f(lines[0])
    else FirstNonEmpty(lines[1..], f)
  }

  // How many lines come before the next key record.
  function BlockLength(lines: seq<string>): (n: nat)
    ensures n <= |lines|
  {
    if lines == [] || IsKeyRecord(lines[0]) then 0 else 1 + BlockLength(lines[1..])
  }

  // The key described by a pub or sec record and the lines that follow it, unless it is dead or
  // has no fingerprint.
  function KeysOfBlock(header: string, body: seq<string>): seq<KeyInfo>
  {
    var fpr := FirstNonEmpty(body, FprOf);
    if IsDead(Field(header, 1)) || fpr == "" then []
    else [KeyInfo(fpr, FirstNonEmpty(body, UidOf), 's' in Field(header, 11) || 'S' in Field(header, 11),
                  Field(header, 8))]
  }

  // The listing cut at its key records; whatever precedes the first one is ignored.
  function Keys(lines: seq<string>): seq<KeyInfo>
    decreases |lines|
  {
    if lines == [] then []
    else if !IsKeyRecord(lines[0]) then Keys(lines[1..])
    else
      var n := BlockLength(lines[1..]);
      KeysOfBlock(lines[0], lines[1..n + 1]) + Keys(lines[n + 1..])
  }

  // ---------- The scanner ----------

  // The key being assembled.
  datatype Pending = Pending(validity: string, canSign: bool, fpr: string, uid: string, ownertrust: string)

  // strings.ToLower on the capability letters, which are ASCII.
  function ToLower(s: string): string
  {
    seq(|s|, i requires 0 <= i < |s| => if 'A' <= s[i] <= 'Z' then s[i] - 'A' + 'a' else s[i])
  }

  lemma LowerCaseS(caps: string)
    ensures ('s' in ToLower(caps) || 'S' in ToLower(caps)) <==> ('s' in caps || 'S' in caps)
  {
    var low := ToLower(caps);
    if i :| 0 <= i < |caps| && (caps[i] == 's' || caps[i] == 'S') {
      assert low[i] == 's';
    }
    if i :| 0 <= i < |low| && (low[i] == 's' || low[i] == 'S') {
      assert caps[i] == 's' || caps[i] == 'S';
    }
  }

  function Emit(p: Pending): seq<KeyInfo>
  {
    if IsDead(p.validity) || p.fpr == "" then [] else [KeyInfo(p.fpr, p.uid, p.canSign, p.ownertrust)]
  }

  // What the lines still to come add to the key being assembled.
  function Completed(p: Pending, lines: seq<string>): Pending
  {
    p.(fpr := if p.fpr != "" then p.fpr else FirstNonEmpty(lines, FprOf),
       uid := if p.uid != "" then p.uid else FirstNonEmpty(lines, UidOf))
  }

  // The keys still to be reported when `cur` is being assembled and `lines` are unread.
  function Remaining(cur: Option<Pending>, lines: seq<string>): seq<KeyInfo>
  {
    if cur.None? then Keys(lines)
    else Emit(Completed(cur.value, lines[..BlockLength(lines)])) + Keys(lines[BlockLength(lines)..])
  }

  lemma RemainingAtKeyRecord(cur: Option<Pending>, lines: seq<string>, p: Pending)
    requires lines != [] && IsKeyRecord(lines[0])
    requires p == Pending(Field(lines[0], 1), 's' in Field(lines[0], 11) || 'S' in Field(lines[0], 11), "", "",
                          Field(lines[0], 8))
    ensures Remaining(cur, lines)
         == (if cur.Some? then Emit(cur.value) else []) + Remaining(Some(p), lines[1..])
  {
    var n := BlockLength(lines[1..]);
    assert lines[1..][..n] == lines[1..n + 1] && lines[1..][n..] == lines[n + 1..];
    assert Keys(lines) == Remaining(Some(p), lines[1..]);
    if cur.Some? {
      assert lines[..0] == [] && lines[0..] == lines;
      assert Completed(cur.value, []) == cur.value;
    }
  }

  lemma RemainingAtOtherLine(cur: Option<Pending>, lines: seq<string>)
    requires lines != [] && !IsKeyRecord(lines[0])
    ensures Remaining(cur, lines)
         == Remaining(if cur.None? then None else Some(Completed(cur.value, [lines[0]])), lines[1..])
  {
    var n := BlockLength(lines[1..]);
    assert lines[1..][..n] == lines[..n + 1][1..] && lines[1..][n..] == lines[n + 1..];
    FirstNonEmptySingle(lines[0], FprOf);
    FirstNonEmptySingle(lines[0], UidOf);
  }

  lemma FirstNonEmptySingle(line: string, f: string -> string)
    ensures FirstNonEmpty([line], f) == f(line)
  {
    assert [line][1..] == [];
  }

  // The flush closure: report the key being assembled, if it is worth reporting.
  method Flush(results: seq<KeyInfo>, cur: Option<Pending>) returns (r: seq<KeyInfo>)
    ensures r == results + if cur.Some? then Emit(cur.value) else []
  {
    if cur.None? {
      return results;
    }
    if cur.value.validity == "r" || cur.value.validity == "e" || cur.value.validity == "i" {
      return results;
    }
    if cur.value.fpr == "" {
      return results;
    }
    r := results + [KeyInfo(cur.value.fpr, cur.value.uid, cur.value.canSign, cur.value.ownertrust)];
  }

  // A pub or sec record starts a new key.
  method StartKey(line: string) returns (p: Pending)
    ensures p == Pending(Field(line, 1), 's' in Field(line, 11) || 'S' in Field(line, 11), "", "", Field(line, 8))
  {
    var fields := Split(line, ':');
    p := Pending("", false, "", "", "");
    if |fields| > 1 {
      p := p.(validity := fields[1]);
    }
    if |fields| > 8 {
      p := p.(ownertrust := fields[8]);
    }
    if |fields| > 11 {
      var caps := ToLower(fields[11]);
      LowerCaseS(fields[11]);
      p := p.(canSign := 's' in caps || 'S' in caps);
    }
  }

  // Any other record may complete the key being assembled.
  method ReadDetail(cur: Option<Pending>, line: string) returns (r: Option<Pending>)
    ensures r == if cur.None? then None else Some(Completed(cur.value, [line]))
  {
    FirstNonEmptySingle(line, FprOf);
    FirstNonEmptySingle(line, UidOf);
    r := cur;
    var fields := Split(line, ':');
    if |fields| < 2 {
      return;
    }
    if fields[0] == "fpr" {
      if cur.Some? && |fields| > 9 && cur.value.fpr == "" {
        r := Some(cur.value.(fpr := fields[9]));
      }
    } else if fields[0] == "uid" {
      if cur.Some? && |fields| > 9 && cur.value.uid == "" {
        if fields[1] == "r" || fields[1] == "e" || fields[1] == "i" {
          return;
        }
        r := Some(cur.value.(uid := fields[9]));
      }
    }
  }

  method ParseColons(lines: seq<string>) returns (results: seq<KeyInfo>)
    ensures results == Keys(lines)
  {
    results := [];
    var cur: Option<Pending> := None;
    assert lines[0..] == lines;
    for i := 0 to |lines|
      invariant Keys(lines) == results + Remaining(cur, lines[i..])
    {
      assert lines[i..][1..] == lines[i + 1..];
      if IsKeyRecord(lines[i]) {
        var p := StartKey(lines[i]);
        RemainingAtKeyRecord(cur, lines[i..], p);
        Associate(results, if cur.Some? then Emit(cur.value) else [], Remaining(Some(p), lines[i + 1..]));
        results := Flush(results, cur);
        cur := Some(p);
      } else {
        RemainingAtOtherLine(cur, lines[i..]);
        cur := ReadDetail(cur, lines[i]);
      }
    }
    NothingRemains(cur);
    results := Flush(results, cur);
  }

  lemma Associate(a: seq<KeyInfo>, b: seq<KeyInfo>, c: seq<KeyInfo>)
    ensures a + (b + c) == (a + b) + c
  {
  }

  lemma NothingRemains(cur: Option<Pending>)
    ensures Remaining(cur, []) == if cur.Some? then Emit(cur.value) else []
  {
    if cur.Some? {
      assert Completed(cur.value, []) == cur.value;
    }
  }

  // ---------- Consequences ----------

  lemma {:induction false} RemainingConcatenates(cur: Option<Pending>, a: seq<string>, b: seq<string>)
    requires b != [] ==> IsKeyRecord(b[0])
    ensures Remaining(cur, a + b) == Remaining(cur, a) + Keys(b)
    decreases |a|
  {
    if a == [] {
      assert a + b == b;
      BeforeNextListing(cur, b);
    } else {
      var tail := a[1..];
      assert (a + b)[1..] == tail + b && (a + b)[0] == a[0];
      if IsKeyRecord(a[0]) {
        var p := Pending(Field(a[0], 1), 's' in Field(a[0], 11) || 'S' in Field(a[0], 11), "", "", Field(a[0], 8));
        RemainingAtKeyRecord(cur, a, p);
        RemainingAtKeyRecord(cur, a + b, p);
        RemainingConcatenates(Some(p), tail, b);
        Associate(if cur.Some? then Emit(cur.value) else [], Remaining(Some(p), tail), Keys(b));
      } else {
        var next := if cur.None? then None else Some(Completed(cur.value, [a[0]]));
        RemainingAtOtherLine(cur, a);
        RemainingAtOtherLine(cur, a + b);
        RemainingConcatenates(next, tail, b);
      }
    }
  }

  lemma BeforeNextListing(cur: Option<Pending>, b: seq<string>)
    requires b != [] ==> IsKeyRecord(b[0])
    ensures Remaining(cur, b) == Remaining(cur, []) + Keys(b)
  {
    NothingRemains(cur);
    assert BlockLength(b) == 0 && b[..0] == [] && b[0..] == b;
  }

  // Listings concatenate: a listing that starts with a key record adds its own keys and changes none before it.
  lemma ListingsConcatenate(a: seq<string>, b: seq<string>)
    requires b != [] ==> IsKeyRecord(b[0])
    ensures Keys(a + b) == Keys(a) + Keys(b)
  {
    RemainingConcatenates(None, a, b);
  }

  lemma {:induction false} FirstNonEmptyIsField(lines: seq<string>, f: string -> string)
    requires forall line :: ':' !in f(line)
    ensures ':' !in FirstNonEmpty(lines, f)
  {
    if lines != [] {
      FirstNonEmptyIsField(lines[1..], f);
    }
  }

  lemma {:induction false} FieldsHaveNoColon(line: string)
    ensures ':' !in FprOf(line)
  {
    SplitExcludesSeparator(line, ':');
  }

  // Every reported fingerprint is non-empty and free of colons.
  lemma {:induction false} FingerprintsHaveNoColon(lines: seq<string>)
    ensures forall k :: k in Keys(lines) ==> k.fingerprint != "" && ':' !in k.fingerprint
    decreases |lines|
  {
    if lines != [] {
      if IsKeyRecord(lines[0]) {
        var n := BlockLength(lines[1..]);
        forall line ensures ':' !in FprOf(line) {
          FieldsHaveNoColon(line);
        }
        FirstNonEmptyIsField(lines[1..n + 1], FprOf);
        FingerprintsHaveNoColon(lines[n + 1..]);
      } else {
        FingerprintsHaveNoColon(lines[1..]);
      }
    }
  }

  // ---------- What gpg prints ----------

  // Free of separators.
  predicate AreFields(fields: seq<string>) { forall f :: f in fields ==> ':' !in f }

  function Record(fields: seq<string>): string
    requires fields != []
  {
    Join(fields, ':')
  }

  lemma RecordReadsBack(fields: seq<string>)
    requires |fields| >= 2 && AreFields(fields)
    ensures RecordType(Record(fields)) == fields[0]
    ensures forall k: nat :: Field(Record(fields), k) == if k < |fields| then fields[k] else ""
  {
    SplitJoin(fields, ':');
  }

  // Records reduced to the fields that are read.
  function KeyRecord(kind: string, validity: string, trust: string, caps: string): string
  {
    Record([kind, validity, "4096", "1", "", "", "", "", trust, "", "", caps])
  }

  function FprRecord(fpr: string): string { Record(["fpr", "", "", "", "", "", "", "", "", fpr]) }

  function UidRecord(validity: string, uid: string): string
  {
    Record(["uid", validity, "", "", "", "", "", "", "", uid])
  }

  lemma OtherLine(line: string, rest: seq<string>)
    requires !IsKeyRecord(line)
    ensures BlockLength([line] + rest) == 1 + BlockLength(rest) && Keys([line] + rest) == Keys(rest)
  {
    assert ([line] + rest)[1..] == rest;
  }

  lemma KeyOfThree(header: string, second: string, third: string)
    requires !IsKeyRecord(second) && !IsKeyRecord(third)
    ensures Keys([header, second, third]) == if IsKeyRecord(header) then KeysOfBlock(header, [second, third]) else []
  {
    var lines, two := [header, second, third], [second, third];
    OtherLine(third, []);
    OtherLine(second, [third]);
    assert [third] + [] == [third] && [second] + [third] == two;
    assert lines[1..] == two && lines[1..3] == two && lines[3..] == [];
  }

  lemma FirstNonEmptyOfTwo(a: string, b: string, f: string -> string)
    ensures FirstNonEmpty([a, b], f) == if f(a) != "" then f(a) else f(b)
  {
    assert [a, b][1..] == [b];
    FirstNonEmptySingle(b, f);
  }

  lemma KeyRecordReads(kind: string, validity: string, trust: string, caps: string)
    requires AreFields([kind, validity, trust, caps])
    ensures var line := KeyRecord(kind, validity, trust, caps);
            && (IsKeyRecord(line) <==> kind == "pub" || kind == "sec")
            && Field(line, 1) == validity && Field(line, 8) == trust && Field(line, 11) == caps
  {
    var inputs := [kind, validity, trust, caps];
    assert kind == inputs[0] && validity == inputs[1] && trust == inputs[2] && caps == inputs[3];
    RecordReadsBack([kind, validity, "4096", "1", "", "", "", "", trust, "", "", caps]);
  }

  lemma FprRecordReads(fpr: string)
    requires ':' !in fpr
    ensures !IsKeyRecord(FprRecord(fpr)) && FprOf(FprRecord(fpr)) == fpr && UidOf(FprRecord(fpr)) == ""
  {
    RecordReadsBack(["fpr", "", "", "", "", "", "", "", "", fpr]);
    assert "fpr"[0] != "pub"[0] && "fpr"[0] != "sec"[0] && "fpr"[0] != "uid"[0];
  }

  lemma UidRecordReads(validity: string, uid: string)
    requires ':' !in validity && ':' !in uid
    ensures var line := UidRecord(validity, uid);
            !IsKeyRecord(line) && FprOf(line) == "" && UidOf(line) == if IsDead(validity) then "" else uid
  {
    RecordReadsBack(["uid", validity, "", "", "", "", "", "", "", uid]);
    assert "uid"[0] != "pub"[0] && "uid"[0] != "sec"[0] && "uid"[0] != "fpr"[0];
  }

  // One listed key reads back as itself: a dead key or one without a fingerprint is left out, a dead user
  // id is blank, and only pub and sec records list keys.
  lemma ListedKeyReadsBack(kind: string, validity: string, trust: string, caps: string, fpr: string,
                           uidValidity: string, uid: string)
    requires AreFields([kind, validity, trust, caps]) && ':' !in fpr && ':' !in uidValidity && ':' !in uid
    ensures Keys([KeyRecord(kind, validity, trust, caps), FprRecord(fpr), UidRecord(uidValidity, uid)])
         == if (kind != "pub" && kind != "sec") || IsDead(validity) || fpr == "" then []
            else [KeyInfo(fpr, if IsDead(uidValidity) then "" else uid, 's' in caps || 'S' in caps, trust)]
  {
    var header, second, third := KeyRecord(kind, validity, trust, caps), FprRecord(fpr), UidRecord(uidValidity, uid);
    KeyRecordReads(kind, validity, trust, caps);
    FprRecordReads(fpr);
    UidRecordReads(uidValidity, uid);
    KeyOfThree(header, second, third);
    FirstNonEmptyOfTwo(second, third, FprOf);
    FirstNonEmptyOfTwo(second, third, UidOf);
  }
}
