// Which entry speaks for a signer in a category: the latest claim of a list of log entries. The
// verdict lookup keeps it per trusted signer and category, the dialog per category of one key.
module Claims {
  import opened Text
  import opened LogEntries
  import opened Timestamps

  // ---------- The latest claim ----------

  // Position of the latest entry among those satisfying p, by the strict timestamp test of a
  // left-to-right scan.
  function Latest(entries: seq<Entry>, p: Entry -> bool): (r: Option<nat>)
    ensures r.Some? ==> r.value < |entries| && p(entries[r.value])
  {
    if entries == [] then None
    else
      var n := |entries| - 1;
      var kept := Latest(entries[..n], p);
      if p(entries[n]) && (kept.None? || LexLess(entries[kept.value].serverTimestamp, entries[n].serverTimestamp))
      then Some(n) else kept
  }

  // Position i holds the newest entry of a newest-first list: nothing before it is as late, nothing after it is later.
  ghost predicate IsNewest(entries: seq<Entry>, p: Entry -> bool, i: nat)
  {
    && i < |entries| && p(entries[i])
    && (forall j :: 0 <= j < i && p(entries[j]) ==> LexLess(entries[j].serverTimestamp, entries[i].serverTimestamp))
    && (forall j :: i < j < |entries| && p(entries[j]) ==>
          !LexLess(entries[i].serverTimestamp, entries[j].serverTimestamp))
  }

  lemma {:induction false} LatestIsNewest(entries: seq<Entry>, p: Entry -> bool)
    ensures match Latest(entries, p)
            case None => forall j :: 0 <= j < |entries| ==> !p(entries[j])
            case Some(i) => IsNewest(entries, p, i)
  {
    if entries != [] {
      var n := |entries| - 1;
      var init := entries[..n];
      LatestIsNewest(init, p);
      assert forall j :: 0 <= j < n ==> init[j] == entries[j];
      var kept := Latest(init, p);
      if kept.Some? && Latest(entries, p) == Some(n) {
        forall j | 0 <= j < n && p(entries[j])
          ensures LexLess(entries[j].serverTimestamp, entries[n].serverTimestamp)
        {
          NotLater(entries[j].serverTimestamp, entries[kept.value].serverTimestamp, entries[n].serverTimestamp);
          if j < kept.value {
            LexTransitive(entries[j].serverTimestamp, entries[kept.value].serverTimestamp,
                          entries[n].serverTimestamp);
          }
        }
      }
    }
  }

  lemma NotLater(a: string, b: string, c: string)
    requires LexLess(b, c)
    ensures !LexLess(b, a) ==> LexLess(a, c)
  {
    if !LexLess(b, a) {
      LexTotal(a, b);
      if LexLess(a, b) {
        LexTransitive(a, b, c);
      }
    }
  }

  lemma NewestIsUnique(entries: seq<Entry>, p: Entry -> bool, i: nat, j: nat)
    requires IsNewest(entries, p, i) && IsNewest(entries, p, j)
    ensures i == j
  {
  }

  // Scanning keeps exactly the newest claim.
  lemma LatestIffNewest(entries: seq<Entry>, p: Entry -> bool, i: nat)
    ensures Latest(entries, p) == Some(i) <==> IsNewest(entries, p, i)
  {
    LatestIsNewest(entries, p);
    if IsNewest(entries, p, i) && Latest(entries, p).Some? {
      NewestIsUnique(entries, p, i, Latest(entries, p).value);
    }
  }

  lemma {:induction false} LatestDependsOnPredicate(entries: seq<Entry>, p: Entry -> bool, q: Entry -> bool)
    requires forall e :: e in entries ==> p(e) == q(e)
    ensures Latest(entries, p) == Latest(entries, q)
  {
    if entries != [] {
      var n := |entries| - 1;
      assert entries[n] in entries && forall e :: e in entries[..n] ==> e in entries;
      LatestDependsOnPredicate(entries[..n], p, q);
    }
  }

  // Position of the first entry satisfying p, or the length of the list.
  function First(entries: seq<Entry>, p: Entry -> bool): (r: nat)
    ensures r <= |entries| && (r < |entries| ==> p(entries[r]))
    ensures forall j :: 0 <= j < r ==> !p(entries[j])
  {
    if entries == [] then 0
    else
      var n := |entries| - 1;
      var r := First(entries[..n], p);
      if r < n || p(entries[n]) then r else n + 1
  }

  lemma FirstStep(entries: seq<Entry>, n: nat, p: Entry -> bool)
    requires n < |entries|
    ensures First(entries[..n + 1], p)
         == if First(entries[..n], p) < n || p(entries[n]) then First(entries[..n], p) else n + 1
  {
    assert entries[..n + 1][..n] == entries[..n];
  }

  lemma {:induction false} FirstDependsOnPredicate(entries: seq<Entry>, p: Entry -> bool, q: Entry -> bool)
    requires forall e :: e in entries ==> p(e) == q(e)
    ensures First(entries, p) == First(entries, q)
  {
    if entries != [] {
      var n := |entries| - 1;
      assert entries[n] in entries && forall e :: e in entries[..n] ==> e in entries;
      FirstDependsOnPredicate(entries[..n], p, q);
    }
  }

  // ---------- Push order ----------

  function Reverse<T>(s: seq<T>): (r: seq<T>)
    ensures |r| == |s|
    ensures forall i :: 0 <= i < |s| ==> r[i] == s[|s| - 1 - i]
  {
    if s == [] then [] else Reverse(s[1..]) + [s[0]]
  }

  ghost predicate StampedAt(pushed: seq<Entry>, seconds: seq<int>, j: nat)
    requires j < |pushed| == |seconds|
  {
    InCanonicalYears(seconds[j]) && pushed[j].serverTimestamp == FormatUnix(seconds[j])
  }

  ghost predicate Stamped(pushed: seq<Entry>, seconds: seq<int>)
  {
    |seconds| == |pushed| && forall j :: 0 <= j < |pushed| ==> StampedAt(pushed, seconds, j)
  }

  // k is the greatest by (time, push order) among the pushes satisfying p.
  ghost predicate GreatestPush(pushed: seq<Entry>, seconds: seq<int>, p: Entry -> bool, k: nat)
    requires |seconds| == |pushed|
  {
    && k < |pushed| && p(pushed[k])
    && forall j :: 0 <= j < |pushed| && j != k && p(pushed[j]) ==>
         seconds[j] < seconds[k] || (seconds[j] == seconds[k] && j < k)
  }

  ghost predicate StampsCompare(pushed: seq<Entry>, seconds: seq<int>)
    requires |seconds| == |pushed|
  {
    forall a, b :: 0 <= a < |pushed| && 0 <= b < |pushed| ==>
      (LexLess(pushed[a].serverTimestamp, pushed[b].serverTimestamp) <==> seconds[a] < seconds[b])
  }

  lemma StampsCompareAsTimes(pushed: seq<Entry>, seconds: seq<int>)
    requires Stamped(pushed, seconds)
    ensures StampsCompare(pushed, seconds)
  {
    forall a, b | 0 <= a < |pushed| && 0 <= b < |pushed|
      ensures LexLess(pushed[a].serverTimestamp, pushed[b].serverTimestamp) <==> seconds[a] < seconds[b]
    {
      assert StampedAt(pushed, seconds, a) && StampedAt(pushed, seconds, b);
      StringOrderIsTimeOrder(seconds[a], seconds[b]);
    }
  }

  // The log lists entries newest push first.
  ghost predicate IsListing(list: seq<Entry>, pushed: seq<Entry>)
  {
    |list| == |pushed| && forall m :: 0 <= m < |pushed| ==> list[m] == pushed[|pushed| - 1 - m]
  }

  lemma ReverseIsListing(pushed: seq<Entry>)
    ensures IsListing(Reverse(pushed), pushed)
  {
  }

  lemma NewestIsGreatestPush(pushed: seq<Entry>, seconds: seq<int>, p: Entry -> bool, k: nat, list: seq<Entry>)
    requires Stamped(pushed, seconds) && k < |pushed| && IsListing(list, pushed)
    ensures IsNewest(list, p, |pushed| - 1 - k) <==> GreatestPush(pushed, seconds, p, k)
  {
    StampsCompareAsTimes(pushed, seconds);
    var n := |pushed|;
    var i := n - 1 - k;
    if IsNewest(list, p, i) {
      forall j | 0 <= j < n && j != k && p(pushed[j])
        ensures seconds[j] < seconds[k] || (seconds[j] == seconds[k] && j < k)
      {
        assert list[n - 1 - j] == pushed[j];
      }
    }
    if GreatestPush(pushed, seconds, p, k) {
      forall m | 0 <= m < i && p(list[m]) ensures LexLess(list[m].serverTimestamp, list[i].serverTimestamp) {
        assert list[m] == pushed[n - 1 - m];
      }
      forall m | i < m < n && p(list[m]) ensures !LexLess(list[i].serverTimestamp, list[m].serverTimestamp) {
        assert list[m] == pushed[n - 1 - m];
      }
    }
  }

  // For pushes stamped with canonical times the scan of their listing keeps the entry that is
  // greatest by (time, push order): ties within a second go to the later push.
  lemma LatestByTimeThenPush(pushed: seq<Entry>, seconds: seq<int>, p: Entry -> bool, k: nat, list: seq<Entry>)
    requires Stamped(pushed, seconds) && k < |pushed| && IsListing(list, pushed)
    ensures Latest(list, p) == Some(|pushed| - 1 - k) <==> GreatestPush(pushed, seconds, p, k)
  {
    LatestIffNewest(list, p, |pushed| - 1 - k);
    NewestIsGreatestPush(pushed, seconds, p, k, list);
  }

  // ---------- The dialog's lookup ----------

  function ClaimOf(signer: string, category: string): Entry -> bool
  {
    (e: Entry) => e.category != "" && e.signerKeyID == signer && e.category == category
  }

  // The entry a scan of some entries keeps.
  function Kept(entries: seq<Entry>, p: Entry -> bool): Option<Entry>
  {
    var i := Latest(entries, p);
    if i.Some? then Some(entries[i.value]) else None
  }

  lemma KeptIffFirst(entries: seq<Entry>, p: Entry -> bool)
    ensures Kept(entries, p).Some? <==> First(entries, p) < |entries|
  {
    LatestIsNewest(entries, p);
  }

  // The verdict a key currently holds in a category: its latest claim there, unless that is a revocation.
  function CurrentVerdict(entries: seq<Entry>, signer: string, category: string): Option<string>
  {
    var kept := Kept(entries, ClaimOf(signer, category));
    if kept.Some? && kept.value.verdict != REVOKE then Some(kept.value.verdict) else None
  }

  lemma KeptStep(entries: seq<Entry>, n: nat, p: Entry -> bool)
    requires n < |entries|
    ensures var kept := Kept(entries[..n], p);
            Kept(entries[..n + 1], p) ==
              if p(entries[n]) && (kept.None? || LexLess(kept.value.serverTimestamp, entries[n].serverTimestamp))
              then Some(entries[n]) else kept
  {
    assert entries[..n + 1][..n] == entries[..n];
  }

  ghost predicate LatestByCategory(byCategory: map<string, Entry>, entries: seq<Entry>, key: string)
  {
    forall c :: Kept(entries, ClaimOf(key, c)) == if c in byCategory then Some(byCategory[c]) else None
  }

  method FoldByCategory(entries: seq<Entry>, selectedKeyID: string) returns (byCategory: map<string, Entry>)
    ensures LatestByCategory(byCategory, entries, selectedKeyID)
  {
    byCategory := map[];
    for n := 0 to |entries|
      invariant LatestByCategory(byCategory, entries[..n], selectedKeyID)
    {
      var entry := entries[n];
      forall c {
        KeptStep(entries, n, ClaimOf(selectedKeyID, c));
      }
      if entry.category == "" {
        continue;
      }
      if entry.signerKeyID != selectedKeyID {
        continue;
      }
      if entry.category !in byCategory
         || LexLess(byCategory[entry.category].serverTimestamp, entry.serverTimestamp)
      {
        byCategory := byCategory[entry.category := entry];
      }
    }
    assert entries[..|entries|] == entries;
  }

  method GetMyVerdicts(entries: seq<Entry>, selectedKeyID: string) returns (myVerdicts: map<string, Option<string>>)
    ensures myVerdicts.Keys == (set c | c in CATEGORIES)
    ensures forall c :: c in CATEGORIES ==> myVerdicts[c] == CurrentVerdict(entries, selectedKeyID, c)
  {
    var byCategory := FoldByCategory(entries, selectedKeyID);
    myVerdicts := map[];
    for k := 0 to |CATEGORIES|
      invariant myVerdicts.Keys == (set c | c in CATEGORIES[..k])
      invariant forall c :: c in CATEGORIES[..k] ==> myVerdicts[c] == CurrentVerdict(entries, selectedKeyID, c)
    {
      var c := CATEGORIES[k];
      assert Kept(entries, ClaimOf(selectedKeyID, c)) == if c in byCategory then Some(byCategory[c]) else None;
      var verdict := None;
      if c in byCategory && byCategory[c].verdict != REVOKE {
        verdict := Some(byCategory[c].verdict);
      }
      myVerdicts := myVerdicts[c := verdict];
      assert CATEGORIES[..k + 1] == CATEGORIES[..k] + [c];
    }
    assert CATEGORIES[..|CATEGORIES|] == CATEGORIES;
  }
}
