// The transparency log's store. Appending takes a counter increment, a signature and three Redis
// commands in a fixed order but not in a transaction, and then queues a leaf in the background.
// Appends run concurrently, may stop between any two steps, and readers interleave anywhere, so
// the store is a machine whose steps are the single Redis commands.
module LogStore {
  import opened Text
  import opened LogEntries
  import opened Claims
  import CanonicalPayload

  // How far one append has come.
  datatype Phase = Numbered | Signed | EntrySet | UuidSet | Listed | LeafQueued
  {
    function Rank(): nat
    {
      match this
      case Numbered => 0
      case Signed => 1
      case EntrySet => 2
      case UuidSet => 3
      case Listed => 4
      case LeafQueued => 5
    }
  }

  // One call of Append: the entry it holds, its progress, and whether it is still running.
  datatype Append = Append(entry: Entry, phase: Phase, running: bool)

  // Redis (counter, entry and uuid keys, one list per artifact), the queued leaves, and the history:
  // the appends by log index and the pushes in order. `attested` says that the server signature of an
  // entry verifies over its canonical bytes.
  datatype State = State(
    counter: nat, entries: map<string, Entry>, uuids: map<string, string>, lists: map<string, seq<string>>,
    leaves: seq<Entry>, appends: seq<Append>, pushLog: seq<Entry>, attested: Entry -> bool)

  datatype Label =
    | Begin(draft: Entry)             // INCR
    | Sign(i: nat, signature: string) // gpgSign
    | SetEntry(i: nat)                // SET entry:<index>
    | SetUuid(i: nat)                 // SET uuid:<uuid>
    | Push(i: nat)                    // LPUSH idx:<hash>
    | QueueLeaf(i: nat)               // the background leaf reaches the tree
    | Stop(i: nat)                    // an error return, a crash, or a leaf that is never queued

  // strconv.FormatInt of a log index
  function IndexText(i: nat): string { Decimal(i) }

  function Init(attested: Entry -> bool): State
  {
    State(0, map[], map[], map[], [], [], [], attested)
  }

  // Attested under a notion of what gpg accepts as a signature over some bytes.
  function AttestedBy(signs: (seq<int>, string) -> bool): Entry -> bool
  {
    (e: Entry) => signs(CanonicalPayload.ServerBytes(e), e.serverSignature)
  }

  predicate At(s: State, i: nat, phase: Phase)
  {
    i < |s.appends| && s.appends[i].running && s.appends[i].phase == phase
  }

  // UUIDs are fresh, and INCR fails at the end of the int64 range.
  ghost predicate Enabled(s: State, l: Label)
  {
    match l
    case Begin(draft) =>
      s.counter < INT64_MAX && forall i :: 0 <= i < |s.appends| ==> s.appends[i].entry.uuid != draft.uuid
    case Sign(i, signature) =>
      At(s, i, Numbered) && s.attested(s.appends[i].entry.(serverSignature := signature))
    case SetEntry(i) => At(s, i, Signed)
    case SetUuid(i) => At(s, i, EntrySet)
    case Push(i) => At(s, i, UuidSet)
    case QueueLeaf(i) => At(s, i, Listed)
    case Stop(i) => i < |s.appends| && s.appends[i].running
  }

  function List(s: State, hash: string): seq<string>
  {
    if hash in s.lists then s.lists[hash] else []
  }

  function Step(s: State, l: Label): State
    requires Enabled(s, l)
  {
    match l
    case Begin(draft) =>
      s.(counter := s.counter + 1, appends := s.appends + [Append(draft.(logIndex := s.counter), Numbered, true)])
    case Sign(i, signature) =>
      var e := s.appends[i].entry.(serverSignature := signature);
      s.(appends := s.appends[i := Append(e, Signed, true)])
    case SetEntry(i) =>
      var e := s.appends[i].entry;
      s.(entries := s.entries[IndexText(e.logIndex) := e], appends := s.appends[i := Append(e, EntrySet, true)])
    case SetUuid(i) =>
      var e := s.appends[i].entry;
      s.(uuids := s.uuids[e.uuid := IndexText(e.logIndex)], appends := s.appends[i := Append(e, UuidSet, true)])
    case Push(i) =>
      var e := s.appends[i].entry;
      s.(lists := s.lists[e.artifactHash := [IndexText(e.logIndex)] + List(s, e.artifactHash)],
         appends := s.appends[i := Append(e, Listed, true)], pushLog := s.pushLog + [e])
    case QueueLeaf(i) =>
      var e := s.appends[i].entry;
      s.(leaves := s.leaves + [e], appends := s.appends[i := Append(e, LeafQueued, true)])
    case Stop(i) =>
      s.(appends := s.appends[i := s.appends[i].(running := false)])
  }

  ghost predicate Run(s: State, labels: seq<Label>, t: State)
    decreases |labels|
  {
    if labels == [] then s == t
    else Enabled(s, labels[0]) && Run(Step(s, labels[0]), labels[1..], t)
  }

  // ---------- The invariant ----------

  function Rank(s: State, i: nat): nat
    requires i < |s.appends|
  {
    s.appends[i].phase.Rank()
  }

  // Log indices number the appends; uuids differ; whatever is signed is signed as it stands.
  ghost predicate HistoryInv(s: State)
  {
    && |s.appends| == s.counter <= INT64_MAX
    && (forall i :: 0 <= i < s.counter ==> s.appends[i].entry.logIndex == i)
    && (forall i, j :: 0 <= i < j < s.counter ==> s.appends[i].entry.uuid != s.appends[j].entry.uuid)
    && (forall i :: 0 <= i < s.counter && Rank(s, i) >= 1 ==>
          s.attested(s.appends[i].entry))
  }

  // An entry key holds exactly the entry of the append with that index, once it has been set.
  ghost predicate EntriesInv(s: State)
    requires HistoryInv(s)
  {
    && (forall i :: 0 <= i < s.counter && Rank(s, i) >= 2 ==>
          IndexText(i) in s.entries && s.entries[IndexText(i)] == s.appends[i].entry)
    && (forall k :: k in s.entries ==>
          k == IndexText(s.entries[k].logIndex) && Reached(s, s.entries[k], 2))
  }

  ghost predicate UuidsInv(s: State)
    requires HistoryInv(s)
  {
    && (forall i :: 0 <= i < s.counter && Rank(s, i) >= 3 ==>
          s.appends[i].entry.uuid in s.uuids && s.uuids[s.appends[i].entry.uuid] == IndexText(i))
    && (forall u :: u in s.uuids ==>
          exists i :: 0 <= i < s.counter && Rank(s, i) >= 3 && s.appends[i].entry.uuid == u)
  }

  // The indices pushed for one artifact, last push first.
  function Pushed(pushLog: seq<Entry>, hash: string): seq<string>
  {
    if pushLog == [] then []
    else
      var e, before := pushLog[|pushLog| - 1], Pushed(pushLog[..|pushLog| - 1], hash);
      if e.artifactHash == hash then [IndexText(e.logIndex)] + before else before
  }

  ghost predicate ListsInv(s: State)
    requires HistoryInv(s)
  {
    && (forall h :: List(s, h) == Pushed(s.pushLog, h))
    && (forall i :: 0 <= i < s.counter && Rank(s, i) >= 4 ==> s.appends[i].entry in s.pushLog)
    && (forall j :: 0 <= j < |s.pushLog| ==> Reached(s, s.pushLog[j], 4))
    && (forall i, j :: 0 <= i < j < |s.pushLog| ==> s.pushLog[i].logIndex != s.pushLog[j].logIndex)
  }

  // e is the entry of an append that has come as far as `rank`.
  ghost predicate Reached(s: State, e: Entry, rank: nat)
    requires HistoryInv(s)
  {
    e.logIndex < s.counter && s.appends[e.logIndex].entry == e && Rank(s, e.logIndex) >= rank
  }

  // Exactly the appends that queued their leaf have one, each a single one.
  ghost predicate LeavesInv(s: State)
    requires HistoryInv(s)
  {
    && (forall j :: 0 <= j < |s.leaves| ==> Reached(s, s.leaves[j], 5))
    && (forall i :: 0 <= i < s.counter && Rank(s, i) >= 5 ==> s.appends[i].entry in s.leaves)
    && (forall i, j :: 0 <= i < j < |s.leaves| ==> s.leaves[i].logIndex != s.leaves[j].logIndex)
  }

  ghost predicate Inv(s: State)
  {
    HistoryInv(s) && EntriesInv(s) && UuidsInv(s) && ListsInv(s) && LeavesInv(s)
  }

  lemma IndexTextsDiffer(i: nat, j: nat)
    ensures IndexText(i) == IndexText(j) <==> i == j
  {
    if IndexText(i) == IndexText(j) {
      DecimalInjective(i, j);
    }
  }

  lemma InitInv(attested: Entry -> bool)
    ensures Inv(Init(attested))
  {
  }

  // The same appends have come as far as `rank` in both states, with the same entries.
  ghost predicate SameBeyond(s: State, t: State, rank: nat)
    requires HistoryInv(s) && HistoryInv(t)
  {
    && s.counter <= t.counter
    && forall i :: 0 <= i < t.counter ==>
         && (Rank(t, i) >= rank <==> i < s.counter && Rank(s, i) >= rank)
         && (Rank(t, i) >= rank ==> t.appends[i].entry == s.appends[i].entry)
  }

  // Moving one append on without touching its entry.
  lemma AdvanceKeepsHistory(s: State, t: State, i: nat)
    requires HistoryInv(s) && i < s.counter == t.counter == |t.appends| && t.attested == s.attested
    requires t.appends == s.appends[i := t.appends[i]] && t.appends[i].entry == s.appends[i].entry
    requires 1 <= Rank(s, i) <= Rank(t, i) <= Rank(s, i) + 1 || Rank(s, i) == Rank(t, i)
    ensures HistoryInv(t)
    ensures forall r :: r != Rank(s, i) + 1 || Rank(t, i) == Rank(s, i) ==> SameBeyond(s, t, r)
  {
  }

  lemma EntriesFrame(s: State, t: State)
    requires HistoryInv(s) && HistoryInv(t) && EntriesInv(s)
    requires SameBeyond(s, t, 2) && t.entries == s.entries
    ensures EntriesInv(t)
  {
    forall k | k in t.entries ensures k == IndexText(t.entries[k].logIndex) && Reached(t, t.entries[k], 2) {
      assert Reached(s, s.entries[k], 2);
    }
  }

  lemma UuidsFrame(s: State, t: State)
    requires HistoryInv(s) && HistoryInv(t) && UuidsInv(s)
    requires SameBeyond(s, t, 3) && t.uuids == s.uuids
    ensures UuidsInv(t)
  {
    forall u | u in t.uuids
      ensures exists i :: 0 <= i < t.counter && Rank(t, i) >= 3 && t.appends[i].entry.uuid == u
    {
      var i :| 0 <= i < s.counter && Rank(s, i) >= 3 && s.appends[i].entry.uuid == u;
      assert Rank(t, i) >= 3 && t.appends[i].entry.uuid == u;
    }
  }

  lemma ListsFrame(s: State, t: State)
    requires HistoryInv(s) && HistoryInv(t) && ListsInv(s)
    requires SameBeyond(s, t, 4) && t.lists == s.lists && t.pushLog == s.pushLog
    ensures ListsInv(t)
  {
    forall h ensures List(t, h) == Pushed(t.pushLog, h) {
      assert List(s, h) == Pushed(s.pushLog, h);
    }
    forall j | 0 <= j < |t.pushLog| ensures Reached(t, t.pushLog[j], 4) {
      assert Reached(s, s.pushLog[j], 4);
    }
  }

  lemma LeavesFrame(s: State, t: State)
    requires HistoryInv(s) && HistoryInv(t) && LeavesInv(s)
    requires SameBeyond(s, t, 5) && t.leaves == s.leaves
    ensures LeavesInv(t)
  {
    forall j | 0 <= j < |t.leaves| ensures Reached(t, t.leaves[j], 5) {
      assert Reached(s, s.leaves[j], 5);
    }
  }

  // A step writes what belongs to one rank; whatever belongs to another rank keeps its invariant.
  lemma OthersFrame(s: State, t: State, rank: nat)
    requires Inv(s) && HistoryInv(t) && forall r :: 2 <= r && r != rank ==> SameBeyond(s, t, r)
    requires if rank == 2 then EntriesInv(t) else t.entries == s.entries
    requires if rank == 3 then UuidsInv(t) else t.uuids == s.uuids
    requires if rank == 4 then ListsInv(t) else t.lists == s.lists && t.pushLog == s.pushLog
    requires if rank == 5 then LeavesInv(t) else t.leaves == s.leaves
    ensures Inv(t)
  {
    assert EntriesInv(t) by { if rank != 2 { EntriesFrame(s, t); } }
    assert UuidsInv(t) by { if rank != 3 { UuidsFrame(s, t); } }
    assert ListsInv(t) by { if rank != 4 { ListsFrame(s, t); } }
    assert LeavesInv(t) by { if rank != 5 { LeavesFrame(s, t); } }
  }

  lemma BeginKeepsHistory(s: State, draft: Entry)
    requires HistoryInv(s) && Enabled(s, Begin(draft))
    ensures var t := Step(s, Begin(draft));
            HistoryInv(t) && forall r :: r >= 1 ==> SameBeyond(s, t, r)
  {
  }

  lemma BeginKeepsInv(s: State, draft: Entry)
    requires Inv(s) && Enabled(s, Begin(draft))
    ensures Inv(Step(s, Begin(draft)))
  {
    BeginKeepsHistory(s, draft);
    OthersFrame(s, Step(s, Begin(draft)), 0);
  }

  lemma SignKeepsHistory(s: State, i: nat, signature: string)
    requires HistoryInv(s) && Enabled(s, Sign(i, signature))
    ensures var t := Step(s, Sign(i, signature));
            HistoryInv(t) && forall r :: r >= 2 ==> SameBeyond(s, t, r)
  {
  }

  lemma SignKeepsInv(s: State, i: nat, signature: string)
    requires Inv(s) && Enabled(s, Sign(i, signature))
    ensures Inv(Step(s, Sign(i, signature)))
  {
    SignKeepsHistory(s, i, signature);
    OthersFrame(s, Step(s, Sign(i, signature)), 1);
  }

  lemma SetEntryKeepsInv(s: State, i: nat)
    requires Inv(s) && Enabled(s, SetEntry(i))
    ensures Inv(Step(s, SetEntry(i)))
  {
    AdvanceKeepsHistory(s, Step(s, SetEntry(i)), i);
    SetEntryWrites(s, i);
    OthersFrame(s, Step(s, SetEntry(i)), 2);
  }

  lemma SetEntryWrites(s: State, i: nat)
    requires HistoryInv(s) && EntriesInv(s) && Enabled(s, SetEntry(i))
    requires HistoryInv(Step(s, SetEntry(i)))
    ensures EntriesInv(Step(s, SetEntry(i)))
  {
    var t := Step(s, SetEntry(i));
    forall j | 0 <= j < t.counter && Rank(t, j) >= 2
      ensures IndexText(j) in t.entries && t.entries[IndexText(j)] == t.appends[j].entry
    {
      IndexTextsDiffer(i, j);
    }
    forall k | k in t.entries ensures k == IndexText(t.entries[k].logIndex) && Reached(t, t.entries[k], 2) {
      if k != IndexText(i) {
        assert Reached(s, s.entries[k], 2);
      }
    }
  }

  lemma SetUuidKeepsInv(s: State, i: nat)
    requires Inv(s) && Enabled(s, SetUuid(i))
    ensures Inv(Step(s, SetUuid(i)))
  {
    AdvanceKeepsHistory(s, Step(s, SetUuid(i)), i);
    SetUuidWrites(s, i);
    OthersFrame(s, Step(s, SetUuid(i)), 3);
  }

  lemma SetUuidWrites(s: State, i: nat)
    requires HistoryInv(s) && UuidsInv(s) && Enabled(s, SetUuid(i))
    requires HistoryInv(Step(s, SetUuid(i)))
    ensures UuidsInv(Step(s, SetUuid(i)))
  {
    var t := Step(s, SetUuid(i));
    forall j | 0 <= j < t.counter && Rank(t, j) >= 3
      ensures t.appends[j].entry.uuid in t.uuids && t.uuids[t.appends[j].entry.uuid] == IndexText(j)
    {
      assert j != i ==> Rank(s, j) >= 3 && s.appends[j].entry.uuid != s.appends[i].entry.uuid;
    }
    forall u | u in t.uuids
      ensures exists j :: 0 <= j < t.counter && Rank(t, j) >= 3 && t.appends[j].entry.uuid == u
    {
      if u in s.uuids {
        var j :| 0 <= j < s.counter && Rank(s, j) >= 3 && s.appends[j].entry.uuid == u;
        assert Rank(t, j) >= 3 && t.appends[j].entry.uuid == u;
      } else {
        assert Rank(t, i) >= 3 && t.appends[i].entry.uuid == u;
      }
    }
  }

  lemma PushKeepsHistory(s: State, i: nat)
    requires HistoryInv(s) && Enabled(s, Push(i))
    ensures var t := Step(s, Push(i));
            && HistoryInv(t) && (forall r :: r != 4 ==> SameBeyond(s, t, r))
            && t.entries == s.entries && t.uuids == s.uuids && t.leaves == s.leaves
  {
    AdvanceKeepsHistory(s, Step(s, Push(i)), i);
  }

  lemma PushKeepsInv(s: State, i: nat)
    requires Inv(s) && Enabled(s, Push(i))
    ensures Inv(Step(s, Push(i)))
  {
    PushKeepsHistory(s, i);
    PushWrites(s, i);
    OthersFrame(s, Step(s, Push(i)), 4);
  }

  lemma PushWrites(s: State, i: nat)
    requires HistoryInv(s) && ListsInv(s) && Enabled(s, Push(i))
    requires HistoryInv(Step(s, Push(i)))
    ensures ListsInv(Step(s, Push(i)))
  {
    var t := Step(s, Push(i));
    var n := |s.pushLog|;
    assert t.pushLog[..n] == s.pushLog && t.pushLog[n] == t.appends[i].entry;
    forall h ensures List(t, h) == Pushed(t.pushLog, h) {
      assert List(s, h) == Pushed(s.pushLog, h);
    }
    forall k | 0 <= k < t.counter && Rank(t, k) >= 4 ensures t.appends[k].entry in t.pushLog {
      if k != i {
        assert s.appends[k].entry in s.pushLog;
      }
    }
    forall j | 0 <= j < n + 1 ensures Reached(t, t.pushLog[j], 4) && (j < n ==> t.pushLog[j].logIndex != i) {
      if j < n {
        assert Reached(s, s.pushLog[j], 4);
      }
    }
  }

  lemma QueueLeafKeepsInv(s: State, i: nat)
    requires Inv(s) && Enabled(s, QueueLeaf(i))
    ensures Inv(Step(s, QueueLeaf(i)))
  {
    AdvanceKeepsHistory(s, Step(s, QueueLeaf(i)), i);
    QueueLeafWrites(s, i);
    OthersFrame(s, Step(s, QueueLeaf(i)), 5);
  }

  lemma QueueLeafWrites(s: State, i: nat)
    requires HistoryInv(s) && LeavesInv(s) && Enabled(s, QueueLeaf(i))
    requires HistoryInv(Step(s, QueueLeaf(i)))
    ensures LeavesInv(Step(s, QueueLeaf(i)))
  {
    var t := Step(s, QueueLeaf(i));
    var n := |s.leaves|;
    forall k | 0 <= k < t.counter && Rank(t, k) >= 5 ensures t.appends[k].entry in t.leaves {
      if k == i {
        assert t.leaves[n] == t.appends[i].entry;
      } else {
        assert s.appends[k].entry in s.leaves;
      }
    }
    forall j | 0 <= j < n + 1 ensures Reached(t, t.leaves[j], 5) && (j < n ==> t.leaves[j].logIndex != i) {
      if j < n {
        assert Reached(s, s.leaves[j], 5);
      }
    }
  }

  lemma StopKeepsInv(s: State, i: nat)
    requires Inv(s) && Enabled(s, Stop(i))
    ensures Inv(Step(s, Stop(i)))
  {
    AdvanceKeepsHistory(s, Step(s, Stop(i)), i);
    OthersFrame(s, Step(s, Stop(i)), 0);
  }

  // Every step of every interleaving keeps the invariant.
  lemma StepKeepsInv(s: State, l: Label)
    requires Inv(s) && Enabled(s, l)
    ensures Inv(Step(s, l))
  {
    match l
    case Begin(draft) => BeginKeepsInv(s, draft);
    case Sign(i, signature) => SignKeepsInv(s, i, signature);
    case SetEntry(i) => SetEntryKeepsInv(s, i);
    case SetUuid(i) => SetUuidKeepsInv(s, i);
    case Push(i) => PushKeepsInv(s, i);
    case QueueLeaf(i) => QueueLeafKeepsInv(s, i);
    case Stop(i) => StopKeepsInv(s, i);
  }

  lemma {:induction false} RunKeepsInv(s: State, labels: seq<Label>, t: State)
    requires Inv(s) && Run(s, labels, t)
    ensures Inv(t)
    decreases |labels|
  {
    if labels != [] {
      StepKeepsInv(s, labels[0]);
      RunKeepsInv(Step(s, labels[0]), labels[1..], t);
    }
  }

  // Safety of every run of the store: any interleaving of appends, each stopped anywhere or not at all.
  lemma ReachableStatesAreSafe(attested: Entry -> bool, labels: seq<Label>, t: State)
    requires Run(Init(attested), labels, t)
    ensures Inv(t)
  {
    InitInv(attested);
    RunKeepsInv(Init(attested), labels, t);
  }

  // ---------- The log only grows ----------

  predicate IsSuffix(a: seq<string>, b: seq<string>)
  {
    |a| <= |b| && b[|b| - |a|..] == a
  }

  // Nothing written is ever overwritten or removed: entries and uuid keys keep their values, lists
  // grow at the front, leaves at the end.
  ghost predicate Grows(s: State, t: State)
  {
    && s.counter <= t.counter
    && (forall k :: k in s.entries ==> k in t.entries && t.entries[k] == s.entries[k])
    && (forall u :: u in s.uuids ==> u in t.uuids && t.uuids[u] == s.uuids[u])
    && (forall h :: IsSuffix(List(s, h), List(t, h)))
    && s.leaves <= t.leaves
  }

  lemma StepGrows(s: State, l: Label)
    requires Inv(s) && Enabled(s, l)
    ensures Grows(s, Step(s, l))
  {
    ListsGrow(s, l);
    if l.SetEntry? {
      EntryKeyIsNew(s, l.i);
    } else if l.SetUuid? {
      UuidKeyIsNew(s, l.i);
    }
  }

  lemma ListsGrow(s: State, l: Label)
    requires Enabled(s, l)
    ensures forall h :: IsSuffix(List(s, h), List(Step(s, l), h))
  {
    forall h ensures IsSuffix(List(s, h), List(Step(s, l), h)) {
      if l.Push? && h == s.appends[l.i].entry.artifactHash {
        var old', new' := List(s, h), List(Step(s, l), h);
        assert new' == [IndexText(s.appends[l.i].entry.logIndex)] + old';
      } else {
        assert List(Step(s, l), h) == List(s, h);
      }
    }
  }

  lemma EntryKeyIsNew(s: State, i: nat)
    requires Inv(s) && At(s, i, Signed)
    ensures IndexText(i) !in s.entries
  {
    if IndexText(i) in s.entries {
      var e := s.entries[IndexText(i)];
      assert Reached(s, e, 2);
      IndexTextsDiffer(i, e.logIndex);
    }
  }

  lemma UuidKeyIsNew(s: State, i: nat)
    requires Inv(s) && At(s, i, EntrySet)
    ensures s.appends[i].entry.uuid !in s.uuids
  {
  }

  lemma GrowsTransitive(s: State, t: State, u: State)
    requires Grows(s, t) && Grows(t, u)
    ensures Grows(s, u)
  {
    forall h ensures IsSuffix(List(s, h), List(u, h)) {
      assert IsSuffix(List(s, h), List(t, h)) && IsSuffix(List(t, h), List(u, h));
      var a, b, c := List(s, h), List(t, h), List(u, h);
      assert c[|c| - |a|..] == c[|c| - |b|..][|b| - |a|..];
    }
  }

  lemma {:induction false} RunGrows(s: State, labels: seq<Label>, t: State)
    requires Inv(s) && Run(s, labels, t)
    ensures Grows(s, t)
    decreases |labels|
  {
    if labels != [] {
      var m := Step(s, labels[0]);
      StepGrows(s, labels[0]);
      StepKeepsInv(s, labels[0]);
      RunGrows(m, labels[1..], t);
      GrowsTransitive(s, m, t);
    }
  }

  // ---------- Conservation of log indices ----------

  ghost function IndicesWhere(appends: seq<Append>, p: Append -> bool): set<nat>
  {
    set i | 0 <= i < |appends| && p(appends[i]) :: i
  }

  lemma {:induction false} CountThreeWays(a: seq<Append>, p: Append -> bool, q: Append -> bool, r: Append -> bool)
    requires forall x :: (p(x) && !q(x) && !r(x)) || (!p(x) && q(x) && !r(x)) || (!p(x) && !q(x) && r(x))
    ensures |IndicesWhere(a, p)| + |IndicesWhere(a, q)| + |IndicesWhere(a, r)| == |a|
  {
    if a != [] {
      var n := |a| - 1;
      CountThreeWays(a[..n], p, q, r);
      IndicesOfLast(a, p);
      IndicesOfLast(a, q);
      IndicesOfLast(a, r);
    }
  }

  lemma IndicesOfLast(a: seq<Append>, p: Append -> bool)
    requires a != []
    ensures |IndicesWhere(a, p)| == |IndicesWhere(a[..|a| - 1], p)| + if p(a[|a| - 1]) then 1 else 0
  {
    var n := |a| - 1;
    assert IndicesWhere(a, p) == IndicesWhere(a[..n], p) + if p(a[n]) then {n} else {};
  }

  function IsStored(): Append -> bool { (a: Append) => a.phase.Rank() >= 2 }
  function IsUnwritten(): Append -> bool { (a: Append) => a.phase.Rank() < 2 && a.running }
  function IsLost(): Append -> bool { (a: Append) => a.phase.Rank() < 2 && !a.running }

  // Every index handed out is stored, about to be stored by a running append, or lost to one that
  // stopped before its first write.
  lemma IndicesAreConserved(s: State)
    requires Inv(s)
    ensures s.counter
         == |s.entries| + |IndicesWhere(s.appends, IsUnwritten())| + |IndicesWhere(s.appends, IsLost())|
  {
    CountThreeWays(s.appends, IsStored(), IsUnwritten(), IsLost());
    StoredKeys(s);
    CountTexts(IndicesWhere(s.appends, IsStored()));
  }

  lemma StoredKeys(s: State)
    requires HistoryInv(s) && EntriesInv(s)
    ensures s.entries.Keys == set i | i in IndicesWhere(s.appends, IsStored()) :: IndexText(i)
  {
    var stored := IndicesWhere(s.appends, IsStored());
    forall k ensures k in s.entries.Keys <==> k in set i | i in stored :: IndexText(i) {
      if k in s.entries {
        assert Reached(s, s.entries[k], 2);
        assert s.entries[k].logIndex in stored;
      }
    }
  }

  lemma {:induction false} CountTexts(indices: set<nat>)
    ensures |set i | i in indices :: IndexText(i)| == |indices|
  {
    if indices != {} {
      var x :| x in indices;
      CountTexts(indices - {x});
      var rest := set i | i in indices - {x} :: IndexText(i);
      assert (set i | i in indices :: IndexText(i)) == rest + {IndexText(x)};
      forall i | i in indices - {x} ensures IndexText(i) != IndexText(x) {
        IndexTextsDiffer(i, x);
      }
    }
  }

  // ---------- Readers ----------

  function GetByIndex(s: State, n: int): Option<Entry>
  {
    if n >= 0 && IndexText(n) in s.entries then Some(s.entries[IndexText(n)]) else None
  }

  datatype Lookup = Missing | Failed | Found(e: Entry)

  // GET uuid:<uuid> in one state, GET entry:<index> in a later one. In the store's own states the
  // second read never fails: it finds the entry with that uuid.
  method GetByUUID(first: State, later: State, uuid: string) returns (r: Lookup)
    ensures r == Missing <==> uuid !in first.uuids
    ensures r.Found? ==> exists n :: ParseInt64(first.uuids[uuid]) == Some(n) && GetByIndex(later, n) == Some(r.e)
    ensures Inv(first) && Grows(first, later) ==> r != Failed
    ensures Inv(first) && Grows(first, later) && r.Found? ==>
      r.e.uuid == uuid && first.uuids[uuid] == IndexText(r.e.logIndex) && GetByIndex(first, r.e.logIndex) == Some(r.e)
  {
    if uuid !in first.uuids {
      return Missing;
    }
    if Inv(first) && Grows(first, later) {
      UuidLeadsToEntry(first, later, uuid);
    }
    var n := ParseInt64(first.uuids[uuid]);
    if n.None? {
      return Failed;
    }
    var e := GetByIndex(later, n.value);
    if e.None? {
      return Failed;
    }
    r := Found(e.value);
  }

  ghost predicate LeadsTo(first: State, later: State, uuid: string, i: nat)
    requires uuid in first.uuids
  {
    var e := GetByIndex(later, i);
    && ParseInt64(first.uuids[uuid]) == Some(i) && first.uuids[uuid] == IndexText(i)
    && GetByIndex(first, i) == e && e.Some? && e.value.uuid == uuid && e.value.logIndex == i
  }

  // A uuid key keeps leading to its entry.
  lemma UuidLeadsToEntry(first: State, later: State, uuid: string)
    requires Inv(first) && Grows(first, later) && uuid in first.uuids
    ensures exists i: nat :: LeadsTo(first, later, uuid, i)
  {
    var i :| 0 <= i < first.counter && Rank(first, i) >= 3 && first.appends[i].entry.uuid == uuid;
    ParseDecimal(i);
    assert LeadsTo(first, later, uuid, i);
  }

  // The entries pushed for an artifact, in push order.
  function PushesFor(pushLog: seq<Entry>, hash: string): seq<Entry>
  {
    if pushLog == [] then []
    else
      var e, before := pushLog[|pushLog| - 1], PushesFor(pushLog[..|pushLog| - 1], hash);
      if e.artifactHash == hash then before + [e] else before
  }

  lemma {:induction false} ReverseAppend<T>(s: seq<T>, x: T)
    ensures Reverse(s + [x]) == [x] + Reverse(s)
  {
    forall i | 0 <= i < |s| + 1 ensures Reverse(s + [x])[i] == ([x] + Reverse(s))[i] {
    }
  }

  lemma {:induction false} PushedIsReversed(pushLog: seq<Entry>, hash: string)
    ensures var r := Reverse(PushesFor(pushLog, hash));
            && |Pushed(pushLog, hash)| == |r|
            && forall j :: 0 <= j < |r| ==>
                 Pushed(pushLog, hash)[j] == IndexText(r[j].logIndex) && r[j] in pushLog && r[j].artifactHash == hash
  {
    if pushLog != [] {
      var n := |pushLog| - 1;
      PushedIsReversed(pushLog[..n], hash);
      if pushLog[n].artifactHash == hash {
        ReverseAppend(PushesFor(pushLog[..n], hash), pushLog[n]);
      }
    }
  }

  // Each list element leads to its entry, which is about the list's artifact.
  lemma ListLeadsToEntries(s: State, hash: string)
    requires Inv(s)
    ensures var r := Reverse(PushesFor(s.pushLog, hash));
            && |List(s, hash)| == |r|
            && forall j :: 0 <= j < |r| ==>
                 && List(s, hash)[j] == IndexText(r[j].logIndex)
                 && r[j].logIndex < s.counter
                 && GetByIndex(s, r[j].logIndex) == Some(r[j]) && r[j].artifactHash == hash
  {
    PushedIsReversed(s.pushLog, hash);
    var r := Reverse(PushesFor(s.pushLog, hash));
    assert List(s, hash) == Pushed(s.pushLog, hash);
    forall j | 0 <= j < |r| ensures r[j].logIndex < s.counter && GetByIndex(s, r[j].logIndex) == Some(r[j]) {
      var k :| 0 <= k < |s.pushLog| && s.pushLog[k] == r[j];
      assert Reached(s, s.pushLog[k], 4);
    }
  }

  // An index read from a list keeps leading to its entry.
  lemma ReadsStayGood(s: State, t: State, hash: string, j: nat)
    requires Inv(s) && Grows(s, t) && j < |List(s, hash)|
    ensures var r := Reverse(PushesFor(s.pushLog, hash));
            && |r| == |List(s, hash)|
            && ParseInt64(List(s, hash)[j]) == Some(r[j].logIndex)
            && GetByIndex(t, r[j].logIndex) == Some(r[j])
  {
    ListLeadsToEntries(s, hash);
    ParseDecimal(Reverse(PushesFor(s.pushLog, hash))[j].logIndex);
  }

  // What the loop over the listed indices keeps: it skips whatever does not parse or is not there.
  function Readable(indices: seq<string>, later: seq<State>): seq<Entry>
    requires |later| == |indices|
  {
    if indices == [] then []
    else
      var n := |indices| - 1;
      var i := ParseInt64(indices[n]);
      Readable(indices[..n], later[..n])
      + if i.Some? && GetByIndex(later[n], i.value).Some? then [GetByIndex(later[n], i.value).value] else []
  }

  method ReadEntries(indices: seq<string>, later: seq<State>) returns (entries: seq<Entry>)
    requires |later| == |indices|
    ensures entries == Readable(indices, later)
  {
    entries := [];
    for j := 0 to |indices|
      invariant entries == Readable(indices[..j], later[..j])
    {
      assert indices[..j + 1][..j] == indices[..j] && later[..j + 1][..j] == later[..j];
      var n := ParseInt64(indices[j]);
      if n.None? {
        continue;
      }
      var e := GetByIndex(later[j], n.value);
      if e.None? {
        continue;
      }
      entries := entries + [e.value];
    }
    assert indices[..|indices|] == indices && later[..|later|] == later;
  }

  // Each index is a numeral that leads to the expected entry in the state in which it is looked up.
  ghost predicate LeadTo(indices: seq<string>, later: seq<State>, expected: seq<Entry>)
  {
    |indices| == |later| == |expected| && forall j :: 0 <= j < |indices| ==>
      ParseInt64(indices[j]) == Some(expected[j].logIndex)
      && GetByIndex(later[j], expected[j].logIndex) == Some(expected[j])
  }

  lemma {:induction false} NothingSkipped(indices: seq<string>, later: seq<State>, expected: seq<Entry>)
    requires LeadTo(indices, later, expected)
    ensures Readable(indices, later) == expected
  {
    if indices != [] {
      var n := |indices| - 1;
      NothingSkipped(indices[..n], later[..n], expected[..n]);
      assert expected == expected[..n] + [expected[n]];
    }
  }

  // The states in which the entries of a list read in `now` are looked up come later.
  ghost predicate ReadLater(now: State, later: seq<State>)
  {
    Inv(now) && forall k :: 0 <= k < |later| ==> Grows(now, later[k])
  }

  lemma ListIsReadable(now: State, later: seq<State>, hash: string)
    requires ReadLater(now, later) && |later| == |List(now, hash)|
    ensures Readable(List(now, hash), later) == Reverse(PushesFor(now.pushLog, hash))
  {
    var expected := Reverse(PushesFor(now.pushLog, hash));
    ListLeadsToEntries(now, hash);
    forall j | 0 <= j < |later|
      ensures ParseInt64(List(now, hash)[j]) == Some(expected[j].logIndex)
      ensures GetByIndex(later[j], expected[j].logIndex) == Some(expected[j])
    {
      ReadsStayGood(now, later[j], hash, j);
    }
    NothingSkipped(List(now, hash), later, expected);
  }

  // LRANGE in one state, then one GET per index, each in another state. In the store's own states
  // the reader gets the artifact's entries exactly as pushed, newest first, skipping none, whatever
  // runs in between.
  method GetByHash(now: State, later: seq<State>, hash: string) returns (entries: seq<Entry>)
    requires |later| == |List(now, hash)|
    ensures entries == Readable(List(now, hash), later)
    ensures ReadLater(now, later) ==> entries == Reverse(PushesFor(now.pushLog, hash))
  {
    entries := ReadEntries(List(now, hash), later);
    if ReadLater(now, later) {
      ListIsReadable(now, later, hash);
    }
  }

  // How far an append is visible to readers: by index from its first command, by uuid from its
  // second, by artifact from its third, and in the tree only after that. A reader that finds an
  // entry by artifact can therefore always find it by uuid, while an append stopped between two
  // commands stays half visible for good (StoppedForGood).
  lemma VisibilityIff(s: State, i: nat)
    requires Inv(s) && i < s.counter
    ensures GetByIndex(s, i).Some? <==> Rank(s, i) >= 2
    ensures s.appends[i].entry.uuid in s.uuids <==> Rank(s, i) >= 3
    ensures IndexText(i) in List(s, s.appends[i].entry.artifactHash) <==> Rank(s, i) >= 4
    ensures s.appends[i].entry in s.leaves <==> Rank(s, i) >= 5
  {
    VisibleInRedis(s, i);
    VisibleInList(s, i);
    VisibleInTree(s, i);
  }

  lemma VisibleInRedis(s: State, i: nat)
    requires HistoryInv(s) && EntriesInv(s) && UuidsInv(s) && i < s.counter
    ensures GetByIndex(s, i).Some? <==> Rank(s, i) >= 2
    ensures s.appends[i].entry.uuid in s.uuids <==> Rank(s, i) >= 3
  {
    if IndexText(i) in s.entries {
      assert Reached(s, s.entries[IndexText(i)], 2);
      IndexTextsDiffer(i, s.entries[IndexText(i)].logIndex);
    }
    var uuid := s.appends[i].entry.uuid;
    if uuid in s.uuids {
      var j :| 0 <= j < s.counter && Rank(s, j) >= 3 && s.appends[j].entry.uuid == uuid;
      assert j == i;
    }
  }

  lemma VisibleInList(s: State, i: nat)
    requires Inv(s) && i < s.counter
    ensures IndexText(i) in List(s, s.appends[i].entry.artifactHash) <==> Rank(s, i) >= 4
  {
    var e := s.appends[i].entry;
    ListLeadsToEntries(s, e.artifactHash);
    if IndexText(i) in List(s, e.artifactHash) {
      var j :| 0 <= j < |List(s, e.artifactHash)| && List(s, e.artifactHash)[j] == IndexText(i);
      PushedEntryIsReached(s, e.artifactHash, j);
      IndexTextsDiffer(i, Reverse(PushesFor(s.pushLog, e.artifactHash))[j].logIndex);
    }
    if Rank(s, i) >= 4 {
      PushedForIts(s.pushLog, e);
    }
  }

  lemma VisibleInTree(s: State, i: nat)
    requires HistoryInv(s) && LeavesInv(s) && i < s.counter
    ensures s.appends[i].entry in s.leaves <==> Rank(s, i) >= 5
  {
    var e := s.appends[i].entry;
    if e in s.leaves {
      var j :| 0 <= j < |s.leaves| && s.leaves[j] == e;
      assert Reached(s, s.leaves[j], 5);
    }
  }

  // An append that has stopped stays as far as it came, whatever else runs.
  lemma {:induction false} StoppedForGood(s: State, labels: seq<Label>, t: State, i: nat)
    requires i < |s.appends| && !s.appends[i].running
    ensures Run(s, labels, t) ==> i < |t.appends| && t.appends[i] == s.appends[i]
    decreases |labels|
  {
    if labels != [] && Enabled(s, labels[0]) {
      StoppedForGood(Step(s, labels[0]), labels[1..], t, i);
    }
  }

  // The first append, stopped between its first two commands.
  function HalfStored(attested: Entry -> bool, e: Entry): State
  {
    State(1, map[IndexText(0) := e], map[], map[], [], [Append(e, EntrySet, false)], [], attested)
  }

  // Such a run leaves an entry that is found by index but neither by uuid nor by artifact.
  lemma StoppedHalfway(attested: Entry -> bool, e: Entry)
    requires attested(e) && e.logIndex == 0
    ensures var t := HalfStored(attested, e);
            && Run(Init(attested), [Begin(e), Sign(0, e.serverSignature), SetEntry(0), Stop(0)], t)
            && GetByIndex(t, 0) == Some(e) && e.uuid !in t.uuids && List(t, e.artifactHash) == []
  {
    var numbered := State(1, map[], map[], map[], [], [Append(e, Numbered, true)], [], attested);
    var signed := State(1, map[], map[], map[], [], [Append(e, Signed, true)], [], attested);
    var written := State(1, map[IndexText(0) := e], map[], map[], [], [Append(e, EntrySet, true)], [], attested);
    assert Step(Init(attested), Begin(e)) == numbered;
    assert Step(numbered, Sign(0, e.serverSignature)) == signed;
    assert Step(signed, SetEntry(0)) == written;
    assert Step(written, Stop(0)) == HalfStored(attested, e);
    var sign := Sign(0, e.serverSignature);
    assert Run(Init(attested), [], Init(attested)) && [] + [Begin(e)] == [Begin(e)];
    RunThen(Init(attested), [], Init(attested), Begin(e));
    RunThen(Init(attested), [Begin(e)], numbered, sign);
    RunThen(Init(attested), [Begin(e)] + [sign], signed, SetEntry(0));
    RunThen(Init(attested), [Begin(e)] + [sign] + [SetEntry(0)], written, Stop(0));
    assert [Begin(e)] + [sign] + [SetEntry(0)] + [Stop(0)] == [Begin(e), sign, SetEntry(0), Stop(0)];
  }

  lemma PushedEntryIsReached(s: State, hash: string, j: nat)
    requires Inv(s) && j < |List(s, hash)| == |PushesFor(s.pushLog, hash)|
    ensures Reached(s, Reverse(PushesFor(s.pushLog, hash))[j], 4)
  {
    PushedIsReversed(s.pushLog, hash);
    var k :| 0 <= k < |s.pushLog| && s.pushLog[k] == Reverse(PushesFor(s.pushLog, hash))[j];
    assert Reached(s, s.pushLog[k], 4);
  }

  lemma {:induction false} PushedForIts(pushLog: seq<Entry>, e: Entry)
    requires e in pushLog
    ensures IndexText(e.logIndex) in Pushed(pushLog, e.artifactHash)
  {
    var n := |pushLog| - 1;
    if pushLog[n] != e {
      PushedForIts(pushLog[..n], e);
    }
  }

  // ---------- Append itself ----------

  // What becomes of one call: the increment may fail before or after it took effect, signing may
  // fail, and the pipeline may stop after any number of its commands.
  datatype Fate =
    | IncrementFails(applied: bool)
    | SigningFails
    | PipelineFails(signature: string, commands: nat)
    | Succeeds(signature: string)

  // The machine steps one uninterrupted call takes.
  function StepsOf(i: nat, draft: Entry, fate: Fate): seq<Label>
  {
    match fate
    case IncrementFails(applied) => if applied then [Begin(draft), Stop(i)] else []
    case SigningFails => [Begin(draft), Stop(i)]
    case PipelineFails(signature, commands) =>
      [Begin(draft), Sign(i, signature)] + [SetEntry(i), SetUuid(i), Push(i)][..if commands < 3 then commands else 3]
      + [Stop(i)]
    case Succeeds(signature) => [Begin(draft), Sign(i, signature), SetEntry(i), SetUuid(i), Push(i)]
  }

  // One call's steps, put together from the ones it takes one after another.
  lemma StepsAddUp(i: nat, draft: Entry, fate: Fate)
    ensures (fate.IncrementFails? && fate.applied) || fate.SigningFails? ==>
      StepsOf(i, draft, fate) == [Begin(draft)] + [Stop(i)]
    ensures fate.PipelineFails? ==>
      var commands := if fate.commands < 3 then fate.commands else 3;
      StepsOf(i, draft, fate)
      == [Begin(draft)] + [Sign(i, fate.signature)] + [SetEntry(i), SetUuid(i), Push(i)][..commands] + [Stop(i)]
    ensures fate.Succeeds? ==>
      StepsOf(i, draft, fate)
      == [Begin(draft)] + [Sign(i, fate.signature)] + [SetEntry(i), SetUuid(i), Push(i)][..3]
  {
  }

  lemma {:induction false} RunConcat(s: State, a: seq<Label>, t: State, b: seq<Label>, u: State)
    requires Run(s, a, t) && Run(t, b, u)
    ensures Run(s, a + b, u)
    decreases |a|
  {
    if a == [] {
      assert a + b == b;
    } else {
      assert (a + b)[1..] == a[1..] + b;
      RunConcat(Step(s, a[0]), a[1..], t, b, u);
    }
  }

  lemma RunThen(s: State, a: seq<Label>, t: State, l: Label)
    requires Run(s, a, t) && Enabled(t, l)
    ensures Run(s, a + [l], Step(t, l))
  {
    assert [l][1..] == [];
    assert Run(Step(t, l), [], Step(t, l));
    assert Run(t, [l], Step(t, l));
    RunConcat(s, a, t, [l], Step(t, l));
  }

  class Store {
    var st: State

    constructor (attested: Entry -> bool)
      ensures st == Init(attested) && Inv(st)
    {
      st := Init(attested);
      new;
      InitInv(attested);
    }

    // One machine step, as the effect of a single command.
    method Do(l: Label, ghost start: State, ghost done: seq<Label>)
      requires Enabled(st, l) && Run(start, done, st)
      modifies this
      ensures st == Step(old(st), l) && Run(start, done + [l], st)
    {
      RunThen(start, done, st, l);
      st := Step(st, l);
    }

    // The Redis pipeline: entry, uuid, list, in this order, cut short after some commands.
    method Pipeline(i: nat, commands: nat, ghost start: State, ghost done: seq<Label>)
      requires At(st, i, Signed) && Run(start, done, st)
      modifies this
      ensures var e := old(st).appends[i].entry;
              && |st.appends| == |old(st).appends| && st.appends[i].entry == e && st.appends[i].running
              && (commands < 3 || (
                    && GetByIndex(st, e.logIndex) == Some(e) && e.uuid in st.uuids
                    && List(st, e.artifactHash) == [IndexText(e.logIndex)] + List(old(st), e.artifactHash)))
      ensures Run(start, done + [SetEntry(i), SetUuid(i), Push(i)][..if commands < 3 then commands else 3], st)
    {
      ghost var all := [SetEntry(i), SetUuid(i), Push(i)];
      if commands == 0 {
        assert done + all[..0] == done;
        return;
      }
      Do(SetEntry(i), start, done);
      if commands == 1 {
        assert done + all[..1] == done + [SetEntry(i)];
        return;
      }
      Do(SetUuid(i), start, done + [SetEntry(i)]);
      if commands == 2 {
        assert done + all[..2] == done + [SetEntry(i)] + [SetUuid(i)];
        return;
      }
      Do(Push(i), start, done + [SetEntry(i)] + [SetUuid(i)]);
      assert done + all[..3] == done + [SetEntry(i)] + [SetUuid(i)] + [Push(i)];
    }

    // INCR and gpgSign. A failed call is left running for the caller to give up.
    method Number(draft: Entry) returns (i: nat, e: Entry)
      requires st.counter == |st.appends| && Enabled(st, Begin(draft))
      modifies this
      ensures i == old(st).counter && e == draft.(logIndex := i)
      ensures st == Step(old(st), Begin(draft)) && Run(old(st), [Begin(draft)], st)
    {
      i := st.counter;
      e := draft.(logIndex := i);
      assert Run(st, [], st);
      assert [] + [Begin(draft)] == [Begin(draft)];
      Do(Begin(draft), st, []);
    }

    // Store.Append without interference: however it ends, it is a run of the machine, and when it
    // succeeds the returned entry is the stored one, visible by index, uuid and artifact.
    method Append(draft: Entry, fate: Fate) returns (ok: bool, e: Entry)
      requires Inv(st)
      requires forall i :: 0 <= i < |st.appends| ==> st.appends[i].entry.uuid != draft.uuid
      requires st.counter == INT64_MAX ==> fate == IncrementFails(false)
      requires fate.PipelineFails? || fate.Succeeds? ==>
        st.attested(draft.(logIndex := st.counter, serverSignature := fate.signature))
      modifies this
      ensures Inv(st) && Run(old(st), StepsOf(old(st).counter, draft, fate), st)
      ensures ok <==> fate.Succeeds?
      ensures ok ==> e == draft.(logIndex := old(st).counter, serverSignature := fate.signature)
      ensures ok ==> GetByIndex(st, e.logIndex) == Some(e) && e.uuid in st.uuids
                     && List(st, e.artifactHash) == [IndexText(e.logIndex)] + old(List(st, e.artifactHash))
    {
      ghost var start := st;
      e := draft;
      if fate.IncrementFails? && !fate.applied {
        return false, e;
      }
      var i;
      i, e := Number(draft);
      StepsAddUp(i, draft, fate);
      if fate.IncrementFails? || fate.SigningFails? {
        Do(Stop(i), start, [Begin(draft)]);
        ok := false;
      } else {
        Do(Sign(i, fate.signature), start, [Begin(draft)]);
        e := e.(serverSignature := fate.signature);
        ghost var signed := [Begin(draft)] + [Sign(i, fate.signature)];
        Pipeline(i, if fate.PipelineFails? then fate.commands else 3, start, signed);
        ok := fate.Succeeds?;
        if !ok {
          ghost var commands := if fate.commands < 3 then fate.commands else 3;
          Do(Stop(i), start, signed + [SetEntry(i), SetUuid(i), Push(i)][..commands]);
        }
      }
      RunKeepsInv(start, StepsOf(i, draft, fate), st);
    }
  }
}
