// The attestation dialog: it signs the difference between the verdicts it loaded and the verdicts
// the user chose, one log entry per changed category. What the log then says about the key is
// worked out from the log's own order and the latest-claim rule.
module DialogDiff {
  import opened Text
  import opened LogEntries
  import opened Claims

  type Selection = map<string, Option<string>>

  datatype Action = Action(category: string, verdict: string)

  predicate Complete(s: Selection) { forall c :: c in CATEGORIES ==> c in s }

  // The verdicts a form can express: never a revocation.
  predicate Selectable(s: Selection)
  {
    Complete(s) && forall c :: c in CATEGORIES ==> s[c] != Some(REVOKE)
  }

  // ---------- The diff ----------

  function ActionFor(category: string, after: Option<string>): Action
  {
    Action(category, if after.Some? then after.value else REVOKE)
  }

  function DiffOver(categories: seq<string>, before: Selection, after: Selection): seq<Action>
    requires forall c :: c in categories ==> c in before && c in after
  {
    if categories == [] then []
    else
      var n := |categories| - 1;
      var c := categories[n];
      DiffOver(categories[..n], before, after) + if before[c] == after[c] then [] else [ActionFor(c, after[c])]
  }

  function Diff(before: Selection, after: Selection): seq<Action>
    requires Complete(before) && Complete(after)
  {
    DiffOver(CATEGORIES, before, after)
  }

  method ComputeActions(before: Selection, after: Selection) returns (actions: seq<Action>)
    requires Complete(before) && Complete(after)
    ensures actions == Diff(before, after)
  {
    actions := [];
    for k := 0 to |CATEGORIES|
      invariant actions == DiffOver(CATEGORIES[..k], before, after)
    {
      var cat := CATEGORIES[k];
      assert CATEGORIES[..k + 1][..k] == CATEGORIES[..k];
      if before[cat] == after[cat] {
        continue;
      }
      if after[cat] != None {
        actions := actions + [Action(cat, after[cat].value)];
      } else {
        actions := actions + [Action(cat, REVOKE)];
      }
    }
    assert CATEGORIES[..|CATEGORIES|] == CATEGORIES;
  }

  // The number of requests before the first that fails.
  function Succeeding(succeeds: seq<bool>): (k: nat)
    ensures k <= |succeeds| && (k < |succeeds| ==> !succeeds[k])
    ensures forall j :: 0 <= j < k ==> succeeds[j]
  {
    if succeeds == [] || !succeeds[0] then 0 else 1 + Succeeding(succeeds[1..])
  }

  // The sign button: one request per action until one fails. succeeds[i] says how request i ends;
  // a failed request may still have reached the log. What the log has after the click is what came
  // before the first failure, and that request's action exactly when it got through.
  method SignClick(before: Selection, after: Selection, succeeds: seq<bool>, failureLogged: bool)
    returns (logged: seq<Action>, done: bool)
    requires Complete(before) && Complete(after) && |succeeds| == |Diff(before, after)|
    ensures done <==> Succeeding(succeeds) == |succeeds|
    ensures done ==> logged == Diff(before, after)
    ensures !done ==> logged == Diff(before, after)[..Succeeding(succeeds) + if failureLogged then 1 else 0]
    ensures logged == LoggedBy(before, Attempt(after, |logged|))
    ensures done ==> Finishes(before, Attempt(after, |logged|))
  {
    var actions := ComputeActions(before, after);
    logged := [];
    for i := 0 to |actions|
      invariant logged == actions[..i]
      invariant forall j :: 0 <= j < i ==> succeeds[j]
    {
      if !succeeds[i] {
        assert Succeeding(succeeds) == i;
        if failureLogged {
          logged := logged + [actions[i]];
        }
        return logged, false;
      }
      logged := logged + [actions[i]];
    }
    done := true;
  }

  // ---------- What the log says afterwards ----------

  // The verdict of the last action in a category.
  function LastFor(actions: seq<Action>, category: string): Option<string>
  {
    if actions == [] then None
    else if actions[|actions| - 1].category == category then Some(actions[|actions| - 1].verdict)
    else LastFor(actions[..|actions| - 1], category)
  }

  // The actions a key's pushes carry, in push order; other keys' pushes may come in between.
  function ActionsIn(pushed: seq<Entry>, key: string): seq<Action>
  {
    if pushed == [] then []
    else
      var e := pushed[|pushed| - 1];
      ActionsIn(pushed[..|pushed| - 1], key) + if e.signerKeyID == key then [Action(e.category, e.verdict)] else []
  }

  // The key's pushes are stamped in order, and no earlier than its older entries.
  ghost predicate StampedInOrder(earlier: seq<Entry>, pushed: seq<Entry>, key: string)
  {
    && (forall i, j :: 0 <= i < j < |pushed| && pushed[i].signerKeyID == key && pushed[j].signerKeyID == key ==>
          !LexLess(pushed[j].serverTimestamp, pushed[i].serverTimestamp))
    && (forall i, j :: 0 <= i < |earlier| && 0 <= j < |pushed|
                       && earlier[i].signerKeyID == key && pushed[j].signerKeyID == key ==>
          !LexLess(pushed[j].serverTimestamp, earlier[i].serverTimestamp))
  }

  // The log lists the newest push first.
  function Listing(earlier: seq<Entry>, pushed: seq<Entry>): seq<Entry>
  {
    Reverse(pushed) + earlier
  }

  // A claim put in front of a list that holds no later one is the latest; any other entry changes nothing.
  lemma FrontClaim(e: Entry, list: seq<Entry>, p: Entry -> bool)
    requires p(e) && forall j :: 0 <= j < |list| && p(list[j]) ==> !LexLess(e.serverTimestamp, list[j].serverTimestamp)
    ensures Kept([e] + list, p) == Some(e)
  {
    assert IsNewest([e] + list, p, 0);
    LatestIffNewest([e] + list, p, 0);
  }

  lemma FrontOther(e: Entry, list: seq<Entry>, p: Entry -> bool)
    requires !p(e)
    ensures Kept([e] + list, p) == Kept(list, p)
  {
    LatestIsNewest(list, p);
    var all := [e] + list;
    if Latest(list, p).Some? {
      var i := Latest(list, p).value;
      forall j | 0 <= j < i + 1 && p(all[j]) ensures LexLess(all[j].serverTimestamp, all[i + 1].serverTimestamp) {
        assert all[j] == list[j - 1];
      }
      forall j | i + 1 < j < |all| && p(all[j]) ensures !LexLess(all[i + 1].serverTimestamp, all[j].serverTimestamp) {
        assert all[j] == list[j - 1];
      }
      LatestIffNewest(all, p, i + 1);
    } else {
      assert forall i :: 0 < i < |all| ==> all[i] == list[i - 1];
      LatestIsNewest(all, p);
    }
  }

  // After any pushes the key's verdict is that of its last action, and the old one where it took none.
  lemma {:induction false} VerdictAfterPushes(earlier: seq<Entry>, pushed: seq<Entry>, key: string, c: string)
    requires StampedInOrder(earlier, pushed, key) && c != ""
    ensures CurrentVerdict(Listing(earlier, pushed), key, c) ==
      match LastFor(ActionsIn(pushed, key), c)
      case None => CurrentVerdict(earlier, key, c)
      case Some(v) => if v == REVOKE then None else Some(v)
  {
    if pushed == [] {
      assert Listing(earlier, pushed) == earlier;
    } else {
      var n := |pushed| - 1;
      var e, list, p := pushed[n], Listing(earlier, pushed[..n]), ClaimOf(key, c);
      VerdictAfterPushes(earlier, pushed[..n], key, c);
      ListingStep(earlier, pushed);
      if p(e) {
        NothingLater(earlier, pushed, key, c);
        FrontClaim(e, list, p);
      } else {
        FrontOther(e, list, p);
      }
      if e.signerKeyID == key {
        LastForSnoc(ActionsIn(pushed[..n], key), Action(e.category, e.verdict), c);
      } else {
        assert ActionsIn(pushed, key) == ActionsIn(pushed[..n], key);
      }
    }
  }

  lemma ListingStep(earlier: seq<Entry>, pushed: seq<Entry>)
    requires pushed != []
    ensures Listing(earlier, pushed) == [pushed[|pushed| - 1]] + Listing(earlier, pushed[..|pushed| - 1])
  {
    var n := |pushed| - 1;
    assert Reverse(pushed) == [pushed[n]] + Reverse(pushed[..n]);
  }

  lemma NothingLater(earlier: seq<Entry>, pushed: seq<Entry>, key: string, c: string)
    requires StampedInOrder(earlier, pushed, key) && pushed != [] && ClaimOf(key, c)(pushed[|pushed| - 1])
    ensures var e, list := pushed[|pushed| - 1], Listing(earlier, pushed[..|pushed| - 1]);
            forall j :: 0 <= j < |list| && ClaimOf(key, c)(list[j]) ==>
              !LexLess(e.serverTimestamp, list[j].serverTimestamp)
  {
    var n := |pushed| - 1;
    var list := Listing(earlier, pushed[..n]);
    forall j | 0 <= j < |list| && ClaimOf(key, c)(list[j])
      ensures !LexLess(pushed[n].serverTimestamp, list[j].serverTimestamp)
    {
      if j < n {
        assert list[j] == pushed[n - 1 - j];
      } else {
        assert list[j] == earlier[j - n];
      }
    }
  }

  // ---------- Convergence ----------

  lemma {:induction false} LastForConcat(a: seq<Action>, b: seq<Action>, c: string)
    ensures LastFor(a + b, c) == if LastFor(b, c).Some? then LastFor(b, c) else LastFor(a, c)
  {
    if b == [] {
      assert a + b == a;
    } else {
      var n := |b| - 1;
      assert (a + b)[..|a + b| - 1] == a + b[..n];
      LastForConcat(a, b[..n], c);
    }
  }

  lemma LastForSnoc(actions: seq<Action>, a: Action, c: string)
    ensures LastFor(actions + [a], c) == if a.category == c then Some(a.verdict) else LastFor(actions, c)
  {
    assert (actions + [a])[..|actions|] == actions;
  }

  lemma {:induction false} LastInDiff(categories: seq<string>, before: Selection, after: Selection, c: string)
    requires forall x :: x in categories ==> x in before && x in after
    ensures LastFor(DiffOver(categories, before, after), c)
         == if c in categories && before[c] != after[c] then Some(ActionFor(c, after[c]).verdict) else None
  {
    if categories != [] {
      var n := |categories| - 1;
      var d, last := DiffOver(categories[..n], before, after), categories[n];
      LastInDiff(categories[..n], before, after, c);
      assert categories == categories[..n] + [last];
      if before[last] == after[last] {
        assert DiffOver(categories, before, after) == d;
      } else {
        LastForSnoc(d, ActionFor(last, after[last]), c);
      }
    }
  }

  // One click on the sign button: what was selected, and how many of its actions reached the log.
  datatype Attempt = Attempt(after: Selection, logged: nat)

  function LoggedBy(before: Selection, a: Attempt): seq<Action>
    requires Complete(before) && Complete(a.after)
  {
    var actions := Diff(before, a.after);
    actions[..if a.logged < |actions| then a.logged else |actions|]
  }

  predicate AllSelectable(attempts: seq<Attempt>)
  {
    forall i :: 0 <= i < |attempts| ==> Selectable(attempts[i].after)
  }

  // What a key's attempts leave in the log. The dialog compares every selection with what it showed
  // when it was opened, and the selection may change from one attempt to the next.
  function LoggedByAll(before: Selection, attempts: seq<Attempt>): seq<Action>
    requires Complete(before) && AllSelectable(attempts)
  {
    if attempts == [] then []
    else
      var n := |attempts| - 1;
      LoggedByAll(before, attempts[..n]) + LoggedBy(before, attempts[n])
  }

  // An attempt that signs all its actions.
  predicate Finishes(before: Selection, a: Attempt)
    requires Complete(before) && Complete(a.after)
  {
    |Diff(before, a.after)| <= a.logged
  }

  lemma {:induction false} ActionsOnce(categories: seq<string>, before: Selection, after: Selection, i: nat)
    requires forall x :: x in categories ==> x in before && x in after
    requires forall j, k :: 0 <= j < k < |categories| ==> categories[j] != categories[k]
    requires i < |DiffOver(categories, before, after)|
    ensures var a := DiffOver(categories, before, after)[i];
            && a.category in categories && before[a.category] != after[a.category]
            && a == ActionFor(a.category, after[a.category])
  {
    var n := |categories| - 1;
    assert categories == categories[..n] + [categories[n]];
    if i < |DiffOver(categories[..n], before, after)| {
      ActionsOnce(categories[..n], before, after, i);
    }
  }

  lemma {:induction false} LastForIsOne(actions: seq<Action>, c: string)
    ensures LastFor(actions, c).Some? ==>
      exists i :: 0 <= i < |actions| && actions[i] == Action(c, LastFor(actions, c).value)
  {
    if actions != [] && actions[|actions| - 1].category != c {
      LastForIsOne(actions[..|actions| - 1], c);
    } else if actions != [] {
      assert actions[|actions| - 1] == Action(c, LastFor(actions, c).value);
    }
  }

  // Whatever one attempt logs in a category is its own selection there, and a changed one.
  lemma LoggedIsSelected(before: Selection, a: Attempt, c: string)
    requires Complete(before) && Complete(a.after)
    ensures LastFor(LoggedBy(before, a), c).Some? ==>
      && c in CATEGORIES && before[c] != a.after[c]
      && LastFor(LoggedBy(before, a), c) == Some(ActionFor(c, a.after[c]).verdict)
    ensures Finishes(before, a) && c in CATEGORIES && before[c] != a.after[c] ==>
      LastFor(LoggedBy(before, a), c).Some?
  {
    var logged := LoggedBy(before, a);
    assert Finishes(before, a) ==> logged == Diff(before, a.after);
    LastForIsOne(logged, c);
    if LastFor(logged, c).Some? {
      var i :| 0 <= i < |logged| && logged[i] == Action(c, LastFor(logged, c).value);
      ActionsOnce(CATEGORIES, before, a.after, i);
    }
    LastInDiff(CATEGORIES, before, a.after, c);
  }

  // Some attempt left an action in the category.
  predicate Touched(before: Selection, attempts: seq<Attempt>, c: string)
    requires Complete(before) && AllSelectable(attempts)
  {
    LastFor(LoggedByAll(before, attempts), c).Some?
  }

  ghost predicate DecidesTouched(before: Selection, attempts: seq<Attempt>, c: string, i: int)
    requires Complete(before) && AllSelectable(attempts)
  {
    0 <= i < |attempts| && c in CATEGORIES && before[c] != attempts[i].after[c]
    && LastFor(LoggedByAll(before, attempts), c) == Some(ActionFor(c, attempts[i].after[c]).verdict)
  }

  // What is logged last in a category is a changed selection of one of the attempts.
  lemma {:induction false} TouchedBySelection(before: Selection, attempts: seq<Attempt>, c: string)
    requires Complete(before) && AllSelectable(attempts)
    ensures Touched(before, attempts, c) ==> exists i :: DecidesTouched(before, attempts, c, i)
  {
    if attempts != [] {
      var n := |attempts| - 1;
      var init := attempts[..n];
      LastForConcat(LoggedByAll(before, init), LoggedBy(before, attempts[n]), c);
      LoggedIsSelected(before, attempts[n], c);
      TouchedBySelection(before, init, c);
      if LastFor(LoggedBy(before, attempts[n]), c).Some? {
        assert DecidesTouched(before, attempts, c, n);
      } else if Touched(before, attempts, c) {
        var i :| DecidesTouched(before, init, c, i);
        assert DecidesTouched(before, attempts, c, i);
      }
    }
  }

  // An action in a category moves the verdict away from what the dialog showed there.
  lemma ChangedMeansDifferent(before: Selection, after: Selection, final: Selection, c: string)
    requires Complete(before) && Selectable(after) && Selectable(final) && c in CATEGORIES
    requires before[c] != after[c] && before[c] == final[c]
    ensures var v := ActionFor(c, after[c]).verdict;
            (if v == REVOKE then None else Some(v)) != final[c]
  {
  }

  // Any attempts, then one that signs all its actions: the log ends up saying exactly what the last
  // attempt selected if and only if, wherever that selection is what the dialog showed, the signing
  // key's verdict already was that and no earlier attempt left an action there.
  lemma DialogConvergesIff(before: Selection, earlierAttempts: seq<Attempt>, last: Attempt,
                           earlier: seq<Entry>, pushed: seq<Entry>, key: string)
    requires Complete(before) && Selectable(last.after) && Finishes(before, last)
    requires AllSelectable(earlierAttempts)
    requires ActionsIn(pushed, key) == LoggedByAll(before, earlierAttempts) + LoggedBy(before, last)
    requires StampedInOrder(earlier, pushed, key)
    ensures (forall c :: c in CATEGORIES ==> CurrentVerdict(Listing(earlier, pushed), key, c) == last.after[c])
       <==> (forall c :: c in CATEGORIES && before[c] == last.after[c] ==>
               CurrentVerdict(earlier, key, c) == before[c] && !Touched(before, earlierAttempts, c))
  {
    forall c | c in CATEGORIES
      ensures CurrentVerdict(Listing(earlier, pushed), key, c) == last.after[c]
         <==> before[c] == last.after[c] ==>
                CurrentVerdict(earlier, key, c) == before[c] && !Touched(before, earlierAttempts, c)
    {
      CategoryConvergesIff(before, earlierAttempts, last, earlier, pushed, key, c);
    }
  }

  lemma CategoryConvergesIff(before: Selection, earlierAttempts: seq<Attempt>, last: Attempt,
                             earlier: seq<Entry>, pushed: seq<Entry>, key: string, c: string)
    requires Complete(before) && Selectable(last.after) && Finishes(before, last)
    requires AllSelectable(earlierAttempts)
    requires ActionsIn(pushed, key) == LoggedByAll(before, earlierAttempts) + LoggedBy(before, last)
    requires StampedInOrder(earlier, pushed, key) && c in CATEGORIES
    ensures CurrentVerdict(Listing(earlier, pushed), key, c) == last.after[c]
       <==> before[c] == last.after[c] ==>
              CurrentVerdict(earlier, key, c) == before[c] && !Touched(before, earlierAttempts, c)
  {
    VerdictAfterPushes(earlier, pushed, key, c);
    LastForConcat(LoggedByAll(before, earlierAttempts), LoggedBy(before, last), c);
    LoggedIsSelected(before, last, c);
    TouchedBySelection(before, earlierAttempts, c);
    if before[c] == last.after[c] && Touched(before, earlierAttempts, c) {
      var i :| DecidesTouched(before, earlierAttempts, c, i);
      ChangedMeansDifferent(before, earlierAttempts[i].after, last.after, c);
    }
  }

  predicate SameSelection(attempts: seq<Attempt>, after: Selection)
  {
    forall i :: 0 <= i < |attempts| ==> attempts[i].after == after
  }

  // The dialog loaded the signing key's own verdicts: with one and the same selection it converges,
  // after any interrupted attempts.
  lemma DialogConverges(before: Selection, earlierAttempts: seq<Attempt>, last: Attempt,
                        earlier: seq<Entry>, pushed: seq<Entry>, key: string)
    requires Complete(before) && Selectable(last.after) && Finishes(before, last)
    requires AllSelectable(earlierAttempts) && SameSelection(earlierAttempts, last.after)
    requires forall c :: c in CATEGORIES ==> before[c] == CurrentVerdict(earlier, key, c)
    requires ActionsIn(pushed, key) == LoggedByAll(before, earlierAttempts) + LoggedBy(before, last)
    requires StampedInOrder(earlier, pushed, key)
    ensures forall c :: c in CATEGORIES ==> CurrentVerdict(Listing(earlier, pushed), key, c) == last.after[c]
  {
    DialogConvergesIff(before, earlierAttempts, last, earlier, pushed, key);
    forall c | c in CATEGORIES && before[c] == last.after[c] ensures !Touched(before, earlierAttempts, c) {
      TouchedBySelection(before, earlierAttempts, c);
      if i :| DecidesTouched(before, earlierAttempts, c, i) {
        assert earlierAttempts[i].after == last.after;
      }
    }
  }

  // ---------- Two ways to miss ----------

  const NOTHING: Selection := map["authorship" := None, "method" := None, "authenticity" := None]

  function Only(category: string, verdict: string): Selection { NOTHING[category := Some(verdict)] }

  function PushOf(key: string, category: string, verdict: string): Entry
  {
    Entry("", 0, "", category, verdict, key, "", "", "")
  }

  lemma OneClaim(key: string, category: string, verdict: string, rest: seq<Entry>, asker: string, c: string)
    requires category != "" && verdict != REVOKE
    ensures asker != key || c != category ==>
      CurrentVerdict([PushOf(key, category, verdict)] + rest, asker, c) == CurrentVerdict(rest, asker, c)
    ensures CurrentVerdict([PushOf(key, category, verdict)], key, category) == Some(verdict)
  {
    if asker != key || c != category {
      FrontOther(PushOf(key, category, verdict), rest, ClaimOf(asker, c));
    }
    assert [PushOf(key, category, verdict)][..0] == [];
  }

  lemma SinglePush(e: Entry, earlier: seq<Entry>)
    ensures Listing(earlier, [e]) == [e] + earlier
    ensures forall key :: ActionsIn([e], key) == if e.signerKeyID == key then [Action(e.category, e.verdict)] else []
  {
    assert Reverse([e]) == [e] && [e][..0] == [];
    forall key ensures ActionsIn([e], key) == if e.signerKeyID == key then [Action(e.category, e.verdict)] else [] {
      assert ActionsIn([e][..0], key) == [];
    }
  }

  function ChangeIn(before: Selection, after: Selection, c: string): seq<Action>
    requires c in before && c in after
  {
    if before[c] == after[c] then [] else [ActionFor(c, after[c])]
  }

  lemma DiffSpelled(before: Selection, after: Selection)
    requires Complete(before) && Complete(after)
    ensures Diff(before, after) == ChangeIn(before, after, "authorship") + ChangeIn(before, after, "method")
                                   + ChangeIn(before, after, "authenticity")
  {
    var x, y, z := CATEGORIES[0], CATEGORIES[1], CATEGORIES[2];
    assert CATEGORIES[..2][..1] == [x] && CATEGORIES[..2] == [x, y] && [x][..0] == [];
    assert DiffOver([], before, after) == [];
    assert DiffOver([x], before, after) == ChangeIn(before, after, x);
    assert DiffOver([x, y], before, after) == DiffOver([x], before, after) + ChangeIn(before, after, y);
  }

  // A page of one entry by key a, and one push by key b.
  lemma TwoKeys(a: string, b: string, c: string)
    requires a != b
    ensures CurrentVerdict([PushOf(a, "authorship", "my-work")], a, c)
         == if c == "authorship" then Some("my-work") else None
    ensures var earlier, pushed := [PushOf(a, "authorship", "my-work")], [PushOf(b, "method", "ai-generated")];
            && CurrentVerdict(Listing(earlier, pushed), b, "authorship") == None
            && ActionsIn(pushed, b) == [Action("method", "ai-generated")]
  {
    var x, e := PushOf(a, "authorship", "my-work"), PushOf(b, "method", "ai-generated");
    assert [x] == [x] + [] && CurrentVerdict([], a, c) == None;
    OneClaim(a, "authorship", "my-work", [], a, c);
    OneClaim(a, "authorship", "my-work", [], b, "authorship");
    OneClaim(b, "method", "ai-generated", [x], b, "authorship");
    SinglePush(e, [x]);
  }

  // The verdicts of key a were loaded, the user picks key b in the selector and checks one more box:
  // everything is signed, yet b has no verdict where a's was left as shown.
  lemma KeySwitchMisses(a: string, b: string)
    requires a != b
    ensures var before, earlier := Only("authorship", "my-work"), [PushOf(a, "authorship", "my-work")];
            var after, pushed := before["method" := Some("ai-generated")], [PushOf(b, "method", "ai-generated")];
            && (forall c :: c in CATEGORIES ==> CurrentVerdict(earlier, a, c) == before[c])
            && Complete(before) && Selectable(after) && ActionsIn(pushed, b) == Diff(before, after)
            && StampedInOrder(earlier, pushed, b)
            && CurrentVerdict(Listing(earlier, pushed), b, "authorship") == None != after["authorship"]
  {
    var before := Only("authorship", "my-work");
    forall c | c in CATEGORIES
      ensures CurrentVerdict([PushOf(a, "authorship", "my-work")], a, c) == before[c]
    {
      TwoKeys(a, b, c);
    }
    TwoKeys(a, b, "");
    DiffSpelled(before, before["method" := Some("ai-generated")]);
  }

  // Two pushes of one key for two categories.
  lemma TwoPushes(key: string)
    ensures var pushed := [PushOf(key, "authorship", "my-work"), PushOf(key, "method", "ai-generated")];
            && ActionsIn(pushed, key) == [Action("authorship", "my-work"), Action("method", "ai-generated")]
            && CurrentVerdict(Listing([], pushed), key, "authorship") == Some("my-work")
  {
    var x, y := PushOf(key, "authorship", "my-work"), PushOf(key, "method", "ai-generated");
    SinglePush(x, []);
    assert [x, y][..1] == [x] && [x] + [] == [x];
    ListingStep([], [x, y]);
    OneClaim(key, "method", "ai-generated", [x], key, "authorship");
    OneClaim(key, "authorship", "my-work", [], key, "authorship");
  }

  const BOTH: Selection := Only("authorship", "my-work")["method" := Some("ai-generated")]

  // A click on two changes whose second request fails leaves the first action.
  lemma FirstOfTwo()
    ensures Complete(BOTH) && Complete(NOTHING) && |Diff(NOTHING, BOTH)| == 2 && Succeeding([true, false]) == 1
    ensures LoggedBy(NOTHING, Attempt(BOTH, 1)) == [Action("authorship", "my-work")]
  {
    DiffSpelled(NOTHING, BOTH);
    assert [true, false][1..] == [false];
  }

  // The user selects two categories; the first is logged and the second request fails. The user takes
  // the first choice back and signs again. The second attempt logs all of its actions, and the first
  // verdict stays.
  lemma TakenBackStays(key: string)
    ensures var first, last := Attempt(BOTH, 1), Attempt(Only("method", "ai-generated"), 1);
            var pushed := [PushOf(key, "authorship", "my-work"), PushOf(key, "method", "ai-generated")];
            && Complete(NOTHING) && AllSelectable([first]) && Selectable(last.after) && Finishes(NOTHING, last)
            && ActionsIn(pushed, key) == LoggedByAll(NOTHING, [first]) + LoggedBy(NOTHING, last)
            && StampedInOrder([], pushed, key)
            && CurrentVerdict(Listing([], pushed), key, "authorship") == Some("my-work") != last.after["authorship"]
  {
    var first, last := Attempt(BOTH, 1), Attempt(Only("method", "ai-generated"), 1);
    FirstOfTwo();
    DiffSpelled(NOTHING, last.after);
    assert [first][..0] == [] && LoggedByAll(NOTHING, []) == [];
    assert LoggedByAll(NOTHING, [first]) == [Action("authorship", "my-work")];
    TwoPushes(key);
  }
}
