// The badge overlay of a page: a registry of badges and, per element, a map from category to badge.
// The two are meant to be inverse to each other. This module gives the bookkeeping as operations on
// values, where the map that createBadges holds may be attached to the element or detached from it.
module Badges {
  import opened JsMaps

  type Element = nat

  datatype Record = Record(target: Element, category: string, visible: bool, catIndex: nat, face: Info)

  // What a lookup says about a category; a verdict without an icon carries the empty name.
  datatype Info = Info(icon: string, verdict: string, signers: nat) {
    predicate HasIcon() { icon != "" }
  }

  type Categories = map<string, Info>

  const CATEGORY_ORDER: seq<string> := ["authorship", "method", "authenticity"]

  datatype Layer = Layer(
    registry: map<nat, Record>, byTarget: map<Element, JsMap<string, nat>>, nextId: nat, observed: set<Element>)

  // ---------- Operations ----------

  // Taking a category out of an element's map, which leaves with its last badge.
  function Unlist(l: Layer, el: Element, category: string): Layer
    requires ValidMaps(l) && el in l.byTarget
  {
    var m := l.byTarget[el].Delete(category);
    if m.Size() == 0 then l.(byTarget := l.byTarget - {el}, observed := l.observed - {el})
    else l.(byTarget := l.byTarget[el := m])
  }

  function RemoveBadge(l: Layer, id: nat): Layer
    requires ValidMaps(l)
  {
    if id !in l.registry then l
    else
      var r := l.registry[id];
      var l1 := l.(registry := l.registry - {id});
      if r.target in l.byTarget then Unlist(l1, r.target, r.category) else l1
  }

  function IdsOf(m: JsMap<string, nat>): set<nat>
  {
    set c | c in m.vals :: m.vals[c]
  }

  function RemoveForTarget(l: Layer, el: Element): Layer
  {
    if el !in l.byTarget then l
    else Layer(l.registry - IdsOf(l.byTarget[el]), l.byTarget - {el}, l.nextId, l.observed - {el})
  }

  ghost predicate ValidMaps(l: Layer)
  {
    forall el :: el in l.byTarget ==> l.byTarget[el].Valid()
  }

  // The badges of an element whose category is gone.
  function Dropped(m: JsMap<string, nat>, keys: seq<string>, categories: Categories): seq<nat>
    requires forall k :: k in keys ==> k in m.vals
  {
    if keys == [] then []
    else (if keys[0] !in categories then [m.vals[keys[0]]] else []) + Dropped(m, keys[1..], categories)
  }

  function RemoveAll(l: Layer, ids: seq<nat>): Layer
    requires ValidMaps(l)
    decreases |ids|
  {
    if ids == [] then l else RemoveAll(RemoveBadge(l, ids[0]), ids[1..])
  }

  function ActiveCategories(order: seq<string>, categories: Categories): seq<string>
  {
    if order == [] then []
    else
      var n := |order| - 1;
      ActiveCategories(order[..n], categories) + if order[n] in categories then [order[n]] else []
  }

  // The found categories come in the order authorship, method, authenticity.
  lemma ActiveInOrder(categories: Categories)
    ensures ActiveCategories(CATEGORY_ORDER, categories)
         == (if "authorship" in categories then ["authorship"] else [])
          + (if "method" in categories then ["method"] else [])
          + (if "authenticity" in categories then ["authenticity"] else [])
  {
    var one, two, three := ["authorship"], ["authorship", "method"], ["authorship", "method", "authenticity"];
    assert three[..2] == two && two[..1] == one && one[..0] == [];
    assert ActiveCategories(one, categories) == if "authorship" in categories then one else [];
    assert ActiveCategories(two, categories)
        == ActiveCategories(one, categories) + if two[1] in categories then [two[1]] else [];
    assert ActiveCategories(three, categories)
        == ActiveCategories(two, categories) + if three[2] in categories then [three[2]] else [];
  }

  // createBadges in the middle of its work: the layer, and the map it adds to, which is the
  // element's own map only while it is attached.
  datatype Work = Work(layer: Layer, badgeMap: JsMap<string, nat>, attached: bool)

  predicate AnyVisible(registry: map<nat, Record>, m: JsMap<string, nat>)
  {
    exists c :: c in m.vals && m.vals[c] in registry && registry[m.vals[c]].visible
  }

  // A badge under the next id; the element's first one has it observed.
  function NewBadge(w: Work, record: Record): Work
    requires w.badgeMap.Valid()
  {
    var l, el := w.layer, record.target;
    var m := w.badgeMap.Set(record.category, l.nextId);
    var observed := if w.badgeMap.Size() == 0 then l.observed + {el} else l.observed;
    var byTarget := if w.attached then l.byTarget[el := m] else l.byTarget;
    Work(Layer(l.registry[l.nextId := record], byTarget, l.nextId + 1, observed), m, w.attached)
  }

  function AddCategory(w: Work, el: Element, cat: string, info: Info, catIndex: nat): Work
    requires w.badgeMap.Valid()
  {
    var l := w.layer;
    if !info.HasIcon() then w
    else if cat in w.badgeMap.vals then
      var id := w.badgeMap.vals[cat];
      if id in l.registry then
        w.(layer := l.(registry := l.registry[id := l.registry[id].(catIndex := catIndex, face := info)]))
      else w
    else NewBadge(w, Record(el, cat, AnyVisible(l.registry, w.badgeMap), catIndex, info))
  }

  function AddCategories(w: Work, el: Element, cats: seq<string>, categories: Categories): (r: Work)
    requires w.badgeMap.Valid() && forall c :: c in cats ==> c in categories
    ensures r.badgeMap.Valid() && r.attached == w.attached
  {
    if cats == [] then w
    else
      var n := |cats| - 1;
      AddCategory(AddCategories(w, el, cats[..n], categories), el, cats[n], categories[cats[n]], n)
  }

  // createBadges before its last loop: the map it goes on with is the element's old one, attached
  // unless the removals emptied it.
  ghost function Prepare(l: Layer, el: Element, categories: Categories): Work
    requires ValidMaps(l)
  {
    if el in l.byTarget then
      var m := l.byTarget[el];
      var l1 := RemoveAll(l, Dropped(m, m.keys, categories));
      if el in l1.byTarget then Work(l1, l1.byTarget[el], true) else Work(l1, Empty(), false)
    else
      Work(l.(byTarget := l.byTarget[el := Empty()]), Empty(), true)
  }

  lemma {:induction false} ActiveAreGiven(order: seq<string>, categories: Categories)
    ensures forall c :: c in ActiveCategories(order, categories) <==> c in order && c in categories
  {
    if order != [] {
      var n := |order| - 1;
      ActiveAreGiven(order[..n], categories);
      assert order == order[..n] + [order[n]];
    }
  }

  ghost function CreateBadges(l: Layer, el: Element, categories: Categories, hasParent: bool): Layer
    requires ValidMaps(l)
  {
    var active := ActiveCategories(CATEGORY_ORDER, categories);
    ActiveAreGiven(CATEGORY_ORDER, categories);
    if active == [] then RemoveForTarget(l, el)
    else if !hasParent then l
    else PrepareIsValid(l, el, categories); AddCategories(Prepare(l, el, categories), el, active, categories).layer
  }

  lemma {:induction false} RemoveAllKeepsMaps(l: Layer, ids: seq<nat>)
    requires ValidMaps(l)
    ensures ValidMaps(RemoveAll(l, ids))
    decreases |ids|
  {
    if ids != [] {
      RemoveAllKeepsMaps(RemoveBadge(l, ids[0]), ids[1..]);
    }
  }

  lemma PrepareIsValid(l: Layer, el: Element, categories: Categories)
    requires ValidMaps(l)
    ensures Prepare(l, el, categories).badgeMap.Valid()
  {
    if el in l.byTarget {
      RemoveAllKeepsMaps(l, Dropped(l.byTarget[el], l.byTarget[el].keys, categories));
    }
  }

  // ---------- The invariant ----------

  // Every registered badge is its element's badge for its category.
  ghost predicate Registered(l: Layer, id: nat)
  {
    && id in l.registry && id < l.nextId
    && l.registry[id].target in l.byTarget
    && l.registry[id].category in l.byTarget[l.registry[id].target].vals
    && l.byTarget[l.registry[id].target].vals[l.registry[id].category] == id
  }

  // Every badge an element lists is registered for that element and category.
  ghost predicate Listed(l: Layer, el: Element, c: string)
    requires el in l.byTarget && c in l.byTarget[el].vals
  {
    var id := l.byTarget[el].vals[c];
    id in l.registry && l.registry[id].target == el && l.registry[id].category == c
  }

  // The badges of an element are visible together or hidden together.
  ghost predicate Together(registry: map<nat, Record>)
  {
    forall i, j :: i in registry && j in registry && registry[i].target == registry[j].target ==>
      registry[i].visible == registry[j].visible
  }

  // The two maps are inverse to each other, an element is observed exactly when it has badges, and
  // all badges of an element are visible together or hidden together.
  ghost predicate Inv(l: Layer)
  {
    && ValidMaps(l)
    && (forall id :: id in l.registry ==> Registered(l, id))
    && (forall el, c :: el in l.byTarget && c in l.byTarget[el].vals ==> Listed(l, el, c))
    && (forall el :: el in l.observed <==> el in l.byTarget && l.byTarget[el].keys != [])
    && Together(l.registry)
  }

  lemma EmptyKeysIffEmptyVals(m: JsMap<string, nat>)
    requires m.Valid()
    ensures m.keys == [] <==> m.vals == map[]
  {
    assert m.keys != [] ==> m.keys[0] in m.keys;
    assert m.keys == [] ==> forall k :: k !in m.vals;
    assert m.vals != map[] ==> exists k :: k in m.vals;
  }

  // What removing one badge does to the maps.
  ghost predicate RemovesOne(l: Layer, t: Layer, id: nat)
    requires id in l.registry && l.registry[id].target in l.byTarget
  {
    var r := l.registry[id];
    && t.registry == l.registry - {id} && t.nextId == l.nextId
    && (forall el :: el != r.target ==> (el in t.byTarget <==> el in l.byTarget))
    && (forall el :: el != r.target && el in l.byTarget ==> t.byTarget[el] == l.byTarget[el])
    && (r.target in t.byTarget <==> l.byTarget[r.target].vals - {r.category} != map[])
    && (r.target in t.byTarget ==>
          t.byTarget[r.target].Valid() && t.byTarget[r.target].vals == l.byTarget[r.target].vals - {r.category})
    && t.observed == if r.target in t.byTarget then l.observed else l.observed - {r.target}
  }

  lemma RemoveBadgeEffect(l: Layer, id: nat)
    requires ValidMaps(l) && id in l.registry && l.registry[id].target in l.byTarget
    ensures RemovesOne(l, RemoveBadge(l, id), id)
  {
    var r := l.registry[id];
    EmptyKeysIffEmptyVals(l.byTarget[r.target].Delete(r.category));
  }

  lemma RemovedOneKeepsRegistered(l: Layer, t: Layer, id: nat)
    requires Inv(l) && id in l.registry && l.registry[id].target in l.byTarget && RemovesOne(l, t, id)
    ensures forall i :: i in t.registry ==> Registered(t, i)
  {
    var r := l.registry[id];
    assert Registered(l, id);
    forall i | i in t.registry ensures Registered(t, i) {
      assert Registered(l, i);
      if l.registry[i].target == r.target {
        assert l.registry[i].category in l.byTarget[r.target].vals - {r.category};
      }
    }
  }

  lemma RemovedOneKeepsListed(l: Layer, t: Layer, id: nat)
    requires Inv(l) && id in l.registry && l.registry[id].target in l.byTarget && RemovesOne(l, t, id)
    ensures ValidMaps(t)
    ensures forall el, c :: el in t.byTarget && c in t.byTarget[el].vals ==> Listed(t, el, c)
  {
    assert Registered(l, id);
    forall el, c | el in t.byTarget && c in t.byTarget[el].vals ensures Listed(t, el, c) {
      assert Listed(l, el, c);
    }
  }

  lemma RemovedOneKeepsObserved(l: Layer, t: Layer, id: nat)
    requires Inv(l) && id in l.registry && l.registry[id].target in l.byTarget && RemovesOne(l, t, id)
    ensures forall el :: el in t.observed <==> el in t.byTarget && t.byTarget[el].keys != []
  {
    var r := l.registry[id];
    assert Registered(l, id);
    if r.target in t.byTarget {
      EmptyKeysIffEmptyVals(t.byTarget[r.target]);
      EmptyKeysIffEmptyVals(l.byTarget[r.target]);
    }
  }

  lemma RemoveBadgeKeepsInv(l: Layer, id: nat)
    requires Inv(l)
    ensures Inv(RemoveBadge(l, id))
  {
    if id in l.registry {
      assert Registered(l, id);
      RemoveBadgeEffect(l, id);
      RemovedOneKeepsRegistered(l, RemoveBadge(l, id), id);
      RemovedOneKeepsListed(l, RemoveBadge(l, id), id);
      RemovedOneKeepsObserved(l, RemoveBadge(l, id), id);
    }
  }

  // An element's list holds exactly the badges registered for it.
  lemma IdsAreRegistered(l: Layer, el: Element)
    requires Inv(l) && el in l.byTarget
    ensures forall id :: id in IdsOf(l.byTarget[el]) <==> id in l.registry && l.registry[id].target == el
  {
    var m := l.byTarget[el];
    forall c | c in m.vals ensures m.vals[c] in l.registry && l.registry[m.vals[c]].target == el {
      assert Listed(l, el, c);
    }
    forall id | id in l.registry && l.registry[id].target == el ensures id in IdsOf(m) {
      assert Registered(l, id);
    }
  }

  lemma RemoveForTargetKeepsInv(l: Layer, el: Element)
    requires Inv(l)
    ensures Inv(RemoveForTarget(l, el))
  {
    if el in l.byTarget {
      var t := RemoveForTarget(l, el);
      IdsAreRegistered(l, el);
      forall i | i in t.registry ensures Registered(t, i) {
        assert Registered(l, i);
      }
      forall e, c | e in t.byTarget && c in t.byTarget[e].vals ensures Listed(t, e, c) {
        assert Listed(l, e, c);
      }
    }
  }

  // ---------- createBadges ----------

  // Removing some badges of one element: exactly those go, and the element keeps its map unless
  // that leaves nothing in it.
  ghost predicate RemovesSome(l: Layer, t: Layer, el: Element, gone: set<nat>)
    requires el in l.byTarget
  {
    && t.nextId == l.nextId && t.registry == l.registry - gone
    && (forall e :: e != el ==> (e in t.byTarget <==> e in l.byTarget))
    && (forall e :: e != el && e in l.byTarget ==> t.byTarget[e] == l.byTarget[e])
    && (el in t.byTarget <==> gone == {} || Spared(l.byTarget[el].vals, gone) != map[])
    && (el in t.byTarget ==> t.byTarget[el].vals == Spared(l.byTarget[el].vals, gone))
  }

  ghost function Spared(m: map<string, nat>, gone: set<nat>): map<string, nat>
  {
    map c | c in m && m[c] !in gone :: m[c]
  }

  lemma SparedCompose(m: map<string, nat>, c0: string, id0: nat, rest: set<nat>)
    requires forall c :: c in m ==> (m[c] == id0 <==> c == c0)
    ensures Spared(m, rest + {id0}) == Spared(m - {c0}, rest)
    ensures Spared(m, {id0}) == m - {c0}
  {
  }

  ghost predicate DistinctIds(ids: seq<nat>)
  {
    forall i, j :: 0 <= i < j < |ids| ==> ids[i] != ids[j]
  }

  lemma {:induction false} RemoveAllAbsent(l: Layer, ids: seq<nat>)
    requires ValidMaps(l) && forall id :: id in ids ==> id !in l.registry
    ensures RemoveAll(l, ids) == l
  {
    if ids != [] {
      assert ids[0] in ids && forall id :: id in ids[1..] ==> id in ids;
      RemoveAllAbsent(l, ids[1..]);
    }
  }

  lemma {:induction false} RemoveAllKeepsInv(l: Layer, ids: seq<nat>)
    requires Inv(l)
    ensures Inv(RemoveAll(l, ids))
    decreases |ids|
  {
    if ids != [] {
      RemoveBadgeKeepsInv(l, ids[0]);
      RemoveAllKeepsInv(RemoveBadge(l, ids[0]), ids[1..]);
    }
  }

  // An element's ids, each under one category.
  ghost predicate Owns(l: Layer, el: Element, ids: seq<nat>)
    requires el in l.byTarget
  {
    forall i :: 0 <= i < |ids| ==>
      && ids[i] in l.registry && l.registry[ids[i]].target == el
      && (forall c :: c in l.byTarget[el].vals ==>
            (l.byTarget[el].vals[c] == ids[i] <==> c == l.registry[ids[i]].category))
  }

  lemma OwnsIds(l: Layer, el: Element, ids: seq<nat>)
    requires Inv(l) && el in l.byTarget
    requires forall i :: 0 <= i < |ids| ==> ids[i] in l.registry && l.registry[ids[i]].target == el
    ensures Owns(l, el, ids)
  {
    forall i, c | 0 <= i < |ids| && c in l.byTarget[el].vals
      ensures l.byTarget[el].vals[c] == ids[i] <==> c == l.registry[ids[i]].category
    {
      assert Registered(l, ids[i]) && Listed(l, el, c);
    }
  }

  // Removing an element's last badge leaves nothing else to remove for it.
  lemma NothingLeft(l: Layer, l1: Layer, el: Element, ids: seq<nat>)
    requires Inv(l1) && el in l.byTarget && ids != [] && Owns(l, el, ids)
    requires RemovesOne(l, l1, ids[0]) && el !in l1.byTarget
    ensures forall id :: id in ids[1..] ==> id !in l1.registry
    ensures RemovesSome(l, l1, el, IdSet(ids))
  {
    assert forall id :: id in l1.registry ==> Registered(l1, id);
    var c0 := l.registry[ids[0]].category;
    assert ids[0] in IdSet(ids);
    forall c | c in l.byTarget[el].vals ensures l.byTarget[el].vals[c] in IdSet(ids) {
      assert c !in l.byTarget[el].vals - {c0};
    }
    assert Spared(l.byTarget[el].vals, IdSet(ids)) == map[];
    assert l.registry - IdSet(ids) == l1.registry;
  }

  ghost function IdSet(ids: seq<nat>): set<nat> { set id | id in ids }

  lemma IdSetSplits(ids: seq<nat>)
    requires ids != []
    ensures IdSet(ids) == IdSet(ids[1..]) + {ids[0]}
  {
    assert ids == [ids[0]] + ids[1..];
  }

  lemma RemovesCompose(l: Layer, l1: Layer, t: Layer, el: Element, ids: seq<nat>)
    requires el in l.byTarget && ids != [] && Owns(l, el, ids)
    requires RemovesOne(l, l1, ids[0]) && el in l1.byTarget && RemovesSome(l1, t, el, IdSet(ids[1..]))
    ensures RemovesSome(l, t, el, IdSet(ids))
  {
    var rest, c0 := IdSet(ids[1..]), l.registry[ids[0]].category;
    IdSetSplits(ids);
    SparedCompose(l.byTarget[el].vals, c0, ids[0], rest);
    RemovesTwice(l, l1, t, el, ids[0], rest);
  }

  lemma RemovesTwice(l: Layer, l1: Layer, t: Layer, el: Element, id0: nat, rest: set<nat>)
    requires el in l.byTarget && id0 in l.registry && l.registry[id0].target == el
    requires RemovesOne(l, l1, id0) && el in l1.byTarget && RemovesSome(l1, t, el, rest)
    requires Spared(l.byTarget[el].vals, rest + {id0}) == Spared(l1.byTarget[el].vals, rest)
    requires Spared(l.byTarget[el].vals, {id0}) == l1.byTarget[el].vals
    ensures RemovesSome(l, t, el, rest + {id0})
  {
    assert l1.registry - rest == l.registry - (rest + {id0});
    if rest == {} {
      assert rest + {id0} == {id0};
    }
  }

  // Distinct badges of one element.
  ghost predicate AreBadgesOf(l: Layer, el: Element, ids: seq<nat>)
  {
    DistinctIds(ids) && forall i :: 0 <= i < |ids| ==> ids[i] in l.registry && l.registry[ids[i]].target == el
  }

  lemma FirstRemoved(l: Layer, el: Element, ids: seq<nat>)
    requires Inv(l) && el in l.byTarget && ids != [] && AreBadgesOf(l, el, ids)
    ensures var l1 := RemoveBadge(l, ids[0]);
            Inv(l1) && RemovesOne(l, l1, ids[0]) && AreBadgesOf(l1, el, ids[1..]) && Owns(l, el, ids)
  {
    var l1 := RemoveBadge(l, ids[0]);
    OwnsIds(l, el, ids);
    RemoveBadgeEffect(l, ids[0]);
    RemoveBadgeKeepsInv(l, ids[0]);
    assert forall i :: 0 <= i < |ids[1..]| ==> ids[1..][i] == ids[i + 1];
  }

  lemma {:induction false} RemoveAllRemoves(l: Layer, el: Element, ids: seq<nat>)
    requires Inv(l) && el in l.byTarget && AreBadgesOf(l, el, ids)
    ensures RemovesSome(l, RemoveAll(l, ids), el, IdSet(ids))
    decreases |ids|
  {
    if ids == [] {
      assert l.registry - {} == l.registry && Spared(l.byTarget[el].vals, {}) == l.byTarget[el].vals;
    } else {
      var l1 := RemoveBadge(l, ids[0]);
      FirstRemoved(l, el, ids);
      if el !in l1.byTarget {
        NothingLeft(l, l1, el, ids);
        RemoveAllAbsent(l1, ids[1..]);
      } else {
        RemoveAllRemoves(l1, el, ids[1..]);
        RemovesCompose(l, l1, RemoveAll(l, ids), el, ids);
      }
    }
  }

  lemma {:induction false} DroppedAreBadges(l: Layer, el: Element, keys: seq<string>, categories: Categories)
    requires el in l.byTarget && forall k :: k in l.byTarget[el].vals ==> Listed(l, el, k)
    requires forall i, j :: 0 <= i < j < |keys| ==> keys[i] != keys[j]
    requires forall k :: k in keys ==> k in l.byTarget[el].vals
    ensures var ids := Dropped(l.byTarget[el], keys, categories);
            AreBadgesOf(l, el, ids) && forall i :: 0 <= i < |ids| ==> l.registry[ids[i]].category in keys
    ensures forall k :: k in keys ==>
              (l.byTarget[el].vals[k] in Dropped(l.byTarget[el], keys, categories) <==> k !in categories)
  {
    if keys != [] {
      var m, k0, rest := l.byTarget[el], keys[0], keys[1..];
      assert keys == [k0] + rest;
      DroppedAreBadges(l, el, rest, categories);
      assert Listed(l, el, k0);
      var ids, id0 := Dropped(m, rest, categories), m.vals[k0];
      forall i | 0 <= i < |ids| ensures ids[i] != id0 {
        assert l.registry[ids[i]].category in rest;
      }
      forall k | k in rest ensures m.vals[k] != id0 {
        assert Listed(l, el, k);
      }
    }
  }

  // Every badge of the element belongs to a category that is gone, and there is at least one.
  ghost predicate DropsAll(l: Layer, el: Element, categories: Categories)
  {
    el in l.byTarget && l.byTarget[el].keys != [] && forall c :: c in l.byTarget[el].vals ==> c !in categories
  }

  ghost function KeptVals(l: Layer, el: Element, categories: Categories): map<string, nat>
  {
    if el in l.byTarget then map c | c in l.byTarget[el].vals && c in categories :: l.byTarget[el].vals[c] else map[]
  }

  // Attached, createBadges works on the element's own map; detached, on an empty one nobody else sees.
  ghost predicate Prepared(l: Layer, w: Work, el: Element, categories: Categories)
  {
    && Inv(w.layer) && w.badgeMap.Valid() && w.layer.nextId == l.nextId
    && (w.attached <==> !DropsAll(l, el, categories))
    && w.badgeMap.vals == KeptVals(l, el, categories)
    && (w.attached ==> el in w.layer.byTarget && w.layer.byTarget[el] == w.badgeMap)
    && (!w.attached ==> el !in w.layer.byTarget && w.badgeMap == Empty())
    && (forall e :: e != el ==> (e in w.layer.byTarget <==> e in l.byTarget))
    && (forall e :: e != el && e in l.byTarget ==> w.layer.byTarget[e] == l.byTarget[e])
    && (forall id :: id in w.layer.registry ==> id in l.registry && w.layer.registry[id] == l.registry[id])
    && (forall id :: id in l.registry && l.registry[id].target != el ==> id in w.layer.registry)
  }

  lemma PrepareNew(l: Layer, el: Element, categories: Categories)
    requires Inv(l) && el !in l.byTarget
    ensures Prepared(l, Prepare(l, el, categories), el, categories)
  {
    var t := Prepare(l, el, categories).layer;
    forall id | id in t.registry ensures Registered(t, id) {
      assert Registered(l, id);
    }
    forall e, c | e in t.byTarget && c in t.byTarget[e].vals ensures Listed(t, e, c) {
      assert Listed(l, e, c);
    }
  }

  lemma SparedAreKept(l: Layer, el: Element, categories: Categories, ids: seq<nat>)
    requires el in l.byTarget
    requires forall k :: k in l.byTarget[el].vals ==> (l.byTarget[el].vals[k] in ids <==> k !in categories)
    ensures Spared(l.byTarget[el].vals, IdSet(ids)) == KeptVals(l, el, categories)
    ensures KeptVals(l, el, categories) == map[] <==> forall c :: c in l.byTarget[el].vals ==> c !in categories
  {
    var kept := KeptVals(l, el, categories);
    assert forall c :: c in l.byTarget[el].vals && c in categories ==> c in kept;
  }

  lemma PrepareExisting(l: Layer, el: Element, categories: Categories)
    requires Inv(l) && el in l.byTarget
    ensures Prepared(l, Prepare(l, el, categories), el, categories)
  {
    var m := l.byTarget[el];
    var ids := Dropped(m, m.keys, categories);
    forall k | k in m.vals ensures Listed(l, el, k) {
    }
    DroppedAreBadges(l, el, m.keys, categories);
    RemoveAllKeepsInv(l, ids);
    RemoveAllRemoves(l, el, ids);
    SparedAreKept(l, el, categories, ids);
    EmptyKeysIffEmptyVals(m);
    if ids == [] {
      assert IdSet(ids) == {};
      assert forall k :: k in m.vals ==> k in m.keys && k in categories;
    } else {
      assert ids[0] in IdSet(ids);
    }
  }

  // ---------- Adding badges ----------

  ghost predicate AttachedTo(w: Work, el: Element)
  {
    Inv(w.layer) && w.attached && el in w.layer.byTarget && w.layer.byTarget[el] == w.badgeMap
  }

  lemma IdsBelowNext(l: Layer)
    requires Inv(l)
    ensures forall id :: id in l.registry ==> id < l.nextId
  {
    forall id | id in l.registry ensures id < l.nextId {
      assert Registered(l, id);
    }
  }

  // A new badge is visible exactly when the element's other badges are.
  lemma NewBadgeMatchesOthers(l: Layer, el: Element)
    requires Inv(l) && el in l.byTarget
    ensures forall i :: i in l.registry && l.registry[i].target == el ==>
      l.registry[i].visible == AnyVisible(l.registry, l.byTarget[el])
  {
    var m := l.byTarget[el];
    forall i | i in l.registry && l.registry[i].target == el
      ensures l.registry[i].visible == AnyVisible(l.registry, m)
    {
      assert Registered(l, i);
      if AnyVisible(l.registry, m) {
        var c :| c in m.vals && m.vals[c] in l.registry && l.registry[m.vals[c]].visible;
        assert Listed(l, el, c);
      }
    }
  }

  // The layer with one more badge for an element that is attached.
  ghost function WithNewBadge(l: Layer, el: Element, cat: string, catIndex: nat, info: Info): Layer
    requires ValidMaps(l) && el in l.byTarget
  {
    var m := l.byTarget[el];
    Layer(l.registry[l.nextId := Record(el, cat, AnyVisible(l.registry, m), catIndex, info)],
          l.byTarget[el := m.Set(cat, l.nextId)], l.nextId + 1, l.observed + {el})
  }

  lemma NewBadgeRegistered(l: Layer, el: Element, cat: string, catIndex: nat, info: Info)
    requires Inv(l) && el in l.byTarget && cat !in l.byTarget[el].vals
    ensures var t := WithNewBadge(l, el, cat, catIndex, info); forall i :: i in t.registry ==> Registered(t, i)
  {
    var t := WithNewBadge(l, el, cat, catIndex, info);
    forall i | i in t.registry ensures Registered(t, i) {
      if i != l.nextId {
        assert Registered(l, i);
      }
    }
  }

  lemma NewBadgeListed(l: Layer, el: Element, cat: string, catIndex: nat, info: Info)
    requires Inv(l) && el in l.byTarget && cat !in l.byTarget[el].vals
    ensures var t := WithNewBadge(l, el, cat, catIndex, info);
            ValidMaps(t) && forall e, c :: e in t.byTarget && c in t.byTarget[e].vals ==> Listed(t, e, c)
  {
    IdsBelowNext(l);
    var t := WithNewBadge(l, el, cat, catIndex, info);
    forall e, c | e in t.byTarget && c in t.byTarget[e].vals ensures Listed(t, e, c) {
      if e in l.byTarget && c in l.byTarget[e].vals {
        assert Listed(l, e, c);
      }
    }
  }

  lemma NewBadgeKeepsInv(l: Layer, el: Element, cat: string, catIndex: nat, info: Info)
    requires Inv(l) && el in l.byTarget && cat !in l.byTarget[el].vals
    ensures Inv(WithNewBadge(l, el, cat, catIndex, info))
  {
    NewBadgeRegistered(l, el, cat, catIndex, info);
    NewBadgeListed(l, el, cat, catIndex, info);
    IdsBelowNext(l);
    NewBadgeMatchesOthers(l, el);
  }

  // The same badges in the same places; only how they look may differ.
  ghost predicate SameShape(l: Layer, t: Layer)
  {
    && t.byTarget == l.byTarget && t.nextId == l.nextId && t.observed == l.observed
    && (forall id :: id in t.registry <==> id in l.registry)
    && (forall id :: id in l.registry ==>
          t.registry[id].target == l.registry[id].target && t.registry[id].category == l.registry[id].category)
  }

  lemma SameShapeKeepsMaps(l: Layer, t: Layer)
    requires Inv(l) && SameShape(l, t)
    ensures forall i :: i in t.registry ==> Registered(t, i)
    ensures forall e, c :: e in t.byTarget && c in t.byTarget[e].vals ==> Listed(t, e, c)
  {
    forall i | i in t.registry ensures Registered(t, i) {
      assert Registered(l, i);
    }
    forall e, c | e in t.byTarget && c in t.byTarget[e].vals ensures Listed(t, e, c) {
      assert Listed(l, e, c);
    }
  }

  lemma ReindexedTogether(registry: map<nat, Record>, id: nat, r: Record)
    requires Together(registry) && id in registry
    requires r.target == registry[id].target && r.visible == registry[id].visible
    ensures Together(registry[id := r])
  {
  }

  lemma ReindexKeepsInv(l: Layer, id: nat, catIndex: nat, info: Info)
    requires Inv(l) && id in l.registry
    ensures Inv(l.(registry := l.registry[id := l.registry[id].(catIndex := catIndex, face := info)]))
  {
    var r := l.registry[id].(catIndex := catIndex, face := info);
    ReindexedTogether(l.registry, id, r);
    SameShapeKeepsMaps(l, l.(registry := l.registry[id := r]));
  }

  lemma AddCategoryAttached(w: Work, el: Element, cat: string, info: Info, catIndex: nat)
    requires AttachedTo(w, el)
    ensures AttachedTo(AddCategory(w, el, cat, info, catIndex), el)
  {
    var l, m := w.layer, w.badgeMap;
    if info.HasIcon() {
      if cat in m.vals {
        assert Listed(l, el, cat);
        ReindexKeepsInv(l, m.vals[cat], catIndex, info);
      } else {
        NewBadgeKeepsInv(l, el, cat, catIndex, info);
        assert m.Size() != 0 ==> l.observed + {el} == l.observed;
        assert AddCategory(w, el, cat, info, catIndex).layer == WithNewBadge(l, el, cat, catIndex, info);
      }
    }
  }

  lemma {:induction false} AddCategoriesAttached(w: Work, el: Element, cats: seq<string>, categories: Categories)
    requires AttachedTo(w, el) && forall c :: c in cats ==> c in categories
    ensures AttachedTo(AddCategories(w, el, cats, categories), el)
  {
    if cats != [] {
      var n := |cats| - 1;
      AddCategoriesAttached(w, el, cats[..n], categories);
      AddCategoryAttached(AddCategories(w, el, cats[..n], categories), el, cats[n], categories[cats[n]], n);
    }
  }

  // Badges that went into a map nobody else sees: registered for an element without a map.
  ghost predicate Stray(w: Work, el: Element)
  {
    && !w.attached && w.badgeMap.Valid() && el !in w.layer.byTarget
    && forall c :: c in w.badgeMap.vals ==>
         w.badgeMap.vals[c] in w.layer.registry && w.layer.registry[w.badgeMap.vals[c]].target == el
  }

  lemma {:induction false} AddCategoriesDetached(w: Work, el: Element, cats: seq<string>, categories: Categories)
    requires Stray(w, el) && w.badgeMap == Empty() && forall c :: c in cats ==> c in categories
    ensures var r := AddCategories(w, el, cats, categories);
            && Stray(r, el)
            && (if exists c :: c in cats && categories[c].HasIcon() then r.badgeMap.vals != map[] else r == w)
  {
    if cats != [] {
      var n := |cats| - 1;
      assert cats == cats[..n] + [cats[n]];
      AddCategoriesDetached(w, el, cats[..n], categories);
      var r := AddCategories(w, el, cats, categories);
      if categories[cats[n]].HasIcon() {
        assert cats[n] in r.badgeMap.vals;
      }
    }
  }

  lemma StrayBreaksInv(w: Work, el: Element)
    requires Stray(w, el) && w.badgeMap.vals != map[]
    ensures !Inv(w.layer)
  {
    var c :| c in w.badgeMap.vals;
    var id := w.badgeMap.vals[c];
    assert !Registered(w.layer, id);
  }

  // ---------- Exactly when createBadges keeps the maps inverse ----------

  // The call drops every badge of an element and goes on to create others.
  ghost predicate Detaches(l: Layer, el: Element, categories: Categories, hasParent: bool)
  {
    hasParent && DropsAll(l, el, categories)
    && exists c :: c in CATEGORY_ORDER && c in categories && categories[c].HasIcon()
  }

  lemma CreateKeepsInvIff(l: Layer, el: Element, categories: Categories, hasParent: bool)
    requires Inv(l)
    ensures Inv(CreateBadges(l, el, categories, hasParent)) <==> !Detaches(l, el, categories, hasParent)
  {
    var active := ActiveCategories(CATEGORY_ORDER, categories);
    ActiveAreGiven(CATEGORY_ORDER, categories);
    RemoveForTargetKeepsInv(l, el);
    if active != [] && hasParent {
      if el in l.byTarget {
        PrepareExisting(l, el, categories);
      } else {
        PrepareNew(l, el, categories);
      }
      var w := Prepare(l, el, categories);
      if w.attached {
        AddCategoriesAttached(w, el, active, categories);
      } else {
        AddCategoriesDetached(w, el, active, categories);
        var r := AddCategories(w, el, active, categories);
        if r.badgeMap.vals != map[] {
          StrayBreaksInv(r, el);
        }
      }
    }
  }

  // An element shows one badge; the next lookup finds another category instead. From an empty page,
  // these two calls leave the maps at odds.
  lemma ReplacingDetaches(el: Element, a: Info, b: Info)
    requires a.HasIcon() && b.HasIcon()
    ensures var l := Layer(map[], map[], 0, {});
            && Inv(l)
            && var m := CreateBadges(l, el, map["authorship" := a], true);
               Inv(m) && !Inv(CreateBadges(m, el, map["method" := b], true))
  {
    var l := Layer(map[], map[], 0, {});
    var first, second := map["authorship" := a], map["method" := b];
    ActiveAreGiven(CATEGORY_ORDER, first);
    assert "authorship" in CATEGORY_ORDER && "method" in CATEGORY_ORDER;
    CreateKeepsInvIff(l, el, first, true);
    CreateShowsCategories(l, el, first);
    var m := CreateBadges(l, el, first, true);
    assert "authorship" in Shown(m, el);
    EmptyKeysIffEmptyVals(m.byTarget[el]);
    assert Detaches(m, el, second, true);
    CreateKeepsInvIff(m, el, second, true);
  }

  // ---------- What createBadges shows ----------

  // Work r after some categories have been added to w.
  ghost predicate Shows(w: Work, r: Work, el: Element, cats: seq<string>, categories: Categories)
    requires forall c :: c in cats ==> c in categories
  {
    && (forall c :: c in r.badgeMap.vals <==> c in w.badgeMap.vals || (c in cats && categories[c].HasIcon()))
    && (forall c :: c in w.badgeMap.vals ==> r.badgeMap.vals[c] == w.badgeMap.vals[c])
    && (forall c :: c in r.badgeMap.vals && c !in w.badgeMap.vals ==> r.badgeMap.vals[c] >= w.layer.nextId)
  }

  lemma {:induction false} AddCategoriesShows(w: Work, el: Element, cats: seq<string>, categories: Categories)
    requires w.badgeMap.Valid() && forall c :: c in cats ==> c in categories
    ensures Shows(w, AddCategories(w, el, cats, categories), el, cats, categories)
    ensures AddCategories(w, el, cats, categories).layer.nextId >= w.layer.nextId
  {
    if cats != [] {
      var n := |cats| - 1;
      assert cats == cats[..n] + [cats[n]];
      AddCategoriesShows(w, el, cats[..n], categories);
    }
  }

  // Records of other elements, and badges that are not among el's, stay as they are.
  ghost predicate LeavesOthers(l: Layer, t: Layer, el: Element)
  {
    && l.nextId <= t.nextId
    && (forall id :: id in t.registry && id !in l.registry ==> l.nextId <= id)
    && (forall id :: id in t.registry && t.registry[id].target != el ==>
          id in l.registry && t.registry[id] == l.registry[id])
    && (forall id :: id in l.registry && l.registry[id].target != el ==>
          id in t.registry && t.registry[id] == l.registry[id])
    && (forall e :: e != el ==> (e in t.byTarget <==> e in l.byTarget))
    && (forall e :: e != el && e in l.byTarget ==> t.byTarget[e] == l.byTarget[e])
  }

  lemma AddCategoryLeavesOthers(w: Work, el: Element, cat: string, info: Info, catIndex: nat)
    requires AttachedTo(w, el)
    ensures LeavesOthers(w.layer, AddCategory(w, el, cat, info, catIndex).layer, el)
  {
    IdsBelowNext(w.layer);
    if cat in w.badgeMap.vals {
      assert Listed(w.layer, el, cat);
    }
  }

  lemma LeavesOthersTransitive(l: Layer, m: Layer, t: Layer, el: Element)
    requires LeavesOthers(l, m, el) && LeavesOthers(m, t, el)
    ensures LeavesOthers(l, t, el)
  {
  }

  lemma {:induction false} AddCategoriesLeavesOthers(w: Work, el: Element, cats: seq<string>, categories: Categories)
    requires AttachedTo(w, el) && forall c :: c in cats ==> c in categories
    ensures LeavesOthers(w.layer, AddCategories(w, el, cats, categories).layer, el)
  {
    if cats != [] {
      var n := |cats| - 1;
      var m := AddCategories(w, el, cats[..n], categories);
      AddCategoriesLeavesOthers(w, el, cats[..n], categories);
      AddCategoriesAttached(w, el, cats[..n], categories);
      AddCategoryLeavesOthers(m, el, cats[n], categories[cats[n]], n);
      LeavesOthersTransitive(w.layer, m.layer, AddCategories(w, el, cats, categories).layer, el);
    }
  }

  ghost predicate PlacedAt(w: Work, cat: string, i: nat, info: Info)
  {
    && cat in w.badgeMap.vals && w.badgeMap.vals[cat] in w.layer.registry
    && w.layer.registry[w.badgeMap.vals[cat]].catIndex == i
    && w.layer.registry[w.badgeMap.vals[cat]].face == info
  }

  lemma AddCategoryPlaces(w: Work, el: Element, cat: string, info: Info, catIndex: nat)
    requires AttachedTo(w, el) && info.HasIcon()
    ensures PlacedAt(AddCategory(w, el, cat, info, catIndex), cat, catIndex, info)
  {
    if cat in w.badgeMap.vals {
      assert Listed(w.layer, el, cat);
    }
  }

  lemma AddCategoryKeepsPlaces(w: Work, el: Element, cat: string, info: Info, catIndex: nat, other: string, i: nat,
                                 otherInfo: Info)
    requires AttachedTo(w, el) && PlacedAt(w, other, i, otherInfo) && other != cat
    ensures PlacedAt(AddCategory(w, el, cat, info, catIndex), other, i, otherInfo)
  {
    IdsBelowNext(w.layer);
    assert Listed(w.layer, el, other);
    if cat in w.badgeMap.vals {
      assert Listed(w.layer, el, cat);
    }
  }

  // The badge of the i-th active category is placed i-th and shows what the lookup says.
  lemma {:induction false} AddCategoriesPlaces(w: Work, el: Element, cats: seq<string>, categories: Categories, i: nat)
    requires AttachedTo(w, el) && forall c :: c in cats ==> c in categories
    requires forall j, k :: 0 <= j < k < |cats| ==> cats[j] != cats[k]
    requires i < |cats| && categories[cats[i]].HasIcon()
    ensures PlacedAt(AddCategories(w, el, cats, categories), cats[i], i, categories[cats[i]])
  {
    var n := |cats| - 1;
    var m := AddCategories(w, el, cats[..n], categories);
    AddCategoriesAttached(w, el, cats[..n], categories);
    if i == n {
      AddCategoryPlaces(m, el, cats[n], categories[cats[n]], n);
    } else {
      AddCategoriesPlaces(w, el, cats[..n], categories, i);
      AddCategoryKeepsPlaces(m, el, cats[n], categories[cats[n]], n, cats[i], i, categories[cats[i]]);
    }
  }

  ghost function Shown(l: Layer, el: Element): map<string, nat>
  {
    if el in l.byTarget then l.byTarget[el].vals else map[]
  }

  // What the element shows in t, compared with what it showed in l and what has been found.
  ghost predicate ShowsFound(l: Layer, t: Layer, el: Element, categories: Categories)
  {
    && (forall c :: c in Shown(t, el) <==>
          c in categories && ((c in CATEGORY_ORDER && categories[c].HasIcon()) || c in Shown(l, el)))
    && (forall c :: c in Shown(t, el) && c in Shown(l, el) ==> Shown(t, el)[c] == Shown(l, el)[c])
  }

  // Badges kept and badges added, seen together.
  lemma KeptAndAdded(l: Layer, w: Work, r: Work, el: Element, cats: seq<string>, categories: Categories)
    requires (forall c :: c in cats <==> c in CATEGORY_ORDER && c in categories)
    requires w.badgeMap.vals == KeptVals(l, el, categories) && Shows(w, r, el, cats, categories)
    requires Shown(r.layer, el) == r.badgeMap.vals
    ensures ShowsFound(l, r.layer, el, categories)
  {
    var kept := KeptVals(l, el, categories);
    assert forall c :: c in kept <==> c in Shown(l, el) && c in categories;
    assert forall c :: c in kept ==> kept[c] == Shown(l, el)[c];
  }

  lemma AttachedShows(l: Layer, w: Work, el: Element, categories: Categories)
    requires Prepared(l, w, el, categories) && w.attached
    ensures var active := ActiveCategories(CATEGORY_ORDER, categories);
            && (forall c :: c in active ==> c in categories)
            && var t := AddCategories(w, el, active, categories).layer;
               LeavesOthers(l, t, el) && ShowsFound(l, t, el, categories)
  {
    var active := ActiveCategories(CATEGORY_ORDER, categories);
    ActiveAreGiven(CATEGORY_ORDER, categories);
    AddCategoriesShows(w, el, active, categories);
    AttachedLeavesOthers(l, w, el, active, categories);
    KeptAndAdded(l, w, AddCategories(w, el, active, categories), el, active, categories);
  }

  lemma AttachedLeavesOthers(l: Layer, w: Work, el: Element, cats: seq<string>, categories: Categories)
    requires Prepared(l, w, el, categories) && w.attached && forall c :: c in cats ==> c in categories
    ensures var r := AddCategories(w, el, cats, categories);
            LeavesOthers(l, r.layer, el) && Shown(r.layer, el) == r.badgeMap.vals
  {
    PreparedLeavesOthers(l, w, el, categories);
    AddCategoriesAttached(w, el, cats, categories);
    AddCategoriesLeavesOthers(w, el, cats, categories);
    LeavesOthersTransitive(l, w.layer, AddCategories(w, el, cats, categories).layer, el);
  }

  lemma DetachedShows(l: Layer, w: Work, el: Element, categories: Categories)
    requires Prepared(l, w, el, categories) && !w.attached && !Detaches(l, el, categories, true)
    ensures var active := ActiveCategories(CATEGORY_ORDER, categories);
            && (forall c :: c in active ==> c in categories)
            && var t := AddCategories(w, el, active, categories).layer;
               LeavesOthers(l, t, el) && ShowsFound(l, t, el, categories)
  {
    ActiveAreGiven(CATEGORY_ORDER, categories);
    PreparedLeavesOthers(l, w, el, categories);
    AddCategoriesDetached(w, el, ActiveCategories(CATEGORY_ORDER, categories), categories);
  }

  // After a call that does not detach, the element shows the categories that are found and either
  // have an icon or were shown before, under the badges they had; other elements are untouched.
  lemma CreateShowsCategories(l: Layer, el: Element, categories: Categories)
    requires Inv(l) && !Detaches(l, el, categories, true)
    requires ActiveCategories(CATEGORY_ORDER, categories) != []
    ensures var t := CreateBadges(l, el, categories, true);
            LeavesOthers(l, t, el) && ShowsFound(l, t, el, categories)
  {
    if el in l.byTarget {
      PrepareExisting(l, el, categories);
    } else {
      PrepareNew(l, el, categories);
    }
    var w := Prepare(l, el, categories);
    if w.attached {
      AttachedShows(l, w, el, categories);
    } else {
      DetachedShows(l, w, el, categories);
    }
  }

  lemma PreparedLeavesOthers(l: Layer, w: Work, el: Element, categories: Categories)
    requires Prepared(l, w, el, categories)
    ensures LeavesOthers(l, w.layer, el)
  {
  }

  // ---------- Runs ----------

  datatype Op =
    | Create(el: Element, categories: Categories, hasParent: bool)
    | RemoveTarget(el: Element)
    | RemoveOne(id: nat)
    | Intersect(el: Element, visible: bool)   // the intersection observer's callback

  function Repaint(registry: map<nat, Record>, ids: set<nat>, visible: bool): map<nat, Record>
  {
    map id | id in registry :: if id in ids then registry[id].(visible := visible) else registry[id]
  }

  function SetVisible(l: Layer, el: Element, visible: bool): Layer
  {
    if el !in l.byTarget then l
    else l.(registry := Repaint(l.registry, IdsOf(l.byTarget[el]), visible))
  }

  ghost function Apply(l: Layer, op: Op): Layer
    requires ValidMaps(l)
  {
    match op
    case Create(el, categories, hasParent) => CreateBadges(l, el, categories, hasParent)
    case RemoveTarget(el) => RemoveForTarget(l, el)
    case RemoveOne(id) => RemoveBadge(l, id)
    case Intersect(el, visible) => SetVisible(l, el, visible)
  }

  ghost predicate Allowed(l: Layer, op: Op)
  {
    op.Create? ==> !Detaches(l, op.el, op.categories, op.hasParent)
  }

  ghost predicate Run(l: Layer, ops: seq<Op>, t: Layer)
    decreases |ops|
  {
    if ops == [] then l == t
    else ValidMaps(l) && Run(Apply(l, ops[0]), ops[1..], t)
  }

  // No call of the run detaches a map.
  ghost predicate AllAllowed(l: Layer, ops: seq<Op>)
    decreases |ops|
  {
    ops != [] ==> ValidMaps(l) && Allowed(l, ops[0]) && AllAllowed(Apply(l, ops[0]), ops[1..])
  }

  // Setting the visibility of one element's badges changes nothing else in the registry.
  ghost predicate Repainted(l: Layer, t: Layer, el: Element, visible: bool)
  {
    && t.byTarget == l.byTarget && t.nextId == l.nextId && t.observed == l.observed
    && (forall id :: id in t.registry <==> id in l.registry)
    && (forall id :: id in l.registry ==>
          t.registry[id] == if l.registry[id].target == el then l.registry[id].(visible := visible) else l.registry[id])
  }

  lemma SetVisibleRepaints(l: Layer, el: Element, visible: bool)
    requires Inv(l) && el in l.byTarget
    ensures Repainted(l, SetVisible(l, el, visible), el, visible)
  {
    IdsAreRegistered(l, el);
  }

  lemma RepaintedTogether(l: Layer, t: Layer, el: Element, visible: bool)
    requires Together(l.registry) && Repainted(l, t, el, visible)
    ensures Together(t.registry)
  {
  }

  lemma RepaintedKeepsInv(l: Layer, t: Layer, el: Element, visible: bool)
    requires Inv(l) && Repainted(l, t, el, visible)
    ensures Inv(t)
  {
    SameShapeKeepsMaps(l, t);
    RepaintedTogether(l, t, el, visible);
  }

  lemma SetVisibleKeepsInv(l: Layer, el: Element, visible: bool)
    requires Inv(l)
    ensures Inv(SetVisible(l, el, visible))
  {
    if el in l.byTarget {
      SetVisibleRepaints(l, el, visible);
      RepaintedKeepsInv(l, SetVisible(l, el, visible), el, visible);
    }
  }

  lemma ApplyKeepsInv(l: Layer, op: Op)
    requires Inv(l) && Allowed(l, op)
    ensures Inv(Apply(l, op))
  {
    match op
    case Create(el, categories, hasParent) => CreateKeepsInvIff(l, el, categories, hasParent);
    case RemoveTarget(el) => RemoveForTargetKeepsInv(l, el);
    case RemoveOne(id) => RemoveBadgeKeepsInv(l, id);
    case Intersect(el, visible) => SetVisibleKeepsInv(l, el, visible);
  }

  // Over every run without a detaching call the two maps stay inverse to each other.
  lemma {:induction false} RunsAreSafe(l: Layer, ops: seq<Op>, t: Layer)
    requires Inv(l) && Run(l, ops, t) && AllAllowed(l, ops)
    ensures Inv(t)
    decreases |ops|
  {
    if ops != [] {
      ApplyKeepsInv(l, ops[0]);
      RunsAreSafe(Apply(l, ops[0]), ops[1..], t);
    }
  }

  // ---------- Ids ----------

  ghost predicate IdsBelow(l: Layer)
  {
    ValidMaps(l) && forall id :: id in l.registry ==> id < l.nextId
  }

  // Badges of t that l does not have use ids never given out before; the others are the badges they were.
  ghost predicate NoReuse(l: Layer, t: Layer)
  {
    && l.nextId <= t.nextId
    && (forall id :: id in t.registry && id !in l.registry ==> l.nextId <= id)
    && (forall id :: id in t.registry && id in l.registry ==>
          t.registry[id].target == l.registry[id].target && t.registry[id].category == l.registry[id].category)
  }

  lemma NoReuseTransitive(l: Layer, m: Layer, t: Layer)
    requires IdsBelow(l) && NoReuse(l, m) && NoReuse(m, t)
    ensures NoReuse(l, t)
  {
  }

  lemma {:induction false} RemoveAllNeverReuses(l: Layer, ids: seq<nat>)
    requires IdsBelow(l)
    ensures IdsBelow(RemoveAll(l, ids)) && NoReuse(l, RemoveAll(l, ids))
    decreases |ids|
  {
    if ids != [] {
      RemoveAllNeverReuses(RemoveBadge(l, ids[0]), ids[1..]);
      NoReuseTransitive(l, RemoveBadge(l, ids[0]), RemoveAll(l, ids));
    }
  }

  lemma AddCategoryNeverReuses(w: Work, el: Element, cat: string, info: Info, catIndex: nat)
    requires IdsBelow(w.layer) && w.badgeMap.Valid()
    ensures var t := AddCategory(w, el, cat, info, catIndex).layer;
            IdsBelow(t) && NoReuse(w.layer, t)
  {
  }

  lemma {:induction false} AddCategoriesNeverReuse(w: Work, el: Element, cats: seq<string>, categories: Categories)
    requires IdsBelow(w.layer) && w.badgeMap.Valid() && forall c :: c in cats ==> c in categories
    ensures var t := AddCategories(w, el, cats, categories).layer;
            IdsBelow(t) && NoReuse(w.layer, t)
  {
    if cats != [] {
      var n := |cats| - 1;
      var m := AddCategories(w, el, cats[..n], categories);
      AddCategoriesNeverReuse(w, el, cats[..n], categories);
      AddCategoryNeverReuses(m, el, cats[n], categories[cats[n]], n);
      NoReuseTransitive(w.layer, m.layer, AddCategories(w, el, cats, categories).layer);
    }
  }

  lemma CreateNeverReuses(l: Layer, el: Element, categories: Categories, hasParent: bool)
    requires IdsBelow(l)
    ensures var t := CreateBadges(l, el, categories, hasParent);
            IdsBelow(t) && NoReuse(l, t)
  {
    var active := ActiveCategories(CATEGORY_ORDER, categories);
    ActiveAreGiven(CATEGORY_ORDER, categories);
    if active != [] && hasParent {
      if el in l.byTarget {
        RemoveAllNeverReuses(l, Dropped(l.byTarget[el], l.byTarget[el].keys, categories));
      }
      PrepareIsValid(l, el, categories);
      var w := Prepare(l, el, categories);
      AddCategoriesNeverReuse(w, el, active, categories);
      NoReuseTransitive(l, w.layer, CreateBadges(l, el, categories, hasParent));
    }
  }

  lemma ApplyNeverReuses(l: Layer, op: Op)
    requires IdsBelow(l)
    ensures IdsBelow(Apply(l, op)) && NoReuse(l, Apply(l, op))
  {
    if op.Create? {
      CreateNeverReuses(l, op.el, op.categories, op.hasParent);
    }
  }

  // Over every run whatever, detaching calls included, an id once given out never names another badge.
  lemma {:induction false} IdsAreNeverReused(l: Layer, ops: seq<Op>, t: Layer)
    requires IdsBelow(l) && Run(l, ops, t)
    ensures IdsBelow(t) && NoReuse(l, t)
    decreases |ops|
  {
    if ops != [] {
      var m := Apply(l, ops[0]);
      ApplyNeverReuses(l, ops[0]);
      IdsAreNeverReused(m, ops[1..], t);
      NoReuseTransitive(l, m, t);
    }
  }
}
