// The badge overlay as the page holds it: maps updated in place, one map object per element, and a
// local reference to such an object that may outlive its place in targetToBadges.
module Overlay {
  import opened JsMaps
  import opened Badges

  // The Map object from category to badge id.
  class BadgeMap {
    var ids: JsMap<string, nat>

    constructor ()
      ensures ids == Empty()
    {
      ids := Empty();
    }
  }

  lemma {:induction false} RemoveAllSnoc(l: Layer, ids: seq<nat>, id: nat)
    requires ValidMaps(l)
    ensures ValidMaps(RemoveAll(l, ids))
    ensures RemoveAll(l, ids + [id]) == RemoveBadge(RemoveAll(l, ids), id)
    decreases |ids|
  {
    if ids == [] {
      assert ids + [id] == [id];
      assert RemoveAll(l, [id]) == RemoveAll(RemoveBadge(l, id), []);
    } else {
      assert (ids + [id])[1..] == ids[1..] + [id];
      RemoveAllSnoc(RemoveBadge(l, ids[0]), ids[1..], id);
    }
  }

  lemma IdsByKeys(m: JsMap<string, nat>)
    requires m.Valid()
    ensures IdsOf(m) == set k | 0 <= k < |m.keys| :: m.vals[m.keys[k]]
  {
    assert forall c :: c in m.vals ==> c in m.keys;
    assert forall k :: 0 <= k < |m.keys| ==> m.keys[k] in m.keys;
  }

  class Page {
    var badgeRegistry: map<nat, Record>
    var targetToBadges: map<Element, BadgeMap>
    var nextBadgeId: nat
    var observed: set<Element>

    // No two elements share a map object.
    ghost predicate Valid()
      reads `targetToBadges, targetToBadges.Values
    {
      && (forall e :: e in targetToBadges ==> targetToBadges[e].ids.Valid())
      && (forall d, e :: d in targetToBadges && e in targetToBadges && d != e ==>
            targetToBadges[d] != targetToBadges[e])
    }

    ghost function Lists(): map<Element, JsMap<string, nat>>
      reads `targetToBadges, targetToBadges.Values
    {
      map e | e in targetToBadges :: targetToBadges[e].ids
    }

    ghost function View(): Layer
      reads this, targetToBadges.Values
    {
      Layer(badgeRegistry, Lists(), nextBadgeId, observed)
    }

    constructor ()
      ensures Valid() && View() == Layer(map[], map[], 0, {})
      ensures Inv(View()) && IdsBelow(View())
    {
      badgeRegistry, targetToBadges, nextBadgeId, observed := map[], map[], 0, {};
    }

    // badgeMap.delete(category) on an element's own map.
    method DeleteCategory(target: Element, category: string)
      requires Valid() && target in targetToBadges
      modifies targetToBadges[target]
      ensures Valid() && targetToBadges[target].ids == old(targetToBadges[target].ids).Delete(category)
      ensures Lists() == old(Lists())[target := targetToBadges[target].ids]
    {
      targetToBadges[target].ids := targetToBadges[target].ids.Delete(category);
    }

    // The element's map object leaves, and its observers with it.
    method Forget(el: Element)
      requires Valid()
      modifies `targetToBadges, `observed
      ensures Valid() && targetToBadges == old(targetToBadges) - {el} && observed == old(observed) - {el}
      ensures Lists() == old(Lists()) - {el}
    {
      targetToBadges := targetToBadges - {el};
      observed := observed - {el};
    }

    // The part of removeBadge that works on the element's map.
    method Unlist(target: Element, category: string)
      requires Valid() && target in targetToBadges
      modifies `targetToBadges, `observed, targetToBadges[target]
      ensures Valid() && View() == Badges.Unlist(old(View()), target, category)
      ensures targetToBadges == old(targetToBadges)
        || (targetToBadges == old(targetToBadges) - {target} && old(targetToBadges[target]).ids == Empty())
    {
      var badgeMap := targetToBadges[target];
      DeleteCategory(target, category);
      if badgeMap.ids.Size() == 0 {
        EmptyKeysIffEmptyVals(badgeMap.ids);
        Forget(target);
      }
    }

    method RemoveBadge(badgeId: nat)
      requires Valid()
      modifies this, targetToBadges.Values
      ensures Valid() && View() == Badges.RemoveBadge(old(View()), badgeId)
      ensures forall e :: e in targetToBadges ==>
        e in old(targetToBadges) && targetToBadges[e] == old(targetToBadges[e])
      ensures forall e :: e in old(targetToBadges) && e !in targetToBadges ==> old(targetToBadges[e]).ids == Empty()
    {
      ghost var l := View();
      if badgeId !in badgeRegistry {
        return;
      }
      var record := badgeRegistry[badgeId];
      badgeRegistry := badgeRegistry - {badgeId};
      assert View() == l.(registry := l.registry - {badgeId});
      if record.target in targetToBadges {
        Unlist(record.target, record.category);
      }
    }

    // removeBadge for each of a list of ids.
    method RemoveEach(ids: seq<nat>)
      requires Valid()
      modifies this, targetToBadges.Values
      ensures Valid() && View() == RemoveAll(old(View()), ids)
      ensures forall e :: e in targetToBadges ==>
        e in old(targetToBadges) && targetToBadges[e] == old(targetToBadges[e])
      ensures forall e :: e in old(targetToBadges) && e !in targetToBadges ==> old(targetToBadges[e]).ids == Empty()
    {
      ghost var l := View();
      assert ids[..0] == [];
      for i := 0 to |ids|
        invariant Valid() && View() == RemoveAll(l, ids[..i])
        invariant forall e :: e in targetToBadges ==>
          e in old(targetToBadges) && targetToBadges[e] == old(targetToBadges[e])
        invariant forall e :: e in old(targetToBadges) && e !in targetToBadges ==>
          old(targetToBadges[e]).ids == Empty()
      {
        RemoveAllSnoc(l, ids[..i], ids[i]);
        assert ids[..i + 1] == ids[..i] + [ids[i]];
        RemoveBadge(ids[i]);
      }
      assert ids[..|ids|] == ids;
    }

    method RemoveBadgesForTarget(el: Element)
      requires Valid()
      modifies this
      ensures Valid() && View() == RemoveForTarget(old(View()), el)
      ensures targetToBadges == old(targetToBadges) - {el}
    {
      ghost var l := View();
      if el !in targetToBadges {
        return;
      }
      var m := targetToBadges[el].ids;
      for i := 0 to |m.keys|
        invariant targetToBadges == old(targetToBadges) && nextBadgeId == old(nextBadgeId)
        invariant observed == old(observed)
        invariant badgeRegistry == l.registry - set k | 0 <= k < i :: m.vals[m.keys[k]]
      {
        badgeRegistry := badgeRegistry - {m.vals[m.keys[i]]};
      }
      IdsByKeys(m);
      Forget(el);
    }

    // A map object that is the element's own map or nobody's.
    ghost predicate Usable(badgeMap: BadgeMap, el: Element)
      reads `targetToBadges, targetToBadges.Values, badgeMap
    {
      && Valid() && badgeMap.ids.Valid()
      && (el in targetToBadges ==> targetToBadges[el] == badgeMap)
      && (forall e :: e in targetToBadges && e != el ==> targetToBadges[e] != badgeMap)
    }

    ghost function WorkOn(badgeMap: BadgeMap, el: Element): Work
      reads this, targetToBadges.Values, badgeMap
    {
      Work(View(), badgeMap.ids, el in targetToBadges)
    }

    // badgeMap.set(cat, badgeId): the element's list changes with it only while the map is its own.
    method Enlist(badgeMap: BadgeMap, el: Element, cat: string, badgeId: nat)
      requires Usable(badgeMap, el)
      modifies badgeMap
      ensures Usable(badgeMap, el) && badgeMap.ids == old(badgeMap.ids).Set(cat, badgeId)
      ensures Lists()
           == if el in targetToBadges then old(Lists())[el := badgeMap.ids] else old(Lists())
    {
      badgeMap.ids := badgeMap.ids.Set(cat, badgeId);
    }

    method SomeVisible(badgeMap: BadgeMap) returns (visible: bool)
      requires badgeMap.ids.Valid()
      ensures visible == AnyVisible(badgeRegistry, badgeMap.ids)
    {
      EmptyKeysIffEmptyVals(badgeMap.ids);
      var alreadyObserved := badgeMap.ids.Size() > 0;
      visible := alreadyObserved && AnyVisible(badgeRegistry, badgeMap.ids);
    }

    method CreateBadge(badgeMap: BadgeMap, record: Record)
      requires Usable(badgeMap, record.target)
      modifies `badgeRegistry, `nextBadgeId, `observed, badgeMap
      ensures Usable(badgeMap, record.target)
      ensures WorkOn(badgeMap, record.target) == NewBadge(old(WorkOn(badgeMap, record.target)), record)
    {
      var badgeId := nextBadgeId;
      nextBadgeId := nextBadgeId + 1;
      var alreadyObserved := badgeMap.ids.Size() > 0;
      badgeRegistry := badgeRegistry[badgeId := record];
      assert Lists() == old(Lists());
      Enlist(badgeMap, record.target, record.category, badgeId);
      ghost var lists := Lists();
      if !alreadyObserved {
        observed := observed + {record.target};
      }
      assert Lists() == lists;
    }

    // createBadges for one category.
    method AddBadge(el: Element, badgeMap: BadgeMap, cat: string, info: Info, catIndex: nat)
      requires Usable(badgeMap, el)
      modifies `badgeRegistry, `nextBadgeId, `observed, badgeMap
      ensures Usable(badgeMap, el)
      ensures WorkOn(badgeMap, el) == AddCategory(old(WorkOn(badgeMap, el)), el, cat, info, catIndex)
    {
      if !info.HasIcon() {
        return;
      }
      if badgeMap.ids.Has(cat) {
        var badgeId := badgeMap.ids.vals[cat];
        if badgeId in badgeRegistry {
          var record := badgeRegistry[badgeId];
          badgeRegistry := badgeRegistry[badgeId := record.(catIndex := catIndex, face := info)];
        }
        return;
      }
      var isVisible := SomeVisible(badgeMap);
      CreateBadge(badgeMap, Record(el, cat, isVisible, catIndex, info));
    }

    // The last loop of createBadges: one badge for each category that is found, in order.
    method AddBadges(el: Element, badgeMap: BadgeMap, activeCats: seq<string>, categories: Categories)
      requires Usable(badgeMap, el) && forall c :: c in activeCats ==> c in categories
      modifies `badgeRegistry, `nextBadgeId, `observed, badgeMap
      ensures Usable(badgeMap, el)
      ensures WorkOn(badgeMap, el) == AddCategories(old(WorkOn(badgeMap, el)), el, activeCats, categories)
    {
      ghost var w := WorkOn(badgeMap, el);
      var catIndex := 0;
      while catIndex < |activeCats|
        invariant 0 <= catIndex <= |activeCats| && Usable(badgeMap, el)
        invariant WorkOn(badgeMap, el) == AddCategories(w, el, activeCats[..catIndex], categories)
      {
        var cat := activeCats[catIndex];
        assert activeCats[..catIndex + 1][..catIndex] == activeCats[..catIndex];
        AddBadge(el, badgeMap, cat, categories[cat], catIndex);
        catIndex := catIndex + 1;
      }
      assert activeCats[..|activeCats|] == activeCats;
    }

    // The map createBadges goes on with: the element's old one, which the removals may have detached,
    // or a new one.
    method PrepareMap(el: Element, categories: Categories) returns (badgeMap: BadgeMap)
      requires Valid()
      modifies this, targetToBadges.Values
      ensures Usable(badgeMap, el) && (badgeMap in old(targetToBadges.Values) || fresh(badgeMap))
      ensures forall e :: e in targetToBadges && e != el ==>
        e in old(targetToBadges) && targetToBadges[e] == old(targetToBadges[e])
      ensures WorkOn(badgeMap, el) == Prepare(old(View()), el, categories)
    {
      if el in targetToBadges {
        badgeMap := targetToBadges[el];
        RemoveEach(Dropped(badgeMap.ids, badgeMap.ids.keys, categories));
      } else {
        badgeMap := new BadgeMap();
        Attach(el, badgeMap);
      }
    }

    // targetToBadges.set(targetEl, badgeMap) with a map object that is nobody's yet.
    method Attach(el: Element, badgeMap: BadgeMap)
      requires Valid() && el !in targetToBadges && badgeMap.ids == Empty()
      requires forall e :: e in targetToBadges ==> targetToBadges[e] != badgeMap
      modifies `targetToBadges
      ensures Usable(badgeMap, el) && targetToBadges == old(targetToBadges)[el := badgeMap]
      ensures Lists() == old(Lists())[el := Empty()]
    {
      targetToBadges := targetToBadges[el := badgeMap];
    }

    method CreateBadges(targetEl: Element, categories: Categories, hasParent: bool)
      requires Valid()
      modifies this, targetToBadges.Values
      ensures Valid() && View() == Badges.CreateBadges(old(View()), targetEl, categories, hasParent)
      ensures fresh(targetToBadges.Values - old(targetToBadges.Values))
    {
      var activeCats := ActiveCategories(CATEGORY_ORDER, categories);
      ActiveAreGiven(CATEGORY_ORDER, categories);
      if activeCats == [] {
        RemoveBadgesForTarget(targetEl);
        return;
      }
      if !hasParent {
        return;
      }
      PrepareIsValid(View(), targetEl, categories);
      var badgeMap := PrepareMap(targetEl, categories);
      AddBadges(targetEl, badgeMap, activeCats, categories);
    }

    // The intersection observer's callback for one entry.
    method OnIntersect(target: Element, isIntersecting: bool)
      requires Valid()
      modifies `badgeRegistry
      ensures View() == SetVisible(old(View()), target, isIntersecting)
    {
      if target !in targetToBadges {
        return;
      }
      var m := targetToBadges[target].ids;
      for i := 0 to |m.keys|
        invariant badgeRegistry == Repaint(old(badgeRegistry), set k | 0 <= k < i :: m.vals[m.keys[k]], isIntersecting)
      {
        var badgeId := m.vals[m.keys[i]];
        if badgeId in badgeRegistry {
          badgeRegistry := badgeRegistry[badgeId := badgeRegistry[badgeId].(visible := isIntersecting)];
        }
      }
      IdsByKeys(m);
    }
  }
}
