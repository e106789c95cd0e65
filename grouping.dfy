/**
 * `groupProfilesByArea`: a fold of the fetched rows into an object keyed by
 * area, each key holding the rows of that area in arrival order. The object
 * is modelled as the sequence of its (area, rows) entries in key insertion
 * order, which is the order `for…in` visits them provided no area name is a
 * canonical array index such as "12" (JavaScript lists those keys first).
 */
module Grouping {
  import opened Wrappers
  import opened Profiles

  /** One entry of the grouped directory. */
  datatype Group = Group(area: string, members: seq<Profile>)

  /** The areas of `ps` in the order each is first met scanning `ps` once. */
  function FirstSeen(ps: seq<Profile>): (keys: seq<string>)
    ensures forall i, j :: 0 <= i < j < |keys| ==> keys[i] != keys[j]
    ensures forall a :: a in keys <==> exists n :: 0 <= n < |ps| && AreaOf(ps[n]) == a
  {
    if ps == [] then []
    else
      var init := ps[..|ps| - 1];
      var keys := FirstSeen(init);
      var a := AreaOf(ps[|ps| - 1]);
      assert forall n :: 0 <= n < |init| ==> init[n] == ps[n];
      if a in keys then keys else keys + [a]
  }

  /** The rows of `ps` filed under area `a`, in input order. */
  function Members(ps: seq<Profile>, a: string): (r: seq<Profile>)
    ensures |r| <= |ps|
    ensures forall k :: 0 <= k < |r| ==> AreaOf(r[k]) == a
  {
    if ps == [] then []
    else
      var last := ps[|ps| - 1];
      Members(ps[..|ps| - 1], a) + (if AreaOf(last) == a then [last] else [])
  }

  /** One entry per key, each holding that key's rows. */
  function GroupsFor(ps: seq<Profile>, keys: seq<string>): seq<Group> {
    seq(|keys|, j requires 0 <= j < |keys| => Group(keys[j], Members(ps, keys[j])))
  }

  /** The grouped directory `groupProfilesByArea(ps)` describes. */
  function Grouped(ps: seq<Profile>): seq<Group> {
    GroupsFor(ps, FirstSeen(ps))
  }

  /** The rows of all entries, entry after entry. */
  function Flatten(gs: seq<Group>): seq<Profile> {
    if gs == [] then [] else Flatten(gs[..|gs| - 1]) + gs[|gs| - 1].members
  }

  /** Property names every plain object `{}` inherits from `Object.prototype`
      (section 20.1.3 of ECMA-262 and its Annex B). */
  const InheritedKeys: set<string> :=
    {"constructor", "hasOwnProperty", "isPrototypeOf", "propertyIsEnumerable",
     "toLocaleString", "toString", "valueOf", "__proto__",
     "__defineGetter__", "__defineSetter__", "__lookupGetter__", "__lookupSetter__"}

  predicate InheritedKey(a: string) {
    a in InheritedKeys
  }

  /** No row of `ps` is filed under an inherited property name. */
  predicate NoInheritedArea(ps: seq<Profile>) {
    forall n :: 0 <= n < |ps| ==> !InheritedKey(AreaOf(ps[n]))
  }

  /** The reduce of script.js: an object used as a table from area to rows,
      created on first sight of an area and appended to with `push`. An area
      that names an inherited property already reads as truthy, so no array is
      created for it and `push` is called on a function or on
      `Object.prototype`, which throws; that outcome is `None`. */
  method GroupProfilesByArea(profiles: seq<Profile>) returns (result: Option<seq<Group>>)
    ensures result.None? <==> !NoInheritedArea(profiles)
    ensures result.Some? ==> result.value == Grouped(profiles)
  {
    var areas: seq<string> := [];  // the table's keys in insertion order
    var table: map<string, seq<Profile>> := map[];
    for i := 0 to |profiles|
      invariant TableHolds(profiles[..i], areas, table)
      invariant NoInheritedArea(profiles[..i])
    {
      var profile := profiles[i];
      var area := AreaOf(profile);
      if InheritedKey(area) {
        assert !NoInheritedArea(profiles) by {
          assert InheritedKey(AreaOf(profiles[i]));
        }
        return None;
      }
      assert NoInheritedArea(profiles[..i + 1]) by {
        assert profiles[..i + 1] == profiles[..i] + [profile];
      }
      TableStep(profiles, i, areas, table);
      if area !in table {
        table := table[area := []];
        areas := areas + [area];
      }
      table := table[area := table[area] + [profile]];
    }
    assert profiles[..|profiles|] == profiles;
    var groups := seq(|areas|, j requires 0 <= j < |areas| => Group(areas[j], table[areas[j]]));
    return Some(groups);
  }

  /** The table after scanning `ps`: its keys in insertion order are the
      first-seen areas, and each key holds that area's rows. */
  ghost predicate TableHolds(ps: seq<Profile>, areas: seq<string>, table: map<string, seq<Profile>>) {
    && areas == FirstSeen(ps)
    && (forall a :: a in table <==> a in areas)
    && (forall a :: a in table ==> table[a] == Members(ps, a))
  }

  /** One step of the reduce keeps the table in step with the scanned rows. */
  lemma TableStep(ps: seq<Profile>, i: nat, areas: seq<string>, table: map<string, seq<Profile>>)
    requires i < |ps| && TableHolds(ps[..i], areas, table)
    ensures var a := AreaOf(ps[i]);
            var t := if a in table then table else table[a := []];
            TableHolds(ps[..i + 1], if a in table then areas else areas + [a], t[a := t[a] + [ps[i]]])
  {
    assert ps[..i + 1][..i] == ps[..i];
    var a := AreaOf(ps[i]);
    if a !in table {
      MembersEmptyIff(ps[..i], a);
    }
  }

  // ---------------------------------------------------------------------------
  // Properties of the grouped directory
  // ---------------------------------------------------------------------------

  /** An area has rows exactly when it is one of the keys. */
  lemma {:induction false} MembersEmptyIff(ps: seq<Profile>, a: string)
    ensures Members(ps, a) == [] <==> a !in FirstSeen(ps)
  {
    if ps != [] {
      var init := ps[..|ps| - 1];
      MembersEmptyIff(init, a);
      assert forall n :: 0 <= n < |init| ==> init[n] == ps[n];
    }
  }

  /** The keys are distinct, are exactly the areas of the input, come with one
      entry each, and no entry is empty; no input, no entries. */
  lemma GroupedKeys(ps: seq<Profile>)
    ensures |Grouped(ps)| == |FirstSeen(ps)|
    ensures forall i, j :: 0 <= i < j < |Grouped(ps)| ==> Grouped(ps)[i].area != Grouped(ps)[j].area
    ensures forall n :: 0 <= n < |ps| ==> exists j :: 0 <= j < |Grouped(ps)| && Grouped(ps)[j].area == AreaOf(ps[n])
    ensures forall j :: 0 <= j < |Grouped(ps)| ==> Grouped(ps)[j].members != []
    ensures Grouped(ps) == [] <==> ps == []
  {
    var keys := FirstSeen(ps);
    forall j | 0 <= j < |keys|
      ensures Grouped(ps)[j].members != []
    {
      MembersEmptyIff(ps, keys[j]);
    }
    forall n | 0 <= n < |ps|
      ensures exists j :: 0 <= j < |Grouped(ps)| && Grouped(ps)[j].area == AreaOf(ps[n])
    {
      var a := AreaOf(ps[n]);
      assert a in keys;
      var j :| 0 <= j < |keys| && keys[j] == a;
      assert Grouped(ps)[j].area == a;
    }
    if ps != [] {
      assert AreaOf(ps[0]) in keys;
    }
  }

  /** Each entry holds only rows of its own area, so a row belongs to the entry
      whose key is its area and to no other. */
  lemma ExactlyOneGroup(ps: seq<Profile>, n: nat, j: nat)
    requires n < |ps| && j < |Grouped(ps)|
    ensures ps[n] in Grouped(ps)[j].members <==> Grouped(ps)[j].area == AreaOf(ps[n])
  {
    var g := Grouped(ps)[j];
    if g.area == AreaOf(ps[n]) {
      MembersSplit(ps, n, g.area);
      assert ps[n..] == [ps[n]] + ps[n + 1..];
      MembersSplit(ps[n..], 1, g.area);
      assert ps[n..][..1] == [ps[n]];
      assert Members([ps[n]], g.area) == [ps[n]] by {
        assert [ps[n]][..0] == [];
      }
    }
  }

  /** Appending with `push` keeps input order: the rows of an area in the
      whole input are its rows in any prefix followed by its rows in the rest. */
  lemma {:induction false} MembersSplit(ps: seq<Profile>, k: nat, a: string)
    requires k <= |ps|
    ensures Members(ps, a) == Members(ps[..k], a) + Members(ps[k..], a)
  {
    if k == |ps| {
      assert ps[..k] == ps;
      assert ps[k..] == [];
    } else {
      var init := ps[..|ps| - 1];
      MembersSplit(init, k, a);
      assert init[..k] == ps[..k];
      assert ps[k..][..|ps[k..]| - 1] == init[k..];
      assert ps[k..][|ps[k..]| - 1] == ps[|ps| - 1];
    }
  }

  /** Keys follow first sight: if key `j` comes after key `i`, every row filed
      under key `j` is preceded by some row filed under key `i`. */
  lemma {:induction false} FirstSeenOrder(ps: seq<Profile>, i: nat, j: nat, n: nat)
    requires i < j < |FirstSeen(ps)|
    requires n < |ps| && AreaOf(ps[n]) == FirstSeen(ps)[j]
    ensures exists m :: 0 <= m < n && AreaOf(ps[m]) == FirstSeen(ps)[i]
  {
    var init := ps[..|ps| - 1];
    var keys := FirstSeen(init);
    assert forall m :: 0 <= m < |init| ==> init[m] == ps[m];
    if n < |init| {
      // a key first met at the last row cannot be the area of an earlier row
      assert j < |keys|;
      FirstSeenOrder(init, i, j, n);
      var m :| 0 <= m < n && AreaOf(init[m]) == keys[i];
      assert AreaOf(ps[m]) == FirstSeen(ps)[i];
    } else {
      assert FirstSeen(ps)[i] == keys[i];
      assert keys[i] in keys;
    }
  }

  /** Rows of `ps` whose area is one of `keys`, in input order. */
  function Within(ps: seq<Profile>, keys: seq<string>): seq<Profile> {
    if ps == [] then []
    else
      var last := ps[|ps| - 1];
      Within(ps[..|ps| - 1], keys) + (if AreaOf(last) in keys then [last] else [])
  }

  lemma {:induction false} WithinSplit(ps: seq<Profile>, keys: seq<string>, k: string)
    requires k !in keys
    ensures multiset(Within(ps, keys + [k])) == multiset(Within(ps, keys)) + multiset(Members(ps, k))
  {
    if ps != [] {
      WithinSplit(ps[..|ps| - 1], keys, k);
    }
  }

  lemma {:induction false} WithinAll(ps: seq<Profile>, keys: seq<string>)
    requires forall n :: 0 <= n < |ps| ==> AreaOf(ps[n]) in keys
    ensures Within(ps, keys) == ps
  {
    if ps != [] {
      var init := ps[..|ps| - 1];
      assert forall n :: 0 <= n < |init| ==> init[n] == ps[n];
      WithinAll(init, keys);
      assert init + [ps[|ps| - 1]] == ps;
    }
  }

  lemma {:induction false} FlattenGroupsFor(ps: seq<Profile>, keys: seq<string>)
    requires forall i, j :: 0 <= i < j < |keys| ==> keys[i] != keys[j]
    ensures multiset(Flatten(GroupsFor(ps, keys))) == multiset(Within(ps, keys))
  {
    if keys == [] {
      WithinNone(ps);
    } else {
      var init := keys[..|keys| - 1];
      var k := keys[|keys| - 1];
      assert GroupsFor(ps, keys)[..|keys| - 1] == GroupsFor(ps, init);
      FlattenGroupsFor(ps, init);
      assert k !in init;
      assert init + [k] == keys;
      WithinSplit(ps, init, k);
    }
  }

  lemma {:induction false} WithinNone(ps: seq<Profile>)
    ensures Within(ps, []) == []
  {
    if ps != [] {
      WithinNone(ps[..|ps| - 1]);
    }
  }

  /** Grouping is a partition: the entries together hold exactly the input
      rows, each as often as it occurs, so the entry sizes add up to the
      input length. */
  lemma GroupingIsPartition(ps: seq<Profile>)
    ensures multiset(Flatten(Grouped(ps))) == multiset(ps)
    ensures |Flatten(Grouped(ps))| == |ps|
  {
    FlattenGroupsFor(ps, FirstSeen(ps));
    WithinAll(ps, FirstSeen(ps));
    assert |multiset(Flatten(Grouped(ps)))| == |multiset(ps)|;
  }
}
