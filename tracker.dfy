/** The value trackers of `src/validate-repo.ts`: a `Record<string, string[]>`
    that groups locations (file paths, or paths inside one document) by the
    value found there. A group with more than one location is a duplicate. */
module Tracking {
  import opened Wrappers
  import opened PropertyOrder

  /** The abstract state of a tracker: each tracked value with its locations,
      in the order they were seen, and the values in the order they were first
      added (which, through `ForInOrder`, fixes the enumeration order). */
  datatype Multimap = Multimap(locations: map<string, seq<string>>, order: seq<string>)

  /** `order` lists every tracked value exactly once. */
  predicate Valid(m: Multimap)
  {
    && (forall i, j :: 0 <= i < j < |m.order| ==> m.order[i] != m.order[j])
    && (forall v :: v in m.locations ==> v in m.order)
    && (forall i :: 0 <= i < |m.order| ==> m.order[i] in m.locations)
  }

  const Empty := Multimap(map[], [])

  /** `trackValueAcrossFiles` / `trackValueWithinConfig`: a falsy value (`''`,
      and `undefined`, which callers pass as `''`) is ignored; any other value
      gets `location` appended to its list, which is created when missing. */
  function Tracked(m: Multimap, value: string, location: string): (r: Multimap)
    ensures value == "" ==> r == m
    ensures value != "" ==> (value in r.locations
      && r.locations[value] == (if value in m.locations then m.locations[value] else []) + [location])
    ensures forall v :: v != value ==> (v in r.locations <==> v in m.locations)
    ensures forall v :: v != value && v in m.locations ==> r.locations[v] == m.locations[v]
    ensures Valid(m) ==> Valid(r)
  {
    if value == "" then m
    else if value in m.locations then Multimap(m.locations[value := m.locations[value] + [location]], m.order)
    else Multimap(m.locations[value := [location]], m.order + [value])
  }

  /** Tracking every (value, location) pair of `pairs`, in order. */
  function TrackedAll(m: Multimap, pairs: seq<(string, string)>): Multimap
  {
    if pairs == [] then m
    else
      var last := pairs[|pairs| - 1];
      Tracked(TrackedAll(m, pairs[..|pairs| - 1]), last.0, last.1)
  }

  /** Tracking `a + b` is tracking `a` and then `b`. */
  lemma {:induction false} TrackedAllConcat(m: Multimap, a: seq<(string, string)>, b: seq<(string, string)>)
    ensures TrackedAll(m, a + b) == TrackedAll(TrackedAll(m, a), b)
  {
    if b == [] {
      assert a + b == a;
    } else {
      var init := b[..|b| - 1];
      TrackedAllConcat(m, a, init);
      assert (a + b)[..|a + b| - 1] == a + init;
      assert (a + b)[|a + b| - 1] == b[|b| - 1];
    }
  }

  /** The locations paired with `value`, in order. */
  function LocationsOf(pairs: seq<(string, string)>, value: string): (r: seq<string>)
    ensures |r| <= |pairs|
  {
    if pairs == [] then []
    else
      var last := pairs[|pairs| - 1];
      LocationsOf(pairs[..|pairs| - 1], value) + (if last.0 == value then [last.1] else [])
  }

  /** After tracking `pairs` from empty, a non-empty value is tracked exactly
      when some pair carries it, its list is every location paired with it in
      order, the empty value is never tracked, and the tracker is valid. */
  lemma {:induction false} TrackedAllGroups(pairs: seq<(string, string)>)
    ensures var m := TrackedAll(Empty, pairs);
      && Valid(m)
      && "" !in m.locations
      && forall v :: v != "" ==>
           (v in m.locations <==> LocationsOf(pairs, v) != [])
           && (v in m.locations ==> m.locations[v] == LocationsOf(pairs, v))
  {
    if pairs != [] {
      TrackedAllGroups(pairs[..|pairs| - 1]);
    }
  }

  /** Every location a tracker holds was a location of one of the pairs. */
  lemma {:induction false} TrackedAllLocationsFrom(pairs: seq<(string, string)>, v: string, loc: string)
    requires v in TrackedAll(Empty, pairs).locations && loc in TrackedAll(Empty, pairs).locations[v]
    ensures exists i :: 0 <= i < |pairs| && pairs[i] == (v, loc)
  {
    var init := pairs[..|pairs| - 1];
    var last := pairs[|pairs| - 1];
    var prev := TrackedAll(Empty, init);
    if v == last.0 && (v !in prev.locations || loc !in prev.locations[v]) {
      assert pairs[|pairs| - 1] == (v, loc);
    } else {
      TrackedAllLocationsFrom(init, v, loc);
      var i :| 0 <= i < |init| && init[i] == (v, loc);
      assert pairs[i] == init[i];
    }
  }

  /** The duplicate groups among `values`: each tracked value whose list has
      more than one location, with that list. */
  function DuplicatesAmong(m: Multimap, values: seq<string>): seq<(string, seq<string>)>
  {
    if values == [] then []
    else
      var v := values[|values| - 1];
      DuplicatesAmong(m, values[..|values| - 1])
        + (if v in m.locations && |m.locations[v]| > 1 then [(v, m.locations[v])] else [])
  }

  /** `for (const value in tracker) if (tracker[value].length > 1) ...`: the
      duplicate groups in the tracker's enumeration order. */
  function Duplicates(m: Multimap): seq<(string, seq<string>)>
  {
    DuplicatesAmong(m, ForInOrder(m.order))
  }

  lemma {:induction false} DuplicatesAmongExactly(m: Multimap, values: seq<string>, v: string, locs: seq<string>)
    ensures (v, locs) in DuplicatesAmong(m, values) <==>
      v in values && v in m.locations && |m.locations[v]| > 1 && locs == m.locations[v]
  {
    if values != [] {
      var init := values[..|values| - 1];
      DuplicatesAmongExactly(m, init, v, locs);
      assert values == init + [values[|values| - 1]];
    }
  }

  lemma {:induction false} DuplicatesAmongDistinct(m: Multimap, values: seq<string>)
    requires forall i, j :: 0 <= i < j < |values| ==> values[i] != values[j]
    ensures var d := DuplicatesAmong(m, values);
      forall i, j :: 0 <= i < j < |d| ==> d[i].0 != d[j].0
  {
    if values != [] {
      var init := values[..|values| - 1];
      var v := values[|values| - 1];
      DuplicatesAmongDistinct(m, init);
      var d := DuplicatesAmong(m, init);
      forall i | 0 <= i < |d| ensures d[i].0 != v {
        DuplicatesAmongExactly(m, init, d[i].0, d[i].1);
        assert d[i] in d;
      }
      assert values == init + [v];
      var d' := DuplicatesAmong(m, values);
      assert d' == d + (if v in m.locations && |m.locations[v]| > 1 then [(v, m.locations[v])] else []);
    }
  }

  /** A group is reported exactly when its value is tracked with more than one
      location, it carries the whole list, and no value is reported twice. */
  lemma DuplicatesExactly(m: Multimap)
    requires Valid(m)
    ensures forall v, locs :: (v, locs) in Duplicates(m) <==>
      v in m.locations && |m.locations[v]| > 1 && locs == m.locations[v]
    ensures var d := Duplicates(m); forall i, j :: 0 <= i < j < |d| ==> d[i].0 != d[j].0
  {
    var values := ForInOrder(m.order);
    forall v, locs ensures (v, locs) in Duplicates(m) <==> v in m.locations && |m.locations[v]| > 1 && locs == m.locations[v] {
      DuplicatesAmongExactly(m, values, v, locs);
      assert v in values <==> v in multiset(m.order);
    }
    DuplicatesDistinct(m);
  }

  /** Each value is reported at most once. */
  lemma DuplicatesDistinct(m: Multimap)
    requires Valid(m)
    ensures var d := Duplicates(m); forall i, j :: 0 <= i < j < |d| ==> d[i].0 != d[j].0
  {
    var values := ForInOrder(m.order);
    ForInOrderDistinct(m.order);
    DuplicatesAmongDistinct(m, values);
    assert Duplicates(m) == DuplicatesAmong(m, values);
  }

  /** A tracker object, updated in place as the source does. */
  class Tracker {
    var locations: map<string, seq<string>>
    var order: seq<string>

    function Value(): Multimap
      reads this
    {
      Multimap(locations, order)
    }

    /** `const tracker: Record<string, string[]> = {}` */
    constructor ()
      ensures Value() == Empty
    {
      locations := map[];
      order := [];
    }

    /** `trackValue*(tracker, value, location)` */
    method Track(value: string, location: string)
      modifies this
      ensures Value() == Tracked(old(Value()), value, location)
    {
      if value == "" {
        return;
      }
      if value !in locations {
        locations := locations[value := []];
        order := order + [value];
      }
      locations := locations[value := locations[value] + [location]];
    }
  }

  /** The members of `Object.prototype`, which every tracker `{}` inherits. */
  const PrototypeMembers: set<string> := {
    "constructor", "__proto__", "hasOwnProperty", "isPrototypeOf",
    "propertyIsEnumerable", "toLocaleString", "toString", "valueOf",
    "__defineGetter__", "__defineSetter__", "__lookupGetter__", "__lookupSetter__"
  }

  datatype TrackFailure = PushIsNotAFunction(value: string)

  /** The tracking functions as written: `if (!tracker[value])` also finds the
      inherited member of that name, so for a value such as `constructor` no
      list is created and `tracker[value].push(...)` throws a TypeError. */
  function TrackedAsWritten(m: Multimap, value: string, location: string): (r: Result<Multimap, TrackFailure>)
    ensures r.Failure? <==> value != "" && value !in m.locations && value in PrototypeMembers
    ensures r.Success? ==> r.value == Tracked(m, value, location)
  {
    if value == "" then Success(m)
    else if value in m.locations then Success(Tracked(m, value, location))
    else if value in PrototypeMembers then Failure(PushIsNotAFunction(value))
    else Success(Tracked(m, value, location))
  }

  /** A page whose `shortName` is `constructor` makes the within-file check
      throw instead of being tracked; `Tracked` records it. */
  lemma PrototypeNameThrows()
    ensures TrackedAsWritten(Empty, "constructor", "chapters[0].pages[0].shortName").Failure?
    ensures Tracked(Empty, "constructor", "chapters[0].pages[0].shortName").locations["constructor"]
      == ["chapters[0].pages[0].shortName"]
  {
  }
}
