/** `traverseConfig` of `src/validate-repo.ts`: a depth-first walk over a parsed
    document that reports every string value of one key (`shortName`) to a
    tracker, together with the path of the object holding it. */
module Traversal {
  import opened Wrappers
  import opened Strings
  import opened JsonValues
  import opened Tracking

  /** The path of member `k` below `path`: `currentPath ? `${currentPath}.${k}` : k`. */
  function MemberPath(path: string, k: string): string
  {
    if path == "" then k else path + "." + k
  }

  /** The path of array element `i` below `path`: `${currentPath}[${i}]`. */
  function ElementPath(path: string, i: nat): string
  {
    path + "[" + NatToString(i) + "]"
  }

  /** The value of `key` on one object, when it is a string, with its path. */
  function OwnOccurrence(members: seq<(string, Json)>, key: string, path: string): seq<(string, string)>
  {
    match Get(members, key)
    case Some(Str(s)) => [(s, MemberPath(path, key))]
    case _ => []
  }

  /** The (value, path) pairs the walk from `j` at `path` hands to the tracker,
      in visiting order. Only objects and arrays are walked into. */
  function Occurrences(j: Json, key: string, path: string): seq<(string, string)>
    decreases j, 2
  {
    match j
    case Obj(ms) => OwnOccurrence(ms, key, path) + MemberOccurrences(j, key, path, |ms|)
    case Arr(xs) => ElementOccurrences(j, key, path, |xs|)
    case _ => []
  }

  /** The pairs found below the first `n` members of the object `parent`. */
  function MemberOccurrences(parent: Json, key: string, path: string, n: nat): seq<(string, string)>
    requires parent.Obj? && n <= |parent.members|
    decreases parent, 1, n
  {
    if n == 0 then []
    else
      var m := parent.members[n - 1];
      assert m in parent.members;
      MemberOccurrences(parent, key, path, n - 1)
        + (if m.1.Obj? || m.1.Arr? then Occurrences(m.1, key, MemberPath(path, m.0)) else [])
  }

  /** The pairs found below the first `n` elements of the array `parent`. */
  function ElementOccurrences(parent: Json, key: string, path: string, n: nat): seq<(string, string)>
    requires parent.Arr? && n <= |parent.items|
    decreases parent, 1, n
  {
    if n == 0 then []
    else
      var x := parent.items[n - 1];
      ElementOccurrences(parent, key, path, n - 1)
        + (if x.Obj? || x.Arr? then Occurrences(x, key, ElementPath(path, n - 1)) else [])
  }

  /** `traverseConfig(config, key, tracker, filepath, currentPath)`: the tracker
      ends up having tracked exactly the occurrences below `config`, in order. */
  method Traverse(config: Json, key: string, tracker: Tracker, currentPath: string)
    modifies tracker
    ensures tracker.Value() == TrackedAll(old(tracker.Value()), Occurrences(config, key, currentPath))
    decreases config, 2
  {
    ghost var before := tracker.Value();
    if config.Obj? {
      var own := Get(config.members, key);
      if own.Some? {
        var fullPath := MemberPath(currentPath, key);
        if own.value.Str? {
          tracker.Track(own.value.str, fullPath);
        }
      }
      ghost var ownPairs := OwnOccurrence(config.members, key, currentPath);
      ghost var middle := tracker.Value();
      assert middle == TrackedAll(before, ownPairs);
      TraverseMembers(config, key, tracker, currentPath);
      TrackedAllConcat(before, ownPairs, MemberOccurrences(config, key, currentPath, |config.members|));
    } else if config.Arr? {
      TraverseElements(config, key, tracker, currentPath);
    }
  }

  /** `Object.entries(config).forEach(...)`: walk into every member that is an
      object or an array, in member order. */
  method TraverseMembers(config: Json, key: string, tracker: Tracker, currentPath: string)
    requires config.Obj?
    modifies tracker
    ensures tracker.Value() == TrackedAll(old(tracker.Value()), MemberOccurrences(config, key, currentPath, |config.members|))
    decreases config, 1
  {
    ghost var before := tracker.Value();
    var ms := config.members;
    var i := 0;
    while i < |ms|
      invariant 0 <= i <= |ms|
      invariant tracker.Value() == TrackedAll(before, MemberOccurrences(config, key, currentPath, i))
    {
      var nestedKey := ms[i].0;
      var value := ms[i].1;
      assert ms[i] in config.members;
      if value.Obj? || value.Arr? {
        var newPath := MemberPath(currentPath, nestedKey);
        Traverse(value, key, tracker, newPath);
        TrackedAllConcat(before, MemberOccurrences(config, key, currentPath, i), Occurrences(value, key, newPath));
      } else {
        assert MemberOccurrences(config, key, currentPath, i + 1) == MemberOccurrences(config, key, currentPath, i);
      }
      i := i + 1;
    }
  }

  /** `config.forEach((item, index) => ...)`: walk into every element that is
      an object or an array, in index order. */
  method TraverseElements(config: Json, key: string, tracker: Tracker, currentPath: string)
    requires config.Arr?
    modifies tracker
    ensures tracker.Value() == TrackedAll(old(tracker.Value()), ElementOccurrences(config, key, currentPath, |config.items|))
    decreases config, 1
  {
    ghost var before := tracker.Value();
    var xs := config.items;
    var i := 0;
    while i < |xs|
      invariant 0 <= i <= |xs|
      invariant tracker.Value() == TrackedAll(before, ElementOccurrences(config, key, currentPath, i))
    {
      var item := xs[i];
      if item.Obj? || item.Arr? {
        var newPath := ElementPath(currentPath, i);
        Traverse(item, key, tracker, newPath);
        TrackedAllConcat(before, ElementOccurrences(config, key, currentPath, i), Occurrences(item, key, newPath));
      } else {
        assert ElementOccurrences(config, key, currentPath, i + 1) == ElementOccurrences(config, key, currentPath, i);
      }
      i := i + 1;
    }
  }

  /** One step into a document: the `i`-th member of an object or the `i`-th
      element of an array. */
  datatype Step = IntoMember(i: nat) | IntoElement(i: nat)

  /** The node that `steps` lead to from `j`, with the path string the walk
      builds for it when it starts at `path`. */
  function Reach(j: Json, steps: seq<Step>, path: string): Option<(Json, string)>
    decreases steps
  {
    if steps == [] then Some((j, path))
    else match steps[0]
      case IntoMember(i) =>
        if j.Obj? && i < |j.members| then Reach(j.members[i].1, steps[1..], MemberPath(path, j.members[i].0)) else None
      case IntoElement(i) =>
        if j.Arr? && i < |j.items| then Reach(j.items[i], steps[1..], ElementPath(path, i)) else None
  }

  /** The walk records `(v, p)` exactly when some object reachable from the
      root has `key` set to the string `v` and `p` is that object's path
      followed by `key`: every nested object and array is visited, and a value
      of `key` that is not a string is ignored. */
  lemma OccurrencesExactly(j: Json, key: string, path: string, v: string, p: string)
    ensures (v, p) in Occurrences(j, key, path) <==>
      exists steps :: Found(j, steps, path, key, v, p)
  {
    if (v, p) in Occurrences(j, key, path) {
      var steps := OccurrenceHasSteps(j, key, path, v, p);
    }
    if exists steps :: Found(j, steps, path, key, v, p) {
      var steps :| Found(j, steps, path, key, v, p);
      StepsGiveOccurrence(j, steps, key, path, v, p);
    }
  }

  /** `steps` lead from `j` to an object whose `key` is the string `v`, and `p`
      is the path of that value. */
  predicate Found(j: Json, steps: seq<Step>, path: string, key: string, v: string, p: string)
  {
    match Reach(j, steps, path)
    case Some((node, q)) => node.Obj? && Get(node.members, key) == Some(Str(v)) && p == MemberPath(q, key)
    case None => false
  }

  lemma {:induction false} OccurrenceHasSteps(j: Json, key: string, path: string, v: string, p: string)
    returns (steps: seq<Step>)
    requires (v, p) in Occurrences(j, key, path)
    ensures Found(j, steps, path, key, v, p)
    decreases j, 2
  {
    match j
    case Obj(ms) =>
      if (v, p) in OwnOccurrence(ms, key, path) {
        steps := [];
      } else {
        steps := MemberOccurrenceHasSteps(j, key, path, |ms|, v, p);
      }
    case Arr(xs) =>
      steps := ElementOccurrenceHasSteps(j, key, path, |xs|, v, p);
  }

  lemma {:induction false} MemberOccurrenceHasSteps(parent: Json, key: string, path: string, n: nat, v: string, p: string)
    returns (steps: seq<Step>)
    requires parent.Obj? && n <= |parent.members|
    requires (v, p) in MemberOccurrences(parent, key, path, n)
    ensures Found(parent, steps, path, key, v, p)
    decreases parent, 1, n
  {
    var m := parent.members[n - 1];
    assert m in parent.members;
    var front := MemberOccurrences(parent, key, path, n - 1);
    var below := if m.1.Obj? || m.1.Arr? then Occurrences(m.1, key, MemberPath(path, m.0)) else [];
    assert MemberOccurrences(parent, key, path, n) == front + below;
    if (v, p) in front {
      steps := MemberOccurrenceHasSteps(parent, key, path, n - 1, v, p);
    } else {
      assert (v, p) in below;
      assert m.1.Obj? || m.1.Arr?;
      var rest := OccurrenceHasSteps(m.1, key, MemberPath(path, m.0), v, p);
      steps := [IntoMember(n - 1)] + rest;
      IntoMemberFound(parent, key, path, n - 1, rest, v, p);
    }
  }

  lemma {:induction false} ElementOccurrenceHasSteps(parent: Json, key: string, path: string, n: nat, v: string, p: string)
    returns (steps: seq<Step>)
    requires parent.Arr? && n <= |parent.items|
    requires (v, p) in ElementOccurrences(parent, key, path, n)
    ensures Found(parent, steps, path, key, v, p)
    decreases parent, 1, n
  {
    var x := parent.items[n - 1];
    assert x in parent.items;
    var front := ElementOccurrences(parent, key, path, n - 1);
    var below := if x.Obj? || x.Arr? then Occurrences(x, key, ElementPath(path, n - 1)) else [];
    assert ElementOccurrences(parent, key, path, n) == front + below;
    if (v, p) in front {
      steps := ElementOccurrenceHasSteps(parent, key, path, n - 1, v, p);
    } else {
      assert (v, p) in below;
      assert x.Obj? || x.Arr?;
      var rest := OccurrenceHasSteps(x, key, ElementPath(path, n - 1), v, p);
      steps := [IntoElement(n - 1)] + rest;
      IntoElementFound(parent, key, path, n - 1, rest, v, p);
    }
  }

  /** A find below member `i` is a find from its parent, one step longer. */
  lemma IntoMemberFound(parent: Json, key: string, path: string, i: nat, rest: seq<Step>, v: string, p: string)
    requires parent.Obj? && i < |parent.members|
    requires Found(parent.members[i].1, rest, MemberPath(path, parent.members[i].0), key, v, p)
    ensures Found(parent, [IntoMember(i)] + rest, path, key, v, p)
  {
    var steps := [IntoMember(i)] + rest;
    assert steps[1..] == rest;
  }

  /** A find below element `i` is a find from its parent, one step longer. */
  lemma IntoElementFound(parent: Json, key: string, path: string, i: nat, rest: seq<Step>, v: string, p: string)
    requires parent.Arr? && i < |parent.items|
    requires Found(parent.items[i], rest, ElementPath(path, i), key, v, p)
    ensures Found(parent, [IntoElement(i)] + rest, path, key, v, p)
  {
    var steps := [IntoElement(i)] + rest;
    assert steps[1..] == rest;
  }

  /** What the walk finds below member `i` is part of what it finds below the
      first `n > i` members. */
  lemma {:induction false} MemberOccurrencesInclude(parent: Json, key: string, path: string, n: nat, i: nat, e: (string, string))
    requires parent.Obj? && i < n <= |parent.members|
    requires parent.members[i].1.Obj? || parent.members[i].1.Arr?
    requires e in Occurrences(parent.members[i].1, key, MemberPath(path, parent.members[i].0))
    ensures e in MemberOccurrences(parent, key, path, n)
  {
    if i < n - 1 {
      MemberOccurrencesInclude(parent, key, path, n - 1, i, e);
    }
  }

  lemma {:induction false} ElementOccurrencesInclude(parent: Json, key: string, path: string, n: nat, i: nat, e: (string, string))
    requires parent.Arr? && i < n <= |parent.items|
    requires parent.items[i].Obj? || parent.items[i].Arr?
    requires e in Occurrences(parent.items[i], key, ElementPath(path, i))
    ensures e in ElementOccurrences(parent, key, path, n)
  {
    if i < n - 1 {
      ElementOccurrencesInclude(parent, key, path, n - 1, i, e);
    }
  }

  lemma {:induction false} StepsGiveOccurrence(j: Json, steps: seq<Step>, key: string, path: string, v: string, p: string)
    requires Found(j, steps, path, key, v, p)
    ensures (v, p) in Occurrences(j, key, path)
    decreases steps
  {
    if steps == [] {
      assert (v, p) in OwnOccurrence(j.members, key, path);
    } else {
      match steps[0]
      case IntoMember(i) =>
        var m := j.members[i];
        assert Found(m.1, steps[1..], MemberPath(path, m.0), key, v, p);
        StepsGiveOccurrence(m.1, steps[1..], key, MemberPath(path, m.0), v, p);
        assert m.1.Obj? || m.1.Arr?;
        MemberOccurrencesInclude(j, key, path, |j.members|, i, (v, p));
      case IntoElement(i) =>
        var x := j.items[i];
        assert Found(x, steps[1..], ElementPath(path, i), key, v, p);
        StepsGiveOccurrence(x, steps[1..], key, ElementPath(path, i), v, p);
        assert x.Obj? || x.Arr?;
        ElementOccurrencesInclude(j, key, path, |j.items|, i, (v, p));
    }
  }
}
