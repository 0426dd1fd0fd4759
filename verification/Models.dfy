/**
 * Which texture an item is drawn with (console/models.rs; console/textures.rs,
 * `resolve_via_model`): the parent chain of its model, merged, and `#` references
 * followed to a location.
 */
module Models {
  import opened Wrappers
  import opened Sequences
  import opened Sets

  const MAX_PARENT_DEPTH: nat := 12
  const MAX_REFERENCE_DEPTH: nat := 8

  const SLOT_PRIORITY: seq<string> :=
    ["layer0", "all", "side", "texture", "north", "end", "top", "front", "cross", "particle"]

  type Slots = map<string, string>

  datatype Model = Model(parent: Option<string>, textures: Slots)

  /* ---------------------------------------------------------------- locations */

  function LowerChar(c: char): char {
    if 'A' <= c <= 'Z' then (c as int + 32) as char else c
  }

  function Lower(s: string): string {
    seq(|s|, i requires 0 <= i < |s| => LowerChar(s[i]))
  }

  /** Namespace and path; an unqualified location is vanilla. */
  function SplitLocation(location: string): (string, string) {
    match Position(location, ':')
    case None => ("minecraft", location)
    case Some(i) => (Lower(location[..i]), location[i + 1..])
  }

  predicate IsBuiltin(location: string) {
    var path := SplitLocation(location).1;
    |path| >= 8 && path[..8] == "builtin/"
  }

  /** The model files that can be read and parsed, by namespace and path. */
  type Library = map<(string, string), Model>

  function ModelFile(location: string): (string, string) {
    var (namespace, path) := SplitLocation(location);
    (namespace, "models/" + (path + ".json"))
  }

  /** The file the walk goes to after a model, if any. */
  function ParentOf(model: Model): Option<string> {
    if model.parent.Some? && !IsBuiltin(model.parent.value) then model.parent else None
  }

  /** The models the walk reads, child first. */
  function Chain(library: Library, location: string, left: nat): seq<Model>
    decreases left
  {
    if left == 0 || ModelFile(location) !in library then []
    else
      var model := library[ModelFile(location)];
      match ParentOf(model)
      case None => [model]
      case Some(parent) => [model] + Chain(library, parent, left - 1)
  }

  /** What the game means by a chain: each slot as the nearest model that names it has it. */
  function Nearest(chain: seq<Model>, slot: string): Option<string> {
    if chain == [] then None
    else if slot in chain[0].textures then Some(chain[0].textures[slot])
    else Nearest(chain[1..], slot)
  }

  function Lookup(slots: Slots, slot: string): Option<string> {
    if slot in slots then Some(slots[slot]) else None
  }

  /** `into.entry(slot).or_insert(value)` for every slot of `from`, in whatever order they come. */
  method MergeTextures(into: Slots, from: Slots) returns (merged: Slots)
    ensures merged == from + into
  {
    merged := into;
    var todo := from.Keys;
    while todo != {}
      invariant todo <= from.Keys
      invariant forall k :: k in merged <==> k in into || (k in from && k !in todo)
      invariant forall k | k in merged :: merged[k] == if k in into then into[k] else from[k]
      decreases todo
    {
      var slot :| slot in todo;
      if slot !in merged {
        merged := merged[slot := from[slot]];
      }
      todo := todo - {slot};
    }
  }

  /** The merged map of a chain: what the walk accumulates. */
  function Merged(chain: seq<Model>): Slots {
    if chain == [] then map[] else Merged(chain[1..]) + chain[0].textures
  }

  lemma {:induction false} MergedIsNearest(chain: seq<Model>, slot: string)
    ensures Lookup(Merged(chain), slot) == Nearest(chain, slot)
    decreases |chain|
  {
    if chain != [] {
      MergedIsNearest(chain[1..], slot);
    }
  }

  /** The walk up the parents. */
  method Walk(library: Library, start: string) returns (merged: Slots)
    ensures merged == Merged(Chain(library, start, MAX_PARENT_DEPTH))
  {
    var location := start;
    merged := map[];
    ghost var done: seq<Model> := [];
    for depth := 0 to MAX_PARENT_DEPTH
      invariant merged == Merged(done)
      invariant Chain(library, start, MAX_PARENT_DEPTH) == done + Chain(library, location, MAX_PARENT_DEPTH - depth)
    {
      if ModelFile(location) !in library {
        assert done + [] == done;
        return;
      }
      var model := library[ModelFile(location)];
      merged := MergeTextures(merged, model.textures);
      MergedAtTheEnd(done, model);
      var parent := ParentOf(model);
      if parent.None? {
        done := done + [model];
        return;
      }
      AppendIsAssociative(done, [model], Chain(library, parent.value, MAX_PARENT_DEPTH - depth - 1));
      done := done + [model];
      location := parent.value;
    }
    assert done + [] == done;
  }

  lemma {:induction false} MergedAtTheEnd(done: seq<Model>, model: Model)
    ensures Merged(done + [model]) == model.textures + Merged(done)
    decreases |done|
  {
    if done == [] {
      assert [model][1..] == [];
      assert map[] + model.textures == model.textures && model.textures + map[] == model.textures;
    } else {
      assert (done + [model])[1..] == done[1..] + [model];
      MergedAtTheEnd(done[1..], model);
    }
  }

  /* --------------------------------------------------------------- references */

  predicate IsReference(value: string) {
    value != "" && value[0] == '#'
  }

  /** `resolve_slot`, from a value with `turns` turns of the loop left. */
  function ResolveFrom(slots: Slots, value: string, turns: nat): Option<string>
    decreases turns
  {
    if turns == 0 then None
    else if IsReference(value) then
      (if value[1..] in slots then ResolveFrom(slots, slots[value[1..]], turns - 1) else None)
    else if value == "" then None
    else Some(value)
  }

  function ResolveSlot(slots: Slots, slot: string): Option<string> {
    if slot in slots then ResolveFrom(slots, slots[slot], MAX_REFERENCE_DEPTH) else None
  }

  method Resolve(slots: Slots, slot: string) returns (r: Option<string>)
    ensures r == ResolveSlot(slots, slot)
  {
    if slot !in slots {
      return None;
    }
    var current := slots[slot];
    for turn := 0 to MAX_REFERENCE_DEPTH
      invariant ResolveFrom(slots, current, MAX_REFERENCE_DEPTH - turn) == ResolveSlot(slots, slot)
    {
      if !IsReference(current) {
        return if current == "" then None else Some(current);
      }
      if current[1..] !in slots {
        return None;
      }
      current := slots[current[1..]];
    }
    r := None;
  }

  /** The reference chain of `slot` ends after exactly `hops` hops, at the location `target`. */
  ghost predicate Ends(slots: Slots, slot: string, hops: nat, target: string)
    decreases hops
  {
    slot in slots &&
    if hops == 0 then slots[slot] == target && target != "" && target[0] != '#'
    else slots[slot] != "" && slots[slot][0] == '#' && Ends(slots, slots[slot][1..], hops - 1, target)
  }

  /** The chain of `slot` ends at `target` fewer than `turns` hops away. */
  ghost predicate EndsWithin(slots: Slots, slot: string, turns: nat, target: string) {
    exists hops: nat :: hops < turns && Ends(slots, slot, hops, target)
  }

  lemma EndsOneHopOn(slots: Slots, slot: string, turns: nat, target: string)
    requires slot in slots && IsReference(slots[slot]) && turns > 0
    ensures EndsWithin(slots, slot, turns, target) <==> EndsWithin(slots, slots[slot][1..], turns - 1, target)
  {
    var next := slots[slot][1..];
    if EndsWithin(slots, slot, turns, target) {
      var hops: nat :| hops < turns && Ends(slots, slot, hops, target);
      var fewer: nat := hops - 1;
      assert fewer < turns - 1 && Ends(slots, next, fewer, target);
    }
    if EndsWithin(slots, next, turns - 1, target) {
      var hops: nat :| hops < turns - 1 && Ends(slots, next, hops, target);
      var more: nat := hops + 1;
      assert more < turns && Ends(slots, slot, more, target);
    }
  }

  lemma {:induction false} ResolveFollows(slots: Slots, slot: string, turns: nat, target: string)
    requires slot in slots
    ensures ResolveFrom(slots, slots[slot], turns) == Some(target) <==> EndsWithin(slots, slot, turns, target)
    decreases turns
  {
    if turns > 0 {
      var value := slots[slot];
      if !IsReference(value) {
        var none: nat := 0;
        assert none < turns;
        assert Ends(slots, slot, none, target) <==> ResolveFrom(slots, value, turns) == Some(target);
        forall hops: nat | Ends(slots, slot, hops, target) ensures hops == 0 {
        }
      } else {
        EndsOneHopOn(slots, slot, turns, target);
        if value[1..] in slots {
          ResolveFollows(slots, value[1..], turns - 1, target);
        } else {
          assert forall hops: nat :: !Ends(slots, value[1..], hops, target);
        }
      }
    }
  }

  /** A slot resolves exactly to the end of its reference chain, when that is at most 7 hops away. */
  lemma ResolvesWithinSevenHops(slots: Slots, slot: string, target: string)
    ensures ResolveSlot(slots, slot) == Some(target) <==> EndsWithin(slots, slot, 8, target)
  {
    if slot in slots {
      ResolveFollows(slots, slot, MAX_REFERENCE_DEPTH, target);
    } else {
      assert forall hops: nat :: !Ends(slots, slot, hops, target);
    }
  }

  /** The slot reached after `hops` hops. */
  ghost function Hop(slots: Slots, slot: string, hops: nat, left: nat, target: string): string
    requires Ends(slots, slot, left, target) && hops <= left
    decreases hops
  {
    if hops == 0 then slot else Hop(slots, slots[slot][1..], hops - 1, left - 1, target)
  }

  lemma {:induction false} HopEnds(slots: Slots, slot: string, hops: nat, left: nat, target: string)
    requires Ends(slots, slot, left, target) && hops <= left
    ensures Ends(slots, Hop(slots, slot, hops, left, target), left - hops, target)
    decreases hops
  {
    if hops > 0 {
      HopEnds(slots, slots[slot][1..], hops - 1, left - 1, target);
    }
  }

  /** A chain ends in one place only, a fixed number of hops away. */
  lemma {:induction false} EndIsUnique(slots: Slots, slot: string, a: nat, s: string, b: nat, t: string)
    requires Ends(slots, slot, a, s) && Ends(slots, slot, b, t)
    ensures a == b && s == t
    decreases a
  {
    if a > 0 && b > 0 {
      EndIsUnique(slots, slots[slot][1..], a - 1, s, b - 1, t);
    }
  }

  /** The slots on the way, collected. */
  ghost function OnTheWay(slots: Slots, slot: string, n: nat, left: nat, target: string): set<string>
    requires Ends(slots, slot, left, target) && n <= left + 1
  {
    if n == 0 then {} else OnTheWay(slots, slot, n - 1, left, target) + {Hop(slots, slot, n - 1, left, target)}
  }

  lemma {:induction false} WayIsLong(slots: Slots, slot: string, n: nat, left: nat, target: string)
    requires Ends(slots, slot, left, target) && n <= left + 1
    ensures |OnTheWay(slots, slot, n, left, target)| == n
    ensures OnTheWay(slots, slot, n, left, target) <= slots.Keys
    ensures forall h | n <= h <= left :: Hop(slots, slot, h, left, target) !in OnTheWay(slots, slot, n, left, target)
    decreases n
  {
    if n > 0 {
      WayIsLong(slots, slot, n - 1, left, target);
      HopEnds(slots, slot, n - 1, left, target);
      var here := Hop(slots, slot, n - 1, left, target);
      forall h | n <= h <= left ensures Hop(slots, slot, h, left, target) != here {
        HopEnds(slots, slot, h, left, target);
        if Hop(slots, slot, h, left, target) == here {
          EndIsUnique(slots, here, left - (n - 1), target, left - h, target);
        }
      }
    }
  }

  /** No chain that ends visits a slot twice: it has fewer hops than there are slots. */
  lemma ChainsAreShort(slots: Slots, slot: string, hops: nat, target: string)
    requires Ends(slots, slot, hops, target)
    ensures hops < |slots|
  {
    WayIsLong(slots, slot, hops + 1, hops, target);
    SubsetSize(OnTheWay(slots, slot, hops + 1, hops, target), slots.Keys);
    assert |slots.Keys| == |slots|;
  }

  /** The reference chain of `slot` ends at `target`, however long it is. */
  ghost predicate EndsAt(slots: Slots, slot: string, target: string) {
    exists hops: nat :: Ends(slots, slot, hops, target)
  }

  /** With at most 8 slots the bound loses nothing: a slot resolves exactly when its chain ends at all. */
  lemma BoundIsEnoughForEightSlots(slots: Slots, slot: string, target: string)
    requires |slots| <= 8
    ensures ResolveSlot(slots, slot) == Some(target) <==> EndsAt(slots, slot, target)
  {
    ResolvesWithinSevenHops(slots, slot, target);
    if EndsAt(slots, slot, target) {
      var hops: nat :| Ends(slots, slot, hops, target);
      ChainsAreShort(slots, slot, hops, target);
      assert EndsWithin(slots, slot, 8, target);
    } else {
      assert forall hops: nat :: !Ends(slots, slot, hops, target);
    }
  }

  /** One slot more, and a chain can end out of reach. */
  lemma NineSlotsCanBeTooMany()
    ensures var slots: Slots := map["a" := "#b", "b" := "#c", "c" := "#d", "d" := "#e", "e" := "#f",
                                    "f" := "#g", "g" := "#h", "h" := "#i", "i" := "x"];
            EndsAt(slots, "a", "x") && ResolveSlot(slots, "a") == None
  {
    var slots: Slots := map["a" := "#b", "b" := "#c", "c" := "#d", "d" := "#e", "e" := "#f",
                            "f" := "#g", "g" := "#h", "h" := "#i", "i" := "x"];
    assert "#b"[1..] == "b" && "#c"[1..] == "c" && "#d"[1..] == "d" && "#e"[1..] == "e";
    assert "#f"[1..] == "f" && "#g"[1..] == "g" && "#h"[1..] == "h" && "#i"[1..] == "i";
    assert Ends(slots, "i", 0, "x");
    assert Ends(slots, "h", 1, "x");
    assert Ends(slots, "g", 2, "x");
    assert Ends(slots, "f", 3, "x");
    assert Ends(slots, "e", 4, "x");
    assert Ends(slots, "d", 5, "x");
    assert Ends(slots, "c", 6, "x");
    assert Ends(slots, "b", 7, "x");
    assert Ends(slots, "a", 8, "x");
  }
}
