/**
 * The parent walk (console/textures.rs, `resolve_via_model`) against the parent
 * chain itself, however long: what the bound of twelve models leaves out.
 */
module ParentChains {
  import opened Wrappers
  import opened Sequences
  import opened Sets
  import opened Models

  /** `depth` parents up from `location` stands the first model that has `slot`, and its value is `value`. */
  ghost predicate Defines(library: Library, location: string, depth: nat, slot: string, value: string)
    decreases depth
  {
    ModelFile(location) in library &&
    var model := library[ModelFile(location)];
    if depth == 0 then slot in model.textures && model.textures[slot] == value
    else slot !in model.textures && ParentOf(model).Some? && Defines(library, ParentOf(model).value, depth - 1, slot, value)
  }

  ghost predicate DefinesWithin(library: Library, location: string, left: nat, slot: string, value: string) {
    exists depth: nat :: depth < left && Defines(library, location, depth, slot, value)
  }

  lemma OneParentUp(library: Library, location: string, left: nat, slot: string, value: string)
    requires ModelFile(location) in library && left > 0
    requires slot !in library[ModelFile(location)].textures && ParentOf(library[ModelFile(location)]).Some?
    ensures DefinesWithin(library, location, left, slot, value)
            <==> DefinesWithin(library, ParentOf(library[ModelFile(location)]).value, left - 1, slot, value)
  {
    var parent := ParentOf(library[ModelFile(location)]).value;
    if DefinesWithin(library, location, left, slot, value) {
      var depth: nat :| depth < left && Defines(library, location, depth, slot, value);
      var fewer: nat := depth - 1;
      assert fewer < left - 1 && Defines(library, parent, fewer, slot, value);
    }
    if DefinesWithin(library, parent, left - 1, slot, value) {
      var depth: nat :| depth < left - 1 && Defines(library, parent, depth, slot, value);
      var more: nat := depth + 1;
      assert more < left && Defines(library, location, more, slot, value);
    }
  }

  /** A model that settles the slot, one way or the other. */
  lemma SettledHere(library: Library, location: string, left: nat, slot: string, value: string)
    requires left > 0
    requires ModelFile(location) in library ==>
               slot in library[ModelFile(location)].textures || ParentOf(library[ModelFile(location)]).None?
    ensures DefinesWithin(library, location, left, slot, value) <==>
            && ModelFile(location) in library && slot in library[ModelFile(location)].textures
            && library[ModelFile(location)].textures[slot] == value
  {
    var here: nat := 0;
    assert here < left;
    assert Defines(library, location, here, slot, value) <==>
           && ModelFile(location) in library && slot in library[ModelFile(location)].textures
           && library[ModelFile(location)].textures[slot] == value;
    assert forall depth: nat :: Defines(library, location, depth, slot, value) ==> depth == 0;
  }

  lemma {:induction false} NearestDefines(library: Library, location: string, left: nat, slot: string, value: string)
    ensures Nearest(Chain(library, location, left), slot) == Some(value)
            <==> DefinesWithin(library, location, left, slot, value)
    decreases left
  {
    if left > 0 {
      if ModelFile(location) !in library {
        SettledHere(library, location, left, slot, value);
      } else {
        var model := library[ModelFile(location)];
        var parent := ParentOf(model);
        if slot in model.textures || parent.None? {
          SettledHere(library, location, left, slot, value);
          assert parent.None? ==> [model][1..] == [];
        } else {
          OneParentUp(library, location, left, slot, value);
          NearestDefines(library, parent.value, left - 1, slot, value);
          assert ([model] + Chain(library, parent.value, left - 1))[1..] == Chain(library, parent.value, left - 1);
        }
      }
    }
  }

  /** A slot of the merged map has the value the nearest of the first twelve models in the chain gives it. */
  lemma MergedWithinTwelve(library: Library, location: string, slot: string, value: string)
    ensures Lookup(Merged(Chain(library, location, MAX_PARENT_DEPTH)), slot) == Some(value)
            <==> DefinesWithin(library, location, 12, slot, value)
  {
    MergedIsNearest(Chain(library, location, MAX_PARENT_DEPTH), slot);
    NearestDefines(library, location, MAX_PARENT_DEPTH, slot, value);
  }

  // ---- No chain that defines a slot visits a model twice ----

  /** The place depends on the file alone. */
  lemma {:induction false} DefinedOnce(
    library: Library, l: string, a: nat, m: string, b: nat, slot: string, v: string, w: string)
    requires ModelFile(l) == ModelFile(m) && Defines(library, l, a, slot, v) && Defines(library, m, b, slot, w)
    ensures a == b && v == w
    decreases a
  {
    if a > 0 && b > 0 {
      var parent := ParentOf(library[ModelFile(l)]).value;
      DefinedOnce(library, parent, a - 1, parent, b - 1, slot, v, w);
    }
  }

  /** The model files on the way up, the defining one last. */
  ghost function Way(library: Library, location: string, depth: nat, slot: string, value: string): (w: seq<(string, string)>)
    requires Defines(library, location, depth, slot, value)
    ensures |w| == depth + 1 && w[0] == ModelFile(location)
    decreases depth
  {
    [ModelFile(location)] +
    (if depth == 0 then []
     else Way(library, ParentOf(library[ModelFile(location)]).value, depth - 1, slot, value))
  }

  /** A model from which the slot is further up does not come later on the way. */
  lemma {:induction false} FurtherDownIsNotMet(
    library: Library, m: string, b: nat, location: string, depth: nat, slot: string, value: string)
    requires depth < b && Defines(library, m, b, slot, value) && Defines(library, location, depth, slot, value)
    ensures ModelFile(m) !in Way(library, location, depth, slot, value)
    decreases depth
  {
    if ModelFile(m) == ModelFile(location) {
      DefinedOnce(library, m, b, location, depth, slot, value, value);
    }
    if depth > 0 {
      FurtherDownIsNotMet(library, m, b, ParentOf(library[ModelFile(location)]).value, depth - 1, slot, value);
    }
  }

  lemma {:induction false} WayHasNoRepeats(library: Library, location: string, depth: nat, slot: string, value: string)
    requires Defines(library, location, depth, slot, value)
    ensures var way := Way(library, location, depth, slot, value);
            NoRepeats(way) && forall i | 0 <= i < |way| :: way[i] in library.Keys
    decreases depth
  {
    if depth > 0 {
      var parent := ParentOf(library[ModelFile(location)]).value;
      FurtherDownIsNotMet(library, location, depth, parent, depth - 1, slot, value);
      WayHasNoRepeats(library, parent, depth - 1, slot, value);
    }
  }

  /** A slot is defined fewer parents up than there are models: a circle of parents defines nothing more. */
  lemma DefinedNearby(library: Library, location: string, depth: nat, slot: string, value: string)
    requires Defines(library, location, depth, slot, value)
    ensures depth < |library|
  {
    WayHasNoRepeats(library, location, depth, slot, value);
    var way := Way(library, location, depth, slot, value);
    assert forall f | f in way :: f in library.Keys;
    Pigeonhole(way, library.Keys);
    assert |library.Keys| == |library|;
  }

  /** However far up the chain. */
  ghost predicate DefinesAt(library: Library, location: string, slot: string, value: string) {
    exists depth: nat :: Defines(library, location, depth, slot, value)
  }

  /** With at most twelve models to read, the bounded walk and the unbounded chain agree on every slot. */
  lemma BoundIsEnoughForTwelveModels(library: Library, location: string, slot: string, value: string)
    requires |library| <= 12
    ensures Lookup(Merged(Chain(library, location, MAX_PARENT_DEPTH)), slot) == Some(value)
            <==> DefinesAt(library, location, slot, value)
  {
    MergedWithinTwelve(library, location, slot, value);
    if DefinesAt(library, location, slot, value) {
      var depth: nat :| Defines(library, location, depth, slot, value);
      DefinedNearby(library, location, depth, slot, value);
      assert depth < 12;
    }
  }

  // ---- One model more ----

  /** The names of a tower of models, each the parent of the next longer one. */
  function Name(k: nat): string {
    seq(k + 1, _ => 'm')
  }

  /** Only the lowest model has a texture. */
  function Tower(k: nat): Library {
    if k == 0 then map[ModelFile(Name(0)) := Model(None, map["all" := "t"])]
    else Tower(k - 1)[ModelFile(Name(k)) := Model(Some(Name(k - 1)), map[])]
  }

  lemma NameIsPlain(k: nat)
    ensures ModelFile(Name(k)) == ("minecraft", "models/" + (Name(k) + ".json")) && !IsBuiltin(Name(k))
  {
    assert ':' !in Name(k);
    if |Name(k)| >= 8 {
      assert Name(k)[..8][0] == 'm' && "builtin/"[0] == 'b';
    }
  }

  lemma NamesDiffer(j: nat, k: nat)
    requires j != k
    ensures ModelFile(Name(j)) != ModelFile(Name(k))
  {
    NameIsPlain(j);
    NameIsPlain(k);
    assert |ModelFile(Name(j)).1| == j + 13 && |ModelFile(Name(k)).1| == k + 13;
  }

  lemma {:induction false} TowerHas(k: nat, j: nat)
    ensures ModelFile(Name(j)) in Tower(k) <==> j <= k
    ensures j <= k ==>
              Tower(k)[ModelFile(Name(j))] == if j == 0 then Model(None, map["all" := "t"]) else Model(Some(Name(j - 1)), map[])
    decreases k
  {
    if j != k { NamesDiffer(j, k); }
    if k > 0 { TowerHas(k - 1, j); }
  }

  lemma {:induction false} TowerSize(k: nat)
    ensures |Tower(k)| == k + 1
    decreases k
  {
    if k > 0 {
      TowerSize(k - 1);
      TowerHas(k - 1, k);
    }
  }

  lemma {:induction false} TowerDefines(k: nat, j: nat)
    requires j <= k
    ensures Defines(Tower(k), Name(j), j, "all", "t")
    decreases j
  {
    TowerHas(k, j);
    if j > 0 {
      NameIsPlain(j - 1);
      TowerDefines(k, j - 1);
    }
  }

  /** Thirteen models in a row, and the slot only the thirteenth has is not found. */
  lemma ThirteenModelsCanBeTooMany()
    ensures |Tower(12)| == 13 && DefinesAt(Tower(12), Name(12), "all", "t")
    ensures Lookup(Merged(Chain(Tower(12), Name(12), MAX_PARENT_DEPTH)), "all") == None
  {
    TowerSize(12);
    TowerDefines(12, 12);
    var found := Lookup(Merged(Chain(Tower(12), Name(12), MAX_PARENT_DEPTH)), "all");
    if found.Some? {
      MergedWithinTwelve(Tower(12), Name(12), "all", found.value);
      var depth: nat :| depth < 12 && Defines(Tower(12), Name(12), depth, "all", found.value);
      DefinedOnce(Tower(12), Name(12), depth, Name(12), 12, "all", found.value, "t");
    }
  }
}
