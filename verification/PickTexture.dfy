/**
 * Choosing the slot an item is drawn from (console/models.rs, `pick_texture`):
 * known slots by priority, any others in alphabetical order, whatever order the
 * hash map happens to enumerate them in.
 */
module PickTexture {
  import opened Wrappers
  import opened Sequences
  import opened Models

  /** Byte order, as Rust compares strings. */
  predicate Precedes(a: string, b: string) {
    b != "" && (a == "" || a[0] < b[0] || (a[0] == b[0] && Precedes(a[1..], b[1..])))
  }

  lemma {:induction false} OrderIsTotal(a: string, b: string)
    ensures Precedes(a, b) || Precedes(b, a) || a == b
    ensures !(Precedes(a, b) && Precedes(b, a)) && !Precedes(a, a)
    decreases |a|
  {
    if a != "" && b != "" {
      OrderIsTotal(a[1..], b[1..]);
      if a[0] == b[0] && a[1..] == b[1..] {
        assert a == [a[0]] + a[1..] && b == [b[0]] + b[1..];
      }
    }
    if a != "" {
      OrderIsTotal(a[1..], a[1..]);
    }
  }

  lemma {:induction false} OrderIsTransitive(a: string, b: string, c: string)
    requires Precedes(a, b) && Precedes(b, c)
    ensures Precedes(a, c)
    decreases |a|
  {
    if a != "" && a[0] == b[0] && b[0] == c[0] {
      OrderIsTransitive(a[1..], b[1..], c[1..]);
    }
  }

  ghost predicate Ascending(s: seq<string>) {
    forall i, j | 0 <= i < j < |s| :: Precedes(s[i], s[j])
  }

  function Insert(x: string, s: seq<string>): seq<string> {
    if s == [] || !Precedes(s[0], x) then [x] + s else [s[0]] + Insert(x, s[1..])
  }

  /** `sort`. */
  function Sort(s: seq<string>): seq<string> {
    if s == [] then [] else Insert(s[0], Sort(s[1..]))
  }

  lemma {:induction false} InsertAscends(x: string, s: seq<string>)
    requires Ascending(s) && x !in s
    ensures Ascending(Insert(x, s))
    ensures forall y :: y in Insert(x, s) <==> y == x || y in s
    decreases |s|
  {
    if s == [] {
    } else if !Precedes(s[0], x) {
      OrderIsTotal(s[0], x);
      forall j | 0 <= j < |s| ensures Precedes(x, s[j]) {
        if j > 0 { OrderIsTransitive(x, s[0], s[j]); }
      }
    } else {
      InsertAscends(x, s[1..]);
      var rest := Insert(x, s[1..]);
      assert s == [s[0]] + s[1..];
      forall j | 0 <= j < |rest| ensures Precedes(s[0], rest[j]) {
        assert rest[j] == x || rest[j] in s[1..];
      }
    }
  }

  lemma {:induction false} SortAscends(s: seq<string>)
    requires NoRepeats(s)
    ensures Ascending(Sort(s)) && forall y :: y in Sort(s) <==> y in s
    decreases |s|
  {
    if s != [] {
      SortAscends(s[1..]);
      assert s == [s[0]] + s[1..];
      InsertAscends(s[0], Sort(s[1..]));
    }
  }

  lemma HasAMember(s: seq<string>)
    ensures s != [] ==> exists y :: y in s
  {
    if s != [] { assert s[0] in s; }
  }

  lemma FirstIsNotRepeated(s: seq<string>)
    requires Ascending(s) && s != []
    ensures s[0] !in s[1..]
    ensures forall y :: y in s[1..] <==> y in s && y != s[0]
  {
    OrderIsTotal(s[0], s[0]);
    assert s == [s[0]] + s[1..];
    assert forall j | 1 <= j < |s| :: Precedes(s[0], s[j]);
  }

  /** There is one ascending enumeration of a set of strings. */
  lemma {:induction false} AscendingIsUnique(a: seq<string>, b: seq<string>)
    requires Ascending(a) && Ascending(b) && forall y :: y in a <==> y in b
    ensures a == b
    decreases |a|
  {
    if a == [] {
      HasAMember(b);
    } else {
      assert a[0] in b;
      HasAMember(b);
      assert b[0] in a;
      HeadsAgree(a, b);
      FirstIsNotRepeated(a);
      FirstIsNotRepeated(b);
      AscendingIsUnique(a[1..], b[1..]);
      assert a == [a[0]] + a[1..] && b == [b[0]] + b[1..];
    }
  }

  lemma HeadsAgree(a: seq<string>, b: seq<string>)
    requires Ascending(a) && Ascending(b) && a != [] && b != [] && a[0] in b && b[0] in a
    ensures a[0] == b[0]
  {
    OrderIsTotal(a[0], b[0]);
  }

  /** The keys that are not among the known slots. */
  function Others(keys: seq<string>): (r: seq<string>)
    ensures forall y :: y in r <==> y in keys && y !in SLOT_PRIORITY
  {
    if keys == [] then []
    else (if keys[0] in SLOT_PRIORITY then [] else [keys[0]]) + Others(keys[1..])
  }

  /** The slots in the order they are tried. */
  function Ordered(keys: seq<string>): seq<string> {
    SLOT_PRIORITY + Sort(Others(keys))
  }

  function FirstResolved(slots: Slots, order: seq<string>): Option<string> {
    if order == [] then None
    else
      match ResolveSlot(slots, order[0])
      case Some(target) => Some(target)
      case None => FirstResolved(slots, order[1..])
  }

  /** `keys` enumerates the hash map, in some order. */
  ghost predicate Enumerates(keys: seq<string>, slots: Slots) {
    NoRepeats(keys) && forall k :: k in keys <==> k in slots
  }

  method Pick(slots: Slots, keys: seq<string>) returns (r: Option<string>)
    requires Enumerates(keys, slots)
    ensures r == FirstResolved(slots, Ordered(keys))
  {
    var order := Ordered(keys);
    ghost var goal := FirstResolved(slots, order);
    assert order[0..] == order;
    for i := 0 to |order|
      invariant FirstResolved(slots, order[i..]) == goal
    {
      TryNext(slots, order, i);
      var resolved := Resolve(slots, order[i]);
      if resolved.Some? {
        return resolved;
      }
    }
    r := None;
  }

  lemma TryNext(slots: Slots, order: seq<string>, i: nat)
    requires i < |order|
    ensures FirstResolved(slots, order[i..])
            == match ResolveSlot(slots, order[i]) case Some(target) => Some(target) case None => FirstResolved(slots, order[i + 1..])
  {
    assert order[i..][1..] == order[i + 1..];
  }

  lemma {:induction false} OthersNoRepeats(keys: seq<string>)
    requires NoRepeats(keys)
    ensures NoRepeats(Others(keys))
    decreases |keys|
  {
    if keys != [] {
      OthersNoRepeats(keys[1..]);
      assert keys[0] !in keys[1..];
    }
  }

  /** The order slots are tried in depends on the map alone. */
  lemma OrderIgnoresEnumeration(slots: Slots, keys: seq<string>, other: seq<string>)
    requires Enumerates(keys, slots) && Enumerates(other, slots)
    ensures Ordered(keys) == Ordered(other)
  {
    OthersNoRepeats(keys);
    OthersNoRepeats(other);
    SortAscends(Others(keys));
    SortAscends(Others(other));
    AscendingIsUnique(Sort(Others(keys)), Sort(Others(other)));
  }

  lemma {:induction false} FirstResolvedIsFirst(slots: Slots, order: seq<string>)
    ensures match FirstResolved(slots, order)
            case Some(target) => exists i | 0 <= i < |order| ::
              ResolveSlot(slots, order[i]) == Some(target) && forall j | 0 <= j < i :: ResolveSlot(slots, order[j]) == None
            case None => forall j | 0 <= j < |order| :: ResolveSlot(slots, order[j]) == None
    decreases |order|
  {
    if order != [] && ResolveSlot(slots, order[0]).None? {
      FirstResolvedIsFirst(slots, order[1..]);
      assert forall j | 1 <= j < |order| :: order[j] == order[1..][j - 1];
    }
  }

  /**
   * The choice depends only on the merged map: it is where the reference chain of
   * the first slot that ends within seven hops leads -- known slots by priority,
   * then the rest in alphabetical order -- and nothing when none does.
   */
  lemma PickedIsTheFirstThatEnds(slots: Slots, keys: seq<string>, other: seq<string>)
    requires Enumerates(keys, slots) && Enumerates(other, slots)
    ensures FirstResolved(slots, Ordered(keys)) == FirstResolved(slots, Ordered(other))
    ensures var known := ["layer0", "all", "side", "texture", "north", "end", "top", "front", "cross", "particle"];
            var rest := Ordered(keys)[|SLOT_PRIORITY|..];
            Ordered(keys) == known + rest && Ascending(rest) && forall k :: k in rest <==> k in slots && k !in known
    ensures match FirstResolved(slots, Ordered(keys))
            case Some(target) => exists i | 0 <= i < |Ordered(keys)| ::
              && EndsWithin(slots, Ordered(keys)[i], 8, target)
              && forall j | 0 <= j < i :: forall t :: !EndsWithin(slots, Ordered(keys)[j], 8, t)
            case None => forall slot, t :: !EndsWithin(slots, slot, 8, t)
  {
    var order := Ordered(keys);
    OrderIgnoresEnumeration(slots, keys, other);
    OthersNoRepeats(keys);
    SortAscends(Others(keys));
    assert order[|SLOT_PRIORITY|..] == Sort(Others(keys));
    FirstResolvedIsFirst(slots, order);
    forall slot, t ensures EndsWithin(slots, slot, 8, t) <==> ResolveSlot(slots, slot) == Some(t) {
      ResolvesWithinSevenHops(slots, slot, t);
    }
    if FirstResolved(slots, order).None? {
      forall slot, t ensures !EndsWithin(slots, slot, 8, t) {
        if slot in slots {
          assert slot in order;
        }
      }
    }
  }

  /** Namespace and file of the chosen texture. */
  function Candidate(picked: Option<string>): Option<(string, string)> {
    match picked
    case None => None
    case Some(location) =>
      var (namespace, path) := SplitLocation(location);
      Some((namespace, path + ".png"))
  }

  /** `resolve_via_model`; the enumeration of the merged map is the hash map's, any at all. */
  method ResolveViaModel(library: Library, namespace: string, name: string) returns (r: Option<(string, string)>)
    ensures var merged := Merged(Chain(library, namespace + ":item/" + name, MAX_PARENT_DEPTH));
            forall keys | Enumerates(keys, merged) :: r == Candidate(FirstResolved(merged, Ordered(keys)))
  {
    var merged := Walk(library, namespace + ":item/" + name);
    var enumeration: seq<string> := [];
    var todo := merged.Keys;
    while todo != {}
      invariant todo <= merged.Keys && NoRepeats(enumeration)
      invariant forall k :: k in enumeration <==> k in merged && k !in todo
      decreases todo
    {
      var k :| k in todo;
      enumeration := enumeration + [k];
      todo := todo - {k};
    }
    var picked := Pick(merged, enumeration);
    r := Candidate(picked);
    forall keys | Enumerates(keys, merged) ensures r == Candidate(FirstResolved(merged, Ordered(keys))) {
      OrderIgnoresEnumeration(merged, keys, enumeration);
    }
  }
}
