/**
 * What a resource location names (console/models.rs): a namespace, `minecraft`
 * when none is written, and a path; the model file and the texture of that name;
 * and which parents are never followed.
 */
module Locations {
  import opened Wrappers
  import opened Sequences
  import opened Models
  import opened PickTexture

  /** ASCII letters in lower case, every other character as it is. */
  ghost predicate IsLowered(s: string, t: string) {
    |s| == |t| && forall i | 0 <= i < |s| ::
      if 'A' <= s[i] <= 'Z' then t[i] as int == s[i] as int + 32 else t[i] == s[i]
  }

  lemma OneLowering(s: string, t: string)
    ensures t == Lower(s) <==> IsLowered(s, t)
  {
  }

  ghost predicate Names(location: string, namespace: string, path: string) {
    || (':' !in location && namespace == "minecraft" && path == location)
    || exists written :: ':' !in written && location == written + (":" + path) && IsLowered(written, namespace)
  }

  lemma WrittenNamespace(written: string, path: string)
    requires ':' !in written
    ensures SplitLocation(written + (":" + path)) == (Lower(written), path)
  {
    var location := written + (":" + path);
    PositionAfter(written, ":" + path, ':');
    assert (":" + path)[0] == ':';
    assert location[..|written|] == written && location[|written| + 1..] == path;
  }

  lemma LocationExactly(location: string, namespace: string, path: string)
    ensures SplitLocation(location) == (namespace, path) <==> Names(location, namespace, path)
  {
    match Position(location, ':')
    case None =>
      forall written | location == written + (":" + path) ensures ':' in location {
        assert location[|written|] == ':';
      }
    case Some(i) =>
      OneLowering(location[..i], namespace);
      if SplitLocation(location) == (namespace, path) {
        assert location == location[..i] + (":" + path);
      }
      if written: string :| ':' !in written && location == written + (":" + path) && IsLowered(written, namespace) {
        WrittenNamespace(written, path);
        OneLowering(written, namespace);
      }
  }

  /** The files a location stands for. */
  lemma FilesExactly(location: string, namespace: string, path: string)
    requires Names(location, namespace, path)
    ensures ModelFile(location) == (namespace, "models/" + (path + ".json"))
    ensures Candidate(Some(location)) == Some((namespace, path + ".png")) && Candidate(None) == None
    ensures IsBuiltin(location) <==> exists rest :: path == "builtin/" + rest
  {
    LocationExactly(location, namespace, path);
    if IsBuiltin(location) {
      assert path == "builtin/" + path[8..];
    }
    forall rest | path == "builtin/" + rest ensures path[..8] == "builtin/" {
    }
  }

  /** The walk goes on to a parent unless that is one of the game's own. */
  lemma ParentIsFollowed(library: Library, location: string, left: nat, namespace: string, path: string)
    requires ModelFile(location) in library && left > 0
    requires library[ModelFile(location)].parent.Some? && Names(library[ModelFile(location)].parent.value, namespace, path)
    ensures var model := library[ModelFile(location)];
            Chain(library, location, left)
            == if exists rest :: path == "builtin/" + rest then [model]
               else [model] + Chain(library, model.parent.value, left - 1)
  {
    FilesExactly(library[ModelFile(location)].parent.value, namespace, path);
  }

  /** The first character in which two names differ decides, and a name comes before its extensions. */
  ghost predicate Before(a: string, b: string, n: nat) {
    n <= |a| && n < |b| && a[..n] == b[..n] && (n == |a| || a[n] < b[n])
  }

  lemma {:induction false} OrderExactly(a: string, b: string)
    ensures Precedes(a, b) <==> exists n: nat :: Before(a, b, n)
    decreases |a|
  {
    if a != "" && b != "" && a[0] == b[0] {
      OrderExactly(a[1..], b[1..]);
      if n: nat :| Before(a[1..], b[1..], n) {
        assert a[..n + 1] == [a[0]] + a[1..][..n] && b[..n + 1] == [b[0]] + b[1..][..n];
        assert Before(a, b, n + 1);
      }
      if n: nat :| Before(a, b, n) {
        var less: nat := n - 1;
        assert a[1..][..less] == a[..n][1..] && b[1..][..less] == b[..n][1..];
        assert Before(a[1..], b[1..], less);
      }
    } else {
      if Precedes(a, b) { assert Before(a, b, 0); }
      if n: nat :| Before(a, b, n) {
        if n > 0 { assert a[..n][0] == b[..n][0]; }
      }
    }
  }
}
