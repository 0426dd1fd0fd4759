/**
 * Looking a texture up (console/mod_assets.rs, `best_match`, `read_from_jar` and
 * `get`): through the index, and why that misses nothing.
 */
module ModLookup {
  import opened Wrappers
  import opened Bytes
  import opened Sequences
  import opened ModIndex

  /* ------------------------------------------------------------ the fallback scan */

  /** Smaller is better: exact before qualified, then the shorter stem. */
  datatype Score = Score(rank: nat, length: nat)

  predicate Better(a: Score, b: Score) {
    a.rank < b.rank || (a.rank == b.rank && a.length < b.length)
  }

  function ScoreOf(entry: string, prefix: string, name: string): Option<Score> {
    match StripPrefix(entry, prefix)
    case None => None
    case Some(rest) =>
      match StripSuffix(rest, ".png")
      case None => None
      case Some(path) =>
        var stem := FileStem(path);
        if stem == name then Some(Score(0, |stem|))
        else if StartsWith(stem, name + "_") then Some(Score(1, |stem|))
        else None
  }

  /** The entry `best_match` holds after the first `n` names. */
  function BestOf(names: seq<string>, n: nat, prefix: string, name: string): (r: Option<nat>)
    requires n <= |names|
    ensures r.Some? ==> r.value < n && ScoreOf(names[r.value], prefix, name).Some?
  {
    if n == 0 then None
    else
      var best := BestOf(names, n - 1, prefix, name);
      var score := ScoreOf(names[n - 1], prefix, name);
      if score.Some? && (best.None? || Better(score.value, ScoreOf(names[best.value], prefix, name).value)) then Some(n - 1)
      else best
  }

  function BestMatch(names: seq<string>, prefix: string, name: string): Option<string> {
    match BestOf(names, |names|, prefix, name) case None => None case Some(i) => Some(names[i])
  }

  method FindBestMatch(names: seq<string>, prefix: string, name: string) returns (r: Option<string>)
    ensures r == BestMatch(names, prefix, name)
  {
    var best: Option<(Score, nat)> := None;
    for i := 0 to |names|
      invariant best.None? <==> BestOf(names, i, prefix, name).None?
      invariant best.Some? ==> BestOf(names, i, prefix, name) == Some(best.value.1) &&
                               ScoreOf(names[best.value.1], prefix, name) == Some(best.value.0)
    {
      var score := ScoreOf(names[i], prefix, name);
      if score.Some? && (best.None? || Better(score.value, best.value.0)) {
        best := Some((score.value, i));
      }
    }
    r := if best.None? then None else Some(names[best.value.1]);
  }

  /** The first entry with the best score of all. */
  ghost predicate IsFirstBest(names: seq<string>, n: nat, prefix: string, name: string, i: nat)
    requires n <= |names|
  {
    && i < n && ScoreOf(names[i], prefix, name).Some?
    && (forall j | 0 <= j < n && ScoreOf(names[j], prefix, name).Some? ::
          !Better(ScoreOf(names[j], prefix, name).value, ScoreOf(names[i], prefix, name).value))
    && (forall j | 0 <= j < i && ScoreOf(names[j], prefix, name).Some? ::
          Better(ScoreOf(names[i], prefix, name).value, ScoreOf(names[j], prefix, name).value))
  }

  /** What the scan holds, or that there is nothing to hold. */
  ghost predicate IsBest(names: seq<string>, n: nat, prefix: string, name: string, best: Option<nat>)
    requires n <= |names|
  {
    match best
    case None => forall j | 0 <= j < n :: ScoreOf(names[j], prefix, name).None?
    case Some(i) => IsFirstBest(names, n, prefix, name, i)
  }

  lemma OneMoreName(names: seq<string>, n: nat, prefix: string, name: string, best: Option<nat>)
    requires n < |names| && IsBest(names, n, prefix, name, best)
    ensures var score := ScoreOf(names[n], prefix, name);
            IsBest(names, n + 1, prefix, name,
                   if score.Some? && (best.None? || Better(score.value, ScoreOf(names[best.value], prefix, name).value))
                   then Some(n) else best)
  {
  }

  lemma {:induction false} ScanFindsTheFirstBest(names: seq<string>, n: nat, prefix: string, name: string)
    requires n <= |names|
    ensures IsBest(names, n, prefix, name, BestOf(names, n, prefix, name))
    decreases n
  {
    if n > 0 {
      ScanFindsTheFirstBest(names, n - 1, prefix, name);
      OneMoreName(names, n - 1, prefix, name, BestOf(names, n - 1, prefix, name));
    }
  }

  /** What an entry has to be to be considered at all. */
  lemma ScoredEntries(entry: string, prefix: string, name: string)
    ensures ScoreOf(entry, prefix, name).Some? <==>
            exists path :: entry == prefix + (path + ".png") && (FileStem(path) == name || StartsWith(FileStem(path), name + "_"))
  {
    if ScoreOf(entry, prefix, name).Some? {
      var rest := entry[|prefix|..];
      var path := rest[..|rest| - 4];
      assert entry == prefix + (path + ".png");
    }
    forall path | entry == prefix + (path + ".png") && (FileStem(path) == name || StartsWith(FileStem(path), name + "_"))
      ensures ScoreOf(entry, prefix, name).Some?
    {
      assert entry[..|prefix|] == prefix && entry[|prefix|..] == path + ".png";
      assert (path + ".png")[|path|..] == ".png" && (path + ".png")[..|path|] == path;
    }
  }

  /**
   * The fallback returns the first entry of the texture folder that is named
   * after the item most exactly, and nothing exactly when no file stem is the
   * name or begins with the name and an underscore.
   */
  lemma BestMatchIsFirstBest(names: seq<string>, prefix: string, name: string)
    ensures match BestMatch(names, prefix, name)
            case Some(entry) => exists i: nat :: IsFirstBest(names, |names|, prefix, name, i) && names[i] == entry
            case None =>
              forall j | 0 <= j < |names| ::
                !exists path :: names[j] == prefix + (path + ".png") &&
                                (FileStem(path) == name || StartsWith(FileStem(path), name + "_"))
  {
    ScanFindsTheFirstBest(names, |names|, prefix, name);
    forall j | 0 <= j < |names| && BestMatch(names, prefix, name).None?
      ensures !exists path :: names[j] == prefix + (path + ".png") &&
                              (FileStem(path) == name || StartsWith(FileStem(path), name + "_"))
    {
      ScoredEntries(names[j], prefix, name);
    }
  }

  /* ------------------------------------------------------------------ one jar */

  function TexturePrefix(namespace: string): string {
    "assets/" + (namespace + "/textures/")
  }

  /** The first candidate path the jar has. */
  function FirstCandidate(names: seq<string>, prefix: string, candidates: seq<string>): Option<string> {
    if candidates == [] then None
    else if prefix + candidates[0] in names then Some(prefix + candidates[0])
    else FirstCandidate(names, prefix, candidates[1..])
  }

  function Find(jar: Jar, namespace: string, name: string, candidates: seq<string>): Option<string> {
    var prefix := TexturePrefix(namespace);
    match FirstCandidate(jar.names, prefix, candidates)
    case Some(path) => Some(path)
    case None => BestMatch(jar.names, prefix, name)
  }

  function ReadFromJar(disk: Disk, source: JarSource, namespace: string, name: string, candidates: seq<string>)
    : Option<seq<Byte>>
  {
    match Open(disk, source)
    case None => None
    case Some(jar) =>
      match Find(jar, namespace, name, candidates)
      case None => None
      case Some(found) =>
        if found !in jar.contents || |jar.contents[found]| > MAX_TEXTURE_BYTES || jar.contents[found] == [] then None
        else Some(jar.contents[found])
  }

  /** The first source that answers. */
  function FirstAnswer(
    disk: Disk, sources: seq<JarSource>, namespace: string, name: string, candidates: seq<string>): Option<seq<Byte>>
  {
    if sources == [] then None
    else
      match ReadFromJar(disk, sources[0], namespace, name, candidates)
      case Some(bytes) => Some(bytes)
      case None => FirstAnswer(disk, sources[1..], namespace, name, candidates)
  }

  /** `ModAssets::get`, on a built index. */
  method Get(disk: Disk, index: Index, namespace: string, name: string, candidates: seq<string>)
    returns (r: Option<seq<Byte>>)
    ensures r == FirstAnswer(disk, Entry(index, namespace), namespace, name, candidates)
  {
    if namespace !in index {
      return None;
    }
    var jars := index[namespace];
    assert jars[0..] == jars;
    for i := 0 to |jars|
      invariant FirstAnswer(disk, jars[i..], namespace, name, candidates)
             == FirstAnswer(disk, jars, namespace, name, candidates)
    {
      assert jars[i..][1..] == jars[i + 1..];
      var bytes := ReadFromJar(disk, jars[i], namespace, name, candidates);
      if bytes.Some? {
        return bytes;
      }
    }
    r := None;
  }

  /* ----------------------------------------------------- what the index leaves out */

  function Providers(disk: Disk, sources: seq<JarSource>, namespace: string): seq<JarSource> {
    if sources == [] then []
    else (if namespace in Namespaces(disk, sources[0]) then [sources[0]] else []) + Providers(disk, sources[1..], namespace)
  }

  /** An index entry is the sources that declare the namespace, in discovery order. */
  lemma {:induction false} EntryIsTheProviders(disk: Disk, index: Index, sources: seq<JarSource>, namespace: string)
    ensures Entry(RecordedAll(disk, index, sources), namespace)
            == Entry(index, namespace) + Providers(disk, sources, namespace)
    decreases |sources|
  {
    if sources == [] {
      assert Entry(index, namespace) + [] == Entry(index, namespace);
    } else {
      var next := Recorded(index, sources[0], Namespaces(disk, sources[0]));
      EntryIsTheProviders(disk, next, sources[1..], namespace);
      var own: seq<JarSource> := if namespace in Namespaces(disk, sources[0]) then [sources[0]] else [];
      assert Entry(next, namespace) == Entry(index, namespace) + own;
      AppendIsAssociative(Entry(index, namespace), own, Providers(disk, sources[1..], namespace));
    }
  }

  lemma AllowedHasNoSlash(namespace: string)
    requires Allowed(namespace)
    ensures '/' !in namespace
  {
  }

  lemma FirstSlash(a: string, b: string)
    requires '/' !in a
    ensures var s := a + ("/" + b); Position(s, '/') == Some(|a|) && s[..|a|] == a && s[|a| + 1..] == b
  {
    PositionAfter(a, "/" + b, '/');
    assert ("/" + b)[0] == '/';
  }

  lemma BeginsWithIt(prefix: string, rest: string)
    ensures StartsWith(prefix + rest, prefix) && (prefix + rest)[|prefix|..] == rest
  {
  }

  /** A name and a folder, read back from an entry. */
  lemma NamespaceIsRead(namespace: string, folder: string, rest: string)
    requires '/' !in namespace
    ensures var entry := "assets/" + (namespace + ("/" + (folder + rest)));
            && StartsWith(entry, "assets/") && Position(entry[7..], '/') == Some(|namespace|)
            && entry[7..][..|namespace|] == namespace && StartsWith(entry[7..][|namespace| + 1..], folder)
  {
    BeginsWithIt("assets/", namespace + ("/" + (folder + rest)));
    FirstSlash(namespace, folder + rest);
    BeginsWithIt(folder, rest);
  }

  lemma FolderDeclares(entry: string, namespace: string, folder: string, rest: string)
    requires Allowed(namespace) && entry == "assets/" + (namespace + ("/" + (folder + rest)))
    requires (folder == "textures/" && EndsWith(entry, ".png")) || (folder == "models/" && EndsWith(entry, ".json"))
    ensures NamespaceOf(entry) == Some(namespace)
  {
    AllowedHasNoSlash(namespace);
    NamespaceIsRead(namespace, folder, rest);
  }

  /** Any `.png` under a namespace's texture folder declares that namespace. */
  lemma TextureDeclaresNamespace(namespace: string, path: string)
    requires Allowed(namespace) && EndsWith(TexturePrefix(namespace) + path, ".png")
    ensures NamespaceOf(TexturePrefix(namespace) + path) == Some(namespace)
  {
    var entry := TexturePrefix(namespace) + path;
    assert "/textures/" + path == "/" + ("textures/" + path);
    assert entry == "assets/" + (namespace + ("/textures/" + path));
    FolderDeclares(entry, namespace, "textures/", path);
  }

  lemma {:induction false} CandidateIsListed(names: seq<string>, prefix: string, candidates: seq<string>)
    requires FirstCandidate(names, prefix, candidates).Some?
    ensures exists c :: c in candidates && FirstCandidate(names, prefix, candidates).value == prefix + c && prefix + c in names
    decreases |candidates|
  {
    if prefix + candidates[0] !in names {
      CandidateIsListed(names, prefix, candidates[1..]);
    }
  }

  lemma EndStaysEnd(a: string, b: string, suffix: string)
    requires EndsWith(b, suffix)
    ensures EndsWith(a + b, suffix)
  {
  }

  /** Whatever a jar finds, it declares the namespace it was asked for. */
  lemma FoundIsDeclared(jar: Jar, namespace: string, name: string, candidates: seq<string>)
    requires Allowed(namespace) && forall c | c in candidates :: EndsWith(c, ".png")
    requires Find(jar, namespace, name, candidates).Some?
    ensures namespace in NamespacesIn(jar.names)
  {
    var prefix := TexturePrefix(namespace);
    var found := Find(jar, namespace, name, candidates).value;
    var path: string;
    if FirstCandidate(jar.names, prefix, candidates).Some? {
      CandidateIsListed(jar.names, prefix, candidates);
      var c :| c in candidates && found == prefix + c && prefix + c in jar.names;
      path := c;
    } else {
      ScoredEntries(found, prefix, name);
      var p :| found == prefix + (p + ".png");
      path := p + ".png";
      assert path[|p|..] == ".png";
    }
    EndStaysEnd(prefix, path, ".png");
    TextureDeclaresNamespace(namespace, path);
    assert NamespaceOf(found).value in NamespacesIn(jar.names);
  }

  lemma {:induction false} OthersNeverAnswer(
    disk: Disk, sources: seq<JarSource>, namespace: string, name: string, candidates: seq<string>)
    requires Allowed(namespace) && forall c | c in candidates :: EndsWith(c, ".png")
    ensures FirstAnswer(disk, Providers(disk, sources, namespace), namespace, name, candidates)
            == FirstAnswer(disk, sources, namespace, name, candidates)
    decreases |sources|
  {
    if sources != [] {
      OthersNeverAnswer(disk, sources[1..], namespace, name, candidates);
      var rest := Providers(disk, sources[1..], namespace);
      if namespace in Namespaces(disk, sources[0]) {
        assert ([sources[0]] + rest)[1..] == rest;
      } else {
        assert [] + rest == rest;
        var jar := Open(disk, sources[0]);
        if jar.Some? && Find(jar.value, namespace, name, candidates).Some? {
          FoundIsDeclared(jar.value, namespace, name, candidates);
        }
      }
    }
  }

  function IndexOf(disk: Disk): Index {
    RecordedAll(disk, map[], Discovered(disk, disk.listing, MAX_JARS))
  }

  /**
   * Looking through the index gives the same answer as trying every jar and
   * bundled jar in discovery order, whatever the item.
   */
  lemma IndexMissesNothing(disk: Disk, namespace: string, name: string, candidates: seq<string>)
    requires Allowed(namespace) && forall c | c in candidates :: EndsWith(c, ".png")
    ensures FirstAnswer(disk, Entry(IndexOf(disk), namespace), namespace, name, candidates)
            == FirstAnswer(disk, Discovered(disk, disk.listing, MAX_JARS), namespace, name, candidates)
  {
    var sources := Discovered(disk, disk.listing, MAX_JARS);
    EntryIsTheProviders(disk, map[], sources, namespace);
    assert [] + Providers(disk, sources, namespace) == Providers(disk, sources, namespace);
    OthersNeverAnswer(disk, sources, namespace, name, candidates);
  }

  lemma {:induction false} OnlyAllowedAreProvided(disk: Disk, sources: seq<JarSource>, namespace: string)
    requires !Allowed(namespace)
    ensures Providers(disk, sources, namespace) == []
    decreases |sources|
  {
    if sources != [] {
      OnlyAllowedAreProvided(disk, sources[1..], namespace);
    }
  }

  /** A namespace outside the allowlist is in no index, whatever the jars hold. */
  lemma DisallowedIsNeverFound(disk: Disk, namespace: string, name: string, candidates: seq<string>)
    requires !Allowed(namespace)
    ensures FirstAnswer(disk, Entry(IndexOf(disk), namespace), namespace, name, candidates) == None
  {
    EntryIsTheProviders(disk, map[], Discovered(disk, disk.listing, MAX_JARS), namespace);
    OnlyAllowedAreProvided(disk, Discovered(disk, disk.listing, MAX_JARS), namespace);
  }
}
