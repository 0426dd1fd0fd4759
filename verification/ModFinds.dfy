/**
 * What a lookup in the mods directory finds (console/mod_assets.rs), in terms of
 * the files alone: which picture of a jar is taken, which jars are looked into,
 * and what an entry has to be called for its namespace to count.
 */
module ModFinds {
  import opened Wrappers
  import opened Bytes
  import opened Sequences
  import opened ModIndex
  import opened ModLookup

  // ---- File names ----

  /** What follows the last slash of a path. */
  ghost predicate IsStem(path: string, stem: string) {
    '/' !in stem && (path == stem || exists folder :: path == folder + ("/" + stem))
  }

  lemma StemBehind(path: string, i: nat, stem: string)
    requires i < |path| && path[i] == '/' && IsStem(path[i + 1..], stem)
    ensures IsStem(path, stem)
  {
    var rest := path[i + 1..];
    if rest == stem {
      assert path == path[..i] + ("/" + stem);
    } else {
      var folder :| rest == folder + ("/" + stem);
      assert path == path[..i + 1] + rest;
      AppendIsAssociative(path[..i + 1], folder, "/" + stem);
    }
  }

  lemma {:induction false} StemIsLast(path: string)
    ensures IsStem(path, FileStem(path))
    decreases |path|
  {
    match Position(path, '/')
    case None =>
    case Some(i) =>
      StemIsLast(path[i + 1..]);
      StemBehind(path, i, FileStem(path[i + 1..]));
  }

  lemma CutAt(s: string, i: nat)
    requires i < |s| && s[i] == '/'
    ensures s == s[..i] + ("/" + s[i + 1..])
  {
  }

  lemma SlashesRegroup(a: string, b: string, c: string)
    ensures (a + ("/" + b)) + c == a + ("/" + (b + c))
  {
  }

  lemma {:induction false} StemAfterAFolder(folder: string, stem: string)
    requires '/' !in stem
    ensures FileStem(folder + ("/" + stem)) == stem
    decreases |folder|
  {
    match Position(folder, '/')
    case None => FirstSlash(folder, stem);
    case Some(i) =>
      var a, b := folder[..i], folder[i + 1..];
      CutAt(folder, i);
      SlashesRegroup(a, b, "/" + stem);
      FirstSlash(a, b + ("/" + stem));
      StemAfterAFolder(b, stem);
  }

  lemma StemExactly(path: string, stem: string)
    ensures FileStem(path) == stem <==> IsStem(path, stem)
  {
    StemIsLast(path);
    if IsStem(path, stem) && path != stem {
      var folder :| path == folder + ("/" + stem);
      StemAfterAFolder(folder, stem);
    }
  }

  // ---- The picture a jar answers with ----

  /** A picture of the texture folder whose file is called `stem`, after the item or after it and an underscore. */
  ghost predicate Qualifies(entry: string, prefix: string, name: string, stem: string) {
    && (stem == name || StartsWith(stem, name + "_"))
    && exists path :: entry == prefix + (path + ".png") && IsStem(path, stem)
  }

  /** The item's own name before any longer one, and then the shorter. */
  predicate Preferred(a: string, b: string, name: string) {
    (a == name && b != name) || ((a == name <==> b == name) && |a| < |b|)
  }

  lemma ScoreIsTheName(entry: string, prefix: string, name: string, stem: string)
    ensures Qualifies(entry, prefix, name, stem) <==>
            && ScoreOf(entry, prefix, name) == Some(Score(if stem == name then 0 else 1, |stem|))
            && FileStem(entry[|prefix|..][..|entry| - |prefix| - 4]) == stem
  {
    if ScoreOf(entry, prefix, name).Some? {
      var rest := entry[|prefix|..];
      var path := rest[..|rest| - 4];
      assert entry == prefix + (path + ".png");
      StemExactly(path, stem);
    }
    if Qualifies(entry, prefix, name, stem) {
      var path :| entry == prefix + (path + ".png") && IsStem(path, stem);
      assert entry[..|prefix|] == prefix && entry[|prefix|..] == path + ".png";
      assert (path + ".png")[|path|..] == ".png" && (path + ".png")[..|path|] == path;
      StemExactly(path, stem);
    }
  }

  /** No other picture is preferred to entry `i`, and it is preferred to every earlier one. */
  ghost predicate IsPreferred(names: seq<string>, prefix: string, name: string, i: nat, stem: string) {
    && i < |names| && Qualifies(names[i], prefix, name, stem)
    && forall j, other | 0 <= j < |names| && Qualifies(names[j], prefix, name, other) ::
         !Preferred(other, stem, name) && (j < i ==> Preferred(stem, other, name))
  }

  lemma FirstBestIsPreferred(names: seq<string>, prefix: string, name: string, i: nat) returns (stem: string)
    requires IsFirstBest(names, |names|, prefix, name, i)
    ensures IsPreferred(names, prefix, name, i, stem)
  {
    stem := FileStem(names[i][|prefix|..][..|names[i]| - |prefix| - 4]);
    ScoreIsTheName(names[i], prefix, name, stem);
    forall j, other | 0 <= j < |names| && Qualifies(names[j], prefix, name, other)
      ensures !Preferred(other, stem, name) && (j < i ==> Preferred(stem, other, name))
    {
      ScoreIsTheName(names[j], prefix, name, other);
    }
  }

  /** The entry a jar answers from: the first candidate it lists, or the preferred picture if it lists none. */
  ghost predicate Chosen(names: seq<string>, prefix: string, name: string, candidates: seq<string>, path: string) {
    if forall k | 0 <= k < |candidates| :: prefix + candidates[k] !in names
    then exists i: nat, stem: string :: IsPreferred(names, prefix, name, i, stem) && path == names[i]
    else exists k: nat :: k < |candidates| && path == prefix + candidates[k] && path in names
                          && forall j | 0 <= j < k :: prefix + candidates[j] !in names
  }

  lemma {:induction false} FirstListed(names: seq<string>, prefix: string, candidates: seq<string>)
    ensures match FirstCandidate(names, prefix, candidates)
            case None => forall k | 0 <= k < |candidates| :: prefix + candidates[k] !in names
            case Some(path) =>
              exists k: nat :: k < |candidates| && path == prefix + candidates[k] && path in names
                               && forall j | 0 <= j < k :: prefix + candidates[j] !in names
    decreases |candidates|
  {
    if candidates != [] && prefix + candidates[0] !in names {
      FirstListed(names, prefix, candidates[1..]);
      match FirstCandidate(names, prefix, candidates[1..])
      case None =>
      case Some(path) =>
        var k: nat :| k < |candidates[1..]| && path == prefix + candidates[1..][k] && path in names
                      && forall j | 0 <= j < k :: prefix + candidates[1..][j] !in names;
        assert candidates[k + 1] == candidates[1..][k];
        forall j | 0 <= j < k + 1 ensures prefix + candidates[j] !in names {
          if j > 0 { assert candidates[j] == candidates[1..][j - 1]; }
        }
    }
  }

  lemma {:induction false} FirstListedIs(names: seq<string>, prefix: string, candidates: seq<string>, k: nat)
    requires k < |candidates| && prefix + candidates[k] in names
    requires forall j | 0 <= j < k :: prefix + candidates[j] !in names
    ensures FirstCandidate(names, prefix, candidates) == Some(prefix + candidates[k])
    decreases k
  {
    if k > 0 {
      FirstListedIs(names, prefix, candidates[1..], k - 1);
    }
  }

  lemma PreferredIsNotLater(names: seq<string>, prefix: string, name: string, i: nat, s: string, j: nat, t: string)
    requires IsPreferred(names, prefix, name, i, s) && IsPreferred(names, prefix, name, j, t)
    ensures i >= j
  {
    assert i < j ==> Preferred(t, s, name);
    assert !Preferred(t, s, name);
  }

  /** Two preferred pictures are the same entry. */
  lemma OnePreferred(names: seq<string>, prefix: string, name: string, i: nat, s: string, j: nat, t: string)
    requires IsPreferred(names, prefix, name, i, s) && IsPreferred(names, prefix, name, j, t)
    ensures i == j
  {
    PreferredIsNotLater(names, prefix, name, i, s, j, t);
    PreferredIsNotLater(names, prefix, name, j, t, i, s);
  }

  lemma QualifiedIsScored(names: seq<string>, prefix: string, name: string, i: nat, stem: string)
    requires IsPreferred(names, prefix, name, i, stem)
    ensures exists j: nat, other: string :: IsPreferred(names, prefix, name, j, other)
                                            && BestMatch(names, prefix, name) == Some(names[j])
  {
    ScoreIsTheName(names[i], prefix, name, stem);
    ScanFindsTheFirstBest(names, |names|, prefix, name);
    var best := BestOf(names, |names|, prefix, name);
    if best.Some? {
      var other := FirstBestIsPreferred(names, prefix, name, best.value);
    }
  }

  /** A jar's file list settles what is found in it. */
  lemma FindsTheChosen(jar: Jar, namespace: string, name: string, candidates: seq<string>, path: string)
    ensures Find(jar, namespace, name, candidates) == Some(path)
            <==> Chosen(jar.names, "assets/" + (namespace + "/textures/"), name, candidates, path)
  {
    var prefix := "assets/" + (namespace + "/textures/");
    FirstListed(jar.names, prefix, candidates);
    if FirstCandidate(jar.names, prefix, candidates).Some? {
      ListedIsChosen(jar.names, prefix, name, candidates, path);
    } else {
      PreferredIsChosen(jar.names, prefix, name, candidates, path);
    }
  }

  lemma ListedIsChosen(names: seq<string>, prefix: string, name: string, candidates: seq<string>, path: string)
    requires FirstCandidate(names, prefix, candidates).Some?
    ensures FirstCandidate(names, prefix, candidates) == Some(path) <==> Chosen(names, prefix, name, candidates, path)
  {
    FirstListed(names, prefix, candidates);
    if Chosen(names, prefix, name, candidates, path) {
      var k: nat :| k < |candidates| && path == prefix + candidates[k] && path in names
                    && forall j | 0 <= j < k :: prefix + candidates[j] !in names;
      FirstListedIs(names, prefix, candidates, k);
    }
  }

  lemma PreferredIsChosen(names: seq<string>, prefix: string, name: string, candidates: seq<string>, path: string)
    requires forall k | 0 <= k < |candidates| :: prefix + candidates[k] !in names
    ensures BestMatch(names, prefix, name) == Some(path) <==> Chosen(names, prefix, name, candidates, path)
  {
    if BestMatch(names, prefix, name) == Some(path) {
      ScanFindsTheFirstBest(names, |names|, prefix, name);
      var i := BestOf(names, |names|, prefix, name).value;
      var stem := FirstBestIsPreferred(names, prefix, name, i);
    }
    if Chosen(names, prefix, name, candidates, path) {
      var i: nat, stem: string :| IsPreferred(names, prefix, name, i, stem) && path == names[i];
      QualifiedIsScored(names, prefix, name, i, stem);
      var j: nat, other: string :| IsPreferred(names, prefix, name, j, other) && BestMatch(names, prefix, name) == Some(names[j]);
      OnePreferred(names, prefix, name, i, stem, j, other);
    }
  }

  /** A file of the directory that opens, or a readable entry of one. */
  ghost predicate OpensAs(disk: Disk, source: JarSource, jar: Jar) {
    source.path in disk.files &&
    var outer := disk.files[source.path];
    match source.nested
    case None => jar == outer
    case Some(entry) => entry in outer.names && entry in outer.bundled && jar == outer.bundled[entry]
  }

  /**
   * A jar answers with the bytes of its chosen entry, up to 256 KiB of them, and
   * with nothing when it does not open, nothing is chosen, or that entry cannot be
   * read, is empty or is larger.
   */
  lemma ReadsTheChosen(
    disk: Disk, source: JarSource, namespace: string, name: string, candidates: seq<string>, bytes: seq<Byte>)
    ensures ReadFromJar(disk, source, namespace, name, candidates) == Some(bytes) <==>
            exists jar, path ::
              && OpensAs(disk, source, jar)
              && Chosen(jar.names, "assets/" + (namespace + "/textures/"), name, candidates, path)
              && path in jar.contents && jar.contents[path] == bytes && 1 <= |bytes| <= 262144
  {
    if ReadFromJar(disk, source, namespace, name, candidates) == Some(bytes) {
      var jar := Open(disk, source).value;
      var path := Find(jar, namespace, name, candidates).value;
      FindsTheChosen(jar, namespace, name, candidates, path);
      assert OpensAs(disk, source, jar);
    }
    forall jar, path |
      && OpensAs(disk, source, jar)
      && Chosen(jar.names, "assets/" + (namespace + "/textures/"), name, candidates, path)
      && path in jar.contents && jar.contents[path] == bytes && 1 <= |bytes| <= 262144
      ensures ReadFromJar(disk, source, namespace, name, candidates) == Some(bytes)
    {
      assert Open(disk, source) == Some(jar);
      FindsTheChosen(jar, namespace, name, candidates, path);
    }
  }

  /** A path that is named exactly is never passed over for a picture that is only called alike. */
  lemma ExactPathWins(
    disk: Disk, source: JarSource, jar: Jar, namespace: string, name: string, candidates: seq<string>, k: nat)
    requires OpensAs(disk, source, jar) && k < |candidates|
    requires var prefix := "assets/" + (namespace + "/textures/");
             prefix + candidates[k] in jar.names && forall j | 0 <= j < k :: prefix + candidates[j] !in jar.names
    ensures var path := "assets/" + (namespace + "/textures/") + candidates[k];
            ReadFromJar(disk, source, namespace, name, candidates)
            == if path in jar.contents && 1 <= |jar.contents[path]| <= 262144 then Some(jar.contents[path]) else None
  {
    var prefix := "assets/" + (namespace + "/textures/");
    var path := prefix + candidates[k];
    FirstListedIs(jar.names, prefix, candidates, k);
    assert Open(disk, source) == Some(jar);
    assert Find(jar, namespace, name, candidates) == Some(path);
  }

  /** Source `i` answers, and none before it. */
  ghost predicate AnswersAt(
    disk: Disk, sources: seq<JarSource>, namespace: string, name: string, candidates: seq<string>, bytes: seq<Byte>, i: nat)
  {
    && i < |sources| && ReadFromJar(disk, sources[i], namespace, name, candidates) == Some(bytes)
    && forall j | 0 <= j < i :: ReadFromJar(disk, sources[j], namespace, name, candidates).None?
  }

  ghost predicate AnsweredFirst(
    disk: Disk, sources: seq<JarSource>, namespace: string, name: string, candidates: seq<string>, bytes: seq<Byte>)
  {
    exists i: nat :: AnswersAt(disk, sources, namespace, name, candidates, bytes, i)
  }

  /** The first of some sources that answers. */
  lemma {:induction false} FirstAnswerExactly(
    disk: Disk, sources: seq<JarSource>, namespace: string, name: string, candidates: seq<string>, bytes: seq<Byte>)
    ensures FirstAnswer(disk, sources, namespace, name, candidates) == Some(bytes)
            <==> AnsweredFirst(disk, sources, namespace, name, candidates, bytes)
    decreases |sources|
  {
    if sources != [] {
      FirstAnswerExactly(disk, sources[1..], namespace, name, candidates, bytes);
      if ReadFromJar(disk, sources[0], namespace, name, candidates).Some? {
        assert AnswersAt(disk, sources, namespace, name, candidates, ReadFromJar(disk, sources[0], namespace, name, candidates).value, 0);
      } else {
        LaterAnswer(disk, sources, namespace, name, candidates, bytes);
      }
    }
  }

  lemma LaterAnswer(
    disk: Disk, sources: seq<JarSource>, namespace: string, name: string, candidates: seq<string>, bytes: seq<Byte>)
    requires sources != [] && ReadFromJar(disk, sources[0], namespace, name, candidates).None?
    ensures AnsweredFirst(disk, sources, namespace, name, candidates, bytes)
            <==> AnsweredFirst(disk, sources[1..], namespace, name, candidates, bytes)
  {
    if AnsweredFirst(disk, sources, namespace, name, candidates, bytes) {
      var i: nat :| AnswersAt(disk, sources, namespace, name, candidates, bytes, i);
      var less: nat := i - 1;
      assert AnswersAt(disk, sources[1..], namespace, name, candidates, bytes, less);
    }
    if AnsweredFirst(disk, sources[1..], namespace, name, candidates, bytes) {
      var i: nat :| AnswersAt(disk, sources[1..], namespace, name, candidates, bytes, i);
      var more: nat := i + 1;
      assert AnswersAt(disk, sources, namespace, name, candidates, bytes, more);
    }
  }

  // ---- Which jars are looked into ----

  lemma {:induction false} ContainsSomewhere(s: string, part: string)
    ensures Contains(s, part) <==> exists i: nat :: i <= |s| && StartsWith(s[i..], part)
    decreases |s|
  {
    assert s[0..] == s;
    if s != "" && !StartsWith(s, part) {
      ContainsSomewhere(s[1..], part);
      if Contains(s[1..], part) {
        var i: nat :| i <= |s[1..]| && StartsWith(s[1..][i..], part);
        assert s[1..][i..] == s[i + 1..];
      }
      forall i: nat | i <= |s| && StartsWith(s[i..], part) ensures Contains(s[1..], part) {
        var j: nat := i - 1;
        assert s[1..][j..] == s[i..];
      }
    }
  }

  /** Lower-case letters, digits, `_`, `-` and `.`, at least one of them and never two dots in a row. */
  lemma AllowedExactly(namespace: string)
    ensures Allowed(namespace) <==>
            && namespace != "" && (forall i | 0 <= i < |namespace| ::
                 'a' <= namespace[i] <= 'z' || '0' <= namespace[i] <= '9' || namespace[i] in "_-.")
            && forall i | 0 <= i < |namespace| - 1 :: namespace[i] != '.' || namespace[i + 1] != '.'
  {
    ContainsSomewhere(namespace, "..");
    if i: nat :| i <= |namespace| && StartsWith(namespace[i..], "..") {
      assert namespace[i..][..2][0] == '.' && namespace[i..][..2][1] == '.';
    }
    forall i | 0 <= i < |namespace| - 1 && namespace[i] == '.' && namespace[i + 1] == '.'
      ensures StartsWith(namespace[i..], "..")
    {
      assert namespace[i..][..2] == "..";
    }
  }

  /** An entry counts for a namespace when it is a picture in its texture folder or a model in its model folder. */
  ghost predicate Declares(entry: string, namespace: string) {
    || (EndsWith(entry, ".png") && exists rest :: entry == "assets/" + (namespace + ("/textures/" + rest)))
    || (EndsWith(entry, ".json") && exists rest :: entry == "assets/" + (namespace + ("/models/" + rest)))
  }

  lemma Begins(s: string, prefix: string)
    requires StartsWith(s, prefix)
    ensures s == prefix + s[|prefix|..]
  {
  }

  lemma NamespaceSplits(entry: string) returns (tail: string)
    requires NamespaceOf(entry).Some?
    ensures entry == "assets/" + (NamespaceOf(entry).value + ("/" + tail)) && Allowed(NamespaceOf(entry).value)
    ensures (StartsWith(tail, "textures/") && EndsWith(entry, ".png")) || (StartsWith(tail, "models/") && EndsWith(entry, ".json"))
  {
    Begins(entry, "assets/");
    var rest := entry[7..];
    var i := Position(rest, '/').value;
    tail := rest[i + 1..];
    CutAt(rest, i);
  }

  lemma FolderSplits(entry: string, namespace: string, tail: string, folder: string)
    requires entry == "assets/" + (namespace + ("/" + tail)) && StartsWith(tail, folder)
    ensures entry == "assets/" + (namespace + (("/" + folder) + tail[|folder|..]))
  {
    Begins(tail, folder);
    AppendIsAssociative("/", folder, tail[|folder|..]);
  }

  lemma NamespaceIsDeclared(entry: string)
    requires NamespaceOf(entry).Some?
    ensures Declares(entry, NamespaceOf(entry).value)
  {
    var tail := NamespaceSplits(entry);
    assert "/" + "textures/" == "/textures/" && "/" + "models/" == "/models/";
    if StartsWith(tail, "textures/") && EndsWith(entry, ".png") {
      FolderSplits(entry, NamespaceOf(entry).value, tail, "textures/");
    } else {
      FolderSplits(entry, NamespaceOf(entry).value, tail, "models/");
    }
  }

  lemma DeclaresExactly(entry: string, namespace: string)
    ensures NamespaceOf(entry) == Some(namespace) <==> Allowed(namespace) && Declares(entry, namespace)
  {
    if NamespaceOf(entry).Some? {
      NamespaceIsDeclared(entry);
      var tail := NamespaceSplits(entry);
    }
    assert "/" + "textures/" == "/textures/" && "/" + "models/" == "/models/";
    if Allowed(namespace) && Declares(entry, namespace) {
      if rest: string :| EndsWith(entry, ".png") && entry == "assets/" + (namespace + ("/textures/" + rest)) {
        AppendIsAssociative("/", "textures/", rest);
        FolderDeclares(entry, namespace, "textures/", rest);
      } else {
        var rest: string :| EndsWith(entry, ".json") && entry == "assets/" + (namespace + ("/models/" + rest));
        AppendIsAssociative("/", "models/", rest);
        FolderDeclares(entry, namespace, "models/", rest);
      }
    }
  }

  /** How many jar files a listing has. */
  function JarFiles(listing: seq<string>): nat {
    if listing == [] then 0 else (if IsJarFile(listing[0]) then 1 else 0) + JarFiles(listing[1..])
  }

  /** A jar file, or a jar that a readable jar file bundles in its top level. */
  ghost predicate IsSourceOf(disk: Disk, path: string, source: JarSource) {
    source.path == path &&
    (source.nested.Some? ==>
       && path in disk.files && source.nested.value in disk.files[path].names
       && StartsWith(source.nested.value, "META-INF/jarjar/") && EndsWith(source.nested.value, ".jar"))
  }

  lemma {:induction false} BundlesExactly(path: string, names: seq<string>, source: JarSource)
    ensures source in BundlesIn(path, names) <==>
            && source.path == path && source.nested.Some? && source.nested.value in names
            && StartsWith(source.nested.value, "META-INF/jarjar/") && EndsWith(source.nested.value, ".jar")
    decreases |names|
  {
    if names != [] {
      BundlesExactly(path, names[1..], source);
    }
  }

  lemma VisitedExactly(disk: Disk, path: string, source: JarSource)
    ensures source in Visited(disk, path) <==> IsSourceOf(disk, path, source)
  {
    if path in disk.files {
      BundlesExactly(path, disk.files[path].names, source);
    }
  }

  /** File `i` of a listing is one of its first `left` jar files, and `source` in it. */
  ghost predicate LooksIntoAt(disk: Disk, listing: seq<string>, left: nat, source: JarSource, i: nat) {
    i < |listing| && IsJarFile(listing[i]) && JarFiles(listing[..i]) < left && IsSourceOf(disk, listing[i], source)
  }

  ghost predicate LooksInto(disk: Disk, listing: seq<string>, left: nat, source: JarSource) {
    exists i: nat :: LooksIntoAt(disk, listing, left, source, i)
  }

  lemma OneFileOn(disk: Disk, listing: seq<string>, left: nat, source: JarSource, i: nat)
    requires listing != [] && left > 0
    ensures LooksIntoAt(disk, listing, left, source, i + 1)
            <==> LooksIntoAt(disk, listing[1..], if IsJarFile(listing[0]) then left - 1 else left, source, i)
  {
    if i < |listing| - 1 {
      assert listing[..i + 1][1..] == listing[1..][..i];
    }
  }

  lemma LooksFurther(disk: Disk, listing: seq<string>, left: nat, source: JarSource)
    requires listing != [] && left > 0
    ensures LooksInto(disk, listing, left, source) <==>
            || (IsJarFile(listing[0]) && IsSourceOf(disk, listing[0], source))
            || LooksInto(disk, listing[1..], if IsJarFile(listing[0]) then left - 1 else left, source)
  {
    var rest, fewer := listing[1..], if IsJarFile(listing[0]) then left - 1 else left;
    assert LooksIntoAt(disk, listing, left, source, 0) <==> IsJarFile(listing[0]) && IsSourceOf(disk, listing[0], source);
    if i: nat :| LooksIntoAt(disk, listing, left, source, i) {
      if i > 0 {
        OneFileOn(disk, listing, left, source, i - 1);
      }
    }
    if i: nat :| LooksIntoAt(disk, rest, fewer, source, i) {
      OneFileOn(disk, listing, left, source, i);
    }
  }

  /** The sources looked into are those of the first `left` jar files of the listing. */
  lemma {:induction false} DiscoveredExactly(disk: Disk, listing: seq<string>, left: nat, source: JarSource)
    ensures source in Discovered(disk, listing, left) <==> LooksInto(disk, listing, left, source)
    decreases |listing|
  {
    if listing != [] && left > 0 {
      LooksFurther(disk, listing, left, source);
      VisitedExactly(disk, listing[0], source);
      DiscoveredExactly(disk, listing[1..], if IsJarFile(listing[0]) then left - 1 else left, source);
    }
  }

  /** Files whose name ends in `.jar` and is not just that. */
  lemma JarFilesExactly(path: string)
    ensures IsJarFile(path) <==> EndsWith(path, ".jar") && !IsStem(path, ".jar")
  {
    StemExactly(path, ".jar");
  }
}
