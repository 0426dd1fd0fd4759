/**
 * Textures from mod jars (console/mod_assets.rs): an index from namespaces to
 * the jars that declare them, and the lookup through it.
 *
 * Entry names are byte strings, written here with one `char` for each byte.
 */
module ModIndex {
  import opened Wrappers
  import opened Bytes
  import opened Sequences

  const MAX_TEXTURE_BYTES: nat := 256 * 1024
  const MAX_JARS: nat := 2000
  const MAX_NESTING: nat := 2
  const JARJAR_PREFIX := "META-INF/jarjar/"

  /* ----------------------------------------------------------------- strings */

  predicate StartsWith(s: string, prefix: string) {
    |prefix| <= |s| && s[..|prefix|] == prefix
  }

  predicate EndsWith(s: string, suffix: string) {
    |suffix| <= |s| && s[|s| - |suffix|..] == suffix
  }

  function StripPrefix(s: string, prefix: string): Option<string> {
    if StartsWith(s, prefix) then Some(s[|prefix|..]) else None
  }

  function StripSuffix(s: string, suffix: string): Option<string> {
    if EndsWith(s, suffix) then Some(s[..|s| - |suffix|]) else None
  }

  /** `rsplit('/').next()`: what follows the last slash. */
  function FileStem(s: string): string {
    match Position(s, '/') case None => s case Some(i) => FileStem(s[i + 1..])
  }

  /** `Path::extension` is `jar`: a leading dot alone makes no extension. */
  predicate IsJarFile(path: string) {
    EndsWith(path, ".jar") && FileStem(path) != ".jar"
  }

  predicate Contains(s: string, part: string) {
    if StartsWith(s, part) then true else s != "" && Contains(s[1..], part)
  }

  predicate NamespaceChar(c: char) {
    'a' <= c <= 'z' || '0' <= c <= '9' || c == '_' || c == '-' || c == '.'
  }

  /** The allowlist a namespace has to pass. */
  predicate Allowed(namespace: string) {
    namespace != "" && !Contains(namespace, "..") && forall i | 0 <= i < |namespace| :: NamespaceChar(namespace[i])
  }

  /** The namespace an entry is a texture or a model of. */
  function NamespaceOf(entry: string): Option<string> {
    match StripPrefix(entry, "assets/")
    case None => None
    case Some(rest) =>
      match Position(rest, '/')
      case None => None
      case Some(i) =>
        var namespace, tail := rest[..i], rest[i + 1..];
        var interesting := (StartsWith(tail, "textures/") && EndsWith(entry, ".png"))
                           || (StartsWith(tail, "models/") && EndsWith(entry, ".json"));
        if interesting && Allowed(namespace) then Some(namespace) else None
  }

  /* -------------------------------------------------------------- the jars */

  /** An entry's bytes, unless reading it fails; and the readable jars among the entries. */
  datatype Jar = Jar(names: seq<string>, contents: map<string, seq<Byte>>, bundled: map<string, Jar>)

  /** The mods directory: its listing, and the files that open as a zip. */
  datatype Disk = Disk(listing: seq<string>, files: map<string, Jar>)

  datatype JarSource = JarSource(path: string, nested: Option<string>)

  function Open(disk: Disk, source: JarSource): Option<Jar> {
    if source.path !in disk.files then None
    else
      var outer := disk.files[source.path];
      match source.nested
      case None => Some(outer)
      case Some(entry) => if entry in outer.names && entry in outer.bundled then Some(outer.bundled[entry]) else None
  }

  predicate IsBundle(entry: string) {
    StartsWith(entry, JARJAR_PREFIX) && EndsWith(entry, ".jar")
  }

  function BundlesIn(path: string, names: seq<string>): seq<JarSource> {
    if names == [] then []
    else (if IsBundle(names[0]) then [JarSource(path, Some(names[0]))] else []) + BundlesIn(path, names[1..])
  }

  /** A jar file and what it bundles; what a bundled jar bundles is not opened. */
  function Visited(disk: Disk, path: string): seq<JarSource> {
    var source := JarSource(path, None);
    match Open(disk, source)
    case None => [source]
    case Some(jar) => [source] + BundlesIn(path, jar.names)
  }

  /** Every source the index looks into, in discovery order: the first `left` jar files of the listing. */
  function Discovered(disk: Disk, listing: seq<string>, left: nat): seq<JarSource> {
    if listing == [] || left == 0 then []
    else if !IsJarFile(listing[0]) then Discovered(disk, listing[1..], left)
    else Visited(disk, listing[0]) + Discovered(disk, listing[1..], left - 1)
  }

  function NamespacesIn(names: seq<string>): set<string> {
    set n | n in names && NamespaceOf(n).Some? :: NamespaceOf(n).value
  }

  function Namespaces(disk: Disk, source: JarSource): set<string> {
    match Open(disk, source) case None => {} case Some(jar) => NamespacesIn(jar.names)
  }

  /* ------------------------------------------------------------- the index */

  type Index = map<string, seq<JarSource>>

  function Entry(index: Index, namespace: string): seq<JarSource> {
    if namespace in index then index[namespace] else []
  }

  /** `source` pushed under each of its namespaces. */
  function Recorded(index: Index, source: JarSource, namespaces: set<string>): Index {
    map n | n in index.Keys + namespaces :: if n in namespaces then Entry(index, n) + [source] else Entry(index, n)
  }

  function RecordedAll(disk: Disk, index: Index, sources: seq<JarSource>): Index
    decreases |sources|
  {
    if sources == [] then index
    else RecordedAll(disk, Recorded(index, sources[0], Namespaces(disk, sources[0])), sources[1..])
  }

  lemma RecordedNothing(index: Index, source: JarSource)
    ensures Recorded(index, source, {}) == index
  {
  }

  lemma OneMoreRecorded(index: Index, source: JarSource, namespaces: set<string>, n: string, r: Index)
    requires n !in namespaces && r == Recorded(index, source, namespaces)
    ensures Recorded(index, source, namespaces + {n}) == r[n := Entry(r, n) + [source]]
  {
  }

  class Indexer {
    const disk: Disk
    var index: Index

    constructor (disk: Disk)
      ensures this.disk == disk && index == map[]
    {
      this.disk := disk;
      index := map[];
    }

    method Record(source: JarSource, namespaces: set<string>)
      modifies this
      ensures index == Recorded(old(index), source, namespaces)
    {
      ghost var before := index;
      ghost var done: set<string> := {};
      var todo := namespaces;
      RecordedNothing(index, source);
      while todo != {}
        invariant todo <= namespaces && done == namespaces - todo
        invariant index == Recorded(before, source, done)
        decreases todo
      {
        var n :| n in todo;
        OneMoreRecorded(before, source, done, n, index);
        index := index[n := Entry(index, n) + [source]];
        todo, done := todo - {n}, done + {n};
      }
      assert done == namespaces;
    }

    method IndexSource(source: JarSource, depth: nat)
      requires depth == 0 <==> source.nested.None?
      modifies this
      ensures index == RecordedAll(disk, old(index), if depth == 0 then Visited(disk, source.path) else [source])
      decreases if depth == 0 then 1 else 0
    {
      var archive := Open(disk, source);
      ghost var before := index;
      if archive.None? {
        UnreadableRecordsNothing(disk, index, source);
        return;
      }
      Record(source, NamespacesIn(archive.value.names));
      if depth >= MAX_NESTING || source.nested.Some? {
        assert [source][1..] == [];
        return;
      }
      var names := archive.value.names;
      var i := 0;
      ghost var goal := RecordedAll(disk, index, BundlesIn(source.path, names));
      assert names[0..] == names;
      while i < |names|
        invariant 0 <= i <= |names|
        invariant RecordedAll(disk, index, BundlesIn(source.path, names[i..])) == goal
      {
        assert names[i..][1..] == names[i + 1..];
        var bundle := JarSource(source.path, Some(names[i]));
        ghost var rest := BundlesIn(source.path, names[i + 1..]);
        if IsBundle(names[i]) {
          RecordsInTurn(disk, index, [bundle], rest);
          IndexSource(bundle, depth + 1);
        } else {
          assert [] + rest == rest;
        }
        i := i + 1;
      }
      assert index == goal;
      assert ([source] + BundlesIn(source.path, names))[1..] == BundlesIn(source.path, names);
    }

    method BuildIndex()
      requires index == map[]
      modifies this
      ensures index == RecordedAll(disk, map[], Discovered(disk, disk.listing, MAX_JARS))
    {
      var jars := 0;
      var i := 0;
      ghost var goal := RecordedAll(disk, map[], Discovered(disk, disk.listing, MAX_JARS));
      assert disk.listing[0..] == disk.listing;
      while i < |disk.listing|
        invariant 0 <= i <= |disk.listing| && 0 <= jars <= MAX_JARS
        invariant RecordedAll(disk, index, Discovered(disk, disk.listing[i..], MAX_JARS - jars)) == goal
      {
        if jars >= MAX_JARS {
          break;
        }
        assert disk.listing[i..][1..] == disk.listing[i + 1..];
        if IsJarFile(disk.listing[i]) {
          jars := jars + 1;
          RecordsInTurn(disk, index, Visited(disk, disk.listing[i]),
                        Discovered(disk, disk.listing[i + 1..], MAX_JARS - jars));
          IndexSource(JarSource(disk.listing[i], None), 0);
        }
        i := i + 1;
      }
    }
  }

  lemma UnreadableRecordsNothing(disk: Disk, index: Index, source: JarSource)
    requires Open(disk, source).None?
    ensures RecordedAll(disk, index, [source]) == index
  {
    RecordedNothing(index, source);
    assert [source][1..] == [];
  }

  lemma {:induction false} RecordsInTurn(disk: Disk, index: Index, a: seq<JarSource>, b: seq<JarSource>)
    ensures RecordedAll(disk, index, a + b) == RecordedAll(disk, RecordedAll(disk, index, a), b)
    decreases |a|
  {
    if a == [] {
      assert a + b == b;
    } else {
      assert (a + b)[1..] == a[1..] + b;
      RecordsInTurn(disk, Recorded(index, a[0], Namespaces(disk, a[0])), a[1..], b);
    }
  }
}
