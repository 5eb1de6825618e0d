/** The plugin catalog: each discovered plugin's normalised path with its
    display name. It stands for a Python dict from path to name, so its keys
    are unique and it keeps the order in which keys were first inserted. */
module PluginCatalog {
  import opened Wrappers
  import opened Text
  import PluginTitle

  /** One catalog entry: (path, display name). */
  type Entry = (string, string)
  type Catalog = seq<Entry>

  /** The catalog's keys in iteration order. */
  function Paths(c: Catalog): (r: seq<string>)
    ensures |r| == |c|
    ensures forall i :: 0 <= i < |c| ==> r[i] == c[i].0
  {
    if |c| == 0 then [] else [c[0].0] + Paths(c[1..])
  }

  /** Dict keys are unique. */
  predicate KeysDistinct(c: Catalog) {
    forall i, j :: 0 <= i < j < |c| ==> c[i].0 != c[j].0
  }

  /** `dict.get(path)`: the name stored under `path`, if there is one. */
  function Lookup(c: Catalog, path: string): (r: Option<string>)
    ensures r.None? <==> path !in Paths(c)
    ensures r.Some? ==> (path, r.value) in c
  {
    if |c| == 0 then None
    else if c[0].0 == path then Some(c[0].1)
    else Lookup(c[1..], path)
  }

  /** With unique keys the stored name is the one of the entry holding the key. */
  lemma {:induction false} LookupAt(c: Catalog, i: nat)
    requires KeysDistinct(c) && i < |c|
    ensures Lookup(c, c[i].0) == Some(c[i].1)
    decreases i
  {
    if i > 0 {
      LookupAt(c[1..], i - 1);
    }
  }

  lemma ConsFacts(e: Entry, rest: Catalog)
    ensures Paths([e] + rest) == [e.0] + Paths(rest)
    ensures forall q :: Lookup([e] + rest, q) == (if e.0 == q then Some(e.1) else Lookup(rest, q))
    ensures KeysDistinct(rest) && e.0 !in Paths(rest) ==> KeysDistinct([e] + rest)
  {
    assert ([e] + rest)[1..] == rest;
    if KeysDistinct(rest) && e.0 !in Paths(rest) {
      forall i, j | 0 <= i < j < |[e] + rest|
        ensures ([e] + rest)[i].0 != ([e] + rest)[j].0
      {
        if i == 0 {
          assert Paths(rest)[j - 1] == rest[j - 1].0;
        }
      }
    }
  }

  lemma DistinctTail(c: Catalog)
    requires KeysDistinct(c) && |c| > 0
    ensures KeysDistinct(c[1..]) && c[0].0 !in Paths(c[1..])
  {
  }

  lemma PathsCons(e: Entry, rest: Catalog)
    ensures Paths([e] + rest) == [e.0] + Paths(rest)
  {
    assert ([e] + rest)[1..] == rest;
  }

  /** `d[path] = name`: overwrite the name in place when the key is present
      (its position is kept), otherwise append a new entry at the end. */
  function Put(c: Catalog, path: string, name: string): (r: Catalog)
    ensures path in Paths(c) ==> Paths(r) == Paths(c)
    ensures path !in Paths(c) ==> Paths(r) == Paths(c) + [path]
  {
    if |c| == 0 then
      PathsCons((path, name), []);
      [(path, name)]
    else
      var rest := c[1..];
      assert c == [c[0]] + rest;
      PathsCons(c[0], rest);
      if c[0].0 == path then
        PathsCons((path, name), rest);
        [(path, name)] + rest
      else
        var r := Put(rest, path, name);
        PathsCons(c[0], r);
        [c[0]] + r
  }

  /** After `d[path] = name` the key maps to the new name and no other key's
      name changes. */
  lemma {:induction false} PutLookup(c: Catalog, path: string, name: string, q: string)
    ensures Lookup(Put(c, path, name), q) == (if q == path then Some(name) else Lookup(c, q))
    decreases |c|
  {
    if |c| == 0 {
      ConsFacts((path, name), []);
    } else if c[0].0 == path {
      ConsFacts((path, name), c[1..]);
      ConsFacts(c[0], c[1..]);
      assert [c[0]] + c[1..] == c;
    } else {
      PutLookup(c[1..], path, name, q);
      ConsFacts(c[0], Put(c[1..], path, name));
      ConsFacts(c[0], c[1..]);
      assert [c[0]] + c[1..] == c;
    }
  }

  /** Assignment keeps the keys unique. */
  lemma {:induction false} PutDistinct(c: Catalog, path: string, name: string)
    requires KeysDistinct(c)
    ensures KeysDistinct(Put(c, path, name))
    decreases |c|
  {
    if |c| == 0 {
      ConsFacts((path, name), []);
    } else {
      DistinctTail(c);
      if c[0].0 == path {
        ConsFacts((path, name), c[1..]);
      } else {
        PutDistinct(c[1..], path, name);
        ConsFacts(c[0], Put(c[1..], path, name));
      }
    }
  }

  /** `str(rel_path).replace("\\", "/")`: Windows separators become `/`;
      every other character stays where it is. */
  function NormalizePath(p: string): (r: string)
    ensures |r| == |p|
    ensures '\\' !in r
    ensures forall i :: 0 <= i < |p| ==> r[i] == (if p[i] == '\\' then '/' else p[i])
  {
    seq(|p|, i requires 0 <= i < |p| => if p[i] == '\\' then '/' else p[i])
  }

  /** Normalising twice is normalising once, and a path without
      backslashes is already normal. */
  lemma NormalizeIdempotent(p: string)
    ensures NormalizePath(NormalizePath(p)) == NormalizePath(p)
    ensures '\\' !in p ==> NormalizePath(p) == p
  {
  }

  /** One `.zss` file as the discovery walk sees it: its path relative to the
      working directory as `str()` prints it, its base name, and what its first
      two `readline()` calls return (None when reading raised). */
  datatype PluginFile = PluginFile(relPath: string, baseName: string,
                                   firstLine: Option<string>, secondLine: Option<string>)

  function Key(f: PluginFile): string {
    NormalizePath(f.relPath)
  }

  function DisplayName(f: PluginFile): string {
    PluginTitle.Title(f.firstLine, f.secondLine, f.baseName, PluginTitle.NotTitles)
  }

  /** The keys after an assignment are the old keys and the assigned one. */
  lemma PutPaths(c: Catalog, path: string, name: string, q: string)
    ensures q in Paths(Put(c, path, name)) <==> q in Paths(c) || q == path
  {
    var old_, new_ := Paths(c), Paths(Put(c, path, name));
    if path !in old_ {
      assert new_ == old_ + [path];
    }
  }

  /** The dictionary made by assigning the given (path, name) pairs in order. */
  function Assign(es: seq<Entry>): (r: Catalog)
  {
    if |es| == 0 then []
    else Put(Assign(es[..|es| - 1]), es[|es| - 1].0, es[|es| - 1].1)
  }

  /** Assignments keep the keys unique. */
  lemma {:induction false} AssignDistinct(es: seq<Entry>)
    ensures KeysDistinct(Assign(es))
    decreases |es|
  {
    if |es| > 0 {
      AssignDistinct(es[..|es| - 1]);
      PutDistinct(Assign(es[..|es| - 1]), es[|es| - 1].0, es[|es| - 1].1);
    }
  }

  /** Every assigned path is a key of the dictionary. */
  lemma AssignHasKeys(es: seq<Entry>)
    ensures forall i :: 0 <= i < |es| ==> es[i].0 in Paths(Assign(es))
  {
    forall i | 0 <= i < |es|
      ensures es[i].0 in Paths(Assign(es))
    {
      AssignHasKey(es, i);
    }
  }

  /** The same for one assignment: its path is a key afterwards. */
  lemma {:induction false} AssignHasKey(es: seq<Entry>, i: nat)
    requires i < |es|
    ensures es[i].0 in Paths(Assign(es))
    decreases |es|
  {
    var init := es[..|es| - 1];
    var last := es[|es| - 1];
    var c := Assign(init);
    assert Assign(es) == Put(c, last.0, last.1);
    if i < |init| {
      AssignHasKey(init, i);
      assert init[i] == es[i];
      PutPaths(c, last.0, last.1, es[i].0);
    } else {
      PutPaths(c, last.0, last.1, last.0);
    }
  }


  /** Every key of the dictionary is one of the assigned paths. */
  lemma {:induction false} AssignKeys(es: seq<Entry>, k: string)
    requires k in Paths(Assign(es))
    ensures exists i :: 0 <= i < |es| && es[i].0 == k
    decreases |es|
  {
    var init := es[..|es| - 1];
    var last := es[|es| - 1];
    PutPaths(Assign(init), last.0, last.1, k);
    if k != last.0 {
      AssignKeys(init, k);
      var i :| 0 <= i < |init| && init[i].0 == k;
      assert es[i] == init[i];
    }
  }

  /** The last assignment to a path decides its name. */
  lemma {:induction false} AssignLastWins(es: seq<Entry>, i: nat)
    requires i < |es|
    requires forall j :: i < j < |es| ==> es[j].0 != es[i].0
    ensures Lookup(Assign(es), es[i].0) == Some(es[i].1)
    decreases |es|
  {
    var init := es[..|es| - 1];
    var last := es[|es| - 1];
    PutLookup(Assign(init), last.0, last.1, es[i].0);
    if i < |es| - 1 {
      assert init[i] == es[i];
      AssignLastWins(init, i);
    }
  }

  /** Each file's (normalised path, display name) pair, in walk order. */
  function Entries(files: seq<PluginFile>): (r: seq<Entry>)
    ensures |r| == |files|
    ensures forall i :: 0 <= i < |files| ==> r[i] == (Key(files[i]), DisplayName(files[i]))
  {
    seq(|files|, i requires 0 <= i < |files| => (Key(files[i]), DisplayName(files[i])))
  }

  /** The discovery loop over the files in the order the walk yields them. */
  function Build(files: seq<PluginFile>): (r: Catalog)
    ensures KeysDistinct(r)
    ensures forall i :: 0 <= i < |files| ==> Key(files[i]) in Paths(r)
    ensures forall k :: k in Paths(r) ==> '\\' !in k
  {
    var es := Entries(files);
    var r := Assign(es);
    AssignDistinct(es);
    AssignHasKeys(es);
    assert forall k :: k in Paths(r) ==> '\\' !in k by {
      forall k | k in Paths(r)
        ensures '\\' !in k
      {
        AssignKeys(es, k);
      }
    }
    r
  }

  /** find_all_plugins: the empty catalog when the plugin root is missing,
      otherwise one entry per distinct normalised path among the files found. */
  function FindAllPlugins(rootExists: bool, files: seq<PluginFile>): (r: Catalog)
    ensures KeysDistinct(r)
    ensures !rootExists ==> r == []
    ensures rootExists ==> forall i :: 0 <= i < |files| ==> Key(files[i]) in Paths(r)
    ensures forall k :: k in Paths(r) ==> '\\' !in k
  {
    if rootExists then Build(files) else []
  }

  /** Every catalog key comes from some file found by the walk. */
  lemma BuildKeysFromFiles(files: seq<PluginFile>, k: string)
    requires k in Paths(Build(files))
    ensures exists i :: 0 <= i < |files| && Key(files[i]) == k
  {
    AssignKeys(Entries(files), k);
  }

  /** When several files normalise to the same path, the last one found
      decides the name stored for it. */
  lemma LastWins(files: seq<PluginFile>, i: nat)
    requires i < |files|
    requires forall j :: i < j < |files| ==> Key(files[j]) != Key(files[i])
    ensures Lookup(Build(files), Key(files[i])) == Some(DisplayName(files[i]))
  {
    AssignLastWins(Entries(files), i);
  }
}
