/** The hierarchical data-path resolver: split a path on a separator, then walk the
    nested tables one segment at a time. */
module Resolver {
  import opened ConfigValues
  import opened PathSplit

  /** Walk from `data` through `segments`. At each step `.get` is called on the current
      value: on anything but a table that is an attribute error; a missing key or a
      stored null stops the walk with the not-exists error naming the whole `dataPath`.
      Whatever is reached after the last segment is returned as it is. */
  function Walk(data: Value, segments: seq<string>, dataPath: string): (r: Result<Value>)
    ensures r.Err? ==> r.error == NotExistsInConfig(dataPath) || r.error == NoGetAttribute
    ensures r.Ok? && segments != [] ==> r.value != Null
    decreases |segments|
  {
    if segments == [] then Ok(data)
    else if !data.Table? then Err(NoGetAttribute)
    else
      var next := Get(data.entries, segments[0]);
      if next == Null then Err(NotExistsInConfig(dataPath))
      else Walk(next, segments[1..], dataPath)
  }

  /** The Python object the store field holds: `None` until a load succeeds. */
  function Root(store: Option<map<string, Value>>): Value
  {
    if store.Some? then Table(store.value) else Null
  }

  /** `_get_data_value(dataPath, sep)` against the store. The invalid-path error is
      never produced: the source's guard compares the path string with an empty list,
      which no string equals. */
  function Resolve(store: Option<map<string, Value>>, dataPath: string, sep: string): (r: Result<Value>)
    ensures r == Err(EmptySeparator) <==> sep == ""
    ensures r.Err? ==> r.error != NotValidConfigDataPath
    ensures r.Err? && r.error.NotExistsInConfig? ==> r.error.dataPath == dataPath
    ensures store.None? && sep != "" ==> r == Err(NoGetAttribute)
    ensures r.Ok? ==> r.value != Null
  {
    if sep == "" then Err(EmptySeparator)
    else Walk(Root(store), Split(dataPath, sep), dataPath)
  }

  /** `chain` is the sequence of values visited when every one of `segments` is found
      with a non-null value: `chain[i]` is a table whose entry `segments[i]` is
      `chain[i + 1]`. */
  ghost predicate IsTrail(data: Value, segments: seq<string>, chain: seq<Value>)
  {
    |chain| == |segments| + 1 && chain[0] == data &&
    forall i :: 0 <= i < |segments| ==> StepAt(segments, chain, i)
  }

  /** Step `i` of a trail: `chain[i]` is a table holding `segments[i]`, non-null,
      and that entry is `chain[i + 1]`. */
  ghost predicate StepAt(segments: seq<string>, chain: seq<Value>, i: int)
    requires 0 <= i < |segments| && |chain| == |segments| + 1
  {
    chain[i].Table? && segments[i] in chain[i].entries &&
    chain[i].entries[segments[i]] == chain[i + 1] && chain[i + 1] != Null
  }

  /** `v` is found at the end of `segments`, starting from `data`. */
  ghost predicate LeadsTo(data: Value, segments: seq<string>, v: Value)
  {
    exists chain :: IsTrail(data, segments, chain) && chain[|segments|] == v
  }

  /** A walk succeeds with `v` exactly when every segment is found with a non-null
      value and `v` is the value at the last one. */
  lemma WalkSucceedsIffLeadsTo(data: Value, segments: seq<string>, dataPath: string, v: Value)
    ensures Walk(data, segments, dataPath) == Ok(v) <==> LeadsTo(data, segments, v)
  {
    if Walk(data, segments, dataPath) == Ok(v) {
      WalkSuccessLeadsTo(data, segments, dataPath, v);
    }
    if LeadsTo(data, segments, v) {
      var chain: seq<Value> :| IsTrail(data, segments, chain) && chain[|segments|] == v;
      TrailWalks(data, segments, dataPath, chain);
    }
  }

  /** A successful walk has a trail ending at its result. */
  lemma {:induction false} WalkSuccessLeadsTo(data: Value, segments: seq<string>, dataPath: string, v: Value)
    requires Walk(data, segments, dataPath) == Ok(v)
    ensures LeadsTo(data, segments, v)
    decreases |segments|
  {
    if segments == [] {
      assert IsTrail(data, segments, [data]);
    } else {
      var next := Get(data.entries, segments[0]);
      WalkSuccessLeadsTo(next, segments[1..], dataPath, v);
      var rest: seq<Value> :| IsTrail(next, segments[1..], rest) && rest[|segments| - 1] == v;
      var chain := [data] + rest;
      forall i | 0 <= i < |segments| ensures StepAt(segments, chain, i) {
        if i > 0 {
          assert StepAt(segments[1..], rest, i - 1);
          assert chain[i] == rest[i - 1] && chain[i + 1] == rest[i];
          assert segments[i] == segments[1..][i - 1];
        }
      }
      assert IsTrail(data, segments, chain);
    }
  }

  /** Following a trail, the walk succeeds with the value at its end. */
  lemma {:induction false} TrailWalks(data: Value, segments: seq<string>, dataPath: string, chain: seq<Value>)
    requires IsTrail(data, segments, chain)
    ensures Walk(data, segments, dataPath) == Ok(chain[|segments|])
    decreases |segments|
  {
    if segments != [] {
      assert StepAt(segments, chain, 0);
      var rest := chain[1..];
      forall i | 0 <= i < |segments| - 1 ensures StepAt(segments[1..], rest, i) {
        assert StepAt(segments, chain, i + 1);
        assert rest[i] == chain[i + 1] && rest[i + 1] == chain[i + 2];
      }
      assert IsTrail(chain[1], segments[1..], rest);
      TrailWalks(chain[1], segments[1..], dataPath, rest);
    }
  }

  /** Walking `a + b` is walking `a`, then walking `b` from where `a` ended; a failure
      on the way through `a` is the failure of the whole walk. */
  lemma {:induction false} WalkAppend(data: Value, a: seq<string>, b: seq<string>, dataPath: string)
    ensures Walk(data, a + b, dataPath)
         == match Walk(data, a, dataPath)
            case Ok(v) => Walk(v, b, dataPath)
            case Err(e) => Err(e)
    decreases |a|
  {
    if a != [] {
      assert (a + b)[0] == a[0] && (a + b)[1..] == a[1..] + b;
      if data.Table? && Get(data.entries, a[0]) != Null {
        WalkAppend(Get(data.entries, a[0]), a[1..], b, dataPath);
      }
    } else {
      assert a + b == b;
    }
  }

  /** The path carried by the error does not change whether or where a walk succeeds. */
  lemma {:induction false} WalkSuccessIgnoresDataPath(data: Value, segments: seq<string>, p: string, q: string)
    ensures Walk(data, segments, p).Ok? == Walk(data, segments, q).Ok?
    ensures Walk(data, segments, p).Ok? ==> Walk(data, segments, p) == Walk(data, segments, q)
    decreases |segments|
  {
    if segments != [] && data.Table? && Get(data.entries, segments[0]) != Null {
      WalkSuccessIgnoresDataPath(Get(data.entries, segments[0]), segments[1..], p, q);
    }
  }

  /** Every segment found with a non-null value: the value at the last segment is
      returned untouched, whatever it is (0, false, "" and an empty table included). */
  lemma ResolveFound(store: Option<map<string, Value>>, dataPath: string, sep: string, v: Value)
    ensures Resolve(store, dataPath, sep) == Ok(v)
        <==> sep != "" && store.Some? && LeadsTo(Table(store.value), Split(dataPath, sep), v)
  {
    if sep != "" {
      WalkSucceedsIffLeadsTo(Root(store), Split(dataPath, sep), dataPath, v);
    }
  }

  /** The walk reaches, through `segments[..k]`, a table that lacks `segments[k]` (or
      holds null there): the whole walk fails with the not-exists error. */
  lemma WalkMissingKey(data: Value, segments: seq<string>, dataPath: string, k: nat, chain: seq<Value>)
    requires k < |segments| && IsTrail(data, segments[..k], chain)
    requires chain[k].Table? && Get(chain[k].entries, segments[k]) == Null
    ensures Walk(data, segments, dataPath) == Err(NotExistsInConfig(dataPath))
  {
    WalkSucceedsIffLeadsTo(data, segments[..k], dataPath, chain[k]);
    WalkAppend(data, segments[..k], segments[k..], dataPath);
    assert segments[..k] + segments[k..] == segments;
  }

  /** The walk reaches, through `segments[..k]`, a value that is not a table while
      segments remain: the whole walk fails with the attribute error. */
  lemma WalkDeadEnd(data: Value, segments: seq<string>, dataPath: string, k: nat, chain: seq<Value>)
    requires k < |segments| && IsTrail(data, segments[..k], chain)
    requires !chain[k].Table?
    ensures Walk(data, segments, dataPath) == Err(NoGetAttribute)
  {
    WalkSucceedsIffLeadsTo(data, segments[..k], dataPath, chain[k]);
    WalkAppend(data, segments[..k], segments[k..], dataPath);
    assert segments[..k] + segments[k..] == segments;
  }

  /** A key missing at any step of a loaded store: the not-exists error, carrying the
      whole path that was asked for, not the prefix reached. */
  lemma ResolveMissingKey(root: map<string, Value>, dataPath: string, sep: string,
                          segments: seq<string>, k: nat, chain: seq<Value>)
    requires sep != "" && segments == Split(dataPath, sep)
    requires k < |segments| && IsTrail(Table(root), segments[..k], chain)
    requires chain[k].Table? && Get(chain[k].entries, segments[k]) == Null
    ensures Resolve(Some(root), dataPath, sep) == Err(NotExistsInConfig(dataPath))
  {
    WalkMissingKey(Table(root), segments, dataPath, k, chain);
  }

  /** A scalar or an array reached with segments remaining: the attribute error, not the
      not-exists error. */
  lemma ResolveDeadEnd(root: map<string, Value>, dataPath: string, sep: string,
                       segments: seq<string>, k: nat, chain: seq<Value>)
    requires sep != "" && segments == Split(dataPath, sep)
    requires k < |segments| && IsTrail(Table(root), segments[..k], chain)
    requires !chain[k].Table?
    ensures Resolve(Some(root), dataPath, sep) == Err(NoGetAttribute)
  {
    WalkDeadEnd(Table(root), segments, dataPath, k, chain);
  }

  /** A walk through a single segment. */
  lemma WalkOne(data: Value, key: string, dataPath: string)
    ensures Walk(data, [key], dataPath)
         == if !data.Table? then Err(NoGetAttribute)
            else if Get(data.entries, key) == Null then Err(NotExistsInConfig(dataPath))
            else Ok(Get(data.entries, key))
  {
    assert [key][1..] == [];
  }

  /** The empty path is not rejected: it is the single segment "", looked up as a key. */
  lemma ResolveEmptyPath(store: Option<map<string, Value>>, sep: string)
    requires sep != ""
    ensures Resolve(store, "", sep)
         == if store.None? then Err(NoGetAttribute)
            else if Get(store.value, "") == Null then Err(NotExistsInConfig(""))
            else Ok(Get(store.value, ""))
  {
    assert forall i :: !OccursAt("", sep, i);
    SplitWithoutSeparator("", sep);
    WalkOne(Root(store), "", "");
  }

  /** Composition: once `p` resolves to `v`, resolving `p + sep + q` continues from `v`
      through the segments of `q` (an error still names the whole path). */
  lemma ResolveCompose(store: Option<map<string, Value>>, p: string, sep: string, q: string, v: Value)
    requires |sep| == 1 && Resolve(store, p, sep) == Ok(v)
    ensures Resolve(store, p + sep + q, sep) == Walk(v, Split(q, sep), p + sep + q)
  {
    var path := p + sep + q;
    SplitConcat(p, sep, q);
    WalkAppend(Root(store), Split(p, sep), Split(q, sep), path);
    WalkSuccessIgnoresDataPath(Root(store), Split(p, sep), p, path);
  }

  /** A key without the separator, under the default "/": looked up in the root table. */
  lemma ResolveTopLevelKey(root: map<string, Value>, key: string)
    requires '/' !in key
    ensures Resolve(Some(root), key, "/")
         == if Get(root, key) == Null then Err(NotExistsInConfig(key)) else Ok(Get(root, key))
  {
    ContainsChar(key, '/');
    SplitWithoutSeparator(key, "/");
    WalkOne(Table(root), key, key);
  }

  /** `table + "/" + key`, under the default "/": the key is looked up in the table found
      under `table`; each failure is reported with the whole path. */
  lemma ResolveNestedKey(root: map<string, Value>, table: string, key: string, path: string)
    requires '/' !in table && '/' !in key && path == table + "/" + key
    ensures Get(root, table) == Null ==> Resolve(Some(root), path, "/") == Err(NotExistsInConfig(path))
    ensures Get(root, table) != Null && !Get(root, table).Table? ==>
              Resolve(Some(root), path, "/") == Err(NoGetAttribute)
    ensures Get(root, table).Table? ==>
              Resolve(Some(root), path, "/") ==
                (if Get(Get(root, table).entries, key) == Null then Err(NotExistsInConfig(path))
                 else Ok(Get(Get(root, table).entries, key)))
  {
    ContainsChar(table, '/');
    ContainsChar(key, '/');
    SplitConcat(table, "/", key);
    SplitWithoutSeparator(table, "/");
    SplitWithoutSeparator(key, "/");
    assert Split(path, "/") == [table] + [key];
    WalkAppend(Table(root), [table], [key], path);
    WalkOne(Table(root), table, path);
    if Get(root, table) != Null {
      WalkOne(Get(root, table), key, path);
    }
  }
}
