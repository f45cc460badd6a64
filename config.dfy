/** The configuration objects: a store that a successful load replaces, the resolver
    run against it, and the fixed-path accessors of the project and song configs. */
module Config {
  import opened ConfigValues
  import opened PathSplit
  import opened Resolver

  /** The base configuration object. `store` is `None` until a load succeeds. */
  class MeloDConfig {
    var store: Option<map<string, Value>>

    /** The source's initialiser assigns a local variable, so the store stays at its
        class-level default: unloaded. */
    constructor()
      ensures store == None
    {
      store := None;
    }

    /** Try to load a configuration file. `parsed` is what opening and parsing the file
        at `filepath` gives: `None` for a missing file, a format error or any other
        failure, else the parsed top-level table. Failure of any kind is `false` and
        leaves the store as it was; success replaces the store with the parsed table. */
    method CouldLoadFile(filepath: Option<string>, parsed: Option<map<string, Value>>)
      returns (loaded: bool)
      modifies this
      ensures loaded <==> filepath.Some? && filepath.value != "" && parsed.Some?
      ensures store == if loaded then parsed else old(store)
    {
      if filepath.None? || filepath.value == "" {
        return false;
      }
      if parsed.None? {
        return false;
      }
      store := parsed;
      return true;
    }

    /** Resolve `dataPath`, split on `sep`, against the store: one `.get` per segment,
        stopping at the first failure. The source's invalid-path guard compares the
        path string with an empty list and so never fires; it has no branch here. */
    method GetDataValue(dataPath: string, sep: string := "/") returns (r: Result<Value>)
      ensures r == Resolve(store, dataPath, sep)
    {
      if sep == "" {
        return Err(EmptySeparator);
      }
      var segments := Split(dataPath, sep);
      var data := Root(store);
      var i := 0;
      while i < |segments|
        invariant 0 <= i <= |segments|
        invariant Walk(data, segments[i..], dataPath) == Resolve(store, dataPath, sep)
      {
        if !data.Table? {
          return Err(NoGetAttribute);
        }
        data := Get(data.entries, segments[i]);
        if data == Null {
          return Err(NotExistsInConfig(dataPath));
        }
        i := i + 1;
      }
      return Ok(data);
    }

    /** Three resolutions evaluated left to right; the first failure is raised. */
    method GetThree(p1: string, p2: string, p3: string) returns (r: Result<(Value, Value, Value)>)
      ensures r == All3(Resolve(store, p1, "/"), Resolve(store, p2, "/"), Resolve(store, p3, "/"))
    {
      var x := GetDataValue(p1);
      if x.Err? {
        return Err(x.error);
      }
      var y := GetDataValue(p2);
      if y.Err? {
        return Err(y.error);
      }
      var z := GetDataValue(p3);
      if z.Err? {
        return Err(z.error);
      }
      return Ok((x.value, y.value, z.value));
    }
  }

  /** A pair of results evaluated left to right: both values in order, or the first error. */
  function All2<T>(a: Result<T>, b: Result<T>): (r: Result<(T, T)>)
    ensures r.Ok? <==> a.Ok? && b.Ok?
    ensures r.Ok? ==> r.value == (a.value, b.value)
    ensures a.Err? ==> r == Err(a.error)
    ensures a.Ok? && b.Err? ==> r == Err(b.error)
  {
    if a.Err? then Err(a.error)
    else if b.Err? then Err(b.error)
    else Ok((a.value, b.value))
  }

  /** A triple of results evaluated left to right: all values in order, or the first error. */
  function All3<T>(a: Result<T>, b: Result<T>, c: Result<T>): (r: Result<(T, T, T)>)
    ensures r.Ok? <==> a.Ok? && b.Ok? && c.Ok?
    ensures r.Ok? ==> r.value == (a.value, b.value, c.value)
    ensures a.Err? ==> r == Err(a.error)
    ensures a.Ok? && b.Err? ==> r == Err(b.error)
    ensures a.Ok? && b.Ok? && c.Err? ==> r == Err(c.error)
  {
    if a.Err? then Err(a.error)
    else if b.Err? then Err(b.error)
    else if c.Err? then Err(c.error)
    else Ok((a.value, b.value, c.value))
  }

  /** The project configuration: printer geometry and where the song configuration is. */
  class ProjectConfig {
    const base: MeloDConfig

    constructor()
      ensures fresh(base) && base.store == None
    {
      base := new MeloDConfig();
    }

    method GetPrinterAnglesPerStep() returns (r: Result<(Value, Value, Value)>)
      ensures r == All3(Resolve(base.store, "printer/x_ang", "/"),
                        Resolve(base.store, "printer/y_ang", "/"),
                        Resolve(base.store, "printer/z_ang", "/"))
    {
      r := base.GetThree("printer/x_ang", "printer/y_ang", "printer/z_ang");
    }

    method GetPrinterRotDistancePerRev() returns (r: Result<(Value, Value, Value)>)
      ensures r == All3(Resolve(base.store, "printer/x_rpr", "/"),
                        Resolve(base.store, "printer/y_rpr", "/"),
                        Resolve(base.store, "printer/z_rpr", "/"))
    {
      r := base.GetThree("printer/x_rpr", "printer/y_rpr", "printer/z_rpr");
    }

    method GetPrinterDimensions() returns (r: Result<(Value, Value, Value)>)
      ensures r == All3(Resolve(base.store, "printer/x_dim", "/"),
                        Resolve(base.store, "printer/y_dim", "/"),
                        Resolve(base.store, "printer/z_dim", "/"))
    {
      r := base.GetThree("printer/x_dim", "printer/y_dim", "printer/z_dim");
    }

    method GetSongConfigPath() returns (r: Result<Value>)
      ensures r == Resolve(base.store, "song/config_filepath", "/")
    {
      r := base.GetDataValue("song/config_filepath");
    }
  }

  /** The song configuration: identity, tempo and per-axis octave adjustment. */
  class SongConfig {
    const base: MeloDConfig

    constructor()
      ensures fresh(base) && base.store == None
    {
      base := new MeloDConfig();
    }

    method GetSongProperties() returns (r: Result<(Value, Value)>)
      ensures r == All2(Resolve(base.store, "song_name", "/"),
                        Resolve(base.store, "song_directory", "/"))
    {
      var name := base.GetDataValue("song_name");
      if name.Err? {
        return Err(name.error);
      }
      var directory := base.GetDataValue("song_directory");
      if directory.Err? {
        return Err(directory.error);
      }
      return Ok((name.value, directory.value));
    }

    method GetSongTempo() returns (r: Result<Value>)
      ensures r == Resolve(base.store, "tempo", "/")
    {
      r := base.GetDataValue("tempo");
    }

    method GetSongOctavesAdjustment() returns (r: Result<(Value, Value, Value)>)
      ensures r == All3(Resolve(base.store, "x_octave_adj", "/"),
                        Resolve(base.store, "y_octave_adj", "/"),
                        Resolve(base.store, "z_octave_adj", "/"))
    {
      r := base.GetThree("x_octave_adj", "y_octave_adj", "z_octave_adj");
    }
  }

  /** The three values under `printer` are what each printer accessor returns, in
      x, y, z order, once a file holding them is loaded. */
  lemma PrinterAccessorsOfLoadedFile(root: map<string, Value>, printer: map<string, Value>,
                                     x: string, y: string, z: string)
    requires Get(root, "printer") == Table(printer)
    requires x in {"x_ang", "x_rpr", "x_dim"} && y in {"y_ang", "y_rpr", "y_dim"}
    requires z in {"z_ang", "z_rpr", "z_dim"}
    requires Get(printer, x) != Null && Get(printer, y) != Null && Get(printer, z) != Null
    ensures All3(Resolve(Some(root), "printer/" + x, "/"),
                 Resolve(Some(root), "printer/" + y, "/"),
                 Resolve(Some(root), "printer/" + z, "/"))
         == Ok((printer[x], printer[y], printer[z]))
  {
    assert '/' !in "printer" && '/' !in x && '/' !in y && '/' !in z;
    ResolveNestedKey(root, "printer", x, "printer/" + x);
    ResolveNestedKey(root, "printer", y, "printer/" + y);
    ResolveNestedKey(root, "printer", z, "printer/" + z);
  }

  /** Without a `printer` table every printer accessor fails, and the error reported is
      the one for the x path, the first evaluated. */
  lemma PrinterAccessorsReportFirstPath(root: map<string, Value>, x: string, y: string, z: string)
    requires Get(root, "printer") == Null
    requires x in {"x_ang", "x_rpr", "x_dim"} && y in {"y_ang", "y_rpr", "y_dim"}
    requires z in {"z_ang", "z_rpr", "z_dim"}
    ensures All3(Resolve(Some(root), "printer/" + x, "/"),
                 Resolve(Some(root), "printer/" + y, "/"),
                 Resolve(Some(root), "printer/" + z, "/"))
         == Err(NotExistsInConfig("printer/" + x))
  {
    assert '/' !in "printer" && '/' !in x;
    ResolveNestedKey(root, "printer", x, "printer/" + x);
  }

  /** Song values are top-level keys: each is returned exactly as stored, a falsy one
      (a zero tempo, an empty name) included; a missing one is the not-exists error. */
  lemma SongKeyOfLoadedFile(root: map<string, Value>, key: string)
    requires key in {"song_name", "song_directory", "tempo", "x_octave_adj", "y_octave_adj", "z_octave_adj"}
    ensures Resolve(Some(root), key, "/")
         == if Get(root, key) == Null then Err(NotExistsInConfig(key)) else Ok(root[key])
  {
    assert '/' !in key;
    ResolveTopLevelKey(root, key);
  }

  /** The song properties are the stored name and directory, in that order; when both
      are missing the error names the name, the first evaluated. */
  lemma SongPropertiesOfLoadedFile(root: map<string, Value>)
    ensures All2(Resolve(Some(root), "song_name", "/"), Resolve(Some(root), "song_directory", "/"))
         == if Get(root, "song_name") == Null then Err(NotExistsInConfig("song_name"))
            else if Get(root, "song_directory") == Null then Err(NotExistsInConfig("song_directory"))
            else Ok((root["song_name"], root["song_directory"]))
  {
    SongKeyOfLoadedFile(root, "song_name");
    SongKeyOfLoadedFile(root, "song_directory");
  }

  /** Loading the same file twice reads the same dimensions both times; a failed load in
      between changes nothing. */
  method ReloadReadsAlike(cfg: ProjectConfig, path: string, parsed: map<string, Value>)
    returns (first: Result<(Value, Value, Value)>, second: Result<(Value, Value, Value)>)
    requires path != ""
    modifies cfg.base
    ensures first == second
  {
    var ok := cfg.base.CouldLoadFile(Some(path), Some(parsed));
    first := cfg.GetPrinterDimensions();
    ok := cfg.base.CouldLoadFile(Some(path), None);
    ok := cfg.base.CouldLoadFile(Some(path), Some(parsed));
    second := cfg.GetPrinterDimensions();
  }
}
