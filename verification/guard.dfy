/**
 * The path-confinement guard shared by both versions of the extension:
 * the check hook of the `sqlite_fs.location` setting and the conversion of a
 * store-path argument into a canonical path below that location.
 *
 * `canonicalize_path` is a PostgreSQL routine outside this model; it is passed
 * in as an arbitrary function, so every property below holds whatever it does.
 * `is_absolute_path` and `path_is_prefix_of_path` are the Unix definitions.
 */
module Guard {
  import opened Wrappers

  /** is_absolute_path: the path starts with a directory separator. */
  predicate IsAbsolute(p: string) {
    |p| > 0 && p[0] == '/'
  }

  /**
   * path_is_prefix_of_path(dir, p): `dir` is a character prefix of `p`
   * that ends at a separator or at the end of `p`.
   */
  predicate PathIsPrefix(dir: string, p: string) {
    |dir| <= |p| && p[..|dir|] == dir && (|p| == |dir| || p[|dir|] == '/')
  }

  /** The prefix test is component-wise: `p` is `dir` itself or lies under `dir/`. */
  lemma PrefixIsComponentwise(dir: string, p: string)
    ensures PathIsPrefix(dir, p) <==> (p == dir || exists rest :: p == dir + "/" + rest)
  {
    if PathIsPrefix(dir, p) && p != dir {
      var rest := p[|dir| + 1..];
      assert p == p[..|dir|] + [p[|dir|]] + rest;
      assert p == dir + "/" + rest;
    }
    if exists rest :: p == dir + "/" + rest {
      var rest :| p == dir + "/" + rest;
      assert p[..|dir|] == dir;
      assert p[|dir|] == '/';
    }
  }

  /** A sibling whose name merely starts with the directory's name is not below it. */
  lemma SiblingIsNotBelow(dir: string, tail: string)
    requires tail != [] && tail[0] != '/'
    ensures !PathIsPrefix(dir, dir + tail)
  {
    assert (dir + tail)[|dir|] == tail[0];
  }

  // ---------------------------------------------------------------------------
  // The sqlite_fs.location setting (check_hook)

  /** Where a new value of the setting comes from (the GucSource cases the hook tells apart). */
  datatype GucSource = DefaultValue | ConfigFile | OtherSource

  /** The hook's verdict, and the value as the hook left it (it canonicalises in place). */
  datatype HookResult = HookResult(accept: bool, newval: Option<string>)

  /**
   * check_hook: the built-in default is let through untouched; any source other
   * than the configuration file is refused; from the file, the value must be
   * non-empty and absolute, is then canonicalised in place, and is refused when
   * it lies inside the data directory.
   */
  function CheckHook(newval: Option<string>, source: GucSource, dataDir: string,
                     canonicalize: string -> string): (r: HookResult)
    ensures source == DefaultValue ==> r == HookResult(true, newval)
    ensures source == OtherSource ==> r == HookResult(false, newval)
    ensures source == ConfigFile ==>
      (r.accept <==> newval.Some? && newval.value != "" && IsAbsolute(newval.value)
                     && !PathIsPrefix(dataDir, canonicalize(newval.value)))
    ensures r.accept && source == ConfigFile ==>
      r.newval.Some? && r.newval.value == canonicalize(newval.value)
      && !PathIsPrefix(dataDir, r.newval.value)
    ensures !r.accept ==> r.newval == newval || (newval.Some? && r.newval == Some(canonicalize(newval.value)))
  {
    if source == DefaultValue then HookResult(true, newval)
    else if source != ConfigFile then HookResult(false, newval)
    else if newval.None? || newval.value == "" then HookResult(false, newval)
    else if !IsAbsolute(newval.value) then HookResult(false, newval)
    else
      var canonical := canonicalize(newval.value);
      if PathIsPrefix(dataDir, canonical) then HookResult(false, Some(canonical))
      else HookResult(true, Some(canonical))
  }

  // ---------------------------------------------------------------------------
  // convert_and_check_path

  /** The guard's verdict on a store-path argument. */
  datatype PathCheck =
    | Accepted(path: string)  // the canonical path to open
    | Refused                 // ereport(ERROR, insufficient privilege)
    | Undefined               // the code dereferences a NULL setting

  /** Confinement: an accepted path is absolute and is the location or lies below it. */
  ghost predicate Confined(c: PathCheck, location: Option<string>) {
    c.Accepted? ==> IsAbsolute(c.path) && location.Some? && PathIsPrefix(location.value, c.path)
  }

  /**
   * convert_and_check_path of src/pg.c: canonicalise, then refuse a relative
   * path, an unset location, and a path the location is not a prefix of.
   */
  function CheckPath(arg: string, location: Option<string>, canonicalize: string -> string): (r: PathCheck)
    ensures !r.Undefined?
    ensures Confined(r, location)
    ensures r.Accepted? <==>
      IsAbsolute(canonicalize(arg)) && location.Some? && PathIsPrefix(location.value, canonicalize(arg))
    ensures r.Accepted? ==> r.path == canonicalize(arg)
  {
    var path := canonicalize(arg);
    if !IsAbsolute(path) then Refused
    else if location.None? then Refused
    else if !PathIsPrefix(location.value, path) then Refused
    else Accepted(path)
  }

  /**
   * convert_and_check_path of src/pg_sqlite_fs.c: the same checks without the
   * unset-location test, so an absolute path with no location set reaches
   * path_is_prefix_of_path with a NULL directory.
   */
  function LegacyCheckPath(arg: string, location: Option<string>, canonicalize: string -> string): (r: PathCheck)
    ensures Confined(r, location)
    ensures r.Undefined? <==> IsAbsolute(canonicalize(arg)) && location.None?
    ensures r.Accepted? <==>
      IsAbsolute(canonicalize(arg)) && location.Some? && PathIsPrefix(location.value, canonicalize(arg))
    ensures r.Accepted? ==> r.path == canonicalize(arg)
  {
    var path := canonicalize(arg);
    if !IsAbsolute(path) then Refused
    else if location.None? then Undefined
    else if !PathIsPrefix(location.value, path) then Refused
    else Accepted(path)
  }

  /** Once the location is set, the two versions of the guard decide alike. */
  lemma GuardsAgreeWhenSet(arg: string, location: Option<string>, canonicalize: string -> string)
    ensures location.Some? ==> LegacyCheckPath(arg, location, canonicalize) == CheckPath(arg, location, canonicalize)
    ensures location.None? ==> CheckPath(arg, location, canonicalize) == Refused
    ensures location.None? && !IsAbsolute(canonicalize(arg)) ==> LegacyCheckPath(arg, location, canonicalize) == Refused
  {
  }

  /** A path that neither is the location nor continues it with a separator is refused. */
  lemma OutsideIsRefused(arg: string, location: string, canonicalize: string -> string)
    requires canonicalize(arg) != location
    requires forall rest :: canonicalize(arg) != location + "/" + rest
    ensures CheckPath(arg, Some(location), canonicalize) == Refused
    ensures LegacyCheckPath(arg, Some(location), canonicalize) == Refused
  {
    PrefixIsComponentwise(location, canonicalize(arg));
  }
}
