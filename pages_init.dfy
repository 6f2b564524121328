/** The asimov-pages init step: per-category path lists in the configuration, and the
    registered setter that appends to one of them. */
module PagesInit {
  import opened Wrappers

  /** Category → list of paths (`config.paths`). */
  type PathMap = map<string, seq<string>>

  /** The calls made to code outside this module, in order: `asimov.register`,
      `asimov.logPending` and the `next` callback. */
  datatype Call = Register(name: string) | LogPending(namespace: string, message: string) | Next

  /** The name the setter for `category` is registered under. */
  function SetterName(category: string): (r: string)
    ensures |r| == |category| + 4 && r[..|category|] == category && r[|category|..] == "Path"
  {
    category + "Path"
  }

  /** The message the setter hands to `logPending`. */
  function AddingPathMessage(category: string, path: string): (r: string)
    ensures |r| == 19 + |category| + |path|
    ensures r[..16] == "Adding path for " && r[16..16 + |category|] == category
    ensures r[16 + |category|..19 + |category|] == " @ " && r[19 + |category|..] == path
  {
    "Adding path for " + category + " @ " + path
  }

  /** `config.paths` after `paths = paths || {}; paths[category] = paths[category] || []`:
      created only when absent; an existing list is kept as it is. */
  function WithList(paths: Option<PathMap>, category: string): (r: PathMap)
    ensures category in r
    ensures paths.Some? && category in paths.value ==> r[category] == paths.value[category]
    ensures paths.None? || category !in paths.value ==> r[category] == []
    ensures paths.Some? ==> r.Keys == paths.value.Keys + {category}
    ensures paths.None? ==> r.Keys == {category}
    ensures forall k :: k in r && k != category ==> paths.Some? && k in paths.value && r[k] == paths.value[k]
  {
    var m := if paths.Some? then paths.value else map[];
    if category in m then m else m[category := []]
  }

  /** Initialising twice is the same as initialising once. */
  lemma WithListIdempotent(paths: Option<PathMap>, category: string)
    ensures WithList(Some(WithList(paths, category)), category) == WithList(paths, category)
  {
  }

  /** `paths[category].push(path)`: exactly `path` at the end of that list, every other
      category unchanged. */
  function Appended(paths: PathMap, category: string, path: string): (r: PathMap)
    requires category in paths
    ensures r.Keys == paths.Keys
    ensures r[category] == paths[category] + [path]
    ensures forall k :: k in r && k != category ==> r[k] == paths[k]
  {
    paths[category := paths[category] + [path]]
  }

  /** The framework object as this module sees it. */
  class Asimov {
    /** `asimov.config.paths`; `None` while undefined. */
    var paths: Option<PathMap>
    /** The setters registered so far: name → category the closure appends to. */
    var setters: map<string, string>
    /** The outside calls made so far. */
    var calls: seq<Call>

    /** Every registered setter has a list to append to. */
    ghost predicate Valid()
      reads this
    {
      forall name :: name in setters ==> paths.Some? && setters[name] in paths.value
    }

    constructor (paths: Option<PathMap>)
      ensures Valid()
      ensures this.paths == paths && setters == map[] && calls == []
    {
      this.paths := paths;
      setters := map[];
      calls := [];
    }

    /** `registerPathSetter(asimov, category)`. */
    method RegisterPathSetter(category: string)
      requires Valid()
      modifies this
      ensures Valid()
      ensures paths == Some(WithList(old(paths), category))
      ensures setters == old(setters)[SetterName(category) := category]
      ensures calls == old(calls) + [Register(SetterName(category))]
    {
      var name := category + "Path";
      paths := Some(WithList(paths, category));
      setters := setters[name := category];
      calls := calls + [Register(name)];
    }

    /** Calling the setter registered under `name` with `path`. */
    method CallSetter(name: string, path: string)
      requires Valid() && name in setters
      modifies this
      ensures Valid()
      ensures paths == Some(Appended(old(paths).value, old(setters)[name], path))
      ensures setters == old(setters)
      ensures calls == old(calls) + [LogPending("pages", AddingPathMessage(old(setters)[name], path))]
    {
      var category := setters[name];
      calls := calls + [LogPending("pages", AddingPathMessage(category, path))];
      paths := Some(Appended(paths.value, category, path));
    }

    /** The module entry: register the "pages" setter, then call `next` once. */
    method Init()
      requires Valid()
      modifies this
      ensures Valid()
      ensures paths == Some(WithList(old(paths), "pages"))
      ensures setters == old(setters)["pagesPath" := "pages"]
      ensures calls == old(calls) + [Register("pagesPath"), Next]
    {
      RegisterPathSetter("pages");
      assert SetterName("pages") == "pagesPath";
      calls := calls + [Next];
    }
  }
}
