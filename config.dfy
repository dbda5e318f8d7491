/**
 * The configuration store: the ordered set of discovered files and the
 * merged key/value table, with its accessors and mutators.
 */
module Configuration {
  import opened Wrappers
  import opened Text
  import opened FileOrder
  import opened Namespaces
  import opened Discovery
  import opened Merge
  import opened Lookup

  class Config {
    /** The merged table of configuration values */
    var values: map<string, string>
    /** The configuration files, in the order the merge pass visits them */
    var files: seq<Path>

    ghost predicate Valid()
      reads this`files
    {
      Sorted(files)
    }

    /** Adds every search path, then merges the files found into an empty table. */
    constructor (locations: seq<Location>, read: Reader, load: Loader)
      ensures Valid()
      ensures files == InsertAll([], CollectAll(locations))
      ensures values == Merged(map[], files, read, load)
    {
      values := map[];
      files := [];
      new;
      var i := 0;
      while i < |locations|
        invariant 0 <= i <= |locations|
        invariant Valid()
        invariant files == InsertAll([], CollectAll(locations[..i]))
        invariant values == map[]
      {
        AddPath(locations[i]);
        InsertAllAppend([], CollectAll(locations[..i]), Collect(locations[i]));
        assert locations[..i + 1][..i] == locations[..i];
        i := i + 1;
      }
      assert locations[..i] == locations;
      ParseFiles(read, load);
    }

    /** Adds the files a search path contributes to the file set. */
    method AddPath(loc: Location)
      requires Valid()
      modifies this`files
      ensures Valid()
      ensures files == InsertAll(old(files), Collect(loc))
    {
      var found := Collect(loc);
      var i := 0;
      while i < |found|
        invariant 0 <= i <= |found|
        invariant Valid()
        invariant files == InsertAll(old(files), found[..i])
      {
        files := Insert(files, found[i]);
        i := i + 1;
        assert found[..i][..i - 1] == found[..i - 1];
      }
      assert found[..i] == found;
    }

    /**
     * Merges every file, in file-set order, over the current table; keys no
     * file defines keep their values.
     */
    method ParseFiles(read: Reader, load: Loader)
      modifies this`values
      ensures values == Merged(old(values), files, read, load)
    {
      var i := 0;
      while i < |files|
        invariant 0 <= i <= |files|
        invariant values == Merged(old(values), files[..i], read, load)
      {
        MergedStep(old(values), files, read, load, i);
        var f := files[i];
        var props := [];
        var text := read(f);
        if text.Some? {
          props := load(DoubleBackslashes(text.value));
        }
        var ns := Namespace(FileName(f));
        var newProps := QualifyKeys(ns, props);
        values := values + newProps;
        i := i + 1;
      }
      assert files[..i] == files;
    }

    /** containsKey: the exact key is stored, with no prefix fallback */
    predicate ContainsKey(name: string)
      reads this`values
    {
      name in values
    }

    /** getString: the bare segment, then the full name or the default prefixes */
    method GetString(name: string) returns (r: Option<string>)
      ensures r == Resolve(values, name)
    {
      var lastDot := LastIndexOf(name, '.');
      var ns := "";
      var property := name;
      if lastDot > 0 {
        property := name[lastDot + 1..];
        ns := name[..lastDot];
      }
      assert SplitName(name) == Name(ns, property);
      ghost var keys := Candidates(name);
      assert keys[0] == property;
      var result := Get(values, property);
      if result.None? {
        if ns != "" {
          result := Get(values, ns + "." + property);
          assert keys[1..] == [ns + "." + property] && keys[1..][1..] == [];
        } else {
          assert keys[1..] == WithPrefixes(PrefixOrder, property);
          assert PrefixOrder[0..] == PrefixOrder;
          var i := 0;
          while i < |PrefixOrder|
            invariant 0 <= i <= |PrefixOrder|
            invariant result.None?
            invariant FirstHit(values, keys) == FirstHit(values, WithPrefixes(PrefixOrder[i..], property))
          {
            result := Get(values, PrefixOrder[i] + "." + property);
            assert PrefixOrder[i..][1..] == PrefixOrder[i + 1..];
            if result.Some? {
              assert result == FirstHit(values, keys);
              break;
            }
            i := i + 1;
          }
        }
      }
      assert result == FirstHit(values, keys);
      if result.None? || result.value == "" {
        return None;
      }
      return Some(Trim(result.value));
    }

    /** getString(name, defValue) */
    method GetStringOr(name: string, defValue: string) returns (r: string)
      ensures r == ResolveOr(values, name, defValue)
    {
      var found := GetString(name);
      if found.None? {
        return defValue;
      }
      return found.value;
    }

    /**
     * getInt and getLong with a default: the default when the value is absent,
     * otherwise what the library parser makes of it (None: it threw).
     */
    method GetNumber<N>(name: string, defValue: N, valueOf: string -> Option<N>) returns (r: Option<N>)
      ensures Resolve(values, name).None? ==> r == Some(defValue)
      ensures Resolve(values, name).Some? ==> r == valueOf(Resolve(values, name).value)
    {
      var found := GetString(name);
      if found.None? {
        return Some(defValue);
      }
      return valueOf(found.value);
    }

    /** getStringArray */
    method GetStringArray(name: string) returns (r: Option<seq<string>>)
      ensures r == StringArrayOf(Resolve(values, name))
    {
      var found := GetString(name);
      if found.None? {
        return None;
      }
      return Some(Split(found.value, ','));
    }

    /** getList */
    method GetList(name: string) returns (r: seq<string>)
      ensures r == ListOf(Resolve(values, name))
    {
      var parts := GetStringArray(name);
      r := [];
      if parts.Some? {
        r := r + parts.value;
      }
    }

    /** setString: stores value at name and returns what was there */
    method SetString(name: string, value: string) returns (previous: Option<string>)
      modifies this`values
      ensures values == old(values)[name := value]
      ensures previous == Get(old(values), name)
    {
      previous := Get(values, name);
      values := values[name := value];
    }

    /** remove */
    method Remove(name: string)
      modifies this`values
      ensures values == old(values) - {name}
    {
      values := values - {name};
    }

    /** getBoolean: the default when absent, otherwise whether the value is a true value */
    method GetBoolean(s: string, defValue: bool) returns (r: bool)
      ensures r == BooleanOf(values, s, defValue)
    {
      var value := GetString(s);
      if value.None? {
        return defValue;
      }
      r := MatchTrueValues(value.value);
    }

    /** setBoolean: stores "1" for a true value and "0" for anything else */
    method SetBoolean(s: string, b: string)
      modifies this`values
      ensures values == old(values)[s := BooleanText(b)]
    {
      var matched := MatchTrueValues(b);
      if matched {
        values := values[s := "1"];
        return;
      }
      values := values[s := "0"];
    }

    /** getNamespaceProperties(namespace, newNamespace) */
    method GetNamespacePropertiesRenamed(ns: string, nn: string) returns (r: map<string, string>)
      ensures r == Renamed(values, ns, nn)
    {
      r := map[];
      var todo := values.Keys;
      while todo != {}
        invariant todo <= values.Keys
        invariant r == Renamed(values - todo, ns, nn)
        decreases |todo|
      {
        var key :| key in todo;
        RenamedStep(values, todo, key, ns, nn);
        if StartsWith(key, ns) {
          RenamedKey(key, ns, nn);
          var newKey := key;
          if ns != nn {
            newKey := ReplaceFirst(key, ns, nn);
          }
          r := r[newKey := values[key]];
        }
        todo := todo - {key};
      }
      assert values - todo == values;
    }

    /** getNamespaceProperties(namespace): the keys starting with namespace, unchanged */
    method GetNamespaceProperties(ns: string) returns (r: map<string, string>)
      ensures r == map k | k in values && StartsWith(k, ns) :: values[k]
    {
      r := GetNamespacePropertiesRenamed(ns, ns);
      RenamedSame(values, ns);
    }
  }

  /**
   * containsKey has no fallback: for an undotted p that the store does not
   * contain, getString(p) still finds the value stored under "web." + p.
   */
  lemma ContainsKeyHasNoFallback(c: Config, p: string)
    requires '.' !in p && !c.ContainsKey(p) && "web." + p in c.values && c.values["web." + p] != ""
    ensures Resolve(c.values, p) == Some(Trim(c.values["web." + p]))
  {
    Lookup.ContainsKeyHasNoFallback(c.values, p);
  }
}
