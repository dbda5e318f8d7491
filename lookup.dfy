/**
 * Reading the merged store: getString's fallback lookup, the boolean and
 * list views of a value, and the namespace subset of the store.
 */
module Lookup {
  import opened Wrappers
  import opened Text

  /** The namespaces tried, in order, for a name without one */
  const PrefixOrder: seq<string> := ["web", "server"]

  /** The values read as true, ignoring case */
  const TrueValues: seq<string> := ["1", "y", "true", "yes", "on"]

  /** A name split on its last '.', when that '.' is not the first character */
  datatype Name = Name(ns: string, property: string)

  function SplitName(name: string): (n: Name)
    ensures n.ns == "" || name == n.ns + "." + n.property
    ensures n.ns == "" ==> n.property == name
    ensures '.' !in n.property || n.property == name
  {
    var lastDot := LastIndexOf(name, '.');
    if lastDot > 0 then
      assert name == name[..lastDot] + "." + name[lastDot + 1..];
      Name(name[..lastDot], name[lastDot + 1..])
    else Name("", name)
  }

  /** The property qualified with each prefix, in order */
  function WithPrefixes(prefixes: seq<string>, property: string): (keys: seq<string>)
    ensures |keys| == |prefixes|
    ensures forall i :: 0 <= i < |prefixes| ==> keys[i] == prefixes[i] + "." + property
  {
    if |prefixes| == 0 then [] else [prefixes[0] + "." + property] + WithPrefixes(prefixes[1..], property)
  }

  /**
   * The keys getString looks at, in order: the bare last segment, then the
   * full name when the name has a namespace, else each default prefix.
   */
  function Candidates(name: string): seq<string>
  {
    var n := SplitName(name);
    [n.property] + (if n.ns != "" then [n.ns + "." + n.property] else WithPrefixes(PrefixOrder, n.property))
  }

  /** The value of the first candidate present in values */
  function FirstHit(values: map<string, string>, keys: seq<string>): (r: Option<string>)
    ensures r.None? <==> forall i :: 0 <= i < |keys| ==> keys[i] !in values
    ensures r.Some? ==> exists i :: 0 <= i < |keys| && keys[i] in values && r.value == values[keys[i]]
                                    && forall j :: 0 <= j < i ==> keys[j] !in values
  {
    if |keys| == 0 then None
    else if keys[0] in values then Some(values[keys[0]])
    else
      var r := FirstHit(values, keys[1..]);
      assert forall i :: 1 <= i < |keys| ==> keys[1..][i - 1] == keys[i];
      if r.Some? then
        var i :| 0 <= i < |keys[1..]| && keys[1..][i] in values && r.value == values[keys[1..][i]]
                 && forall j :: 0 <= j < i ==> keys[1..][j] !in values;
        assert keys[i + 1] in values && r.value == values[keys[i + 1]];
        r
      else r
  }

  /** An absent or empty value reads as absent; any other is trimmed. */
  function Normalize(found: Option<string>): Option<string>
  {
    match found
    case None => None
    case Some(v) => if v == "" then None else Some(Trim(v))
  }

  /** getString(name) over the store values */
  function Resolve(values: map<string, string>, name: string): Option<string>
  {
    Normalize(FirstHit(values, Candidates(name)))
  }

  /** getString(name, defValue) */
  function ResolveOr(values: map<string, string>, name: string, defValue: string): (r: string)
    ensures Resolve(values, name).None? ==> r == defValue
    ensures Resolve(values, name).Some? ==> r == Resolve(values, name).value
  {
    Resolve(values, name).GetOr(defValue)
  }

  lemma NoDotSplit(name: string)
    requires '.' !in name
    ensures SplitName(name) == Name("", name)
  {
  }

  /** A name without '.' is looked up as written, then under "web.", then under "server.". */
  lemma ResolveUndotted(values: map<string, string>, p: string)
    requires '.' !in p
    ensures Resolve(values, p) ==
      Normalize(if p in values then Some(values[p])
                else if "web." + p in values then Some(values["web." + p])
                else Get(values, "server." + p))
  {
    NoDotSplit(p);
    var keys := Candidates(p);
    var w := WithPrefixes(PrefixOrder, p);
    assert w[0] == "web" + "." + p == "web." + p;
    assert w[1] == "server" + "." + p == "server." + p;
    assert w == ["web." + p, "server." + p];
    assert keys == [p, "web." + p, "server." + p];
    assert keys[1..] == ["web." + p, "server." + p];
    assert keys[1..][1..] == ["server." + p];
    assert keys[1..][1..][1..] == [];
  }

  /** A name "ns.p" with a non-empty ns and no '.' in p splits into ns and p. */
  lemma DottedSplit(ns: string, p: string)
    requires ns != "" && '.' !in p
    ensures SplitName(ns + "." + p) == Name(ns, p)
  {
    var name := ns + "." + p;
    var d := LastIndexOf(name, '.');
    assert name[|ns|] == '.';
    assert forall j :: |ns| < j < |name| ==> name[j] == p[j - |ns| - 1];
    assert d == |ns|;
    assert name[..d] == ns && name[d + 1..] == p;
  }

  /**
   * For a dotted name "ns.p" the bare segment p is tried first, and the full
   * name only when p is absent; the default prefixes are never tried.
   */
  lemma ResolveDotted(values: map<string, string>, ns: string, p: string)
    requires ns != "" && '.' !in p
    ensures Resolve(values, ns + "." + p) ==
      Normalize(if p in values then Some(values[p]) else Get(values, ns + "." + p))
  {
    var name := ns + "." + p;
    DottedSplit(ns, p);
    var keys := Candidates(name);
    assert keys == [p, name];
    assert keys[1..] == [name];
    assert keys[1..][1..] == [];
    assert FirstHit(values, keys[1..]) == Get(values, name);
    assert FirstHit(values, keys) == if p in values then Some(values[p]) else Get(values, name);
  }

  /** The stored value after setString(k, v) is what getString(k) returns, for k without '.'. */
  lemma SetThenResolve(values: map<string, string>, k: string, v: string)
    requires '.' !in k
    ensures Resolve(values[k := v], k) == if v == "" then None else Some(Trim(v))
  {
    ResolveUndotted(values[k := v], k);
  }

  /** After remove(k), getString(k) falls back to "web.k" and then "server.k". */
  lemma RemoveThenResolve(values: map<string, string>, k: string)
    requires '.' !in k
    ensures Resolve(values - {k}, k) ==
      Normalize(if "web." + k in values then Some(values["web." + k]) else Get(values, "server." + k))
  {
    ResolveUndotted(values - {k}, k);
    assert "web." + k != k && "server." + k != k;
  }

  /** A whitespace-only value comes back as "", not as absent. */
  lemma WhitespaceValueIsEmptyNotAbsent(values: map<string, string>, k: string)
    requires '.' !in k && k in values && values[k] != "" && AllSpace(values[k])
    ensures Resolve(values, k) == Some("")
  {
    ResolveUndotted(values, k);
    TrimEmptyIff(values[k]);
  }

  /** "server.port" is answered by a bare "port" when one is stored. */
  lemma BareSegmentShadowsQualified(values: map<string, string>, ns: string, p: string)
    requires ns != "" && '.' !in p && p in values
    ensures Resolve(values, ns + "." + p) == Normalize(Some(values[p]))
  {
    ResolveDotted(values, ns, p);
  }

  /**
   * containsKey (Configuration.Config.ContainsKey) is exactly `name in values`
   * and has no fallback: for a p it does not contain, getString(p) still finds
   * a value stored under "web." + p.
   */
  lemma ContainsKeyHasNoFallback(values: map<string, string>, p: string)
    requires '.' !in p && p !in values && "web." + p in values && values["web." + p] != ""
    ensures Resolve(values, p) == Some(Trim(values["web." + p]))
  {
    ResolveUndotted(values, p);
  }

  // ----- booleans -----

  /** getBoolean's reading of a present value */
  predicate IsTrue(v: string)
  {
    exists i :: 0 <= i < |TrueValues| && EqualsIgnoreCase(TrueValues[i], v)
  }

  /** The boolean getBoolean(name, defValue) returns */
  function BooleanOf(values: map<string, string>, name: string, defValue: bool): bool
  {
    match Resolve(values, name)
    case None => defValue
    case Some(v) => IsTrue(v)
  }

  /** The loop over the true values in getBoolean and setBoolean */
  method MatchTrueValues(v: string) returns (matched: bool)
    ensures matched == IsTrue(v)
  {
    var i := 0;
    while i < |TrueValues|
      invariant 0 <= i <= |TrueValues|
      invariant forall j :: 0 <= j < i ==> !EqualsIgnoreCase(TrueValues[j], v)
    {
      if EqualsIgnoreCase(TrueValues[i], v) {
        return true;
      }
      i := i + 1;
    }
    return false;
  }

  /** The value setBoolean stores */
  function BooleanText(b: string): (r: string)
    ensures r == "1" || r == "0"
  {
    if IsTrue(b) then "1" else "0"
  }

  /** A value is true exactly when its lower-case form is one of the true values. */
  lemma IsTrueLower(v: string)
    ensures IsTrue(v) <==> LowerAll(v) in TrueValues
  {
    forall i | 0 <= i < |TrueValues|
      ensures EqualsIgnoreCase(TrueValues[i], v) <==> LowerAll(v) == TrueValues[i]
    {
      EqualsIgnoreCaseLower(TrueValues[i], v);
      var t := TrueValues[i];
      assert LowerAll(t) == t;
    }
  }

  lemma TrueInputs(v: string)
    requires v in ["1", "y", "TRUE", "Yes", "On"]
    ensures IsTrue(v)
  {
    IsTrueLower(v);
    var l := LowerAll(v);
    if v == "TRUE" {
      assert l == "true";
    } else if v == "Yes" {
      assert l == "yes";
    } else if v == "On" {
      assert l == "on";
    } else {
      assert l == v;
    }
  }

  lemma FalseInputs(v: string)
    requires v in ["0", "false", "no", "maybe", ""]
    ensures !IsTrue(v)
  {
    IsTrueLower(v);
    var l := LowerAll(v);
    if |v| == 5 || |v| == 0 {
      assert forall i :: 0 <= i < |TrueValues| ==> |TrueValues[i]| != |l|;
    } else if v == "0" {
      assert l[0] == '0';
    } else {
      assert v == "no" && l[0] == 'n';
    }
  }

  /** setBoolean(k, b) then getBoolean(k, d) gives back b's truth, for k without '.'. */
  lemma SetBooleanThenGet(values: map<string, string>, k: string, b: string, d: bool)
    requires '.' !in k
    ensures BooleanOf(values[k := BooleanText(b)], k, d) == IsTrue(b)
  {
    var t := BooleanText(b);
    SetThenResolve(values, k, t);
    TrimOfDigit(t);
    if IsTrue(b) {
      TrueInputs(t);
    } else {
      FalseInputs(t);
    }
  }

  lemma TrimOfDigit(s: string)
    requires s == "1" || s == "0"
    ensures Trim(s) == s
  {
    TrimEmptyIff(s);
    assert !IsSpace(s[0]);
  }

  // ----- lists -----

  /** getStringArray: the comma-split of the value, or None when it is absent */
  function StringArrayOf(found: Option<string>): Option<seq<string>>
  {
    match found
    case None => None
    case Some(v) => Some(Split(v, ','))
  }

  /** getList: the comma-split of the value, or the empty list when it is absent */
  function ListOf(found: Option<string>): (r: seq<string>)
    ensures found.None? ==> r == []
    ensures found.Some? ==> r == Split(found.value, ',')
  {
    match StringArrayOf(found)
    case None => []
    case Some(parts) => parts
  }

  /**
   * The pieces of a comma-separated value: none contains ',', and they are the
   * value's comma-separated pieces with the trailing empty ones dropped.
   */
  lemma SplitPieces(v: string)
    ensures forall i :: 0 <= i < |Split(v, ',')| ==> ',' !in Split(v, ',')[i]
    ensures Split(v, ',') == SplitAll(v, ',')[..|Split(v, ',')|]
    ensures forall i :: |Split(v, ',')| <= i < |SplitAll(v, ',')| ==> SplitAll(v, ',')[i] == ""
    ensures Join(SplitAll(v, ','), ',') == v
  {
    JoinSplitAll(v, ',');
  }

  lemma ListOfThree(v: string)
    requires v == "x,y,z"
    ensures ListOf(Some(v)) == ["x", "y", "z"]
  {
    var parts := ["x", "y", "z"];
    assert Join(parts, ',') == v;
    SplitAllJoin(parts, ',');
    assert v[1] == ',';
  }

  /** A whitespace-only value is present as "", and "".split gives one empty piece. */
  lemma ListOfEmptyValue()
    ensures ListOf(Some("")) == [""]
  {
  }

  // ----- namespace subsets -----

  /** The stored keys starting with ns, with that leading ns replaced by nn */
  function Renamed(values: map<string, string>, ns: string, nn: string): (r: map<string, string>)
    ensures forall k :: k in r ==> StartsWith(k, nn) && ns + k[|nn|..] in values && r[k] == values[ns + k[|nn|..]]
    ensures forall k :: k in values && StartsWith(k, ns) ==> nn + k[|ns|..] in r
  {
    RenameInjective(ns, nn);
    var r := map k | k in values && StartsWith(k, ns) :: nn + k[|ns|..] := values[k];
    assert forall k :: k in values && StartsWith(k, ns) ==> k == ns + k[|ns|..];
    r
  }

  lemma RenameInjective(ns: string, nn: string)
    ensures forall k1, k2 :: StartsWith(k1, ns) && StartsWith(k2, ns) && nn + k1[|ns|..] == nn + k2[|ns|..]
                             ==> k1 == k2
  {
    forall k1, k2 | StartsWith(k1, ns) && StartsWith(k2, ns) && nn + k1[|ns|..] == nn + k2[|ns|..]
      ensures k1 == k2
    {
      assert (nn + k1[|ns|..])[|nn|..] == k1[|ns|..];
      assert (nn + k2[|ns|..])[|nn|..] == k2[|ns|..];
      assert k1 == k1[..|ns|] + k1[|ns|..] && k2 == k2[..|ns|] + k2[|ns|..];
    }
  }

  /** Adding one key to the table adds at most its renamed key to the subset. */
  lemma RenamedAdd(m: map<string, string>, ns: string, nn: string, k: string, v: string)
    requires k !in m
    ensures Renamed(m[k := v], ns, nn) ==
      if StartsWith(k, ns) then Renamed(m, ns, nn)[nn + k[|ns|..] := v] else Renamed(m, ns, nn)
  {
    RenameInjective(ns, nn);
  }

  /** One step of the walk over the table's keys */
  lemma RenamedStep(values: map<string, string>, todo: set<string>, key: string, ns: string, nn: string)
    requires key in todo && todo <= values.Keys
    ensures Renamed(values - (todo - {key}), ns, nn) ==
      if StartsWith(key, ns) then Renamed(values - todo, ns, nn)[nn + key[|ns|..] := values[key]]
      else Renamed(values - todo, ns, nn)
  {
    assert values - (todo - {key}) == (values - todo)[key := values[key]];
    RenamedAdd(values - todo, ns, nn, key, values[key]);
  }

  /** The renamed key, computed as the source does it, swaps the namespace prefix. */
  lemma RenamedKey(key: string, ns: string, nn: string)
    requires StartsWith(key, ns)
    ensures (if ns != nn then ReplaceFirst(key, ns, nn) else key) == nn + key[|ns|..]
  {
    if ns != nn {
      ReplaceFirstAtStart(key, ns, nn);
    } else {
      assert key == ns + key[|ns|..];
    }
  }

  /** When the namespace is kept, the subset is the store restricted to keys starting with ns. */
  lemma RenamedSame(values: map<string, string>, ns: string)
    ensures Renamed(values, ns, ns) == map k | k in values && StartsWith(k, ns) :: values[k]
  {
    assert forall k :: k in values && StartsWith(k, ns) ==> k == ns + k[|ns|..];
  }

  /** Renaming there and back gives the unrenamed subset. */
  lemma RenamedRoundTrip(values: map<string, string>, ns: string, nn: string)
    ensures Renamed(Renamed(values, ns, nn), nn, ns) == Renamed(values, ns, ns)
  {
    var there := Renamed(values, ns, nn);
    var back := Renamed(there, nn, ns);
    var same := Renamed(values, ns, ns);
    forall k ensures k in back <==> k in same {
      if k in same {
        assert StartsWith(k, ns) && k[|ns|..] == k[|ns|..];
        var j := ns + k[|ns|..];
        assert j in values && StartsWith(j, ns);
        assert nn + j[|ns|..] in there;
        assert (nn + j[|ns|..])[|nn|..] == k[|ns|..];
      }
      if k in back {
        assert StartsWith(k, ns);
      }
    }
  }
}
