/**
 * The merge pass: each file's text is read, its backslashes doubled, parsed
 * into properties, its keys qualified with the file's namespace, and the
 * result written over the store, file after file in the file-set order.
 */
module Merge {
  import opened Wrappers
  import opened Text
  import opened FileOrder
  import opened Namespaces

  /** One property as Properties.load yields it */
  datatype Prop = Prop(key: string, value: string)

  /** Files.readString: the text of a file, or None when reading fails */
  type Reader = Path -> Option<string>

  /**
   * Properties.load on a text: its properties in the order the key set of the
   * loaded table is iterated.
   */
  type Loader = string -> seq<Prop>

  /** The properties of one file; a file that cannot be read contributes none. */
  function FileProps(f: Path, read: Reader, load: Loader): seq<Prop>
  {
    match read(f)
    case None => []
    case Some(text) => load(DoubleBackslashes(text))
  }

  /** The table built from props with every key qualified; a later property wins a clash. */
  function QualifiedMap(ns: string, props: seq<Prop>): map<string, string>
  {
    if |props| == 0 then map[]
    else
      var last := props[|props| - 1];
      QualifiedMap(ns, props[..|props| - 1])[Qualify(ns, last.key) := last.value]
  }

  /** A qualified key holds the value of the last property that qualifies to it. */
  lemma {:induction false} QualifiedMapLastWins(ns: string, props: seq<Prop>, i: nat)
    requires i < |props|
    requires forall j :: i < j < |props| ==> Qualify(ns, props[j].key) != Qualify(ns, props[i].key)
    ensures Qualify(ns, props[i].key) in QualifiedMap(ns, props)
    ensures QualifiedMap(ns, props)[Qualify(ns, props[i].key)] == props[i].value
    decreases |props|
  {
    if i < |props| - 1 {
      QualifiedMapLastWins(ns, props[..|props| - 1], i);
    }
  }

  /** The qualified keys of props */
  function QualifiedKeys(ns: string, props: seq<Prop>): set<string>
  {
    set i | 0 <= i < |props| :: Qualify(ns, props[i].key)
  }

  /** Exactly the qualified keys of props are present. */
  lemma {:induction false} QualifiedMapKeys(ns: string, props: seq<Prop>)
    ensures QualifiedMap(ns, props).Keys == QualifiedKeys(ns, props)
    decreases |props|
  {
    if |props| > 0 {
      var n := |props| - 1;
      var init := props[..n];
      QualifiedMapKeys(ns, init);
      assert QualifiedKeys(ns, props) == QualifiedKeys(ns, init) + {Qualify(ns, props[n].key)} by {
        forall k | k in QualifiedKeys(ns, props)
          ensures k in QualifiedKeys(ns, init) + {Qualify(ns, props[n].key)}
        {
          var i :| 0 <= i < |props| && Qualify(ns, props[i].key) == k;
          if i < n { assert init[i] == props[i]; }
        }
        forall k | k in QualifiedKeys(ns, init)
          ensures k in QualifiedKeys(ns, props)
        {
          var i :| 0 <= i < |init| && Qualify(ns, init[i].key) == k;
          assert init[i] == props[i];
        }
      }
    }
  }

  /** Every key a file writes starts with the file's namespace. */
  lemma QualifiedMapInNamespace(ns: string, props: seq<Prop>, k: string)
    requires k in QualifiedMap(ns, props)
    ensures StartsWith(k, ns)
  {
    QualifiedMapKeys(ns, props);
    var i :| 0 <= i < |props| && Qualify(ns, props[i].key) == k;
    QualifyKeepsKey(ns, props[i].key);
  }

  /** QualifyKeys: the loop that qualifies the keys of one file's properties */
  method QualifyKeys(ns: string, props: seq<Prop>) returns (newProps: map<string, string>)
    ensures newProps == QualifiedMap(ns, props)
  {
    newProps := map[];
    var i := 0;
    while i < |props|
      invariant 0 <= i <= |props|
      invariant newProps == QualifiedMap(ns, props[..i])
    {
      var key := props[i].key;
      var newKey := if StartsWith(key, ns) then key else ns + "." + key;
      newProps := newProps[newKey := props[i].value];
      i := i + 1;
      assert props[..i][..i - 1] == props[..i - 1];
    }
    assert props[..i] == props;
  }

  /** What one file writes into the store */
  function FileValues(f: Path, read: Reader, load: Loader): map<string, string>
  {
    QualifiedMap(Namespace(FileName(f)), FileProps(f, read, load))
  }

  /** The store after the maps fv(f) of the files are laid over base, in file order */
  function MergeWith(base: map<string, string>, files: seq<Path>, fv: Path -> map<string, string>): map<string, string>
  {
    if |files| == 0 then base
    else MergeWith(base, files[..|files| - 1], fv) + fv(files[|files| - 1])
  }

  /** The store after the files are merged, in order, over base */
  function Merged(base: map<string, string>, files: seq<Path>, read: Reader, load: Loader): map<string, string>
  {
    MergeWith(base, files, f => FileValues(f, read, load))
  }

  lemma MergeWithStep(base: map<string, string>, files: seq<Path>, fv: Path -> map<string, string>, i: nat)
    requires i < |files|
    ensures MergeWith(base, files[..i + 1], fv) == MergeWith(base, files[..i], fv) + fv(files[i])
  {
    assert files[..i + 1][..i] == files[..i];
  }

  /** Merging one more file lays its values over the merge of the files before it. */
  lemma MergedStep(base: map<string, string>, files: seq<Path>, read: Reader, load: Loader, i: nat)
    requires i < |files|
    ensures Merged(base, files[..i + 1], read, load) == Merged(base, files[..i], read, load) + FileValues(files[i], read, load)
  {
    MergeWithStep(base, files, f => FileValues(f, read, load), i);
  }

  lemma {:induction false} MergeWithLastWins(base: map<string, string>, files: seq<Path>, fv: Path -> map<string, string>,
                                             i: nat, k: string)
    requires i < |files|
    requires k in fv(files[i])
    requires forall j :: i < j < |files| ==> k !in fv(files[j])
    ensures k in MergeWith(base, files, fv)
    ensures MergeWith(base, files, fv)[k] == fv(files[i])[k]
    decreases |files|
  {
    if i < |files| - 1 {
      var init := files[..|files| - 1];
      assert forall j :: i < j < |init| ==> init[j] == files[j];
      MergeWithLastWins(base, init, fv, i, k);
    }
  }

  /** A key holds the value from the last file that defines it. */
  lemma MergedLastWins(base: map<string, string>, files: seq<Path>, read: Reader, load: Loader, i: nat, k: string)
    requires i < |files|
    requires k in FileValues(files[i], read, load)
    requires forall j :: i < j < |files| ==> k !in FileValues(files[j], read, load)
    ensures k in Merged(base, files, read, load)
    ensures Merged(base, files, read, load)[k] == FileValues(files[i], read, load)[k]
  {
    MergeWithLastWins(base, files, f => FileValues(f, read, load), i, k);
  }

  lemma {:induction false} MergeWithUntouched(base: map<string, string>, files: seq<Path>, fv: Path -> map<string, string>,
                                              k: string)
    requires forall j :: 0 <= j < |files| ==> k !in fv(files[j])
    ensures k in MergeWith(base, files, fv) <==> k in base
    ensures k in base ==> MergeWith(base, files, fv)[k] == base[k]
    decreases |files|
  {
    if |files| > 0 {
      var init := files[..|files| - 1];
      assert forall j :: 0 <= j < |init| ==> init[j] == files[j];
      MergeWithUntouched(base, init, fv, k);
    }
  }

  /** A key no file defines keeps the value it had, and stays absent if it was absent. */
  lemma MergedUntouched(base: map<string, string>, files: seq<Path>, read: Reader, load: Loader, k: string)
    requires forall j :: 0 <= j < |files| ==> k !in FileValues(files[j], read, load)
    ensures k in Merged(base, files, read, load) <==> k in base
    ensures k in base ==> Merged(base, files, read, load)[k] == base[k]
  {
    MergeWithUntouched(base, files, f => FileValues(f, read, load), k);
  }

  /**
   * With the files in comparator order, a key holds the value of the file that
   * comes last in that order among those defining it.
   */
  lemma MergedPrecedence(base: map<string, string>, files: seq<Path>, read: Reader, load: Loader,
                         q: Path, k: string)
    requires Sorted(files)
    requires q in files && k in FileValues(q, read, load)
    requires forall f :: f in files && f != q && k in FileValues(f, read, load) ==> Before(f, q)
    ensures k in Merged(base, files, read, load)
    ensures Merged(base, files, read, load)[k] == FileValues(q, read, load)[k]
  {
    var i :| 0 <= i < |files| && files[i] == q;
    forall j | i < j < |files| ensures k !in FileValues(files[j], read, load) {
      assert Before(files[i], files[j]);
      if k in FileValues(files[j], read, load) {
        BeforeIrreflexive(q);
        BeforeAsymmetric(files[j], q);
      }
    }
    MergedLastWins(base, files, read, load, i, k);
  }

  /** The merged store is the same whatever order the files were added in. */
  lemma MergeIndependentOfAddOrder(base: map<string, string>, ps: seq<Path>, qs: seq<Path>,
                                   read: Reader, load: Loader)
    requires forall x :: x in ps <==> x in qs
    ensures Merged(base, InsertAll([], ps), read, load) == Merged(base, InsertAll([], qs), read, load)
  {
    InsertionOrderIrrelevant(ps, qs);
  }
}
