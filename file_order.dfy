/**
 * The order of the configuration file set: longer absolute paths first,
 * paths of equal length in reverse lexicographic order. The merge pass
 * visits files in this order, so it alone decides which file's value wins.
 */
module FileOrder {

  /** An absolute file path */
  type Path = string

  /**
   * Path.compareTo on Unix paths, up to its magnitude: it has the sign of the
   * difference of the first differing characters, or of the lengths when one
   * path is a prefix of the other. (Java compares the path's bytes; only the
   * sign is used by the file set.)
   */
  function CompareTo(a: Path, b: Path): int
  {
    if |a| == 0 || |b| == 0 then |a| - |b|
    else if a[0] != b[0] then a[0] as int - b[0] as int
    else CompareTo(a[1..], b[1..])
  }

  /** The comparator of the file set: negative when f1 is visited before f2. */
  function Compare(f1: Path, f2: Path): int
  {
    var lenDif := |f2| - |f1|;
    if lenDif != 0 then lenDif else CompareTo(f2, f1)
  }

  /** f1 is visited before f2 in the merge pass */
  predicate Before(f1: Path, f2: Path)
  {
    Compare(f1, f2) < 0
  }

  lemma {:induction false} CompareToAntisymmetric(a: Path, b: Path)
    ensures CompareTo(a, b) == -CompareTo(b, a)
  {
    if |a| > 0 && |b| > 0 && a[0] == b[0] {
      CompareToAntisymmetric(a[1..], b[1..]);
    }
  }

  lemma {:induction false} CompareToZero(a: Path, b: Path)
    ensures CompareTo(a, b) == 0 <==> a == b
  {
    if |a| > 0 && |b| > 0 && a[0] == b[0] {
      CompareToZero(a[1..], b[1..]);
      assert a == [a[0]] + a[1..] && b == [b[0]] + b[1..];
    }
  }

  lemma {:induction false} CompareToTransitive(a: Path, b: Path, c: Path)
    requires CompareTo(a, b) < 0 && CompareTo(b, c) < 0
    ensures CompareTo(a, c) < 0
  {
    if |a| > 0 && |b| > 0 && |c| > 0 && a[0] == b[0] && b[0] == c[0] {
      CompareToTransitive(a[1..], b[1..], c[1..]);
    }
  }

  /** The comparator ranks by descending length, then by descending Path.compareTo. */
  lemma BeforeMeaning(f1: Path, f2: Path)
    ensures Before(f1, f2) <==> |f1| > |f2| || (|f1| == |f2| && CompareTo(f1, f2) > 0)
  {
    CompareToAntisymmetric(f1, f2);
  }

  /** Only identical paths compare equal, so re-adding a path never duplicates it. */
  lemma CompareZeroIffSame(f1: Path, f2: Path)
    ensures Compare(f1, f2) == 0 <==> f1 == f2
  {
    CompareToZero(f2, f1);
  }

  lemma CompareAntisymmetric(f1: Path, f2: Path)
    ensures Compare(f1, f2) == -Compare(f2, f1)
  {
    CompareToAntisymmetric(f1, f2);
  }

  lemma BeforeIrreflexive(f: Path)
    ensures !Before(f, f)
  {
    CompareZeroIffSame(f, f);
  }

  lemma BeforeAsymmetric(f1: Path, f2: Path)
    requires Before(f1, f2)
    ensures !Before(f2, f1)
  {
    CompareAntisymmetric(f1, f2);
  }

  lemma BeforeTransitive(f1: Path, f2: Path, f3: Path)
    requires Before(f1, f2) && Before(f2, f3)
    ensures Before(f1, f3)
  {
    if |f1| == |f2| == |f3| {
      CompareToTransitive(f3, f2, f1);
    }
  }

  /** Any two distinct paths are ordered one way or the other. */
  lemma BeforeTotal(f1: Path, f2: Path)
    requires f1 != f2
    ensures Before(f1, f2) || Before(f2, f1)
  {
    CompareZeroIffSame(f1, f2);
    CompareAntisymmetric(f1, f2);
  }

  /** The contents of the file set, in iteration order */
  predicate Sorted(s: seq<Path>)
  {
    forall i, j :: 0 <= i < j < |s| ==> Before(s[i], s[j])
  }

  /** TreeSet.add: p placed at its rank, or nothing changed when p is present */
  function Insert(s: seq<Path>, p: Path): (r: seq<Path>)
    requires Sorted(s)
    ensures Sorted(r)
    ensures forall x :: x in r <==> x in s || x == p
    decreases |s|
  {
    if |s| == 0 then [p]
    else if s[0] == p then s
    else if Before(p, s[0]) then
      assert forall j :: 0 < j < |s| ==> Before(p, s[j]) by {
        forall j | 0 < j < |s| ensures Before(p, s[j]) { BeforeTransitive(p, s[0], s[j]); }
      }
      [p] + s
    else
      BeforeTotal(p, s[0]);
      var rest := Insert(s[1..], p);
      assert forall x :: x in rest ==> Before(s[0], x) by {
        forall x | x in rest ensures Before(s[0], x) {
          if x != p { var j :| 0 <= j < |s[1..]| && s[1..][j] == x; assert s[j + 1] == x; }
        }
      }
      assert s == [s[0]] + s[1..];
      [s[0]] + rest
  }

  /** Every path of ps added in turn, as the directory listing is walked */
  function InsertAll(s: seq<Path>, ps: seq<Path>): (r: seq<Path>)
    requires Sorted(s)
    ensures Sorted(r)
    ensures forall x :: x in r <==> x in s || x in ps
  {
    if |ps| == 0 then s
    else
      var r := Insert(InsertAll(s, ps[..|ps| - 1]), ps[|ps| - 1]);
      assert forall x :: x in ps <==> x in ps[..|ps| - 1] || x == ps[|ps| - 1] by {
        assert ps == ps[..|ps| - 1] + [ps[|ps| - 1]];
      }
      r
  }

  lemma SameMembersNonEmpty(a: seq<Path>, b: seq<Path>)
    requires forall x :: x in a <==> x in b
    ensures |b| > 0 ==> |a| > 0
  {
    if |b| > 0 {
      assert b[0] in b;
    }
  }

  /** A sorted sequence is determined by its elements. */
  lemma {:induction false} SortedUnique(a: seq<Path>, b: seq<Path>)
    requires Sorted(a) && Sorted(b)
    requires forall x :: x in a <==> x in b
    ensures a == b
  {
    if |a| == 0 || |b| == 0 {
      SameMembersNonEmpty(a, b);
      SameMembersNonEmpty(b, a);
    } else {
      if a[0] != b[0] {
        assert a[0] in b;
        var j :| 0 <= j < |b| && b[j] == a[0];
        assert b[0] in a;
        var i :| 0 <= i < |a| && a[i] == b[0];
        assert Before(b[0], a[0]);
        assert Before(a[0], b[0]);
        BeforeAsymmetric(a[0], b[0]);
        assert false;
      }
      forall x ensures x in a[1..] <==> x in b[1..] {
        if x in a[1..] {
          var i :| 0 <= i < |a[1..]| && a[1..][i] == x;
          assert Before(a[0], a[i + 1]);
          BeforeIrreflexive(x);
          assert x in b;
          var j :| 0 <= j < |b| && b[j] == x;
          assert j != 0;
          assert b[1..][j - 1] == x;
        }
        if x in b[1..] {
          var j :| 0 <= j < |b[1..]| && b[1..][j] == x;
          assert Before(b[0], b[j + 1]);
          BeforeIrreflexive(x);
          assert x in a;
          var i :| 0 <= i < |a| && a[i] == x;
          assert i != 0;
          assert a[1..][i - 1] == x;
        }
      }
      SortedUnique(a[1..], b[1..]);
      assert a == [a[0]] + a[1..] && b == [b[0]] + b[1..];
    }
  }

  /** The order in which paths are added does not matter, only which paths are added. */
  lemma InsertionOrderIrrelevant(ps: seq<Path>, qs: seq<Path>)
    requires forall x :: x in ps <==> x in qs
    ensures InsertAll([], ps) == InsertAll([], qs)
  {
    SortedUnique(InsertAll([], ps), InsertAll([], qs));
  }

  lemma {:induction false} InsertAllAppend(s: seq<Path>, ps: seq<Path>, qs: seq<Path>)
    requires Sorted(s)
    ensures InsertAll(s, ps + qs) == InsertAll(InsertAll(s, ps), qs)
    decreases |qs|
  {
    if |qs| > 0 {
      assert (ps + qs)[..|ps + qs| - 1] == ps + qs[..|qs| - 1];
      InsertAllAppend(s, ps, qs[..|qs| - 1]);
    } else {
      assert ps + qs == ps;
    }
  }

  /** The shipped defaults file has the longer path, so it is visited first and loses. */
  lemma DefaultsVisitedBeforeEtc()
    ensures Before("/usr/share/rhn/config-defaults/rhn.conf", "/etc/rhn/rhn.conf")
  {
  }

  /**
   * Precedence follows path length, not the order in which search paths were
   * added: a configuration directory whose path is longer than the defaults
   * directory has its rhn.conf visited first, so the defaults win over it.
   */
  lemma LongOverrideDirVisitedFirst()
    ensures Before("/opt/site/configuration/override/rhn.conf", "/usr/share/rhn/config-defaults/rhn.conf")
  {
  }
}
