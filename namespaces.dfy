/**
 * Namespaces derived from configuration file names, and the qualification
 * of the keys read from a file with its namespace.
 */
module Namespaces {
  import opened Text

  /** Path.getFileName on an absolute path: the text after the last '/' */
  function FileName(path: string): (name: string)
    ensures '/' !in name
    ensures EndsWith(path, name)
  {
    path[LastIndexOf(path, '/') + 1..]
  }

  /** The file name is the whole last component: the whole path, or preceded by a '/'. */
  lemma FileNameIsLastComponent(path: string)
    ensures |FileName(path)| == |path| || path[|path| - |FileName(path)| - 1] == '/'
  {
  }

  /**
   * makeNamespace: a name beginning with "rhn." is the base file and has the
   * empty namespace; otherwise the first "rhn_" is removed, the extension
   * (from the last '.') is dropped, and every '_' becomes '.'.
   */
  function Namespace(fileName: string): (ns: string)
    ensures '_' !in ns
    ensures |ns| <= |fileName|
  {
    if StartsWith(fileName, "rhn.") then ""
    else
      var stripped := ReplaceFirst(fileName, "rhn_", "");
      var dot := LastIndexOf(stripped, '.');
      var base := if dot != -1 then stripped[..dot] else stripped;
      ReplaceChar(base, '_', '.')
  }

  /** Any "rhn.*" file is the base file. */
  lemma BaseFileNamespace(rest: string)
    ensures Namespace("rhn." + rest) == ""
  {
    assert ("rhn." + rest)[..4] == "rhn.";
  }

  /**
   * "rhn_<x>.conf" has namespace x with '_' read as '.'; only the '.' before
   * "conf" is dropped, so a '.' inside x stays.
   */
  lemma ConventionalNamespace(x: string)
    ensures Namespace("rhn_" + x + ".conf") == ReplaceChar(x, '_', '.')
  {
    var name := "rhn_" + x + ".conf";
    assert name[3] == '_';
    assert !StartsWith(name, "rhn.");
    ReplaceFirstAtStart(name, "rhn_", "");
    var stripped := ReplaceFirst(name, "rhn_", "");
    assert stripped == x + ".conf";
    var dot := LastIndexOf(stripped, '.');
    assert stripped[|x|] == '.';
    assert forall j :: |x| < j < |stripped| ==> stripped[j] != '.';
    assert dot == |x|;
    assert stripped[..dot] == x;
  }

  /** "rhn_<a>_<b>.conf" has namespace "<a>.<b>", as rhn_taskomatic_daemon.conf has taskomatic.daemon. */
  lemma TwoPartNamespace(a: string, b: string)
    requires '_' !in a && '_' !in b
    ensures Namespace("rhn_" + a + "_" + b + ".conf") == a + "." + b
  {
    var x := a + "_" + b;
    assert "rhn_" + a + "_" + b + ".conf" == "rhn_" + x + ".conf";
    ConventionalNamespace(x);
    UnderscoresBecomeDots(a, b);
  }

  lemma UnderscoresBecomeDots(a: string, b: string)
    requires '_' !in a && '_' !in b
    ensures ReplaceChar(a + "_" + b, '_', '.') == a + "." + b
  {
    ReplaceCharAppend(a + "_", b, '_', '.');
    ReplaceCharAppend(a, "_", '_', '.');
    ReplaceCharAbsent(a, '_', '.');
    ReplaceCharAbsent(b, '_', '.');
  }

  lemma ReplaceCharAppend(a: string, b: string, from: char, to: char)
    ensures ReplaceChar(a + b, from, to) == ReplaceChar(a, from, to) + ReplaceChar(b, from, to)
  {
  }

  lemma ReplaceCharAbsent(s: string, from: char, to: char)
    requires from !in s
    ensures ReplaceChar(s, from, to) == s
  {
  }

  /**
   * The key a parsed property is stored under: unchanged when it already
   * starts with the namespace (always so for the empty namespace), otherwise
   * prefixed with the namespace and a '.'.
   */
  function Qualify(ns: string, key: string): string
  {
    if StartsWith(key, ns) then key else ns + "." + key
  }

  /** The stored key starts with the namespace and ends with the key as written in the file. */
  lemma QualifyKeepsKey(ns: string, key: string)
    ensures StartsWith(Qualify(ns, key), ns)
    ensures EndsWith(Qualify(ns, key), key)
    ensures Qualify(ns, key) == key || Qualify(ns, key) == ns + "." + key
  {
  }

  /** Qualifying a qualified key again changes nothing. */
  lemma QualifyIdempotent(ns: string, key: string)
    ensures Qualify(ns, Qualify(ns, key)) == Qualify(ns, key)
  {
  }

  /** The base file's keys are stored as written. */
  lemma QualifyEmptyNamespace(key: string)
    ensures Qualify("", key) == key
  {
  }
}
