# Configuration store (`Config`) — a Dafny model

This project models `com.redhat.rhn.common.conf.Config`, the configuration
store of the Java web application. A `Config` is built from a list of search
paths. Each path is either a directory, whose readable `*.conf` files are
taken, or a single readable file. The files are kept in a set ordered by a
fixed comparator: longer absolute paths come first, and paths of equal
length are ordered by reverse lexicographic order. `parseFiles` then reads
the files in that order. It doubles every backslash and loads the text as a
properties file. Every key is qualified with the namespace that the file
name gives (`rhn.conf` gives none, `rhn_taskomatic_daemon.conf` gives
`taskomatic.daemon`). The result is merged into one table, so a later file
overrides an earlier one.

Reads go through `getString`. It looks up the last dotted segment of the
name first. When that is absent it tries the full name, or, for an undotted
name, the `web.` and `server.` prefixes in that order. An empty value reads
as absent, and any other value comes back trimmed. The boolean, number and
list accessors, `setString`, `setBoolean`, `remove`, `containsKey` and the
namespace-subset queries sit on top of this.

Modules:

- `Wrappers`: `Option` and map lookup, standing in for Java's `null` results.
- `Text`: the Java string operations the class relies on (`startsWith`,
  `lastIndexOf`, `replaceFirst` with a literal pattern, `replace`, `trim`,
  `split`, `equalsIgnoreCase`, backslash doubling). Each has lemmas tying it
  to a partner: split against join, trim against the characters it may drop,
  and doubling against its inverse.
- `FileOrder`: the `TreeSet` comparator, proved to be a strict total order. The
  ordered file set is a sorted sequence. Insertion keeps it sorted, and the
  set does not depend on the order of insertion.
- `Namespaces`: `makeNamespace` and the key qualification of `parseFiles`.
- `Discovery`: `getFiles`. The filesystem is given as a value, namely what a
  path is and what listing its directory returned.
- `Merge`: `parseFiles` as pure functions (`QualifiedMap`, `Merged`),
  the key-qualifying loop as a method, and the precedence lemmas.
- `Lookup`: `getString` as a function (`Resolve`), the boolean and list
  views, and the namespace subset (`Renamed`).
- `Configuration`: the class `Config`. Its fields are `values` (the merged
  table) and `files` (the ordered file set), and its methods are proved
  against the functions above.

Reading a file and parsing properties text are not modelled. They are
parameters: a `Reader` from a path to the file's text, or `None` when reading
throws an `IOException`, and a `Loader` from text to the key/value pairs in
the order the loaded table enumerates its keys.

The class documentation promises only that `/etc/rhn/rhn.conf` overrides the
shipped defaults in `/usr/share/rhn/config-defaults/rhn.conf`, and that holds
(`FileOrder.DefaultsVisitedBeforeEtc`). A reader might expect a path passed
later to the constructor to override one passed earlier, but the code does not
do that. Precedence comes only from the comparator, as its comment says: path
length first, then reverse lexicographic order. Because the longest path is
merged first, a file in a long override directory loses to a file on a shorter
path (`FileOrder.LongOverrideDirVisitedFirst`).

## Model

| member | source | states |
|---|---|---|
| FileOrder.CompareZeroIffSame | java/code/src/com/redhat/rhn/common/conf/Config.java:89-101 | the comparator returns 0 exactly for equal paths, so the set never merges two different files |
| FileOrder.CompareAntisymmetric | java/code/src/com/redhat/rhn/common/conf/Config.java:89-101 | compare(f1, f2) is the negation of compare(f2, f1) |
| FileOrder.BeforeMeaning | java/code/src/com/redhat/rhn/common/conf/Config.java:95-100 | f1 precedes f2 exactly when f1 is longer, or equally long and lexicographically greater |
| FileOrder.BeforeIrreflexive | java/code/src/com/redhat/rhn/common/conf/Config.java:89-101 | no path precedes itself |
| FileOrder.BeforeAsymmetric | java/code/src/com/redhat/rhn/common/conf/Config.java:89-101 | two paths are never each before the other |
| FileOrder.BeforeTransitive | java/code/src/com/redhat/rhn/common/conf/Config.java:89-101 | the order is transitive |
| FileOrder.BeforeTotal | java/code/src/com/redhat/rhn/common/conf/Config.java:89-101 | any two distinct paths are ordered one way or the other |
| FileOrder.CompareToAntisymmetric | java/code/src/com/redhat/rhn/common/conf/Config.java:100 | the lexicographic path comparison is antisymmetric |
| FileOrder.CompareToZero | java/code/src/com/redhat/rhn/common/conf/Config.java:100 | the lexicographic path comparison is 0 exactly for equal paths |
| FileOrder.CompareToTransitive | java/code/src/com/redhat/rhn/common/conf/Config.java:100 | the lexicographic path comparison is transitive |
| FileOrder.Insert | java/code/src/com/redhat/rhn/common/conf/Config.java:492 | adding a path to the ordered set keeps it sorted, and its members are the old ones plus the path |
| FileOrder.InsertAll | java/code/src/com/redhat/rhn/common/conf/Config.java:489-492 | adding a sequence of paths keeps the set sorted, and its members are the old ones plus the added ones |
| FileOrder.SortedUnique | java/code/src/com/redhat/rhn/common/conf/Config.java:89-101 | two sorted file sequences with the same members are equal |
| FileOrder.InsertionOrderIrrelevant | java/code/src/com/redhat/rhn/common/conf/Config.java:125-126 | the file set depends only on which paths were added, not on their order |
| FileOrder.InsertAllAppend | java/code/src/com/redhat/rhn/common/conf/Config.java:126 | adding two batches of paths one after the other is adding their concatenation |
| FileOrder.DefaultsVisitedBeforeEtc | java/code/src/com/redhat/rhn/common/conf/Config.java:114-118 | the packaged defaults file is merged before /etc/rhn/rhn.conf, so the latter overrides it |
| FileOrder.LongOverrideDirVisitedFirst | java/code/src/com/redhat/rhn/common/conf/Config.java:95-98 | a file in a longer override directory is merged before the defaults file and is overridden by it |
| Discovery.EligiblePaths | java/code/src/com/redhat/rhn/common/conf/Config.java:489-491 | a listed child is kept exactly when it is a regular, readable file whose name ends in ".conf" |
| Discovery.Collect | java/code/src/com/redhat/rhn/common/conf/Config.java:484-504 | a readable directory yields its eligible children, or nothing when listing fails; a readable regular file yields itself whatever its name; anything else yields nothing |
| Discovery.CollectAll | java/code/src/com/redhat/rhn/common/conf/Config.java:126 | a path is collected exactly when some search path yields it |
| Namespaces.FileName | java/code/src/com/redhat/rhn/common/conf/Config.java:507 | the file name has no '/' and is a suffix of the path |
| Namespaces.FileNameIsLastComponent | java/code/src/com/redhat/rhn/common/conf/Config.java:507 | the file name is the whole last component: it is the whole path or is preceded by a '/' |
| Namespaces.Namespace | java/code/src/com/redhat/rhn/common/conf/Config.java:506-523 | a namespace never contains '_' and is no longer than the file name |
| Namespaces.BaseFileNamespace | java/code/src/com/redhat/rhn/common/conf/Config.java:512-514 | any file name starting with "rhn." has the empty namespace |
| Namespaces.ConventionalNamespace | java/code/src/com/redhat/rhn/common/conf/Config.java:516-521 | for every x, "rhn_x.conf" has the namespace x with every '_' turned into '.'; only the '.' before "conf" is dropped |
| Namespaces.TwoPartNamespace | java/code/src/com/redhat/rhn/common/conf/Config.java:516-521 | "rhn_a_b.conf" has the namespace "a.b" for any a and b without '_' |
| Namespaces.QualifyKeepsKey | java/code/src/com/redhat/rhn/common/conf/Config.java:547 | a qualified key starts with the namespace, ends with the key as written, and is either that key or "ns." + key |
| Namespaces.QualifyIdempotent | java/code/src/com/redhat/rhn/common/conf/Config.java:547 | qualifying an already qualified key changes nothing |
| Namespaces.QualifyEmptyNamespace | java/code/src/com/redhat/rhn/common/conf/Config.java:547 | keys of a file with the empty namespace are stored as written |
| Merge.QualifyKeys | java/code/src/com/redhat/rhn/common/conf/Config.java:544-551 | the key-qualifying loop builds exactly the file's qualified table |
| Merge.QualifiedMapKeys | java/code/src/com/redhat/rhn/common/conf/Config.java:544-551 | the keys of a file's qualified table are exactly the qualified forms of the keys it loads |
| Merge.QualifiedMapLastWins | java/code/src/com/redhat/rhn/common/conf/Config.java:550 | when two loaded keys qualify to the same key, the later one's value is kept |
| Merge.QualifiedMapInNamespace | java/code/src/com/redhat/rhn/common/conf/Config.java:547 | every key a file contributes starts with the file's namespace |
| Merge.MergedStep | java/code/src/com/redhat/rhn/common/conf/Config.java:529-552 | merging one more file lays its qualified values over the merge of the files before it |
| Merge.MergedLastWins | java/code/src/com/redhat/rhn/common/conf/Config.java:529-552 | a key takes its value from the last file that defines it |
| Merge.MergedUntouched | java/code/src/com/redhat/rhn/common/conf/Config.java:552 | a key no file defines keeps its previous presence and value |
| Merge.MergedPrecedence | java/code/src/com/redhat/rhn/common/conf/Config.java:89-101 | when every other file defining a key precedes q in the comparator's order, the key takes q's value |
| Merge.MergeIndependentOfAddOrder | java/code/src/com/redhat/rhn/common/conf/Config.java:125-127 | the merged table depends only on which files were found, not on the order of the search paths |
| Text.ReplaceFirstAtStart | java/code/src/com/redhat/rhn/common/conf/Config.java:586 | replacing the first occurrence of a prefix of s swaps just that prefix |
| Text.IndexOf | java/code/src/com/redhat/rhn/common/conf/Config.java:516 | the index returned is the first occurrence of the pattern, or -1 when there is none |
| Text.LastIndexOf | java/code/src/com/redhat/rhn/common/conf/Config.java:211 | the index returned holds the character and no later index does, or -1 when it does not occur |
| Text.ReplaceChar | java/code/src/com/redhat/rhn/common/conf/Config.java:521 | every occurrence of the character is replaced and every other character is kept |
| Text.Trim | java/code/src/com/redhat/rhn/common/conf/Config.java:243 | the trimmed value begins and ends with a character above U+0020, or is empty |
| Text.TrimIsSlice | java/code/src/com/redhat/rhn/common/conf/Config.java:243 | trimming removes only characters up to U+0020, and only from the two ends |
| Text.TrimEmptyIff | java/code/src/com/redhat/rhn/common/conf/Config.java:239-243 | a value trims to "" exactly when all its characters are up to U+0020 |
| Text.JoinSplitAll | java/code/src/com/redhat/rhn/common/conf/Config.java:405 | joining the comma pieces gives back the value |
| Text.SplitAllJoin | java/code/src/com/redhat/rhn/common/conf/Config.java:405 | splitting a join of comma-free pieces gives back the pieces |
| Text.DropTrailingEmpty | java/code/src/com/redhat/rhn/common/conf/Config.java:405 | the result is a prefix of the pieces; only empty pieces are dropped, and the last one kept is not empty |
| Text.EqualsIgnoreCaseLower | java/code/src/com/redhat/rhn/common/conf/Config.java:455 | two strings are equal ignoring case exactly when their lower-case forms are equal |
| Text.UndoubleDouble | java/code/src/com/redhat/rhn/common/conf/Config.java:534 | doubling backslashes is undone by reading each pair as one |
| Text.DoubleBackslashesOnlyAddsBackslashes | java/code/src/com/redhat/rhn/common/conf/Config.java:534 | doubling adds one character per backslash and changes nothing else |
| Lookup.SplitName | java/code/src/com/redhat/rhn/common/conf/Config.java:211-217 | the name is "ns.property" with a non-empty ns and a property without '.', or the ns is empty and the property is the whole name |
| Lookup.DottedSplit | java/code/src/com/redhat/rhn/common/conf/Config.java:211-217 | "ns.p" with a non-empty ns and no '.' in p splits into ns and p |
| Lookup.NoDotSplit | java/code/src/com/redhat/rhn/common/conf/Config.java:211-217 | a name without '.' has no namespace |
| Lookup.WithPrefixes | java/code/src/com/redhat/rhn/common/conf/Config.java:229-230 | each default prefix yields "prefix.property", in the prefix order |
| Lookup.FirstHit | java/code/src/com/redhat/rhn/common/conf/Config.java:222-236 | the result is absent exactly when no candidate key is stored; otherwise it is the value of the first stored candidate |
| Lookup.ResolveUndotted | java/code/src/com/redhat/rhn/common/conf/Config.java:205-244 | an undotted name is looked up as written, then as "web.name", then as "server.name" |
| Lookup.ResolveDotted | java/code/src/com/redhat/rhn/common/conf/Config.java:205-244 | "ns.p" is looked up as p, then as "ns.p"; the default prefixes are never tried |
| Lookup.ResolveOr | java/code/src/com/redhat/rhn/common/conf/Config.java:182-189 | the default is returned exactly when getString finds nothing |
| Lookup.SetThenResolve | java/code/src/com/redhat/rhn/common/conf/Config.java:415-417 | after setString(k, v) for an undotted k, getString(k) gives the trimmed v, or nothing when v is empty |
| Lookup.RemoveThenResolve | java/code/src/com/redhat/rhn/common/conf/Config.java:423-425 | after remove(k), getString(k) falls back to "web.k" and then "server.k" |
| Lookup.WhitespaceValueIsEmptyNotAbsent | java/code/src/com/redhat/rhn/common/conf/Config.java:239-243 | a stored value made only of whitespace reads as "", not as absent |
| Lookup.BareSegmentShadowsQualified | java/code/src/com/redhat/rhn/common/conf/Config.java:222-227 | a stored bare property p answers "ns.p" even when "ns.p" is stored too |
| Lookup.ContainsKeyHasNoFallback | java/code/src/com/redhat/rhn/common/conf/Config.java:205-236 | for an undotted p absent from the table, getString(p) returns the trimmed value stored under "web." + p |
| Configuration.ContainsKeyHasNoFallback | java/code/src/com/redhat/rhn/common/conf/Config.java:195-197 | for an undotted p that containsKey reports absent, getString(p) still returns the trimmed value stored under "web." + p: containsKey does no prefix fallback |
| Lookup.MatchTrueValues | java/code/src/com/redhat/rhn/common/conf/Config.java:454-461 | the loop answers true exactly when the value equals one of the true values ignoring case |
| Lookup.IsTrueLower | java/code/src/com/redhat/rhn/common/conf/Config.java:78 | a value is true exactly when its lower-case form is one of "1", "y", "true", "yes", "on" |
| Lookup.TrueInputs | java/code/src/com/redhat/rhn/common/conf/Config.java:78 | "1", "y", "TRUE", "Yes" and "On" read as true |
| Lookup.FalseInputs | java/code/src/com/redhat/rhn/common/conf/Config.java:78 | "0", "false", "no", "maybe" and "" read as false |
| Lookup.BooleanText | java/code/src/com/redhat/rhn/common/conf/Config.java:469-482 | setBoolean stores "1" or "0" and nothing else |
| Lookup.SetBooleanThenGet | java/code/src/com/redhat/rhn/common/conf/Config.java:444-482 | setBoolean(k, b) then getBoolean(k, d) gives b's truth, for an undotted k |
| Lookup.TrimOfDigit | java/code/src/com/redhat/rhn/common/conf/Config.java:243 | the stored "1" and "0" come back from trimming unchanged |
| Lookup.ListOf | java/code/src/com/redhat/rhn/common/conf/Config.java:380-387 | an absent value gives the empty list; a present one gives its comma split |
| Lookup.SplitPieces | java/code/src/com/redhat/rhn/common/conf/Config.java:405 | no list element contains ','; the elements are the comma pieces with the trailing empty ones dropped, and the pieces join back to the value |
| Lookup.ListOfThree | java/code/src/com/redhat/rhn/common/conf/Config.java:405 | "x,y,z" reads as the list x, y, z |
| Lookup.ListOfEmptyValue | java/code/src/com/redhat/rhn/common/conf/Config.java:405 | the value "" reads as a one-element list holding "" |
| Lookup.Renamed | java/code/src/com/redhat/rhn/common/conf/Config.java:579-594 | every stored key starting with ns appears with ns replaced by nn and the same value, and every key of the subset comes from such a stored key |
| Lookup.RenamedKey | java/code/src/com/redhat/rhn/common/conf/Config.java:585-587 | for a key starting with ns, the key computed by the source is nn followed by the rest of the key |
| Lookup.RenamedAdd | java/code/src/com/redhat/rhn/common/conf/Config.java:581-590 | adding one stored key adds at most its renamed key to the subset |
| Lookup.RenamedSame | java/code/src/com/redhat/rhn/common/conf/Config.java:565-567 | with the namespace kept, the subset is the table restricted to the keys starting with ns |
| Lookup.RenamedRoundTrip | java/code/src/com/redhat/rhn/common/conf/Config.java:579-594 | renaming from ns to nn and back gives the unrenamed subset |
| Configuration.Config.constructor | java/code/src/com/redhat/rhn/common/conf/Config.java:125-128 | the file set is the sorted set of every collected path, and the table is the merge of those files over an empty table |
| Configuration.Config.AddPath | java/code/src/com/redhat/rhn/common/conf/Config.java:134-136 | the file set stays sorted and gains exactly the files the path contributes |
| Configuration.Config.ParseFiles | java/code/src/com/redhat/rhn/common/conf/Config.java:528-554 | the new table is the old one with every file merged over it, in file-set order |
| Configuration.Config.GetString | java/code/src/com/redhat/rhn/common/conf/Config.java:205-244 | the Java-shaped lookup loop returns exactly what the lookup function resolves |
| Configuration.Config.GetStringOr | java/code/src/com/redhat/rhn/common/conf/Config.java:182-189 | returns the resolved value, or the default when it is absent |
| Configuration.Config.GetNumber | java/code/src/com/redhat/rhn/common/conf/Config.java:264-300 | the default when the value is absent, else the parse of the resolved value |
| Configuration.Config.GetStringArray | java/code/src/com/redhat/rhn/common/conf/Config.java:395-406 | absent when the value is absent, else the value's comma split |
| Configuration.Config.GetList | java/code/src/com/redhat/rhn/common/conf/Config.java:380-387 | the comma split of the value, or the empty list when it is absent |
| Configuration.Config.SetString | java/code/src/com/redhat/rhn/common/conf/Config.java:415-417 | stores the value and returns the previous one, or nothing when the key was absent |
| Configuration.Config.Remove | java/code/src/com/redhat/rhn/common/conf/Config.java:423-425 | the key is gone and every other entry is unchanged |
| Configuration.Config.GetBoolean | java/code/src/com/redhat/rhn/common/conf/Config.java:444-462 | the default when the value is absent, else whether the value is one of the true values ignoring case |
| Configuration.Config.SetBoolean | java/code/src/com/redhat/rhn/common/conf/Config.java:469-482 | stores "1" when b is one of the true values ignoring case and "0" otherwise |
| Configuration.Config.GetNamespacePropertiesRenamed | java/code/src/com/redhat/rhn/common/conf/Config.java:579-594 | the loop over the table builds exactly the renamed subset |
| Configuration.Config.GetNamespaceProperties | java/code/src/com/redhat/rhn/common/conf/Config.java:565-567 | the entries whose keys start with the namespace, unchanged |

## Left out

- Filesystem access (`Path.of`, `Files.isDirectory`, `Files.isReadable`, `Files.list`, `Files.readString`) is not modelled. A search path is a `Location` value, and file contents come from a `Reader` parameter.
- `Properties.load` is a `Loader` parameter. The properties-file syntax is not modelled, and neither is the order in which a `Properties` table enumerates its keys; the loader's sequence order stands for it. The loader always receives text with every backslash doubled (`Text.DoubleBackslashesOnlyAddsBackslashes`), so it never sees a `\u` escape or a line continuation; values keep their backslashes literally.
- `Integer.valueOf` and `Long.valueOf` are the `valueOf` parameter of `Configuration.Config.GetNumber`, with `None` for a `NumberFormatException`. The 32-bit and 64-bit ranges are the parser's concern.
- `getFloat` and `getDouble` are left out because they need floating point.
- The one-argument forms `getInt(s)` (default 0), `getBoolean(s)` (default false), `getInteger(s)` and `getLong(s)` (null when absent) are not separate members. They are `GetNumber` and `GetBoolean` with those defaults.
- The singleton `get()` and `clear()`, the no-argument constructor, `getDefaultConfigDir`, `getDefaultConfigFilePath` and the `rhn.config.dir` system property are left out because they are process-global state. The two paths that constructor adds appear in `FileOrder.DefaultsVisitedBeforeEtc`.
- Logging and log sanitising are left out because they do not affect the result.
- Synchronisation of `get` and `clear`, and concurrent use of a `Config`, are not modelled.
- `null` names and values are not modelled. `getString(null)` and `getStringArray(null)` return `null`; `setString` with a `null` throws.
- `FileOrder.CompareTo` orders paths by their characters and `FileOrder.Compare` by their character count. `Path.compareTo` and `toAbsolutePath` are not modelled: paths are given as absolute strings, and UTF-16 surrogate pairs and platform collation are not distinguished.
- `Configuration.Config.GetNamespacePropertiesRenamed`: `replaceFirst` takes a regular expression and a replacement template. The model treats both as literal text. This is the same whenever the namespace and the new namespace contain no regex or `$`/`\` metacharacters. (A '.' in the namespace still matches at the start, because the key begins with the namespace.)
- `Text.EqualsIgnoreCase` folds ASCII letters only. Java also folds some non-ASCII letters, such as the long s (U+017F), whose upper case is 'S'. So Java reads "yeſ" as true and the model does not.
- `Text.EqualsIgnoreCaseLower` inherits the same ASCII-only folding: Java's equality ignoring case is wider than equality of ASCII lower-case forms.
- `Lookup.IsTrueLower` inherits it too: Java reads "yeſ" as true, but its ASCII lower-case form is not one of the true values.
