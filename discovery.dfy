/**
 * The files a search path contributes. The filesystem is given as a value:
 * what the location is, and what a directory listing returned.
 */
module Discovery {
  import opened Wrappers
  import opened Text
  import opened FileOrder
  import opened Namespaces

  /** One child of a listed directory */
  datatype DirEntry = DirEntry(path: Path, regular: bool, readable: bool)

  /** What a search path names */
  datatype Location =
    | Directory(dirReadable: bool, listing: Option<seq<DirEntry>>)  // None: listing failed with an IOException
    | RegularFile(filePath: Path, fileReadable: bool)
    | Inaccessible                                                    // missing, or some other kind of file

  /** The "glob:*.conf" matcher applied to a file name */
  predicate MatchesConfGlob(name: string)
  {
    EndsWith(name, ".conf")
  }

  /** The directory children that are kept */
  predicate Eligible(e: DirEntry)
  {
    e.regular && e.readable && MatchesConfGlob(FileName(e.path))
  }

  function EligiblePaths(entries: seq<DirEntry>): (r: seq<Path>)
    ensures forall p :: p in r <==> exists e :: e in entries && Eligible(e) && e.path == p
  {
    if |entries| == 0 then []
    else
      var rest := EligiblePaths(entries[1..]);
      assert forall e :: e in entries <==> e == entries[0] || e in entries[1..];
      (if Eligible(entries[0]) then [entries[0].path] else []) + rest
  }

  /**
   * getFiles: a readable directory contributes its regular, readable "*.conf"
   * children (nothing if listing fails); a regular readable file contributes
   * itself whatever its name; anything else contributes nothing.
   */
  function Collect(loc: Location): (r: seq<Path>)
    ensures loc.Directory? && loc.dirReadable && loc.listing.Some? ==>
              forall p :: p in r <==> exists e :: e in loc.listing.value && Eligible(e) && e.path == p
    ensures loc.RegularFile? && loc.fileReadable ==> r == [loc.filePath]
    ensures loc.Directory? && (!loc.dirReadable || loc.listing.None?) ==> r == []
    ensures loc.RegularFile? && !loc.fileReadable ==> r == []
    ensures loc.Inaccessible? ==> r == []
  {
    match loc
    case Directory(readable, listing) =>
      if readable && listing.Some? then EligiblePaths(listing.value) else []
    case RegularFile(path, readable) =>
      if readable then [path] else []
    case Inaccessible => []
  }

  /** The files of all search paths, path by path */
  function CollectAll(locs: seq<Location>): (r: seq<Path>)
    ensures forall p :: p in r <==> exists i :: 0 <= i < |locs| && p in Collect(locs[i])
  {
    if |locs| == 0 then []
    else
      var r := CollectAll(locs[..|locs| - 1]) + Collect(locs[|locs| - 1]);
      assert forall i :: 0 <= i < |locs| - 1 ==> locs[..|locs| - 1][i] == locs[i];
      r
  }
}
