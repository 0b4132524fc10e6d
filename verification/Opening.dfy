/** Opening a file: the walk along the components of a parsed path. */
module Opening {
  import opened Bits
  import opened CStrings
  import opened Directory
  import opened Fat16
  import opened Paths
  import opened PathParser
  import opened Status
  import opened Streamer

  /** What `fat16_get_directory_entry` comes to: an item, null, a read through a
      null pointer, or a read of a directory that was given back. */
  datatype Outcome = Found(item: FatItem) | Missing | ReadsNull | ReadsFreed

  // ----- The specification: successive lookups

  /** The listing of an item that is a directory and was loaded. */
  function ListingOf(item: Option<FatItem>): Option<seq<Item>> {
    if item.Some? && item.value.DirectoryItem? && item.value.directory.Listing?
    then Some(item.value.directory.items)
    else None
  }

  ghost function LookupIn(v: Volume, items: seq<Item>, name: Name): Option<FatItem>
    requires v.Valid()
  {
    var r := LastMatch(items, name);
    if r < 0 then None else Some(ItemOf(v.disk, v.header, items[r]))
  }

  /** The item after the first `k` components. */
  ghost function Lookup(v: Volume, root: seq<Item>, names: seq<Name>, k: nat): Option<FatItem>
    requires v.Valid() && 1 <= k <= |names|
  {
    if k == 1 then LookupIn(v, root, names[0])
    else
      var items := ListingOf(Lookup(v, root, names, k - 1));
      if items.None? then None else LookupIn(v, items.value, names[k - 1])
  }

  /** Component `k`, counted from 0, is missing from a directory that was
      reached and listed. */
  ghost predicate MissingAt(v: Volume, root: seq<Item>, names: seq<Name>, k: nat)
    requires v.Valid() && 1 <= k < |names|
  {
    ListingOf(Lookup(v, root, names, k)).Some? && Lookup(v, root, names, k + 1).None?
  }

  /** After `k` components the path goes on in a directory that could not be
      read. */
  ghost predicate DanglesAt(v: Volume, root: seq<Item>, names: seq<Name>, k: nat)
    requires v.Valid() && 1 <= k < |names|
  {
    Lookup(v, root, names, k) == Some(DirectoryItem(Dangling))
  }

  // ----- What the walk does

  ghost function WalkFrom(v: Volume, root: seq<Item>, names: seq<Name>, k: nat): Outcome
    requires v.Valid() && 1 <= k <= |names|
    decreases |names| - k
  {
    var current := Lookup(v, root, names, k);
    if k == |names| then (if current.None? then Missing else Found(current.value))
    else if current.None? then ReadsNull
    else if current.value.FileItem? then Missing
    else if !current.value.directory.Listing? then ReadsFreed
    else WalkFrom(v, root, names, k + 1)
  }

  /** The first component alone is checked for null. */
  ghost function Walk(v: Volume, root: seq<Item>, names: seq<Name>): Outcome
    requires v.Valid() && |names| > 0
  {
    if Lookup(v, root, names, 1).None? then Missing else WalkFrom(v, root, names, 1)
  }

  lemma LookupIsNoFile(v: Volume, root: seq<Item>, names: seq<Name>, k: nat)
    requires v.Valid() && 1 <= k <= |names| && Lookup(v, root, names, k).Some?
    requires Lookup(v, root, names, k).value.DirectoryItem?
    ensures !Lookup(v, root, names, k).value.directory.NoDirectory?
  {
  }

  /** What leads to an item was listed, so the walk gets there. */
  lemma {:induction false} WalkReaches(v: Volume, root: seq<Item>, names: seq<Name>, k: nat)
    requires v.Valid() && 1 <= k <= |names| && Lookup(v, root, names, k).Some?
    ensures Walk(v, root, names) == WalkFrom(v, root, names, k)
  {
    hide LookupIn;
    if k > 1 {
      assert ListingOf(Lookup(v, root, names, k - 1)).Some?;
      WalkReaches(v, root, names, k - 1);
    }
  }

  /** How the walk goes on after `k` components. */
  lemma {:induction false} WalkEnds(v: Volume, root: seq<Item>, names: seq<Name>, k: nat)
    requires v.Valid() && 1 <= k <= |names| && Lookup(v, root, names, k).Some?
    ensures var r := WalkFrom(v, root, names, k);
            && (r.Found? ==> Lookup(v, root, names, |names|) == Some(r.item))
            && (r.ReadsNull? ==> exists j: nat :: k <= j && j + 1 < |names| && MissingAt(v, root, names, j))
            && (r.ReadsFreed? ==> exists j: nat :: k <= j < |names| && DanglesAt(v, root, names, j))
    decreases |names| - k
  {
    hide LookupIn, Lookup;
    var current := Lookup(v, root, names, k).value;
    if k < |names| && current.DirectoryItem? {
      LookupIsNoFile(v, root, names, k);
      if current.directory.Listing? {
        if Lookup(v, root, names, k + 1).Some? {
          WalkEnds(v, root, names, k + 1);
        } else {
          assert MissingAt(v, root, names, k);
        }
      } else {
        assert DanglesAt(v, root, names, k);
      }
    }
  }

  /** Opening a path finds an item exactly when the successive lookups of its
      components do, and it is the same item. */
  lemma FoundIff(v: Volume, root: seq<Item>, names: seq<Name>, item: FatItem)
    requires v.Valid() && |names| > 0
    ensures Walk(v, root, names) == Found(item) <==> Lookup(v, root, names, |names|) == Some(item)
  {
    hide LookupIn, Lookup;
    if Lookup(v, root, names, |names|).Some? {
      WalkReaches(v, root, names, |names|);
    }
    if Lookup(v, root, names, 1).Some? {
      WalkEnds(v, root, names, 1);
    }
  }

  /** `e` is the entry of a listing that a component names: of those with that
      name, up to case, the last. */
  ghost predicate LastNamed(items: seq<Item>, name: Name, e: Item) {
    exists i: nat :: i < |items| && items[i] == e && OnlyFrom(items, name, i)
  }

  ghost predicate OnlyFrom(items: seq<Item>, name: Name, i: nat)
    requires i < |items|
  {
    && SameText(FullName(items[i]), Text(name))
    && forall j: nat | i < j < |items| :: !SameText(FullName(items[j]), Text(name))
  }

  /** Entry `i` of a way along the path: in the root directory, or in the
      listing of the directory that the entry before it is. */
  ghost predicate Leads(v: Volume, root: seq<Item>, names: seq<Name>, entries: seq<Item>, i: nat)
    requires v.Valid() && i < |entries| <= |names|
  {
    if i == 0 then LastNamed(root, names[0], entries[0])
    else
      var before := ItemOf(v.disk, v.header, entries[i - 1]);
      && before.DirectoryItem? && before.directory.Listing?
      && LastNamed(before.directory.items, names[i], entries[i])
  }

  ghost predicate IsWay(v: Volume, root: seq<Item>, names: seq<Name>, entries: seq<Item>)
    requires v.Valid()
  {
    0 < |entries| <= |names| && forall i: nat | i < |entries| :: Leads(v, root, names, entries, i)
  }

  lemma LookupInIff(v: Volume, items: seq<Item>, name: Name, e: Item)
    requires v.Valid()
    ensures LastNamed(items, name, e) <==> LastMatch(items, name) >= 0 && items[LastMatch(items, name)] == e
  {
    hide FullName, SameText, LastMatch;
    var r := LastMatch(items, name);
    if r >= 0 {
      assert OnlyFrom(items, name, r);
    }
    if i: nat :| i < |items| && items[i] == e && OnlyFrom(items, name, i) {
      LastMatchIs(items, name, i);
    }
  }

  /** The lookups find an item exactly along such a way. */
  lemma {:induction false} LookupIsWay(v: Volume, root: seq<Item>, names: seq<Name>, k: nat)
    returns (entries: seq<Item>)
    requires v.Valid() && 1 <= k <= |names| && Lookup(v, root, names, k).Some?
    ensures |entries| == k && IsWay(v, root, names, entries)
    ensures Lookup(v, root, names, k) == Some(ItemOf(v.disk, v.header, entries[k - 1]))
  {
    hide LastMatch, LastNamed, ItemOf;
    if k == 1 {
      entries := [root[LastMatch(root, names[0])]];
      LookupInIff(v, root, names[0], entries[0]);
    } else {
      var items := ListingOf(Lookup(v, root, names, k - 1)).value;
      var way := LookupIsWay(v, root, names, k - 1);
      var e := items[LastMatch(items, names[k - 1])];
      LookupInIff(v, items, names[k - 1], e);
      entries := way + [e];
      assert forall i: nat | i < k - 1 :: Leads(v, root, names, way, i) ==> Leads(v, root, names, entries, i);
    }
  }

  lemma {:induction false} WayIsLookup(v: Volume, root: seq<Item>, names: seq<Name>, entries: seq<Item>)
    requires v.Valid() && IsWay(v, root, names, entries)
    ensures Lookup(v, root, names, |entries|) == Some(ItemOf(v.disk, v.header, entries[|entries| - 1]))
    decreases |entries|
  {
    hide LastMatch, LastNamed, ItemOf;
    var k := |entries|;
    assert Leads(v, root, names, entries, k - 1);
    if k == 1 {
      LookupInIff(v, root, names[0], entries[0]);
    } else {
      var way := entries[..k - 1];
      assert forall i: nat | i < k - 1 :: Leads(v, root, names, entries, i) ==> Leads(v, root, names, way, i);
      WayIsLookup(v, root, names, way);
      LookupInIff(v, ListingOf(Lookup(v, root, names, k - 1)).value, names[k - 1], entries[k - 1]);
    }
  }

  /** Opening a path finds an item exactly when there is a way along it: an
      entry for each component, the first in the root directory, each other one
      in the directory the entry before it stands for. The item is that of the
      last entry. */
  lemma FoundAlongWay(v: Volume, root: seq<Item>, names: seq<Name>, item: FatItem)
    requires v.Valid() && |names| > 0
    ensures Walk(v, root, names) == Found(item)
            <==> exists entries: seq<Item> :: |entries| == |names| && IsWay(v, root, names, entries)
                                              && item == ItemOf(v.disk, v.header, entries[|names| - 1])
  {
    hide Walk, Lookup, ItemOf, Leads;
    FoundIff(v, root, names, item);
    if Lookup(v, root, names, |names|) == Some(item) {
      var entries := LookupIsWay(v, root, names, |names|);
      assert IsWay(v, root, names, entries);
    }
    if entries: seq<Item> :| |entries| == |names| && IsWay(v, root, names, entries)
                             && item == ItemOf(v.disk, v.header, entries[|names| - 1]) {
      WayIsLookup(v, root, names, entries);
    }
  }

  /** It reads through a null pointer exactly when a component that is neither
      the first nor the last is missing from the directory it is looked up in. */
  lemma ReadsNullIff(v: Volume, root: seq<Item>, names: seq<Name>)
    requires v.Valid() && |names| > 0
    ensures Walk(v, root, names) == ReadsNull
            <==> exists k: nat :: 1 <= k && k + 1 < |names| && MissingAt(v, root, names, k)
  {
    hide LookupIn, Lookup;
    if k: nat :| 1 <= k && k + 1 < |names| && MissingAt(v, root, names, k) {
      WalkReaches(v, root, names, k);
      assert WalkFrom(v, root, names, k) == WalkFrom(v, root, names, k + 1);
    }
    if Lookup(v, root, names, 1).Some? {
      WalkEnds(v, root, names, 1);
    }
  }

  /** It reads memory that was given back exactly when the path goes on in a
      directory whose chain is too short for its entries. */
  lemma ReadsFreedIff(v: Volume, root: seq<Item>, names: seq<Name>)
    requires v.Valid() && |names| > 0
    ensures Walk(v, root, names) == ReadsFreed
            <==> exists k: nat :: 1 <= k < |names| && DanglesAt(v, root, names, k)
  {
    hide LookupIn, Lookup;
    if k: nat :| 1 <= k < |names| && DanglesAt(v, root, names, k) {
      WalkReaches(v, root, names, k);
    }
    if Lookup(v, root, names, 1).Some? {
      WalkEnds(v, root, names, 1);
    }
  }

  // ----- The code

  /** Every directory that the lookups come across can be loaded. */
  ghost predicate Loadable(v: Volume, items: seq<Item>, name: Name) {
    forall e | e in items && Matches(e, name) :: CanLoad(v.disk, v.header, e)
  }

  ghost predicate LoadableAt(v: Volume, root: seq<Item>, names: seq<Name>, k: nat)
    requires v.Valid() && k < |names|
  {
    if k == 0 then Loadable(v, root, names[0])
    else
      var items := ListingOf(Lookup(v, root, names, k));
      items.Some? ==> Loadable(v, items.value, names[k])
  }

  /** A name in a buffer, followed by its terminator or not, matches the same
      entries. */
  lemma SameMatches(items: seq<Item>, buffer: seq<u8>, name: Name)
    requires Text(buffer) == name
    ensures forall e: Item :: Matches(e, buffer) == Matches(e, name)
    ensures LastMatch(items, buffer) == LastMatch(items, name)
  {
    TextLengthIs(name, |name|);
    assert Text(name) == name;
    LastMatchIs(items, buffer, LastMatch(items, name));
  }

  /** One lookup of a component in a listing. */
  method FindPart(v: Volume, directoryStream: DiskStream, items: seq<Item>, part: PathPart, ghost name: Name)
    returns (r: Option<FatItem>)
    requires v.Valid() && directoryStream.disk == v.disk
    requires directoryStream != v.clusterReadStream && directoryStream != v.fatReadStream
    requires Terminated(part.part[..]) && Text(part.part[..]) == name && Loadable(v, items, name)
    modifies directoryStream`pos, v.clusterReadStream`pos, v.fatReadStream`pos
    ensures r == LookupIn(v, items, name)
  {
    hide Matches, CanLoad, ItemOf, Terminated, Text;
    SameMatches(items, part.part[..], name);
    var _, item := FindItemInDirectory(v, directoryStream, items, part.part[..]);
    r := item;
  }

  /** `fat16_get_directory_entry`, on the list of a parsed path. */
  method GetDirectoryEntry(v: Volume, directoryStream: DiskStream, root: seq<Item>, path: PathPart,
                           ghost nodes: seq<PathPart>, ghost names: seq<Name>)
    returns (r: Outcome)
    requires v.Valid() && directoryStream.disk == v.disk
    requires directoryStream != v.clusterReadStream && directoryStream != v.fatReadStream
    requires Linked(nodes) && Holds(nodes, names) && |nodes| > 0 && path == nodes[0]
    requires forall k: nat {:trigger LoadableAt(v, root, names, k)} | k < |names| :: LoadableAt(v, root, names, k)
    modifies directoryStream`pos, v.clusterReadStream`pos, v.fatReadStream`pos
    ensures r == Walk(v, root, names)
  {
    hide Loadable, LookupIn, Terminated, Text, Volume.Valid;
    assert LoadableAt(v, root, names, 0);
    var current := FindPart(v, directoryStream, root, path, names[0]);
    if current.None? {
      return Missing;
    }
    assert LinkOk(nodes, 0);
    var nextPart := path.next;
    ghost var k := 1;
    while nextPart != null
      invariant 1 <= k <= |names| && nextPart == if k < |nodes| then nodes[k] else null
      invariant v.Valid() && current == Lookup(v, root, names, k)
      invariant Walk(v, root, names) == WalkFrom(v, root, names, k)
      decreases |nodes| - k
    {
      if current.None? {
        return ReadsNull;
      }
      if current.value.FileItem? {
        return Missing;
      }
      if !current.value.directory.Listing? {
        return ReadsFreed;
      }
      assert LoadableAt(v, root, names, k) && LinkOk(nodes, k);
      current := FindPart(v, directoryStream, current.value.directory.items, nextPart, names[k]);
      nextPart := nextPart.next;
      k := k + 1;
    }
    r := if current.None? then Missing else Found(current.value);
  }
}
