/** The path parser: a cursor over a C string that builds a heap-allocated
    list, and the destructor that gives every block back. */
module PathParser {
  import opened Bits
  import opened HeapTable
  import opened KernelHeap
  import opened PageTables
  import opened Paging
  import opened CStrings
  import opened Paths
  import opened Status

  const SIZEOF_PATH_ROOT: u32 := 8
  const SIZEOF_PATH_PART: u32 := 8

  /** A list node, with the addresses of its own memory and of its buffer's. */
  class PathPart {
    const part: array<u8>
    const partAddress: u32
    const address: u32
    ghost const partBlock: nat
    ghost const block: nat
    var next: PathPart?

    constructor (part: array<u8>, partAddress: u32, address: u32, ghost partBlock: nat, ghost block: nat)
      ensures this.part == part && this.partAddress == partAddress && this.address == address
      ensures this.partBlock == partBlock && this.block == block && next == null
    {
      this.part := part;
      this.partAddress := partAddress;
      this.address := address;
      this.partBlock := partBlock;
      this.block := block;
      next := null;
    }
  }

  class PathRoot {
    const driveNo: nat
    const address: u32
    ghost const block: nat
    var first: PathPart?

    constructor (driveNo: nat, address: u32, ghost block: nat)
      ensures this.driveNo == driveNo && this.address == address && this.block == block && first == null
    {
      this.driveNo := driveNo;
      this.address := address;
      this.block := block;
      first := null;
    }
  }

  /** The nodes form a chain through `next`. */
  ghost predicate Linked(nodes: seq<PathPart>)
    reads nodes
  {
    forall i: nat {:trigger LinkOk(nodes, i)} | i < |nodes| :: LinkOk(nodes, i)
  }

  ghost predicate LinkOk(nodes: seq<PathPart>, i: nat)
    requires i < |nodes|
    reads nodes[i]
  {
    nodes[i].next == if i + 1 < |nodes| then nodes[i + 1] else null
  }

  ghost function First(nodes: seq<PathPart>): PathPart? {
    if |nodes| > 0 then nodes[0] else null
  }

  /** The nodes' buffers hold the given names. */
  ghost predicate Holds(nodes: seq<PathPart>, names: seq<Name>)
    reads set i: nat | i < |nodes| :: nodes[i].part
  {
    && |names| == |nodes|
    && forall i: nat | i < |nodes| :: Terminated(nodes[i].part[..]) && Text(nodes[i].part[..]) == names[i]
  }

  /** The blocks of the nodes, two each. */
  ghost function PartBlocks(nodes: seq<PathPart>): set<nat> {
    if |nodes| == 0 then {} else {nodes[0].partBlock, nodes[0].block} + PartBlocks(nodes[1..])
  }

  /** No block is used twice. */
  ghost predicate DistinctBlocks(nodes: seq<PathPart>) {
    |nodes| > 0 ==>
      nodes[0].partBlock != nodes[0].block && {nodes[0].partBlock, nodes[0].block} !! PartBlocks(nodes[1..])
      && DistinctBlocks(nodes[1..])
  }

  lemma {:induction false} BlocksSnoc(nodes: seq<PathPart>, n: PathPart)
    requires DistinctBlocks(nodes) && n.partBlock != n.block && {n.partBlock, n.block} !! PartBlocks(nodes)
    ensures PartBlocks(nodes + [n]) == PartBlocks(nodes) + {n.partBlock, n.block}
    ensures DistinctBlocks(nodes + [n])
  {
    if |nodes| == 0 {
      assert nodes + [n] == [n];
      assert PartBlocks([n][1..]) == {};
    } else {
      BlocksSnoc(nodes[1..], n);
      assert (nodes + [n])[1..] == nodes[1..] + [n];
    }
  }

  /** The addresses kept in the nodes are those of their blocks. */
  ghost predicate AddressesOk(ram: Ram, nodes: seq<PathPart>) {
    forall i: nat | i < |nodes| :: NodeOk(ram, nodes[i])
  }

  ghost predicate NodeOk(ram: Ram, n: PathPart) {
    && n.partAddress == (ram.base + n.partBlock) * PAGE_SIZE && n.partBlock < |ram.page|
    && n.address == (ram.base + n.block) * PAGE_SIZE && n.block < |ram.page|
  }

  /** The copying loop of `pathparser_get_path_part`, on a cleared buffer; no
      component overruns it. */
  method CopyPart(path: seq<u8>, cursor: nat, buffer: array<u8>) returns (i: nat, end: nat)
    requires Terminated(path) && cursor <= TextLength(path) && TextLength(path) - cursor < MAX_PATH
    requires buffer.Length == MAX_PATH && forall j | 0 <= j < MAX_PATH :: buffer[j] == 0
    modifies buffer
    ensures Terminated(buffer[..]) && Text(buffer[..]) == FirstPart(path[cursor..TextLength(path)])
    ensures i == |FirstPart(path[cursor..TextLength(path)])|
    ensures end <= TextLength(path) && path[end..TextLength(path)] == Rest(path[cursor..TextLength(path)])
  {
    hide FirstPart;
    ghost var t := path[cursor..TextLength(path)];
    i := 0;
    while path[cursor + i] != SLASH && path[cursor + i] != 0x00
      invariant 0 <= i <= |t|
      invariant forall j | 0 <= j < i :: t[j] != SLASH && buffer[j] == t[j]
      invariant forall j | i <= j < MAX_PATH :: buffer[j] == 0
      decreases |t| - i
    {
      buffer[i] := path[cursor + i];
      i := i + 1;
    }
    FirstPartIs(t, i);
    end := cursor + i;
    if path[end] == SLASH {
      end := end + 1;
    }
    TextLengthIs(buffer[..], i);
  }

  /** `pathparser_get_path_part`: copy up to a slash or the end; an empty
      component gives its buffer back at once. */
  method GetPathPart(m: Machine, path: seq<u8>, cursor: nat)
    returns (part: array?<u8>, address: u32, end: nat, ghost block: nat)
    requires m.Valid() && FreeCount(m.heap.table[..]) >= 1
    requires Terminated(path) && cursor <= TextLength(path) && TextLength(path) - cursor < MAX_PATH
    modifies m`ram, m.heap`live, m.heap.table
    ensures m.Valid() && m.ram.base == old(m.ram.base) && |m.ram.page| == |old(m.ram.page)|
    ensures end <= TextLength(path) && path[end..TextLength(path)] == Rest(path[cursor..TextLength(path)])
    ensures var name := FirstPart(path[cursor..TextLength(path)]);
            if name == [] then part == null && m.heap.live == old(m.heap.live)
            else
              && part != null && fresh(part) && part.Length == MAX_PATH
              && Terminated(part[..]) && Text(part[..]) == name
              && block < |m.ram.page| && address == m.Address(block)
              && block !in old(m.heap.live) && m.heap.live == old(m.heap.live)[block := 1]
              && FreeCount(m.heap.table[..]) == FreeCount(old(m.heap.table[..])) - 1
  {
    hide Heap.Valid, TextLength, FirstPart, Rest;
    var buffer := new u8[MAX_PATH](_ => 0);
    address, block := m.KzallocPage(MAX_PATH);
    ghost var table := m.heap.table[..];
    var i, e := CopyPart(path, cursor, buffer);
    end := e;
    assert m.heap.table[..] == table;
    if i == 0 {
      m.Kfree(address, block);
      assert m.heap.live == old(m.heap.live);
      return null, 0, end, block;
    }
    part := buffer;
  }

  /** `pathparser_parse_path_part`. */
  method ParsePathPart(m: Machine, lastPart: PathPart?, path: seq<u8>, cursor: nat)
    returns (part: PathPart?, end: nat)
    requires Terminated(path) && cursor <= TextLength(path) && TextLength(path) - cursor < MAX_PATH
    requires m.Valid()
    requires FreeCount(m.heap.table[..]) >= if FirstPart(path[cursor..TextLength(path)]) == [] then 1 else 2
    modifies m`ram, m.heap`live, m.heap.table, if lastPart != null then {lastPart} else {}
    ensures m.Valid() && m.ram.base == old(m.ram.base) && |m.ram.page| == |old(m.ram.page)|
    ensures end <= TextLength(path) && path[end..TextLength(path)] == Rest(path[cursor..TextLength(path)])
    ensures var name := FirstPart(path[cursor..TextLength(path)]);
            if name == [] then
              && part == null && m.heap.live == old(m.heap.live)
              && (lastPart != null ==> lastPart.next == old(lastPart.next))
            else
              && part != null && fresh(part) && fresh(part.part) && part.next == null
              && (lastPart != null ==> lastPart.next == part)
              && Terminated(part.part[..]) && Text(part.part[..]) == name
              && NodeOk(m.ram, part) && part.partBlock != part.block
              && part.partBlock !in old(m.heap.live) && part.block !in old(m.heap.live)
              && m.heap.live == old(m.heap.live)[part.partBlock := 1][part.block := 1]
              && FreeCount(m.heap.table[..]) == FreeCount(old(m.heap.table[..])) - 2
  {
    hide Heap.Valid, TextLength, FirstPart, Rest;
    var str, strAddress, e, strBlock := GetPathPart(m, path, cursor);
    end := e;
    if str == null {
      return null, end;
    }
    var address, block := m.KzallocPage(SIZEOF_PATH_PART);
    part := new PathPart(str, strAddress, address, strBlock, block);
    if lastPart != null {
      lastPart.next := part;
    }
  }

  /** The blocks of a parsed path: its own, used once each, on top of `live0`. */
  ghost predicate Occupies(ram: Ram, live: Live, root: PathRoot, nodes: seq<PathPart>, live0: Live) {
    && root.block < |ram.page| && root.address == (ram.base + root.block) * PAGE_SIZE
    && AddressesOk(ram, nodes) && DistinctBlocks(nodes) && root.block !in PartBlocks(nodes)
    && ({root.block} + PartBlocks(nodes)) !! live0.Keys
    && live == live0 + Singles({root.block} + PartBlocks(nodes))
  }

  /** What a parsed path says. */
  ghost predicate Says(root: PathRoot, nodes: seq<PathPart>, p: Path)
    reads root, nodes, set i: nat | i < |nodes| :: nodes[i].part
  {
    root.driveNo == p.drive && root.first == First(nodes) && Linked(nodes) && Holds(nodes, p.parts)
  }

  /** One more node on top of those there are. */
  lemma OccupiesSnoc(ram: Ram, live: Live, r: Ram, live': Live, root: PathRoot,
                     nodes: seq<PathPart>, n: PathPart, live0: Live)
    requires Occupies(ram, live, root, nodes, live0) && r.base == ram.base && |r.page| == |ram.page|
    requires NodeOk(r, n) && n.partBlock != n.block && n.partBlock !in live && n.block !in live
    requires live' == live[n.partBlock := 1][n.block := 1]
    ensures Occupies(r, live', root, nodes + [n], live0)
  {
    var s := {root.block} + PartBlocks(nodes);
    assert forall b | b in s :: b in live;
    BlocksSnoc(nodes, n);
    assert {root.block} + PartBlocks(nodes + [n]) == s + {n.partBlock, n.block};
    assert live' == live0 + Singles(s + {n.partBlock, n.block});
    forall i: nat | i < |nodes| + 1
      ensures NodeOk(r, (nodes + [n])[i])
    {
      assert i < |nodes| ==> NodeOk(ram, nodes[i]);
    }
  }

  /** `pathparser_get_drive_by_path`: the drive, or an error for a path that
      does not start with a digit, a colon and a slash. */
  method GetDriveByPath(path: seq<u8>) returns (drive: int)
    requires Terminated(path)
    ensures drive >= 0 <==>
              && 3 <= TextLength(path) && '0' as int <= path[0] <= '9' as int
              && path[1] == ':' as int && path[2] == '/' as int
    ensures if drive >= 0 then drive == path[0] - '0' as int else drive == -4
  {
    var len := Strnlen(path, MAX_PATH);
    if len >= 3 && IsDigit(path[0]) && path[1] == COLON && path[2] == SLASH {
      var c: int := path[0];
      return c - 48;
    }
    return -EBADPATH;
  }

  /** `strlen`. */
  method Strlen(s: seq<u8>) returns (n: nat)
    requires Terminated(s)
    ensures n == TextLength(s)
  {
    n := 0;
    while s[n] != 0
      invariant 0 <= n <= TextLength(s)
      decreases TextLength(s) - n
    {
      n := n + 1;
    }
  }

  /** How many free blocks parsing takes at its peak. */
  function BlocksToParse(text: seq<u8>): nat {
    if !ValidFormat(text) then 0 else 1 + 2 * |Parts(text[3..])| + 1
  }

  /** `pathparser_parse`. */
  method Parse(m: Machine, path: seq<u8>) returns (root: PathRoot?, ghost nodes: seq<PathPart>)
    requires m.Valid() && Terminated(path) && FreeCount(m.heap.table[..]) >= BlocksToParse(Text(path))
    modifies m`ram, m.heap`live, m.heap.table
    ensures m.Valid() && m.ram.base == old(m.ram.base)
    ensures root == null <==> ParsePath(Text(path)).None?
    ensures root == null ==> m.heap.live == old(m.heap.live)
    ensures root != null ==> fresh(root) && fresh(nodes)
    ensures root != null ==> Says(root, nodes, ParsePath(Text(path)).value)
    ensures root != null ==> Occupies(m.ram, m.heap.live, root, nodes, old(m.heap.live))
  {
    hide Occupies, Says, FirstPart, Rest, Parts, TextLength, Machine.Valid, FreeCount, NodeOk;
    nodes := [];
    var length := Strlen(path);
    if length > MAX_PATH {
      return null, nodes;
    }
    var drive := GetDriveByPath(path);
    if drive < 0 {
      return null, nodes;
    }
    ghost var live0, tail := m.heap.live, path[3..TextLength(path)];
    assert Text(path)[3..] == tail;
    PartsUnfold(tail);
    var address, block := m.KzallocPage(SIZEOF_PATH_ROOT);
    root := new PathRoot(drive, address, block);
    OccupiesRoot(m.ram, root, live0);
    ghost var ram, live := m.ram, m.heap.live;
    var part, end := ParsePathPart(m, null, path, 3);
    if part == null {
      OccupiesFrame(ram, m.ram, live, root, [], live0);
      SaysNothing(root);
      return root, nodes;
    }
    root.first := part;
    OccupiesSnoc(ram, live, m.ram, m.heap.live, root, [], part, live0);
    assert [] + [part] == [part];
    SaysOne(root, part, FirstPart(tail));
    nodes := AddParts(m, root, part, path, end, Path(drive, [FirstPart(tail)]), live0);
  }

  lemma PartsUnfold(t: seq<u8>)
    ensures Parts(t) == if FirstPart(t) == [] then [] else [FirstPart(t)] + Parts(Rest(t))
  {
  }

  lemma OccupiesRoot(ram: Ram, root: PathRoot, live0: Live)
    requires root.block < |ram.page| && root.address == (ram.base + root.block) * PAGE_SIZE && root.block !in live0
    ensures Occupies(ram, live0[root.block := 1], root, [], live0)
  {
    assert {root.block} + PartBlocks([]) == {root.block};
    assert live0[root.block := 1] == live0 + Singles({root.block});
  }

  lemma SaysNothing(root: PathRoot)
    requires root.first == null
    ensures Says(root, [], Path(root.driveNo, []))
  {
  }

  lemma SaysOne(root: PathRoot, n: PathPart, name: Name)
    requires root.first == n && n.next == null && Terminated(n.part[..]) && Text(n.part[..]) == name
    ensures Says(root, [n], Path(root.driveNo, [name]))
  {
  }

  /** The loop of `pathparser_parse`: parts until none is left. */
  method AddParts(m: Machine, root: PathRoot, first: PathPart, path: seq<u8>, cursor: nat,
                  ghost p: Path, ghost live0: Live)
    returns (ghost nodes: seq<PathPart>)
    requires Terminated(path) && cursor <= TextLength(path) && TextLength(path) - cursor < MAX_PATH
    requires m.Valid() && FreeCount(m.heap.table[..]) >= 2 * |Parts(path[cursor..TextLength(path)])| + 1
    requires Occupies(m.ram, m.heap.live, root, [first], live0) && Says(root, [first], p)
    requires first.part as object != m.heap.table
    modifies m`ram, m.heap`live, m.heap.table, first
    ensures m.Valid() && m.ram.base == old(m.ram.base)
    ensures |nodes| > 0 && nodes[0] == first && forall i: nat | 0 < i < |nodes| :: fresh(nodes[i])
    ensures Occupies(m.ram, m.heap.live, root, nodes, live0)
    ensures Says(root, nodes, p.(parts := p.parts + Parts(path[cursor..TextLength(path)])))
  {
    hide Represents, Occupies, Says, Rest, FirstPart, Parts, TextLength, Machine.Valid;
    nodes := [first];
    ghost var tail, names: seq<Name> := path[cursor..TextLength(path)], [];
    var part: PathPart?, end := first, cursor;
    assert p.parts + names == p.parts;
    while part != null
      invariant m.Valid() && m.ram.base == old(m.ram.base)
      invariant |nodes| > 0 && nodes[0] == first && forall i: nat | 0 < i < |nodes| :: fresh(nodes[i])
      invariant forall n | n in nodes :: n.part as object != m.heap.table
      invariant Occupies(m.ram, m.heap.live, root, nodes, live0)
      invariant Says(root, nodes, p.(parts := p.parts + names))
      invariant cursor <= end <= TextLength(path)
      invariant Parts(tail) == names + if part == null then [] else Parts(path[end..TextLength(path)])
      invariant part != null ==> part == nodes[|nodes| - 1]
      invariant part != null ==> FreeCount(m.heap.table[..]) >= 2 * (|Parts(tail)| - |names|) + 1
      decreases TextLength(path) - end + if part != null then 1 else 0
    {
      ghost var t := path[end..TextLength(path)];
      RestShorter(t);
      PartsStep(tail, p.parts, names, t);
      part, end, nodes := AddPart(m, root, part, path, end, nodes, p.(parts := p.parts + names), live0);
      if part != null {
        names := names + [FirstPart(t)];
      }
    }
    assert names + [] == names;
  }

  /** Taking one more component. */
  lemma PartsStep(tail: seq<u8>, before: seq<Name>, names: seq<Name>, t: seq<u8>)
    requires Parts(tail) == names + Parts(t)
    ensures FirstPart(t) == [] ==> Parts(tail) == names + []
    ensures FirstPart(t) != [] ==> Parts(tail) == (names + [FirstPart(t)]) + Parts(Rest(t))
    ensures FirstPart(t) != [] ==> |Parts(tail)| > |names|
    ensures before + names + [FirstPart(t)] == before + (names + [FirstPart(t)])
  {
    hide Parts, FirstPart, Rest;
    PartsUnfold(t);
  }

  lemma RestShorter(t: seq<u8>)
    ensures |Rest(t)| <= |t| && (FirstPart(t) != [] ==> |Rest(t)| < |t|)
  {
  }

  /** One round of the loop of `pathparser_parse`. */
  method AddPart(m: Machine, root: PathRoot, last: PathPart, path: seq<u8>, cursor: nat,
                 ghost nodes: seq<PathPart>, ghost p: Path, ghost live0: Live)
    returns (part: PathPart?, end: nat, ghost nodes': seq<PathPart>)
    requires Terminated(path) && cursor <= TextLength(path) && TextLength(path) - cursor < MAX_PATH
    requires m.Valid()
    requires FreeCount(m.heap.table[..]) >= if FirstPart(path[cursor..TextLength(path)]) == [] then 1 else 3
    requires Occupies(m.ram, m.heap.live, root, nodes, live0) && Says(root, nodes, p)
    requires |nodes| > 0 && last == nodes[|nodes| - 1]
    requires forall n | n in nodes :: n.part as object != m.heap.table
    modifies m`ram, m.heap`live, m.heap.table, last
    ensures m.Valid() && m.ram.base == old(m.ram.base)
    ensures end <= TextLength(path) && path[end..TextLength(path)] == Rest(path[cursor..TextLength(path)])
    ensures Occupies(m.ram, m.heap.live, root, nodes', live0)
    ensures var name := FirstPart(path[cursor..TextLength(path)]);
            if name == [] then part == null && nodes' == nodes && Says(root, nodes', p)
            else
              && part != null && fresh(part) && fresh(part.part) && nodes' == nodes + [part]
              && part.part as object != m.heap.table
              && Says(root, nodes', p.(parts := p.parts + [name]))
              && FreeCount(m.heap.table[..]) == FreeCount(old(m.heap.table[..])) - 2
  {
    hide Heap.Valid, Occupies, Rest, FirstPart, TextLength;
    ghost var ram, live := m.ram, m.heap.live;
    assert DistinctBlocks(nodes) by { OccupiesDistinct(ram, live, root, nodes, live0); }
    LastNode(nodes);
    part, end := ParsePathPart(m, last, path, cursor);
    nodes' := nodes;
    if part != null {
      OccupiesSnoc(ram, live, m.ram, m.heap.live, root, nodes, part, live0);
      nodes' := nodes + [part];
      Appended(nodes, part);
    } else {
      SameLinks(nodes);
      OccupiesFrame(ram, m.ram, live, root, nodes, live0);
    }
  }

  lemma OccupiesDistinct(ram: Ram, live: Live, root: PathRoot, nodes: seq<PathPart>, live0: Live)
    requires Occupies(ram, live, root, nodes, live0)
    ensures DistinctBlocks(nodes)
  {
  }

  lemma OccupiesFrame(ram: Ram, r: Ram, live: Live, root: PathRoot, nodes: seq<PathPart>, live0: Live)
    requires Occupies(ram, live, root, nodes, live0) && r.base == ram.base && |r.page| == |ram.page|
    ensures Occupies(r, live, root, nodes, live0)
  {
    forall i: nat | i < |nodes|
      ensures NodeOk(r, nodes[i])
    {
      assert NodeOk(ram, nodes[i]);
    }
  }

  twostate lemma SameLinks(nodes: seq<PathPart>)
    requires old(Linked(nodes)) && forall i: nat | i < |nodes| :: nodes[i].next == old(nodes[i].next)
    ensures Linked(nodes)
  {
    forall i: nat | i < |nodes|
      ensures LinkOk(nodes, i)
    {
      assert old(LinkOk(nodes, i));
    }
  }

  /** The nodes before the last are other objects. */
  lemma {:induction false} LastNode(nodes: seq<PathPart>)
    requires DistinctBlocks(nodes)
    ensures forall i: nat | i + 1 < |nodes| :: nodes[i] != nodes[|nodes| - 1]
  {
    if |nodes| > 1 {
      LastNode(nodes[1..]);
      LastIn(nodes[1..]);
      forall i: nat | i + 1 < |nodes|
        ensures nodes[i] != nodes[|nodes| - 1]
      {
        assert i > 0 ==> nodes[i] == nodes[1..][i - 1];
      }
    }
  }

  lemma {:induction false} LastIn(nodes: seq<PathPart>)
    requires |nodes| > 0
    ensures nodes[|nodes| - 1].block in PartBlocks(nodes)
  {
    if |nodes| > 1 {
      LastIn(nodes[1..]);
    }
  }

  twostate lemma Appended(nodes: seq<PathPart>, new n: PathPart)
    requires |nodes| > 0 && old(Linked(nodes)) && n.next == null && nodes[|nodes| - 1].next == n
    requires forall i: nat | i + 1 < |nodes| :: nodes[i].next == old(nodes[i].next)
    ensures Linked(nodes + [n])
  {
    forall i: nat | i < |nodes| + 1
      ensures LinkOk(nodes + [n], i)
    {
      assert i < |nodes| ==> old(LinkOk(nodes, i));
    }
  }

  // ----- Freeing

  /** `pathparser_free`: both blocks of every node, then the root. */
  method Free(m: Machine, root: PathRoot, ghost nodes: seq<PathPart>, ghost live0: Live)
    requires m.Valid() && Occupies(m.ram, m.heap.live, root, nodes, live0)
    requires root.first == First(nodes) && Linked(nodes)
    modifies m.heap`live, m.heap.table
    ensures m.Valid() && m.heap.live == live0
  {
    hide Represents, Occupies, PartBlocks;
    var part := root.first;
    ghost var i := 0;
    assert nodes[0..] == nodes;
    while part != null
      invariant 0 <= i <= |nodes| && part == First(nodes[i..])
      invariant m.Valid() && Occupies(m.ram, m.heap.live, root, nodes[i..], live0)
      decreases |nodes| - i
    {
      ghost var rest := nodes[i..];
      assert LinkOk(nodes, i);
      var nextPart := part.next;
      FrontNode(m.ram, m.heap.live, root, rest, live0);
      m.Kfree(part.partAddress, part.partBlock);
      m.Kfree(part.address, part.block);
      part := nextPart;
      i := i + 1;
      assert rest[1..] == nodes[i..];
    }
    RootAlone(m.ram, m.heap.live, root, live0);
    m.Kfree(root.address, root.block);
  }

  /** Giving back the first node's two blocks leaves a path of the others. */
  lemma FrontNode(ram: Ram, live: Live, root: PathRoot, nodes: seq<PathPart>, live0: Live)
    requires Occupies(ram, live, root, nodes, live0) && |nodes| > 0
    ensures NodeOk(ram, nodes[0]) && nodes[0].partBlock in live && nodes[0].block in live
    ensures nodes[0].partBlock != nodes[0].block
    ensures Occupies(ram, live - {nodes[0].partBlock} - {nodes[0].block}, root, nodes[1..], live0)
  {
    var n := nodes[0];
    var rest := {root.block} + PartBlocks(nodes[1..]);
    assert {root.block} + PartBlocks(nodes) == rest + {n.partBlock, n.block};
    assert live - {n.partBlock} - {n.block} == live0 + Singles(rest);
    forall i: nat | i < |nodes[1..]|
      ensures NodeOk(ram, nodes[1..][i])
    {
      assert NodeOk(ram, nodes[i + 1]);
    }
  }

  lemma RootAlone(ram: Ram, live: Live, root: PathRoot, live0: Live)
    requires Occupies(ram, live, root, [], live0)
    ensures root.block < |ram.page| && root.address == (ram.base + root.block) * PAGE_SIZE
    ensures root.block in live && live - {root.block} == live0
  {
    assert {root.block} + PartBlocks([]) == {root.block};
    assert live == live0 + Singles({root.block});
  }

  /** Parsing a path and freeing the result leaves the heap table byte for byte
      as it was, trailing slashes and empty components included. */
  method ParseThenFree(m: Machine, path: seq<u8>)
    requires m.Valid() && Terminated(path) && FreeCount(m.heap.table[..]) >= BlocksToParse(Text(path))
    modifies m`ram, m.heap`live, m.heap.table
    ensures m.Valid() && m.heap.table[..] == old(m.heap.table[..])
  {
    hide Represents, Occupies;
    ghost var live0 := m.heap.live;
    var root, nodes := Parse(m, path);
    if root != null {
      Free(m, root, nodes, live0);
    }
    LiveDeterminesTable(m.heap.table[..], old(m.heap.table[..]), live0);
  }
}
