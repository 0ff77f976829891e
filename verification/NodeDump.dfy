/** src/f2fs/dump.c: the tree of node blocks under an inode, walked and numbered. */
module NodeDump {
  const NIDS: nat := 1018
  const ADDRS: nat := 1018
  const ADDRS_INODE: nat := 923
  const WRAP: nat := 0x1_0000_0000

  /** The direct nodes an inode can have. */
  const DIRECTS: nat := 2 + 2 * NIDS + NIDS * NIDS

  /** Subtraction in unsigned 32-bit arithmetic. */
  function Minus(a: nat, b: nat): nat
    requires a < WRAP && b < WRAP
  {
    (a + WRAP - b) % WRAP
  }

  // ----- numbering

  /** `IS_DNODE`, for a node other than the inode. */
  predicate IsDirect(number: nat) {
    && number != 0 && number != 3 && number != 4 + NIDS && number != 5 + 2 * NIDS
    && (6 + 2 * NIDS <= number ==> (number - (6 + 2 * NIDS)) % (NIDS + 1) != 0)
  }

  /** The number of the last node there can be. */
  const LAST: nat := 5 + 2 * NIDS + NIDS * (NIDS + 1)

  /** The number of the `d`-th direct node: numbers go to a node before its children. */
  function Number(d: nat): nat {
    if d < 2 then d + 1
    else if d < 2 + NIDS then d + 2
    else if d < 2 + 2 * NIDS then d + 3
    else var e := d - 2 - 2 * NIDS; 7 + 2 * NIDS + (e / NIDS) * (NIDS + 1) + e % NIDS
  }

  /** Which direct node has a given number. */
  function Index(number: nat): nat
    requires IsDirect(number)
  {
    if number <= 2 then number - 1
    else if number <= 3 + NIDS then number - 2
    else if number <= 4 + 2 * NIDS then number - 3
    else var e := number - 6 - 2 * NIDS; 2 + 2 * NIDS + (e / (NIDS + 1)) * NIDS + e % (NIDS + 1) - 1
  }

  /** The numbers of direct nodes are those of the `d`-th ones, each once. */
  lemma NumberIndex(number: nat)
    requires IsDirect(number) && number <= LAST
    ensures Index(number) < DIRECTS && Number(Index(number)) == number
  {
    if 5 + 2 * NIDS < number {
      var e := number - 6 - 2 * NIDS;
      var q, r := e / (NIDS + 1), e % (NIDS + 1);
      assert q < NIDS && 0 < r;
      assert (q * NIDS + r - 1) / NIDS == q && (q * NIDS + r - 1) % NIDS == r - 1;
    }
  }

  lemma IndexNumber(d: nat)
    requires d < DIRECTS
    ensures IsDirect(Number(d)) && Number(d) <= LAST && Index(Number(d)) == d
  {
    if 2 + 2 * NIDS <= d {
      var e := d - 2 - 2 * NIDS;
      var q, r := e / NIDS, e % NIDS;
      assert q < NIDS;
      FarQuotient(q, r + 1);
    }
  }

  /** The file block a direct node's first address is for. */
  function First(d: nat, perBlock: nat, perInode: nat): nat {
    d * perBlock + perInode
  }

  /** The index computed by `start_bidx_of_node` before it is scaled, in 32-bit arithmetic. */
  function Bidx(nodeOfs: nat): nat
    requires 0 < nodeOfs < WRAP
  {
    var indirectBlks := 2 * NIDS + 4;
    if nodeOfs <= 2 then nodeOfs - 1
    else if nodeOfs <= indirectBlks then Minus(Minus(nodeOfs, 2), Minus(nodeOfs, 4) / (NIDS + 1))
    else Minus(Minus(nodeOfs, 5), Minus(Minus(nodeOfs, indirectBlks), 3) / (NIDS + 1))
  }

  /** `start_bidx_of_node` */
  function StartBidx(nodeOfs: nat, perBlock: nat, perInode: nat): nat
    requires nodeOfs < WRAP
  {
    if nodeOfs == 0 then 0 else (Bidx(nodeOfs) * perBlock + perInode) % WRAP
  }

  lemma MinusIs(a: nat, b: nat)
    requires b <= a < WRAP
    ensures Minus(a, b) == a - b
  {
  }

  lemma NearBidx(d: nat)
    requires d < 2 + 2 * NIDS
    ensures 0 < Number(d) < WRAP && Bidx(Number(d)) == d
  {
    var k := Number(d);
    if 2 <= d {
      hide Minus;
      MinusIs(k, 2);
      MinusIs(k, 4);
      MinusIs(k - 2, (k - 4) / (NIDS + 1));
    }
  }

  lemma FarBidx(d: nat)
    requires 2 + 2 * NIDS <= d < DIRECTS
    ensures 0 < Number(d) < WRAP && Bidx(Number(d)) == d
  {
    hide Minus;
    var e := d - 2 - 2 * NIDS;
    var q, r := e / NIDS, e % NIDS;
    FarQuotient(q, r);
    var k := Number(d);
    assert k == 7 + 2 * NIDS + q * (NIDS + 1) + r;
    MinusIs(k, 5);
    MinusIs(k, 2 * NIDS + 4);
    MinusIs(k - (2 * NIDS + 4), 3);
    MinusIs(k - 5, q);
  }

  lemma FarQuotient(q: nat, r: nat)
    requires r <= NIDS
    ensures (q * (NIDS + 1) + r) / (NIDS + 1) == q && (q * (NIDS + 1) + r) % (NIDS + 1) == r
  {
  }

  /** The formula gives, for every direct node, the first file block of that node. */
  lemma StartOfDirect(d: nat, perBlock: nat, perInode: nat)
    requires d < DIRECTS && perBlock <= ADDRS && perInode <= ADDRS_INODE
    ensures 0 < Number(d) < WRAP && StartBidx(Number(d), perBlock, perInode) == First(d, perBlock, perInode)
  {
    hide Number, Bidx;
    if d < 2 + 2 * NIDS {
      NearBidx(d);
    } else {
      FarBidx(d);
    }
    Small(d, perBlock, perInode);
  }

  /** The addresses in the inode itself come first. */
  lemma StartOfInode(perBlock: nat, perInode: nat)
    ensures StartBidx(0, perBlock, perInode) == 0 && First(0, perBlock, perInode) == perInode
  {
  }

  lemma Small(d: nat, perBlock: nat, perInode: nat)
    requires d < DIRECTS && perBlock <= ADDRS && perInode <= ADDRS_INODE
    ensures First(d, perBlock, perInode) < WRAP
  {
    assert d * perBlock <= d * ADDRS;
  }

  // ----- the walk

  /** What a node block holds, by node id: addresses or ids of further nodes. */
  type Blocks = nat -> seq<nat>

  datatype NodeType = Direct | Indirect | DoubleIndirect

  /** The direct nodes below a node of each type. */
  function Span(t: NodeType): nat {
    match t
    case Direct => 1
    case Indirect => NIDS
    case DoubleIndirect => NIDS * NIDS
  }

  ghost predicate Sized(blocks: Blocks) {
    forall nid :: |blocks(nid)| == NIDS
  }

  /** The id in place `i` of a node; a missing node holds only missing nodes. */
  function Child(blocks: Blocks, nid: nat, i: nat): nat
    requires Sized(blocks) && i < NIDS
  {
    if nid == 0 then 0 else blocks(nid)[i]
  }

  /** The id of the `i`-th direct node below a node. */
  ghost function Below(blocks: Blocks, t: NodeType, nid: nat, i: nat): nat
    requires Sized(blocks) && i < Span(t)
  {
    match t
    case Direct => nid
    case Indirect => Child(blocks, nid, i)
    case DoubleIndirect => Child(blocks, Child(blocks, nid, i / NIDS), i % NIDS)
  }

  /** The id of an inode's `d`-th direct node. */
  ghost function NidOf(blocks: Blocks, inids: seq<nat>, d: nat): nat
    requires Sized(blocks) && |inids| == 5 && d < DIRECTS
  {
    if d < 2 then inids[d]
    else if d < 2 + NIDS then Below(blocks, Indirect, inids[2], d - 2)
    else if d < 2 + 2 * NIDS then Below(blocks, Indirect, inids[3], d - 2 - NIDS)
    else Below(blocks, DoubleIndirect, inids[4], d - 2 - 2 * NIDS)
  }

  /** File blocks and their addresses, from one direct node; none from a missing one. */
  ghost function Data(blocks: Blocks, nid: nat, first: nat, perBlock: nat): (s: seq<(nat, nat)>)
    requires Sized(blocks) && perBlock <= ADDRS
    ensures |s| == if nid == 0 then 0 else perBlock
  {
    if nid == 0 then [] else seq(perBlock, i requires 0 <= i < perBlock => (first + i, blocks(nid)[i]))
  }

  /** The same from the first `n` direct nodes below a node whose first one is the `d`-th of all. */
  ghost function Under(blocks: Blocks, t: NodeType, nid: nat, d: nat, n: nat, perBlock: nat, perInode: nat)
    : seq<(nat, nat)>
    requires Sized(blocks) && perBlock <= ADDRS && n <= Span(t)
  {
    if n == 0 then []
    else Under(blocks, t, nid, d, n - 1, perBlock, perInode)
         + Data(blocks, Below(blocks, t, nid, n - 1), First(d + n - 1, perBlock, perInode), perBlock)
  }

  lemma {:induction false} UnderNothing(blocks: Blocks, t: NodeType, d: nat, n: nat, perBlock: nat, perInode: nat)
    requires Sized(blocks) && perBlock <= ADDRS && n <= Span(t)
    ensures Under(blocks, t, 0, d, n, perBlock, perInode) == []
  {
    if n != 0 {
      UnderNothing(blocks, t, d, n - 1, perBlock, perInode);
    }
  }

  /** What is below one child of a doubly indirect node. */
  lemma {:induction false} UnderChild(blocks: Blocks, nid: nat, d: nat, i: nat, n: nat, perBlock: nat, perInode: nat)
    requires Sized(blocks) && perBlock <= ADDRS && i < NIDS && n <= NIDS
    ensures Under(blocks, DoubleIndirect, nid, d, i * NIDS + n, perBlock, perInode)
         == Under(blocks, DoubleIndirect, nid, d, i * NIDS, perBlock, perInode)
            + Under(blocks, Indirect, Child(blocks, nid, i), d + i * NIDS, n, perBlock, perInode)
  {
    hide Under, Data, First, Child;
    var c := Child(blocks, nid, i);
    if n == 0 {
      NothingUnder(blocks, Indirect, c, d + i * NIDS, perBlock, perInode);
    } else {
      UnderChild(blocks, nid, d, i, n - 1, perBlock, perInode);
      var x := i * NIDS + n - 1;
      assert x / NIDS == i && x % NIDS == n - 1;
      UnderStep(blocks, DoubleIndirect, nid, d, x, perBlock, perInode);
      UnderStep(blocks, Indirect, c, d + i * NIDS, n - 1, perBlock, perInode);
    }
  }

  lemma UnderStep(blocks: Blocks, t: NodeType, nid: nat, d: nat, n: nat, perBlock: nat, perInode: nat)
    requires Sized(blocks) && perBlock <= ADDRS && n < Span(t)
    ensures Under(blocks, t, nid, d, n + 1, perBlock, perInode)
         == Under(blocks, t, nid, d, n, perBlock, perInode)
            + Data(blocks, Below(blocks, t, nid, n), First(d + n, perBlock, perInode), perBlock)
  {
  }

  lemma FirstMoves(d: nat, n: nat, perBlock: nat, perInode: nat)
    ensures First(d + n, perBlock, perInode) == First(d, perBlock, perInode) + n * perBlock
  {
  }

  /** `dump_node_blk` for a direct node. */
  method DumpDirect(blocks: Blocks, nid: nat, perBlock: nat, start: nat) returns (ofs: nat, out: seq<(nat, nat)>)
    requires Sized(blocks) && perBlock <= ADDRS
    ensures ofs == start + perBlock && out == Data(blocks, nid, start, perBlock)
  {
    ofs, out := start, [];
    if nid == 0 {
      return start + perBlock, [];
    }
    var i := 0;
    while i < perBlock
      invariant 0 <= i <= perBlock && ofs == start + i && out == Data(blocks, nid, start, perBlock)[..i]
    {
      out := out + [(ofs, blocks(nid)[i])];
      ofs := ofs + 1;
      i := i + 1;
    }
  }

  /** `dump_node_blk` for an indirect node, whose first direct node is the `d`-th. */
  method DumpIndirect(blocks: Blocks, nid: nat, perBlock: nat, start: nat, ghost d: nat, ghost perInode: nat)
    returns (ofs: nat, out: seq<(nat, nat)>)
    requires Sized(blocks) && perBlock <= ADDRS && start == First(d, perBlock, perInode)
    ensures ofs == First(d + NIDS, perBlock, perInode)
    ensures out == Under(blocks, Indirect, nid, d, NIDS, perBlock, perInode)
  {
    hide First, Data;
    FirstMoves(d, NIDS, perBlock, perInode);
    if nid == 0 {
      UnderNothing(blocks, Indirect, d, NIDS, perBlock, perInode);
      return start + NIDS * perBlock, [];
    }
    ofs, out := start, [];
    var i := 0;
    while i < NIDS
      invariant 0 <= i <= NIDS && ofs == First(d + i, perBlock, perInode)
      invariant out == Under(blocks, Indirect, nid, d, i, perBlock, perInode)
    {
      FirstMoves(d + i, 1, perBlock, perInode);
      var more;
      ofs, more := DumpDirect(blocks, blocks(nid)[i], perBlock, ofs);
      out := out + more;
      i := i + 1;
    }
  }

  /** `dump_node_blk` for a doubly indirect node. */
  method DumpDouble(blocks: Blocks, nid: nat, perBlock: nat, start: nat, ghost d: nat, ghost perInode: nat)
    returns (ofs: nat, out: seq<(nat, nat)>)
    requires Sized(blocks) && perBlock <= ADDRS && start == First(d, perBlock, perInode)
    ensures ofs == if nid == 0 then start else First(d + NIDS * NIDS, perBlock, perInode)
    ensures out == Under(blocks, DoubleIndirect, nid, d, NIDS * NIDS, perBlock, perInode)
  {
    hide First, Data, Under;
    if nid == 0 {
      UnderNothing(blocks, DoubleIndirect, d, NIDS * NIDS, perBlock, perInode);
      return start, [];
    }
    ofs, out := start, [];
    NothingUnder(blocks, DoubleIndirect, nid, d, perBlock, perInode);
    var i := 0;
    while i < NIDS
      invariant 0 <= i <= NIDS && ofs == First(d + i * NIDS, perBlock, perInode)
      invariant out == Under(blocks, DoubleIndirect, nid, d, i * NIDS, perBlock, perInode)
    {
      UnderChild(blocks, nid, d, i, NIDS, perBlock, perInode);
      var more;
      ofs, more := DumpIndirect(blocks, blocks(nid)[i], perBlock, ofs, d + i * NIDS, perInode);
      out := out + more;
      i := i + 1;
    }
  }

  lemma NothingUnder(blocks: Blocks, t: NodeType, nid: nat, d: nat, perBlock: nat, perInode: nat)
    requires Sized(blocks) && perBlock <= ADDRS
    ensures Under(blocks, t, nid, d, 0, perBlock, perInode) == []
  {
  }

  /** The same from the first `n` direct nodes of an inode. */
  ghost function Mapped(blocks: Blocks, inids: seq<nat>, n: nat, perBlock: nat, perInode: nat): seq<(nat, nat)>
    requires Sized(blocks) && perBlock <= ADDRS && |inids| == 5 && n <= DIRECTS
  {
    if n == 0 then []
    else Mapped(blocks, inids, n - 1, perBlock, perInode)
         + Data(blocks, NidOf(blocks, inids, n - 1), First(n - 1, perBlock, perInode), perBlock)
  }

  /** Which node an inode's `d`-th direct node is below, and where. */
  ghost predicate Holds(blocks: Blocks, inids: seq<nat>, t: NodeType, nid: nat, d: nat)
    requires Sized(blocks) && |inids| == 5
  {
    d + Span(t) <= DIRECTS && forall i :: 0 <= i < Span(t) ==> NidOf(blocks, inids, d + i) == Below(blocks, t, nid, i)
  }

  lemma HoldsAll(blocks: Blocks, inids: seq<nat>)
    requires Sized(blocks) && |inids| == 5
    ensures Holds(blocks, inids, Direct, inids[0], 0) && Holds(blocks, inids, Direct, inids[1], 1)
    ensures Holds(blocks, inids, Indirect, inids[2], 2) && Holds(blocks, inids, Indirect, inids[3], 2 + NIDS)
    ensures Holds(blocks, inids, DoubleIndirect, inids[4], 2 + 2 * NIDS)
  {
    hide Child;
  }

  lemma {:induction false} MappedUnder(blocks: Blocks, inids: seq<nat>, t: NodeType, nid: nat, d: nat, n: nat,
                                       perBlock: nat, perInode: nat)
    requires Sized(blocks) && perBlock <= ADDRS && |inids| == 5 && Holds(blocks, inids, t, nid, d) && n <= Span(t)
    ensures Mapped(blocks, inids, d + n, perBlock, perInode)
         == Mapped(blocks, inids, d, perBlock, perInode) + Under(blocks, t, nid, d, n, perBlock, perInode)
  {
    hide Data, First, Child, NidOf, Below, Under, Mapped;
    if n == 0 {
      NothingUnder(blocks, t, nid, d, perBlock, perInode);
    } else {
      MappedUnder(blocks, inids, t, nid, d, n - 1, perBlock, perInode);
      UnderStep(blocks, t, nid, d, n - 1, perBlock, perInode);
      MappedStep(blocks, inids, d + n - 1, perBlock, perInode);
      assert NidOf(blocks, inids, d + (n - 1)) == Below(blocks, t, nid, n - 1);
    }
  }

  lemma MappedStep(blocks: Blocks, inids: seq<nat>, n: nat, perBlock: nat, perInode: nat)
    requires Sized(blocks) && perBlock <= ADDRS && |inids| == 5 && n < DIRECTS
    ensures Mapped(blocks, inids, n + 1, perBlock, perInode)
         == Mapped(blocks, inids, n, perBlock, perInode)
            + Data(blocks, NidOf(blocks, inids, n), First(n, perBlock, perInode), perBlock)
  {
  }

  /** `dump_inode_blk`: every address reached is dumped once, in order, at the file block it is for. */
  method DumpInode(blocks: Blocks, iaddrs: seq<nat>, inids: seq<nat>, perBlock: nat, perInode: nat)
    returns (out: seq<(nat, nat)>)
    requires Sized(blocks) && perBlock <= ADDRS && |inids| == 5 && perInode <= |iaddrs|
    ensures out == seq(perInode, i requires 0 <= i < perInode => (i, iaddrs[i])) +
              Mapped(blocks, inids, DIRECTS, perBlock, perInode)
  {
    hide Data, Child, NidOf, Below, Under, Mapped, Holds;
    var ofs := 0;
    out := [];
    ghost var head := seq(perInode, i requires 0 <= i < perInode => (i, iaddrs[i]));
    while ofs < perInode
      invariant 0 <= ofs <= perInode && out == head[..ofs]
    {
      out := out + [(ofs, iaddrs[ofs])];
      ofs := ofs + 1;
    }
    ghost var p, q := perBlock, perInode;
    HoldsAll(blocks, inids);
    var a, b, c, d, e;
    ofs, a := DumpDirect(blocks, inids[0], perBlock, ofs);
    ofs, b := DumpDirect(blocks, inids[1], perBlock, ofs);
    ofs, c := DumpIndirect(blocks, inids[2], perBlock, ofs, 2, perInode);
    ofs, d := DumpIndirect(blocks, inids[3], perBlock, ofs, 2 + NIDS, perInode);
    ofs, e := DumpDouble(blocks, inids[4], perBlock, ofs, 2 + 2 * NIDS, perInode);
    OneUnder(blocks, inids[0], 0, p, q);
    OneUnder(blocks, inids[1], 1, p, q);
    NoneMapped(blocks, inids, p, q);
    MappedUnder(blocks, inids, Direct, inids[0], 0, 1, p, q);
    MappedUnder(blocks, inids, Direct, inids[1], 1, 1, p, q);
    MappedUnder(blocks, inids, Indirect, inids[2], 2, NIDS, p, q);
    MappedUnder(blocks, inids, Indirect, inids[3], 2 + NIDS, NIDS, p, q);
    MappedUnder(blocks, inids, DoubleIndirect, inids[4], 2 + 2 * NIDS, NIDS * NIDS, p, q);
    out := out + (a + b + c + d + e);
  }

  lemma OneUnder(blocks: Blocks, nid: nat, d: nat, perBlock: nat, perInode: nat)
    requires Sized(blocks) && perBlock <= ADDRS
    ensures Under(blocks, Direct, nid, d, 1, perBlock, perInode) ==
              Data(blocks, nid, First(d, perBlock, perInode), perBlock)
  {
    UnderStep(blocks, Direct, nid, d, 0, perBlock, perInode);
  }

  lemma NoneMapped(blocks: Blocks, inids: seq<nat>, perBlock: nat, perInode: nat)
    requires Sized(blocks) && perBlock <= ADDRS && |inids| == 5
    ensures Mapped(blocks, inids, 0, perBlock, perInode) == []
  {
  }

  /** `x` is the `i`-th address of the `d`-th direct node, at the block `start_bidx_of_node` gives for that node. */
  ghost predicate Agrees(blocks: Blocks, inids: seq<nat>, perBlock: nat, perInode: nat, d: nat, i: nat, x: (nat, nat))
    requires Sized(blocks) && perBlock <= ADDRS && perInode <= ADDRS_INODE && |inids| == 5 && d < DIRECTS
  {
    StartOfDirect(d, perBlock, perInode);
    var nid := NidOf(blocks, inids, d);
    nid != 0 && i < perBlock && x == (StartBidx(Number(d), perBlock, perInode) + i, blocks(nid)[i])
  }

  /** The walk and the formula agree on every direct node, whatever nodes are missing before it. */
  lemma {:induction false} DumpAgrees(blocks: Blocks, inids: seq<nat>, perBlock: nat, perInode: nat, n: nat,
                                      x: (nat, nat))
    requires Sized(blocks) && perBlock <= ADDRS && perInode <= ADDRS_INODE && |inids| == 5 && n <= DIRECTS
    ensures x in Mapped(blocks, inids, n, perBlock, perInode) <==>
              exists d: nat, i: nat :: d < n && Agrees(blocks, inids, perBlock, perInode, d, i, x)
  {
    hide Data, Mapped, Agrees;
    if n == 0 {
      NoneMapped(blocks, inids, perBlock, perInode);
    } else {
      DumpAgrees(blocks, inids, perBlock, perInode, n - 1, x);
      MappedStep(blocks, inids, n - 1, perBlock, perInode);
      DataAgrees(blocks, inids, perBlock, perInode, n - 1, x);
    }
  }

  lemma DataAgrees(blocks: Blocks, inids: seq<nat>, perBlock: nat, perInode: nat, d: nat, x: (nat, nat))
    requires Sized(blocks) && perBlock <= ADDRS && perInode <= ADDRS_INODE && |inids| == 5 && d < DIRECTS
    ensures x in Data(blocks, NidOf(blocks, inids, d), First(d, perBlock, perInode), perBlock) <==>
              exists i: nat :: Agrees(blocks, inids, perBlock, perInode, d, i, x)
  {
    hide StartBidx, Number, First, NidOf;
    StartOfDirect(d, perBlock, perInode);
    var data := Data(blocks, NidOf(blocks, inids, d), First(d, perBlock, perInode), perBlock);
    if x in data {
      var i: nat :| i < |data| && data[i] == x;
      assert Agrees(blocks, inids, perBlock, perInode, d, i, x);
    }
    forall i: nat | Agrees(blocks, inids, perBlock, perInode, d, i, x)
      ensures x in data
    {
      assert data[i] == x;
    }
  }

  /** An address of the `d`-th direct node is dumped, at the `d`-th run of file blocks behind those of the inode. */
  lemma AddressDumped(blocks: Blocks, inids: seq<nat>, perBlock: nat, perInode: nat, d: nat, i: nat)
    requires Sized(blocks) && perBlock <= ADDRS && perInode <= ADDRS_INODE && |inids| == 5
    requires d < DIRECTS && i < perBlock && NidOf(blocks, inids, d) != 0
    ensures (perInode + d * perBlock + i, blocks(NidOf(blocks, inids, d))[i])
            in Mapped(blocks, inids, DIRECTS, perBlock, perInode)
  {
    hide Mapped, StartBidx, Number, NidOf;
    StartOfDirect(d, perBlock, perInode);
    var x := (perInode + d * perBlock + i, blocks(NidOf(blocks, inids, d))[i]);
    assert Agrees(blocks, inids, perBlock, perInode, d, i, x);
    DumpAgrees(blocks, inids, perBlock, perInode, DIRECTS, x);
  }

  /** The file blocks of the three levels: two direct nodes, two indirect nodes of 1018 direct ones each, and a doubly
      indirect node of 1018 indirect ones; ids and addresses are taken from the first to the last. */
  lemma DumpedAt(blocks: Blocks, inids: seq<nat>, perBlock: nat, perInode: nat, j: nat, k: nat, i: nat)
    requires Sized(blocks) && perBlock <= ADDRS && perInode <= ADDRS_INODE && |inids| == 5
    requires j < 1018 && k < 1018 && i < perBlock
    ensures var all := Mapped(blocks, inids, DIRECTS, perBlock, perInode);
            && (k < 2 && inids[k] != 0 ==> (perInode + k * perBlock + i, blocks(inids[k])[i]) in all)
            && (inids[2] != 0 && blocks(inids[2])[k] != 0 ==>
                  (perInode + (2 + k) * perBlock + i, blocks(blocks(inids[2])[k])[i]) in all)
            && (inids[3] != 0 && blocks(inids[3])[k] != 0 ==>
                  (perInode + (1020 + k) * perBlock + i, blocks(blocks(inids[3])[k])[i]) in all)
            && (inids[4] != 0 && blocks(inids[4])[j] != 0 && blocks(blocks(inids[4])[j])[k] != 0 ==>
                  (perInode + (2038 + 1018 * j + k) * perBlock + i, blocks(blocks(blocks(inids[4])[j])[k])[i]) in all)
  {
    hide Mapped;
    if k < 2 && inids[k] != 0 {
      AddressDumped(blocks, inids, perBlock, perInode, k, i);
    }
    if inids[2] != 0 && blocks(inids[2])[k] != 0 {
      AddressDumped(blocks, inids, perBlock, perInode, 2 + k, i);
    }
    if inids[3] != 0 && blocks(inids[3])[k] != 0 {
      AddressDumped(blocks, inids, perBlock, perInode, 1020 + k, i);
    }
    if inids[4] != 0 && blocks(inids[4])[j] != 0 && blocks(blocks(inids[4])[j])[k] != 0 {
      assert (1018 * j + k) / 1018 == j && (1018 * j + k) % 1018 == k;
      AddressDumped(blocks, inids, perBlock, perInode, 2038 + 1018 * j + k, i);
    }
  }

  /** The file blocks of `m` increase, from `lo` on and below `hi`. */
  ghost predicate InOrder(m: seq<(nat, nat)>, lo: nat, hi: nat) {
    && (forall a :: 0 <= a < |m| ==> lo <= m[a].0 < hi)
    && forall a, b :: 0 <= a < b < |m| ==> m[a].0 < m[b].0
  }

  lemma OrderJoined(m: seq<(nat, nat)>, data: seq<(nat, nat)>, lo: nat, mid: nat, hi: nat)
    requires InOrder(m, lo, mid) && InOrder(data, mid, hi) && lo <= mid <= hi
    ensures InOrder(m + data, lo, hi)
  {
  }

  lemma DataInOrder(blocks: Blocks, nid: nat, first: nat, perBlock: nat)
    requires Sized(blocks) && perBlock <= ADDRS
    ensures InOrder(Data(blocks, nid, first, perBlock), first, first + perBlock)
  {
  }

  /** Addresses are dumped in the order of their file blocks, and none twice. */
  lemma {:induction false} MappedInOrder(blocks: Blocks, inids: seq<nat>, n: nat, perBlock: nat, perInode: nat)
    requires Sized(blocks) && perBlock <= ADDRS && |inids| == 5 && n <= DIRECTS
    ensures InOrder(Mapped(blocks, inids, n, perBlock, perInode), perInode, First(n, perBlock, perInode))
  {
    hide NidOf, InOrder, Data, Mapped;
    if n == 0 {
      NoneMapped(blocks, inids, perBlock, perInode);
      NothingInOrder(perInode, First(0, perBlock, perInode));
    } else {
      MappedInOrder(blocks, inids, n - 1, perBlock, perInode);
      FirstMoves(n - 1, 1, perBlock, perInode);
      var first := First(n - 1, perBlock, perInode);
      DataInOrder(blocks, NidOf(blocks, inids, n - 1), first, perBlock);
      MappedStep(blocks, inids, n - 1, perBlock, perInode);
      OrderJoined(Mapped(blocks, inids, n - 1, perBlock, perInode),
                  Data(blocks, NidOf(blocks, inids, n - 1), first, perBlock), perInode, first, first + perBlock);
    }
  }

  lemma NothingInOrder(lo: nat, hi: nat)
    ensures InOrder([], lo, hi)
  {
  }
}
