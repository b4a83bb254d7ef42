/**
 The recursive bus walk: functions on a bus are appended to the output in inventory order,
 each bridge followed at once by the functions behind it, until the output is full.
 */
module EnumWalker {
  import opened Words

  const MAX_NODES: nat := 8

  type Byte = x: int | 0 <= x < 0x100
  type Word16 = x: int | 0 <= x < 0x1_0000
  type Word64 = x: int | 0 <= x < 0x1_0000_0000_0000_0000

  datatype Func = Func(
    vid: Word16, did: Word16,
    headerType: Byte, secondaryBus: Byte,
    bar: seq<Word>,
    windowBase: Word64,
    msi: bool, msix: bool)

  datatype Node = Node(bus: Byte, dev: Byte, fn: Byte, f: Func)

  /** A bridge that leads from its bus to a bus with a higher number. */
  predicate LeadsOn(node: Node) {
    And(node.f.headerType, 0x7f) == 1 && node.f.secondaryBus > node.bus
  }

  /** The multi-function digit, the highest of the header type, does not matter. */
  lemma LeadsOnExactly(node: Node)
    ensures LeadsOn(node) <==> node.f.headerType % 128 == 1 && node.f.secondaryBus > node.bus
  {
    Pow2Values();
    MaskIsMod(node.f.headerType, 7);
  }

  /** The depth-first preorder of the bus, from position i of the inventory on. */
  function Preorder(inventory: seq<Node>, bus: Byte, i: nat): seq<Node>
    requires i <= |inventory|
    decreases 0x100 - bus, |inventory| - i
  {
    if i == |inventory| then []
    else if inventory[i].bus != bus then Preorder(inventory, bus, i + 1)
    else [inventory[i]] + Behind(inventory, inventory[i]) + Preorder(inventory, bus, i + 1)
  }

  /** The functions behind a node. */
  function Behind(inventory: seq<Node>, node: Node): seq<Node>
    decreases 0x100 - node.bus, 0
  {
    if LeadsOn(node) then Preorder(inventory, node.f.secondaryBus, 0) else []
  }

  /** The output after appending what fits of the listed nodes; a full output stays as it is. */
  function Grow(content: seq<Node>, listed: seq<Node>): (grown: seq<Node>)
    ensures content <= grown
    ensures |content| >= 8 ==> grown == content
    ensures |content| < 8 ==>
      |grown| <= 8 && grown <= content + listed && (grown == content + listed || |grown| == 8)
  {
    if |content| >= MAX_NODES then content
    else if |content| + |listed| <= MAX_NODES then content + listed
    else (content + listed)[..MAX_NODES]
  }

  /** Appending in two goes is appending once. */
  lemma GrowTwice(content: seq<Node>, listed: seq<Node>, more: seq<Node>)
    ensures Grow(Grow(content, listed), more) == Grow(content, listed + more)
  {
    assert content + listed + more == content + (listed + more);
  }

  lemma PreorderNext(inventory: seq<Node>, bus: Byte, i: nat, done: seq<Node>, here: seq<Node>)
    requires i < |inventory| && Preorder(inventory, bus, 0) == done + Preorder(inventory, bus, i)
    requires here == if inventory[i].bus != bus then [] else [inventory[i]] + Behind(inventory, inventory[i])
    ensures Preorder(inventory, bus, 0) == done + here + Preorder(inventory, bus, i + 1)
  {
  }

  class Tree {
    const nodes: array<Node>
    var count: int

    constructor (nodes: array<Node>, count: int)
      ensures this.nodes == nodes && this.count == count
    {
      this.nodes := nodes;
      this.count := count;
    }
  }

  /** The nodes that are in the output. */
  function Content(nodes: seq<Node>, count: int): (content: seq<Node>) {
    if count < 0 then [] else if count > |nodes| then nodes else nodes[..count]
  }

  method Enumerate(inventory: seq<Node>, bus: Byte, out: Tree)
    requires out.nodes.Length >= 8
    modifies out, out.nodes
    ensures old(out.count) < 0 ==> out.count == old(out.count) && out.nodes[..] == old(out.nodes[..])
    ensures old(out.count) >= 0 ==>
      var content := old(Content(out.nodes[..], out.count));
      && Content(out.nodes[..], out.count) == Grow(content, Preorder(inventory, bus, 0))
      && out.count == old(out.count) + |Content(out.nodes[..], out.count)| - |content|
      && forall k | 0 <= k < out.nodes.Length && k >= out.count :: out.nodes[k] == old(out.nodes[k])
    decreases 0x100 - bus
  {
    if out.count < 0 { return; }
    ghost var start, content, done := out.count, Content(out.nodes[..], out.count), [];
    for i := 0 to |inventory|
      invariant Preorder(inventory, bus, 0) == done + Preorder(inventory, bus, i)
      invariant Content(out.nodes[..], out.count) == Grow(content, done)
      invariant out.count == start + |Grow(content, done)| - |content|
      invariant forall k | 0 <= k < out.nodes.Length && k >= out.count :: out.nodes[k] == old(out.nodes[k])
    {
      ghost var behind := Behind(inventory, inventory[i]);
      ghost var here := if inventory[i].bus != bus then [] else [inventory[i]] + behind;
      ghost var now := Content(out.nodes[..], out.count);
      PreorderNext(inventory, bus, i, done, here);
      GrowTwice(content, done, here);
      done := done + here;
      if inventory[i].bus != bus || out.count >= MAX_NODES { continue; }
      GrowTwice(now, [inventory[i]], behind);
      out.nodes[out.count] := inventory[i];
      out.count := out.count + 1;
      assert out.nodes[..out.count] == now + [inventory[i]];
      if And(inventory[i].f.headerType, 0x7f) == 1 && inventory[i].f.secondaryBus > bus {
        Enumerate(inventory, inventory[i].f.secondaryBus, out);
      }
    }
  }

  // ---------- what the preorder contains ----------

  /** A chain of bridges of the inventory leads from one bus to the other. */
  ghost predicate Reaches(inventory: seq<Node>, bus: Byte, target: Byte, path: seq<Node>)
    decreases |path|
  {
    if path == [] then target == bus
    else
      && path[0] in inventory && path[0].bus == bus
      && path[0].f.headerType % 128 == 1 && path[0].f.secondaryBus > bus
      && Reaches(inventory, path[0].f.secondaryBus, target, path[1..])
  }

  /** Bus numbers never fall below the bus the walk started from. */
  lemma {:induction false} BusesRise(inventory: seq<Node>, bus: Byte, i: nat)
    requires i <= |inventory|
    ensures forall x | x in Preorder(inventory, bus, i) :: x in inventory && x.bus >= bus
    decreases 0x100 - bus, |inventory| - i
  {
    if i < |inventory| {
      BusesRise(inventory, bus, i + 1);
      if inventory[i].bus == bus && LeadsOn(inventory[i]) {
        BusesRise(inventory, inventory[i].f.secondaryBus, 0);
      }
    }
  }

  /** Every listed function sits on a bus that bridges lead to. */
  lemma {:induction false} ListedIsReached(inventory: seq<Node>, bus: Byte, i: nat, x: Node)
    returns (path: seq<Node>)
    requires i <= |inventory| && x in Preorder(inventory, bus, i)
    ensures x in inventory && Reaches(inventory, bus, x.bus, path)
    decreases 0x100 - bus, |inventory| - i
  {
    path := [];
    if inventory[i].bus != bus || x in Preorder(inventory, bus, i + 1) {
      path := ListedIsReached(inventory, bus, i + 1, x);
    } else if x != inventory[i] {
      LeadsOnExactly(inventory[i]);
      var rest := ListedIsReached(inventory, inventory[i].f.secondaryBus, 0, x);
      path := [inventory[i]] + rest;
    }
  }

  lemma {:induction false} OnBusIsListed(inventory: seq<Node>, bus: Byte, i: nat, x: Node)
    requires i <= |inventory| && x.bus == bus && x in inventory[i..]
    ensures x in Preorder(inventory, bus, i)
    decreases |inventory| - i
  {
    if x != inventory[i] { OnBusIsListed(inventory, bus, i + 1, x); }
  }

  lemma {:induction false} BehindIsListed(inventory: seq<Node>, bus: Byte, i: nat, bridge: Node, x: Node)
    requires i <= |inventory| && bridge.bus == bus && bridge in inventory[i..]
    requires x in Behind(inventory, bridge)
    ensures x in Preorder(inventory, bus, i)
    decreases |inventory| - i
  {
    if bridge != inventory[i] { BehindIsListed(inventory, bus, i + 1, bridge, x); }
  }

  /** Every function on a bus that bridges lead to is listed. */
  lemma {:induction false} ReachedIsListed(inventory: seq<Node>, bus: Byte, path: seq<Node>, x: Node)
    requires x in inventory && Reaches(inventory, bus, x.bus, path)
    ensures x in Preorder(inventory, bus, 0)
    decreases |path|
  {
    if path == [] {
      OnBusIsListed(inventory, bus, 0, x);
    } else {
      LeadsOnExactly(path[0]);
      ReachedIsListed(inventory, path[0].f.secondaryBus, path[1..], x);
      BehindIsListed(inventory, bus, 0, path[0], x);
    }
  }

  ghost predicate Reachable(inventory: seq<Node>, bus: Byte, target: Byte) {
    exists path :: Reaches(inventory, bus, target, path)
  }

  /** The walk lists exactly the functions on the buses that bridges lead to. */
  lemma ListsExactlyReached(inventory: seq<Node>, bus: Byte, x: Node)
    ensures x in Preorder(inventory, bus, 0) <==> x in inventory && Reachable(inventory, bus, x.bus)
  {
    if x in Preorder(inventory, bus, 0) {
      var path := ListedIsReached(inventory, bus, 0, x);
      assert Reachable(inventory, bus, x.bus);
    } else if x in inventory && Reachable(inventory, bus, x.bus) {
      var path :| Reaches(inventory, bus, x.bus, path);
      ReachedIsListed(inventory, bus, path, x);
    }
  }

  // ---------- in which order the preorder lists ----------

  /** The listed functions of one bus. */
  function OnBus(list: seq<Node>, bus: Byte): seq<Node> {
    if list == [] then []
    else (if list[0].bus == bus then [list[0]] else []) + OnBus(list[1..], bus)
  }

  lemma OnBusFirst(node: Node, rest: seq<Node>, bus: Byte)
    ensures OnBus([node] + rest, bus) == (if node.bus == bus then [node] else []) + OnBus(rest, bus)
  {
    assert ([node] + rest)[1..] == rest;
  }

  lemma {:induction false} OnBusJoin(a: seq<Node>, b: seq<Node>, bus: Byte)
    ensures OnBus(a + b, bus) == OnBus(a, bus) + OnBus(b, bus)
  {
    if a == [] {
      assert a + b == b;
    } else {
      var node, rest := a[0], a[1..];
      OnBusJoin(rest, b, bus);
      OnBusFirst(node, rest + b, bus);
      assert a + b == [node] + (rest + b);
    }
  }

  lemma {:induction false} NoneOnBus(list: seq<Node>, bus: Byte)
    requires forall x | x in list :: x.bus != bus
    ensures OnBus(list, bus) == []
  {
    if list != [] { NoneOnBus(list[1..], bus); }
  }

  lemma BehindIsElsewhere(inventory: seq<Node>, node: Node)
    ensures OnBus(Behind(inventory, node), node.bus) == []
  {
    if LeadsOn(node) {
      BusesRise(inventory, node.f.secondaryBus, 0);
      NoneOnBus(Behind(inventory, node), node.bus);
    }
  }

  /** The functions of the bus itself are listed in the order of the inventory. */
  lemma {:induction false} BusInOrder(inventory: seq<Node>, bus: Byte, i: nat)
    requires i <= |inventory|
    ensures OnBus(Preorder(inventory, bus, i), bus) == OnBus(inventory[i..], bus)
    decreases |inventory| - i
  {
    if i < |inventory| {
      BusInOrder(inventory, bus, i + 1);
      assert inventory[i..][1..] == inventory[i + 1..];
      if inventory[i].bus == bus {
        var behind, rest := Behind(inventory, inventory[i]), Preorder(inventory, bus, i + 1);
        BehindIsElsewhere(inventory, inventory[i]);
        OnBusJoin([inventory[i]] + behind, rest, bus);
        OnBusJoin([inventory[i]], behind, bus);
      }
    }
  }

  lemma {:induction false} PreorderSplits(inventory: seq<Node>, bus: Byte, i: nat) returns (before: seq<Node>)
    requires i <= |inventory|
    ensures Preorder(inventory, bus, 0) == before + Preorder(inventory, bus, i)
    ensures OnBus(before, bus) == OnBus(inventory[..i], bus)
  {
    before := [];
    if i > 0 {
      var node := inventory[i - 1];
      var earlier := PreorderSplits(inventory, bus, i - 1);
      var here := if node.bus != bus then [] else [node] + Behind(inventory, node);
      PreorderNext(inventory, bus, i - 1, earlier, here);
      before := earlier + here;
      OnBusJoin(earlier, here, bus);
      assert inventory[..i] == inventory[..i - 1] + [node];
      OnBusJoin(inventory[..i - 1], [node], bus);
      if node.bus == bus {
        BehindIsElsewhere(inventory, node);
        OnBusJoin([node], Behind(inventory, node), bus);
      }
    }
  }

  /**
   A function is listed after those before it on its bus, at once followed by all that is
   behind it if it is a bridge to a higher bus, and then by those after it on its bus.
   */
  lemma ListedDepthFirst(inventory: seq<Node>, i: nat) returns (before: seq<Node>, behind: seq<Node>, after: seq<Node>)
    requires i < |inventory|
    ensures Preorder(inventory, inventory[i].bus, 0) == before + [inventory[i]] + behind + after
    ensures OnBus(before, inventory[i].bus) == OnBus(inventory[..i], inventory[i].bus)
    ensures OnBus(after, inventory[i].bus) == OnBus(inventory[i + 1..], inventory[i].bus)
    ensures behind == if inventory[i].f.headerType % 128 == 1 && inventory[i].f.secondaryBus > inventory[i].bus
      then Preorder(inventory, inventory[i].f.secondaryBus, 0) else []
  {
    var bus := inventory[i].bus;
    before := PreorderSplits(inventory, bus, i);
    behind, after := Behind(inventory, inventory[i]), Preorder(inventory, bus, i + 1);
    LeadsOnExactly(inventory[i]);
    BusInOrder(inventory, bus, i + 1);
  }

  // ---------- how often the preorder lists a function ----------

  /** The positions in the inventory of a chain of bridges from one bus to the other. */
  predicate IsChain(inventory: seq<Node>, bus: Byte, target: Byte, chain: seq<nat>)
    decreases |chain|
  {
    if chain == [] then bus == target
    else
      && chain[0] < |inventory| && inventory[chain[0]].bus == bus
      && inventory[chain[0]].f.headerType % 128 == 1 && inventory[chain[0]].f.secondaryBus > bus
      && IsChain(inventory, inventory[chain[0]].f.secondaryBus, target, chain[1..])
  }

  ghost function Prefixed(i: nat, chains: set<seq<nat>>): set<seq<nat>> {
    set c | c in chains :: [i] + c
  }

  lemma {:induction false} PrefixedCount(i: nat, chains: set<seq<nat>>)
    ensures |Prefixed(i, chains)| == |chains|
  {
    if chains != {} {
      var c :| c in chains;
      PrefixedCount(i, chains - {c});
      assert Prefixed(i, chains) == Prefixed(i, chains - {c}) + {[i] + c};
      assert [i] + c !in Prefixed(i, chains - {c}) by {
        forall d | d in chains - {c} ensures [i] + d != [i] + c {
          assert ([i] + d)[1..] == d && ([i] + c)[1..] == c;
        }
      }
    }
  }

  /** The chains whose first bridge is at position i or later. */
  ghost function ChainsFrom(inventory: seq<Node>, bus: Byte, target: Byte, i: nat): set<seq<nat>>
    requires i <= |inventory|
    decreases 0x100 - bus, |inventory| - i
  {
    if i == |inventory| then {}
    else ChainsFrom(inventory, bus, target, i + 1) +
         if inventory[i].bus == bus && LeadsOn(inventory[i])
         then Prefixed(i, Chains(inventory, inventory[i].f.secondaryBus, target)) else {}
  }

  ghost function Chains(inventory: seq<Node>, bus: Byte, target: Byte): set<seq<nat>>
    decreases 0x100 - bus, |inventory| + 1
  {
    ChainsFrom(inventory, bus, target, 0) + if bus == target then {[]} else {}
  }

  lemma {:induction false} ChainsFromExact(inventory: seq<Node>, bus: Byte, target: Byte, i: nat, chain: seq<nat>)
    requires i <= |inventory|
    ensures chain in ChainsFrom(inventory, bus, target, i) <==>
      chain != [] && chain[0] >= i && IsChain(inventory, bus, target, chain)
    decreases 0x100 - bus, |inventory| - i
  {
    if i < |inventory| {
      ChainsFromExact(inventory, bus, target, i + 1, chain);
      LeadsOnExactly(inventory[i]);
      if inventory[i].bus == bus && LeadsOn(inventory[i]) && chain != [] && chain[0] == i {
        ChainsExact(inventory, inventory[i].f.secondaryBus, target, chain[1..]);
        assert chain == [i] + chain[1..];
      }
    }
  }

  /** The set holds exactly the chains. */
  lemma {:induction false} ChainsExact(inventory: seq<Node>, bus: Byte, target: Byte, chain: seq<nat>)
    ensures chain in Chains(inventory, bus, target) <==> IsChain(inventory, bus, target, chain)
    decreases 0x100 - bus, |inventory| + 1
  {
    ChainsFromExact(inventory, bus, target, 0, chain);
  }

  lemma ChainsFromCount(inventory: seq<Node>, bus: Byte, target: Byte, i: nat)
    requires i < |inventory|
    ensures |ChainsFrom(inventory, bus, target, i)| == |ChainsFrom(inventory, bus, target, i + 1)| +
      if inventory[i].bus == bus && LeadsOn(inventory[i])
      then |Chains(inventory, inventory[i].f.secondaryBus, target)| else 0
  {
    if inventory[i].bus == bus && LeadsOn(inventory[i]) {
      var behind := Chains(inventory, inventory[i].f.secondaryBus, target);
      var later := ChainsFrom(inventory, bus, target, i + 1);
      PrefixedCount(i, behind);
      forall c | c in later ensures c !in Prefixed(i, behind) {
        ChainsFromExact(inventory, bus, target, i + 1, c);
      }
      assert later !! Prefixed(i, behind);
    }
  }

  ghost function Copies(list: seq<Node>, x: Node): nat { multiset(list)[x] }

  lemma CopiesAdd(a: seq<Node>, b: seq<Node>, x: Node)
    ensures Copies(a + b, x) == Copies(a, x) + Copies(b, x)
  {
  }

  lemma CopiesNext(list: seq<Node>, i: nat, x: Node)
    requires i < |list|
    ensures Copies(list[i..], x) == Copies(list[i + 1..], x) + if list[i] == x then 1 else 0
  {
    assert list[i..] == [list[i]] + list[i + 1..];
  }

  lemma Distributes(m: nat, a: nat, b: nat)
    ensures m * (a + b) == m * a + m * b
  {
  }

  lemma PreorderCopies(inventory: seq<Node>, bus: Byte, i: nat, x: Node)
    requires i < |inventory|
    ensures Copies(Preorder(inventory, bus, i), x) == Copies(Preorder(inventory, bus, i + 1), x) +
      if inventory[i].bus == bus
      then (if inventory[i] == x then 1 else 0) + Copies(Behind(inventory, inventory[i]), x) else 0
  {
    if inventory[i].bus == bus {
      var behind := Behind(inventory, inventory[i]);
      CopiesAdd([inventory[i]] + behind, Preorder(inventory, bus, i + 1), x);
      CopiesAdd([inventory[i]], behind, x);
    }
  }

  /** The copies of x among the functions of its bus, and one round of copies for each chain. */
  ghost function Expected(inventory: seq<Node>, bus: Byte, i: nat, x: Node): nat
    requires i <= |inventory|
  {
    (if x.bus == bus then Copies(inventory[i..], x) else 0) +
    Copies(inventory, x) * |ChainsFrom(inventory, bus, x.bus, i)|
  }

  /** The chains that start with the bridge at position i, if it is one that leads on from the bus. */
  ghost function ChainsVia(inventory: seq<Node>, bus: Byte, target: Byte, i: nat): nat
    requires i < |inventory|
  {
    if inventory[i].bus == bus && LeadsOn(inventory[i])
    then |Chains(inventory, inventory[i].f.secondaryBus, target)| else 0
  }

  lemma ExpectedNext(inventory: seq<Node>, bus: Byte, i: nat, x: Node)
    requires i < |inventory|
    ensures Expected(inventory, bus, i, x) == Expected(inventory, bus, i + 1, x) +
      (if x.bus == bus && inventory[i] == x then 1 else 0) +
      Copies(inventory, x) * ChainsVia(inventory, bus, x.bus, i)
  {
    var later, via := |ChainsFrom(inventory, bus, x.bus, i + 1)|, ChainsVia(inventory, bus, x.bus, i);
    assert |ChainsFrom(inventory, bus, x.bus, i)| == later + via by { ChainsFromCount(inventory, bus, x.bus, i); }
    CopiesNext(inventory, i, x);
    Distributes(Copies(inventory, x), later, via);
  }

  lemma {:induction false} ListedFrom(inventory: seq<Node>, bus: Byte, i: nat, x: Node)
    requires i <= |inventory|
    ensures Copies(Preorder(inventory, bus, i), x) == Expected(inventory, bus, i, x)
    decreases 0x100 - bus, |inventory| - i
  {
    if i < |inventory| {
      var behind := if inventory[i].bus == bus then Copies(Behind(inventory, inventory[i]), x) else 0;
      assert behind == Copies(inventory, x) * ChainsVia(inventory, bus, x.bus, i) by {
        if inventory[i].bus == bus && LeadsOn(inventory[i]) {
          ListedPerChain(inventory, inventory[i].f.secondaryBus, x);
        }
      }
      ListedFrom(inventory, bus, i + 1, x);
      PreorderCopies(inventory, bus, i, x);
      ExpectedNext(inventory, bus, i, x);
    }
  }

  lemma ExpectedFromStart(inventory: seq<Node>, bus: Byte, x: Node)
    ensures Expected(inventory, bus, 0, x) == Copies(inventory, x) * |Chains(inventory, bus, x.bus)|
  {
    var later := ChainsFrom(inventory, bus, x.bus, 0);
    ChainsFromExact(inventory, bus, x.bus, 0, []);
    assert inventory[0..] == inventory;
    if bus == x.bus {
      assert |later + {[]}| == |later| + 1;
      Distributes(Copies(inventory, x), |later|, 1);
    }
  }

  /** The walk lists a function once for every chain of bridge positions that leads to its bus. */
  lemma {:induction false} ListedPerChain(inventory: seq<Node>, bus: Byte, x: Node)
    ensures Copies(Preorder(inventory, bus, 0), x) == Copies(inventory, x) * |Chains(inventory, bus, x.bus)|
    decreases 0x100 - bus, |inventory| + 1
  {
    ListedFrom(inventory, bus, 0, x);
    ExpectedFromStart(inventory, bus, x);
  }

  // ---------- bridge windows ----------

  const MEGABYTE: nat := 0x10_0000
  const MAX_64: nat := 0xFFFF_FFFF_FFFF_FFFF

  lemma WindowConstants()
    ensures Pow2(20) == MEGABYTE && (Pow2(44) - 1) * Pow2(20) == MAX_64 - 0xfffff
  {
    Pow2Values();
    Pow2Adds(12, 32);
  }

  lemma WindowFits(memBase: Word64)
    requires memBase <= MAX_64 - 0xfffff
    ensures And(memBase + 0xfffff, MAX_64 - 0xfffff) <= MAX_64
  {
    WindowConstants();
    Pow2Values();
    Pow2Adds(32, 32);
    AndBound(memBase + 0xfffff, MAX_64 - 0xfffff, 64);
  }

  /** The base rounded up to a whole megabyte, by masking off the low 20 digits. */
  function WindowBase(memBase: Word64): Word64
    requires memBase <= MAX_64 - 0xfffff
  {
    WindowFits(memBase);
    And(memBase + 0xfffff, MAX_64 - 0xfffff)
  }

  /** A mask with k low zeros selects from the digits above. */
  lemma {:induction false} HighMask(x: nat, mask: nat, k: nat)
    ensures And(x, mask * Pow2(k)) == And(Shr(x, k), mask) * Pow2(k)
    decreases k
  {
    if k > 0 {
      HighMask(x / 2, mask, k - 1);
      MulDouble(mask, Pow2(k - 1));
      MulDouble(And(Shr(x, k), mask), Pow2(k - 1));
      AndEven(x, mask * Pow2(k - 1));
    }
  }

  lemma WindowBaseIsQuotient(memBase: Word64) returns (q: nat)
    requires memBase <= MAX_64 - 0xfffff
    ensures WindowBase(memBase) == q * MEGABYTE
    ensures q * MEGABYTE <= memBase + 0xfffff < q * MEGABYTE + MEGABYTE
  {
    WindowConstants();
    var r;
    q, r := DivMod(memBase + 0xfffff, MEGABYTE);
    ShrIsUnique(memBase + 0xfffff, 20, q, r);
    HighMask(memBase + 0xfffff, Pow2(44) - 1, 20);
    MaskIsMod(q, 44);
    QuotientUnique(q, Pow2(44), 0, q);
  }

  /** The window base is the least multiple of a megabyte that is not below the given base. */
  lemma WindowBaseIsLeast(memBase: Word64, base: nat)
    requires memBase <= 0xFFFF_FFFF_FFF0_0000
    ensures WindowBase(memBase) % 0x10_0000 == 0 && memBase <= WindowBase(memBase)
    ensures base % 0x10_0000 == 0 && memBase <= base ==> WindowBase(memBase) <= base
  {
    var q := WindowBaseIsQuotient(memBase);
    QuotientUnique(WindowBase(memBase), 0x10_0000, q, 0);
    var b, r := DivMod(base, 0x10_0000);
    assert memBase <= 0x10_0000 * b ==> q < b + 1;
  }

  /** A node in memory, with the one field the window programming writes. */
  class Bridge {
    var node: Node

    constructor (node: Node)
      ensures this.node == node
    {
      this.node := node;
    }

    method ProgramWindow(memBase: Word64)
      modifies this
      ensures node == if memBase > 0xFFFF_FFFF_FFF0_0000 then old(node)
        else old(node).(f := old(node).f.(windowBase := WindowBase(memBase)))
    {
      if memBase > MAX_64 - 0xfffff { return; }
      WindowFits(memBase);
      var base: Word64 := And(memBase + 0xfffff, MAX_64 - 0xfffff);
      node := node.(f := node.f.(windowBase := base));
    }
  }
}
