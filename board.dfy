/** The game board: the lattice of nodes, its tiles, the players' ledger and
    the per-tick protocol that harvests, ages, collects bids and auctions. */
module Board {
  import opened Types
  import opened Nodes
  import opened Tiles
  import opened Bidding

  /** The tile of the unit cell whose upper-left corner is (x, y). */
  function TileAt(grid: seq<seq<Node>>, x: int, y: int): Tile
    requires 0 <= x && x + 1 < |grid|
    requires 0 <= y && y + 1 < |grid[x]| && y + 1 < |grid[x + 1]|
  {
    Tile(grid[x][y], grid[x + 1][y], grid[x][y + 1], grid[x + 1][y + 1])
  }

  /** `m` lies within one step of `n`, diagonals included. */
  predicate Near(m: Node, n: Node)
  {
    -1 <= m.x - n.x <= 1 && -1 <= m.y - n.y <= 1
  }

  /** `Array(areaSet)`: the elements of a set, each once, in no fixed order. */
  method ToSequence(s: set<Node>) returns (area: seq<Node>)
    ensures forall m | m in area :: m in s
    ensures forall m | m in s :: m in area
    ensures Distinct(area)
  {
    area := [];
    var rest := s;
    while rest != {}
      invariant rest <= s
      invariant forall m | m in area :: m in s && m !in rest
      invariant forall m | m in s && m !in rest :: m in area
      invariant Distinct(area)
    {
      assert Arbitrary(rest) in rest;
      var m :| m in rest;
      area := area + [m];
      rest := rest - {m};
    }
  }

  /** The node columns built by `GameBoard.init`: column x holds the nodes
      (x, 0) .. (x, height), all new and unowned. */
  method MakeNodes(width: int, height: int) returns (grid: seq<seq<Node>>, ghost all: set<Node>)
    requires 0 <= width && 0 <= height
    ensures Lattice(grid, all, width, height)
    ensures fresh(all)
    ensures forall n | n in all :: n.State() == NodeState(None, 0)
  {
    grid := [];
    all := {};
    for x := 0 to width + 1
      invariant |grid| == x
      invariant forall i | 0 <= i < x :: |grid[i]| == height + 1
      invariant forall i, j | 0 <= i < x && 0 <= j <= height ::
                  grid[i][j] in all && grid[i][j].x == i && grid[i][j].y == j
      invariant forall n | n in all :: 0 <= n.x < x && 0 <= n.y <= height && grid[n.x][n.y] == n
      invariant forall n | n in all :: n.owner == None && n.leaseRemaining == 0
      invariant fresh(all)
    {
      var column: seq<Node> := [];
      for y := 0 to height + 1
        invariant |column| == y
        invariant forall i, j | 0 <= i < x && 0 <= j <= height :: grid[i][j] in all
        invariant forall j | 0 <= j < y :: column[j] in all && column[j].x == x && column[j].y == j
        invariant forall n | n in all ::
                    (0 <= n.x < x && 0 <= n.y <= height && grid[n.x][n.y] == n)
                    || (n.x == x && 0 <= n.y < y && column[n.y] == n)
        invariant forall n | n in all :: n.owner == None && n.leaseRemaining == 0
        invariant fresh(all)
      {
        var node := new Node(x, y);
        column := column + [node];
        all := all + {node};
      }
      grid := grid + [column];
      assert grid[x] == column;
    }
  }

  /** `grid` has `width + 1` columns of `height + 1` nodes each. */
  predicate Rectangular(grid: seq<seq<Node>>, width: int, height: int)
  {
    && 0 <= width && 0 <= height
    && |grid| == width + 1
    && forall x | 0 <= x <= width :: |grid[x]| == height + 1
  }

  /** `grid` is a (width + 1) x (height + 1) lattice whose node at [x][y] has
      coordinates (x, y), and `all` is the set of its nodes. */
  ghost predicate Lattice(grid: seq<seq<Node>>, all: set<Node>, width: int, height: int)
  {
    && Rectangular(grid, width, height)
    && (forall x, y | 0 <= x <= width && 0 <= y <= height ::
          grid[x][y] in all && grid[x][y].x == x && grid[x][y].y == y)
    && (forall n | n in all :: 0 <= n.x <= width && 0 <= n.y <= height && grid[n.x][n.y] == n)
  }

  /** The tiles of column `x`, top to bottom. */
  function ColumnTiles(grid: seq<seq<Node>>, width: int, height: int, x: int): (column: seq<Tile>)
    requires Rectangular(grid, width, height) && 0 <= x < width
    ensures |column| == height
    ensures forall y | 0 <= y < height :: column[y] == TileAt(grid, x, y)
  {
    seq(height, y requires 0 <= y < height => TileAt(grid, x, y))
  }

  /** The tiles of the first `x` columns, column after column. */
  function TilesBefore(grid: seq<seq<Node>>, width: int, height: int, x: int): seq<Tile>
    requires Rectangular(grid, width, height) && 0 <= x <= width
    decreases x
  {
    if x == 0 then [] else TilesBefore(grid, width, height, x - 1) + ColumnTiles(grid, width, height, x - 1)
  }

  lemma {:induction false} TilesBeforeLength(grid: seq<seq<Node>>, width: int, height: int, x: int)
    requires Rectangular(grid, width, height) && 0 <= x <= width
    ensures |TilesBefore(grid, width, height, x)| == x * height
  {
    if x > 0 {
      TilesBeforeLength(grid, width, height, x - 1);
      assert x * height == (x - 1) * height + height;
    }
  }

  /** The tile of the cell with upper-left corner (i, j) sits at index
      i * height + j. */
  lemma {:induction false} TileIndex(grid: seq<seq<Node>>, width: int, height: int, x: int, i: int, j: int)
    requires Rectangular(grid, width, height) && 0 <= x <= width
    requires 0 <= i < x && 0 <= j < height
    ensures i * height + j < |TilesBefore(grid, width, height, x)|
    ensures TilesBefore(grid, width, height, x)[i * height + j] == TileAt(grid, i, j)
  {
    var prefix := TilesBefore(grid, width, height, x - 1);
    var column := ColumnTiles(grid, width, height, x - 1);
    TilesBeforeLength(grid, width, height, x - 1);
    if i < x - 1 {
      TileIndex(grid, width, height, x - 1, i, j);
      assert (prefix + column)[i * height + j] == prefix[i * height + j];
    } else {
      assert (prefix + column)[i * height + j] == column[j];
    }
  }

  /** The tiles built by `GameBoard.init`: one per unit cell, column after
      column. */
  method MakeTiles(grid: seq<seq<Node>>, width: int, height: int) returns (tiles: seq<Tile>)
    requires Rectangular(grid, width, height)
    ensures tiles == TilesBefore(grid, width, height, width)
  {
    tiles := [];
    for x := 0 to width
      invariant tiles == TilesBefore(grid, width, height, x)
    {
      for y := 0 to height
        invariant tiles == TilesBefore(grid, width, height, x) + ColumnTiles(grid, width, height, x)[..y]
      {
        assert ColumnTiles(grid, width, height, x)[..y + 1] == ColumnTiles(grid, width, height, x)[..y] + [TileAt(grid, x, y)];
        tiles := tiles + [TileAt(grid, x, y)];
      }
    }
  }

  /** Every corner of every tile is a node of the lattice. */
  lemma {:induction false} TilesCornersIn(grid: seq<seq<Node>>, all: set<Node>, width: int, height: int, x: int)
    requires Lattice(grid, all, width, height) && 0 <= x <= width
    ensures forall t | t in TilesBefore(grid, width, height, x) :: t.ul in all && t.ur in all && t.bl in all && t.br in all
  {
    if x > 0 {
      TilesCornersIn(grid, all, width, height, x - 1);
    }
  }

  /** After `i` purchases at the tile value tried against `budget`, the next
      one is affordable exactly when the budget covers `i + 1` tile values. */
  lemma SpendingStep(budget: int, i: int)
    requires budget >= 0 && 0 <= i
    ensures var left := budget - TileValue * Min(i, budget / TileValue);
            && (left >= TileValue <==> TileValue * (i + 1) <= budget)
            && (left >= TileValue ==> left - TileValue == budget - TileValue * Min(i + 1, budget / TileValue))
            && (left < TileValue ==> left == budget - TileValue * Min(i + 1, budget / TileValue))
  {
  }

  class GameBoard {
    const width: int
    const height: int
    const playerCount: int

    /** `nodes[x][y]` is the node at (x, y), for 0 <= x <= width and
        0 <= y <= height. */
    const nodes: seq<seq<Node>>
    const tiles: seq<Tile>

    /** Every node of the lattice. */
    ghost const NodeSet: set<Node>

    var bank: map<int, int>
    var realEstate: map<int, set<Node>>

    /** The lattice is (width + 1) x (height + 1) and each node sits at its own
        coordinates, so a node is identified by its coordinates. */
    ghost predicate GridShape()
    {
      Lattice(nodes, NodeSet, width, height)
    }

    ghost predicate TilesInGrid()
    {
      forall t | t in tiles :: t.ul in NodeSet && t.ur in NodeSet && t.bl in NodeSet && t.br in NodeSet
    }

    /** The board invariant: the ledger has an entry for every player, balances
        are never negative, every node's lease is consistent, and a player's
        holding set is exactly the set of nodes that name it as owner. */
    ghost predicate Valid()
      reads this, NodeSet
    {
      && GridShape()
      && TilesInGrid()
      && 0 <= playerCount
      && (forall p :: p in bank <==> 0 <= p < playerCount)
      && (forall p :: p in realEstate <==> 0 <= p < playerCount)
      && (forall p | p in bank :: bank[p] >= 0)
      && (forall n | n in NodeSet :: LeaseConsistent(n.State()))
      && (forall n | n in NodeSet && n.owner.Some? :: 0 <= n.owner.value < playerCount)
      && (forall p | p in realEstate :: realEstate[p] <= NodeSet)
      && (forall p, n | p in realEstate && n in NodeSet :: n in realEstate[p] <==> n.owner == Some(p))
    }

    /** On the lattice, nodes with the same coordinates are the same node, so
        the board's maps and sets, keyed by node, are keyed by coordinates. */
    lemma SameNodeIsIdentity(a: Node, b: Node)
      requires GridShape() && a in NodeSet && b in NodeSet
      ensures SameNode(a, b) <==> a == b
    {
    }

    /** No node is in two players' holdings. */
    lemma HoldingsDisjoint(p: int, q: int)
      requires Valid() && 0 <= p < playerCount && 0 <= q < playerCount && p != q
      ensures realEstate[p] !! realEstate[q]
    {
      forall n | n in realEstate[p]
        ensures n !in realEstate[q]
      {
        assert n.owner == Some(p);
      }
    }

    /** `GameBoard.purchase`: sells an unowned node to a player who can pay. */
    method Purchase(node: Node, player: int, value: int) returns (ok: bool)
      requires Valid() && node in NodeSet && 0 <= player < playerCount
      modifies this, node
      ensures Valid()
      ensures ok <==> old(node.owner) == None && old(bank[player]) >= value
      ensures ok ==> && bank == old(bank)[player := old(bank[player]) - value]
                     && realEstate == old(realEstate)[player := old(realEstate[player]) + {node}]
                     && node.State() == NodeState(Some(player), LeaseLength)
      ensures !ok ==> bank == old(bank) && realEstate == old(realEstate) && node.State() == old(node.State())
    {
      if node.IsOwned() {
        return false;
      }
      var availableWealth := bank[player];
      if availableWealth < value {
        return false;
      }
      bank := bank[player := availableWealth - value];
      realEstate := realEstate[player := realEstate[player] + {node}];
      node.Purchase(player);
      return true;
    }

    /** The plus-shaped start region centred on (x, y). */
    function PlusShape(x: int, y: int): (shape: seq<Node>)
      requires GridShape() && 1 <= x < width && 1 <= y < height
      ensures |shape| == 5 && forall n | n in shape :: n in NodeSet
    {
      [nodes[x][y - 1], nodes[x - 1][y], nodes[x][y], nodes[x + 1][y], nodes[x][y + 1]]
    }

    /** One candidate of `startPlayers`: if the plus shape at (x, y) is free,
        buy its five nodes for `player` one by one at the tile value. */
    method PlaceAt(player: int, x: int, y: int) returns (placed: bool)
      requires Valid() && 0 <= player < playerCount
      requires 1 <= x < width && 1 <= y < height
      modifies this, NodeSet
      ensures Valid()
      ensures placed <==> forall i | 0 <= i < 5 :: old(PlusShape(x, y)[i].owner) == None
      ensures forall p | p in bank && p != player :: bank[p] == old(bank[p])
      ensures forall n | n in NodeSet && n !in PlusShape(x, y) :: n.State() == old(n.State())
      ensures !placed ==> bank == old(bank) && forall n | n in NodeSet :: n.State() == old(n.State())
      ensures placed ==> bank[player] == old(bank[player]) - TileValue * Min(5, old(bank[player]) / TileValue)
      ensures placed ==> forall i | 0 <= i < 5 ::
                PlusShape(x, y)[i].State()
                == if TileValue * (i + 1) <= old(bank[player]) then NodeState(Some(player), LeaseLength)
                   else NodeState(None, 0)
      ensures placed && old(bank[player]) == StartingWealth ==>
                bank[player] == 0 && forall i | 0 <= i < 5 :: PlusShape(x, y)[i].owner == Some(player)
    {
      var startNodes := PlusShape(x, y);
      assert forall i, j | 0 <= i < j < 5 :: startNodes[i].x != startNodes[j].x || startNodes[i].y != startNodes[j].y;
      placed := forall i | 0 <= i < 5 :: !startNodes[i].IsOwned();
      if !placed {
        return;
      }
      BuyEach(startNodes, player);
    }

    /** The purchase loop of a successful placement: each node of `startNodes`
        is bought in turn at the tile value, as long as the player can pay. */
    method BuyEach(startNodes: seq<Node>, player: int)
      requires Valid() && 0 <= player < playerCount
      requires forall n | n in startNodes :: n in NodeSet && n.owner == None
      requires forall i, j | 0 <= i < j < |startNodes| :: startNodes[i] != startNodes[j]
      modifies this, NodeSet
      ensures Valid()
      ensures bank == old(bank)[player := old(bank[player]) - TileValue * Min(|startNodes|, old(bank[player]) / TileValue)]
      ensures forall j | 0 <= j < |startNodes| ::
                startNodes[j].State()
                == if TileValue * (j + 1) <= old(bank[player]) then NodeState(Some(player), LeaseLength)
                   else NodeState(None, 0)
      ensures forall n | n in NodeSet && n !in startNodes :: n.State() == old(n.State())
    {
      ghost var budget := old(bank[player]);
      ghost var balances := old(bank);
      for i := 0 to |startNodes|
        modifies this, startNodes
        invariant Buying(startNodes, player, budget, balances, i)
      {
        BuyNext(startNodes, player, budget, balances, i);
      }
    }

    /** The purchase loop part-way: the first `i` nodes are bought while
        `budget` lasts, the rest are still unowned, and only the player's
        balance has moved from `balances`. */
    ghost predicate Buying(startNodes: seq<Node>, player: int, budget: int, balances: map<int, int>, i: int)
      reads this, NodeSet
    {
      && Valid() && 0 <= player < playerCount && 0 <= i <= |startNodes| && budget >= 0
      && (forall n | n in startNodes :: n in NodeSet)
      && (forall i, j | 0 <= i < j < |startNodes| :: startNodes[i] != startNodes[j])
      && bank == balances[player := budget - TileValue * Min(i, budget / TileValue)]
      && (forall j | 0 <= j < i ::
            startNodes[j].State()
            == if TileValue * (j + 1) <= budget then NodeState(Some(player), LeaseLength)
               else NodeState(None, 0))
      && (forall j | i <= j < |startNodes| :: startNodes[j].owner == None)
    }

    /** One round of the purchase loop: node `i` is bought if the player can
        still pay the tile value. */
    method BuyNext(startNodes: seq<Node>, player: int, ghost budget: int, ghost balances: map<int, int>, i: int)
      requires Buying(startNodes, player, budget, balances, i) && i < |startNodes|
      modifies this, startNodes[i]
      ensures Buying(startNodes, player, budget, balances, i + 1)
    {
      SpendingStep(budget, i);
      var _ := Purchase(startNodes[i], player, TileValue);
    }

    // -------------------------------------------------------------------------
    // Harvest

    /** What the first `k` tiles pay player `p` in one harvest. */
    ghost function Harvested(k: int, p: int): (total: int)
      requires TilesInGrid() && 0 <= k <= |tiles|
      reads NodeSet
      ensures total >= 0
      decreases k
    {
      if k == 0 then 0 else Harvested(k - 1, p) + TileGain(tiles[k - 1].Owners(), p)
    }

    /** `GameBoard.harvest`: every player's income from all tiles this tick. */
    method Harvest() returns (scores: map<int, int>)
      requires Valid()
      ensures forall p :: p in scores <==> 0 <= p < playerCount
      ensures forall p | p in scores :: scores[p] == Harvested(|tiles|, p)
    {
      scores := map[];
      for i := 0 to playerCount
        invariant forall p :: p in scores <==> 0 <= p < i
        invariant forall p | p in scores :: scores[p] == 0
      {
        scores := scores[i := 0];
      }
      for k := 0 to |tiles|
        invariant forall p :: p in scores <==> 0 <= p < playerCount
        invariant forall p | p in scores :: scores[p] == Harvested(k, p)
      {
        var score := tiles[k].Score();
        HarvestStep(k, score, scores);
        if score.Some? {
          var (p, s) := score.value;
          scores := scores[p := s + scores[p]];
        }
      }
    }

    /** What one tile's score adds to the running harvest. */
    lemma HarvestStep(k: int, score: Option<(int, int)>, scores: map<int, int>)
      requires Valid() && 0 <= k < |tiles|
      requires forall p :: p in scores <==> 0 <= p < playerCount
      requires forall p | p in scores :: scores[p] == Harvested(k, p)
      requires score.Some? ==> score.value.1 == TileGain(tiles[k].Owners(), score.value.0)
                               && Some(score.value.0) in tiles[k].Owners()
      requires forall q :: (score.None? || q != score.value.0) ==> TileGain(tiles[k].Owners(), q) == 0
      ensures score.Some? ==> score.value.0 in scores
      ensures forall p | p in scores ::
                Harvested(k + 1, p) == scores[p] + if score.Some? && p == score.value.0 then score.value.1 else 0
    {
      assert tiles[k] in tiles;
    }

    /** The crediting step of `update`: each balance grows by its gain. */
    method CreditGains(gains: map<int, int>)
      requires Valid()
      requires forall p | 0 <= p < playerCount :: p in gains && gains[p] >= 0
      modifies this
      ensures Valid()
      ensures forall p | p in bank :: bank[p] == old(bank[p]) + gains[p]
      ensures realEstate == old(realEstate)
    {
      for i := 0 to playerCount
        invariant Valid() && realEstate == old(realEstate)
        invariant forall p | 0 <= p < i :: bank[p] == old(bank[p]) + gains[p]
        invariant forall p | i <= p < playerCount :: bank[p] == old(bank[p])
      {
        var currentWealth := bank[i];
        bank := bank[i := currentWealth + gains[i]];
      }
    }

    // -------------------------------------------------------------------------
    // Aging

    /** The aging step of `update`: every node ages by one tick, and a node
        whose lease is about to run out leaves its owner's holding set first. */
    method AgeNodes()
      requires Valid()
      modifies this, NodeSet
      ensures Valid()
      ensures bank == old(bank)
      ensures forall n | n in NodeSet :: n.State() == Aged(old(n.State()))
    {
      for x := 0 to width + 1
        invariant Valid() && bank == old(bank)
        invariant forall n | n in NodeSet ::
                    n.State() == if n.x < x then Aged(old(n.State())) else old(n.State())
      {
        for y := 0 to height + 1
          invariant Valid() && bank == old(bank)
          invariant forall n | n in NodeSet ::
                      n.State() == if n.x < x || (n.x == x && n.y < y) then Aged(old(n.State())) else old(n.State())
        {
          AgeNode(nodes[x][y]);
        }
      }
    }

    /** One node's turn of the aging step: a node whose lease is about to run
        out leaves its owner's holding set, then the node ages. */
    method AgeNode(node: Node)
      requires Valid() && node in NodeSet
      modifies this, node
      ensures Valid() && bank == old(bank)
      ensures node.State() == Aged(old(node.State()))
    {
      if node.owner.Some? {
        var owner := node.owner.value;
        if node.leaseRemaining <= 1 {
          realEstate := realEstate[owner := realEstate[owner] - {node}];
        }
      }
      node.Age();
    }

    // -------------------------------------------------------------------------
    // Visibility

    /** The nodes a player can see: every node of the lattice within one step,
        diagonals included, of a node the player holds. */
    ghost function Neighbourhood(p: int): set<Node>
      requires p in realEstate
      reads this
    {
      Around(realEstate[p])
    }

    /** The lattice nodes within one step of some node of `s`. */
    ghost function Around(s: set<Node>): set<Node>
    {
      set m | m in NodeSet && exists n | n in s :: Near(m, n)
    }

    /** A set of lattice nodes is within its own neighbourhood. */
    lemma HoldingsAreAround(s: set<Node>)
      requires s <= NodeSet
      ensures s <= Around(s)
    {
      forall n | n in s
        ensures n in Around(s)
      {
        assert Near(n, n);
      }
    }

    lemma AroundGrows(s: set<Node>, node: Node)
      ensures Around(s + {node}) == Around(s) + (set m | m in NodeSet && Near(m, node))
    {
      forall m | m in Around(s + {node})
        ensures m in Around(s) || Near(m, node)
      {
        var n :| n in s + {node} && Near(m, n);
        if n != node {
          assert n in s;
        }
      }
      forall m | m in NodeSet && Near(m, node)
        ensures m in Around(s + {node})
      {
        assert node in s + {node};
      }
    }

    /** `GameBoard.visibleRealEstate`: the player's holdings and their
        neighbours clamped to the lattice, each once, in no fixed order. */
    method VisibleRealEstate(player: int) returns (area: seq<Node>)
      requires GridShape() && player in realEstate && realEstate[player] <= NodeSet
      ensures forall m | m in area :: m in Neighbourhood(player)
      ensures forall m | m in Neighbourhood(player) :: m in area
      ensures Distinct(area)
      ensures forall n | n in realEstate[player] :: n in area
    {
      var areaSet: set<Node> := {};
      var todo := realEstate[player];
      ghost var done: set<Node> := {};
      while todo != {}
        invariant todo + done == realEstate[player]
        invariant areaSet == Around(done)
      {
        assert Arbitrary(todo) in todo;
        var node :| node in todo;
        areaSet := AddNeighbours(areaSet, node);
        AroundGrows(done, node);
        todo := todo - {node};
        done := done + {node};
      }

      assert done == realEstate[player];
      HoldingsAreAround(done);
      area := ToSequence(areaSet);
    }

    /** The inner loops of `visibleRealEstate`: adds the nodes of the 3x3 box
        around `node`, clamped to the lattice. */
    method AddNeighbours(areaSet: set<Node>, node: Node) returns (r: set<Node>)
      requires GridShape() && areaSet <= NodeSet && node in NodeSet
      ensures r == areaSet + (set m | m in NodeSet && Near(m, node))
    {
      r := areaSet;
      var xMin := Max(node.x - 1, 0);
      var xMax := Min(node.x + 1, width);
      var yMin := Max(node.y - 1, 0);
      var yMax := Min(node.y + 1, height);
      for x := xMin to xMax + 1
        invariant r <= NodeSet
        invariant forall m | m in NodeSet ::
                    m in r <==> m in areaSet || (xMin <= m.x < x && yMin <= m.y <= yMax)
      {
        for y := yMin to yMax + 1
          invariant r <= NodeSet
          invariant forall m | m in NodeSet ::
                      m in r <==> m in areaSet || (xMin <= m.x < x && yMin <= m.y <= yMax)
                                  || (m.x == x && yMin <= m.y < y)
        {
          r := r + {nodes[x][y]};
        }
      }
      assert forall m | m in NodeSet :: m in r <==> m in areaSet || Near(m, node);
    }

    // -------------------------------------------------------------------------
    // Bids

    /** The unowned nodes player `p` can see. */
    ghost function FreeInView(p: int): set<Node>
      requires p in realEstate
      reads this, NodeSet
    {
      set n | n in Neighbourhood(p) && n.owner == None
    }

    /** How many nodes the default rule has player `p` bid on: one per unowned
        node it sees, as far as its balance pays in whole tile values. */
    ghost function BidCount(p: int): int
      requires p in realEstate && p in bank
      reads this, NodeSet
    {
      Min(|FreeInView(p)|, Max(0, bank[p] / TileValue))
    }

    /** Bids that every winner can pay: each node bid on is an unowned lattice
        node, every bid is one tile value from a player, latest player first,
        and no player has bid on more nodes than its balance pays for. */
    ghost predicate Funded(bids: map<Node, seq<(int, int)>>)
      reads this, NodeSet
    {
      && BidsFrom(bids, playerCount)
      && (forall n | n in bids :: n in NodeSet && n.owner == None)
      && (forall p | 0 <= p < playerCount :: p in bank && TileValue * |NodesBidBy(bids, bids.Keys, p)| <= bank[p])
    }

    /** Bidding by the default rule on what player `p` sees names unowned
        nodes it sees, as many as `BidCount(p)`. */
    lemma BidsInView(p: int, area: seq<Node>)
      requires p in realEstate && p in bank
      requires forall m | m in area :: m in Neighbourhood(p)
      requires forall m | m in Neighbourhood(p) :: m in area
      requires Distinct(area) && bank[p] >= 0
      ensures BidNodes(DefaultBids(area, bank[p])) <= FreeInView(p)
      ensures |BidNodes(DefaultBids(area, bank[p]))| == BidCount(p)
      ensures TileValue * BidCount(p) <= bank[p]
    {
      DefaultBidNodes(area, bank[p]);
      assert (set n | n in area && n.owner == None) == FreeInView(p);
    }

    /** The bid collection of `update`: in player order, each player bids with
        the default rule on what it sees, with its whole balance as budget. */
    method CollectBids() returns (bids: map<Node, seq<(int, int)>>)
      requires Valid()
      ensures Funded(bids) && CollectedBefore(bids, playerCount)
      ensures forall p | 0 <= p < playerCount ::
                NodesBidBy(bids, bids.Keys, p) <= FreeInView(p) && |NodesBidBy(bids, bids.Keys, p)| == BidCount(p)
    {
      bids := map[];
      for p := 0 to playerCount
        invariant CollectedBefore(bids, p)
        invariant forall n | n in bids :: n in NodeSet && n.owner == None
        invariant forall q | 0 <= q < p ::
                    NodesBidBy(bids, bids.Keys, q) <= FreeInView(q) && |NodesBidBy(bids, bids.Keys, q)| == BidCount(q)
      {
        bids := BidTurn(bids, p);
      }
      CountsFunded(bids);
    }

    /** Bids in which every player bid on as many nodes as `BidCount` says
        are funded: `BidCount` never exceeds what a balance pays for. */
    lemma CountsFunded(bids: map<Node, seq<(int, int)>>)
      requires Valid() && BidsFrom(bids, playerCount)
      requires forall n | n in bids :: n in NodeSet && n.owner == None
      requires forall q | 0 <= q < playerCount :: |NodesBidBy(bids, bids.Keys, q)| == BidCount(q)
      ensures Funded(bids)
    {
      forall q | 0 <= q < playerCount
        ensures TileValue * BidCount(q) <= bank[q]
      {
        var k := bank[q] / TileValue;
        assert TileValue * k <= bank[q];
      }
    }

    /** Player `p`'s turn of the bid collection: it bids on unowned nodes it
        sees, no more of them than its balance pays for, and the nodes other
        players bid on stay as they were. */
    method BidTurn(bids: map<Node, seq<(int, int)>>, p: int) returns (after: map<Node, seq<(int, int)>>)
      requires Valid() && 0 <= p < playerCount
      requires CollectedBefore(bids, p)
      requires forall n | n in bids :: n in NodeSet && n.owner == None
      ensures CollectedBefore(after, p + 1)
      ensures forall n | n in after :: n in NodeSet && n.owner == None
      ensures NodesBidBy(after, after.Keys, p) <= FreeInView(p)
      ensures |NodesBidBy(after, after.Keys, p)| == BidCount(p)
      ensures TileValue * |NodesBidBy(after, after.Keys, p)| <= bank[p]
      ensures forall q | q != p :: NodesBidBy(after, after.Keys, q) == NodesBidBy(bids, bids.Keys, q)
    {
      var area := VisibleRealEstate(p);
      var playerBids := MakeBids(area, bank[p]);
      after := RecordBids(bids, p, playerBids);
      BidsInView(p, area);
      TurnKeepsShape(bids, p, playerBids, after);
      TurnGivesPlayerItsNodes(bids, p, playerBids, after);
      forall q | q != p
        ensures NodesBidBy(after, after.Keys, q) == NodesBidBy(bids, bids.Keys, q)
      {
        TurnLeavesOthers(bids, p, playerBids, after, q);
      }
    }

    /** The award loop of `update`: every node bid on, in no fixed order, is
        offered to its winning bid at that bid's amount. A node already owned,
        or a winner who cannot pay, leaves the node as it was, and balances
        only fall, so such a winner still cannot pay at the end. The ghost
        result `bought` is the set of nodes sold. */
    method ResolveBids(bids: map<Node, seq<(int, int)>>) returns (ghost bought: set<Node>)
      requires Valid()
      requires BidsFrom(bids, playerCount) && bids.Keys <= NodeSet
      modifies this, NodeSet
      ensures Valid()
      ensures bought <= bids.Keys
      ensures forall n | n in bought ::
                old(n.owner) == None && n.State() == NodeState(Some(Winner(bids[n]).0), LeaseLength)
      ensures forall n | n in NodeSet && n !in bought :: n.State() == old(n.State())
      ensures forall p | p in bank :: bank[p] == old(bank[p]) - TileValue * |NodesWonBy(bids, bought, p)|
      ensures old(Funded(bids)) ==> bought == bids.Keys
      ensures forall n | n in bids && n !in bought ::
                old(n.owner).Some? || (Winner(bids[n]).0 in bank && bank[Winner(bids[n]).0] < Winner(bids[n]).1)
    {
      ghost var states := map n | n in bids :: n.State();
      ghost var funded := Funded(bids);
      bought := OfferAll(bids, states, bank, funded);
    }

    lemma StartAwarding(bids: map<Node, seq<(int, int)>>, states: map<Node, NodeState>, funded: bool)
      requires Valid() && BidsFrom(bids, playerCount) && bids.Keys <= NodeSet
      requires forall n | n in bids :: n in states && states[n] == n.State()
      requires funded ==> Funded(bids)
      ensures Awarding(bids, bids.Keys, {}, {}, states, bank, funded)
    {
      PaidOpen(bids, bank);
    }

    lemma FinishAwarding(bids: map<Node, seq<(int, int)>>, bought: set<Node>, states: map<Node, NodeState>,
                         balances: map<int, int>, funded: bool)
      requires Awarding(bids, {}, bids.Keys, bought, states, balances, funded)
      ensures Valid() && bought <= bids.Keys
      ensures forall n | n in bought ::
                states[n].owner == None && n.State() == NodeState(Some(Winner(bids[n]).0), LeaseLength)
      ensures forall n | n in bids && n !in bought :: n.State() == states[n]
      ensures forall p | p in bank :: bank[p] == balances[p] - TileValue * |NodesWonBy(bids, bought, p)|
      ensures funded ==> bought == bids.Keys
    {
    }

    /** The loop of the award step: offers every node bid on, in no fixed
        order, to its winning bid, and collects the nodes sold. */
    method OfferAll(bids: map<Node, seq<(int, int)>>, ghost states: map<Node, NodeState>,
                    ghost balances: map<int, int>, ghost funded: bool) returns (ghost bought: set<Node>)
      requires Valid() && BidsFrom(bids, playerCount) && bids.Keys <= NodeSet
      requires forall n | n in bids :: n in states && states[n] == n.State()
      requires balances == bank && (funded ==> Funded(bids))
      modifies this, bids.Keys
      ensures Valid() && bought <= bids.Keys
      ensures forall n | n in bought ::
                states[n].owner == None && n.State() == NodeState(Some(Winner(bids[n]).0), LeaseLength)
      ensures forall n | n in bids && n !in bought :: n.State() == states[n]
      ensures forall p | p in bank :: bank[p] == balances[p] - TileValue * |NodesWonBy(bids, bought, p)|
      ensures funded ==> bought == bids.Keys
      ensures Refused(bids, bids.Keys, bought, states, bank)
    {
      StartAwarding(bids, states, funded);
      var todo := bids.Keys;
      ghost var done: set<Node> := {};
      bought := {};
      while todo != {}
        invariant Awarding(bids, todo, done, bought, states, balances, funded)
        invariant Refused(bids, done, bought, states, bank)
      {
        assert Arbitrary(todo) in todo;
        var node :| node in todo;
        ghost var was := bank;
        var sold := AwardNode(bids, node, todo, done, bought, states, balances, funded);
        RefusedStep(bids, done, bought, states, was, bank, node, sold);
        todo := todo - {node};
        done := done + {node};
        if sold {
          bought := bought + {node};
        }
      }
      FinishAwarding(bids, bought, states, balances, funded);
    }

    /** The state of every node bid on. */
    ghost function BidStates(bids: map<Node, seq<(int, int)>>): (now: map<Node, NodeState>)
      requires bids.Keys <= NodeSet
      reads NodeSet
      ensures now.Keys == bids.Keys
    {
      map n | n in bids :: n.State()
    }

    /** After a step that changed at most `node`, the states of the nodes bid
        on are the earlier ones `now` with `node`'s replaced. */
    lemma BidStatesAfter(bids: map<Node, seq<(int, int)>>, now: map<Node, NodeState>, node: Node)
      requires bids.Keys <= NodeSet && now.Keys == bids.Keys && node in bids
      requires forall n | n in bids && n != node :: n.State() == now[n]
      ensures BidStates(bids) == now[node := node.State()]
    {
    }

    /** The award loop part-way, as `Offered` says of the nodes bid on and
        the balances, on a board that keeps its invariant. */
    ghost predicate Awarding(bids: map<Node, seq<(int, int)>>, todo: set<Node>, done: set<Node>, bought: set<Node>,
                             states: map<Node, NodeState>, balances: map<int, int>, funded: bool)
      reads this, NodeSet
    {
      && Valid()
      && bids.Keys <= NodeSet
      && Offered(bids, playerCount, todo, done, bought, states, BidStates(bids), balances, bank, funded)
    }

    /** One round of the award loop: the winning bid on `node` is computed by
        the fold and the node is offered to it at that bid's amount; `sold`
        says whether the purchase went through, which is exactly when the
        node was free and the winner could pay. */
    method AwardNode(bids: map<Node, seq<(int, int)>>, node: Node, ghost todo: set<Node>, ghost done: set<Node>,
                     ghost bought: set<Node>, ghost states: map<Node, NodeState>, ghost balances: map<int, int>,
                     ghost funded: bool) returns (sold: bool)
      requires Awarding(bids, todo, done, bought, states, balances, funded) && node in todo
      modifies this, node
      ensures sold <==> old(node.owner) == None && old(bank[Winner(bids[node]).0]) >= Winner(bids[node]).1
      ensures !sold ==> node.State() == old(node.State()) && bank == old(bank)
      ensures forall p | p in old(bank) :: p in bank && bank[p] <= old(bank[p])
      ensures Awarding(bids, todo - {node}, done + {node}, if sold then bought + {node} else bought,
                       states, balances, funded)
    {
      var nodeBids := bids[node];
      var maxBid := Winner(nodeBids);
      WinnerOfCollected(bids, playerCount, node);
      ghost var now := BidStates(bids);
      ghost var was := bank;
      sold := Purchase(node, maxBid.0, maxBid.1);
      OfferStep(bids, playerCount, todo, done, bought, states, now, balances, was, funded,
                node, maxBid.0, sold, node.State(), bank);
      forall n | n in bids && n != node
        ensures n.State() == now[n]
      {
      }
      BidStatesAfter(bids, now, node);
    }

    // -------------------------------------------------------------------------
    // One tick

    /** `GameBoard.update`: one tick of the game. Every player is credited with
        its harvest, every node ages, then the auction runs on the aged board. */
    method Update() returns (ghost bids: map<Node, seq<(int, int)>>)
      requires Valid()
      modifies this, NodeSet
      ensures Valid()
      ensures CollectedBefore(bids, playerCount)
      ensures forall p | 0 <= p < playerCount ::
                && NodesBidBy(bids, bids.Keys, p) <= FreeNear(old(AgedStates()), p)
                && |NodesBidBy(bids, bids.Keys, p)|
                   == BidQuota(old(AgedStates()), old(bank[p]) + old(Harvested(|tiles|, p)), p)
      ensures forall n | n in NodeSet ::
                if n in bids
                then Aged(old(n.State())).owner == None
                     && n.State() == NodeState(Some(Winner(bids[n]).0), LeaseLength)
                else n.State() == Aged(old(n.State()))
      ensures forall p | p in bank ::
                bank[p] == old(bank[p]) + old(Harvested(|tiles|, p)) - TileValue * |NodesWonBy(bids, bids.Keys, p)|
    {
      Mature();
      ghost var aged := States();
      ghost var credited := bank;
      bids := Auction();
      assert forall p | 0 <= p < playerCount ::
        NodesBidBy(bids, bids.Keys, p) <= FreeNear(aged, p) && |NodesBidBy(bids, bids.Keys, p)| == BidQuota(aged, credited[p], p);
      assert aged == old(AgedStates());
      assert forall p | 0 <= p < playerCount :: credited[p] == old(bank[p]) + old(Harvested(|tiles|, p));
    }

    /** The harvest and aging steps of `update`: every balance grows by its
        holder's harvest, and every node ages by one tick. */
    method Mature()
      requires Valid()
      modifies this, NodeSet
      ensures Valid()
      ensures States() == old(AgedStates())
      ensures forall p | p in bank :: bank[p] == old(bank[p]) + old(Harvested(|tiles|, p))
    {
      ghost var aged := AgedStates();
      var gains := Harvest();
      CreditGains(gains);
      AgeNodes();
      StatesAre(aged);
    }

    /** Node states that agree node by node with `states` are `states`. */
    lemma StatesAre(states: map<Node, NodeState>)
      requires states.Keys == NodeSet
      requires forall n | n in NodeSet :: n.State() == states[n]
      ensures States() == states
    {
    }

    /** The state of every node. */
    ghost function States(): (states: map<Node, NodeState>)
      reads NodeSet
      ensures states.Keys == NodeSet
    {
      map n | n in NodeSet :: n.State()
    }

    /** The state every node will have once aged. */
    ghost function AgedStates(): (states: map<Node, NodeState>)
      reads NodeSet
      ensures states.Keys == NodeSet
    {
      map n | n in NodeSet :: Aged(n.State())
    }

    /** The nodes player `p` holds now that were unowned in `before`. */
    ghost function NewlyHeld(before: map<Node, NodeState>, p: int): set<Node>
      reads this, NodeSet
    {
      set n | n in NodeSet && n in before && before[n].owner == None && n.owner == Some(p)
    }

    /** The bid and award steps of `update`: the players bid in turn and each
        node bid on goes to its winning bid. The ghost result `bids` is the
        bids collected: each player bids on the free nodes it sees, as many
        as its balance pays for. Because a player never bids more than its
        balance, every node bid on is bought, and each balance falls by the
        tile value for every node its holder won. */
    method Auction() returns (ghost bids: map<Node, seq<(int, int)>>)
      requires Valid()
      modifies this, NodeSet
      ensures Valid()
      ensures CollectedBefore(bids, playerCount)
      ensures forall p | 0 <= p < playerCount ::
                && NodesBidBy(bids, bids.Keys, p) <= FreeNear(old(States()), p)
                && |NodesBidBy(bids, bids.Keys, p)| == BidQuota(old(States()), old(bank[p]), p)
      ensures forall n | n in NodeSet ::
                if n in bids then old(n.owner) == None && n.State() == NodeState(Some(Winner(bids[n]).0), LeaseLength)
                else n.State() == old(n.State())
      ensures forall p | p in bank :: bank[p] == old(bank[p]) - TileValue * |NodesWonBy(bids, bids.Keys, p)|
      ensures forall p | p in bank :: NewlyHeld(old(States()), p) == NodesWonBy(bids, bids.Keys, p)
    {
      var collected := CollectBids();
      bids := collected;
      ghost var before := States();
      forall p | 0 <= p < playerCount
        ensures FreeInView(p) == FreeNear(before, p) && BidCount(p) == BidQuota(before, bank[p], p)
      {
        FreeInViewIs(p);
      }
      ghost var bought := ResolveBids(collected);
      forall p | p in bank
        ensures NewlyHeld(before, p) == NodesWonBy(bids, bids.Keys, p)
      {
        NewlyHeldAreWon(bids, before, p);
      }
    }

    /** The nodes player `p` holds in the node states `states`. */
    ghost function HeldIn(states: map<Node, NodeState>, p: int): set<Node>
    {
      set n | n in states && states[n].owner == Some(p)
    }

    /** The nodes free in `states` within one step of a node player `p` holds
        there: what `p` sees on a board in those states. */
    ghost function FreeNear(states: map<Node, NodeState>, p: int): set<Node>
    {
      set m | m in states && states[m].owner == None && m in Around(HeldIn(states, p))
    }

    /** How many nodes player `p` bids on, with balance `balance`, on a board
        in the node states `states`. */
    ghost function BidQuota(states: map<Node, NodeState>, balance: int, p: int): int
    {
      Min(|FreeNear(states, p)|, Max(0, balance / TileValue))
    }

    /** What a player sees depends only on the node states. */
    lemma FreeInViewIs(p: int)
      requires Valid() && 0 <= p < playerCount
      ensures FreeInView(p) == FreeNear(States(), p)
      ensures BidCount(p) == BidQuota(States(), bank[p], p)
    {
      assert realEstate[p] == HeldIn(States(), p);
    }

    /** After the award step on funded bids, the nodes a player newly holds
        are exactly the nodes its bid won. */
    lemma NewlyHeldAreWon(bids: map<Node, seq<(int, int)>>, before: map<Node, NodeState>, p: int)
      requires before.Keys == NodeSet
      requires BidsFrom(bids, playerCount) && bids.Keys <= NodeSet
      requires forall n | n in bids :: before[n].owner == None
      requires forall n | n in NodeSet && n !in bids :: n.State() == before[n]
      requires forall n | n in bids :: n.State() == NodeState(Some(Winner(bids[n]).0), LeaseLength)
      ensures NewlyHeld(before, p) == NodesWonBy(bids, bids.Keys, p)
    {
    }

    constructor (playerCount: int, width: int, height: int)
      requires 0 <= playerCount && 0 <= width && 0 <= height
      ensures Valid() && fresh(NodeSet)
      ensures this.playerCount == playerCount && this.width == width && this.height == height
      ensures forall n | n in NodeSet :: n.State() == NodeState(None, 0)
      ensures |tiles| == width * height && tiles == TilesBefore(nodes, width, height, width)
      ensures forall p | 0 <= p < playerCount :: bank[p] == StartingWealth && realEstate[p] == {}
    {
      this.width := width;
      this.height := height;
      this.playerCount := playerCount;

      var makeNodes, made := MakeNodes(width, height);
      this.nodes := makeNodes;
      this.NodeSet := made;

      var makeTiles := MakeTiles(makeNodes, width, height);
      TilesBeforeLength(makeNodes, width, height, width);
      TilesCornersIn(makeNodes, made, width, height, width);
      this.tiles := makeTiles;

      var makeBank: map<int, int> := map[];
      var makeRealEstate: map<int, set<Node>> := map[];
      for i := 0 to playerCount
        invariant forall p :: p in makeBank <==> 0 <= p < i
        invariant forall p :: p in makeRealEstate <==> 0 <= p < i
        invariant forall p | p in makeBank :: makeBank[p] == StartingWealth
        invariant forall p | p in makeRealEstate :: makeRealEstate[p] == {}
      {
        makeBank := makeBank[i := StartingWealth];
        makeRealEstate := makeRealEstate[i := {}];
      }
      this.bank := makeBank;
      this.realEstate := makeRealEstate;
    }
  }
}
