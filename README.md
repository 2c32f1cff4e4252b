# Enterprise territory auction, modelled in Dafny

This project models the game engine of `Enterprise/Enterprise/GameBoard.swift`.
The board is a (width + 1) x (height + 1) lattice of nodes. Each node is a
parcel that a player can hold on a five-tick lease. Every unit cell of the
lattice is a tile, and a tile pays its majority holder every tick: the full
tile value of 100 for all four corners, half of it for exactly three. The
board keeps a ledger: `bank` holds each player's balance and `realEstate`
holds each player's set of nodes. One tick (`update`) runs these steps in
order:

1. harvest the tiles;
2. credit every balance;
3. age every node, dropping a node from its holder's set just before its
   lease runs out;
4. let each player, in player order, bid one tile value on each unowned node
   it can see, as far as its balance goes;
5. award each node bid on to its winning bid through `purchase`.

The model is imperative where the engine is:

- `Node` and `GameBoard` are classes whose methods update their fields.
- The loops of `makeBids`, `score`, `harvest`, `visibleRealEstate`, the grid
  construction and `update` are `while`/`for` loops with invariants.
- Each method is proved against a specification function or an invariant:
  - `GameBoard.Valid` is the board invariant. It says the ledger has an entry
    per player, balances are never negative, leases are consistent, and
    `realEstate[p]` is exactly the set of nodes whose owner is `p`.
  - `Nodes.Aged` is the lease law.
  - `Tiles.TileGain` is the tile income.
  - `Bidding.DefaultBids` is the default bidding rule.
  - `Bidding.Winner` is the winning-bid fold.
  - `Board.TilesBefore` is the tile layout.

Players are the ids `0 .. playerCount - 1`, and a node's owner is an
`Option<int>`. Iteration over Swift dictionaries and sets has no fixed order,
so the model picks the next element with `:|`. Every property is proved for
any order of picking.

Two behaviours of the code are modelled as the code has them:

- **Ties go to the later player.** Each player's bid is put in front of the
  bids already recorded on a node. The winning-bid fold replaces its best bid
  only when a later entry is strictly higher. So among equal highest bids, the
  bid of the player latest in player order wins (`Bidding.TieGoesToLaterPlayer`).
  With the default rule every bid is one tile value, so ties are the norm and
  this favours the later players.
- **Duplicate bids.** Within one player's turn, each write to a node's bid
  list starts from the bids collected before the turn. So when a player's bid
  list names a node twice, only its last bid on that node is kept
  (`Bidding.RecordBids`).

With the default rule, a player never bids on more nodes than its balance
pays for. So every node bid on is bought, and each balance falls by one tile
value per node its holder won (`Board.GameBoard.Auction`,
`Board.GameBoard.Update`). The award loop itself does not rely on this. For
any bids of one tile value each, funded or not, each offer sells the node exactly when it is free and its winner can
pay (`Board.GameBoard.AwardNode`). After the loop, each balance has fallen by
one tile value per node its holder bought, and every node bid on but not sold
was already held or has a winner left with less than its bid
(`Board.GameBoard.ResolveBids`).

Files:

- `types.dfy`: the constants and `Option`.
- `node.dfy`: nodes and the lease law.
- `tile.dfy`: tiles and scoring.
- `bidding.dfy`: the bidding rule, the bid collection and the winning-bid fold.
- `board.dfy`: the grid construction and the `GameBoard` class.

## Model

| member | source | states |
|---|---|---|
| `Nodes.Aged` | Enterprise/Enterprise/GameBoard.swift:92-99 | One age keeps a consistent lease consistent and never hands a node to a new owner. A running lease drops by one, and the owner is cleared exactly when the lease reaches zero. A zero lease is left as it is. |
| `Nodes.Node.constructor` | Enterprise/Enterprise/GameBoard.swift:73-79 | A new node sits at the given coordinates, unowned, with lease 0. |
| `Nodes.Node.Purchase` | Enterprise/Enterprise/GameBoard.swift:87-90 | The node is held by the buyer with a full lease of 5. |
| `Nodes.Node.Age` | Enterprise/Enterprise/GameBoard.swift:92-99 | The node's new state is the aged old state. |
| `Nodes.Node.IsOwned` | Enterprise/Enterprise/GameBoard.swift:81-85 | On a node whose lease is consistent, the node is owned exactly while its lease runs. |
| `Nodes.UnownedStaysUnowned` | Enterprise/Enterprise/GameBoard.swift:92-99 | Aging a free node with lease 0 any number of times leaves it free. |
| `Nodes.LeaseRunsOut` | Enterprise/Enterprise/GameBoard.swift:92-99 | A node held with `lease` ticks left stays with its holder for exactly `lease` ages, counting down, and is free from then on. |
| `Nodes.PurchasedHeldForLease` | Enterprise/Enterprise/GameBoard.swift:87-99 | After a purchase, the buyer holds the node after `k` ages if and only if `k` < 5. |
| `Nodes.HashValue` | Enterprise/Enterprise/GameBoard.swift:106-110 | For y in 0..999 the hash value encodes the coordinates: dividing by 1000 gives x and the remainder gives y. |
| `Nodes.SameNodeByHash` | Enterprise/Enterprise/GameBoard.swift:102-104 | Nodes with the same coordinates compare equal under the hash comparison. |
| `Nodes.HashCollides` | Enterprise/Enterprise/GameBoard.swift:102-111 | As written, the distinct nodes (0, 1000) and (1, 0) compare equal. |
| `Nodes.HashAgreesBelow1000` | Enterprise/Enterprise/GameBoard.swift:102-111 | Below height 1000, hash equality holds if and only if the coordinates are equal. |
| `Tiles.SingleScorer` | Enterprise/Enterprise/GameBoard.swift:133-155 | At most one player gains from a tile, so the score does not depend on the order in which holders are examined. |
| `Tiles.ScorerHoldsACorner` | Enterprise/Enterprise/GameBoard.swift:136-144 | A player counted on a tile holds one of its corners. |
| `Tiles.Tile.Nodes` | Enterprise/Enterprise/GameBoard.swift:120-124 | The tile has four corners, ul, ur, bl and br in that order, and a node is listed exactly when it is one of them. |
| `Tiles.Tile.Score` | Enterprise/Enterprise/GameBoard.swift:133-155 | Returns the player and the amount whenever some player gains from the tile: 100 for four corners, 50 for three. Returns none exactly when nobody gains. This holds for any iteration order of the counts. |
| `Bidding.Unowned` | Enterprise/Enterprise/GameBoard.swift:44-49 | The nodes of the area that have no owner, each of them and only them. |
| `Bidding.DefaultBidsAreFirstUnowned` | Enterprise/Enterprise/GameBoard.swift:38-54 | The default rule bids one tile value on each of the first unowned nodes of the area, in area order. It makes min(#unowned, max(0, wealth / 100)) bids. |
| `Bidding.DefaultBidsWithinBudget` | Enterprise/Enterprise/GameBoard.swift:38-54 | The bids total one tile value per bid. They never exceed a non-negative budget, and a budget below one tile value yields no bids. |
| `Bidding.UnownedDistinct` | Enterprise/Enterprise/GameBoard.swift:44-49 | Filtering an area without repeats for unowned nodes gives a list without repeats. |
| `Bidding.DistinctCard` | Enterprise/Enterprise/GameBoard.swift:371 | A list of nodes without repeats has as many distinct nodes as entries. |
| `Bidding.BidNodesHoldAll` | Enterprise/Enterprise/GameBoard.swift:297-305 | Every node of a bid list is among the nodes it names. |
| `Bidding.DefaultBidNodesAre` | Enterprise/Enterprise/GameBoard.swift:38-54 | The default rule makes no more bids than the area has unowned entries, and the nodes it names are exactly those of the first unowned entries of the area, one entry per bid. |
| `Bidding.UnownedCount` | Enterprise/Enterprise/GameBoard.swift:44-49 | On an area without repeats, the unowned nodes in area order have no repeats, and there are as many of them as distinct unowned nodes in the area. |
| `Bidding.DefaultBidNodes` | Enterprise/Enterprise/GameBoard.swift:38-54 | On an area without repeats, the default rule names only unowned nodes of the area, and it names min(#unowned nodes, max(0, wealth / 100)) distinct nodes. |
| `Bidding.MakeBids` | Enterprise/Enterprise/GameBoard.swift:38-54 | The loop returns exactly the default bids: their number, their nodes and amounts, and a total within the available wealth. |
| `Bidding.RecordBids` | Enterprise/Enterprise/GameBoard.swift:297-305 | After one player's bids, every node it named holds its last bid on that node in front of the bids from before the turn. Other nodes are unchanged, and the keys are the old keys plus the nodes named. |
| `Bidding.TurnKeepsShape` | Enterprise/Enterprise/GameBoard.swift:293-307 | After a turn with tile-value bids, every recorded node still has a bid. Every bid is one tile value from a player up to this one, and the latest player comes first. |
| `Bidding.TurnGivesPlayerItsNodes` | Enterprise/Enterprise/GameBoard.swift:293-307 | After its turn, the nodes a player has bid on are exactly the nodes of its bid list. |
| `Bidding.TurnLeavesOthers` | Enterprise/Enterprise/GameBoard.swift:293-307 | A player's turn leaves the nodes every other player has bid on unchanged. |
| `Bidding.KeepBest` | Enterprise/Enterprise/GameBoard.swift:311-317 | The fold returns its seed or a bid of the list, at least as high as the seed and as every bid of the list. |
| `Bidding.Winner` | Enterprise/Enterprise/GameBoard.swift:311-317 | The winning bid is a bid of the list, and no bid of the list is higher. |
| `Bidding.KeepBestFindsFirstHighest` | Enterprise/Enterprise/GameBoard.swift:311-317 | The fold's result is at least every bid and at least its seed. It is either the seed or the first bid strictly higher than all bids before it. |
| `Bidding.WinnerIsFirstHighest` | Enterprise/Enterprise/GameBoard.swift:311-317 | The winning bid is a bid of the list, of maximal amount, and the first such bid in list order. |
| `Bidding.WinnerOfCollected` | Enterprise/Enterprise/GameBoard.swift:293-317 | In collected bids, the winner of a node is a player that bid on it, and it bid one tile value. |
| `Bidding.BidAccounting` | Enterprise/Enterprise/GameBoard.swift:309-319 | Offering a node removes it from its winner's nodes still to offer that it bid on, and does not increase any other player's count of those. |
| `Bidding.WonAccounting` | Enterprise/Enterprise/GameBoard.swift:309-319 | Selling a node adds it to its winner's nodes won and changes no other player's nodes won. |
| `Bidding.PaidOpen` | Enterprise/Enterprise/GameBoard.swift:309-319 | Before the award loop sells anything, every balance is its starting balance less nothing. |
| `Bidding.PaidStep` | Enterprise/Enterprise/GameBoard.swift:309-337 | Selling a node to its winner at one tile value keeps every balance equal to its starting balance less one tile value per node the player bought. |
| `Bidding.CanPayStep` | Enterprise/Enterprise/GameBoard.swift:309-337 | If every player can pay for the nodes it bid on that are still to be offered, the winner of the next node can pay. After it pays, the same holds for the rest. |
| `Bidding.OfferStep` | Enterprise/Enterprise/GameBoard.swift:309-337 | Offering one node keeps the award invariant. The node is sold exactly when it is free and the winner can pay; it then goes to the winner on a full lease and the winner pays one tile value. Otherwise nothing changes. With funded bids the node is always sold. |
| `Bidding.RefusedStep` | Enterprise/Enterprise/GameBoard.swift:309-337 | A node left unsold because it was held or its winner could not pay stays so explained while balances only fall. |
| `Bidding.TieGoesToLaterPlayer` | Enterprise/Enterprise/GameBoard.swift:298-312 | Among equal highest bids collected latest player first, the one awarded is from the player latest in player order. |
| `Board.ToSequence` | Enterprise/Enterprise/GameBoard.swift:371 | The array holds every element of the set, once each. |
| `Board.MakeNodes` | Enterprise/Enterprise/GameBoard.swift:176-185 | There are width + 1 columns of height + 1 new, unowned nodes, and `nodes[x][y]` sits at (x, y). |
| `Board.ColumnTiles` | Enterprise/Enterprise/GameBoard.swift:189-194 | Column x holds `height` tiles, and tile y has the corners [x][y], [x+1][y], [x][y+1] and [x+1][y+1]. |
| `Board.TilesBeforeLength` | Enterprise/Enterprise/GameBoard.swift:187-196 | The first x columns hold x * height tiles. |
| `Board.TileIndex` | Enterprise/Enterprise/GameBoard.swift:187-196 | The tile of the cell at (i, j) is at index i * height + j. |
| `Board.MakeTiles` | Enterprise/Enterprise/GameBoard.swift:187-196 | The nested loops build the tile list column after column. |
| `Board.TilesCornersIn` | Enterprise/Enterprise/GameBoard.swift:190-193 | Every corner of every tile is a node of the lattice. |
| `Board.GameBoard.constructor` | Enterprise/Enterprise/GameBoard.swift:172-211 | The board is valid, with new unowned nodes and exactly width * height tiles in the layout above. Every player starts with 500 and an empty holding set. |
| `Board.GameBoard.SameNodeIsIdentity` | Enterprise/Enterprise/GameBoard.swift:102-111 | On the lattice, two nodes have the same coordinates if and only if they are the same node. |
| `Board.GameBoard.HoldingsDisjoint` | Enterprise/Enterprise/GameBoard.swift:167-168 | No node is in two players' holding sets. |
| `Board.GameBoard.Purchase` | Enterprise/Enterprise/GameBoard.swift:322-337 | Succeeds if and only if the node was free and the balance covers the value. On success it debits the value, adds the node to the buyer's set and gives the node a full lease, with nothing else changed. On failure nothing changes. The board invariant is kept either way. |
| `Board.GameBoard.PlusShape` | Enterprise/Enterprise/GameBoard.swift:249-251 | The start region is five lattice nodes. |
| `Board.GameBoard.PlaceAt` | Enterprise/Enterprise/GameBoard.swift:246-261 | Placement succeeds if and only if all five nodes were free. On success the player buys them one by one while it can pay. From the starting 500 it ends with balance 0 and all five nodes. Other players and other nodes are unchanged. |
| `Board.GameBoard.BuyEach` | Enterprise/Enterprise/GameBoard.swift:259-261 | Node j is bought exactly when the budget covers j + 1 tile values. Only the player's balance falls, by the tile value per node bought. |
| `Board.GameBoard.BuyNext` | Enterprise/Enterprise/GameBoard.swift:259-261 | One round of the purchase loop keeps the loop invariant: node i is bought exactly when the budget covers i + 1 tile values, and only the player's balance moves. |
| `Board.GameBoard.Harvested` | Enterprise/Enterprise/GameBoard.swift:339-353 | A player's income from the tiles is never negative. |
| `Board.GameBoard.Harvest` | Enterprise/Enterprise/GameBoard.swift:339-353 | There is an entry for every player and no one else, equal to the sum of the player's tile gains. |
| `Board.GameBoard.HarvestStep` | Enterprise/Enterprise/GameBoard.swift:346-350 | Adding one tile's score adds that tile's gain to its scorer's running total and nothing to anyone else's. |
| `Board.GameBoard.CreditGains` | Enterprise/Enterprise/GameBoard.swift:275-278 | Each balance grows by exactly its gain, and the invariant is kept. |
| `Board.GameBoard.AgeNode` | Enterprise/Enterprise/GameBoard.swift:282-289 | The node ages, and the holding sets stay in sync with the owners. |
| `Board.GameBoard.AgeNodes` | Enterprise/Enterprise/GameBoard.swift:280-291 | Every node ages once, balances are unchanged and the invariant is kept. |
| `Board.GameBoard.HoldingsAreAround` | Enterprise/Enterprise/GameBoard.swift:355-372 | A player sees the nodes it holds. |
| `Board.GameBoard.AroundGrows` | Enterprise/Enterprise/GameBoard.swift:358-369 | The area seen from one more node grows by exactly that node's 3x3 box. |
| `Board.GameBoard.AddNeighbours` | Enterprise/Enterprise/GameBoard.swift:359-368 | The clamped box loops add exactly the lattice nodes within one step of the node. |
| `Board.GameBoard.VisibleRealEstate` | Enterprise/Enterprise/GameBoard.swift:355-372 | The result is exactly the lattice nodes within one step of a holding, with no duplicates, and includes every holding. |
| `Board.GameBoard.BidsInView` | Enterprise/Enterprise/GameBoard.swift:294-296 | Bidding by the default rule on what the player sees names only free nodes it sees, as many as min(#free nodes it sees, max(0, balance / 100)), which its balance pays for. |
| `Board.GameBoard.BidTurn` | Enterprise/Enterprise/GameBoard.swift:294-306 | A player bids on free nodes it sees, on exactly min(#free nodes it sees, max(0, balance / 100)) of them, no more than its balance pays for, and leaves other players' bids unchanged. |
| `Board.GameBoard.CollectBids` | Enterprise/Enterprise/GameBoard.swift:293-307 | The collected bids are funded: every node bid on is free, every bid is one tile value, each list is latest player first, and no player has bid beyond its balance. Each player bid on exactly min(#free nodes it sees, max(0, balance / 100)) free nodes it sees. |
| `Board.GameBoard.CountsFunded` | Enterprise/Enterprise/GameBoard.swift:293-307 | Bids of the size the default rule gives every player are funded. |
| `Board.GameBoard.OfferAll` | Enterprise/Enterprise/GameBoard.swift:309-319 | Offering every node bid on, in any order: each node sold was free and now has its winner on a full lease, every other node bid on is unchanged, and each balance falls by 100 per node its holder bought. Each node bid on but not sold was held, or its winner ends with less than one tile value. With funded bids every node bid on is sold. |
| `Board.GameBoard.AwardNode` | Enterprise/Enterprise/GameBoard.swift:310-318 | Offering one node to its winning bid succeeds exactly when the node was free and the winner could pay the bid, and keeps the award invariant. A refused offer changes neither the node nor any balance, and no balance ever rises. |
| `Board.GameBoard.BidStatesAfter` | Enterprise/Enterprise/GameBoard.swift:309-319 | After a step that changed at most one node, the states of the nodes bid on are the earlier ones with that node's replaced. |
| `Board.GameBoard.ResolveBids` | Enterprise/Enterprise/GameBoard.swift:309-319 | Returns the nodes sold, all of them bid on. Each node sold was free and now has its winner on a full lease. Every other node is unchanged. Each balance falls by 100 per node its holder bought, funded or not. Each node bid on but not sold was already held, or its winner ends with less than its bid. With funded bids every node bid on is sold. |
| `Board.GameBoard.NewlyHeldAreWon` | Enterprise/Enterprise/GameBoard.swift:309-319 | When every node bid on was free and is sold, the nodes a player newly holds are exactly the nodes it won. |
| `Board.GameBoard.Mature` | Enterprise/Enterprise/GameBoard.swift:272-291 | Every balance grows by its holder's harvest and every node ages once. |
| `Board.GameBoard.StatesAre` | Enterprise/Enterprise/GameBoard.swift:280-291 | Node states that agree with a map node by node are that map. |
| `Board.GameBoard.FreeInViewIs` | Enterprise/Enterprise/GameBoard.swift:355-372 | The free nodes a player sees, and so its bid count, depend only on the node states. |
| `Board.GameBoard.Auction` | Enterprise/Enterprise/GameBoard.swift:293-319 | Returns the collected bids: each player bid on exactly min(#free nodes it sees, max(0, balance / 100)) free nodes it sees. Every node bid on was free and now has its winner on a full lease, and every other node is unchanged. Each balance falls by 100 per node its holder won, and the nodes a player newly holds are exactly those it won. |
| `Board.GameBoard.Update` | Enterprise/Enterprise/GameBoard.swift:271-320 | One tick keeps the invariant. Returns the bids collected on the aged board, after the harvest is credited: each player bid on exactly min(#free nodes it sees, max(0, balance / 100)) free nodes it sees. Every node bid on was free after aging and now has its winner on a full lease. Every other node has aged once. Each balance becomes the old balance plus the harvest minus 100 per node won. |

## Findings

| source | as written | input that shows it | evidently intended | confidence | as-written member | corrected member |
|---|---|---|---|---|---|---|
| Enterprise/Enterprise/GameBoard.swift:102-111 | Nodes are equal when `x * 1000 + y` is equal | On a board at least 1000 high, nodes (0, 1000) and (1, 0) compare equal | Node equality by coordinates | not executed; only boards 1000 or more high are affected, and the default is 100 | `Nodes.HashCollides` | `Board.GameBoard.SameNodeIsIdentity` |

## Left out

- `Board.GameBoard.constructor`: the source's `init` ends with `startPlayers`. That step draws random positions with `arc4random_uniform` and retries without bound until a free plus shape is found, which can loop forever on a full board. The model constructs the board without placing players. `Board.GameBoard.PlaceAt` models one candidate position, taken as a parameter.
- `GameManager`, the `PlayerManager` and `RealEstate` protocols, and the `weak`/`unowned` references only manage memory and lookups. Players are their ids, and a node's owner is an id.
- Swift `Int` is 64-bit and traps on overflow. The model's integers are unbounded, so a balance overflowing after an extreme number of ticks is not modelled.
- The force-unwraps `bank[p]!` and `realEstate[p]!` could crash on a missing entry. Under the board invariant every player has an entry, and the model's methods require the invariant.
- `Constants.baseNodeCost` is declared but never read. It appears only as `Types.BaseNodeCost`.
- Node hashing is modelled only as the finding above. Everywhere else, nodes are compared by identity, which on the lattice is equality by coordinates.
- The order in which a Swift `Dictionary` or `Set` is iterated is not fixed: the bids at award time, the tile's counts, a player's holdings and the visible area. The model picks an arbitrary element, so which bid is awarded first and the order of `visibleRealEstate`'s array are not determined. The results stated do not depend on that order.
- `evolution.swift` (floating-point expression evolution), `ViewController.swift` (the timer loop) and `BoardView.swift` (drawing) are not part of this model.
- Board.GameBoard.ResolveBids: the award loop, and `Board.GameBoard.OfferAll` and `Board.GameBoard.AwardNode` with it, is proved only for bids of one tile value each from players of the board, the only bids the default rule produces. The source's loop accepts any amount and debits the winning amount.
