/** The default bidding rule, the recording of bids per node and the fold that
    picks the winning bid of a node. */
module Bidding {
  import opened Types
  import opened Nodes

  /** The nodes of `area` that have no owner, in `area` order. */
  ghost function Unowned(area: seq<Node>): (u: seq<Node>)
    reads area
    ensures |u| <= |area|
    ensures forall n | n in area :: n in u <==> n.owner == None
    ensures forall n | n in u :: n in area
  {
    if area == [] then []
    else (if area[0].owner == None then [area[0]] else []) + Unowned(area[1..])
  }

  /** What `Player.makeBids` returns: scanning `area` in order, a bid of one
      tile value on every unowned node for as long as the budget left covers
      one more tile value. */
  ghost function DefaultBids(area: seq<Node>, budget: int): seq<(Node, int)>
    reads area
  {
    if area == [] || budget < TileValue then []
    else if area[0].owner == None then [(area[0], TileValue)] + DefaultBids(area[1..], budget - TileValue)
    else DefaultBids(area[1..], budget)
  }

  /** Sum of the amounts of a bid list. */
  function Total(bids: seq<(Node, int)>): int
  {
    if bids == [] then 0 else bids[0].1 + Total(bids[1..])
  }

  /** The default rule bids one tile value on each of the first unowned nodes
      of the area, as many of them as the budget pays for in whole tile values. */
  lemma {:induction false} DefaultBidsAreFirstUnowned(area: seq<Node>, budget: int)
    ensures |DefaultBids(area, budget)| == Min(|Unowned(area)|, Max(0, budget / TileValue))
    ensures forall i | 0 <= i < |DefaultBids(area, budget)| ::
              DefaultBids(area, budget)[i] == (Unowned(area)[i], TileValue)
  {
    if area != [] && budget >= TileValue {
      DefaultBidsAreFirstUnowned(area[1..], if area[0].owner == None then budget - TileValue else budget);
    }
  }

  /** The default rule never commits more than a non-negative budget. */
  lemma {:induction false} DefaultBidsWithinBudget(area: seq<Node>, budget: int)
    ensures Total(DefaultBids(area, budget)) == TileValue * |DefaultBids(area, budget)|
    ensures budget >= 0 ==> Total(DefaultBids(area, budget)) <= budget
    ensures budget < TileValue ==> DefaultBids(area, budget) == []
  {
    if area != [] && budget >= TileValue {
      var rest := if area[0].owner == None then budget - TileValue else budget;
      DefaultBidsWithinBudget(area[1..], rest);
      if area[0].owner == None {
        assert DefaultBids(area, budget)[1..] == DefaultBids(area[1..], rest);
      }
    }
  }

  /** `Player.makeBids`, the one bidding strategy of the engine. */
  method MakeBids(area: seq<Node>, availableWealth: int) returns (bids: seq<(Node, int)>)
    ensures bids == DefaultBids(area, availableWealth)
    ensures |bids| == Min(|Unowned(area)|, Max(0, availableWealth / TileValue))
    ensures forall i | 0 <= i < |bids| :: bids[i] == (Unowned(area)[i], TileValue)
    ensures availableWealth >= 0 ==> Total(bids) <= availableWealth
  {
    var spending := 0;
    var areaIndex := 0;
    bids := [];
    while spending <= availableWealth - TileValue && areaIndex < |area|
      invariant 0 <= areaIndex <= |area|
      invariant bids + DefaultBids(area[areaIndex..], availableWealth - spending) == DefaultBids(area, availableWealth)
    {
      var r := area[areaIndex];
      assert area[areaIndex..][1..] == area[areaIndex + 1..];
      if r.owner == None {
        var bidAmount := TileValue;
        spending := spending + bidAmount;
        bids := bids + [(r, bidAmount)];
      }
      areaIndex := areaIndex + 1;
    }
    DefaultBidsAreFirstUnowned(area, availableWealth);
    DefaultBidsWithinBudget(area, availableWealth);
  }

  /** No node appears twice. */
  predicate Distinct(s: seq<Node>)
  {
    forall i, j | 0 <= i < j < |s| :: s[i] != s[j]
  }

  lemma {:induction false} UnownedDistinct(area: seq<Node>)
    requires Distinct(area)
    ensures Distinct(Unowned(area))
  {
    if area != [] {
      UnownedDistinct(area[1..]);
      assert Distinct(area[1..]) by {
        forall i, j | 0 <= i < j < |area[1..]|
          ensures area[1..][i] != area[1..][j]
        {
          assert area[1..][i] == area[i + 1] && area[1..][j] == area[j + 1];
        }
      }
      var rest := Unowned(area[1..]);
      if area[0].owner == None {
        assert area[0] !in area[1..];
        forall i, j | 0 <= i < j < |[area[0]] + rest|
          ensures ([area[0]] + rest)[i] != ([area[0]] + rest)[j]
        {
          if i > 0 {
            assert ([area[0]] + rest)[i] == rest[i - 1];
          }
          assert ([area[0]] + rest)[j] == rest[j - 1];
        }
      } else {
        assert Unowned(area) == rest;
      }
    }
  }

  /** A sequence without repeats has as many elements as its length. */
  lemma {:induction false} DistinctCard(s: seq<Node>)
    requires Distinct(s)
    ensures |set n | n in s| == |s|
  {
    if s != [] {
      var init := s[..|s| - 1];
      var last := s[|s| - 1];
      assert Distinct(init) by {
        forall i, j | 0 <= i < j < |init|
          ensures init[i] != init[j]
        {
          assert init[i] == s[i] && init[j] == s[j];
        }
      }
      DistinctCard(init);
      assert last !in init;
      assert s == init + [last];
      assert (set n | n in s) == (set n | n in init) + {last};
    }
  }

  /** The node of every bid is among the nodes a bid list names. */
  lemma {:induction false} BidNodesHoldAll(playerBids: seq<(Node, int)>, i: int)
    requires 0 <= i < |playerBids|
    ensures playerBids[i].0 in BidNodes(playerBids)
  {
    if i < |playerBids| - 1 {
      BidNodesHoldAll(playerBids[..|playerBids| - 1], i);
    }
  }

  /** The default rule bids on exactly the first unowned nodes of the area. */
  lemma DefaultBidNodesAre(area: seq<Node>, budget: int)
    ensures |DefaultBids(area, budget)| <= |Unowned(area)|
    ensures BidNodes(DefaultBids(area, budget)) == set n | n in Unowned(area)[..|DefaultBids(area, budget)|]
  {
    var bids := DefaultBids(area, budget);
    var u := Unowned(area);
    DefaultBidsAreFirstUnowned(area, budget);
    var k := |bids|;
    forall n | n in BidNodes(bids)
      ensures n in u[..k]
    {
      BidNodesAreNamed(bids, n);
      var i :| 0 <= i < k && bids[i].0 == n && bids[i].1 == LastBidOn(bids, n);
      assert u[..k][i] == n;
    }
    forall n | n in u[..k]
      ensures n in BidNodes(bids)
    {
      var i :| 0 <= i < k && u[..k][i] == n;
      BidNodesHoldAll(bids, i);
    }
    assert BidNodes(bids) == set n | n in u[..k];
  }

  /** The unowned nodes of an area without repeats, counted. */
  lemma UnownedCount(area: seq<Node>)
    requires Distinct(area)
    ensures Distinct(Unowned(area))
    ensures |Unowned(area)| == |set n | n in area && n.owner == None|
  {
    UnownedDistinct(area);
    DistinctCard(Unowned(area));
    assert (set n | n in Unowned(area)) == set n | n in area && n.owner == None;
  }

  /** On an area without repeats, the default rule bids on distinct unowned
      nodes of the area, as many as the budget pays for in whole tile values
      and at most as many as there are. */
  lemma DefaultBidNodes(area: seq<Node>, budget: int)
    requires Distinct(area)
    ensures forall n | n in BidNodes(DefaultBids(area, budget)) :: n in area && n.owner == None
    ensures |BidNodes(DefaultBids(area, budget))|
            == Min(|set n | n in area && n.owner == None|, Max(0, budget / TileValue))
  {
    var u := Unowned(area);
    var k := |DefaultBids(area, budget)|;
    DefaultBidNodesAre(area, budget);
    DefaultBidsAreFirstUnowned(area, budget);
    UnownedCount(area);
    assert Distinct(u[..k]) by {
      forall i, j | 0 <= i < j < k
        ensures u[..k][i] != u[..k][j]
      {
        assert u[..k][i] == u[i] && u[..k][j] == u[j];
      }
    }
    DistinctCard(u[..k]);
  }

  // ---------------------------------------------------------------------------
  // Recording bids per node

  /** The nodes named in a player's bid list. */
  function BidNodes(playerBids: seq<(Node, int)>): set<Node>
  {
    if playerBids == [] then {}
    else BidNodes(playerBids[..|playerBids| - 1]) + {playerBids[|playerBids| - 1].0}
  }

  /** The amount of the last bid on `n` in a player's bid list. */
  function LastBidOn(playerBids: seq<(Node, int)>, n: Node): int
    requires n in BidNodes(playerBids)
  {
    var last := playerBids[|playerBids| - 1];
    if last.0 == n then last.1 else LastBidOn(playerBids[..|playerBids| - 1], n)
  }

  /** The bids recorded on `n` so far (none when `n` has no entry). */
  function Prior(bids: map<Node, seq<(int, int)>>, n: Node): seq<(int, int)>
  {
    if n in bids then bids[n] else []
  }

  /** One player's turn of the bid collection: every bid of `player` is put
      in front of the bids that `result` held for that node before the turn.
      Each write starts again from `result`, so when the list names a node
      twice only its last bid on that node remains. */
  method RecordBids(result: map<Node, seq<(int, int)>>, player: int, playerBids: seq<(Node, int)>)
    returns (r: map<Node, seq<(int, int)>>)
    ensures r.Keys == result.Keys + BidNodes(playerBids)
    ensures forall n | n in BidNodes(playerBids) :: r[n] == [(player, LastBidOn(playerBids, n))] + Prior(result, n)
    ensures forall n | n in result && n !in BidNodes(playerBids) :: r[n] == result[n]
  {
    r := result;
    for i := 0 to |playerBids|
      invariant r.Keys == result.Keys + BidNodes(playerBids[..i])
      invariant forall n | n in BidNodes(playerBids[..i]) ::
                  r[n] == [(player, LastBidOn(playerBids[..i], n))] + Prior(result, n)
      invariant forall n | n in result && n !in BidNodes(playerBids[..i]) :: r[n] == result[n]
    {
      assert playerBids[..i + 1][..i] == playerBids[..i];
      var (node, bid) := playerBids[i];
      var nodeBids := [(player, bid)];
      if node in result {
        nodeBids := nodeBids + result[node];
      }
      r := r[node := nodeBids];
    }
    assert playerBids[..|playerBids|] == playerBids;
  }

  /** Every node named in a player's bid list is named at some index, and the
      amount kept for it is the amount of one of its bids. */
  lemma {:induction false} BidNodesAreNamed(playerBids: seq<(Node, int)>, n: Node)
    requires n in BidNodes(playerBids)
    ensures exists i | 0 <= i < |playerBids| :: playerBids[i].0 == n && playerBids[i].1 == LastBidOn(playerBids, n)
  {
    var last := |playerBids| - 1;
    if playerBids[last].0 != n {
      var init := playerBids[..last];
      BidNodesAreNamed(init, n);
      var i :| 0 <= i < |init| && init[i].0 == n && init[i].1 == LastBidOn(init, n);
      assert playerBids[i] == init[i];
    }
  }

  /** The players that bid in a node's bid list. */
  function Bidders(l: seq<(int, int)>): set<int>
  {
    if l == [] then {} else {l[0].0} + Bidders(l[1..])
  }

  /** The nodes among `among` on which player `p` has a bid. */
  ghost function NodesBidBy(bids: map<Node, seq<(int, int)>>, among: set<Node>, p: int): set<Node>
  {
    set n | n in among && n in bids && p in Bidders(bids[n])
  }

  /** The nodes among `among` whose winning bid is player `p`'s. */
  ghost function NodesWonBy(bids: map<Node, seq<(int, int)>>, among: set<Node>, p: int): set<Node>
  {
    set n | n in among && n in bids && bids[n] != [] && Winner(bids[n]).0 == p
  }

  lemma {:induction false} BiddersAre(l: seq<(int, int)>, q: int)
    ensures q in Bidders(l) <==> exists i | 0 <= i < |l| :: l[i].0 == q
  {
    if l != [] {
      BiddersAre(l[1..], q);
      if q in Bidders(l[1..]) {
        var i :| 0 <= i < |l[1..]| && l[1..][i].0 == q;
        assert l[i + 1].0 == q;
      }
      if exists i | 0 <= i < |l| :: l[i].0 == q {
        var i :| 0 <= i < |l| && l[i].0 == q;
        if i > 0 {
          assert l[1..][i - 1].0 == q;
        }
      }
    }
  }

  /** Every recorded node has at least one bid, and every bid is one tile
      value from a player before `p`. */
  ghost predicate BidsFrom(bids: map<Node, seq<(int, int)>>, p: int)
  {
    forall n | n in bids ::
      && bids[n] != []
      && forall i | 0 <= i < |bids[n]| :: 0 <= bids[n][i].0 < p && bids[n][i].1 == TileValue
  }

  /** The shape of the collected bids before player `p`'s turn: bids as
      `BidsFrom` says, each node's list with the latest player first. */
  ghost predicate CollectedBefore(bids: map<Node, seq<(int, int)>>, p: int)
  {
    BidsFrom(bids, p) && forall n | n in bids :: NewestFirst(bids[n])
  }

  lemma BiddersCons(p: int, amount: int, l: seq<(int, int)>)
    ensures Bidders([(p, amount)] + l) == {p} + Bidders(l)
  {
    assert ([(p, amount)] + l)[1..] == l;
  }

  /** What a player's turn does to the bids collected so far, as
      `RecordBids` states it. */
  ghost predicate IsTurn(before: map<Node, seq<(int, int)>>, p: int, playerBids: seq<(Node, int)>,
                         after: map<Node, seq<(int, int)>>)
  {
    && after.Keys == before.Keys + BidNodes(playerBids)
    && (forall n | n in BidNodes(playerBids) :: after[n] == [(p, LastBidOn(playerBids, n))] + Prior(before, n))
    && (forall n | n in before && n !in BidNodes(playerBids) :: after[n] == before[n])
  }

  /** One player's turn with tile-value bids keeps the shape of the collection. */
  lemma TurnKeepsShape(before: map<Node, seq<(int, int)>>, p: int, playerBids: seq<(Node, int)>,
                       after: map<Node, seq<(int, int)>>)
    requires CollectedBefore(before, p) && 0 <= p
    requires forall i | 0 <= i < |playerBids| :: playerBids[i].1 == TileValue
    requires IsTurn(before, p, playerBids, after)
    ensures CollectedBefore(after, p + 1)
  {
    forall n | n in after
      ensures after[n] != [] && NewestFirst(after[n])
      ensures forall i | 0 <= i < |after[n]| :: 0 <= after[n][i].0 < p + 1 && after[n][i].1 == TileValue
    {
      if n in BidNodes(playerBids) {
        BidNodesAreNamed(playerBids, n);
        var l := after[n];
        assert l[0] == (p, TileValue);
        forall i | 1 <= i < |l|
          ensures l[i] == Prior(before, n)[i - 1]
        {
        }
      }
    }
  }

  /** After its turn, the nodes a player bids on are those of its bid list. */
  lemma TurnGivesPlayerItsNodes(before: map<Node, seq<(int, int)>>, p: int, playerBids: seq<(Node, int)>,
                                after: map<Node, seq<(int, int)>>)
    requires CollectedBefore(before, p)
    requires IsTurn(before, p, playerBids, after)
    ensures NodesBidBy(after, after.Keys, p) == BidNodes(playerBids)
  {
    forall n | n in BidNodes(playerBids)
      ensures p in Bidders(after[n])
    {
      BiddersCons(p, LastBidOn(playerBids, n), Prior(before, n));
    }
    forall n | n in before && n !in BidNodes(playerBids)
      ensures p !in Bidders(after[n])
    {
      BiddersAre(before[n], p);
    }
  }

  /** A player's turn leaves the nodes other players bid on unchanged. */
  lemma TurnLeavesOthers(before: map<Node, seq<(int, int)>>, p: int, playerBids: seq<(Node, int)>,
                         after: map<Node, seq<(int, int)>>, q: int)
    requires IsTurn(before, p, playerBids, after) && q != p
    ensures NodesBidBy(after, after.Keys, q) == NodesBidBy(before, before.Keys, q)
  {
    forall n | n in BidNodes(playerBids)
      ensures q in Bidders(after[n]) <==> n in before && q in Bidders(before[n])
    {
      BiddersCons(p, LastBidOn(playerBids, n), Prior(before, n));
    }
  }

  // ---------------------------------------------------------------------------
  // Picking the winning bid of a node

  /** The fold `nodeBids.reduce(nodeBids[0])`: a bid replaces the best so far
      only when its amount is strictly larger. */
  function KeepBest(best: (int, int), bids: seq<(int, int)>): (r: (int, int))
    decreases bids
    ensures r == best || r in bids
    ensures r.1 >= best.1 && forall i | 0 <= i < |bids| :: bids[i].1 <= r.1
  {
    if bids == [] then best
    else KeepBest(if bids[0].1 > best.1 then bids[0] else best, bids[1..])
  }

  /** The bid a node is awarded to. */
  function Winner(bids: seq<(int, int)>): (w: (int, int))
    requires bids != []
    ensures w in bids && forall i | 0 <= i < |bids| :: bids[i].1 <= w.1
  {
    KeepBest(bids[0], bids)
  }

  lemma {:induction false} KeepBestFindsFirstHighest(best: (int, int), bids: seq<(int, int)>)
    decreases bids
    ensures forall i | 0 <= i < |bids| :: bids[i].1 <= KeepBest(best, bids).1
    ensures KeepBest(best, bids).1 >= best.1
    ensures KeepBest(best, bids) == best
         || exists k | 0 <= k < |bids| :: bids[k] == KeepBest(best, bids) && best.1 < bids[k].1
                                           && forall i | 0 <= i < k :: bids[i].1 < bids[k].1
  {
    if bids != [] {
      var next := if bids[0].1 > best.1 then bids[0] else best;
      KeepBestFindsFirstHighest(next, bids[1..]);
      var r := KeepBest(best, bids);
      assert r == KeepBest(next, bids[1..]);
      forall i | 0 <= i < |bids|
        ensures bids[i].1 <= r.1
      {
        if i > 0 {
          assert bids[i] == bids[1..][i - 1];
        }
      }
      if r != best {
        if r == next && next == bids[0] {
          assert bids[0] == r && best.1 < bids[0].1;
        } else {
          var k :| 0 <= k < |bids[1..]| && bids[1..][k] == r && next.1 < bids[1..][k].1
                   && forall i | 0 <= i < k :: bids[1..][i].1 < bids[1..][k].1;
          assert bids[k + 1] == r;
          forall i | 0 <= i < k + 1
            ensures bids[i].1 < bids[k + 1].1
          {
            if i > 0 {
              assert bids[i] == bids[1..][i - 1];
            }
          }
        }
      }
    }
  }

  /** The winning bid is a bid of the list, of maximal amount, and the first
      such bid in list order. */
  lemma WinnerIsFirstHighest(bids: seq<(int, int)>)
    requires bids != []
    ensures forall i | 0 <= i < |bids| :: bids[i].1 <= Winner(bids).1
    ensures exists k | 0 <= k < |bids| :: bids[k] == Winner(bids)
                                          && forall i | 0 <= i < k :: bids[i].1 < bids[k].1
  {
    KeepBestFindsFirstHighest(bids[0], bids);
    if Winner(bids) == bids[0] {
      assert bids[0] == Winner(bids);
    }
  }

  /** In a collection, the winning bid on a node is a bid of one tile value
      from a player before `p` that bid on that node. */
  lemma WinnerOfCollected(bids: map<Node, seq<(int, int)>>, p: int, n: Node)
    requires BidsFrom(bids, p) && n in bids
    ensures 0 <= Winner(bids[n]).0 < p && Winner(bids[n]).1 == TileValue
    ensures Winner(bids[n]).0 in Bidders(bids[n])
  {
    WinnerIsFirstHighest(bids[n]);
    BiddersAre(bids[n], Winner(bids[n]).0);
  }

  /** Awarding node `n` to its winner `w` moves `n` out of the nodes `w`
      still has bids on and changes no other player's count of those. */
  lemma {:induction false} BidAccounting(bids: map<Node, seq<(int, int)>>, todo: set<Node>, n: Node, w: int)
    requires n in todo && n in bids && w in Bidders(bids[n])
    ensures n in NodesBidBy(bids, todo, w)
    ensures |NodesBidBy(bids, todo - {n}, w)| == |NodesBidBy(bids, todo, w)| - 1
    ensures forall q | q != w :: |NodesBidBy(bids, todo - {n}, q)| <= |NodesBidBy(bids, todo, q)|
  {
    assert NodesBidBy(bids, todo - {n}, w) == NodesBidBy(bids, todo, w) - {n};
    forall q | q != w
      ensures |NodesBidBy(bids, todo - {n}, q)| <= |NodesBidBy(bids, todo, q)|
    {
      assert NodesBidBy(bids, todo - {n}, q) == NodesBidBy(bids, todo, q) - {n};
    }
  }

  /** Selling node `n` to its winner `w` adds one node to those `w` has won
      and changes no other player's. */
  lemma {:induction false} WonAccounting(bids: map<Node, seq<(int, int)>>, bought: set<Node>, n: Node, w: int)
    requires n !in bought && n in bids && bids[n] != [] && Winner(bids[n]).0 == w
    ensures |NodesWonBy(bids, bought + {n}, w)| == |NodesWonBy(bids, bought, w)| + 1
    ensures forall q | q != w :: NodesWonBy(bids, bought + {n}, q) == NodesWonBy(bids, bought, q)
  {
    assert NodesWonBy(bids, bought + {n}, w) == NodesWonBy(bids, bought, w) + {n};
  }

  /** Midway through the award loop, with `bought` the nodes sold so far:
      every player has paid, from its balance in `start`, one tile value per
      node it bought. */
  ghost predicate Paid(bids: map<Node, seq<(int, int)>>, bought: set<Node>, start: map<int, int>, bank: map<int, int>)
  {
    forall p | p in bank :: p in start && bank[p] == start[p] - TileValue * |NodesWonBy(bids, bought, p)|
  }

  /** Every player can pay one tile value per node among `todo` it bid on. */
  ghost predicate CanPay(bids: map<Node, seq<(int, int)>>, todo: set<Node>, bank: map<int, int>)
  {
    forall p | p in bank :: TileValue * |NodesBidBy(bids, todo, p)| <= bank[p]
  }

  /** Before any node is sold, nobody has paid anything. */
  lemma PaidOpen(bids: map<Node, seq<(int, int)>>, bank: map<int, int>)
    ensures Paid(bids, {}, bank, bank)
  {
    forall p | p in bank
      ensures NodesWonBy(bids, {}, p) == {}
    {
    }
  }

  /** Selling the next node to its winner at one tile value keeps the ledger. */
  lemma PaidStep(bids: map<Node, seq<(int, int)>>, bought: set<Node>, start: map<int, int>, bank: map<int, int>,
                 n: Node, w: int)
    requires Paid(bids, bought, start, bank)
    requires n !in bought && n in bids && bids[n] != [] && Winner(bids[n]) == (w, TileValue) && w in bank
    ensures Paid(bids, bought + {n}, start, bank[w := bank[w] - Winner(bids[n]).1])
  {
    WonAccounting(bids, bought, n, w);
  }

  /** When every player can pay for the nodes it bid on that are still to be
      offered, the winner of the next node can pay, and after it pays the
      same holds for the rest. */
  lemma CanPayStep(bids: map<Node, seq<(int, int)>>, todo: set<Node>, bank: map<int, int>, n: Node, w: int)
    requires CanPay(bids, todo, bank)
    requires n in todo && n in bids && bids[n] != [] && Winner(bids[n]) == (w, TileValue) && w in Bidders(bids[n]) && w in bank
    ensures bank[w] >= Winner(bids[n]).1
    ensures CanPay(bids, todo - {n}, bank[w := bank[w] - Winner(bids[n]).1])
  {
    BidAccounting(bids, todo, n, w);
  }

  /** Every node of `offered` bid on and not in `bought` was held in `states`
      or has a winner whose balance in `bank` is below one tile value. */
  ghost predicate Refused(bids: map<Node, seq<(int, int)>>, offered: set<Node>, bought: set<Node>,
                          states: map<Node, NodeState>, bank: map<int, int>)
  {
    forall n | n in offered && n in bids && n !in bought ::
      && n in states && bids[n] != []
      && (states[n].owner.Some? || (Winner(bids[n]).0 in bank && bank[Winner(bids[n]).0] < TileValue))
  }

  /** A node left unsold stays refused while balances only fall. */
  lemma RefusedStep(bids: map<Node, seq<(int, int)>>, offered: set<Node>, bought: set<Node>,
                    states: map<Node, NodeState>, bank: map<int, int>, bankAfter: map<int, int>,
                    node: Node, sold: bool)
    requires Refused(bids, offered, bought, states, bank)
    requires forall p | p in bank :: p in bankAfter && bankAfter[p] <= bank[p]
    requires !sold ==> && node in bids && node in states && bids[node] != []
                       && (states[node].owner.Some?
                           || (Winner(bids[node]).0 in bankAfter && bankAfter[Winner(bids[node]).0] < TileValue))
    ensures Refused(bids, offered + {node}, if sold then bought + {node} else bought, states, bankAfter)
  {
    var kept := if sold then bought + {node} else bought;
    forall n | n in offered + {node} && n in bids && n !in kept
      ensures && n in states && bids[n] != []
              && (states[n].owner.Some? || (Winner(bids[n]).0 in bankAfter && bankAfter[Winner(bids[n]).0] < TileValue))
    {
      if n != node {
        assert n in offered && n !in bought;
        if states[n].owner == None {
          var w := Winner(bids[n]).0;
          assert w in bank && bank[w] < TileValue;
          assert bankAfter[w] <= bank[w];
        }
      } else {
        assert !sold;
      }
    }
  }

  /** The award loop part-way, on values: `todo` still to offer, `done`
      offered and `bought` the nodes of `done` sold, with `states` the node
      states and `balances` the balances before the loop, `now` the node
      states and `bank` the balances at this point. Each node sold was free
      and is now held by its winner on a full lease, every other node bid on
      is as it was, and every player has paid one tile value per node it
      bought. When the bids are funded, every node offered has been sold and
      every player can still pay for the nodes still to offer that it bid on. */
  ghost predicate Offered(bids: map<Node, seq<(int, int)>>, players: int,
                          todo: set<Node>, done: set<Node>, bought: set<Node>,
                          states: map<Node, NodeState>, now: map<Node, NodeState>,
                          balances: map<int, int>, bank: map<int, int>, funded: bool)
  {
    && BidsFrom(bids, players)
    && todo + done == bids.Keys && todo !! done && bought <= done
    && bids.Keys <= states.Keys && bids.Keys <= now.Keys
    && (forall n | n in todo :: now[n] == states[n])
    && (forall n | n in bought ::
          states[n].owner == None && now[n] == NodeState(Some(Winner(bids[n]).0), LeaseLength))
    && (forall n | n in done && n !in bought :: now[n] == states[n])
    && Paid(bids, bought, balances, bank)
    && (funded ==> bought == done && (forall n | n in bids :: states[n].owner == None) && CanPay(bids, todo, bank))
  }

  /** Offering `node` to its winner `w` at one tile value keeps the award
      loop's invariant: the node is sold exactly when it is free and `w` can
      pay, and then it goes to `w` and `w` pays; otherwise nothing changes.
      With funded bids the node is always sold. */
  lemma OfferStep(bids: map<Node, seq<(int, int)>>, players: int, todo: set<Node>, done: set<Node>,
                  bought: set<Node>, states: map<Node, NodeState>, now: map<Node, NodeState>,
                  balances: map<int, int>, bank: map<int, int>, funded: bool,
                  node: Node, w: int, sold: bool, after: NodeState, bankAfter: map<int, int>)
    requires Offered(bids, players, todo, done, bought, states, now, balances, bank, funded)
    requires node in todo && w in bank
    requires Winner(bids[node]) == (w, TileValue) && w in Bidders(bids[node])
    requires sold <==> now[node].owner == None && bank[w] >= TileValue
    requires sold ==> after == NodeState(Some(w), LeaseLength) && bankAfter == bank[w := bank[w] - TileValue]
    requires !sold ==> after == now[node] && bankAfter == bank
    ensures funded ==> sold
    ensures Offered(bids, players, todo - {node}, done + {node}, if sold then bought + {node} else bought,
                    states, now[node := after], balances, bankAfter, funded)
  {
    if sold {
      PaidStep(bids, bought, balances, bank, node, w);
    }
    if funded {
      CanPayStep(bids, todo, bank, node, w);
    }
  }

  /** Bids listed with the latest player first, as the collection leaves them. */
  predicate NewestFirst(bids: seq<(int, int)>)
  {
    forall i, j | 0 <= i < j < |bids| :: bids[i].0 > bids[j].0
  }

  /** Ties go to the later player: among the highest bids on a node, the one
      awarded is the one from the player latest in player order. */
  lemma TieGoesToLaterPlayer(bids: seq<(int, int)>)
    requires bids != [] && NewestFirst(bids)
    ensures forall i | 0 <= i < |bids| && bids[i].1 == Winner(bids).1 :: bids[i].0 <= Winner(bids).0
  {
    WinnerIsFirstHighest(bids);
    var k :| 0 <= k < |bids| && bids[k] == Winner(bids) && forall i | 0 <= i < k :: bids[i].1 < bids[k].1;
    forall i | 0 <= i < |bids| && bids[i].1 == Winner(bids).1
      ensures bids[i].0 <= Winner(bids).0
    {
      if i != k {
        assert k < i;
      }
    }
  }
}
