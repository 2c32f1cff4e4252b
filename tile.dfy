/** Tiles: the unit cells of the lattice. Each pays its majority holder every
    tick. */
module Tiles {
  import opened Types
  import opened Nodes

  /** Number of entries of `os` that name player `p`. */
  function Count(os: seq<Option<int>>, p: int): (c: nat)
    ensures c <= |os|
  {
    if os == [] then 0
    else Count(os[..|os| - 1], p) + (if os[|os| - 1] == Some(p) then 1 else 0)
  }

  /** Two different players together hold no more entries than there are. */
  lemma {:induction false} CountsShareLength(os: seq<Option<int>>, p: int, q: int)
    requires p != q
    ensures Count(os, p) + Count(os, q) <= |os|
  {
    if os != [] {
      CountsShareLength(os[..|os| - 1], p, q);
    }
  }

  /** What a tile whose corners are held as `os` pays player `p`: the full tile
      value for all four corners, half of it for exactly three, else nothing. */
  function TileGain(os: seq<Option<int>>, p: int): int
  {
    var c := Count(os, p);
    if c == 4 then TileValue else if c == 3 then TileValue / 2 else 0
  }

  /** At most one player scores on a tile, so the score does not depend on the
      order in which the holders are examined. */
  lemma SingleScorer(os: seq<Option<int>>, p: int)
    requires |os| == 4 && TileGain(os, p) > 0
    ensures forall q :: q != p ==> TileGain(os, q) == 0
  {
    forall q | q != p
      ensures TileGain(os, q) == 0
    {
      CountsShareLength(os, p, q);
    }
  }

  /** A player who scores on a tile holds at least one of its corners. */
  lemma {:induction false} ScorerHoldsACorner(os: seq<Option<int>>, p: int)
    requires Count(os, p) > 0
    ensures Some(p) in os
  {
    var last := os[|os| - 1];
    if last != Some(p) {
      ScorerHoldsACorner(os[..|os| - 1], p);
      assert Some(p) in os[..|os| - 1];
    }
  }

  /** A 2x2 cell of the lattice, referring to its four corner nodes. */
  datatype Tile = Tile(ul: Node, ur: Node, bl: Node, br: Node)
  {
    /** The four corners, in the order upper left, upper right, bottom left,
        bottom right. */
    function Nodes(): (corners: seq<Node>)
      ensures |corners| == 4
      ensures ul in corners && ur in corners && bl in corners && br in corners
      ensures forall n | n in corners :: n == ul || n == ur || n == bl || n == br
    {
      [ul, ur, bl, br]
    }

    ghost function Owners(): (os: seq<Option<int>>)
      reads ul, ur, bl, br
      ensures |os| == 4
    {
      [ul.owner, ur.owner, bl.owner, br.owner]
    }

    /** Counts the holders of the four corners, then looks among them, in no
        fixed order, for one holding four or three. */
    method Score() returns (r: Option<(int, int)>)
      ensures r.Some? ==> r.value.1 == TileGain(Owners(), r.value.0) && r.value.1 > 0
      ensures r.Some? ==> Some(r.value.0) in Owners()
      ensures forall q :: (r.None? || q != r.value.0) ==> TileGain(Owners(), q) == 0
    {
      ghost var os := Owners();
      var ns := Nodes();
      var counts: map<int, int> := map[];
      for i := 0 to 4
        invariant forall q :: q in counts ==> counts[q] == Count(os[..i], q)
        invariant forall q :: q !in counts ==> Count(os[..i], q) == 0
      {
        assert os[..i + 1][..i] == os[..i];
        if ns[i].owner.Some? {
          var holder := ns[i].owner.value;
          if holder in counts {
            counts := counts[holder := counts[holder] + 1];
          } else {
            counts := counts[holder := 1];
          }
        }
      }
      assert os[..4] == os;

      var rest := counts.Keys;
      while rest != {}
        decreases rest
        invariant rest <= counts.Keys
        invariant forall q :: q in counts && q !in rest ==> counts[q] < 3
      {
        ghost var pick := Arbitrary(rest);  // a witness for the choice below
        var candidate :| candidate in rest;
        if counts[candidate] == 4 || counts[candidate] == 3 {
          SingleScorer(os, candidate);
          ScorerHoldsACorner(os, candidate);
          if counts[candidate] == 4 {
            return Some((candidate, TileValue));
          } else {
            return Some((candidate, TileValue / 2));
          }
        }
        rest := rest - {candidate};
      }
      return None;
    }
  }
}
