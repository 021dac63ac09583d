/**
  One cell of the output grid: the list of tiles it may still become.
*/
module Superpositions {
  import opened Tiles

  /** `positions` with every element of `rm` taken out, order kept (`ArrayList.removeAll`). */
  function Without(s: seq<Tile>, rm: set<Tile>): seq<Tile> {
    if s == [] then []
    else (if s[0] in rm then [] else [s[0]]) + Without(s[1..], rm)
  }

  /** removeAll keeps exactly the elements outside rm. */
  lemma {:induction false} WithoutMember(s: seq<Tile>, rm: set<Tile>, t: Tile)
    ensures t in Without(s, rm) <==> t in s && t !in rm
  {
    if s != [] {
      WithoutMember(s[1..], rm, t);
      assert t in s <==> t == s[0] || t in s[1..];
    }
  }

  /**
    removeAll never lengthens the list, and it shortens it exactly when some
    element of the list is in rm (the return value of `removeAll`).
  */
  lemma {:induction false} WithoutShrinks(s: seq<Tile>, rm: set<Tile>)
    ensures |Without(s, rm)| <= |s|
    ensures |Without(s, rm)| < |s| <==> exists t :: t in s && t in rm
    ensures |Without(s, rm)| == |s| ==> Without(s, rm) == s
  {
    if s != [] {
      WithoutShrinks(s[1..], rm);
      if s[0] in rm {
        assert s[0] in s;
      } else {
        forall t | t in s && t in rm ensures t in s[1..] {
          assert t == s[0] || t in s[1..];
        }
        assert forall t :: t in s[1..] ==> t in s;
      }
    }
  }

  class Superposition {
    var positions: seq<Tile>

    constructor (positions: seq<Tile>)
      ensures this.positions == positions
    {
      this.positions := positions;
    }

    /** `collapsed()`: the list is a single tile. */
    function Collapsed(): (c: bool)
      reads this
      ensures c <==> exists t :: positions == [t]
    {
      if |positions| == 1 then assert positions == [positions[0]]; true else false
    }

    /** Clears the list and leaves `blob` as the only candidate. */
    method CollapseTo(blob: Tile)
      modifies this
      ensures positions == [blob]
    {
      positions := [blob];
    }

    /**
      Shuffles the list and keeps its new first element: any one of the
      candidates. On an empty list Main.kt fails indexing element 0.
    */
    method CollapseRandom()
      requires positions != []
      modifies this
      ensures |positions| == 1 && positions[0] in old(positions)
    {
      var k :| 0 <= k < |positions|;
      CollapseTo(positions[k]);
    }

    method RemoveAll(rm: set<Tile>)
      modifies this
      ensures positions == Without(old(positions), rm)
    {
      positions := Without(positions, rm);
    }

    method AddAll(ts: seq<Tile>)
      modifies this
      ensures positions == old(positions) + ts
    {
      positions := positions + ts;
    }

    /**
      The end of prunePositions on one cell: `removeAll(rm)`, then, if that
      leaves nothing, `addAll(fallback)` (the shuffled catalog's first tile).
    */
    method RemoveOrRecover(rm: set<Tile>, fallback: seq<Tile>)
      modifies this
      ensures positions == (if Without(old(positions), rm) == [] then fallback else Without(old(positions), rm))
    {
      RemoveAll(rm);
      if positions == [] {
        AddAll(fallback);
      }
    }
  }
}
