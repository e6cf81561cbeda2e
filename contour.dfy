/** The cells `contour` visits and the way it extends the busy list. */
module Contour {
  import opened Dots

  /** The cells `contour` visits: the ring of each dot of the ship, dot after dot. */
  function Candidates(dots: seq<Dot>): (r: seq<Dot>)
    ensures |r| == |NEAR| * |dots|
  {
    if dots == [] then [] else Candidates(dots[..|dots| - 1]) + Ring(dots[|dots| - 1])
  }

  /** A cell is visited exactly when it lies in the 3x3 neighbourhood of some dot. */
  lemma {:induction false} CandidatesMembers(dots: seq<Dot>, c: Dot)
    ensures c in Candidates(dots) <==> exists i :: 0 <= i < |dots| && Adjacent(c, dots[i])
  {
    if dots != [] {
      var n := |dots| - 1;
      CandidatesMembers(dots[..n], c);
      RingIsNeighbourhood(c, dots[n]);
      if c in Candidates(dots[..n]) {
        var i :| 0 <= i < n && Adjacent(c, dots[..n][i]);
        assert Adjacent(c, dots[i]);
      }
      if exists i :: 0 <= i < |dots| && Adjacent(c, dots[i]) {
        var i :| 0 <= i < |dots| && Adjacent(c, dots[i]);
        if i < n {
          assert Adjacent(c, dots[..n][i]);
        }
      }
    }
  }

  /** The busy list after visiting `cand` in order: each visited cell that is on the board and
      not yet busy (counting the cells appended so far) is appended. The old list is a prefix. */
  function Extend(busy: seq<Dot>, cand: seq<Dot>, size: int): (r: seq<Dot>)
    ensures busy <= r
    decreases |cand|
  {
    if cand == [] then busy
    else
      var prev := Extend(busy, cand[..|cand| - 1], size);
      var c := cand[|cand| - 1];
      if InBounds(c, size) && c !in prev then prev + [c] else prev
  }

  /** One more visited cell. */
  lemma ExtendStep(busy: seq<Dot>, cand: seq<Dot>, c: Dot, size: int)
    ensures Extend(busy, cand + [c], size) ==
            var prev := Extend(busy, cand, size);
            if InBounds(c, size) && c !in prev then prev + [c] else prev
  {
    assert (cand + [c])[..|cand|] == cand;
  }

  /** Visiting `c1` and then `c2` is visiting `c1 + c2`. */
  lemma {:induction false} ExtendConcat(busy: seq<Dot>, c1: seq<Dot>, c2: seq<Dot>, size: int)
    ensures Extend(busy, c1 + c2, size) == Extend(Extend(busy, c1, size), c2, size)
    decreases |c2|
  {
    if c2 == [] {
      assert c1 + c2 == c1;
    } else {
      var n := |c2| - 1;
      ExtendConcat(busy, c1, c2[..n], size);
      assert (c1 + c2)[..|c1 + c2| - 1] == c1 + c2[..n];
    }
  }

  /** After the contour, a cell is busy exactly when it was busy before or it was visited and is
      on the board. */
  lemma {:induction false} ExtendMembers(busy: seq<Dot>, cand: seq<Dot>, size: int, x: Dot)
    ensures x in Extend(busy, cand, size) <==> x in busy || (x in cand && InBounds(x, size))
    decreases |cand|
  {
    if cand != [] {
      var n := |cand| - 1;
      ExtendMembers(busy, cand[..n], size, x);
      assert cand == cand[..n] + [cand[n]];
    }
  }

  /** The contour appends no duplicate and no cell off the board, and only cells that were not
      busy before. */
  lemma {:induction false} ExtendFresh(busy: seq<Dot>, cand: seq<Dot>, size: int)
    ensures NoDup(busy) ==> NoDup(Extend(busy, cand, size))
    ensures forall i :: |busy| <= i < |Extend(busy, cand, size)| ==>
              InBounds(Extend(busy, cand, size)[i], size) && Extend(busy, cand, size)[i] !in busy
    decreases |cand|
  {
    if cand != [] {
      var n := |cand| - 1;
      ExtendFresh(busy, cand[..n], size);
      var prev := Extend(busy, cand[..n], size);
      var c := cand[n];
      if InBounds(c, size) && c !in prev {
        assert Extend(busy, cand, size) == prev + [c];
        assert busy <= prev;
      }
    }
  }
}
