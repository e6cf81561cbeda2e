/** Ships: an anchor, a length and an orientation, and the cells they derive. */
module Ships {
  import opened Dots

  /** `ship_orientation`: 0 advances `x` (the row), 1 advances `y` (the column). */
  type Orientation = o: int | o == 0 || o == 1

  /** `ship_size`: every ship covers at least one cell. */
  type Length = n: int | 1 <= n witness 1

  /** The anchor moved `i` cells along the orientation axis. */
  function Shift(anchor: Dot, o: Orientation, i: int): Dot {
    if o == 0 then Dot(anchor.x + i, anchor.y) else Dot(anchor.x, anchor.y + i)
  }

  /** `Ship.dots`: the list built by appending the anchor shifted by `i`, for each `i` below `size`.
      It has exactly `size` cells, cell `i` is the anchor shifted by `i`, and no cell repeats. */
  function ShipDots(anchor: Dot, size: nat, o: Orientation): (r: seq<Dot>)
    ensures |r| == size
    ensures forall i :: 0 <= i < size ==> r[i] == Shift(anchor, o, i)
    ensures NoDup(r)
  {
    if size == 0 then [] else ShipDots(anchor, size - 1, o) + [Shift(anchor, o, size - 1)]
  }

  /** Consecutive cells of a ship are one step apart along the orientation axis, and the
      other coordinate never changes. */
  lemma ShipDotsConsecutive(anchor: Dot, size: nat, o: Orientation, i: nat)
    requires i + 1 < size
    ensures ShipDots(anchor, size, o)[i + 1] == Shift(ShipDots(anchor, size, o)[i], o, 1)
    ensures o == 0 ==> ShipDots(anchor, size, o)[i].y == anchor.y
    ensures o == 1 ==> ShipDots(anchor, size, o)[i].x == anchor.x
  {
  }

  /** A placed ship. Its geometry never changes; `lives` is decremented by each hit. */
  class Ship {
    const firstDot: Dot
    const size: Length
    const orientation: Orientation
    var lives: int

    constructor (firstDot: Dot, size: Length, orientation: Orientation)
      ensures this.firstDot == firstDot && this.size == size && this.orientation == orientation
      ensures lives == size
    {
      this.firstDot := firstDot;
      this.size := size;
      this.orientation := orientation;
      lives := size;
    }

    function Dots(): seq<Dot> {
      ShipDots(firstDot, size, orientation)
    }
  }

  /** The cells of each ship of a list, in order: the abstraction of `ships` the fleet rules
      are stated over. */
  function HullsOf(s: seq<Ship>): (h: seq<seq<Dot>>)
    ensures |h| == |s| && forall k :: 0 <= k < |s| ==> h[k] == s[k].Dots()
  {
    seq(|s|, k requires 0 <= k < |s| => s[k].Dots())
  }

  /** The `ship_lives` of each ship of a list, in order: the abstraction of the fleet's
      mutable state. */
  ghost function LivesOf(s: seq<Ship>): (l: seq<int>)
    reads s
    ensures |l| == |s| && forall k :: 0 <= k < |s| ==> l[k] == s[k].lives
  {
    seq(|s|, k requires 0 <= k < |s| reads s => s[k].lives)
  }

  /** No ship of a list has lost a life. */
  ghost predicate Intact(s: seq<Ship>)
    reads s
  {
    forall k :: 0 <= k < |s| ==> s[k].lives == s[k].size
  }

  /** Appending a ship with all its lives keeps a list intact. */
  lemma IntactAppend(s: seq<Ship>, x: Ship)
    requires Intact(s) && x.lives == x.size
    ensures Intact(s + [x])
  {
  }
}
