/** The board: its grid, busy list, ships and sunk counter, with placement and shot resolution. */
module Boards {
  import opened Errors
  import opened Dots
  import opened Ships
  import opened Contour
  import opened Fleet
  import opened Render

  class Board {
    var hid: bool
    const size: nat
    /** The number of sunk ships. */
    var count: int
    /** `field[x][y]` is the glyph of cell `Dot(x, y)`. */
    var field: seq<seq<char>>
    /** The cells taken by ships or their surroundings while placing, the cells shot at (and the
        surroundings of sunk ships) while playing. */
    var busy: seq<Dot>
    /** The placed ships, in placement order. */
    var ships: seq<Ship>

    /** What every operation keeps: a `size` x `size` grid of glyphs, ships on the board, and a
        busy list of distinct on-board cells. */
    ghost predicate Valid()
      reads this
    {
      IsGrid(field, size) &&
      (forall i, j :: 0 <= i < size && 0 <= j < size ==> IsGlyph(field[i][j])) &&
      Inside(HullsOf(ships), size) &&
      NoDup(busy) &&
      (forall i :: 0 <= i < |busy| ==> InBounds(busy[i], size))
    }

    /** The layout phase, before `begin`: no ship hit or sunk, and the layout rules of `Laid`. */
    ghost predicate Placing()
      reads this, ships
    {
      Valid() && count == 0 &&
      Intact(ships) &&
      Laid(HullsOf(ships), busy, field, size)
    }

    /** The playing phase, after `begin`: `busy` is the shot history and the accounts of
        `Accounted` hold. */
    ghost predicate Playing()
      reads this, ships
    {
      Valid() && Accounted(HullsOf(ships), LivesOf(ships), count, busy, field, size)
    }

    constructor (hid: bool := false, size: nat := 6)
      ensures this.hid == hid && this.size == size
      ensures count == 0 && field == Blank(size) && busy == [] && ships == []
      ensures Placing()
    {
      this.hid := hid;
      this.size := size;
      count := 0;
      field := Blank(size);
      busy := [];
      ships := [];
    }

    /** The grid equals `f0` except that, with `verb`, each cell appended to `busy` since it was
        `b0` is marked `.`. */
    ghost predicate MarkedSince(f0: seq<seq<char>>, b0: seq<Dot>, verb: bool)
      reads this
    {
      IsGrid(f0, size) && IsGrid(field, size) &&
      if verb then Marked(field, f0, busy, b0, size) else field == f0
    }

    /** During play the sunk counter is at most the number of ships, and it equals that number
        exactly when no ship has a life left. */
    lemma CountsSunk()
      requires Playing()
      ensures 0 <= count <= |ships|
      ensures count == |ships| <==> forall k :: 0 <= k < |ships| ==> ships[k].lives == 0
    {
      CountBound(HullsOf(ships), LivesOf(ships), count, busy, field, size);
    }

    /** During play a ship has no life left exactly when all its cells have been shot. */
    lemma SunkIffShot(k: nat)
      requires Playing() && k < |ships|
      ensures ships[k].lives >= 0
      ensures ships[k].lives == 0 <==> forall x :: x in ships[k].Dots() ==> x in busy
    {
      SunkIffShotThrough(HullsOf(ships), LivesOf(ships), count, busy, field, size, k);
    }

    /** `__str__`: the header, then one line per row in order, with the ship glyph hidden on a
        hidden board. */
    method Render() returns (s: string)
      ensures s == Show(field, hid)
    {
      var rows := field;
      var lines := "";
      var i := 0;
      while i < |rows|
        invariant 0 <= i <= |rows|
        invariant lines == Lines(rows[..i])
      {
        LinesStep(rows, i);
        lines := lines + Line(i, rows[i]);
        i := i + 1;
      }
      assert rows[..i] == rows;
      var res := HEADER + lines;
      if hid {
        res := Conceal(res);
      }
      s := res;
    }

    /** `contour(ship, verb)`: visits the ring of every dot of the ship and appends each on-board
        cell that is not busy yet; with `verb` each appended cell is also marked `.` on the grid. */
    method Contour(ship: Ship, verb: bool)
      requires Valid()
      modifies this
      ensures Valid()
      ensures busy == Extend(old(busy), Candidates(ship.Dots()), size)
      ensures MarkedSince(old(field), old(busy), verb)
      ensures ships == old(ships) && count == old(count) && hid == old(hid)
    {
      var dots := ship.Dots();
      var k := 0;
      while k < |dots|
        invariant 0 <= k <= |dots|
        invariant Valid()
        invariant busy == Extend(old(busy), Candidates(dots[..k]), size)
        invariant MarkedSince(old(field), old(busy), verb)
        invariant ships == old(ships) && count == old(count) && hid == old(hid)
      {
        ghost var before := busy;
        ghost var f1 := field;
        ContourDot(dots[k], verb);
        assert dots[..k + 1][..k] == dots[..k];
        ExtendConcat(old(busy), Candidates(dots[..k]), Ring(dots[k]), size);
        if verb {
          MarkedTrans(field, f1, old(field), busy, before, old(busy), size);
        }
        k := k + 1;
      }
      assert dots[..k] == dots;
    }

    /** The inner loop of `contour`: the ring of one dot, offset by offset. */
    method ContourDot(d: Dot, verb: bool)
      requires Valid()
      modifies this
      ensures Valid()
      ensures busy == Extend(old(busy), Ring(d), size)
      ensures MarkedSince(old(field), old(busy), verb)
      ensures ships == old(ships) && count == old(count) && hid == old(hid)
    {
      var n := 0;
      while n < |NEAR|
        invariant 0 <= n <= |NEAR|
        invariant Valid()
        invariant busy == Extend(old(busy), Ring(d)[..n], size)
        invariant MarkedSince(old(field), old(busy), verb)
        invariant ships == old(ships) && count == old(count) && hid == old(hid)
      {
        VisitNear(d, n, verb, old(busy), old(field));
        n := n + 1;
      }
      assert Ring(d)[..n] == Ring(d);
    }

    /** The body of the inner loop of `contour`: offset `n` around `d`, continuing a visit of the
        ring that began when `busy` was `b0` and the grid `f0`. */
    method VisitNear(d: Dot, n: nat, verb: bool, ghost b0: seq<Dot>, ghost f0: seq<seq<char>>)
      requires Valid() && n < |NEAR|
      requires busy == Extend(b0, Ring(d)[..n], size) && MarkedSince(f0, b0, verb)
      modifies this
      ensures Valid()
      ensures busy == Extend(b0, Ring(d)[..n + 1], size) && MarkedSince(f0, b0, verb)
      ensures ships == old(ships) && count == old(count) && hid == old(hid)
    {
      ghost var ring := Ring(d);
      var current := Dot(d.x + NEAR[n].0, d.y + NEAR[n].1);
      assert ring[n] == current;
      assert ring[..n + 1] == ring[..n] + [current];
      ExtendStep(b0, ring[..n], current, size);
      Visit(current, verb);
      if verb {
        MarkedTrans(field, old(field), f0, busy, old(busy), b0, size);
      }
    }

    /** One step of `contour`: an on-board cell that is not busy yet is appended to `busy` and,
        with `verb`, marked `.`; any other cell changes nothing. */
    method Visit(c: Dot, verb: bool)
      requires Valid()
      modifies this
      ensures Valid()
      ensures busy == if InBounds(c, size) && c !in old(busy) then old(busy) + [c] else old(busy)
      ensures field == if verb && InBounds(c, size) && c !in old(busy) then SetCell(old(field), c, MISS)
                       else old(field)
      ensures MarkedSince(old(field), old(busy), verb)
      ensures ships == old(ships) && count == old(count) && hid == old(hid)
    {
      if InBounds(c, size) && c !in busy {
        if verb {
          field := SetCell(field, c, MISS);
        }
        busy := busy + [c];
      }
    }

    /** The first loop of `add_ship`: every cell of the ship is on the board and not busy. */
    method Fits(ship: Ship) returns (ok: bool)
      ensures ok <==> FitsIn(busy, size, ship.Dots())
    {
      var dots := ship.Dots();
      var k := 0;
      while k < |dots|
        invariant 0 <= k <= |dots|
        invariant forall i :: 0 <= i < k ==> InBounds(dots[i], size) && dots[i] !in busy
      {
        if !InBounds(dots[k], size) || dots[k] in busy {
          return false;
        }
        k := k + 1;
      }
      return true;
    }

    /** The second loop of `add_ship`: paints every cell of the ship and appends it to `busy`. */
    method PlaceDots(ship: Ship)
      requires IsGrid(field, size)
      requires forall i :: 0 <= i < ship.size ==> InBounds(ship.Dots()[i], size)
      modifies this
      ensures busy == old(busy) + ship.Dots()
      ensures Painted(field, old(field), ship.Dots(), size)
      ensures ships == old(ships) && count == old(count) && hid == old(hid)
    {
      var dots := ship.Dots();
      var k := 0;
      while k < |dots|
        invariant 0 <= k <= |dots|
        invariant busy == old(busy) + dots[..k]
        invariant IsGrid(field, size)
        invariant forall i, j :: 0 <= i < size && 0 <= j < size ==>
                    field[i][j] == if Dot(i, j) in dots[..k] then SHIP else old(field)[i][j]
        invariant ships == old(ships) && count == old(count) && hid == old(hid)
      {
        field := SetCell(field, dots[k], SHIP);
        busy := busy + [dots[k]];
        assert dots[..k + 1] == dots[..k] + [dots[k]];
        k := k + 1;
      }
      assert dots[..k] == dots;
    }

    /** `add_ship(ship)`: rejects the ship, changing nothing, when one of its cells is off the
        board or busy; otherwise places it. */
    method AddShip(ship: Ship) returns (r: Result<()>)
      requires Valid()
      modifies this
      ensures Valid()
      ensures r.Err? <==> !FitsIn(old(busy), size, ship.Dots())
      ensures r.Err? ==> r.error == ShipLayout && field == old(field) && busy == old(busy) && ships == old(ships)
      ensures r.Ok? ==> ships == old(ships) + [ship] && busy == Placed(old(busy), size, ship.Dots())
      ensures r.Ok? ==> Painted(field, old(field), ship.Dots(), size)
      ensures r.Ok? ==> forall i, c :: 0 <= i < ship.size && InBounds(c, size) && Adjacent(c, ship.Dots()[i]) ==> c in busy
      ensures count == old(count) && hid == old(hid)
      ensures old(Placing()) && ship.lives == ship.size ==> Placing()
    {
      var fits := Fits(ship);
      if !fits {
        return Err(ShipLayout);
      }
      Place(ship);
      r := Ok(());
    }

    /** The accepting branch of `add_ship`: paints the ship's cells, appends them to `busy`,
        appends the ship and appends its contour to `busy`. */
    method Place(ship: Ship)
      requires Valid()
      requires FitsIn(busy, size, ship.Dots())
      modifies this
      ensures Valid()
      ensures ships == old(ships) + [ship]
      ensures busy == Placed(old(busy), size, ship.Dots())
      ensures Painted(field, old(field), ship.Dots(), size)
      ensures forall i, c :: 0 <= i < ship.size && InBounds(c, size) && Adjacent(c, ship.Dots()[i]) ==> c in busy
      ensures count == old(count) && hid == old(hid)
      ensures old(Placing()) && ship.lives == ship.size ==> Placing()
    {
      var dots := ship.Dots();
      ghost var s0 := ships;
      ghost var wasPlacing := Placing();
      ghost var h := HullsOf(ships);
      assert FitsIn(old(busy), size, dots);
      PlaceDots(ship);
      ships := ships + [ship];
      assert HullsOf(ships) == h + [dots];
      NoDupAppend(old(busy), dots);
      assert Valid();
      ghost var f1 := field;
      Contour(ship, false);
      ContourCovers(old(busy) + dots, dots, size);
      if wasPlacing && ship.lives == ship.size {
        PlacementKeepsLaid(h, old(busy), old(field), size, dots, f1);
        IntactAppend(s0, ship);
      }
    }

    /** The search of `shot`: the index of the first ship holding `d`, or `|ships|` when none does. */
    method Find(d: Dot) returns (k: nat)
      ensures k == Holder(HullsOf(ships), d)
    {
      ghost var h := HullsOf(ships);
      k := 0;
      while k < |ships| && d !in ships[k].Dots()
        invariant 0 <= k <= |ships|
        invariant forall j :: 0 <= j < k ==> d !in h[j]
      {
        k := k + 1;
      }
      HolderIs(h, d, k);
    }

    /** `shot(d)`: an off-board cell is `BoardOut` and a busy cell `RepeatedShot`, changing
        nothing; otherwise `d` joins `busy`, and either no ship holds it (a miss, marked `.`) or
        the first ship holding it loses a life and the cell is marked `X`; when that ship's lives
        reach 0 the sunk counter grows and its contour is appended to `busy` and marked `.`. The
        result tells whether a ship was hit. */
    method Shot(d: Dot) returns (r: Result<bool>)
      requires Valid()
      modifies this, ships
      ensures Valid() && ships == old(ships) && hid == old(hid)
      ensures r == Err(BoardOut) <==> !InBounds(d, size)
      ensures r == Err(RepeatedShot) <==> InBounds(d, size) && d in old(busy)
      ensures r.Ok? <==> InBounds(d, size) && d !in old(busy)
      ensures r.Ok? ==> d in busy
      ensures r.Err? ==> field == old(field) && busy == old(busy) && count == old(count) &&
                         forall j :: 0 <= j < |ships| ==> ships[j].lives == old(ships[j].lives)
      ensures r.Ok? ==> (r.value <==> Occupied(HullsOf(ships), d))
      ensures r == Ok(false) ==>
                busy == old(busy) + [d] && field == SetCell(old(field), d, MISS) && count == old(count) &&
                forall j :: 0 <= j < |ships| ==> ships[j].lives == old(ships[j].lives)
      ensures r == Ok(true) ==>
                var k := Holder(HullsOf(ships), d);
                k < |ships| && ships[k].lives == old(ships[k].lives) - 1 &&
                (forall j :: 0 <= j < |ships| && ships[j] != ships[k] ==> ships[j].lives == old(ships[j].lives)) &&
                (ships[k].lives != 0 ==>
                   busy == old(busy) + [d] && field == SetCell(old(field), d, HIT) && count == old(count)) &&
                (ships[k].lives == 0 ==>
                   count == old(count) + 1 &&
                   busy == Extend(old(busy) + [d], Candidates(ships[k].Dots()), size) &&
                   MarkedSince(SetCell(old(field), d, HIT), old(busy) + [d], true))
      ensures old(Playing()) ==> Playing()
    {
      if !InBounds(d, size) {
        return Err(BoardOut);
      }
      if d in busy {
        return Err(RepeatedShot);
      }
      var hit := Fire(d);
      return Ok(hit);
    }

    /** A shot at an on-board cell that is not busy: the search for a ship holding `d`, then
        the miss or the hit. */
    method Fire(d: Dot) returns (hit: bool)
      requires Valid() && InBounds(d, size) && d !in busy
      modifies this, ships
      ensures Valid() && ships == old(ships) && hid == old(hid)
      ensures hit <==> Occupied(HullsOf(ships), d)
      ensures d in busy
      ensures !hit ==>
                busy == old(busy) + [d] && field == SetCell(old(field), d, MISS) && count == old(count) &&
                forall j :: 0 <= j < |ships| ==> ships[j].lives == old(ships[j].lives)
      ensures hit ==>
                var k := Holder(HullsOf(ships), d);
                k < |ships| && ships[k].lives == old(ships[k].lives) - 1 &&
                (forall j :: 0 <= j < |ships| && ships[j] != ships[k] ==> ships[j].lives == old(ships[j].lives)) &&
                (ships[k].lives != 0 ==>
                   busy == old(busy) + [d] && field == SetCell(old(field), d, HIT) && count == old(count)) &&
                (ships[k].lives == 0 ==>
                   count == old(count) + 1 &&
                   busy == Extend(old(busy) + [d], Candidates(ships[k].Dots()), size) &&
                   MarkedSince(SetCell(old(field), d, HIT), old(busy) + [d], true))
      ensures old(Playing()) ==> Playing()
    {
      var k := Find(d);
      HolderFirst(HullsOf(ships), d);
      if k == |ships| {
        Miss(d);
        return false;
      }
      Hit(k, d);
      return true;
    }

    /** A shot that no ship holds: `d` joins `busy` and is marked `.`. */
    method Miss(d: Dot)
      requires Valid() && InBounds(d, size) && d !in busy && !Occupied(HullsOf(ships), d)
      modifies this
      ensures Valid()
      ensures busy == old(busy) + [d] && field == SetCell(old(field), d, MISS)
      ensures ships == old(ships) && count == old(count) && hid == old(hid)
      ensures old(Playing()) ==> Playing()
    {
      ghost var wasPlaying := Playing();
      ghost var lives0 := LivesOf(ships);
      Record(d, MISS);
      if wasPlaying {
        assert LivesOf(ships) == lives0;
        MissKeepsAccounted(HullsOf(ships), lives0, count, old(busy), old(field), size, d);
        assert Accounted(HullsOf(ships), LivesOf(ships), count, busy, field, size);
      }
    }

    /** A shot that ship `k`, which holds `d`, takes: `d` joins `busy` and is marked `X`,
        the ship loses a life, and when its lives reach 0 the sunk counter grows and its contour
        is appended to `busy` and marked `.`. */
    method Hit(k: nat, d: Dot)
      requires Valid() && InBounds(d, size) && d !in busy
      requires k < |ships| && d in HullsOf(ships)[k]
      modifies this, ships[k]
      ensures Valid() && ships == old(ships) && hid == old(hid)
      ensures ships[k].lives == old(ships[k].lives) - 1
      ensures ships[k].lives != 0 ==>
                busy == old(busy) + [d] && field == SetCell(old(field), d, HIT) && count == old(count)
      ensures ships[k].lives == 0 ==>
                count == old(count) + 1 &&
                busy == Extend(old(busy) + [d], Candidates(ships[k].Dots()), size) &&
                MarkedSince(SetCell(old(field), d, HIT), old(busy) + [d], true)
      ensures d in busy
      ensures old(Playing()) ==> Playing()
    {
      ghost var wasPlaying := Playing();
      ghost var h := HullsOf(ships);
      ghost var lives0 := LivesOf(ships);
      ghost var c0, b0, f0 := count, busy, field;
      ghost var apart := Separated(h) && d in h[k];
      Wound(k, d);
      ghost var lives1 := LivesOf(ships);
      assert apart ==> lives1 == lives0[k := lives0[k] - 1];
      Record(d, HIT);
      assert LivesOf(ships) == lives1;
      if ships[k].lives == 0 {
        Sink(k);
        ExtendMembers(old(busy) + [d], Candidates(ships[k].Dots()), size, d);
      }
      if wasPlaying {
        assert apart;
        assert LivesOf(ships) == lives0[k := lives0[k] - 1];
        assert HullsOf(ships) == h;
        ShotHitKeepsAccounted(h, lives0, c0, b0, f0, size, d, k, count, busy, field);
        assert Accounted(HullsOf(ships), LivesOf(ships), count, busy, field, size);
      }
    }

    /** A shot cell joins `busy` and shows `ch`. */
    method Record(d: Dot, ch: char)
      requires Valid() && InBounds(d, size) && d !in busy && IsGlyph(ch)
      modifies this
      ensures Valid()
      ensures ships == old(ships) && count == old(count) && hid == old(hid)
      ensures busy == old(busy) + [d] && field == SetCell(old(field), d, ch)
      ensures LivesOf(ships) == old(LivesOf(ships))
    {
      busy := busy + [d];
      field := SetCell(field, d, ch);
    }

    /** Ship `k` loses a life; when it holds `d` and the fleet is separated, no other ship
        shares its identity, so every other ship keeps its lives. */
    method Wound(k: nat, d: Dot)
      requires k < |ships|
      modifies ships[k]
      ensures ships[k].lives == old(ships[k].lives) - 1
      ensures old(Separated(HullsOf(ships)) && d in HullsOf(ships)[k]) ==>
                LivesOf(ships) == old(LivesOf(ships)[k := LivesOf(ships)[k] - 1])
    {
      ghost var h := HullsOf(ships);
      ghost var lives0 := LivesOf(ships);
      var ship := ships[k];
      ship.lives := ship.lives - 1;
      if Separated(h) && d in h[k] {
        forall j | 0 <= j < |ships|
          ensures LivesOf(ships)[j] == lives0[k := lives0[k] - 1][j]
        {
          if j != k {
            SeparatedDisjoint(h, k, j, d);
            assert ships[j] != ship;
          }
        }
      }
    }

    /** The sinking of ship `k`: the sunk counter grows and the ship's contour is appended to
        `busy` and marked `.`. */
    method Sink(k: nat)
      requires Valid() && k < |ships|
      modifies this
      ensures Valid()
      ensures ships == old(ships) && hid == old(hid)
      ensures count == old(count) + 1
      ensures busy == Extend(old(busy), Candidates(ships[k].Dots()), size)
      ensures MarkedSince(old(field), old(busy), true)
      ensures LivesOf(ships) == old(LivesOf(ships))
    {
      count := count + 1;
      Contour(ships[k], true);
    }

    /** `begin()`: clears `busy` and keeps the layout; after the layout phase this starts the
        playing phase. */
    method Begin()
      requires Valid()
      modifies this
      ensures Valid() && busy == []
      ensures field == old(field) && ships == old(ships) && count == old(count) && hid == old(hid)
      ensures old(Placing()) ==> Playing() && Intact(ships)
    {
      ghost var wasPlacing := Placing();
      ghost var b0 := busy;
      busy := [];
      if wasPlacing {
        BeginAccounted(HullsOf(ships), b0, field, size, LivesOf(ships));
      }
    }
  }
}
