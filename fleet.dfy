/** The placement and accounting rules of a board, stated on the cells of its ships. A fleet is
    given as the list of the cell lists of its ships, in placement order. */
module Fleet {
  import opened Dots
  import opened Contour

  /** Some ship covers `c`. */
  predicate Occupied(h: seq<seq<Dot>>, c: Dot) {
    exists k :: 0 <= k < |h| && c in h[k]
  }

  /** Every ship lies on the board. */
  predicate Inside(h: seq<seq<Dot>>, size: int) {
    forall k, i :: 0 <= k < |h| && 0 <= i < |h[k]| ==> InBounds(h[k][i], size)
  }

  /** No cell of `a` touches a cell of `b`, orthogonally or diagonally, or lies on it. */
  predicate Apart(a: seq<Dot>, b: seq<Dot>) {
    forall i, j :: 0 <= i < |a| && 0 <= j < |b| ==> !Adjacent(a[i], b[j])
  }

  /** No two ships overlap or touch. */
  predicate Separated(h: seq<seq<Dot>>) {
    forall k, l :: 0 <= k < |h| && 0 <= l < |h| && k != l ==> Apart(h[k], h[l])
  }

  /** `busy` holds every on-board cell of the 3x3 neighbourhood of every ship cell. */
  ghost predicate Covers(busy: seq<Dot>, h: seq<seq<Dot>>, size: int) {
    forall k, i, c :: 0 <= k < |h| && 0 <= i < |h[k]| && InBounds(c, size) && Adjacent(c, h[k][i]) ==> c in busy
  }

  /** The test of `add_ship` on a busy list: every cell on the board and not busy. */
  predicate FitsIn(busy: seq<Dot>, size: int, cells: seq<Dot>) {
    forall i :: 0 <= i < |cells| ==> InBounds(cells[i], size) && cells[i] !in busy
  }

  /** The busy list after `add_ship` accepts a ship with these cells: the cells, then the
      new cells of their contour. */
  function Placed(busy: seq<Dot>, size: int, cells: seq<Dot>): seq<Dot> {
    Extend(busy + cells, Candidates(cells), size)
  }

  /** Separated ships share no cell: a cell belongs to at most one ship. */
  lemma SeparatedDisjoint(h: seq<seq<Dot>>, k: nat, l: nat, c: Dot)
    requires Separated(h) && k < |h| && l < |h| && k != l
    requires c in h[k]
    ensures c !in h[l]
  {
    var i :| 0 <= i < |h[k]| && h[k][i] == c;
    forall j | 0 <= j < |h[l]| ensures h[l][j] != c {
      assert !Adjacent(h[k][i], h[l][j]);
    }
  }

  /** A ship whose cells are all on the board and not busy keeps a separated fleet separated when
      `busy` covers the fleet: this is why `add_ship` never lets two ships touch. */
  lemma PlacementKeepsSeparated(busy: seq<Dot>, h: seq<seq<Dot>>, size: int, dots: seq<Dot>)
    requires Separated(h) && Inside(h, size) && Covers(busy, h, size)
    requires FitsIn(busy, size, dots)
    ensures Separated(h + [dots])
  {
    var h' := h + [dots];
    forall k, l | 0 <= k < |h'| && 0 <= l < |h'| && k != l
      ensures Apart(h'[k], h'[l])
    {
      if k < |h| && l < |h| {
        assert h'[k] == h[k] && h'[l] == h[l];
      } else if k == |h| {
        forall i, j | 0 <= i < |dots| && 0 <= j < |h[l]| ensures !Adjacent(dots[i], h[l][j]) {
          assert InBounds(dots[i], size) && dots[i] !in busy;
        }
      } else {
        forall i, j | 0 <= i < |h[k]| && 0 <= j < |dots| ensures !Adjacent(h[k][i], dots[j]) {
          assert Adjacent(h[k][i], dots[j]) == Adjacent(dots[j], h[k][i]);
          assert InBounds(dots[j], size) && dots[j] !in busy;
        }
      }
    }
  }

  /** Any ship that overlaps or touches a placed ship has a cell that is off the board or busy,
      so `add_ship` rejects it. */
  lemma TouchingPlacementRejected(busy: seq<Dot>, h: seq<seq<Dot>>, size: int, dots: seq<Dot>, k: nat, i: nat, j: nat)
    requires Covers(busy, h, size)
    requires k < |h| && j < |h[k]| && i < |dots| && Adjacent(dots[i], h[k][j])
    ensures !FitsIn(busy, size, dots)
  {
    assert !InBounds(dots[i], size) || dots[i] in busy;
  }

  /** After the contour of a ship, every on-board cell around each of its dots is busy. */
  lemma ContourCovers(busy: seq<Dot>, dots: seq<Dot>, size: int)
    ensures forall i, c :: 0 <= i < |dots| && InBounds(c, size) && Adjacent(c, dots[i]) ==>
              c in Extend(busy, Candidates(dots), size)
  {
    forall i, c | 0 <= i < |dots| && InBounds(c, size) && Adjacent(c, dots[i])
      ensures c in Extend(busy, Candidates(dots), size)
    {
      CandidatesMembers(dots, c);
      ExtendMembers(busy, Candidates(dots), size, c);
    }
  }

  /** Placing a ship (its cells appended to `busy`, then its contour) keeps `busy` covering the
      fleet, the new ship included. */
  lemma PlacementCovers(busy: seq<Dot>, h: seq<seq<Dot>>, size: int, dots: seq<Dot>)
    requires Covers(busy, h, size)
    ensures Covers(Placed(busy, size, dots), h + [dots], size)
  {
    var b := Placed(busy, size, dots);
    var h' := h + [dots];
    ContourCovers(busy + dots, dots, size);
    forall k, i, c | 0 <= k < |h'| && 0 <= i < |h'[k]| && InBounds(c, size) && Adjacent(c, h'[k][i])
      ensures c in b
    {
      if k < |h| {
        assert h'[k] == h[k];
        assert c in busy;
        assert busy <= busy + dots <= b;
      }
    }
  }

  /** The number of cells of `s` that are busy. */
  function Count(s: seq<Dot>, busy: seq<Dot>): (n: nat)
    ensures n <= |s|
  {
    if s == [] then 0 else Count(s[..|s| - 1], busy) + (if s[|s| - 1] in busy then 1 else 0)
  }

  /** The count depends only on which cells of `s` are busy. */
  lemma {:induction false} CountSame(s: seq<Dot>, b1: seq<Dot>, b2: seq<Dot>)
    requires forall x :: x in s ==> (x in b1 <==> x in b2)
    ensures Count(s, b1) == Count(s, b2)
  {
    if s != [] {
      var n := |s| - 1;
      assert forall x :: x in s[..n] ==> x in s;
      CountSame(s[..n], b1, b2);
      assert s[n] in s;
    }
  }

  /** All cells of `s` are busy exactly when the count reaches the length of `s`. */
  lemma {:induction false} CountFull(s: seq<Dot>, busy: seq<Dot>)
    ensures Count(s, busy) == |s| <==> forall x :: x in s ==> x in busy
  {
    if s != [] {
      var n := |s| - 1;
      CountFull(s[..n], busy);
      assert s == s[..n] + [s[n]];
      if Count(s, busy) == |s| {
        assert Count(s[..n], busy) == n;
      }
    }
  }

  /** A shot at a cell that was not busy raises the count of a ship without repeated cells by one
      exactly when the ship covers that cell. */
  lemma {:induction false} CountShot(s: seq<Dot>, busy: seq<Dot>, d: Dot)
    requires NoDup(s) && d !in busy
    ensures Count(s, busy + [d]) == Count(s, busy) + (if d in s then 1 else 0)
  {
    if s != [] {
      var n := |s| - 1;
      assert NoDup(s[..n]);
      CountShot(s[..n], busy, d);
      assert s == s[..n] + [s[n]];
      if s[n] == d {
        assert d !in s[..n];
      }
    }
  }

  /** The number of zero entries: `count` is the number of ships whose lives are 0. */
  function NumZero(ls: seq<int>): (n: nat)
    ensures n <= |ls|
  {
    if ls == [] then 0 else NumZero(ls[..|ls| - 1]) + (if ls[|ls| - 1] == 0 then 1 else 0)
  }

  /** Changing one entry changes the number of zeros only by what that entry gains or loses. */
  lemma {:induction false} NumZeroUpdate(ls: seq<int>, k: nat, v: int)
    requires k < |ls|
    ensures NumZero(ls[k := v]) == NumZero(ls) - (if ls[k] == 0 then 1 else 0) + (if v == 0 then 1 else 0)
  {
    var n := |ls| - 1;
    if k < n {
      NumZeroUpdate(ls[..n], k, v);
      assert ls[k := v][..n] == ls[..n][k := v];
    } else {
      assert ls[k := v][..n] == ls[..n];
    }
  }

  /** Taking one life from an entry that has some adds a zero exactly when it had one left. */
  lemma NumZeroHit(ls: seq<int>, k: nat)
    requires k < |ls| && ls[k] >= 1
    ensures NumZero(ls[k := ls[k] - 1]) == NumZero(ls) + (if ls[k] == 1 then 1 else 0)
  {
    NumZeroUpdate(ls, k, ls[k] - 1);
  }

  /** The number of zeros is the length exactly when every entry is zero, and it is 0 exactly
      when no entry is. */
  lemma {:induction false} NumZeroBounds(ls: seq<int>)
    ensures NumZero(ls) == |ls| <==> forall k :: 0 <= k < |ls| ==> ls[k] == 0
    ensures NumZero(ls) == 0 <==> forall k :: 0 <= k < |ls| ==> ls[k] != 0
  {
    if ls != [] {
      var n := |ls| - 1;
      NumZeroBounds(ls[..n]);
      assert forall k :: 0 <= k < n ==> ls[..n][k] == ls[k];
    }
  }

  /** The index of the first ship covering `d`, or the number of ships if none does: the ship
      at which the ship loop of `shot` stops. */
  function Holder(h: seq<seq<Dot>>, d: Dot): (k: nat)
    ensures k <= |h|
  {
    if h == [] then 0 else if d in h[0] then 0 else 1 + Holder(h[1..], d)
  }

  /** `Holder` is the first ship covering `d`, if any ship does. */
  lemma {:induction false} HolderFirst(h: seq<seq<Dot>>, d: Dot)
    ensures var k := Holder(h, d);
            (k < |h| ==> d in h[k]) && (forall j :: 0 <= j < k ==> d !in h[j]) &&
            (k == |h| <==> !Occupied(h, d))
  {
    if h != [] && d !in h[0] {
      HolderFirst(h[1..], d);
      assert forall j :: 1 <= j < |h| ==> h[1..][j - 1] == h[j];
    }
  }

  /** Conversely, an index before which no ship covers `d`, and which covers `d` unless it is
      past the last ship, is `Holder`. */
  lemma {:induction false} HolderIs(h: seq<seq<Dot>>, d: Dot, k: nat)
    requires k <= |h| && (k < |h| ==> d in h[k])
    requires forall j :: 0 <= j < k ==> d !in h[j]
    ensures Holder(h, d) == k
  {
    if h != [] && k > 0 {
      assert d !in h[0];
      assert forall j :: 0 <= j < k - 1 ==> h[1..][j] == h[j + 1];
      HolderIs(h[1..], d, k - 1);
    }
  }

  /** `field'` is the `size` x `size` grid `field` with every cell that is in `busy'` but not in
      `busy` marked `.`: what marking a contour leaves behind. */
  predicate Marked(field': seq<seq<char>>, field: seq<seq<char>>, busy': seq<Dot>, busy: seq<Dot>, size: nat) {
    IsGrid(field', size) && IsGrid(field, size) &&
    forall i, j :: 0 <= i < size && 0 <= j < size ==>
      field'[i][j] == if Dot(i, j) in busy' && Dot(i, j) !in busy then MISS else field[i][j]
  }

  /** Two markings in a row, over growing histories, are one marking. */
  lemma MarkedTrans(f2: seq<seq<char>>, f1: seq<seq<char>>, f0: seq<seq<char>>,
                    b2: seq<Dot>, b1: seq<Dot>, b0: seq<Dot>, size: nat)
    requires Marked(f2, f1, b2, b1, size) && Marked(f1, f0, b1, b0, size)
    requires b0 <= b1 <= b2
    ensures Marked(f2, f0, b2, b0, size)
  {
  }

  /** The glyph a cell holds during play: ship cells show `X` once shot and the ship glyph before;
      other cells show `.` once busy (a miss or the ring around a sunk ship) and `O` before. */
  function Expected(h: seq<seq<Dot>>, busy: seq<Dot>, c: Dot): char {
    if Occupied(h, c) then (if c in busy then HIT else SHIP)
    else (if c in busy then MISS else EMPTY)
  }

  /** The cells the contour of a sunk ship adds are not cells of any ship: marking them `.` never
      overwrites a ship's cell, its own or another's. */
  lemma SinkMarksOnlyWater(h: seq<seq<Dot>>, k: nat, busy: seq<Dot>, size: int)
    requires Separated(h) && k < |h|
    requires forall x :: x in h[k] ==> x in busy
    ensures forall c :: c in Extend(busy, Candidates(h[k]), size) && c !in busy ==> !Occupied(h, c)
  {
    forall c | c in Extend(busy, Candidates(h[k]), size) && c !in busy
      ensures !Occupied(h, c)
    {
      ExtendMembers(busy, Candidates(h[k]), size, c);
      CandidatesMembers(h[k], c);
      var i :| 0 <= i < |h[k]| && Adjacent(c, h[k][i]);
      forall l | 0 <= l < |h| && l != k ensures c !in h[l] {
        forall j | 0 <= j < |h[l]| ensures h[l][j] != c {
          assert !Adjacent(h[l][j], h[k][i]);
        }
      }
    }
  }

  /** A ship joins the fleet: a cell is occupied afterwards exactly when it was before or the new
      ship covers it. */
  lemma OccupiedAppend(h: seq<seq<Dot>>, dots: seq<Dot>, c: Dot)
    ensures Occupied(h + [dots], c) <==> Occupied(h, c) || c in dots
  {
    var h' := h + [dots];
    if Occupied(h, c) {
      var k :| 0 <= k < |h| && c in h[k];
      assert h'[k] == h[k];
    }
    if c in dots {
      assert h'[|h|] == dots;
    }
    if Occupied(h', c) {
      var k :| 0 <= k < |h'| && c in h'[k];
      if k < |h| {
        assert h'[k] == h[k];
      }
    }
  }

  /** The layout phase: ships pairwise apart and on the board, `busy` covering their
      surroundings, and the grid showing the ship glyph exactly on ship cells. */
  ghost predicate Laid(h: seq<seq<Dot>>, busy: seq<Dot>, field: seq<seq<char>>, size: nat) {
    Separated(h) && Inside(h, size) && Covers(busy, h, size) &&
    IsGrid(field, size) &&
    forall i, j :: 0 <= i < size && 0 <= j < size ==>
      field[i][j] == if Occupied(h, Dot(i, j)) then SHIP else EMPTY
  }

  /** `field'` is the `size` x `size` grid `field` with the cells of `dots` showing the ship glyph. */
  predicate Painted(field': seq<seq<char>>, field: seq<seq<char>>, dots: seq<Dot>, size: nat) {
    IsGrid(field', size) && IsGrid(field, size) &&
    forall i, j :: 0 <= i < size && 0 <= j < size ==>
      field'[i][j] == if Dot(i, j) in dots then SHIP else field[i][j]
  }

  /** A successful placement (all cells on the board and not busy; cells painted, appended to
      `busy`, then the contour appended) keeps the layout rules, the new ship included. */
  lemma PlacementKeepsLaid(h: seq<seq<Dot>>, busy: seq<Dot>, field: seq<seq<char>>, size: nat,
                           dots: seq<Dot>, field': seq<seq<char>>)
    requires Laid(h, busy, field, size)
    requires FitsIn(busy, size, dots)
    requires Painted(field', field, dots, size)
    ensures Laid(h + [dots], Placed(busy, size, dots), field', size)
  {
    PlacementKeepsSeparated(busy, h, size, dots);
    PlacementCovers(busy, h, size, dots);
    forall i, j | 0 <= i < size && 0 <= j < size
      ensures field'[i][j] == if Occupied(h + [dots], Dot(i, j)) then SHIP else EMPTY
    {
      OccupiedAppend(h, dots, Dot(i, j));
    }
    var h' := h + [dots];
    forall k, i | 0 <= k < |h'| && 0 <= i < |h'[k]| ensures InBounds(h'[k][i], size) {
      if k < |h| {
        assert h'[k] == h[k];
      }
    }
  }

  /** Every ship lists each of its cells once. */
  predicate Simple(h: seq<seq<Dot>>) {
    forall k :: 0 <= k < |h| ==> NoDup(h[k])
  }

  /** The lives of each ship are its length minus the number of its cells shot. */
  predicate Tallied(h: seq<seq<Dot>>, lives: seq<int>, busy: seq<Dot>) {
    |lives| == |h| && forall k :: 0 <= k < |h| ==> lives[k] == |h[k]| - Count(h[k], busy)
  }

  /** Each cell of the grid shows what the shot history says about it. */
  predicate Shows(field: seq<seq<char>>, h: seq<seq<Dot>>, busy: seq<Dot>, size: nat) {
    IsGrid(field, size) &&
    forall i, j :: 0 <= i < size && 0 <= j < size ==> field[i][j] == Expected(h, busy, Dot(i, j))
  }

  /** The playing phase: ships apart; the lives of each ship are its length minus its cells
      shot; `count` is the number of ships with no lives left; each cell shows what the shot
      history says about it. */
  predicate Accounted(h: seq<seq<Dot>>, lives: seq<int>, count: int, busy: seq<Dot>,
                      field: seq<seq<char>>, size: nat) {
    Separated(h) && Simple(h) && Tallied(h, lives, busy) && count == NumZero(lives) &&
    Shows(field, h, busy, size)
  }

  /** `begin` after the layout phase, with every ship at full lives and no ship sunk, starts the
      playing phase with an empty history. */
  lemma BeginAccounted(h: seq<seq<Dot>>, busy: seq<Dot>, field: seq<seq<char>>, size: nat, lives: seq<int>)
    requires Laid(h, busy, field, size)
    requires forall k :: 0 <= k < |h| ==> NoDup(h[k]) && |h[k]| >= 1
    requires |lives| == |h| && forall k :: 0 <= k < |h| ==> lives[k] == |h[k]|
    ensures Accounted(h, lives, 0, [], field, size)
  {
    forall k | 0 <= k < |h| ensures Count(h[k], []) == 0 {
      CountNone(h[k]);
    }
    NumZeroBounds(lives);
  }

  lemma {:induction false} CountNone(s: seq<Dot>)
    ensures Count(s, []) == 0
  {
    if s != [] {
      CountNone(s[..|s| - 1]);
    }
  }

  /** Marking a newly shot cell `X` on a ship and `.` elsewhere keeps the grid in step with the
      history. */
  lemma ShotShows(field: seq<seq<char>>, h: seq<seq<Dot>>, busy: seq<Dot>, size: nat, d: Dot)
    requires Shows(field, h, busy, size) && InBounds(d, size)
    ensures Shows(SetCell(field, d, if Occupied(h, d) then HIT else MISS), h, busy + [d], size)
  {
  }

  /** A shot at an on-board cell that is not busy and that no ship covers keeps the accounts:
      nothing but the history and that cell, now `.`, changes. */
  lemma MissKeepsAccounted(h: seq<seq<Dot>>, lives: seq<int>, count: int, busy: seq<Dot>,
                           field: seq<seq<char>>, size: nat, d: Dot)
    requires Accounted(h, lives, count, busy, field, size)
    requires InBounds(d, size) && d !in busy && !Occupied(h, d)
    ensures Accounted(h, lives, count, busy + [d], SetCell(field, d, MISS), size)
  {
    forall k | 0 <= k < |h| ensures Count(h[k], busy + [d]) == Count(h[k], busy) {
      CountShot(h[k], busy, d);
    }
    ShotShows(field, h, busy, size, d);
  }

  /** A shot at an on-board cell that is not busy and that ship `k` (the first, and by
      separation the only, ship covering it) covers: that ship had at least one life and loses
      exactly one, and no other ship's lives change. */
  lemma ShotTallied(h: seq<seq<Dot>>, lives: seq<int>, busy: seq<Dot>, d: Dot, k: nat)
    requires Separated(h) && Simple(h) && Tallied(h, lives, busy)
    requires d !in busy && k < |h| && d in h[k]
    ensures lives[k] >= 1 && Tallied(h, lives[k := lives[k] - 1], busy + [d])
  {
    CountFull(h[k], busy);
    forall j | 0 <= j < |h| ensures Count(h[j], busy + [d]) == Count(h[j], busy) + (if j == k then 1 else 0) {
      CountShot(h[j], busy, d);
      if j != k {
        SeparatedDisjoint(h, k, j, d);
      }
    }
  }

  /** A shot at an on-board cell that is not busy and that ship `k` covers: the ship loses a
      life, the cell becomes `X`, and `count` grows by one exactly when the lives reach 0. */
  lemma HitKeepsAccounted(h: seq<seq<Dot>>, lives: seq<int>, count: int, busy: seq<Dot>,
                          field: seq<seq<char>>, size: nat, d: Dot, k: nat)
    requires Accounted(h, lives, count, busy, field, size)
    requires InBounds(d, size) && d !in busy && k < |h| && d in h[k]
    ensures lives[k] >= 1 &&
            Accounted(h, lives[k := lives[k] - 1], count + (if lives[k] == 1 then 1 else 0),
                      busy + [d], SetCell(field, d, HIT), size)
  {
    var lives' := lives[k := lives[k] - 1];
    ShotTallied(h, lives, busy, d, k);
    assert Tallied(h, lives', busy + [d]);
    ShotShows(field, h, busy, size, d);
    assert Shows(SetCell(field, d, HIT), h, busy + [d], size);
    NumZeroHit(lives, k);
    assert count + (if lives[k] == 1 then 1 else 0) == NumZero(lives');
  }

  /** After a sink, the contour with marking keeps the accounts: the cells it appends belong to
      no ship, so no ship's count changes, and each of them shows `.`. */
  lemma SinkKeepsAccounted(h: seq<seq<Dot>>, lives: seq<int>, count: int, busy: seq<Dot>,
                           field: seq<seq<char>>, size: nat, k: nat, field': seq<seq<char>>)
    requires Accounted(h, lives, count, busy, field, size)
    requires k < |h| && lives[k] == 0
    requires Marked(field', field, Extend(busy, Candidates(h[k]), size), busy, size)
    ensures Accounted(h, lives, count, Extend(busy, Candidates(h[k]), size), field', size)
  {
    var busy' := Extend(busy, Candidates(h[k]), size);
    CountFull(h[k], busy);
    SinkMarksOnlyWater(h, k, busy, size);
    forall j | 0 <= j < |h| ensures Count(h[j], busy') == Count(h[j], busy) {
      forall x | x in h[j] ensures x in busy' <==> x in busy {
        assert busy <= busy';
      }
      CountSame(h[j], busy', busy);
    }
  }

  /** A whole successful hit, sinking or not, keeps the accounts: the new state is the one
      `shot` leaves behind when ship `k` holds `d`. */
  lemma ShotHitKeepsAccounted(h: seq<seq<Dot>>, lives: seq<int>, count: int, busy: seq<Dot>,
                              field: seq<seq<char>>, size: nat, d: Dot, k: nat,
                              count': int, busy': seq<Dot>, field': seq<seq<char>>)
    requires Accounted(h, lives, count, busy, field, size)
    requires InBounds(d, size) && d !in busy && k < |h| && d in h[k]
    requires lives[k] != 1 ==> count' == count && busy' == busy + [d] && field' == SetCell(field, d, HIT)
    requires lives[k] == 1 ==>
               count' == count + 1 && busy' == Extend(busy + [d], Candidates(h[k]), size) &&
               Marked(field', SetCell(field, d, HIT), busy', busy + [d], size)
    ensures Accounted(h, lives[k := lives[k] - 1], count', busy', field', size)
  {
    HitKeepsAccounted(h, lives, count, busy, field, size, d, k);
    if lives[k] == 1 {
      SinkKeepsAccounted(h, lives[k := lives[k] - 1], count + 1, busy + [d], SetCell(field, d, HIT),
                         size, k, field');
    }
  }

  /** During play a ship has no lives left exactly when every one of its cells has been shot,
      and it never has a negative number of lives. */
  lemma SunkIffShotThrough(h: seq<seq<Dot>>, lives: seq<int>, count: int, busy: seq<Dot>,
                           field: seq<seq<char>>, size: nat, k: nat)
    requires Accounted(h, lives, count, busy, field, size)
    requires k < |h|
    ensures lives[k] >= 0
    ensures lives[k] == 0 <==> forall x :: x in h[k] ==> x in busy
  {
    CountFull(h[k], busy);
  }

  /** During play the sunk counter never exceeds the number of ships, and it reaches that
      number exactly when every ship has no lives left; it is 0 exactly when every ship has
      some life left. */
  lemma CountBound(h: seq<seq<Dot>>, lives: seq<int>, count: int, busy: seq<Dot>,
                   field: seq<seq<char>>, size: nat)
    requires Accounted(h, lives, count, busy, field, size)
    ensures 0 <= count <= |h|
    ensures count == |h| <==> forall k :: 0 <= k < |h| ==> lives[k] == 0
    ensures count == 0 <==> forall k :: 0 <= k < |h| ==> lives[k] != 0
  {
    NumZeroBounds(lives);
  }
}
