/** The game around two boards: random placement of the fleet, reading a typed shot, and the
    turn rule of the main loop. */
module Game {
  import opened Errors
  import opened Dots
  import opened Ships
  import opened Contour
  import opened Fleet
  import opened Numerals
  import opened Boards

  /** The lengths of the ships placed on every board, in placement order. */
  const FLEET: seq<Length> := [3, 2, 2, 1, 1, 1, 1]

  /** The number of placement attempts, for the whole fleet, before a layout is given up. */
  const BUDGET: nat := 2000

  /** One random placement attempt: the anchor and the orientation of the next ship. */
  datatype Draw = Draw(anchor: Dot, orientation: Orientation)

  /** The cells of a ship of length `l` at draw `w`. */
  function DrawDots(w: Draw, l: Length): seq<Dot> {
    ShipDots(w.anchor, l, w.orientation)
  }

  /** Every attempt after the first `a` and before attempt `n` was refused: its ship does not
      fit `busy`. */
  predicate Refused(size: int, draws: seq<Draw>, l: Length, busy: seq<Dot>, a: nat, n: nat)
    requires n <= |draws| + 1
  {
    forall b :: a <= b < n - 1 ==> !FitsIn(busy, size, DrawDots(draws[b], l))
  }

  /** The inner loop of `random_place` as a value. After `a` attempts, it is the number of the
      attempt at which a ship of length `l` fits `busy`, or `BUDGET + 1` when the budget runs
      out first. Attempt `n` uses `draws[n - 1]`. */
  function Search(size: int, draws: seq<Draw>, l: Length, busy: seq<Dot>, a: nat): (n: nat)
    requires a <= BUDGET <= |draws|
    ensures a < n <= BUDGET + 1
    decreases BUDGET - a
  {
    if a + 1 > BUDGET then a + 1
    else if FitsIn(busy, size, DrawDots(draws[a], l)) then a + 1
    else Search(size, draws, l, busy, a + 1)
  }

  /** `Search` stops at the first draw that fits: the accepted attempt's ship fits, and every
      attempt before it was refused; when the budget runs out, every remaining draw was
      refused. */
  lemma {:induction false} SearchFinds(size: int, draws: seq<Draw>, l: Length, busy: seq<Dot>, a: nat)
    requires a <= BUDGET <= |draws|
    ensures var n := Search(size, draws, l, busy, a);
            (n <= BUDGET ==> FitsIn(busy, size, DrawDots(draws[n - 1], l))) &&
            Refused(size, draws, l, busy, a, n)
    decreases BUDGET - a
  {
    if a + 1 <= BUDGET && !FitsIn(busy, size, DrawDots(draws[a], l)) {
      SearchFinds(size, draws, l, busy, a + 1);
    }
  }

  /** One attempt of the search: a fitting draw ends it, a refused one goes on to the next. */
  lemma SearchStep(size: int, draws: seq<Draw>, l: Length, busy: seq<Dot>, a: nat)
    requires a < BUDGET <= |draws|
    ensures Search(size, draws, l, busy, a) ==
              if FitsIn(busy, size, DrawDots(draws[a], l)) then a + 1 else Search(size, draws, l, busy, a + 1)
  {
  }

  /** `random_place` as a value. After `a` attempts on `busy`, it gives the numbers of the
      attempts at which the ships of lengths `ls` are accepted, one after another from where the
      previous ship left off, or `None` once the budget runs out. */
  function Placement(size: int, draws: seq<Draw>, ls: seq<Length>, busy: seq<Dot>, a: nat): (p: Option<seq<nat>>)
    requires a <= BUDGET <= |draws|
    ensures p.Some? ==> |p.value| == |ls|
    ensures p.Some? ==> forall k :: 0 <= k < |ls| ==> a < p.value[k] <= BUDGET && (k > 0 ==> p.value[k - 1] < p.value[k])
    decreases |ls|
  {
    if ls == [] then Some([])
    else
      var n := Search(size, draws, ls[0], busy, a);
      if n > BUDGET then None
      else
        match Placement(size, draws, ls[1..], Placed(busy, size, DrawDots(draws[n - 1], ls[0])), n)
        case None => None
        case Some(rest) => Some([n] + rest)
  }

  /** `p` followed by the attempts of `o`, if any. */
  function Prefixed(p: seq<nat>, o: Option<seq<nat>>): Option<seq<nat>> {
    match o
    case None => None
    case Some(q) => Some(p + q)
  }

  /** The first ship is accepted at attempt `n`: `Placement` goes on from there with the busy
      list of that layout. */
  lemma PlacementStep(size: int, draws: seq<Draw>, ls: seq<Length>, busy: seq<Dot>, a: nat,
                      p: seq<nat>, n: nat, next: seq<Dot>)
    requires a <= BUDGET <= |draws| && ls != []
    requires n == Search(size, draws, ls[0], busy, a) && n <= BUDGET
    requires next == Placed(busy, size, DrawDots(draws[n - 1], ls[0]))
    ensures Prefixed(p, Placement(size, draws, ls, busy, a)) == Prefixed(p + [n], Placement(size, draws, ls[1..], next, n))
  {
    var rest := Placement(size, draws, ls[1..], next, n);
    assert Placement(size, draws, ls, busy, a) == if rest.None? then None else Some([n] + rest.value);
    if rest.Some? {
      assert p + ([n] + rest.value) == (p + [n]) + rest.value;
    }
  }

  /** The first ship exhausts the budget: `Placement` gives up. */
  lemma PlacementGivesUp(size: int, draws: seq<Draw>, ls: seq<Length>, busy: seq<Dot>, a: nat)
    requires a <= BUDGET <= |draws| && ls != []
    requires Search(size, draws, ls[0], busy, a) > BUDGET
    ensures Placement(size, draws, ls, busy, a) == None
  {
  }

  /** The first `|ships|` ships have the lengths `ls` begins with and sit at the draws of the
      attempts `picks`. */
  predicate Drawn(ships: seq<Ship>, ls: seq<Length>, picks: seq<nat>, draws: seq<Draw>) {
    |ships| == |picks| <= |ls| &&
    forall k :: 0 <= k < |ships| ==>
      ships[k].size == ls[k] && 0 < picks[k] <= |draws| &&
      ships[k].firstDot == draws[picks[k] - 1].anchor &&
      ships[k].orientation == draws[picks[k] - 1].orientation
  }

  /** `random_place`: ships of the lengths of `FLEET` are tried in order, each at the next draw
      until one fits; the attempts are counted over the whole fleet. The result is `None`
      exactly when `Placement` runs out of budget. A finished layout holds the fleet in order,
      each ship at the draw of the attempt `Placement` accepts it at and with full lives, and
      has begun, so it is in the playing phase with no shot and no ship sunk. */
  method RandomPlace(size: nat, draws: seq<Draw>) returns (r: Option<Board>)
    requires |draws| >= BUDGET
    ensures r.None? <==> Placement(size, draws, FLEET, [], 0).None?
    ensures r.Some? ==>
              var b := r.value;
              fresh(b) && b.size == size && !b.hid && b.Playing() &&
              b.count == 0 && b.busy == [] &&
              |b.ships| == |FLEET| &&
              (forall k :: 0 <= k < |FLEET| ==> b.ships[k].size == FLEET[k] && b.ships[k].lives == FLEET[k])
    ensures r.Some? ==>
              var b, p := r.value, Placement(size, draws, FLEET, [], 0).value;
              forall k :: 0 <= k < |FLEET| ==>
                b.ships[k].firstDot == draws[p[k] - 1].anchor && b.ships[k].orientation == draws[p[k] - 1].orientation
  {
    var board := new Board(size := size);
    var done := PlaceFleet(board, FLEET, draws);
    if !done {
      return None;
    }
    board.Begin();
    r := Some(board);
  }

  /** The outer loop of `random_place` on a new board: the ships of lengths `ls` are placed one
      after another, by `PlaceOne`, counting the attempts over the whole fleet. It finishes
      exactly when `Placement` does, with each ship at the draw of the attempt `Placement`
      accepts it at; the layout rules hold throughout. */
  method PlaceFleet(board: Board, ls: seq<Length>, draws: seq<Draw>) returns (done: bool)
    requires board.Valid() && board.Placing() && board.ships == [] && board.busy == []
    requires BUDGET <= |draws|
    modifies board
    ensures board.Valid() && board.Placing()
    ensures board.hid == old(board.hid) && board.count == old(board.count)
    ensures done <==> Placement(board.size, draws, ls, [], 0).Some?
    ensures done ==> |board.ships| == |ls| && Drawn(board.ships, ls, Placement(board.size, draws, ls, [], 0).value, draws)
  {
    var attempts, i := 0, 0;
    ghost var picks: seq<nat> := [];
    ghost var whole := Placement(board.size, draws, ls, [], 0);
    assert ls[0..] == ls;
    if whole.Some? {
      assert [] + whole.value == whole.value;
    }
    while i < |ls|
      invariant board.Valid() && board.Placing()
      invariant board.hid == old(board.hid) && board.count == old(board.count)
      invariant i == |picks| && OnTrack(board, ls, draws, picks, attempts, whole)
      decreases |ls| - i
    {
      var placed;
      placed, attempts, picks := PlaceNext(board, ls, draws, i, attempts, picks, whole);
      if !placed {
        return false;
      }
      i := i + 1;
    }
    assert ls[|picks|..] == [] && picks + [] == picks;
    assert Placement(board.size, draws, ls[|picks|..], board.busy, attempts) == Some([]);
    assert whole == Some(picks);
    done := true;
  }

  /** How far the outer loop has got: the ships placed so far sit at the draws of the attempts
      `picks`, and the rest of `Placement` from here completes `whole`. */
  ghost predicate OnTrack(board: Board, ls: seq<Length>, draws: seq<Draw>, picks: seq<nat>, attempts: nat,
                          whole: Option<seq<nat>>)
    reads board
  {
    Track(board.ships, board.busy, board.size, ls, draws, picks, attempts, whole)
  }

  /** `OnTrack` on the values of a board. */
  predicate Track(ships: seq<Ship>, busy: seq<Dot>, size: int, ls: seq<Length>, draws: seq<Draw>,
                  picks: seq<nat>, attempts: nat, whole: Option<seq<nat>>) {
    |picks| <= |ls| && attempts <= BUDGET <= |draws| &&
    Drawn(ships, ls, picks, draws) &&
    whole == Prefixed(picks, Placement(size, draws, ls[|picks|..], busy, attempts))
  }

  /** The next ship accepted at attempt `n` keeps the outer loop on track. */
  lemma TrackNext(ships0: seq<Ship>, busy0: seq<Dot>, ships: seq<Ship>, busy: seq<Dot>, size: int,
                  ls: seq<Length>, draws: seq<Draw>, picks: seq<nat>, a: nat, n: nat, whole: Option<seq<nat>>)
    requires Track(ships0, busy0, size, ls, draws, picks, a, whole) && |picks| < |ls|
    requires n == Search(size, draws, ls[|picks|], busy0, a) && n <= BUDGET
    requires Took(ships, ships0, ls[|picks|], draws[n - 1])
    requires busy == Placed(busy0, size, DrawDots(draws[n - 1], ls[|picks|]))
    ensures Track(ships, busy, size, ls, draws, picks + [n], n, whole)
  {
    var i := |picks|;
    assert ls[i..][0] == ls[i] && ls[i..][1..] == ls[i + 1..];
    PlacementStep(size, draws, ls[i..], busy0, a, picks, n, busy);
    assert ships == ships0 + [ships[i]];
    DrawnAppend(ships0, ls, picks, draws, ships[i], n);
  }

  /** The next ship exhausting the budget makes the whole placement give up. */
  lemma TrackGivesUp(ships0: seq<Ship>, busy0: seq<Dot>, size: int, ls: seq<Length>, draws: seq<Draw>,
                     picks: seq<nat>, a: nat, whole: Option<seq<nat>>)
    requires Track(ships0, busy0, size, ls, draws, picks, a, whole) && |picks| < |ls|
    requires Search(size, draws, ls[|picks|], busy0, a) > BUDGET
    ensures whole == None
  {
    var i := |picks|;
    assert ls[i..][0] == ls[i];
    PlacementGivesUp(size, draws, ls[i..], busy0, a);
  }

  /** One pass of the outer loop: the next ship is placed by `PlaceOne`, or the budget runs out
      and then `Placement` gives up too. */
  method PlaceNext(board: Board, ls: seq<Length>, draws: seq<Draw>, i: nat, attempts: nat,
                   ghost picks: seq<nat>, ghost whole: Option<seq<nat>>)
    returns (placed: bool, attempts': nat, ghost picks': seq<nat>)
    requires board.Valid() && board.Placing()
    requires OnTrack(board, ls, draws, picks, attempts, whole) && i == |picks| < |ls|
    modifies board
    ensures board.Valid() && board.Placing()
    ensures board.hid == old(board.hid) && board.count == old(board.count)
    ensures placed ==> OnTrack(board, ls, draws, picks', attempts', whole) && |picks'| == |picks| + 1
    ensures !placed ==> whole == None
  {
    ghost var busy0, ships0 := board.busy, board.ships;
    placed, attempts' := PlaceOne(board, ls[i], draws, attempts);
    picks' := picks;
    if !placed {
      TrackGivesUp(ships0, busy0, board.size, ls, draws, picks, attempts, whole);
      return;
    }
    TrackNext(ships0, busy0, board.ships, board.busy, board.size, ls, draws, picks, attempts, attempts', whole);
    picks' := picks + [attempts'];
  }

  /** `ships` is `ships0` with one more ship of length `l` appended, at draw `w`. */
  predicate Took(ships: seq<Ship>, ships0: seq<Ship>, l: Length, w: Draw) {
    |ships| == |ships0| + 1 && ships[..|ships0|] == ships0 &&
    ships[|ships0|].size == l && ships[|ships0|].firstDot == w.anchor && ships[|ships0|].orientation == w.orientation
  }

  /** One more ship at the draw of attempt `n`. */
  lemma DrawnAppend(ships: seq<Ship>, ls: seq<Length>, picks: seq<nat>, draws: seq<Draw>, s: Ship, n: nat)
    requires Drawn(ships, ls, picks, draws) && |ships| < |ls|
    requires s.size == ls[|ships|] && 0 < n <= |draws|
    requires s.firstDot == draws[n - 1].anchor && s.orientation == draws[n - 1].orientation
    ensures Drawn(ships + [s], ls, picks + [n], draws)
  {
  }

  /** The inner loop of `random_place` for one ship of length `l`: attempt after attempt, a ship
      at the next draw is offered to `add_ship`, until it fits or the attempt count passes
      `BUDGET`. The attempt count it stops at is the one `Search` gives. A refused attempt
      changes nothing, so running out of budget leaves the board as it was; an accepted ship is
      the one at the draw of its attempt, appended last with its cells and contour made busy,
      and the layout rules still hold. */
  method PlaceOne(board: Board, l: Length, draws: seq<Draw>, attempts0: nat) returns (placed: bool, attempts: nat)
    requires board.Valid() && board.Placing()
    requires attempts0 <= BUDGET <= |draws|
    modifies board
    ensures board.Valid() && board.Placing()
    ensures board.hid == old(board.hid) && board.count == old(board.count)
    ensures attempts == Search(board.size, draws, l, old(board.busy), attempts0)
    ensures placed <==> attempts <= BUDGET
    ensures !placed ==> attempts == BUDGET + 1 &&
                        board.ships == old(board.ships) && board.busy == old(board.busy) && board.field == old(board.field)
    ensures placed ==> Took(board.ships, old(board.ships), l, draws[attempts - 1]) &&
                       board.busy == Placed(old(board.busy), board.size, DrawDots(draws[attempts - 1], l))
  {
    ghost var busy0 := board.busy;
    placed := false;
    attempts := attempts0 + 1;
    while attempts <= BUDGET
      invariant attempts0 < attempts <= BUDGET + 1
      invariant board.Valid() && board.Placing()
      invariant board.hid == old(board.hid) && board.count == old(board.count)
      invariant board.ships == old(board.ships) && board.busy == busy0 && board.field == old(board.field)
      invariant Search(board.size, draws, l, busy0, attempts - 1) == Search(board.size, draws, l, busy0, attempts0)
      decreases BUDGET + 1 - attempts
    {
      placed := Attempt(board, l, draws[attempts - 1]);
      SearchStep(board.size, draws, l, busy0, attempts - 1);
      if placed {
        assert attempts == Search(board.size, draws, l, busy0, attempts0);
        return;
      }
      attempts := attempts + 1;
    }
  }

  /** One attempt of `random_place`: a new ship of length `l` at draw `w` is offered to
      `add_ship`. It is accepted exactly when it fits; a refused ship changes nothing, and an
      accepted one is appended last with its cells and contour made busy. */
  method Attempt(board: Board, l: Length, w: Draw) returns (ok: bool)
    requires board.Valid() && board.Placing()
    modifies board
    ensures board.Valid() && board.Placing()
    ensures board.hid == old(board.hid) && board.count == old(board.count)
    ensures ok <==> FitsIn(old(board.busy), board.size, DrawDots(w, l))
    ensures !ok ==> board.ships == old(board.ships) && board.busy == old(board.busy) && board.field == old(board.field)
    ensures ok ==> Took(board.ships, old(board.ships), l, w) &&
                   board.busy == Placed(old(board.busy), board.size, DrawDots(w, l))
  {
    var ship := new Ship(w.anchor, l, w.orientation);
    var added := board.AddShip(ship);
    ok := added.Ok?;
    if ok {
      assert board.ships[..|old(board.ships)|] == old(board.ships);
    }
  }

  /** `User.ask` on the words of one input line: exactly two words, both decimal digit runs,
      read as the 1-based row and column; anything else is refused and asked again. */
  function Ask(words: seq<string>): (r: Option<Dot>)
    ensures r.Some? <==> |words| == 2 && IsDigits(words[0]) && IsDigits(words[1])
    ensures r.Some? ==> r.value == Dot(Value(words[0]) - 1, Value(words[1]) - 1)
    ensures r.Some? ==> r.value.x >= -1 && r.value.y >= -1
  {
    if |words| != 2 then None
    else if !IsDigits(words[0]) || !IsDigits(words[1]) then None
    else Some(Dot(Value(words[0]) - 1, Value(words[1]) - 1))
  }

  /** Typing the 1-based row and column of a cell in decimal gives back that cell. */
  lemma AskReadsBack(d: Dot)
    requires d.x >= 0 && d.y >= 0
    ensures Ask([Decimal(d.x + 1), Decimal(d.y + 1)]) == Some(d)
  {
    ValueOfDecimal(d.x + 1);
    ValueOfDecimal(d.y + 1);
  }

  /** A coordinate typed with a leading zero names the same cell, as `int` reads it. */
  lemma AskLeadingZero(w0: string, w1: string)
    requires w0 != []
    ensures Ask(["0" + w0, w1]) == Ask([w0, w1])
    ensures w1 != [] ==> Ask([w0, "0" + w1]) == Ask([w0, w1])
  {
    if IsDigits(w0) {
      ValueLeadingZero(w0);
    }
    assert forall i :: 0 <= i < |w0| ==> ("0" + w0)[i + 1] == w0[i];
    if w1 != [] {
      if IsDigits(w1) {
        ValueLeadingZero(w1);
      }
      assert forall i :: 0 <= i < |w1| ==> ("0" + w1)[i + 1] == w1[i];
    }
  }

  /** The retry loop of `User.ask`: the lines are read in order until one is accepted. `used`
      lines are consumed; the last of them is the accepted one, and every earlier one was
      refused. With no line accepted, all lines are consumed. */
  method AskUntilValid(lines: seq<seq<string>>) returns (r: Option<Dot>, used: nat)
    ensures used <= |lines|
    ensures forall j :: 0 <= j < used - 1 ==> Ask(lines[j]).None?
    ensures r.Some? ==> used >= 1 && r == Ask(lines[used - 1])
    ensures r.None? ==> used == |lines| && forall j :: 0 <= j < |lines| ==> Ask(lines[j]).None?
  {
    used := 0;
    r := None;
    while used < |lines| && r.None?
      invariant used <= |lines|
      invariant forall j :: 0 <= j < used - 1 ==> Ask(lines[j]).None?
      invariant r.Some? ==> used >= 1 && r == Ask(lines[used - 1])
      invariant r.None? ==> forall j :: 0 <= j < used ==> Ask(lines[j]).None?
    {
      r := Ask(lines[used]);
      used := used + 1;
    }
  }

  /** The two sides of the game loop. */
  datatype Side = User | Computer

  /** Who moves on turn counter `num`: the user on even counters, the computer on odd ones. */
  function Mover(num: int): Side {
    if num % 2 == 0 then User else Computer
  }

  /** The counter's parity alternates: each step hands the move to the other side, and two
      steps give it back. For the divisor 2, Python's `%` and Dafny's agree on every integer. */
  lemma MoverAlternates(num: int)
    ensures Mover(num + 1) != Mover(num)
    ensures Mover(num + 2) == Mover(num)
  {
  }

  /** The counter after a move that did not end the game: a hit takes one off the counter
      before the step every move takes, so the same side moves again exactly when
      it hit. */
  function NextTurn(num: int, repeat: bool): (n: int)
    ensures Mover(n) == Mover(num) <==> repeat
  {
    (if repeat then num - 1 else num) + 1
  }

  /** The end-of-move check of the game loop: the user wins once all seven of the computer's
      ships are sunk, and otherwise the computer wins once all seven of the user's are. */
  function Outcome(computerSunk: int, userSunk: int): (w: Option<Side>)
    ensures w == Some(User) <==> computerSunk == 7
    ensures w == Some(Computer) <==> computerSunk != 7 && userSunk == 7
  {
    if computerSunk == 7 then Some(User)
    else if userSunk == 7 then Some(Computer)
    else None
  }

  /** `Game.loop` over the shots supplied, in order, by the side to move: each side shoots at
      the other's board; a refused shot (off the board or repeated) is followed by the same
      side's next shot; a hit keeps the turn; after each accepted shot the game ends when one
      fleet of seven is all sunk. `used` shots are consumed; without a winner all of them are.
      The boards keep their invariants, and against a board in play the winner has sunk every
      ship. */
  method Loop(us: Board, ai: Board, shots: seq<Dot>) returns (winner: Option<Side>, used: nat)
    requires us != ai && us.Valid() && ai.Valid()
    requires forall s :: s in us.ships ==> s !in ai.ships
    modifies us, ai, us.ships, ai.ships
    ensures us.Valid() && ai.Valid() && us.ships == old(us.ships) && ai.ships == old(ai.ships)
    ensures used <= |shots|
    ensures winner.None? ==> used == |shots|
    ensures winner.Some? ==> winner == Outcome(ai.count, us.count)
    ensures old(us.Playing()) ==> us.Playing()
    ensures old(ai.Playing()) ==> ai.Playing()
    ensures old(ai.Playing()) && |ai.ships| == 7 && winner == Some(User) ==>
              forall k :: 0 <= k < |ai.ships| ==> ai.ships[k].lives == 0
    ensures old(us.Playing()) && |us.ships| == 7 && winner == Some(Computer) ==>
              forall k :: 0 <= k < |us.ships| ==> us.ships[k].lives == 0
  {
    ghost var usPlaying, aiPlaying := us.Playing(), ai.Playing();
    var num := 0;
    used := 0;
    winner := None;
    while used < |shots| && winner.None?
      invariant used <= |shots|
      invariant us.Valid() && ai.Valid() && us.ships == old(us.ships) && ai.ships == old(ai.ships)
      invariant winner.Some? ==> winner == Outcome(ai.count, us.count)
      invariant usPlaying ==> us.Playing()
      invariant aiPlaying ==> ai.Playing()
    {
      var shot;
      winner, num, shot := Round(us, ai, num, shots[used], usPlaying, aiPlaying);
      used := used + 1;
    }
    if winner == Some(User) && aiPlaying {
      ai.CountsSunk();
    }
    if winner == Some(Computer) && usPlaying {
      us.CountsSunk();
    }
  }

  /** One pass of the game loop: the side `num` names shoots at the other side's board; the
      shooter's own board is left as it was. After an accepted shot the end of the game is
      checked and, if it goes on, the counter moves on by the turn rule; after a refused shot
      nothing changes and the counter stays, so the same side shoots again. */
  method Round(us: Board, ai: Board, num: int, d: Dot, ghost usPlaying: bool, ghost aiPlaying: bool)
    returns (winner: Option<Side>, num': int, shot: Result<bool>)
    requires us != ai && us.Valid() && ai.Valid()
    requires forall s :: s in us.ships ==> s !in ai.ships
    requires usPlaying ==> us.Playing()
    requires aiPlaying ==> ai.Playing()
    modifies us, ai, us.ships, ai.ships
    ensures us.Valid() && ai.Valid() && us.ships == old(us.ships) && ai.ships == old(ai.ships)
    ensures Mover(num) == User ==>
              us.busy == old(us.busy) && us.field == old(us.field) && us.count == old(us.count) &&
              (shot.Ok? <==> InBounds(d, ai.size) && d !in old(ai.busy)) &&
              (shot.Ok? ==> d in ai.busy && (shot.value <==> Occupied(HullsOf(ai.ships), d))) &&
              (shot.Err? ==> ai.busy == old(ai.busy) && ai.field == old(ai.field) && ai.count == old(ai.count))
    ensures Mover(num) == Computer ==>
              ai.busy == old(ai.busy) && ai.field == old(ai.field) && ai.count == old(ai.count) &&
              (shot.Ok? <==> InBounds(d, us.size) && d !in old(us.busy)) &&
              (shot.Ok? ==> d in us.busy && (shot.value <==> Occupied(HullsOf(us.ships), d))) &&
              (shot.Err? ==> us.busy == old(us.busy) && us.field == old(us.field) && us.count == old(us.count))
    ensures Mover(num) == User ==> LivesOf(us.ships) == old(LivesOf(us.ships))
    ensures Mover(num) == Computer ==> LivesOf(ai.ships) == old(LivesOf(ai.ships))
    ensures Mover(num) == User && shot.Err? ==> LivesOf(ai.ships) == old(LivesOf(ai.ships))
    ensures Mover(num) == Computer && shot.Err? ==> LivesOf(us.ships) == old(LivesOf(us.ships))
    ensures winner == if shot.Ok? then Outcome(ai.count, us.count) else None
    ensures num' == if shot.Ok? && winner.None? then NextTurn(num, shot.value) else num
    ensures usPlaying ==> us.Playing()
    ensures aiPlaying ==> ai.Playing()
  {
    if Mover(num) == User {
      shot := Move(ai, us, d);
    } else {
      shot := Move(us, ai, d);
    }
    winner, num' := None, num;
    if shot.Ok? {
      winner := Outcome(ai.count, us.count);
      if winner.None? {
        num' := NextTurn(num, shot.value);
      }
    }
  }

  /** One shot of `Player.move` at the enemy's board. The shooter's own board is a different
      board whose ships are not the enemy's, so it keeps its state. */
  method Move(enemy: Board, own: Board, d: Dot) returns (r: Result<bool>)
    requires enemy != own && enemy.Valid() && own.Valid()
    requires forall s :: s in own.ships ==> s !in enemy.ships
    modifies enemy, enemy.ships
    ensures enemy.Valid() && enemy.ships == old(enemy.ships)
    ensures own.Valid() && own.ships == old(own.ships) && own.count == old(own.count)
    ensures own.busy == old(own.busy) && own.field == old(own.field)
    ensures forall k :: 0 <= k < |own.ships| ==> own.ships[k].lives == old(own.ships[k].lives)
    ensures r.Ok? <==> InBounds(d, enemy.size) && d !in old(enemy.busy)
    ensures r.Ok? ==> d in enemy.busy && (r.value <==> Occupied(HullsOf(enemy.ships), d))
    ensures r.Err? ==> enemy.busy == old(enemy.busy) && enemy.field == old(enemy.field) && enemy.count == old(enemy.count)
    ensures r.Err? ==> forall k :: 0 <= k < |enemy.ships| ==> enemy.ships[k].lives == old(enemy.ships[k].lives)
    ensures old(enemy.Playing()) ==> enemy.Playing()
    ensures old(own.Playing()) ==> own.Playing()
  {
    ghost var ownPlaying := own.Playing();
    ghost var lives := LivesOf(own.ships);
    ghost var count, busy, field := own.count, own.busy, own.field;
    r := enemy.Shot(d);
    forall k | 0 <= k < |own.ships| ensures own.ships[k].lives == lives[k] {
      assert own.ships[k] !in enemy.ships;
    }
    assert LivesOf(own.ships) == lives;
    assert own.count == count && own.busy == busy && own.field == field;
    assert ownPlaying ==> own.Playing();
  }
}
