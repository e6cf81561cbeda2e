# Battleship board engine, modelled in Dafny

This project models the game engine of a console Battleship game (`main.py`). Each board is
square, six cells wide by default. It holds a grid of glyphs, a list of busy cells, the ships
placed on it and a count of sunk ships.

- **Placement.** `add_ship` accepts a ship only when every one of its cells is on the board and
  not busy. It paints the ship, appends it, and appends to `busy` the ring of cells around every
  ship cell, so ships can never touch.
- **Start of play.** `begin` clears `busy`. From then on `busy` is the shot history.
- **Shots.** `shot` refuses an off-board or repeated shot. Otherwise it resolves a miss, a hit or
  a sink. On a sink it marks the ring around the sunk ship as water.
- **Game.** Each game builds two random boards. The user and the computer then take turns; a
  hit keeps the turn, and the first side to sink all seven enemy ships wins.

The model follows the source's own form:

- `Board` is a class whose methods update its fields in place. `Ship` is a class too: its
  `lives` field is decremented in place by `Board.Wound`, as `shot` does to `ship.lives`.
- The grid is a sequence of rows that the methods reassign.
- The loops of the source that update state are `while` loops with invariants: `add_ship`,
  `contour`, the ship search of `shot`, `__str__`, both loops of `random_place`, the retry loop
  of `User.ask` and `Game.loop`. The loop that builds `Ship.dots` only computes a list, so it
  is the recursive function `ShipDots`. The retry loop of `Player.move` is not a loop of its
  own: a refused shot leaves the counter of `Game.Loop` as it was, so the same side's next
  shot follows.
- Each state-changing method is proved against specification functions:
  - `Extend` says what a contour appends to `busy`.
  - `Candidates` lists the cells a contour visits.
  - `Holder` is the ship the shot search stops at.
  - `Show` is the rendered text.
- Three invariants carry the rules between calls:
  - `Valid`: the grid, the ships and `busy` are well formed.
  - `Placing` (the layout rules): ships pairwise apart, inside the board, surrounded by busy
    cells, and painted on the grid exactly where they lie.
  - `Playing` (the accounts, `Accounted`):
    - each ship's lives are its length minus its cells shot;
    - the sunk count is the number of ships with no lives left;
    - every cell shows what the shot history says about it.

Modules, one per file:

| file | module | contents |
|---|---|---|
| `errors.dfy` | `Errors` | the three error kinds, plus `Result` and `Option` |
| `dots.dfy` | `Dots` | cells, glyphs, bounds, the 3x3 ring, grids |
| `ships.dfy` | `Ships` | ship geometry and the `Ship` class |
| `contour.dfy` | `Contour` | the cells a contour visits and what it appends to `busy` |
| `fleet.dfy` | `Fleet` | the layout rules and the play accounts, and the lemmas that each operation keeps them |
| `numerals.dfy` | `Numerals` | decimal text of numbers |
| `render.dfy` | `Render` | the board text |
| `board.dfy` | `Boards` | the `Board` class |
| `game.dfy` | `Game` | random placement, reading a typed shot, the turn rule and the game loop |

The source draws its random numbers with `randint`; here they are a parameter:
`RandomPlace` takes a sequence of draws, one per attempt. Console input comes in as the words
of each line, and the game loop takes the sequence of shots the sides make.

The header of the board text is fixed: it always names six columns, whatever the board size
(`main.py:59`). The model writes the same fixed header.

`HullsOf` and `LivesOf` are the abstraction maps of a ship list: its cells and its lives, ship
by ship. The layout rules and the play accounts are stated over them.

## Model

| member | source | states |
|---|---|---|
| Ships.ShipDots | main.py:26-41 | a ship has exactly `size` cells; cell `i` is the anchor moved `i` cells along x (orientation 0) or along y (orientation 1); no cell repeats |
| Ships.ShipDotsConsecutive | main.py:29-39 | consecutive cells of a ship are one step apart along its axis, and the other coordinate stays the anchor's |
| Ships.Ship.constructor | main.py:19-23 | a new ship has the given anchor, length and orientation, and as many lives as cells |
| Ships.IntactAppend | main.py:23 | appending a ship at full lives keeps every ship of the list at full lives |
| Dots.RingIsNeighbourhood | main.py:84-88 | the nine offsets visited around a cell reach exactly the cells that touch it, orthogonally or diagonally, or are it |
| Dots.Blank | main.py:51 | a new grid is `size` rows of `size` empty cells |
| Dots.SetCell | main.py:76 | writing one cell changes that cell and no other, and keeps the grid's shape |
| Dots.NoDupAppend | main.py:77 | appending distinct cells that are not yet busy keeps `busy` free of repeats |
| Dots.InBoundsIndexes | main.py:95-96 | on a grid of the board's size, a cell is on the board (not `out`) exactly when the grid has a cell at its row and column |
| Boards.Board.constructor | main.py:45-54 | a new board has an empty grid, no busy cell, no ship and no sunk ship, and satisfies the layout rules |
| Boards.Board.Fits | main.py:70-72 | the check passes exactly when every cell of the ship is on the board and not busy (`FitsIn`, the same test the placement model uses) |
| Boards.Board.AddShip | main.py:68-80 | fails with `ShipLayout` exactly when the ship does not fit (`FitsIn`: some cell is off the board or busy), and then changes nothing. Otherwise: the ship is appended last; `busy` becomes `Placed`, its cells followed by the new cells of their contour; its cells turn to the ship glyph and no other cell changes; every on-board cell touching the ship is busy afterwards; placed in the layout phase, a ship at full lives keeps the layout rules |
| Boards.Board.PlaceDots | main.py:75-77 | the second loop paints exactly the ship's cells and appends them to `busy` in order |
| Boards.Board.Place | main.py:75-80 | the accepting branch appends the ship and then its contour, and a ship at full lives keeps the layout rules |
| Boards.Board.Contour | main.py:83-92 | appends to `busy` exactly the on-board cells of the rings of the ship's cells that were not busy, in visiting order. With marking, exactly the appended cells turn `.`; without it the grid is unchanged. `busy` stays free of repeats and on the board |
| Boards.Board.ContourDot | main.py:87-92 | the ring of one cell, visited in the order of the offset list, extends `busy` by its on-board cells that are not yet busy |
| Boards.Board.VisitNear | main.py:87-92 | visiting one offset more extends the ring visited so far by that cell |
| Boards.Board.Visit | main.py:88-92 | an on-board cell that is not busy is appended, and with marking turns `.`; any other cell changes nothing |
| Boards.Board.Shot | main.py:99-122 | `BoardOut` exactly off the board, `RepeatedShot` exactly on a busy cell, and neither changes anything. Otherwise the cell joins `busy`, so shooting it again is refused. The result is true exactly when a ship covers the cell. A miss marks `.`. A hit marks `X` and takes one life from the first ship covering the cell, and only from it. At 0 lives the sunk count grows by one and the ship's contour is appended and marked `.`. Play keeps its accounts |
| Boards.Board.Fire | main.py:106-122 | the accepted shot: a miss or a hit as in `Shot`, with the cell busy afterwards |
| Boards.Board.Find | main.py:108-109 | the search returns the index of the first ship covering the cell, or the number of ships when none does |
| Boards.Board.Miss | main.py:120-122 | a cell no ship covers joins `busy`, shows `.`, and the accounts are kept |
| Boards.Board.Hit | main.py:108-119 | ship `k`, which covers the cell, loses one life; the cell shows `X`. Not sunk: `busy` grows by the cell. Sunk: the count grows and the contour is appended and marked `.`. The accounts are kept |
| Boards.Board.Record | main.py:106-111 | the shot cell joins `busy` and shows the glyph of the outcome; no ship's lives change |
| Boards.Board.Wound | main.py:110 | the hit ship loses one life and, in a separated fleet, every other ship keeps its lives |
| Boards.Board.Sink | main.py:112-114 | the sunk count grows by one and the ship's contour is appended to `busy` and marked `.` |
| Boards.Board.Begin | main.py:124-125 | `busy` is emptied and nothing else changes; from the layout phase this starts play with every ship at full lives |
| Boards.Board.CountsSunk | main.py:112-113 | during play the sunk count is between 0 and the number of ships, and equals the number of ships exactly when no ship has a life left |
| Boards.Board.SunkIffShot | main.py:108-113 | during play a ship has no life left exactly when all of its cells have been shot, and its lives never go negative |
| Boards.Board.Render | main.py:57-65 | the text is the header followed by one line per row in order, with the ship glyph hidden on a hidden board |
| Render.ShowStartsWithHeader | main.py:59 | the text always starts with the fixed header |
| Render.ShowHidesOnlyShips | main.py:63-64 | hiding turns exactly the ship glyphs into the empty glyph, keeps every other character, and leaves no ship glyph |
| Render.ShowLineCount | main.py:60-61 | the text holds exactly one newline per row |
| Render.LinesCount | main.py:60-61 | the row lines hold one newline per row |
| Render.LineCount | main.py:61 | a row's line holds exactly one newline |
| Render.LinesStep | main.py:60-61 | each row adds its own line after the lines of the rows before it |
| Render.ConcealKeepsNewLines | main.py:64 | hiding the ships keeps the line structure |
| Render.JoinCells | main.py:61 | in the joined row cell `j` sits at position `4 * j`, followed by the separator except after the last cell, and the text is `4 * n - 3` long for `n` cells |
| Render.LineParts | main.py:61 | a row's line is a newline, the row number `i + 1` in digits (read back by `Value`), the separator, the joined cells and the closing bar |
| Render.ConcealIdempotent | main.py:63-64 | hiding keeps the length and leaves no ship glyph; a text without ship glyphs is unchanged, so hiding twice is hiding once |
| Numerals.Decimal | main.py:61 | the row label is a non-empty run of decimal digits |
| Numerals.ValueOfDecimal | main.py:169 | reading back the decimal text of a number gives the number |
| Numerals.DecimalNoLeadingZero | main.py:61 | the row label of a positive number has no leading zero |
| Numerals.ValueLeadingZero | main.py:169 | a leading zero does not change the number a digit string denotes |
| Contour.Candidates | main.py:86-88 | a contour visits nine cells per ship cell |
| Contour.CandidatesMembers | main.py:84-88 | a cell is visited exactly when it touches some cell of the ship or is one |
| Contour.Extend | main.py:89-92 | the busy list after a visit starts with the busy list before it |
| Contour.ExtendStep | main.py:89-92 | visiting one cell more appends it exactly when it is on the board and not yet busy |
| Contour.ExtendConcat | main.py:86-92 | visiting the rings of the ship's cells one after another is one visit of all of them |
| Contour.ExtendMembers | main.py:89-92 | after a visit a cell is busy exactly when it was busy before, or was visited and is on the board |
| Contour.ExtendFresh | main.py:89-92 | a visit appends only on-board cells that were not busy, and a busy list without repeats stays without repeats |
| Fleet.SeparatedDisjoint | main.py:108-109 | in a fleet placed by the rules no cell belongs to two ships |
| Fleet.PlacementKeepsSeparated | main.py:70-80 | a ship whose cells are on the board and not busy lies apart from every ship placed before it |
| Fleet.TouchingPlacementRejected | main.py:70-72 | a ship that touches or overlaps a placed ship does not fit (`FitsIn` fails), so it is rejected |
| Fleet.ContourCovers | main.py:83-92 | after the contour every on-board cell touching the ship is busy |
| Fleet.PlacementCovers | main.py:75-92 | after a placement `busy` covers the surroundings of every ship, the new one included |
| Fleet.OccupiedAppend | main.py:79 | after appending a ship a cell is covered exactly when an earlier ship or the new one covers it |
| Fleet.PlacementKeepsLaid | main.py:68-92 | a successful placement keeps all the layout rules |
| Fleet.Count | main.py:110 | the busy cells of a ship number at most its length |
| Fleet.CountSame | main.py:108-110 | the number of a ship's cells shot depends only on which of its cells are busy |
| Fleet.CountFull | main.py:112 | all of a ship's cells are busy exactly when their number reaches the ship's length |
| Fleet.CountShot | main.py:106-110 | a new shot adds one to a ship's cells shot exactly when it lands on that ship |
| Fleet.NumZero | main.py:113 | the number of sunk ships is at most the number of ships |
| Fleet.NumZeroUpdate | main.py:112-113 | changing one ship's lives changes the number of sunk ships by whether it was and is at 0 |
| Fleet.NumZeroHit | main.py:110-113 | a hit adds a sunk ship exactly when the ship had one life left |
| Fleet.NumZeroBounds | main.py:112-113 | all ships are sunk exactly when the number sunk equals the number of ships, and none exactly when it is 0 |
| Fleet.Holder | main.py:108-109 | the index the search stops at is at most the number of ships |
| Fleet.HolderFirst | main.py:108-109 | the search stops at a ship that covers the cell, every earlier ship misses it, and it runs off the end exactly when no ship covers it |
| Fleet.HolderIs | main.py:108-109 | an index with only misses before it, where the cell is covered or the fleet ends, is where the search stops |
| Fleet.MarkedTrans | main.py:89-91 | two markings of newly busy cells in a row are one marking |
| Fleet.SinkMarksOnlyWater | main.py:112-114 | the cells a sunk ship's contour adds belong to no ship, so marking them `.` never covers a ship cell |
| Fleet.BeginAccounted | main.py:124-125 | starting play from the layout rules, with every ship at full lives and an empty history, sets up the accounts |
| Fleet.CountNone | main.py:125 | with an empty history no ship has a cell shot |
| Fleet.ShotShows | main.py:111-120 | marking a new shot `X` on a ship and `.` elsewhere keeps every cell in step with the history |
| Fleet.MissKeepsAccounted | main.py:106-122 | a miss keeps every account |
| Fleet.ShotTallied | main.py:106-110 | a hit ship had at least one life, loses exactly one, and every other ship keeps its lives |
| Fleet.HitKeepsAccounted | main.py:106-119 | a hit keeps the accounts, with the sunk count growing exactly when the ship reaches 0 lives |
| Fleet.SinkKeepsAccounted | main.py:112-114 | marking a sunk ship's contour keeps the accounts |
| Fleet.ShotHitKeepsAccounted | main.py:106-119 | a whole hit, sinking or not, keeps the accounts |
| Fleet.SunkIffShotThrough | main.py:108-113 | during play a ship is sunk exactly when all of its cells are shot |
| Fleet.CountBound | main.py:113 | during play the sunk count is at most the number of ships; it equals that number exactly when all ships are sunk, and is 0 exactly when none is |
| Game.RandomPlace | main.py:192-208 | the result is `None` exactly when `Placement` runs out of the 2000 attempts. A finished layout is a new default board, begun and in play, with ships of lengths 3, 2, 2, 1, 1, 1, 1 in that order, each at full lives and at the draw of the attempt `Placement` accepts it at, with no cell busy and no ship sunk |
| Game.PlaceFleet | main.py:196-206 | the fleet loop on a new board finishes exactly when `Placement` does, each ship of the given lengths at the draw of the attempt `Placement` accepts it at, and the layout rules hold |
| Game.PlaceNext | main.py:196-206 | one pass of the fleet loop keeps the placed ships and the attempts in step with `Placement`, and running out of budget means `Placement` gives up |
| Game.PlaceOne | main.py:196-206 | one ship length tried at draw after draw, the count going on from where the last ship left off: it stops at the attempt `Search` gives. Running out of budget means the count is 2001 and the ships, `busy` and the grid are as they were. Otherwise the ship at the draw of that attempt is appended last, its cells and contour join `busy`, and the layout rules are kept |
| Game.Attempt | main.py:201-206 | one attempt: the ship at the draw is accepted exactly when all its cells are on the board and not busy; a refused ship changes nothing; an accepted one is appended last and its cells and contour join `busy` |
| Game.Search | main.py:197-200 | the attempt a ship is accepted at comes after the attempts already used and is at most 2001, where 2001 means the budget ran out |
| Game.SearchFinds | main.py:197-206 | `Search` stops at the first draw that fits: the accepted draw's ship fits, and every draw before it was refused; when the budget runs out, every remaining draw up to the 2000th was refused |
| Game.SearchStep | main.py:198-206 | a fitting draw ends the search at that attempt; a refused one goes on to the next attempt |
| Game.Placement | main.py:192-206 | on success, one accepted attempt per ship, in increasing order, each after the attempts already used and within the 2000 |
| Game.PlacementStep | main.py:196-206 | after the first ship is accepted, the placement goes on from that attempt with that ship's cells and contour busy |
| Game.PlacementGivesUp | main.py:198-200 | when one ship exhausts the budget the whole placement gives up |
| Game.TrackNext | main.py:196-206 | accepting the next ship at its attempt keeps the placed ships and their draws in step with `Placement` |
| Game.TrackGivesUp | main.py:198-200 | the next ship exhausting the budget means the placement gives up |
| Game.DrawnAppend | main.py:201-204 | one more ship at the draw of its attempt keeps each ship at its draw |
| Game.Ask | main.py:160-171 | a line is accepted exactly when it has two words and both are digit runs; the cell is then the two numbers less one, so each coordinate is at least -1 |
| Game.AskReadsBack | main.py:165-171 | typing the 1-based row and column of a cell in decimal gives back that cell |
| Game.AskLeadingZero | main.py:165-171 | a leading zero on either coordinate, row or column, names the same cell |
| Game.AskUntilValid | main.py:157-171 | the lines are read in order up to the first accepted one, which gives the cell; every earlier line was refused |
| Game.NextTurn | main.py:241-265 | after a move that does not end the game, the same side moves next exactly when it hit |
| Game.MoverAlternates | main.py:232 | each step of the counter hands the move to the other side, and two steps give it back |
| Game.Outcome | main.py:244-264 | the user wins exactly when all seven computer ships are sunk; otherwise the computer wins exactly when all seven user ships are |
| Game.Loop | main.py:223-265 | at most all the shots are used, and all of them when there is no winner. A winner is the one `Outcome` names for the final sunk counts. Both boards keep their ships, their invariants and their play accounts. Against a board in play with seven ships, the winner has sunk every one of them |
| Game.Round | main.py:232-265 | the side the counter names shoots at the other side's board, and the shooter's own board is unchanged: its grid, `busy`, sunk count and every ship's lives. The shot is accepted exactly when the cell is on that board and not busy; then it is busy and the result says whether a ship covers it. A refused shot changes nothing on the target board: its grid, `busy`, sunk count and every ship's lives stay. The winner is `Outcome` after an accepted shot and none otherwise; the counter moves by `NextTurn` after an accepted shot without a winner and stays otherwise. The boards keep their invariants and accounts |
| Game.Move | main.py:138-145 | one shot at the enemy board is accepted exactly when the cell is on the board and not yet shot; then the cell is busy and the result says whether a ship covers it, and a refused shot changes nothing: the enemy board keeps its grid, `busy`, sunk count and every ship's lives. The shooter's own board keeps its grid, `busy`, ships, every ship's lives, sunk count, invariants and accounts |

## Left out

- Console output is not modelled: every `print`, the hit and miss messages inside `shot`, the
  boards printed each turn, and `Game.greet`. `Board.Render` models the text that is printed.
- Console input is not modelled: `input()` and `str.split`. `Ask` and `AskUntilValid` take the
  words of each line.
- Randomness is a parameter. `randint` in `random_place` becomes the `draws` of `RandomPlace`,
  and `randint` in `AI.ask` becomes the computer's entries in the shots of `Game.Loop`. The
  draws may be any cells; they are not limited to `randint`'s range.
- `random_board` repeats `random_place` until a layout succeeds; this unbounded retry is not
  modelled. `Game.__init__` (two boards, one hidden) and `Game.start` are not modelled either.
- The `while True` loops of `Player.move` and of `Game.loop` are bounded by the supplied
  shots, and `AskUntilValid` by the supplied lines. A refused shot goes on to the next shot of
  the same side.
- Game.Loop: the contract does not tie the boards or the winner to the shots. It does not state
  which shots were fired, at which board, in what order, how the turns alternate over a whole
  game, or that the loop stops at the first win. `Round` states all of this for one pass of the
  loop, and `NextTurn` and `MoverAlternates` state the turn rule.
- Exceptions are results: the three exception classes are `Error` constructors, and their
  Russian messages and class hierarchy are not modelled.
- Unicode digit strings are not modelled. `isdigit` is modelled for the ASCII digits only;
  Python also accepts other Unicode digits, some of which `int()` then rejects.
- `Dot.__repr__` is not modelled: it only formats text for printing.
- `shot` runs in a different order in the model. The source appends `d` to `busy` before its
  ship loop. `Shot` searches first (`Find`) and then appends `d` in `Record`. The search does
  not read `busy`, so the final state is the same.
- The source's long methods are split into helper methods: `Fits`, `PlaceDots`, `Place`,
  `ContourDot`, `VisitNear`, `Visit`, `Find`, `Fire`, `Miss`, `Hit`, `Record`, `Wound`,
  `Sink`, and for `random_place` `PlaceFleet`, `PlaceNext`, `PlaceOne` and `Attempt`. Each
  keeps the statements of the source in their order.
- Game.RandomPlace: when the budget runs out the board is half built and is dropped with
  `None`; the contract describes the outcome through `Placement`, not that dropped board.
- Game.PlaceOne: its contract states the attempt it stops at as `Search`; that every earlier
  draw was refused and the accepted one fits is stated of `Search` by `SearchFinds`.
