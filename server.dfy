/** The game server of "Hundir la flota": a 5 x 5 board of `int` cells
    (0 = water, 1 = ship), a `gameActive` flag, random ship placement and the
    per-connection loop that answers the client's text requests. */
module Server {
  import opened JavaText

  const GridSize: int := 5
  const NumShips: nat := 3

  /** A (row, column) pair as the server reads and writes it. */
  type Cell = (int, int)

  /** The bounds check applied to every shot (esDisparoValido). */
  predicate IsValidShot(row: int, col: int) {
    0 <= row < GridSize && 0 <= col < GridSize
  }

  predicate AllOnGrid(cells: seq<Cell>) {
    forall i :: 0 <= i < |cells| ==> IsValidShot(cells[i].0, cells[i].1)
  }

  // ---------------------------------------------------------------------
  // Protocol texts
  // ---------------------------------------------------------------------

  const ResetNote: string := "Barcos reubicados. ¡Que comience el juego!"
  const AddShipsNote: string := "Barcos colocados. ¡Que comience el juego!"
  const SunkNote: string := "Toda la flota ha sido hundida. ¡Enhorabuena!"
  const ResetText: string := "RESET" + ":" + ResetNote
  const AddShipsText: string := "RESET" + ":" + AddShipsNote
  const SunkText: string := "HUNDIDA" + ":" + SunkNote

  /** The three answers to a coordinate request. */
  datatype ShotKind = Impacto | Agua | Invalido

  function Tag(kind: ShotKind): string {
    match kind
    case Impacto => "IMPACTO"
    case Agua => "AGUA"
    case Invalido => "INVALIDO"
  }

  /** `row,col`, each written with Java's decimal rendering. */
  function Coordinates(row: int, col: int): (text: string)
    ensures text != "" && ':' !in text
  {
    IntToString(row) + "," + IntToString(col)
  }

  /** `TAG:row,col`. */
  function ShotReply(kind: ShotKind, row: int, col: int): (reply: string)
    ensures |reply| > |Tag(kind)| && reply[..|Tag(kind)| + 1] == Tag(kind) + ":"
  {
    Tag(kind) + ":" + Coordinates(row, col)
  }

  /** No other reply is the HUNDIDA text: the tags start with other letters. */
  lemma SunkTextDistinct(kind: ShotKind, row: int, col: int)
    ensures ShotReply(kind, row, col) != SunkText
    ensures ResetText != SunkText && AddShipsText != SunkText
  {
    assert ShotReply(kind, row, col)[0] == Tag(kind)[0] != 'H';
    assert SunkText[0] == 'H' && ResetText[0] == 'R' && AddShipsText[0] == 'R';
  }

  // ---------------------------------------------------------------------
  // Decoding a request
  // ---------------------------------------------------------------------

  /** What the handler makes of one inbound message. */
  datatype Request =
    | Reset                      // "RESET"
    | AddShips                   // "ADD_SHIPS"
    | Shot(row: int, col: int)   // two comma-separated integers
    | Dropped                    // anything else that does not split into two fields
    | Unparsable                 // two fields, one of which parseInt rejects

  function ParseRequest(msg: string): (req: Request)
    ensures req.Shot? ==> IsInt32(req.row) && IsInt32(req.col)
    ensures (req.Reset? || req.AddShips?) <==> msg in {"RESET", "ADD_SHIPS"}
  {
    if msg == "RESET" then Reset
    else if msg == "ADD_SHIPS" then AddShips
    else
      var coordinates := Split(msg, ',');
      if |coordinates| != 2 then Dropped
      else
        match (ParseInt(coordinates[0]), ParseInt(coordinates[1]))
        case (Some(row), Some(col)) => Shot(row, col)
        case _ => Unparsable
  }

  // ---------------------------------------------------------------------
  // Ship placement: reject and redraw
  // ---------------------------------------------------------------------

  /** The outcome of placing ships from a stream of random draws: the ship
      cells, the draws left over, and how many ships could not be placed
      because the draws ran out. */
  datatype Placement = Placement(ships: set<Cell>, rest: seq<Cell>, missing: nat)

  /** Placement of `n` more ships: a draw that lands on a ship is thrown
      away and redrawn, a draw on water becomes a ship. */
  function Place(ships: set<Cell>, draws: seq<Cell>, n: nat): (p: Placement)
    ensures ships <= p.ships && p.missing <= n && |p.rest| <= |draws|
    decreases |draws|
  {
    if n == 0 then Placement(ships, draws, 0)
    else if draws == [] then Placement(ships, [], n)
    else if draws[0] in ships then Place(ships, draws[1..], n)
    else Place(ships + {draws[0]}, draws[1..], n - 1)
  }

  /** Placement only adds ships, each one a drawn cell not already a ship,
      so the fleet grows by exactly the number of ships placed; it stops
      short only when the draws are used up. */
  lemma {:induction false} PlaceAddsDistinct(ships: set<Cell>, draws: seq<Cell>, n: nat)
    ensures var p := Place(ships, draws, n);
      && ships <= p.ships && p.missing <= n
      && |p.ships| == |ships| + n - p.missing
      && (forall c :: c in p.ships && c !in ships ==> c in draws)
      && |p.rest| <= |draws| && p.rest == draws[|draws| - |p.rest|..]
      && (p.missing > 0 ==> p.rest == [])
    decreases |draws|
  {
    if n > 0 && draws != [] {
      var d, tail := draws[0], draws[1..];
      assert draws == [d] + tail;
      if d in ships {
        PlaceAddsDistinct(ships, tail, n);
      } else {
        PlaceAddsDistinct(ships + {d}, tail, n - 1);
      }
    }
  }

  /** The cells among the draws that are still water. */
  function FreeDrawn(ships: set<Cell>, draws: seq<Cell>): set<Cell> {
    set c | c in draws && c !in ships
  }

  /** Placement never stalls when the draws offer `n` distinct free cells. */
  lemma {:induction false} PlaceCompletes(ships: set<Cell>, draws: seq<Cell>, n: nat)
    requires |FreeDrawn(ships, draws)| >= n
    ensures Place(ships, draws, n).missing == 0
    decreases |draws|
  {
    if n > 0 {
      var d, tail := draws[0], draws[1..];
      assert draws == [d] + tail;
      if d in ships {
        assert FreeDrawn(ships, tail) == FreeDrawn(ships, draws);
        PlaceCompletes(ships, tail, n);
      } else {
        FreeAfterPlacing(ships, d, tail);
        PlaceCompletes(ships + {d}, tail, n - 1);
      }
    }
  }

  /** Turning a drawn water cell into a ship removes one free cell. */
  lemma FreeAfterPlacing(ships: set<Cell>, d: Cell, tail: seq<Cell>)
    requires d !in ships
    ensures |FreeDrawn(ships + {d}, tail)| == |FreeDrawn(ships, [d] + tail)| - 1
  {
    var free := FreeDrawn(ships, [d] + tail);
    assert d in free;
    assert FreeDrawn(ships + {d}, tail) == free - {d};
  }

  /** The ship cells of a board: every cell holding 1. */
  ghost function ShipCells(board: array2<int>): set<Cell>
    reads board
  {
    set r, c | 0 <= r < board.Length0 && 0 <= c < board.Length1 && board[r, c] == 1 :: (r, c)
  }

  /** colocarBarcosAleatorios: places `NumShips` ships on `board`, reading
      (row, col) draws of the random source from `draws`. */
  method PlaceRandomShips(board: array2<int>, draws: seq<Cell>) returns (rest: seq<Cell>, missing: nat)
    requires board.Length0 == GridSize && board.Length1 == GridSize
    requires AllOnGrid(draws)
    modifies board
    ensures Place(old(ShipCells(board)), draws, NumShips) == Placement(ShipCells(board), rest, missing)
    ensures AllOnGrid(rest)
    ensures forall r, c :: 0 <= r < GridSize && 0 <= c < GridSize && board[r, c] != 1 ==>
              board[r, c] == old(board[r, c])
  {
    ghost var goal := Place(ShipCells(board), draws, NumShips);
    rest, missing := draws, 0;
    var i := 0;
    while i < NumShips
      invariant 0 <= i <= NumShips
      invariant AllOnGrid(rest)
      invariant goal == Place(ShipCells(board), rest, NumShips - i)
      invariant forall r, c :: 0 <= r < GridSize && 0 <= c < GridSize && board[r, c] != 1 ==>
                  board[r, c] == old(board[r, c])
    {
      if rest == [] {
        missing := NumShips - i;
        return;
      }
      var row, col := rest[0].0, rest[0].1;
      rest := rest[1..];
      while board[row, col] == 1
        invariant AllOnGrid(rest) && IsValidShot(row, col)
        invariant goal == Place(ShipCells(board), [(row, col)] + rest, NumShips - i)
        decreases |rest|
      {
        assert (row, col) in ShipCells(board);
        assert ([(row, col)] + rest)[1..] == rest;
        if rest == [] {
          missing := NumShips - i;
          return;
        }
        row, col := rest[0].0, rest[0].1;
        rest := rest[1..];
      }
      assert (row, col) !in ShipCells(board);
      assert ([(row, col)] + rest)[1..] == rest;
      MarkShip(board, row, col);
      i := i + 1;
    }
  }

  /** `board[row][col] = 1` on a water cell: the fleet gains exactly that cell. */
  method MarkShip(board: array2<int>, row: int, col: int)
    requires 0 <= row < board.Length0 && 0 <= col < board.Length1 && board[row, col] != 1
    modifies board
    ensures ShipCells(board) == old(ShipCells(board)) + {(row, col)}
    ensures forall r, c :: 0 <= r < board.Length0 && 0 <= c < board.Length1 && (r, c) != (row, col) ==>
              board[r, c] == old(board[r, c])
  {
    ghost var before := ShipCells(board);
    board[row, col] := 1;
    forall x | x in before + {(row, col)}
      ensures x in ShipCells(board)
    {
      assert board[x.0, x.1] == 1;
    }
  }

  // ---------------------------------------------------------------------
  // One iteration of the connection loop, as a function of the state
  // ---------------------------------------------------------------------

  /** Why the connection's handler stops on its own. */
  datatype Fault =
    | NumberFormat     // Integer.parseInt threw; the handler thread dies
    | DrawsExhausted   // the random draws given to the model ran out during placement

  /** The session as the handler sees it: the ship cells of `tablero`, the
      `gameActive` flag, and the draws the random source will yield next. */
  datatype State = State(ships: set<Cell>, active: bool, draws: seq<Cell>)

  /** The new state, the replies written, and a fault that ends the handler. */
  datatype Reaction = Reaction(next: State, replies: seq<string>, fault: Option<Fault>)

  /** RESET and ADD_SHIPS: a fresh all-water board, then a new fleet. */
  function Restart(st: State, text: string): (r: Reaction)
    ensures r.next.active
    ensures r.fault.None? ==> r.replies == [text] && |r.next.ships| == NumShips
    ensures r.fault.Some? ==> r.fault == Some(DrawsExhausted) && r.replies == []
  {
    var p := Place({}, st.draws, NumShips);
    PlaceAddsDistinct({}, st.draws, NumShips);
    var next := State(p.ships, true, p.rest);
    if p.missing == 0 then Reaction(next, [text], None)
    else Reaction(next, [], Some(DrawsExhausted))
  }

  /** A shot at a valid or invalid cell. The board is only read, never
      written; the game is over when no cell holds a ship. */
  function Fire(st: State, row: int, col: int): (r: Reaction)
    ensures r.next.ships == st.ships && r.next.draws == st.draws && r.fault == None
    ensures 1 <= |r.replies| <= 2
    ensures r.next.active ==> st.active
  {
    if !IsValidShot(row, col) then Reaction(st, [ShotReply(Invalido, row, col)], None)
    else
      var reply := ShotReply(if (row, col) in st.ships then Impacto else Agua, row, col);
      if st.ships == {} then Reaction(st.(active := false), [reply, SunkText], None)
      else Reaction(st, [reply], None)
  }

  /** The handler's answer to one message. */
  function Step(st: State, msg: string): (r: Reaction)
    ensures |r.replies| <= 2
    ensures r.fault == Some(NumberFormat) <==> ParseRequest(msg).Unparsable?
    ensures r.fault.Some? ==> r.replies == []
  {
    match ParseRequest(msg)
    case Reset => Restart(st, ResetText)
    case AddShips => Restart(st, AddShipsText)
    case Shot(row, col) => Fire(st, row, col)
    case Dropped => Reaction(st, [], None)
    case Unparsable => Reaction(st, [], Some(NumberFormat))
  }

  /** Replies `replies` come before those of `r`. */
  function Then(replies: seq<string>, r: Reaction): Reaction {
    Reaction(r.next, replies + r.replies, r.fault)
  }

  /** Replies added in two rounds are the replies added at once. */
  lemma ThenThen(a: seq<string>, b: seq<string>, r: Reaction)
    ensures Then(a, Then(b, r)) == Then(a + b, r)
  {
    assert a + (b + r.replies) == (a + b) + r.replies;
  }

  /** The `while (gameActive)` loop over the messages the client sends;
      the loop also ends when the client closes the stream or on a fault. */
  function Run(st: State, inbox: seq<string>): (r: Reaction)
    ensures !st.active ==> r == Reaction(st, [], None)
    ensures |r.replies| <= 2 * |inbox|
    decreases |inbox|
  {
    if !st.active || inbox == [] then Reaction(st, [], None)
    else
      var s := Step(st, inbox[0]);
      if s.fault.Some? then s else Then(s.replies, Run(s.next, inbox[1..]))
  }

  // ---------------------------------------------------------------------
  // Properties of the handler
  // ---------------------------------------------------------------------

  /** An in-range shot answers IMPACTO exactly on a ship cell and AGUA
      elsewhere, leaves the board as it was, and adds HUNDIDA (ending the
      game) exactly when no ship cell is left. */
  lemma ShotInRange(st: State, msg: string, row: int, col: int)
    requires ParseRequest(msg) == Shot(row, col) && IsValidShot(row, col)
    ensures var r := Step(st, msg);
      && r.fault == None && r.next.ships == st.ships && r.next.draws == st.draws
      && r.replies[0] == ShotReply(if (row, col) in st.ships then Impacto else Agua, row, col)
      && (r.replies[0] == ShotReply(Impacto, row, col) <==> (row, col) in st.ships)
      && (SunkText in r.replies <==> st.ships == {})
      && (r.next.active <==> st.active && st.ships != {})
  {
    var r := Step(st, msg);
    assert ShotReply(Impacto, row, col)[0] == 'I';
    assert ShotReply(Agua, row, col)[0] == 'A';
    if st.ships != {} {
      assert r.replies == [r.replies[0]];
    }
  }

  /** An out-of-range shot is answered INVALIDO and changes nothing. */
  lemma ShotOutOfRange(st: State, msg: string, row: int, col: int)
    requires ParseRequest(msg) == Shot(row, col) && !IsValidShot(row, col)
    ensures Step(st, msg) == Reaction(st, [ShotReply(Invalido, row, col)], None)
  {
  }

  /** A message that is no control token and no pair of fields is dropped. */
  lemma MalformedDropped(st: State, msg: string)
    requires msg != "RESET" && msg != "ADD_SHIPS" && |Split(msg, ',')| != 2
    ensures Step(st, msg) == Reaction(st, [], None)
  {
  }

  /** RESET and ADD_SHIPS reactivate the game on a board of exactly
      `NumShips` distinct ships, all drawn cells, and answer with a RESET
      message; placement only stalls when the draws run out, never while
      they still offer `NumShips` free cells. */
  lemma RestartPlacesFleet(st: State, msg: string)
    requires msg == "RESET" || msg == "ADD_SHIPS"
    ensures var r := Step(st, msg);
      && r.next.active
      && (r.fault == None ==>
            && |r.next.ships| == NumShips
            && (AllOnGrid(st.draws) ==> forall c :: c in r.next.ships ==> IsValidShot(c.0, c.1))
            && |r.replies| == 1 && r.replies[0][..6] == "RESET:")
      && (r.fault != None ==> r.fault == Some(DrawsExhausted) && r.replies == [] && r.next.draws == [])
      && (|FreeDrawn({}, st.draws)| >= NumShips ==> r.fault == None)
  {
    var p := Place({}, st.draws, NumShips);
    PlaceAddsDistinct({}, st.draws, NumShips);
    if AllOnGrid(st.draws) {
      forall c | c in p.ships
        ensures IsValidShot(c.0, c.1)
      {
        assert c in st.draws;
        var i :| 0 <= i < |st.draws| && st.draws[i] == c;
      }
    }
    if |FreeDrawn({}, st.draws)| >= NumShips {
      PlaceCompletes({}, st.draws, NumShips);
    }
  }

  /** HUNDIDA, when sent, is the last reply of its step and ends the game. */
  lemma SunkEndsStep(st: State, msg: string)
    ensures var r := Step(st, msg);
      SunkText in r.replies ==>
        && r.replies[|r.replies| - 1] == SunkText && !r.next.active
        && forall i :: 0 <= i < |r.replies| - 1 ==> r.replies[i] != SunkText
  {
    var r := Step(st, msg);
    match ParseRequest(msg)
    case Shot(row, col) =>
      assert r == Fire(st, row, col);
      var kind := if !IsValidShot(row, col) then Invalido
        else if (row, col) in st.ships then Impacto else Agua;
      SunkTextDistinct(kind, row, col);
      assert r.replies[0] == ShotReply(kind, row, col);
      if IsValidShot(row, col) && st.ships == {} {
        assert r.replies == [r.replies[0], SunkText];
      } else {
        assert r.replies == [r.replies[0]];
      }
    case Reset =>
      SunkTextDistinct(Agua, 0, 0);
      assert r.replies == [ResetText] || r.replies == [];
    case AddShips =>
      SunkTextDistinct(Agua, 0, 0);
      assert r.replies == [AddShipsText] || r.replies == [];
    case Dropped =>
    case Unparsable =>
  }

  /** No reply follows HUNDIDA on a connection: the loop stops at once. */
  lemma {:induction false} NoReplyAfterSunk(st: State, inbox: seq<string>)
    ensures forall i :: 0 <= i < |Run(st, inbox).replies| - 1 ==> Run(st, inbox).replies[i] != SunkText
    decreases |inbox|
  {
    if st.active && inbox != [] {
      var s := Step(st, inbox[0]);
      SunkEndsStep(st, inbox[0]);
      if s.fault.None? {
        var t := Run(s.next, inbox[1..]);
        NoReplyAfterSunk(s.next, inbox[1..]);
        assert SunkText in s.replies ==> t.replies == [];
        var all := s.replies + t.replies;
        forall i | 0 <= i < |all| - 1
          ensures all[i] != SunkText
        {
          if i < |s.replies| {
            assert all[i] == s.replies[i];
            if SunkText !in s.replies {
              assert s.replies[i] in s.replies;
            } else {
              assert |all| == |s.replies|;
              assert i < |s.replies| - 1;
              assert s.replies[i] != SunkText;
            }
          } else {
            assert all[i] == t.replies[i - |s.replies|];
            assert i - |s.replies| < |t.replies| - 1;
            assert t.replies[i - |s.replies|] != SunkText;
          }
        }
      }
    }
  }

  /** With ships on the board no step sends HUNDIDA, and a step that does
      not fail leaves ships on the board: shots never clear a cell and a
      completed placement puts `NumShips` ships down. */
  lemma FleetStaysAfloat(st: State, msg: string)
    requires st.ships != {}
    ensures SunkText !in Step(st, msg).replies
    ensures Step(st, msg).fault.None? ==> Step(st, msg).next.ships != {}
  {
    match ParseRequest(msg)
    case Reset =>
      SunkTextDistinct(Agua, 0, 0);
      RestartPlacesFleet(st, msg);
    case AddShips =>
      SunkTextDistinct(Agua, 0, 0);
      RestartPlacesFleet(st, msg);
    case Shot(row, col) =>
      SunkTextDistinct(Invalido, row, col);
      SunkTextDistinct(Impacto, row, col);
      SunkTextDistinct(Agua, row, col);
    case _ =>
  }

  /** Once the fleet is on the board the connection never sees HUNDIDA. */
  lemma {:induction false} NeverSunkAfterPlacement(st: State, inbox: seq<string>)
    requires st.ships != {}
    ensures SunkText !in Run(st, inbox).replies
    decreases |inbox|
  {
    if st.active && inbox != [] {
      var s := Step(st, inbox[0]);
      FleetStaysAfloat(st, inbox[0]);
      if s.fault.None? {
        NeverSunkAfterPlacement(s.next, inbox[1..]);
      }
    }
  }

  /** Before any placement the board is all water, so the first in-range
      shot is answered AGUA and then HUNDIDA, and the game ends. */
  lemma ShotBeforePlacement(draws: seq<Cell>, msg: string, row: int, col: int)
    requires ParseRequest(msg) == Shot(row, col) && IsValidShot(row, col)
    ensures Step(State({}, true, draws), msg)
         == Reaction(State({}, false, draws), [ShotReply(Agua, row, col), SunkText], None)
  {
  }

  // ---------------------------------------------------------------------
  // The session object
  // ---------------------------------------------------------------------

  /** The server's game state: `tablero` and `gameActive`, plus the draws
      that its random source will yield. */
  class Session {
    var tablero: array2<int>
    var gameActive: bool
    var draws: seq<Cell>

    ghost predicate Valid()
      reads this, tablero
    {
      && tablero.Length0 == GridSize && tablero.Length1 == GridSize
      && (forall r, c :: 0 <= r < GridSize && 0 <= c < GridSize ==> tablero[r, c] == 0 || tablero[r, c] == 1)
      && AllOnGrid(draws)
    }

    ghost function Model(): State
      reads this, tablero
      requires Valid()
    {
      State(ShipCells(tablero), gameActive, draws)
    }

    /** The static initial state: an all-water board and an active game. */
    constructor (draws: seq<Cell>)
      requires AllOnGrid(draws)
      ensures Valid() && fresh(tablero)
      ensures Model() == State({}, true, draws)
    {
      tablero := new int[GridSize, GridSize]((r, c) => 0);
      gameActive := true;
      this.draws := draws;
      new;
      assert forall x :: x !in ShipCells(tablero);
    }

    /** reiniciarJuego: a new all-water board and an active game. */
    method ResetGame()
      requires Valid()
      modifies this
      ensures Valid() && fresh(tablero)
      ensures forall r, c :: 0 <= r < GridSize && 0 <= c < GridSize ==> tablero[r, c] == 0
      ensures Model() == State({}, true, old(draws))
    {
      tablero := new int[GridSize, GridSize]((r, c) => 0);
      gameActive := true;
      assert forall x :: x !in ShipCells(tablero);
    }

    /** todosBarcosImpactados: true exactly when no cell holds a ship. */
    method AllShipsHit() returns (b: bool)
      requires Valid()
      ensures b <==> forall r, c :: 0 <= r < GridSize && 0 <= c < GridSize ==> tablero[r, c] != 1
      ensures b <==> ShipCells(tablero) == {}
    {
      var i := 0;
      while i < GridSize
        invariant 0 <= i <= GridSize
        invariant forall r, c :: 0 <= r < i && 0 <= c < GridSize ==> tablero[r, c] != 1
      {
        var j := 0;
        while j < GridSize
          invariant 0 <= j <= GridSize
          invariant forall r, c :: 0 <= r < i && 0 <= c < GridSize ==> tablero[r, c] != 1
          invariant forall c :: 0 <= c < j ==> tablero[i, c] != 1
        {
          if tablero[i, j] == 1 {
            assert (i, j) in ShipCells(tablero);
            return false;
          }
          j := j + 1;
        }
        i := i + 1;
      }
      return true;
    }

    /** checkGameOver: HUNDIDA and the end of the game once no ship is left. */
    method CheckGameOver() returns (replies: seq<string>)
      requires Valid()
      modifies this`gameActive
      ensures Valid()
      ensures replies == (if ShipCells(tablero) == {} then [SunkText] else [])
      ensures gameActive == (old(gameActive) && ShipCells(tablero) != {})
    {
      var over := AllShipsHit();
      if over {
        replies := [SunkText];
        gameActive := false;
      } else {
        replies := [];
      }
    }

    /** The RESET and ADD_SHIPS branch: reiniciarJuego, colocarBarcosAleatorios,
        then the confirmation `text`. */
    method ResetAndPlace(text: string) returns (replies: seq<string>, fault: Option<Fault>)
      requires Valid()
      modifies this
      ensures Valid() && fresh(tablero)
      ensures Reaction(Model(), replies, fault) == Restart(old(Model()), text)
    {
      ResetGame();
      var rest, missing := PlaceRandomShips(tablero, draws);
      draws := rest;
      if missing == 0 {
        replies, fault := [text], None;
      } else {
        replies, fault := [], Some(DrawsExhausted);
      }
    }

    /** The shot branch, once both coordinates have been parsed. */
    method Shoot(row: int, col: int) returns (replies: seq<string>)
      requires Valid()
      modifies this`gameActive
      ensures Valid()
      ensures Reaction(Model(), replies, None) == Fire(old(Model()), row, col)
    {
      if IsValidShot(row, col) {
        var hit := tablero[row, col] == 1;
        assert hit <==> (row, col) in ShipCells(tablero);
        var over := CheckGameOver();
        replies := [ShotReply(if hit then Impacto else Agua, row, col)] + over;
      } else {
        replies := [ShotReply(Invalido, row, col)];
      }
    }

    /** One pass of the loop in handleTCPConnection, for message `msg`. */
    method Handle(msg: string) returns (replies: seq<string>, fault: Option<Fault>)
      requires Valid()
      modifies this
      ensures Valid()
      ensures tablero == old(tablero) || fresh(tablero)
      ensures Reaction(Model(), replies, fault) == Step(old(Model()), msg)
    {
      if msg == "RESET" || msg == "ADD_SHIPS" {
        replies, fault := ResetAndPlace(if msg == "RESET" then ResetText else AddShipsText);
      } else {
        replies, fault := [], None;
        var coordinates := Split(msg, ',');
        if |coordinates| == 2 {
          var row := ParseInt(coordinates[0]);
          var col := ParseInt(coordinates[1]);
          if row.None? || col.None? {
            assert ParseRequest(msg) == Unparsable;
            fault := Some(NumberFormat);
          } else {
            assert ParseRequest(msg) == Shot(row.value, col.value);
            replies := Shoot(row.value, col.value);
          }
        } else {
          assert ParseRequest(msg) == Dropped;
        }
      }
    }

    /** handleTCPConnection: answers the messages of `inbox` in order while
        the game is active, until the client stops sending or a fault. */
    method Serve(inbox: seq<string>) returns (replies: seq<string>, fault: Option<Fault>)
      requires Valid()
      modifies this
      ensures Valid()
      ensures Reaction(Model(), replies, fault) == Run(old(Model()), inbox)
    {
      replies, fault := [], None;
      var i := 0;
      while gameActive && i < |inbox|
        invariant 0 <= i <= |inbox|
        invariant Valid()
        invariant tablero == old(tablero) || fresh(tablero)
        invariant Run(old(Model()), inbox) == Then(replies, Run(Model(), inbox[i..]))
        decreases |inbox| - i
      {
        assert inbox[i..][1..] == inbox[i + 1..];
        var more, f := Handle(inbox[i]);
        ThenThen(replies, more, Run(Model(), inbox[i + 1..]));
        replies := replies + more;
        i := i + 1;
        if f.Some? {
          fault := f;
          return;
        }
      }
    }
  }
}
