/** The game client: it decodes the server's `TYPE:payload` messages, keeps
    count of the enemy ships still afloat, and sends shots as `row,col`. */
module Client {
  import opened JavaText

  const GridSize: int := 5
  /** The initial value of `barcosRestantes`. */
  const FleetSize: int := 3

  // ---------------------------------------------------------------------
  // Decoding server messages
  // ---------------------------------------------------------------------

  /** What processMessage makes of one server message. */
  datatype Event =
    | Malformed                      // fewer than two `:`-separated parts: discarded
    | Start                          // INICIO
    | Impact(coordinates: string)    // IMPACTO
    | Water(coordinates: string)     // AGUA
    | Invalid(coordinates: string)   // INVALIDO
    | Win(text: string)              // HUNDIDA
    | Informative(messageType: string)  // any other type, RESET included: only logged

  /** Split on `:`, then dispatch on the first part with the second part as
      payload; further parts are ignored. */
  function Classify(message: string): (e: Event)
    ensures ':' !in message ==> e == Malformed
    ensures e.Impact? ==> ':' !in e.coordinates
    ensures e.Water? ==> ':' !in e.coordinates
  {
    var parts := Split(message, ':');
    if |parts| < 2 then Malformed
    else
      var content := parts[1];
      if parts[0] == "INICIO" then Start
      else if parts[0] == "IMPACTO" then Impact(content)
      else if parts[0] == "AGUA" then Water(content)
      else if parts[0] == "INVALIDO" then Invalid(content)
      else if parts[0] == "HUNDIDA" then Win(content)
      else Informative(parts[0])
  }

  /** The coordinate parsing of handleImpact and handleWater: split on `,`,
      parseInt the first two parts. Too few parts or a parse failure throws,
      which is `None` here. */
  function DecodeCoordinates(coordinates: string): (cell: Option<(int, int)>)
    ensures cell.Some? ==> IsInt32(cell.value.0) && IsInt32(cell.value.1)
  {
    var parts := Split(coordinates, ',');
    if |parts| < 2 then None
    else
      match (ParseInt(parts[0]), ParseInt(parts[1]))
      case (Some(row), Some(col)) => Some((row, col))
      case _ => None
  }

  /** The cells of the client's button grid; `buttons[row][col]` throws
      outside it. */
  predicate OnBoard(row: int, col: int) {
    0 <= row < GridSize && 0 <= col < GridSize
  }

  /** Java's `n--` on an `int`: the minimum wraps around to the maximum. */
  function Decrement(n: int): (m: int)
    requires IsInt32(n)
    ensures IsInt32(m)
    ensures n > IntMin ==> m == n - 1
    ensures n == IntMin ==> m == IntMax
  {
    if n == IntMin then IntMax else n - 1
  }

  // ---------------------------------------------------------------------
  // The client's game state as a value
  // ---------------------------------------------------------------------

  /** `gameActive` and `barcosRestantes`. */
  datatype Tally = Tally(active: bool, remaining: int)

  predicate ValidTally(t: Tally) {
    IsInt32(t.remaining)
  }

  /** handleImpact: one ship fewer, and the game over when none is left.
      Coordinates that do not decode, or fall outside the grid, throw before
      the counter is touched. */
  function AfterImpact(t: Tally, coordinates: string): (u: Tally)
    requires ValidTally(t)
    ensures ValidTally(u)
    ensures u.active ==> t.active
    ensures u.remaining == t.remaining || u.remaining == Decrement(t.remaining)
  {
    match DecodeCoordinates(coordinates)
    case Some((row, col)) =>
      if OnBoard(row, col) then
        var left := Decrement(t.remaining);
        Tally(if left == 0 then false else t.active, left)
      else t
    case None => t
  }

  /** The effect of processMessage on the tally. */
  function React(t: Tally, message: string): (u: Tally)
    requires ValidTally(t)
    ensures ValidTally(u)
  {
    match Classify(message)
    case Impact(coordinates) => AfterImpact(t, coordinates)
    case Win(_) => Tally(false, t.remaining)
    case _ => t
  }

  /** The `while (gameActive)` loop of receiveMessages: messages are
      processed one after the other until the game is over. */
  function ReactAll(t: Tally, messages: seq<string>): (u: Tally)
    requires ValidTally(t)
    ensures ValidTally(u)
    ensures t.active || u == t
    decreases |messages|
  {
    if !t.active || messages == [] then t else ReactAll(React(t, messages[0]), messages[1..])
  }

  /** Processing two batches of messages is processing their concatenation. */
  lemma {:induction false} ReactAllConcat(t: Tally, a: seq<string>, b: seq<string>)
    requires ValidTally(t)
    ensures ReactAll(t, a + b) == ReactAll(ReactAll(t, a), b)
    decreases |a|
  {
    if t.active && a != [] {
      assert (a + b)[1..] == a[1..] + b;
      ReactAllConcat(React(t, a[0]), a[1..], b);
    } else if a == [] {
      assert a + b == b;
    }
  }

  /** What a click on a grid button sends: `row + "," + col`. */
  function ShotRequest(row: int, col: int): (request: string)
    ensures request != "RESET" && request != "ADD_SHIPS" && ':' !in request
  {
    var request := IntToString(row) + "," + IntToString(col);
    assert request[|IntToString(row)|] == ',';
    assert ',' !in "RESET" && ',' !in "ADD_SHIPS";
    request
  }

  // ---------------------------------------------------------------------
  // Properties of the decoder and the counter
  // ---------------------------------------------------------------------

  /** A message without two `:`-separated parts changes nothing. */
  lemma MalformedDiscarded(t: Tally, message: string)
    requires ValidTally(t) && |Split(message, ':')| < 2
    ensures React(t, message) == t
  {
  }

  /** Only IMPACTO and HUNDIDA change the tally; INICIO, AGUA, INVALIDO and
      every other type, RESET included, leave it alone. */
  lemma OnlyImpactAndWinCount(t: Tally, message: string)
    requires ValidTally(t)
    ensures React(t, message) != t ==> Classify(message).Impact? || Classify(message).Win?
    ensures Classify(message).Win? ==> React(t, message) == Tally(false, t.remaining)
  {
  }

  /** An IMPACTO on a grid cell counts exactly one ship down and ends the
      game when the count reaches 0; any other IMPACTO payload is ignored. */
  lemma ImpactCountsDown(t: Tally, coordinates: string)
    requires ValidTally(t) && t.remaining > IntMin
    ensures var u := AfterImpact(t, coordinates);
      match DecodeCoordinates(coordinates)
      case Some((row, col)) =>
        if OnBoard(row, col) then u.remaining == t.remaining - 1 && (u.active <==> t.active && t.remaining != 1)
        else u == t
      case None => u == t
  {
  }

  /** The payload is the text between the first and second `:` only. */
  lemma PayloadIsSecondPart(tag: string, payload: string, tail: string)
    requires ':' !in tag && ':' !in payload && payload != ""
    ensures Classify(tag + ":" + payload + ":" + tail) == Classify(tag + ":" + payload)
  {
    SplitPrefix(tag, payload, tail, ':');
    SplitPair(tag, payload, ':');
  }

  /** Decoding `row,col` recovers the pair for every pair of `int`s. */
  lemma CoordinatesRoundTrip(row: int, col: int)
    requires IsInt32(row) && IsInt32(col)
    ensures DecodeCoordinates(ShotRequest(row, col)) == Some((row, col))
  {
    SplitPair(IntToString(row), IntToString(col), ',');
    ParseIntRoundTrip(row);
    ParseIntRoundTrip(col);
  }

  // ---------------------------------------------------------------------
  // The client object
  // ---------------------------------------------------------------------

  /** The fields of the JavaFX client that the game logic updates, and the
      messages it has written to the server. */
  class Client {
    var gameActive: bool
    var barcosRestantes: int
    var sent: seq<string>

    function Current(): Tally
      reads this
    {
      Tally(gameActive, barcosRestantes)
    }

    constructor ()
      ensures Current() == Tally(true, FleetSize) && sent == []
    {
      gameActive := true;
      barcosRestantes := FleetSize;
      sent := [];
    }

    /** handleButtonClick: sends `row,col` only while the game is active. */
    method HandleButtonClick(row: int, col: int)
      modifies this`sent
      ensures sent == old(sent) + (if gameActive then [ShotRequest(row, col)] else [])
    {
      if gameActive {
        sent := sent + [ShotRequest(row, col)];
      }
    }

    /** handleAddShipsButton: asks the server for a new fleet. */
    method HandleAddShipsButton()
      modifies this`sent
      ensures sent == old(sent) + ["ADD_SHIPS"]
    {
      sent := sent + ["ADD_SHIPS"];
    }

    /** handleResetButton: a fresh local game; nothing goes to the server. */
    method HandleResetButton()
      modifies this`gameActive, this`barcosRestantes
      ensures Current() == Tally(true, FleetSize) && sent == old(sent)
    {
      gameActive := true;
      barcosRestantes := FleetSize;
    }

    /** handleImpact, on the payload of an IMPACTO message. */
    method HandleImpact(coordinates: string)
      requires ValidTally(Current())
      modifies this`gameActive, this`barcosRestantes
      ensures Current() == AfterImpact(old(Current()), coordinates)
    {
      var parts := Split(coordinates, ',');
      if |parts| < 2 {
        return;
      }
      var row := ParseInt(parts[0]);
      var col := ParseInt(parts[1]);
      if row.None? || col.None? || !OnBoard(row.value, col.value) {
        return;
      }
      barcosRestantes := Decrement(barcosRestantes);
      if barcosRestantes == 0 {
        gameActive := false;
      }
    }

    /** handleWin: the game is over; the counter is left as it is. */
    method HandleWin(text: string)
      modifies this`gameActive
      ensures !gameActive && barcosRestantes == old(barcosRestantes)
    {
      gameActive := false;
    }

    /** receiveMessages: reads and processes messages while the game is
        active; returns how many of `inbox` were read. */
    method ReceiveMessages(inbox: seq<string>) returns (read: nat)
      requires ValidTally(Current())
      modifies this`gameActive, this`barcosRestantes
      ensures read <= |inbox| && (read < |inbox| ==> !gameActive)
      ensures Current() == ReactAll(old(Current()), inbox) && sent == old(sent)
    {
      read := 0;
      while gameActive && read < |inbox|
        invariant read <= |inbox| && ValidTally(Current())
        invariant ReactAll(old(Current()), inbox) == ReactAll(Current(), inbox[read..])
        invariant sent == old(sent)
        decreases |inbox| - read
      {
        assert inbox[read..][1..] == inbox[read + 1..];
        ProcessMessage(inbox[read]);
        read := read + 1;
      }
    }

    /** processMessage: decode, then dispatch on the message type. */
    method ProcessMessage(message: string)
      requires ValidTally(Current())
      modifies this`gameActive, this`barcosRestantes
      ensures Current() == React(old(Current()), message) && sent == old(sent)
    {
      var parts := Split(message, ':');
      if |parts| < 2 {
        return;
      }
      var messageType, messageContent := parts[0], parts[1];
      if messageType == "INICIO" {
      } else if messageType == "IMPACTO" {
        HandleImpact(messageContent);
      } else if messageType == "AGUA" {
        // handleWater only marks the button
      } else if messageType == "INVALIDO" {
        // handleInvalid only updates the label
      } else if messageType == "HUNDIDA" {
        HandleWin(messageContent);
      }
    }
  }
}
