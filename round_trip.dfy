/** How the client's encoder meets the server's decoder, and the server's
    replies meet the client's decoder. */
module RoundTrip {
  import opened JavaText
  import Server
  import Client

  /** A click's request reaches the server as the shot at the same pair. */
  lemma RequestRoundTrip(row: int, col: int)
    requires IsInt32(row) && IsInt32(col)
    ensures Server.ParseRequest(Client.ShotRequest(row, col)) == Server.Shot(row, col)
  {
    var msg := Client.ShotRequest(row, col);
    assert msg[|IntToString(row)|] == ',';
    assert msg != "RESET" && msg != "ADD_SHIPS";
    SplitPair(IntToString(row), IntToString(col), ',');
    ParseIntRoundTrip(row);
    ParseIntRoundTrip(col);
  }

  /** The server's bounds check accepts exactly the cells of the client's
      button grid: both rows and columns from 0 to 4. */
  lemma SameGrid(row: int, col: int)
    ensures Server.IsValidShot(row, col) <==> Client.OnBoard(row, col)
    ensures Server.IsValidShot(row, col) <==> 0 <= row < 5 && 0 <= col < 5
  {
  }

  /** A tagged message with a `:`-free payload decodes by its tag. */
  lemma ClassifyTagged(kind: Server.ShotKind, payload: string)
    requires ':' !in payload && payload != ""
    ensures Client.Classify(Server.Tag(kind) + [':'] + payload) ==
      match kind
      case Impacto => Client.Impact(payload)
      case Agua => Client.Water(payload)
      case Invalido => Client.Invalid(payload)
  {
    SplitPair(Server.Tag(kind), payload, ':');
  }

  /** Every shot reply is decoded by the client as its own type, with
      `row,col` as payload, and the payload gives back the pair. */
  lemma ReplyRoundTrip(kind: Server.ShotKind, row: int, col: int)
    requires IsInt32(row) && IsInt32(col)
    ensures Client.Classify(Server.ShotReply(kind, row, col)) ==
      match kind
      case Impacto => Client.Impact(Server.Coordinates(row, col))
      case Agua => Client.Water(Server.Coordinates(row, col))
      case Invalido => Client.Invalid(Server.Coordinates(row, col))
    ensures Client.DecodeCoordinates(Server.Coordinates(row, col)) == Some((row, col))
  {
    ClassifyTagged(kind, Server.Coordinates(row, col));
    Client.CoordinatesRoundTrip(row, col);
  }

  /** A HUNDIDA message ends the client's game when its note is a field of
      its own: non-empty and not opening with `:`. */
  lemma WinAtClient(t: Client.Tally, note: string)
    requires Client.ValidTally(t) && note != [] && note[0] != ':'
    ensures Client.React(t, "HUNDIDA" + ":" + note) == Client.Tally(false, t.remaining)
  {
    var message := "HUNDIDA" + ":" + note;
    SplitHead("HUNDIDA", note, ':');
    var parts := Split(message, ':');
    assert parts[0][0] == 'H';
    assert Client.Classify(message) == Client.Win(parts[1]);
  }

  /** A bare `HUNDIDA:` has a single part after the split and is discarded
      as malformed: it does not end the client's game. */
  lemma EmptyWinDiscarded(t: Client.Tally)
    requires Client.ValidTally(t)
    ensures Client.React(t, "HUNDIDA:") == t
  {
    assert "HUNDIDA:" == "HUNDIDA" + [':'];
    TrailingSeparatorDropped("HUNDIDA", ':');
  }

  /** A RESET message, whatever follows the tag, is only logged or
      discarded by the client. */
  lemma ResetAtClient(t: Client.Tally, note: string)
    requires Client.ValidTally(t)
    ensures Client.React(t, "RESET" + ":" + note) == t
  {
    var message := "RESET" + ":" + note;
    SplitFirst("RESET", note, ':');
    var parts := Split(message, ':');
    assert parts[0][0] == 'R';
  }

  /** HUNDIDA ends the client's game; the server's RESET answer is only
      logged, so it does not restore the client's counter. */
  lemma ControlRepliesAtClient(t: Client.Tally)
    requires Client.ValidTally(t)
    ensures Client.React(t, Server.SunkText) == Client.Tally(false, t.remaining)
    ensures Client.React(t, Server.ResetText) == t
    ensures Client.React(t, Server.AddShipsText) == t
  {
    WinAtClient(t, Server.SunkNote);
    ResetAtClient(t, Server.ResetNote);
    ResetAtClient(t, Server.AddShipsNote);
  }

  /** The client's reaction to the replies of one step, one message at a time. */
  lemma ReactAllShort(t: Client.Tally, a: string, b: string)
    requires Client.ValidTally(t) && t.active
    ensures Client.ReactAll(t, [a]) == Client.React(t, a)
    ensures Client.React(t, a).active ==>
      Client.ReactAll(t, [a, b]) == Client.React(Client.React(t, a), b)
  {
    var u := Client.React(t, a);
    assert [a][1..] == [] && [b][1..] == [];
    if u.active {
      assert Client.ReactAll(u, [b]) == Client.ReactAll(Client.React(u, b), []);
    }
    assert [a, b][1..] == [b];
  }

  /** The client reading the replies to an in-range shot: the shot's own
      reply, then HUNDIDA when the server's board had no ship. */
  lemma ShotRepliesAtClient(t: Client.Tally, hit: bool, sunk: bool, row: int, col: int)
    requires Client.OnBoard(row, col) && !(hit && sunk)
    requires Client.ValidTally(t) && t.active && t.remaining > IntMin
    ensures var reply := Server.ShotReply(if hit then Server.Impacto else Server.Agua, row, col);
      Client.ReactAll(t, if sunk then [reply, Server.SunkText] else [reply]) ==
        if hit then Client.Tally(t.remaining != 1, t.remaining - 1)
        else if sunk then Client.Tally(false, t.remaining)
        else t
  {
    var kind := if hit then Server.Impacto else Server.Agua;
    var reply := Server.ShotReply(kind, row, col);
    ReplyRoundTrip(kind, row, col);
    var u := Client.React(t, reply);
    Client.ImpactCountsDown(t, Server.Coordinates(row, col));
    assert u == if hit then Client.Tally(t.remaining != 1, t.remaining - 1) else t;
    ReactAllShort(t, reply, Server.SunkText);
    if sunk {
      ControlRepliesAtClient(u);
    }
  }

  /** One click on a grid cell, answered by the server and read by the
      client: a hit counts one ship down; a miss changes nothing unless the
      board has no ship, in which case the HUNDIDA that follows ends the
      client's game. */
  lemma ShotExchange(st: Server.State, t: Client.Tally, row: int, col: int)
    requires Client.OnBoard(row, col)
    requires Client.ValidTally(t) && t.active && t.remaining > IntMin
    ensures var replies := Server.Step(st, Client.ShotRequest(row, col)).replies;
      Client.ReactAll(t, replies) ==
        if (row, col) in st.ships then
          Client.Tally(t.remaining != 1, t.remaining - 1)
        else if st.ships == {} then Client.Tally(false, t.remaining)
        else t
  {
    var msg := Client.ShotRequest(row, col);
    RequestRoundTrip(row, col);
    assert Server.Step(st, msg) == Server.Fire(st, row, col);
    var hit := (row, col) in st.ships;
    var reply := Server.ShotReply(if hit then Server.Impacto else Server.Agua, row, col);
    assert Server.Fire(st, row, col).replies ==
      if st.ships == {} then [reply, Server.SunkText] else [reply];
    ShotRepliesAtClient(t, hit, st.ships == {}, row, col);
  }

  /** The server never marks a hit, so shooting the same ship cell three
      times in a row is answered IMPACTO three times and leaves the server's
      game running, while the client counts three ships down and ends its
      game. */
  lemma RepeatedHitEndsClientGame(st: Server.State, row: int, col: int)
    requires (row, col) in st.ships && Server.IsValidShot(row, col)
    ensures var r := Server.Step(st, Client.ShotRequest(row, col));
      && r.next == st && r.replies == [Server.ShotReply(Server.Impacto, row, col)]
      && Client.ReactAll(Client.Tally(true, Client.FleetSize), r.replies + r.replies + r.replies)
         == Client.Tally(false, 0)
  {
    var msg := Client.ShotRequest(row, col);
    RequestRoundTrip(row, col);
    Server.ShotInRange(st, msg, row, col);
    var replies := Server.Step(st, msg).replies;
    assert replies == [replies[0]];
    var t0 := Client.Tally(true, Client.FleetSize);
    ShotExchange(st, t0, row, col);
    var t1 := Client.ReactAll(t0, replies);
    ShotExchange(st, t1, row, col);
    var t2 := Client.ReactAll(t1, replies);
    ShotExchange(st, t2, row, col);
    Client.ReactAllConcat(t0, replies, replies);
    Client.ReactAllConcat(t0, replies + replies, replies);
  }

  /** Before any placement the first in-range click ends the game on both
      sides: AGUA, then HUNDIDA, and the connection's loop stops. */
  lemma ClickBeforePlacement(draws: seq<Server.Cell>, t: Client.Tally, row: int, col: int)
    requires Client.OnBoard(row, col) && Client.ValidTally(t) && t.active && t.remaining > IntMin
    ensures var r := Server.Step(Server.State({}, true, draws), Client.ShotRequest(row, col));
      && r.replies == [Server.ShotReply(Server.Agua, row, col), Server.SunkText]
      && !r.next.active
      && Client.ReactAll(t, r.replies) == Client.Tally(false, t.remaining)
  {
    RequestRoundTrip(row, col);
    Server.ShotBeforePlacement(draws, Client.ShotRequest(row, col), row, col);
    ShotExchange(Server.State({}, true, draws), t, row, col);
  }
}
