# Hundir la flota: server session and client message handling

This project models the two halves of a small networked Battleship game
("Hundir la flota").

- **The server** holds a 5 x 5 `int` board `tablero`, where 0 is water and 1 is a ship, and a `gameActive` flag.
  - It answers each text request of one connection:
    - `RESET` and `ADD_SHIPS` clear the board and place three ships at random, answering `RESET:…`.
    - `row,col` is a shot, answered `IMPACTO:row,col`, `AGUA:row,col` or `INVALIDO:row,col`.
  - After an in-range shot it sends `HUNDIDA:…` and ends the game once no cell holds a ship.
- **The client** keeps `gameActive` and the counter `barcosRestantes`.
  - It decodes each `TYPE:payload` reply and counts one ship down per `IMPACTO`.
  - It ends its game on `HUNDIDA` or when the counter reaches 0.
  - A grid click sends `row,col`, but only while its game is active.

Files:

- `java_text.dfy` (module `JavaText`) models the Java library behaviour the protocol depends on:
  - `String.split` with a one-character separator that is not a regular-expression metacharacter (`,` and `:` here): trailing empty fields are dropped, and a string without the separator is returned whole.
  - `Integer.parseInt`: an optional sign, ASCII digits, the 32-bit range, and failure as `None`.
  - The decimal rendering of an `int` in string concatenation.
- `server.dfy` (module `Server`) has two layers:
  - A functional specification of one pass of the connection loop (`Step`) and of the whole loop (`Run`), with its properties.
  - `class Session`, with the board as an `array2<int>`, whose methods are proved against that specification.
  - The random source is a finite sequence of drawn cells, `draws`, that placement consumes.
- `client.dfy` (module `Client`) has two layers:
  - The client's decoding and counter as functions (`Classify`, `DecodeCoordinates`, `React`).
  - `class Client`, whose handlers update `gameActive`/`barcosRestantes` and record what is sent.
- `round_trip.dfy` (module `RoundTrip`) connects the two sides:
  - The server decodes a click's request as the same shot.
  - The client decodes every shot reply as its own type with the same coordinates.
  - Whole exchanges are worked through.

Where the code and the intended game differ, the model follows the code:

- A shot never writes to the board, so there are no hit or miss cell states.
- After a completed placement `HUNDIDA` is never sent (`Server.NeverSunkAfterPlacement`). Sinking the three ships one after another therefore does not end the server's game.
- Before any placement the board is all water, so the first in-range shot is answered `AGUA` and then `HUNDIDA`.
- The client's reset button changes only local state and sends nothing.
- The client counts `IMPACTO` replies, not distinct ships. Three hits on the same ship cell end the client's game while the server's game goes on (`RoundTrip.RepeatedHitEndsClientGame`).

## Model

| member | source | states |
|---|---|---|
| JavaText.Fields | src/main/java/com/example/conecta4buena/Server.java:69 | the split pieces are never empty as a list and none contains the separator |
| JavaText.JoinFields | src/main/java/com/example/conecta4buena/Server.java:69 | splitting loses no character: joining the fields with the separator gives back the string |
| JavaText.FieldsOfJoin | src/main/java/com/example/conecta4buena/Server.java:69 | a non-empty list of separator-free fields is recovered by splitting its join |
| JavaText.DropTrailingEmpty | src/main/java/com/example/conecta4buena/Client.java:137 | the result is a prefix of the fields, everything dropped is empty, and the last kept field is non-empty |
| JavaText.Split | src/main/java/com/example/conecta4buena/Server.java:69 | no part contains the separator |
| JavaText.SplitPair | src/main/java/com/example/conecta4buena/Server.java:69-70 | `a sep b` splits into exactly `[a, b]` when neither contains the separator and `b` is not empty |
| JavaText.SplitHead | src/main/java/com/example/conecta4buena/Client.java:137-143 | `a sep b`, with `a` free of the separator and `b` non-empty and not opening with the separator, has at least two parts and `a` first, whatever `b` holds |
| JavaText.KeepsNonEmpty | src/main/java/com/example/conecta4buena/Client.java:137-138 | a non-empty field is never dropped by the split, nor is any field before it |
| JavaText.SplitPrefix | src/main/java/com/example/conecta4buena/Client.java:137-144 | when the second part is non-empty, text after a second separator leaves the first two parts unchanged |
| JavaText.SplitFirst | src/main/java/com/example/conecta4buena/Client.java:137-143 | `a sep b`, with `a` non-empty and free of the separator, has `a` as its first part whatever `b` holds |
| JavaText.TrailingSeparatorDropped | src/main/java/com/example/conecta4buena/Client.java:137-141 | `"IMPACTO:"` splits into the one part `IMPACTO`, and `":"` into no part |
| JavaText.IntToString | src/main/java/com/example/conecta4buena/Server.java:77 | the rendering of an `int` is non-empty and contains neither `,` nor `:` |
| JavaText.ParseInt | src/main/java/com/example/conecta4buena/Server.java:71-72 | success yields a 32-bit value from a non-empty text that opens with a digit or a sign |
| JavaText.DigitsRoundTrip | src/main/java/com/example/conecta4buena/Server.java:77 | the digits rendered for a natural number read back as that number |
| JavaText.ParseIntRoundTrip | src/main/java/com/example/conecta4buena/Server.java:71-72 | parsing the rendering of any `int` gives the `int` back |
| JavaText.LeadingZeroValue | src/main/java/com/example/conecta4buena/Server.java:71-72 | a leading `0` does not change the value of a digit string |
| JavaText.ParseIntLeadingExtras | src/main/java/com/example/conecta4buena/Server.java:71-72 | for every non-empty digit string `d`, `+d` and `0d` parse as `d` does |
| JavaText.DigitsCanonical | src/main/java/com/example/conecta4buena/Server.java:71-72 | every non-empty digit string is the shortest rendering of its value behind leading zeros |
| JavaText.ParseIntCanonical | src/main/java/com/example/conecta4buena/Server.java:71-72 | whatever `parseInt` accepts is the rendering of its value up to a `+` sign, a `-` on zero and leading zeros, and a leading `-` gives a value of at most 0 and any other start a value of at least 0 |
| JavaText.ParseIntRejects | src/main/java/com/example/conecta4buena/Server.java:71-72 | a sign alone, the empty text and `1a` throw |
| Server.ShotReply | src/main/java/com/example/conecta4buena/Server.java:77-84 | every shot reply opens with its type tag followed by `:` |
| Server.Coordinates | src/main/java/com/example/conecta4buena/Server.java:77 | the `row,col` text is non-empty and free of `:`, so it stays one field of a reply |
| Server.SunkTextDistinct | src/main/java/com/example/conecta4buena/Server.java:61-84 | no shot reply and neither RESET text is the HUNDIDA text |
| Server.ParseRequest | src/main/java/com/example/conecta4buena/Server.java:57-72 | it is a control request exactly for the texts `RESET` and `ADD_SHIPS`, and shot coordinates are 32-bit values |
| Server.Place | src/main/java/com/example/conecta4buena/Server.java:103-118 | placement keeps the ships already there, leaves at most the `n` ships asked for unplaced, and never returns more draws than it was given |
| Server.PlaceAddsDistinct | src/main/java/com/example/conecta4buena/Server.java:107-117 | placement only adds ships, each one a drawn water cell, so the fleet grows by exactly the ships placed; it falls short only when the draws are used up |
| Server.PlaceCompletes | src/main/java/com/example/conecta4buena/Server.java:111-114 | the redraw loop places all ships whenever the draws offer that many distinct free cells |
| Server.PlaceRandomShips | src/main/java/com/example/conecta4buena/Server.java:103-118 | the board's ship cells afterwards are those of the placement specification on the ship cells before; no water cell changes |
| Server.MarkShip | src/main/java/com/example/conecta4buena/Server.java:116 | writing 1 into a water cell adds exactly that cell to the fleet and changes no other cell |
| Server.Restart | src/main/java/com/example/conecta4buena/Server.java:57-66 | RESET and ADD_SHIPS always leave the game active; without a fault they send exactly one reply, the `RESET:` text, and the fleet has three ships; the only fault is running out of draws, and then nothing is sent |
| Server.Fire | src/main/java/com/example/conecta4buena/Server.java:74-85 | a shot never changes the ships or the draws, never faults, sends one or two replies and can only end the game |
| Server.Step | src/main/java/com/example/conecta4buena/Server.java:57-91 | one pass sends at most two replies; it faults with `NumberFormat` exactly when the request has two fields one of which does not parse, and a faulting pass sends nothing |
| Server.Run | src/main/java/com/example/conecta4buena/Server.java:53-91 | a loop whose game is already over reads nothing and changes nothing; the loop sends at most two replies per inbox message |
| Server.ShotInRange | src/main/java/com/example/conecta4buena/Server.java:75-81 | an in-range shot is answered IMPACTO exactly on a ship cell, AGUA elsewhere, and leaves the ships alone; HUNDIDA follows and the game ends exactly when the board has no ship |
| Server.ShotOutOfRange | src/main/java/com/example/conecta4buena/Server.java:82-85 | an out-of-range shot is answered exactly `INVALIDO:row,col`, with no game-over check and no state change |
| Server.MalformedDropped | src/main/java/com/example/conecta4buena/Server.java:69-70 | a message that is no control token and does not split into two fields gets no reply and changes nothing |
| Server.RestartPlacesFleet | src/main/java/com/example/conecta4buena/Server.java:57-66 | RESET and ADD_SHIPS reactivate the game with exactly three distinct ships, all on the grid when the draws are (as a valid session's draws always are), and one `RESET:` reply; placement fails only when the draws are used up |
| Server.SunkEndsStep | src/main/java/com/example/conecta4buena/Server.java:146-152 | HUNDIDA, when sent, is the last reply of its step and the game is then inactive |
| Server.NoReplyAfterSunk | src/main/java/com/example/conecta4buena/Server.java:53-91 | no reply follows HUNDIDA on a connection |
| Server.FleetStaysAfloat | src/main/java/com/example/conecta4buena/Server.java:74-81 | with ships on the board no step sends HUNDIDA, and a step without a fault leaves ships on the board |
| Server.NeverSunkAfterPlacement | src/main/java/com/example/conecta4buena/Server.java:53-91 | once ships are on the board, the connection never sees HUNDIDA |
| Server.ShotBeforePlacement | src/main/java/com/example/conecta4buena/Server.java:12-13 | on the initial all-water board an in-range shot is answered AGUA then HUNDIDA, and the game ends |
| Server.Session.constructor | src/main/java/com/example/conecta4buena/Server.java:12-13 | the initial state is an all-water board and an active game |
| Server.Session.ResetGame | src/main/java/com/example/conecta4buena/Server.java:166-170 | a fresh all-zero board and an active game |
| Server.Session.AllShipsHit | src/main/java/com/example/conecta4buena/Server.java:154-164 | true exactly when no cell holds 1, that is, exactly when the fleet is empty |
| Server.Session.CheckGameOver | src/main/java/com/example/conecta4buena/Server.java:146-152 | HUNDIDA is sent and the game deactivated exactly when no ship is left |
| Server.Session.ResetAndPlace | src/main/java/com/example/conecta4buena/Server.java:57-66 | clearing the board, placing the ships and answering leaves the state, replies and fault the restart specification gives |
| Server.Session.Shoot | src/main/java/com/example/conecta4buena/Server.java:75-85 | reading the board and checking for game over leaves the flag and replies the shot specification gives; the board is not written |
| Server.Session.Handle | src/main/java/com/example/conecta4buena/Server.java:53-91 | one pass of the loop on the board and flag matches the handler specification: same new state, same replies, same fault |
| Server.Session.Serve | src/main/java/com/example/conecta4buena/Server.java:47-99 | the `while (gameActive)` loop over the received messages matches the loop specification, stopping at game over, end of input or a fault |
| Client.Classify | src/main/java/com/example/conecta4buena/Client.java:136-166 | a message without `:` is malformed, and the payload of an IMPACTO or AGUA message never contains `:` |
| Client.AfterImpact | src/main/java/com/example/conecta4buena/Client.java:170-192 | an impact leaves the counter as it was or takes one off with Java's wrap-around, keeps it a 32-bit value, and can end the game but never restart it |
| Client.DecodeCoordinates | src/main/java/com/example/conecta4buena/Client.java:171-173 | decoded coordinates are 32-bit values |
| Client.Decrement | src/main/java/com/example/conecta4buena/Client.java:181 | Java's `--` on an `int`: one less, wrapping from the minimum to the maximum |
| Client.React | src/main/java/com/example/conecta4buena/Client.java:136-168 | the counter stays a 32-bit value after any message |
| Client.ReactAll | src/main/java/com/example/conecta4buena/Client.java:125-134 | the counter stays a 32-bit value, and once the game is over no further message changes anything |
| Client.ReactAllConcat | src/main/java/com/example/conecta4buena/Client.java:125-134 | processing two batches of messages one after the other is processing their concatenation |
| Client.MalformedDiscarded | src/main/java/com/example/conecta4buena/Client.java:137-141 | a message with fewer than two `:` parts changes neither field |
| Client.OnlyImpactAndWinCount | src/main/java/com/example/conecta4buena/Client.java:146-167 | only IMPACTO and HUNDIDA change the state; HUNDIDA ends the game and keeps the counter |
| Client.ImpactCountsDown | src/main/java/com/example/conecta4buena/Client.java:170-192 | while the counter is above the `int` minimum, an IMPACTO on a grid cell takes exactly one off the counter and ends the game exactly when it reaches 0; any other payload changes nothing |
| Client.PayloadIsSecondPart | src/main/java/com/example/conecta4buena/Client.java:143-144 | when the payload is non-empty, text after a second `:` does not change how a message is decoded |
| Client.CoordinatesRoundTrip | src/main/java/com/example/conecta4buena/Client.java:171-173 | decoding `row,col` gives back the pair for every pair of `int`s |
| Client.ShotRequest | src/main/java/com/example/conecta4buena/Client.java:116 | a click's request is never `RESET` or `ADD_SHIPS` and contains no `:` |
| Client.Client.constructor | src/main/java/com/example/conecta4buena/Client.java:34-35 | the game starts active with 3 ships remaining and nothing sent |
| Client.Client.HandleButtonClick | src/main/java/com/example/conecta4buena/Client.java:113-122 | a click sends `row,col` when the game is active and nothing otherwise |
| Client.Client.HandleAddShipsButton | src/main/java/com/example/conecta4buena/Client.java:282-290 | the button sends `ADD_SHIPS` |
| Client.Client.HandleResetButton | src/main/java/com/example/conecta4buena/Client.java:221-228 | the game becomes active with 3 ships remaining, and nothing is sent |
| Client.Client.HandleImpact | src/main/java/com/example/conecta4buena/Client.java:170-192 | the fields change as the impact specification says |
| Client.Client.HandleWin | src/main/java/com/example/conecta4buena/Client.java:211-219 | the game ends and the counter is unchanged |
| Client.Client.ReceiveMessages | src/main/java/com/example/conecta4buena/Client.java:125-134 | the loop reads messages until the input ends or the game is over, and leaves the fields as the loop specification says |
| Client.Client.ProcessMessage | src/main/java/com/example/conecta4buena/Client.java:136-168 | the fields change as the message specification says and nothing is sent |
| RoundTrip.SameGrid | src/main/java/com/example/conecta4buena/Server.java:120-123 | the server's bounds check is true exactly when `0 <= row < 5` and `0 <= col < 5`, the cells of the client's button grid |
| RoundTrip.RequestRoundTrip | src/main/java/com/example/conecta4buena/Client.java:116 | the server decodes a click's `row,col` as the shot at that same pair |
| RoundTrip.ReplyRoundTrip | src/main/java/com/example/conecta4buena/Server.java:77-84 | the client decodes every shot reply as its own type, with `row,col` as payload, and that payload decodes to the pair |
| RoundTrip.ClassifyTagged | src/main/java/com/example/conecta4buena/Client.java:143-159 | a shot tag followed by `:` and a non-empty `:`-free payload is decoded as that type with that payload |
| RoundTrip.WinAtClient | src/main/java/com/example/conecta4buena/Client.java:160-161 | a HUNDIDA message whose note is non-empty and does not open with `:` ends the client's game and keeps its counter |
| RoundTrip.EmptyWinDiscarded | src/main/java/com/example/conecta4buena/Client.java:137-141 | a bare `HUNDIDA:` splits into one part and is discarded as malformed, so it does not end the client's game |
| RoundTrip.ResetAtClient | src/main/java/com/example/conecta4buena/Client.java:163-165 | a RESET-tagged message, whatever its note, leaves the client's state unchanged |
| RoundTrip.ControlRepliesAtClient | src/main/java/com/example/conecta4buena/Server.java:61-66 | the server's HUNDIDA text (sent at Server.java:149) ends the client's game, and its two RESET texts change nothing at the client |
| RoundTrip.ShotRepliesAtClient | src/main/java/com/example/conecta4buena/Client.java:125-192 | an active client whose counter is above the `int` minimum, reading a shot's reply and HUNDIDA after it when the board was empty: one ship fewer after IMPACTO, game over after HUNDIDA, otherwise no change |
| RoundTrip.ShotExchange | src/main/java/com/example/conecta4buena/Server.java:75-81 | for a click on the grid by an active client whose counter is above the `int` minimum, the client's state after the server's replies: one ship fewer on a ship cell, game over on an empty board, otherwise unchanged |
| RoundTrip.RepeatedHitEndsClientGame | src/main/java/com/example/conecta4buena/Client.java:181-183 | three shots at one ship cell leave the server's state as it was, yet take the client from 3 ships to 0 and end its game |
| RoundTrip.ClickBeforePlacement | src/main/java/com/example/conecta4buena/Server.java:12-13 | before any placement the first click on the grid ends the game on both sides |

## Left out

- Sockets, the `readUTF`/`writeUTF` framing, `ServerSocket.accept` and the UDP hello channel are not modelled. Messages are strings in and sequences of strings out, and the end of the client's stream is the end of the inbox.
- Threads are not modelled, nor is the sharing of the static `tablero`/`gameActive` by every connection. One connection is modelled, sequentially.
- `java.util.Random` and its distribution are not modelled. The draws are a sequence of in-range cells given to the session.
  - When the sequence runs out during placement, the handler stops with the fault `DrawsExhausted`. Java would keep drawing instead.
  - `Server.PlaceCompletes` states when that cannot happen.
- `printBoard` and every console or stack-trace output are left out: they only print.
- `Integer.parseInt` is modelled for ASCII digits only. Java also accepts other Unicode decimal digits.
  - A `NumberFormatException` on the server is the fault `NumberFormat`, which ends the loop.
  - On the client, an exception in a handler leaves the fields unchanged. That covers a failed parse, a missing field, or coordinates outside the button grid.
- The JavaFX user interface is not modelled: button texts, labels, `disableButtons`, `resetButtons` and the window.
  - `handleWater` and `handleInvalid` only update the display, so they change no modelled state.
  - `Platform.runLater` deferral is treated as immediate.
- `receiveMessages` runs on its own thread and reads `gameActive` while the UI thread writes it. The model runs both in one sequence, so the loop sees every update at once.
  - In the model the receiving loop (`Client.ReactAll`, `Client.Client.ReceiveMessages`) stops as soon as the client's game ends, and the reset button does not restart it.
  - In Java, `gameActive = false` is written later on the UI thread (Client.java:184-185 and 212-213), so the loop may test `while (gameActive)` first and read on after a counter win. A reset re-enables the grid and the loop goes on. Only after `HUNDIDA` does the server close the socket (Server.java:94), which ends the loop with an exception.
- Client.Client.HandleButtonClick: the grid buttons disabled by `disableButtons` are not modelled. After a win the click is already refused by the `gameActive` test.
