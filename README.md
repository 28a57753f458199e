# Cookies, milk, addresses and cake layers, verified

This project models the logic at the centre of a small web service of seasonal puzzles and proves properties of it in Dafny.

- **The cookie-and-milk game** (`src/day12/game.rs`). The game is played on a 4×4 board under gravity.
  - `GameRules` holds the value-level rules:
    - the board as a `Grid` of cells;
    - the ten lines checked after every move, in the source's own order: four vertical lines (what `get_row` returns), four horizontal lines (what `get_column` returns), the main diagonal, then the anti-diagonal;
    - `all_same` and the verdict `update_state` reaches for a running game;
    - where a dropped piece lands;
    - the text a board renders to.
  - `GameEngine.GameBoard` is the board the server mutates. It is a class holding a 4×4 `array2` of cells, the game state, and the generator `randomize` draws from. Its methods `Place`, `Randomize` and `UpdateState` update that state in place, and each is proved against the rules.
- **Address keys** (`src/day2.rs`), module `AddressKeys`.
  - IPv4 destinations and keys are octet-wise wrapping addition and subtraction.
  - IPv6 uses the octet-wise exclusive or for both directions.
- **Decorations and cake** (`src/day23.rs`), module `Festive`.
  - The colour cycle of a present.
  - The toggle and CSS classes of an ornament.
  - The names both enums display and parse as.
  - The rule that turns a lockfile's package checksums into cake layers, or into a 422 refusal.

The glyphs are the Unicode characters the source writes:

| glyph | code point |
|---|---|
| white large square (wall) | U+2B1C |
| black large square (empty cell) | U+2B1B |
| cookie | U+1F36A |
| glass of milk | U+1F95B |

## Model

| member | source | states |
|---|---|---|
| GameRules.WithCell | src/day12/game.rs:87 | writing one cell sets that cell and leaves the other fifteen as they were |
| GameRules.Combinations | src/day12/game.rs:124-129 | exactly ten lines are checked |
| GameRules.CombinationCell | src/day12/game.rs:124-147 | line k, cell j of the chained lines is the reference-table cell: column k top to bottom for k < 4 (`get_row`), row k-4 left to right for k < 8 (`get_column`), then (j, j), then (j, 3-j) |
| GameRules.AllSame | src/day12/game.rs:150-158 | a `Some` verdict is shared by every cell of the line |
| GameRules.AllSameExactly | src/day12/game.rs:150-158 | `all_same` gives `Some(p)` if and only if the line is non-empty and every cell is `Some(p)`; so an all-empty line, or one holding any `None`, gives no winner |
| GameRules.FindMap | src/day12/game.rs:108 | `find_map` returns the verdict of the first line with a `Some` verdict; `None` means no line has one |
| GameRules.LineVerdict | src/day12/game.rs:108-158 | `all_same` on line k is `Some(p)` exactly when p fills line k |
| GameRules.AllLineVerdicts | src/day12/game.rs:108-158 | the same for all ten lines and both pieces, and a line gives `None` exactly when no piece fills it |
| GameRules.LinesOccupiedIffFull | src/day12/game.rs:110-113 | every cell of every checked line is occupied if and only if all 16 cells are |
| GameRules.EvaluateWinner | src/day12/game.rs:107-147 | the verdict is `Winner(p)` if and only if p fills the first line, in checking order, that one piece fills |
| GameRules.EvaluateDraw | src/day12/game.rs:110-114 | the verdict is `Draw` if and only if no line is filled by one piece and the board is full |
| GameRules.EvaluateRunning | src/day12/game.rs:115-117 | the verdict is `Running` if and only if no line is filled by one piece and some cell is empty |
| GameRules.OnlyPlacerCanWin | src/day12/game.rs:80-88 | from a position nobody has won, placing p can only make p the winner |
| GameRules.EmptyBelow | src/day12/game.rs:82-85 | the search up a column finds the lowest empty cell, with every cell below it occupied; no result means the whole column is occupied |
| GameRules.DropKeepsSettled | src/day12/game.rs:82-87 | if every occupied cell rests on another or on the bottom row, that still holds after a drop |
| GameRules.DropStacks | src/day12/game.rs:82-87 | a column holding its bottom h cells takes the next piece in row 3-h and then holds h+1; at height 4 there is no room. So drops into an empty column fill rows 3, 2, 1, 0 and a fifth finds the column full |
| GameRules.CellsText | src/day12/game.rs:57-63 | the glyph of each cell, in order, one per cell |
| GameRules.RowsTextAt | src/day12/game.rs:54-66 | row r of the text is the seven characters from 7r: wall, four cells, wall, newline |
| GameRules.RowsTextLength | src/day12/game.rs:54-66 | each row adds seven characters |
| GameRules.RenderLayout | src/day12/game.rs:52-77 | row 0 comes first; cell (r, c) is character 7r+1+c between walls; the 6-wall bottom line follows; then the status line, which is empty for `Running` |
| GameRules.CellGlyphInjective | src/day12/game.rs:57-63 | the empty, cookie and milk glyphs are pairwise distinct |
| GameRules.StatusTextInjective | src/day12/game.rs:69-74 | the status line tells `Running`, `Draw` and the two winners apart |
| GameRules.RenderInjective | src/day12/game.rs:52-77 | two boards, with their states, that render alike are equal |
| GameRules.EmptyBoardRunning | src/day12/game.rs:42-50 | a board with all 16 cells empty is `Running` |
| GameRules.FreshBoardText | src/day12/game.rs:171-181 | the fresh board renders as four walled rows of empty glyphs and the bottom wall, with no status line |
| GameRules.DiagonalWin | src/day12/game.rs:198-213 | cookies on the main diagonal only: won by the cookie, and the text ends in the cookie's "wins!" line |
| GameRules.CheckeredDraw | src/day12/game.rs:216-241 | the alternating full board of the draw test is a draw, and the text ends in "No winner." |
| GameEngine.RandomGrid | src/day12/game.rs:94-104 | the randomized board is full, and row r holds the draws at positions 4r .. 4r+3 from the start |
| GameEngine.RandomGridCells | src/day12/game.rs:94-104 | a board whose every cell holds the piece of its own row-major draw is that board |
| GameEngine.GameBoard.CellsFromDraws | src/day12/game.rs:94-104 | an array whose every cell holds the piece of its own row-major draw shows the randomized board |
| GameEngine.GameBoard.constructor | src/day12/game.rs:42-50 | a new board has all cells empty, state `Running`, and no draws taken yet |
| GameEngine.GameBoard.Place | src/day12/game.rs:80-92 | not running: `GameOver`, with board and state unchanged; column full: `ColumnFull`, with board and state unchanged; otherwise exactly the lowest empty cell of the column gets the piece, and the state becomes the verdict of the new board |
| GameEngine.GameBoard.Randomize | src/day12/game.rs:94-104 | every cell, in row-major order, takes one draw (true gives a cookie, false milk); exactly 16 draws are taken; the board is full; the state is unchanged |
| GameEngine.GameBoard.UpdateState | src/day12/game.rs:106-122 | a running game takes the verdict of its board; a won or drawn game keeps its state; the new state is returned |
| GameEngine.GameBoard.Text | src/day12/game.rs:52-77 | the text is the rendering of the current board and state, and it determines both: no other board and state render to it |
| AddressKeys.WrappingAdd | src/day2.rs:15-18 | the sum, less 256 when it does not fit in an octet |
| AddressKeys.WrappingSub | src/day2.rs:35-38 | the difference, plus 256 when it would be negative |
| AddressKeys.DestOctet | src/day2.rs:14-19 | octet i of the destination is (from[i] + key[i]) mod 256 and depends on nothing else |
| AddressKeys.KeyOctet | src/day2.rs:34-39 | octet i of the key is (to[i] - from[i]) mod 256 |
| AddressKeys.KeyOfDest | src/day2.rs:14-39 | `key(from, dest(from, k)) == k` |
| AddressKeys.DestOfKey | src/day2.rs:14-39 | `dest(from, key(from, to)) == to` |
| AddressKeys.ZeroKey | src/day2.rs:14-19 | the key 0.0.0.0 maps every address to itself |
| AddressKeys.XorBelow | src/day2.rs:71 | the exclusive or of two k-bit numbers is a k-bit number, so `u8 ^ u8` cannot overflow |
| AddressKeys.XorZeroRight | src/day2.rs:71 | x ^ 0 == x |
| AddressKeys.XorComm | src/day2.rs:71 | x ^ y == y ^ x |
| AddressKeys.XorXor | src/day2.rs:71 | (x ^ y) ^ y == x |
| AddressKeys.ZipXor | src/day2.rs:68-72 | the zipped result is as long as the shorter input, and octet i is the exclusive or of the inputs' octets i |
| AddressKeys.Ipv6XorSelfInverse | src/day2.rs:65-77 | `ipv6_xor(ipv6_xor(a, b), b) == a` |
| AddressKeys.Ipv6XorCommutative | src/day2.rs:65-77 | `ipv6_xor(a, b) == ipv6_xor(b, a)` |
| AddressKeys.Ipv6XorZero | src/day2.rs:65-77 | the all-zero address is the identity |
| AddressKeys.KeyV6OfDestV6 | src/day2.rs:51-63 | `key_v6(from, dest_v6(from, k)) == k` |
| AddressKeys.DestV6OfKeyV6 | src/day2.rs:51-63 | `dest_v6(from, key_v6(from, to)) == to` |
| Festive.NextColorCycle | src/day23.rs:94-100 | red, blue, purple form a 3-cycle: no colour is fixed, nor fixed by two steps, and three steps are the identity |
| Festive.ColorNameParses | src/day23.rs:103-120 | each colour displays as the one lower-case name the deserializer reads back as that colour |
| Festive.NextStateInvolution | src/day23.rs:137-142 | a click always changes the state, and two clicks undo each other |
| Festive.ClassesOnlyWhenOn | src/day23.rs:130-135 | the classes are "ornament on" if and only if the ornament is on, and "ornament" if and only if it is off |
| Festive.StateNameParses | src/day23.rs:145-159 | each state displays as the one lower-case name the deserializer reads back as that state |
| Festive.HexDigit | src/day23.rs:65 | a hexadecimal digit has a value below 16 |
| Festive.LowerHexDigit | src/day23.rs:73 | the lower-case digit written for a value reads back as that value |
| Festive.Hex2 | src/day23.rs:73 | `{:02x}` is always exactly two lower-case digits |
| Festive.HexLower | src/day23.rs:73 | the hex text of n bytes has 2n characters |
| Festive.HexDecodeLower | src/day23.rs:65-73 | decoding the lower-case hex text of any bytes gives those bytes back |
| Festive.HexDecodeLength | src/day23.rs:65 | a text that decodes is all hexadecimal digits and twice as long as its bytes |
| Festive.LayerOfBytes | src/day23.rs:73-76 | the colour is '#' and six lower-case hex digits, and they decode to bytes 0-2; `top` is byte 3 and `left` byte 4 |
| Festive.LayerIgnoresTail | src/day23.rs:73-76 | bytes past the fifth do not change the layer |
| Festive.Checksums | src/day23.rs:63-64 | packages without a checksum drop out, so there are at most as many checksums as packages |
| Festive.ChecksumsInOrder | src/day23.rs:60-64 | a lone package contributes its checksum or nothing, and the checksums of two runs of packages are those of the first followed by those of the second: package order is kept |
| Festive.ChecksumsAllPresent | src/day23.rs:63-64 | there are as many checksums as packages if and only if every package has one |
| Festive.LayersSucceed | src/day23.rs:60-78 | the result is a list of layers if and only if every checksum present decodes to at least five bytes; a refusal is always 422 |
| Festive.LayersValues | src/day23.rs:60-78 | an accepted lockfile has one layer per checksum, in package order, each the layer of its decoded bytes |
| Festive.LayersSpec | src/day23.rs:60-78 | the result is a list of layers if and only if every checksum present decodes to at least five bytes; the list then has one layer per checksum, in package order, each the layer of its decoded bytes; otherwise the result is the single error 422, with no partial list |

## Left out

- The generator: `StdRng::seed_from_u64(2024)` belongs to the `rand` library, and its bits are not reproduced. A `GameBoard` takes the booleans it yields as a parameter, `stream`, and counts the draws taken in `drawn`. Every statement about `randomize` holds for every stream.
- The column check in `src/day12.rs`: the server refuses columns outside 1 to 4 and subtracts one. That check is the source of `Place`'s precondition `column < 4`. Out of range, the source would panic on the array index.
- The rest of `src/day12.rs` is not part of this model: the routes, the shared `Arc<Mutex<_>>` board, and the HTTP status codes. Concurrency and HTTP are outside a sequential model. The reset route builds a fresh board, which is the constructor.
- Text encoding: a glyph is one Dafny `char` (one Unicode code point). The UTF-8 bytes of the text are not modelled.
- `src/day2.rs` text handling: query-string parsing and the text forms of `Ipv4Addr` and `Ipv6Addr`. Their parsing and printing, including IPv6 zero compression, belong to the standard library. Addresses are modelled as their octet sequences.
- `src/day23.rs` input and output: the multipart read, the TOML parse into a lockfile, and the 400 responses of both (lines 44-58). Also left out are the star route, the rinja templates, and the 418 answer to an unparsable path.
  - `ParseColor` and `ParseState` model only the path deserializer's accept-or-reject decision for one path segment.
  - `Layers` models only the status code of a failure, 422, not the `error!` log lines.
- `hex::decode` is modelled as the base16 decoding of section 8 of RFC 4648, as the `hex` crate implements it. An odd length, or any character that is not a hexadecimal digit, is an error, and both letter cases are accepted. The crate's specific error values are not distinguished, because the source maps them all to 422.
- `GameRules.Vertical`, `GameRules.Horizontal` and `GameRules.Diagonals` (`get_row`, `get_column` and `get_diagonals`) carry no contract of their own. What they produce is stated cell by cell in `CombinationCell`.
- The `Display` for `GamePiece` (`PieceGlyph`) likewise has no contract of its own. Its distinctness is stated in `CellGlyphInjective`, and its place in the text in `RenderLayout`.
