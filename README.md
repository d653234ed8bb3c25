# Dot-connecting puzzle: level solver, play screen and purchasing-plugin settings

This project models the logic core of a Unity puzzle game. A level is a
rectangular board of Empty, Wall and Start cells. The player drags a chain of
dots from the Start cell onto every Empty cell, one orthogonal step at a
time. The project also covers three small parts of the bundled in-app
purchase plugin: the login form's input check, the settings page's
scripting-define rewriter, and the enum tables that rewriter reads.

Modules (one per concern, in dependency order):

- `Grid` (grid.dfy): cells, the row-major layout `y * width + x`, and the
  cell tags Empty = 0, Wall = 1 and Start = 2.
- `Solver` (solver.dfy): a pure, value-level statement of what
  `LevelData.GetWayData` computes.
  - `Walk` is its depth-first search.
  - `Solve` is the whole operation, including its error cases.
  - Lemmas prove the result is sound, complete and the first route in move
    order.
- `Levels` (levels.dfy): the `LevelData` asset as a class over a byte array.
  - `GetBlock`.
  - `GetWayData`, with its local `FindWay`/`CheckWay` over a mutable
    `array2<bool>` visited overlay, proved equal to `Solve`.
  - The layout part of `GenerateRandomLevel`.
  - The `LevelDataEditor` inspector's resize and click handling.
- `Game` (game.dfy): the dots and the game manager. They are one module
  because they call each other (`CheckOnEnter` runs `CheckWin`).
  - `Dot`: `Init`, the `IsCurrent` setter and `CheckOnEnter`.
  - `GameManager`: `MakeLevel`, `CheckWin`, `OnWin`, the buttons and the
    help replay.
  - The main theorem: on a freshly built solved level, replaying the stored
    route wins the level (`OnHelpButton`, through `Replay` and `HelpTour`).
- `Enums` (enums.dfy): the `BuildTargetIAP` flags and the store-plugin enums
  as literal tables, with their `Description` texts.
- `Wrappers` (wrappers.dfy) and `Sequences` (sequences.dfy): the optional
  value and the first-occurrence search the other modules share.
- `Login` (login.dfy): `UILogin.Validate` and the three buttons guarded by
  it. The e-mail pattern is decided by a direct scan, proved equal to its
  "local @ domain . tld" reading.
- `IAPSettings` (iapsettings.dfy): the settings page's scripting-define logic.
  - `SetScriptingDefine` (split, remove, append, reverse-join).
  - `FindScriptingDefineIndex`.
  - The platform bit mask of `GetScriptingDefines` and
    `ApplyScriptingDefines`.
  - The automatic third-party choice.

Behaviour that is modelled as the code does it:

- **The route has no Start cell.**
  - `GetWayData` returns the route's steps after the Start cell, one per
    open cell; the Start cell itself is never listed.
  - A cell is open when its tag is neither Wall nor Start, so a byte value of
    3 or more counts as open.
  - `MakeLevel` gives such a cell no dot, and the inspector cannot draw it.
- **Several Start cells.** The search begins at the last Start cell in
  row-major order. With no Start cell at all, the search begins at (0, 0)
  without marking it.
- **Empty rows or columns.** On a board with no rows or no columns, the
  solver's first move test reads the overlay at [1, 0] or [0, 1]. It throws
  unless the other side is at most 1.
- **The generator's index.** The generator writes the Start cell and the
  walls at index `x * y + x` of the array, not `y * width + x`. This index is
  always inside the array (`GeneratorIndexBound`).
- **The duplicate test never fires.** The generator's duplicate test compares
  array references. A freshly allocated array is never another asset's, so
  the test never rejects a layout (`GenerateRandomLevel`'s second
  postcondition).
- **Starting values.** The stored counters begin at 3 help uses and level 350
  (Assets/Scripts/Data/Data.cs).
- **A trailing line feed passes.** .NET's `$` also matches before a final
  line feed, so `"a@b.cd\n"` passes the e-mail check (`TrailingLineFeed`).
- **Lengths are UTF-16 lengths.** The password check compares .NET's
  `String.Length`, which counts UTF-16 code units, so three emoji make a
  password of length 6 that passes (`PasswordCodeUnits`).
- **Split is never empty.** `String.Split(';')` always yields at least one
  piece, so the emptiness test of the symbol list in `SetScriptingDefine`
  never holds.
- **Substring matching.** `FindScriptingDefineIndex` matches defines as
  substrings (`String.Contains`). For example, the third-party define
  "XSOLLA" is found inside "XSOLLA_IAP".

Random choices, the level assets on disk and the engine's symbol store are
inputs:

- `GenerateRandomLevel` takes a sequence of raw random values, two per drawn
  cell. It also takes an attempt budget for its regeneration.
- `GameManager` takes a map from level number to `LevelData`.
- `SettingsProvider` takes a map from build-target group to symbol string.

## Model

| member | source | states |
|---|---|---|
| Grid.Get | Assets/Scripts/LevelData.cs:229-233 | on a board whose array covers width x height cells, a cell is present exactly when it is on the board; on any board it is present exactly when its row-major index is also inside the array, and then it is that array entry |
| Levels.LevelData.GetBlock | Assets/Scripts/LevelData.cs:229-233 | the accessor fails with OutOfRange exactly for a coordinate off the board or an index past the array; otherwise it returns the tag of cell (x, y) at index y * width + x |
| Levels.LevelData.constructor | Assets/Scripts/LevelData.cs:11-14 | a new asset is a 4 x 4 board of Empty cells with no stored route |
| Solver.DirOf | Assets/Scripts/LevelData.cs:149-204 | a move index below 4 exists exactly for an orthogonal neighbour, and that move of the fixed up, down, left, right order leads to it |
| Solver.TourLength | Assets/Scripts/LevelData.cs:127-132 | a route has one step per open cell, the length of the buffer the source allocates |
| Solver.Walk | Assets/Scripts/LevelData.cs:138-206 | FindWay's depth-first search, trying up, down, left, right in that order (no contract of its own): WalkSound, WalkComplete and WalkFirst prove that a found route is a tour of the free cells, that a route is found whenever one exists from move k on, and that it is the first in move order |
| Solver.WalkSound | Assets/Scripts/LevelData.cs:138-206 | every route the search returns steps orthogonally, starting next to the start cell, onto every free cell exactly once and onto nothing else |
| Solver.WalkComplete | Assets/Scripts/LevelData.cs:138-206 | when such a route exists whose first move is move k or later, the search from move k finds one |
| Solver.WalkFirst | Assets/Scripts/LevelData.cs:149-204 | the route found is the first in move order: no route starting with move k or later has a lexicographically smaller move sequence |
| Solver.Solve | Assets/Scripts/LevelData.cs:101-227 | GetWayData as a value: OutOfRange when the array does not cover the board or when an empty dimension meets a side of 2 or more, and otherwise the search from the last Start cell ((0, 0) when there is none), empty when it fails (no contract of its own): SolveSound, SolveComplete, SolveFirst and SolveStepsOpen prove that a non-empty result is the first tour of the open cells and that an empty one means there is no tour |
| Solver.SolveSound | Assets/Scripts/LevelData.cs:107-226 | a non-empty result is a route over the open cells from the start cell, with length equal to the number of open cells |
| Solver.SolveStepsOpen | Assets/Scripts/LevelData.cs:107-132 | every entry of a result is an in-bounds cell tagged neither Wall nor Start, so the Start cell and the walls never appear |
| Solver.SolveComplete | Assets/Scripts/LevelData.cs:138-206 | if any route over the open cells exists from the start cell, the result is non-empty; an empty result means there is none |
| Solver.SolveFirst | Assets/Scripts/LevelData.cs:149-204 | the result is the first route in the up, down, left, right order, which makes it deterministic |
| Solver.NoOpenCellsNoRoute | Assets/Scripts/LevelData.cs:127-206 | a board without open cells gives the empty result, because no move is ever legal |
| Solver.EnclosedStartNoRoute | Assets/Scripts/LevelData.cs:149-206 | a start cell whose four neighbours are all blocked or off the board gives the empty result when some other cell is open |
| Solver.StartPosIsLastStart | Assets/Scripts/LevelData.cs:119-122 | the search starts on a Start cell, and every other Start cell comes before it in row-major order |
| Levels.LevelData.CheckWay | Assets/Scripts/LevelData.cs:209-223 | the overlay check answers true exactly when no free cell is left unmarked |
| Levels.LevelData.FindWay | Assets/Scripts/LevelData.cs:138-207 | the result is the search's route written after the first `step` slots of the buffer, or empty; an empty result leaves every overlay mark as it was on entry |
| Levels.LevelData.TryMove | Assets/Scripts/LevelData.cs:149-204 | one of the four move blocks: either it ends the search with the route, or it restores the overlay and leaves the decision to the later moves |
| Levels.LevelData.Enter | Assets/Scripts/LevelData.cs:149-161 | the move onto an unmarked cell: it marks the cell and writes the step; then it returns at a full overlay, continues with the recursive route, or unmarks the cell when that route does not exist |
| Levels.LevelData.MarkCell | Assets/Scripts/LevelData.cs:111-123 | one cell of the first scan: Wall and Start are marked, Empty is unmarked, the start position moves to a Start cell, and an index past the array throws |
| Levels.LevelData.MarkRow | Assets/Scripts/LevelData.cs:109-124 | one row of the first scan extends the marked region by that row, or throws |
| Levels.LevelData.MarkCells | Assets/Scripts/LevelData.cs:109-124 | the cells of a row from column j on, scanned left to right |
| Levels.LevelData.MarkBlocked | Assets/Scripts/LevelData.cs:103-125 | the first scan succeeds exactly on a covered board; the overlay then marks exactly the cells that are not open, and the start is the last Start cell |
| Levels.LevelData.CountFree | Assets/Scripts/LevelData.cs:127-132 | the second scan counts exactly the unmarked cells |
| Levels.LevelData.GetWayData | Assets/Scripts/LevelData.cs:101-227 | the imperative search computes exactly Solve of the asset's layout, error cases included |
| Levels.RandomRange | Assets/Scripts/LevelData.cs:33-34 | Random.Range(0, n) lies in [0, n) for n > 0 and is 0 for n == 0 |
| Levels.GeneratorIndexBound | Assets/Scripts/LevelData.cs:36 | the generator's index x * y + x of a drawn cell stays inside the px x py array |
| Levels.Drawn | Assets/Scripts/LevelData.cs:40-43 | the index x * y + x derived from one random pair lies inside the px x py array |
| Levels.LevelData.PlaceStart | Assets/Scripts/LevelData.cs:33-36 | an all-Empty array gets the Start tag at index x * y + x, every other cell stays Empty, so there is one Start cell and no Wall |
| Levels.LevelData.DrawFree | Assets/Scripts/LevelData.cs:40-46 | pairs are drawn in order until one names a cell that is neither Wall nor Start, and every earlier pair named a Wall or the Start; when the choices run out before that, every pair drawn was rejected |
| Levels.LevelData.PlaceWall | Assets/Scripts/LevelData.cs:40-49 | pairs are drawn until one names a cell that is neither Wall nor Start: every earlier pair named such a cell, the chosen cell was Empty, it alone becomes Wall, so the Start count is kept and the Wall count rises by one; when the supplied choices run out every pair drawn was rejected and nothing is written |
| Levels.LevelData.PlaceWalls | Assets/Scripts/LevelData.cs:38-50 | each of the wallsCount walls is the index drawn by the pair that ends at its record entry, and every pair since the previous wall named a Wall or the Start cell of the layout built so far; the walls are distinct cells other than the Start's, every other cell stays Empty, the counts are one Start and wallsCount Walls, and the loop fails only when the choices run out |
| Levels.LevelData.Fill | Assets/Scripts/LevelData.cs:30-50 | a generated layout has the requested size; the Start cell sits at the index drawn from the first pair; the wallsCount walls sit at distinct indices other than the Start's, each drawn by its own run of pairs after the first with the earlier pairs of that run rejected, as DrawnWalls records; every other cell is Empty; `c` is the number of values used |
| Levels.DrawnWallsAt | Assets/Scripts/LevelData.cs:38-48 | the draw record wall by wall: wall i is the index of the pair that ends at ends[i], every pair since the previous wall was rejected on the layout built up to then, and the values are used in whole pairs |
| Levels.LevelData.SharesArray | Assets/Scripts/LevelData.cs:54-58 | the duplicate test answers true exactly when a stored level holds this very array object |
| Levels.LevelData.AcceptOrRetry | Assets/Scripts/LevelData.cs:52-64 | a filled layout whose array a stored level shares, or which has no route, is generated again from the remaining choices; an accepted level is well formed and solved, and for an asset not among the stored levels the duplicate test never rejects |
| Levels.LevelData.GenerateRandomLevel | Assets/Scripts/LevelData.cs:28-64 | an accepted level is well formed and solvable, and its stored route is the solver's; for an asset not among the stored levels, the duplicate test never rejects |
| Levels.NextTag | Assets/Scripts/LevelData.cs:299 | a click cycles Empty to Wall, Wall to Start, and Start to Empty |
| Levels.ClampSize | Assets/Scripts/LevelData.cs:275-276 | a negative size component becomes 0, and any other is kept |
| Levels.CopyRegion | Assets/Scripts/LevelData.cs:280-282 | the copy loops fill the top-left region that lies inside both bounds with the old tags |
| Levels.FilledKeeps | Assets/Scripts/LevelData.cs:279-282 | after the copy, a cell inside both bounds has its old tag and every other new cell is Empty |
| Levels.LevelDataEditor.ReshapeData | Assets/Scripts/LevelData.cs:277-285 | after a size change the asset has a fresh array of the new size that keeps every cell inside both bounds at the same (x, y), with all other cells Empty |
| Levels.LevelDataEditor.Resize | Assets/Scripts/LevelData.cs:274-286 | the size is clamped; a changed size reshapes the data as above and marks the asset changed, and an unchanged size leaves everything as it was |
| Levels.LevelDataEditor.Click | Assets/Scripts/LevelData.cs:288-302 | the cells are drawn in row-major order and each tag's colour is looked up before the click is handled: the click takes effect exactly when no cell up to and including the clicked one carries a tag of 3 or more; it then advances that cell's tag along the cycle and marks the asset changed, leaving every other cell alone; otherwise the drawing throws first and nothing changes |
| Game.ScanStartsAll | Assets/Scripts/Managers/GameManager.cs:79-106 | MakeLevel's scan meets exactly the Start cells, in row-major order |
| Game.Dot.Init | Assets/Scripts/Dot.cs:74-85 | a new dot is inactive with no predecessor, registered under the key (column j, row i) |
| Game.Dot.SetIsCurrent | Assets/Scripts/Dot.cs:44-64 | setting the flag makes the dot active and current and remembers the old current dot; clearing it makes the remembered dot current again and this one inactive |
| Game.Dot.CheckOnEnter | Assets/Scripts/Dot.cs:87-152 | entering the current dot's predecessor pops the chain without a win check; entering an inactive orthogonal neighbour pushes it and then runs the win check; anything else changes nothing; the chain invariant is kept |
| Game.Dot.Retreat | Assets/Scripts/Dot.cs:89-94 | a pop: the predecessor becomes current, and the old current dot becomes inactive |
| Game.Dot.Advance | Assets/Scripts/Dot.cs:98-146 | a push: the entered dot becomes current and active, with the old current dot as its predecessor; every dot is then active exactly when it was the last inactive one |
| Game.Dot.AdvanceAndCheck | Assets/Scripts/Dot.cs:96-150 | a push followed by the win check, which runs the win handler exactly when the push activated the last inactive dot |
| Game.GameManager.constructor | Assets/Scripts/Data/Data.cs:20-33 | play starts with 3 help uses, level 350 and an empty board |
| Game.GameManager.AllActiveIsNoneInactive | Assets/Scripts/Managers/GameManager.cs:136 | every dot is active exactly when no cell's dot is inactive |
| Game.GameManager.PopKeepsValid | Assets/Scripts/Dot.cs:89-92 | the current dot's predecessor is the dot before it in the chain |
| Game.GameManager.InactiveNotPredecessor | Assets/Scripts/Dot.cs:89 | an inactive dot is never the current dot's predecessor, so entering it cannot pop |
| Game.GameManager.CheckWin | Assets/Scripts/Managers/GameManager.cs:134-139 | the win handler runs exactly when every dot is active |
| Game.GameManager.OnWin | Assets/Scripts/Managers/GameManager.cs:141-150 | the level counter rises by one only when the level just won is the current one |
| Game.GameManager.MakeCell | Assets/Scripts/Managers/GameManager.cs:84-106 | one cell of the scan: an Empty cell gets a dot, a Start cell a dot that becomes current, a Wall nothing; an index past the array throws |
| Game.GameManager.AddDot | Assets/Scripts/Managers/GameManager.cs:84-89 | an Empty cell gets a new inactive dot under its key |
| Game.GameManager.AddStart | Assets/Scripts/Managers/GameManager.cs:99-106 | a Start cell gets a new dot that becomes current |
| Game.GameManager.Place | Assets/Scripts/Managers/GameManager.cs:86-87 | a cell that gets a dot gets a new inactive one under its own key |
| Game.GameManager.Promote | Assets/Scripts/Managers/GameManager.cs:104-105 | the Start dot becomes current, and the chain grows by it |
| Game.GameManager.MakeRow | Assets/Scripts/Managers/GameManager.cs:82-109 | one row of the scan extends the built board by that row, or throws at the first index past the array |
| Game.GameManager.MakeRows | Assets/Scripts/Managers/GameManager.cs:79-112 | the scan of all rows succeeds exactly on a covered board and builds it completely |
| Game.GameManager.BuiltBoard | Assets/Scripts/Managers/GameManager.cs:79-112 | after the scan, there is one dot per Empty or Start cell and none for a Wall, and a dot is active exactly on a Start cell |
| Game.GameManager.BuiltPlayable | Assets/Scripts/Managers/GameManager.cs:99-106 | a board with a Start cell is playable: the chain invariant holds, the last Start dot is current, and the chain holds only the Start dots |
| Game.GameManager.BuiltShows | Assets/Scripts/Managers/GameManager.cs:79-112 | a completed scan shows the layout, and the current dot changes exactly when the layout has a Start cell |
| Game.GameManager.MakeLevel | Assets/Scripts/Managers/GameManager.cs:54-112 | the board is rebuilt from the level and shows it, and the level number is recorded for restart; a missing level or a short cell array throws |
| Game.GameManager.InactiveIsOpen | Assets/Scripts/Managers/GameManager.cs:79-106 | on a board just built, the inactive dots are exactly the solver's open cells |
| Game.GameManager.HelpTour | Assets/Scripts/Managers/GameManager.cs:186-197 | on a freshly built solved level, the stored route is a tour of the inactive dots from the current dot |
| Game.GameManager.ReplayStep | Assets/Scripts/Managers/GameManager.cs:197-201 | one replayed step of a tour is a push; the rest of the route is still a tour, and the last step wins |
| Game.GameManager.Replay | Assets/Scripts/Managers/GameManager.cs:195-202 | replaying a tour of the inactive cells activates every dot and runs the win handler exactly once; a step without a dot throws |
| Game.GameManager.OnRestartButton | Assets/Scripts/Managers/GameManager.cs:168-171 | restart rebuilds the level number recorded by the last MakeLevel |
| Game.GameManager.OnPlayButton | Assets/Scripts/Managers/GameManager.cs:152-157 | play builds the current level |
| Game.GameManager.OnNextLevelButton | Assets/Scripts/Managers/GameManager.cs:160-166 | next level builds the level the counter now names |
| Game.GameManager.OnHelpButton | Assets/Scripts/Managers/GameManager.cs:174-203 | with no help left nothing changes; otherwise one help is spent, the level is rebuilt, and on a solved level the replay of its stored route wins it |
| Enums.FlagsAreBits | Assets/SimpleIAPSystem/Scripts/Enums.cs:50-58 | platform i has the single bit 1 << i, the six platforms are distinct, and all their flags together make 63 |
| Enums.GetEnumDescriptions | Assets/SimpleIAPSystem/Scripts/Enums.cs:19-26 | the loop builds the reference description list Descriptions |
| Enums.Descriptions | Assets/SimpleIAPSystem/Scripts/Enums.cs:19-26 | the reference description list: one entry per member, in order |
| Enums.ContiguousAscending | Assets/SimpleIAPSystem/Scripts/Enums.cs:74-157 | values numbered 0, 1, 2, ... are ascending, so GetValues order is table order and a member's position is its value |
| Enums.DesktopTable | Assets/SimpleIAPSystem/Scripts/Enums.cs:74-96 | the desktop plugin enum is numbered from 0, describes value 0 as "", and has distinct descriptions without ';' |
| Enums.AndroidTable | Assets/SimpleIAPSystem/Scripts/Enums.cs:102-109 | the same for the Android plugin enum |
| Enums.IOSTable | Assets/SimpleIAPSystem/Scripts/Enums.cs:115-122 | the same for the iOS plugin enum |
| Enums.WebTable | Assets/SimpleIAPSystem/Scripts/Enums.cs:128-141 | the same for the web plugin enum |
| Enums.ThirdPartyTable | Assets/SimpleIAPSystem/Scripts/Enums.cs:147-157 | the same for the third-party enum |
| Enums.UIAssetNames | Assets/SimpleIAPSystem/Scripts/Enums.cs:32-43 | members without a Description attribute are described by their names |
| Login.MatchesAllShape | Assets/SimpleIAPSystem/Scripts/UILogin.cs:238-240 | the scan accepts a string exactly when it splits into a non-empty local part, '@', a non-empty domain, '.', and a non-empty letters-only top-level domain |
| Login.JoinMatches | Assets/SimpleIAPSystem/Scripts/UILogin.cs:238-243 | every such local + "@" + domain + "." + tld matches the pattern |
| Login.Validate | Assets/SimpleIAPSystem/Scripts/UILogin.cs:226-246 | the result is "" or one of the three messages, and "" only for a non-empty address that matches the pattern with a password longer than 5 UTF-16 code units; ValidateAccepts proves the converse and the order of the messages |
| Login.ValidateAccepts | Assets/SimpleIAPSystem/Scripts/UILogin.cs:226-246 | Validate returns "" exactly for a password longer than 5 UTF-16 code units and an address of the pattern, optionally followed by one line feed; otherwise it returns the first failing check's message, in the order fields, password, address |
| Login.Utf16Length | Assets/SimpleIAPSystem/Scripts/UILogin.cs:228-233 | .NET's String.Length counts UTF-16 code units: at least the number of characters and at most twice it, and equal to it exactly when no character lies outside the Basic Multilingual Plane |
| Login.PasswordCodeUnits | Assets/SimpleIAPSystem/Scripts/UILogin.cs:233 | three emoji are six code units and pass the length check; five letters do not |
| Login.TrailingLineFeed | Assets/SimpleIAPSystem/Scripts/UILogin.cs:238-240 | one final line feed is accepted and a second one is not |
| Login.UILogin.Start | Assets/SimpleIAPSystem/Scripts/UILogin.cs:71-79 | a stored address fills the e-mail field |
| Login.UILogin.RegisterAccount | Assets/SimpleIAPSystem/Scripts/UILogin.cs:144-161 | an input error is shown and nothing else happens; valid input shows the loading screen, stores the address and sends one registration request |
| Login.UILogin.LoginWithEmail | Assets/SimpleIAPSystem/Scripts/UILogin.cs:167-184 | the same, with one login request |
| Login.UILogin.ForgotPassword | Assets/SimpleIAPSystem/Scripts/UILogin.cs:209-223 | only a non-empty address is required; the request then goes out and the error label is cleared |
| Login.UILogin.OnLoginFail | Assets/SimpleIAPSystem/Scripts/UILogin.cs:128-138 | the loading screen is hidden and the backend's message is shown |
| IAPSettings.Split | Assets/SimpleIAPSystem/Editor/IAPSettingsProvider.cs:453 | a split is never empty, and no piece holds the separator |
| IAPSettings.JoinSplit | Assets/SimpleIAPSystem/Editor/IAPSettingsProvider.cs:453 | joining the pieces of a split with ';' gives the string back |
| IAPSettings.SplitJoin | Assets/SimpleIAPSystem/Editor/IAPSettingsProvider.cs:453 | splitting a join of separator-free pieces gives the pieces back |
| IAPSettings.RemoveFirstCount | Assets/SimpleIAPSystem/Editor/IAPSettingsProvider.cs:459 | List.Remove takes out exactly one copy of the entry, or nothing when it is absent |
| IAPSettings.RemoveAllCount | Assets/SimpleIAPSystem/Editor/IAPSettingsProvider.cs:456-460 | the removal loop takes out one copy of each non-empty old define, and every other entry stays |
| IAPSettings.TerminatedJoin | Assets/SimpleIAPSystem/Editor/IAPSettingsProvider.cs:465-467 | the output string is the entries in reverse order, each followed by ';' |
| IAPSettings.SplitTerminated | Assets/SimpleIAPSystem/Editor/IAPSettingsProvider.cs:465-467 | splitting the output again gives the entries reversed, plus one empty last piece |
| IAPSettings.ReverseMultiset | Assets/SimpleIAPSystem/Editor/IAPSettingsProvider.cs:465-467 | reversing keeps every entry |
| IAPSettings.DefineTables | Assets/SimpleIAPSystem/Editor/IAPSettingsProvider.cs:435-446 | the description tables the page passes to the rewriter have distinct, separator-free entries, with "" first |
| IAPSettings.TableOf | Assets/SimpleIAPSystem/Scripts/Enums.cs:74-157 | the descriptions of any plugin enum form such a table |
| IAPSettings.RewrittenClean | Assets/SimpleIAPSystem/Editor/IAPSettingsProvider.cs:453-467 | a rewrite introduces no separator into any entry |
| IAPSettings.RewriteCounts | Assets/SimpleIAPSystem/Editor/IAPSettingsProvider.cs:450-470 | after a rewrite with a table, a table define occurs exactly once when it is the chosen one (index > 0) and not at all otherwise, provided it occurred at most once before; other entries keep their counts |
| IAPSettings.FirstDefine | Assets/SimpleIAPSystem/Editor/IAPSettingsProvider.cs:409-417 | the search result is 0 or a table index at or after the starting index |
| IAPSettings.FirstDefineLeast | Assets/SimpleIAPSystem/Editor/IAPSettingsProvider.cs:409-417 | the result is the smallest index i >= 1 whose define occurs in the symbols as a substring, or 0 when none does |
| IAPSettings.SearchDefines | Assets/SimpleIAPSystem/Editor/IAPSettingsProvider.cs:409-417 | the search loop computes that index |
| IAPSettings.ReadBackValid | Assets/SimpleIAPSystem/Editor/IAPSettingsProvider.cs:365-371 | every plugin choice read back from the symbols is a member of its enum |
| IAPSettings.FlagBits | Assets/SimpleIAPSystem/Editor/IAPSettingsProvider.cs:358 | a platform's flag as 32 bits has the flag's value |
| IAPSettings.OrBits | Assets/SimpleIAPSystem/Editor/IAPSettingsProvider.cs:354-359 | OR-ing the six flags in list order sets bit i exactly for the platforms included; the mask is 0 for none and 63 for all |
| IAPSettings.MaskBits | Assets/SimpleIAPSystem/Editor/IAPSettingsProvider.cs:354-359 | the mask has bit i set exactly when platform i's symbols contain "SIS_IAP" |
| IAPSettings.MaskEachBit | Assets/SimpleIAPSystem/Editor/IAPSettingsProvider.cs:354-359 | the same, bit by bit |
| IAPSettings.MaskNoneOrAll | Assets/SimpleIAPSystem/Editor/IAPSettingsProvider.cs:361-362 | the mask is 0 exactly when no platform has the define, and 63 exactly when all six have it |
| IAPSettings.MaskBelow64 | Assets/SimpleIAPSystem/Editor/IAPSettingsProvider.cs:354-359 | the mask has no bit above the six flags |
| IAPSettings.StoredBits | Assets/SimpleIAPSystem/Editor/IAPSettingsProvider.cs:362-363 | a mask other than 0 and 63 is stored as itself |
| IAPSettings.MinusOneBits | Assets/SimpleIAPSystem/Editor/IAPSettingsProvider.cs:362 | the stored -1 has all six platform bits set |
| IAPSettings.SelectedMirror | Assets/SimpleIAPSystem/Editor/IAPSettingsProvider.cs:423-432 | selecting by bits that mirror the define's presence gives exactly the platforms that have the define, in list order |
| IAPSettings.SelectedAll | Assets/SimpleIAPSystem/Editor/IAPSettingsProvider.cs:423-432 | bits with the six low ones set select every platform |
| IAPSettings.StoredMaskSelects | Assets/SimpleIAPSystem/Editor/IAPSettingsProvider.cs:354-432 | reading the mask and applying it back selects exactly the platforms whose symbols have the define, or all six when none or all of them do |
| IAPSettings.PlayfabNames | Assets/SimpleIAPSystem/Editor/IAPSettingsProvider.cs:166 | the PlayFab-named plugins are desktop values 1 to 3 and web values 1 and 2 |
| IAPSettings.AutoThirdParty | Assets/SimpleIAPSystem/Editor/IAPSettingsProvider.cs:166-167 | the third-party choice becomes Xsolla (2), PlayFab (1) or stays as it was; AutoThirdPartyChoice proves which one for each plugin selection |
| IAPSettings.AutoThirdPartyChoice | Assets/SimpleIAPSystem/Editor/IAPSettingsProvider.cs:166-167 | an Xsolla plugin on desktop, web, Android or iOS selects Xsolla; otherwise a PlayFab-named desktop or web plugin selects PlayFab; otherwise the choice is kept |
| IAPSettings.RemoveDefines | Assets/SimpleIAPSystem/Editor/IAPSettingsProvider.cs:456-460 | the removal loop computes the one-copy-each removal |
| IAPSettings.JoinDefines | Assets/SimpleIAPSystem/Editor/IAPSettingsProvider.cs:465-467 | the output loop computes the reversed, ';'-terminated string |
| IAPSettings.SettingsProvider.SetScriptingDefine | Assets/SimpleIAPSystem/Editor/IAPSettingsProvider.cs:450-470 | the group's symbols become the rewrite of the old ones; oldDefines[newDefine] is appended exactly when newDefine > 0; an index past the table throws before anything is written; no other group changes |
| IAPSettings.SettingsProvider.FindScriptingDefineIndex | Assets/SimpleIAPSystem/Editor/IAPSettingsProvider.cs:381-418 | the result is the first define of the group's table, from index 1 on, found in that group's symbols (the active group's for Unknown), or 0 |
| IAPSettings.SettingsProvider.ReadMask | Assets/SimpleIAPSystem/Editor/IAPSettingsProvider.cs:354-359 | the first loop computes the OR of the flags of the platforms whose symbols have the define |
| IAPSettings.SettingsProvider.ReadPlugins | Assets/SimpleIAPSystem/Editor/IAPSettingsProvider.cs:365-371 | each plugin is read back from its group's symbols |
| IAPSettings.SettingsProvider.GetScriptingDefines | Assets/SimpleIAPSystem/Editor/IAPSettingsProvider.cs:352-378 | the stored mask is the platform mask, or -1 for none or all; purchasing is switched on when any platform has the define; the plugins are read back and valid |
| IAPSettings.SettingsProvider.SelectTargets | Assets/SimpleIAPSystem/Editor/IAPSettingsProvider.cs:423-432 | platform i is selected exactly when bit 1 << i of the stored mask is set, in list order |
| IAPSettings.SettingsProvider.SetEach | Assets/SimpleIAPSystem/Editor/IAPSettingsProvider.cs:434-446 | the same rewrite is applied to each group in turn |
| IAPSettings.SettingsProvider.ApplyScriptingDefines | Assets/SimpleIAPSystem/Editor/IAPSettingsProvider.cs:421-447 | the purchasing define is set in each selected platform's group; each plugin's define is set in its group; the third-party define is set in five groups; nothing but the symbols changes |

## Left out

- Rendering and feedback are not modelled, because they do not affect the
  board's state. This covers sprites, colours and layout, the connector
  images, `DoAnimation`, audio, banner and reward ads, the first-level hand
  tutorial (Assets/Scripts/Managers/GameManager.cs:114-124), raycast flags
  and the menu labels.
- Persistence is not modelled, because it is engine I/O. This covers
  PlayerPrefs writes, AssetDatabase saves, `OnDisable`'s save of the edited
  asset, `GetAllTheDataOfLevels` and `AutomaticLevelGenerate`. The level
  assets are an input map, and `GenerateRandomLevel`'s return value (a count
  of files on disk) is not modelled.
- Timing is not modelled: the 0.1 s cadence of the help replay is
  coroutine timing, so the replay is a plain sequence of steps.
- `LevelData.FindWay` (the editor menu command) and `Debug` are not
  modelled, because they only call `GetWayData` and log.
- Levels.LevelData.GenerateRandomLevel:
  - Its random values are a supplied sequence, which may run out
    (`OutOfChoices`) where the engine's generator never does.
  - The unbounded regeneration takes an attempt budget (`AttemptsExhausted`).
  - The wall loop, which can spin forever in the source, ends when the
    choices run out.
  - Termination of the source is therefore not claimed.
  - Its sizes and wall count are naturals, where the source takes C# `int`s.
    A negative wall count places no walls, one negative size makes the array
    allocation throw, and two negative sizes give a positive array length
    with Random.Range over reversed bounds; none of these is modelled.
  - Its contract describes an accepted layout by its tag counts; where each
    tag was placed is stated by Fill for one generation pass.
- Levels.LevelDataEditor.Resize requires an array of exactly width x height
  bytes. With a shorter array the source's copy loop would throw part-way.
  The scroll bar and GUI areas are not modelled.
- Game.Dot.CheckOnEnter requires the board invariant, which includes a
  current dot. On a board without a Start cell, the source would use a
  stale or null current dot.
- Game.Dot.SetIsCurrent: clearing the flag requires a predecessor. The
  source would dereference null without one.
- Game.GameManager.OnHelpButton:
  - With no help left it only reports success. The reward-ad offer is not
    modelled.
  - On a rebuilt board without a Start cell it returns false. The source
    would replay onto the previous board's stale current dot.
- Game.GameManager.OnWin: `currentLevel` is an unbounded integer, so the
  32-bit overflow after 2^31 - 1 levels is not modelled. The win sound and
  the raycast change of the last dot are left out.
- Login.UILogin: the following are not modelled, because they only forward
  to backend SDKs or the scene loader:
  - social and device login;
  - `OnLoggedIn`'s scene change;
  - event wiring in `OnEnable`/`OnDisable`;
  - `OnLoginFail`'s Xsolla token test;
  - `Start`'s Facebook loading screen.
  Requests are recorded in a list instead of being sent.
- IAPSettings.SettingsProvider.FindScriptingDefineIndex requires a group
  other than WSA and tvOS. The source's table lookup gives null for those
  groups, and the page never asks for them.
- IAPSettings.SettingsProvider: the engine's own normalisation of a stored
  symbol string is not modelled. It is a map entry that reads back exactly
  as written. The package-manager query (`Client.List`), the
  package-imported flag's source and the rest of the settings GUI are left
  out.
- The billing backends (PlayFab, Xsolla, Unity IAP stores, receipt
  validation) and all other UI windows are not modelled. They are adapters
  over vendor SDKs.
